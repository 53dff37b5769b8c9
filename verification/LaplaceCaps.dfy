/**
 * The records for every decay above one half, up to where no table is needed. The numbers carry no authority of
 * their own: Checked is proved about each record, piece by piece.
 */
module LaplaceCaps {
  import opened LaplaceCost

  // decays 8193 to 9265

  const CAPS_9265: seq<int> :=
    [0, -2, 8187, -6, 16374, 8181, 8179, -14]
  const LEVELS_9265: seq<nat> :=
    [8191, 4632, 2619, 1481, 837, 473, 267, 151, 85, 48, 27, 15, 8]
  const I_9265 := Interval(8193, 9265, 16374, 1, LEVELS_9265, CAPS_9265)

  lemma Rows9265() ensures Rows(CAPS_9265, 1, 8, 8193, 9265) {}
  lemma Climb9265() ensures Rungs(LEVELS_9265, 0, 12, 1, 9265) {}
  lemma Bounds9265() ensures |CAPS_9265| == 8 && Caps(CAPS_9265, 8193, 9265, 16374) {}
  lemma Ends9265()
    ensures |LEVELS_9265| == 13 && LEVELS_9265[0] == 8191 && LEVELS_9265[12] == 8
  {}
  lemma Checked9265()
    ensures Checked(I_9265)
  {
    hide Caps, CAPS_9265, LEVELS_9265;
    Rows9265(); Climb9265(); Bounds9265(); Ends9265();
  }

  // decays 9266 to 9947

  const CAPS_9947: seq<int> :=
    [0, -2148, 2822, -6444, 5644, 674]
  const LEVELS_9947: seq<nat> :=
    [7118, 4321, 2623, 1592, 966, 586, 356, 216, 131, 79, 48, 29, 17, 10, 6]
  const I_9947 := Interval(9266, 9947, 5644, 1, LEVELS_9947, CAPS_9947)

  lemma Rows9947() ensures Rows(CAPS_9947, 1, 6, 9266, 9947) {}
  lemma Climb9947From0() ensures Rungs(LEVELS_9947, 0, 7, 1, 9947) {}
  lemma Climb9947From7() ensures Rungs(LEVELS_9947, 7, 14, 1, 9947) {}
  lemma Bounds9947() ensures |CAPS_9947| == 6 && Caps(CAPS_9947, 9266, 9947, 5644) {}
  lemma Ends9947()
    ensures |LEVELS_9947| == 15 && LEVELS_9947[0] == 7118 && LEVELS_9947[14] == 6
  {}
  lemma Checked9947()
    ensures Checked(I_9947)
  {
    hide Caps, CAPS_9947, LEVELS_9947;
    Rows9947(); Climb9947From0(); Climb9947From7(); Bounds9947(); Ends9947();
  }

  // decays 9948 to 10389

  const CAPS_10389: seq<int> :=
    [0, -3512, -588, -10536, -1176, -4688]
  const LEVELS_10389: seq<nat> :=
    [6436, 4081, 2588, 1641, 1040, 659, 418, 265, 168, 106, 67, 42, 26, 16, 10, 6]
  const I_10389 := Interval(9948, 10389, -1176, 1, LEVELS_10389, CAPS_10389)

  lemma Rows10389() ensures Rows(CAPS_10389, 1, 6, 9948, 10389) {}
  lemma Climb10389From0() ensures Rungs(LEVELS_10389, 0, 7, 1, 10389) {}
  lemma Climb10389From7() ensures Rungs(LEVELS_10389, 7, 15, 1, 10389) {}
  lemma Bounds10389() ensures |CAPS_10389| == 6 && Caps(CAPS_10389, 9948, 10389, -1176) {}
  lemma Ends10389()
    ensures |LEVELS_10389| == 16 && LEVELS_10389[0] == 6436 && LEVELS_10389[15] == 6
  {}
  lemma Checked10389()
    ensures Checked(I_10389)
  {
    hide Caps, CAPS_10389, LEVELS_10389;
    Rows10389(); Climb10389From0(); Climb10389From7(); Bounds10389(); Ends10389();
  }

  // decays 10390 to 10922

  const CAPS_10922: seq<int> :=
    [0, -4396, -2798, -13188, -5596, -9992, -20382, -6796]
  const LEVELS_10922: seq<nat> :=
    [5994, 3996, 2664, 1776, 1184, 789, 526, 350, 233, 155, 103, 68, 45, 30, 20, 13, 8]
  const I_10922 := Interval(10390, 10922, -6796, 1, LEVELS_10922, CAPS_10922)

  lemma Rows10922() ensures Rows(CAPS_10922, 1, 8, 10390, 10922) {}
  lemma Climb10922From0() ensures Rungs(LEVELS_10922, 0, 8, 1, 10922) {}
  lemma Climb10922From8() ensures Rungs(LEVELS_10922, 8, 16, 1, 10922) {}
  lemma Bounds10922() ensures |CAPS_10922| == 8 && Caps(CAPS_10922, 10390, 10922, -6796) {}
  lemma Ends10922()
    ensures |LEVELS_10922| == 17 && LEVELS_10922[0] == 5994 && LEVELS_10922[16] == 8
  {}
  lemma Checked10922()
    ensures Checked(I_10922)
  {
    hide Caps, CAPS_10922, LEVELS_10922;
    Rows10922(); Climb10922From0(); Climb10922From8(); Bounds10922(); Ends10922();
  }

  // decays 10923 to 10936

  const CAPS_10936: seq<int> :=
    [0, -5462, -5463, -3, -10926, -5, -5467, -16390, -8, -9, -10932, -16394, 5449, -5474, -14, -5476, -16399, -16400,
     10904, -19, -5481, 5440, -5483, -5484, -10946, -21869, -16409, 16356, 5433, -29, -30, -10953, 5429, -33, -10956,
     -5496, -5497, -16420, -21882, -10961, -21884, 16342]
  const LEVELS_10936: seq<nat> :=
    [5461, 3645, 2433, 1624, 1084, 723, 482, 322, 215, 143, 95, 63, 42]
  const I_10936 := Interval(10923, 10936, 16342, 1, LEVELS_10936, CAPS_10936)

  lemma Rows10936From1() ensures Rows(CAPS_10936, 1, 4, 10923, 10936) {}
  lemma Rows10936From4() ensures Rows(CAPS_10936, 4, 6, 10923, 10936) {}
  lemma Rows10936From6() ensures Rows(CAPS_10936, 6, 10, 10923, 10936) {}
  lemma Rows10936From10() ensures Rows(CAPS_10936, 10, 14, 10923, 10936) {}
  lemma Rows10936From14() ensures Rows(CAPS_10936, 14, 21, 10923, 10936) {}
  lemma Rows10936From21() ensures Rows(CAPS_10936, 21, 27, 10923, 10936) {}
  lemma Rows10936From27() ensures Rows(CAPS_10936, 27, 33, 10923, 10936) {}
  lemma Rows10936From33() ensures Rows(CAPS_10936, 33, 37, 10923, 10936) {}
  lemma Rows10936From37() ensures Rows(CAPS_10936, 37, 42, 10923, 10936) {}
  lemma Climb10936() ensures Rungs(LEVELS_10936, 0, 12, 1, 10936) {}
  lemma Bounds10936() ensures |CAPS_10936| == 42 && Caps(CAPS_10936, 10923, 10936, 16342) {}
  lemma Ends10936()
    ensures |LEVELS_10936| == 13 && LEVELS_10936[0] == 5461 && LEVELS_10936[12] == 42
  {}
  lemma Checked10936()
    ensures Checked(I_10936)
  {
    hide Caps, CAPS_10936, LEVELS_10936;
    Rows10936From1(); Rows10936From4(); Rows10936From6(); Rows10936From10(); Rows10936From14(); Rows10936From21();
    Rows10936From27(); Rows10936From33(); Rows10936From37(); Climb10936(); Bounds10936(); Ends10936();
  }

  // decays 10937 to 10978

  const CAPS_10978: seq<int> :=
    [0, -5490, -5533, -129, -11066, -215, -5705, -16642, -344, -387, -11324, -16814, 4931, -6006, -602, -6092, -17029,
     -17072, 10120, -817, -6307, 4544, -6393, -6436, -11926, -22863, -17459, 15180, 4243, -1247, -1290, -12227, 4071,
     -1419, -12356, -6952, -6995, -17932, -23422, -12571, -23508, 14578, 9088]
  const LEVELS_10978: seq<nat> :=
    [5447, 3650, 2445, 1638, 1097, 735, 492, 329, 220, 147, 98, 65, 43]
  const I_10978 := Interval(10937, 10978, 14578, 1, LEVELS_10978, CAPS_10978)

  lemma Rows10978From1() ensures Rows(CAPS_10978, 1, 4, 10937, 10978) {}
  lemma Rows10978From4() ensures Rows(CAPS_10978, 4, 6, 10937, 10978) {}
  lemma Rows10978From6() ensures Rows(CAPS_10978, 6, 10, 10937, 10978) {}
  lemma Rows10978From10() ensures Rows(CAPS_10978, 10, 15, 10937, 10978) {}
  lemma Rows10978From15() ensures Rows(CAPS_10978, 15, 21, 10937, 10978) {}
  lemma Rows10978From21() ensures Rows(CAPS_10978, 21, 27, 10937, 10978) {}
  lemma Rows10978From27() ensures Rows(CAPS_10978, 27, 34, 10937, 10978) {}
  lemma Rows10978From34() ensures Rows(CAPS_10978, 34, 38, 10937, 10978) {}
  lemma Rows10978From38() ensures Rows(CAPS_10978, 38, 43, 10937, 10978) {}
  lemma Climb10978() ensures Rungs(LEVELS_10978, 0, 12, 1, 10978) {}
  lemma Bounds10978() ensures |CAPS_10978| == 43 && Caps(CAPS_10978, 10937, 10978, 14578) {}
  lemma Ends10978()
    ensures |LEVELS_10978| == 13 && LEVELS_10978[0] == 5447 && LEVELS_10978[12] == 43
  {}
  lemma Checked10978()
    ensures Checked(I_10978)
  {
    hide Caps, CAPS_10978, LEVELS_10978;
    Rows10978From1(); Rows10978From4(); Rows10978From6(); Rows10978From10(); Rows10978From15(); Rows10978From21();
    Rows10978From27(); Rows10978From34(); Rows10978From38(); Climb10978(); Bounds10978(); Ends10978();
  }

  // decays 10979 to 11059

  const CAPS_11059: seq<int> :=
    [0, -5574, -5743, -507, -11486, -845, -6419, -17398, -1352, -1521, -12500, -18074, 3377, -7602, -2366, -7940,
     -18919, -19088, 7768, -3211, -8785, 1856, -9123, -9292, -14866, -25845, -20609, 11652, 673, -4901, -5070, -16049,
     -3, -5577, -16556, -11320, -11489, -22468, -28042, -17401, -28380, 9286]
  const LEVELS_11059: seq<nat> :=
    [5405, 3648, 2462, 1662, 1122, 757, 511, 345, 233, 157, 106, 71, 48, 32]
  const I_11059 := Interval(10979, 11059, 9286, 1, LEVELS_11059, CAPS_11059)

  lemma Rows11059From1() ensures Rows(CAPS_11059, 1, 4, 10979, 11059) {}
  lemma Rows11059From4() ensures Rows(CAPS_11059, 4, 6, 10979, 11059) {}
  lemma Rows11059From6() ensures Rows(CAPS_11059, 6, 10, 10979, 11059) {}
  lemma Rows11059From10() ensures Rows(CAPS_11059, 10, 14, 10979, 11059) {}
  lemma Rows11059From14() ensures Rows(CAPS_11059, 14, 21, 10979, 11059) {}
  lemma Rows11059From21() ensures Rows(CAPS_11059, 21, 27, 10979, 11059) {}
  lemma Rows11059From27() ensures Rows(CAPS_11059, 27, 33, 10979, 11059) {}
  lemma Rows11059From33() ensures Rows(CAPS_11059, 33, 37, 10979, 11059) {}
  lemma Rows11059From37() ensures Rows(CAPS_11059, 37, 42, 10979, 11059) {}
  lemma Climb11059() ensures Rungs(LEVELS_11059, 0, 13, 1, 11059) {}
  lemma Bounds11059() ensures |CAPS_11059| == 42 && Caps(CAPS_11059, 10979, 11059, 9286) {}
  lemma Ends11059()
    ensures |LEVELS_11059| == 14 && LEVELS_11059[0] == 5405 && LEVELS_11059[13] == 32
  {}
  lemma Checked11059()
    ensures Checked(I_11059)
  {
    hide Caps, CAPS_11059, LEVELS_11059;
    Rows11059From1(); Rows11059From4(); Rows11059From6(); Rows11059From10(); Rows11059From14(); Rows11059From21();
    Rows11059From27(); Rows11059From33(); Rows11059From37(); Climb11059(); Bounds11059(); Ends11059();
  }

  // decays 11060 to 11342

  const CAPS_11342: seq<int> :=
    [0, -5736, -6148, -1236, -12296, -2060, -7796, -18856, -3296, -3708, -14768, -20504, 380, -10680, -5768, -11504,
     -15180, -22976, 3232, -5356, -13564, -3328, -6180, -14800, -13152, -17652, -26684, 4848, -32, -8240, -12360]
  const LEVELS_11342: seq<nat> :=
    [5324, 3685, 2551, 1766, 1222, 846, 585, 405, 280, 194, 134, 93, 64, 44, 30]
  const I_11342 := Interval(11060, 11342, 4848, 1, LEVELS_11342, CAPS_11342)

  lemma Rows11342From1() ensures Rows(CAPS_11342, 1, 9, 11060, 11342) {}
  lemma Rows11342From9() ensures Rows(CAPS_11342, 9, 15, 11060, 11342) {}
  lemma Rows11342From15() ensures Rows(CAPS_11342, 15, 21, 11060, 11342) {}
  lemma Rows11342From21() ensures Rows(CAPS_11342, 21, 26, 11060, 11342) {}
  lemma Rows11342From26() ensures Rows(CAPS_11342, 26, 31, 11060, 11342) {}
  lemma Climb11342From0() ensures Rungs(LEVELS_11342, 0, 7, 1, 11342) {}
  lemma Climb11342From7() ensures Rungs(LEVELS_11342, 7, 14, 1, 11342) {}
  lemma Bounds11342() ensures |CAPS_11342| == 31 && Caps(CAPS_11342, 11060, 11342, 4848) {}
  lemma Ends11342()
    ensures |LEVELS_11342| == 15 && LEVELS_11342[0] == 5324 && LEVELS_11342[14] == 30
  {}
  lemma Checked11342()
    ensures Checked(I_11342)
  {
    hide Caps, CAPS_11342, LEVELS_11342;
    Rows11342From1(); Rows11342From9(); Rows11342From15(); Rows11342From21(); Rows11342From26(); Climb11342From0();
    Climb11342From7(); Bounds11342(); Ends11342();
  }

  // decays 11343 to 11565

  const CAPS_11565: seq<int> :=
    [0, -6302, -7563, -3783, -15126, -6305, -12607, -23950, -10088, -11349, -18909, -28994]
  const LEVELS_11565: seq<nat> :=
    [5041, 3558, 2511, 1772, 1251, 883, 623, 440, 310, 219, 154, 108, 76, 53, 37, 26, 18, 12]
  const I_11565 := Interval(11343, 11565, -10088, 1, LEVELS_11565, CAPS_11565)

  lemma Rows11565() ensures Rows(CAPS_11565, 1, 12, 11343, 11565) {}
  lemma Climb11565From0() ensures Rungs(LEVELS_11565, 0, 8, 1, 11565) {}
  lemma Climb11565From8() ensures Rungs(LEVELS_11565, 8, 17, 1, 11565) {}
  lemma Bounds11565() ensures |CAPS_11565| == 12 && Caps(CAPS_11565, 11343, 11565, -10088) {}
  lemma Ends11565()
    ensures |LEVELS_11565| == 18 && LEVELS_11565[0] == 5041 && LEVELS_11565[17] == 12
  {}
  lemma Checked11565()
    ensures Checked(I_11565)
  {
    hide Caps, CAPS_11565, LEVELS_11565;
    Rows11565(); Climb11565From0(); Climb11565From8(); Bounds11565(); Ends11565();
  }

  // decays 11566 to 11702

  const CAPS_11702: seq<int> :=
    [0, -6748, -8678, -5790, -17356, -9650, -16398, -27964, -15440, -17370]
  const LEVELS_11702: seq<nat> :=
    [4818, 3441, 2457, 1755, 1253, 895, 639, 456, 325, 232, 165, 118, 84, 60, 43, 30, 21, 15, 10]
  const I_11702 := Interval(11566, 11702, -15440, 1, LEVELS_11702, CAPS_11702)

  lemma Rows11702() ensures Rows(CAPS_11702, 1, 10, 11566, 11702) {}
  lemma Climb11702From0() ensures Rungs(LEVELS_11702, 0, 6, 1, 11702) {}
  lemma Climb11702From6() ensures Rungs(LEVELS_11702, 6, 12, 1, 11702) {}
  lemma Climb11702From12() ensures Rungs(LEVELS_11702, 12, 18, 1, 11702) {}
  lemma Bounds11702() ensures |CAPS_11702| == 10 && Caps(CAPS_11702, 11566, 11702, -15440) {}
  lemma Ends11702()
    ensures |LEVELS_11702| == 19 && LEVELS_11702[0] == 4818 && LEVELS_11702[18] == 10
  {}
  lemma Checked11702()
    ensures Checked(I_11702)
  {
    hide Caps, CAPS_11702, LEVELS_11702;
    Rows11702(); Climb11702From0(); Climb11702From6(); Climb11702From12(); Bounds11702(); Ends11702();
  }

  // decays 11703 to 11762

  const CAPS_11762: seq<int> :=
    [0, -7022, -9363, -7023, -18726, -11705, -18727, -7025, -18728, -21069, -4686, -16389, -23411, -21071, -7, -11710,
     -18732, -21073, -32776, -25755, -10, -7032, -18735, -21076, -18736, -30439, -37461, -25759, 4667, -7036, -9377,
     -16399, -28102, -25762, -18741, -25763, -37466, -39807, -23424, -35127, -20, -7042]
  const LEVELS_11762: seq<nat> :=
    [4681, 3360, 2412, 1731, 1242, 891, 639, 459, 329, 236, 169, 121, 87, 62, 44, 31]
  const I_11762 := Interval(11703, 11762, -20, 1, LEVELS_11762, CAPS_11762)

  lemma Rows11762From1() ensures Rows(CAPS_11762, 1, 4, 11703, 11762) {}
  lemma Rows11762From4() ensures Rows(CAPS_11762, 4, 6, 11703, 11762) {}
  lemma Rows11762From6() ensures Rows(CAPS_11762, 6, 10, 11703, 11762) {}
  lemma Rows11762From10() ensures Rows(CAPS_11762, 10, 14, 11703, 11762) {}
  lemma Rows11762From14() ensures Rows(CAPS_11762, 14, 21, 11703, 11762) {}
  lemma Rows11762From21() ensures Rows(CAPS_11762, 21, 27, 11703, 11762) {}
  lemma Rows11762From27() ensures Rows(CAPS_11762, 27, 33, 11703, 11762) {}
  lemma Rows11762From33() ensures Rows(CAPS_11762, 33, 37, 11703, 11762) {}
  lemma Rows11762From37() ensures Rows(CAPS_11762, 37, 42, 11703, 11762) {}
  lemma Climb11762From0() ensures Rungs(LEVELS_11762, 0, 7, 1, 11762) {}
  lemma Climb11762From7() ensures Rungs(LEVELS_11762, 7, 15, 1, 11762) {}
  lemma Bounds11762() ensures |CAPS_11762| == 42 && Caps(CAPS_11762, 11703, 11762, -20) {}
  lemma Ends11762()
    ensures |LEVELS_11762| == 16 && LEVELS_11762[0] == 4681 && LEVELS_11762[15] == 31
  {}
  lemma Checked11762()
    ensures Checked(I_11762)
  {
    hide Caps, CAPS_11762, LEVELS_11762;
    Rows11762From1(); Rows11762From4(); Rows11762From6(); Rows11762From10(); Rows11762From14(); Rows11762From21();
    Rows11762From27(); Rows11762From33(); Rows11762From37(); Climb11762From0(); Climb11762From7(); Bounds11762();
    Ends11762();
  }

  // decays 11763 to 11893

  const CAPS_11893: seq<int> :=
    [0, -7142, -9663, -7563, -19326, -12605, -19747, -8405, -20168, -22689, -6726, -18489, -25631, -23531, -2947,
     -14710, -21852, -24373, -18910, -29415, -4210, -11352, -23115, -25636, -23536, -14289, -25215, -31099, -1273,
     -6731, -15557, -22699, -21015, -32362, -25641, -11773, -20594]
  const LEVELS_11893: seq<nat> :=
    [4621, 3354, 2434, 1767, 1282, 930, 675, 490, 355, 257, 186, 135, 98, 71, 51, 37]
  const I_11893 := Interval(11763, 11893, -1273, 1, LEVELS_11893, CAPS_11893)

  lemma Rows11893From1() ensures Rows(CAPS_11893, 1, 11, 11763, 11893) {}
  lemma Rows11893From11() ensures Rows(CAPS_11893, 11, 18, 11763, 11893) {}
  lemma Rows11893From18() ensures Rows(CAPS_11893, 18, 25, 11763, 11893) {}
  lemma Rows11893From25() ensures Rows(CAPS_11893, 25, 31, 11763, 11893) {}
  lemma Rows11893From31() ensures Rows(CAPS_11893, 31, 37, 11763, 11893) {}
  lemma Climb11893From0() ensures Rungs(LEVELS_11893, 0, 7, 1, 11893) {}
  lemma Climb11893From7() ensures Rungs(LEVELS_11893, 7, 15, 1, 11893) {}
  lemma Bounds11893() ensures |CAPS_11893| == 37 && Caps(CAPS_11893, 11763, 11893, -1273) {}
  lemma Ends11893()
    ensures |LEVELS_11893| == 16 && LEVELS_11893[0] == 4621 && LEVELS_11893[15] == 37
  {}
  lemma Checked11893()
    ensures Checked(I_11893)
  {
    hide Caps, CAPS_11893, LEVELS_11893;
    Rows11893From1(); Rows11893From11(); Rows11893From18(); Rows11893From25(); Rows11893From31(); Climb11893From0();
    Climb11893From7(); Bounds11893(); Ends11893();
  }

  // decays 11894 to 12058

  const CAPS_12058: seq<int> :=
    [0, -7404, -10318, -8742, -20636, -14570, -21974, -11418, -23312, -26226, -11180, -18822, -30478, -28902, -9366,
     -14332, -24412, -31578, -25512, -37406, -13380, -13856, -19922]
  const LEVELS_12058: seq<nat> :=
    [4490, 3304, 2431, 1789, 1316, 968, 712, 524, 385, 283, 208, 153, 112, 82, 60, 44, 32, 23]
  const I_12058 := Interval(11894, 12058, -13380, 1, LEVELS_12058, CAPS_12058)

  lemma Rows12058From1() ensures Rows(CAPS_12058, 1, 13, 11894, 12058) {}
  lemma Rows12058From13() ensures Rows(CAPS_12058, 13, 23, 11894, 12058) {}
  lemma Climb12058From0() ensures Rungs(LEVELS_12058, 0, 8, 1, 12058) {}
  lemma Climb12058From8() ensures Rungs(LEVELS_12058, 8, 17, 1, 12058) {}
  lemma Bounds12058() ensures |CAPS_12058| == 23 && Caps(CAPS_12058, 11894, 12058, -13380) {}
  lemma Ends12058()
    ensures |LEVELS_12058| == 18 && LEVELS_12058[0] == 4490 && LEVELS_12058[17] == 23
  {}
  lemma Checked12058()
    ensures Checked(I_12058)
  {
    hide Caps, CAPS_12058, LEVELS_12058;
    Rows12058From1(); Rows12058From13(); Climb12058From0(); Climb12058From8(); Bounds12058(); Ends12058();
  }

  // decays 12059 to 12287

  const CAPS_12287: seq<int> :=
    [0, -7734, -11143, -10227, -22286, -17045, -24779, -15213, -27272, -30681, -16790, -24524, -36583, -35667, -17451,
     -20860, -32919]
  const LEVELS_12287: seq<nat> :=
    [4325, 3243, 2432, 1824, 1368, 1026, 769, 576, 432, 324, 243, 182, 136, 102, 76, 57, 42, 31, 23, 17]
  const I_12287 := Interval(12059, 12287, -17451, 1, LEVELS_12287, CAPS_12287)

  lemma Rows12287() ensures Rows(CAPS_12287, 1, 17, 12059, 12287) {}
  lemma Climb12287From0() ensures Rungs(LEVELS_12287, 0, 6, 1, 12287) {}
  lemma Climb12287From6() ensures Rungs(LEVELS_12287, 6, 12, 1, 12287) {}
  lemma Climb12287From12() ensures Rungs(LEVELS_12287, 12, 19, 1, 12287) {}
  lemma Bounds12287() ensures |CAPS_12287| == 17 && Caps(CAPS_12287, 12059, 12287, -17451) {}
  lemma Ends12287()
    ensures |LEVELS_12287| == 20 && LEVELS_12287[0] == 4325 && LEVELS_12287[19] == 17
  {}
  lemma Checked12287()
    ensures Checked(I_12287)
  {
    hide Caps, CAPS_12287, LEVELS_12287;
    Rows12287(); Climb12287From0(); Climb12287From6(); Climb12287From12(); Bounds12287(); Ends12287();
  }

  // decays 12288 to 12336

  const LOW_12336: seq<int> :=
    [0, -8192, -12288, -12288, -8192, -20480, -12288, -20480, -8192, -20480, -24576, -8192, -16384, -28672, -28672,
     -8192, -12288, -24576, -32768, -28672, -4096, -16384, -16384, -24576, -28672, -40960, -32768, -4096, -12288,
     -24576, -20480, -24576, -24576, -36864]
  const MIDDLE_12336: seq<int> :=
    [-45056, -32768, 0, -12288, -16384, -24576, -16384, -28672, -28672, -24576, -32768, -45056, -49152, -32768, 4096,
     -8192, -16384, -16384, -20480, -32768, -20480, -28672, -24576, -36864, -28672, -32768, -40960, -53248, -53248,
     -32768, 8192, -4096, -12288, -16384]
  const HIGH_12336: seq<int> :=
    [-12288, -24576, -24576, -32768, -16384, -28672, -32768, -24576, -32768, -45056, -32768, -32768, -36864, -49152,
     -57344, -53248, -28672, -40960, 4096, -4096, -8192, -12288, -20480, -12288, -20480, -20480, -28672, -32768,
     -12288, -24576, -32768, -32768, -20480]
  const CAPS_12336: seq<int> := LOW_12336 + MIDDLE_12336 + HIGH_12336
  const LEVELS_12336: seq<nat> :=
    [4096, 3084, 2322, 1748, 1316, 991, 746, 561, 422, 317, 238, 179, 135, 101]
  const I_12336 := Interval(12288, 12336, 4096, 1, LEVELS_12336, CAPS_12336)

  lemma Rows12336From1() ensures Block(LOW_12336, 0, LOW_12336, 0, 1, 10, 12288, 12336) {}
  lemma Rows12336From10() ensures Block(LOW_12336, 0, LOW_12336, 0, 10, 17, 12288, 12336) {}
  lemma Rows12336From17() ensures Block(LOW_12336, 0, LOW_12336, 0, 17, 24, 12288, 12336) {}
  lemma Rows12336From24() ensures Block(LOW_12336, 0, LOW_12336, 0, 24, 34, 12288, 12336) {}
  lemma Rows12336From34() ensures Block(MIDDLE_12336, 34, LOW_12336, 0, 0, 6, 12288, 12336) {}
  lemma Rows12336From40() ensures Block(MIDDLE_12336, 34, LOW_12336, 0, 6, 12, 12288, 12336) {}
  lemma Rows12336From46() ensures Block(MIDDLE_12336, 34, MIDDLE_12336, 34, 12, 20, 12288, 12336) {}
  lemma Rows12336From54() ensures Block(MIDDLE_12336, 34, MIDDLE_12336, 34, 20, 27, 12288, 12336) {}
  lemma Rows12336From61() ensures Block(MIDDLE_12336, 34, MIDDLE_12336, 34, 27, 34, 12288, 12336) {}
  lemma Rows12336From68() ensures Block(HIGH_12336, 68, MIDDLE_12336, 34, 0, 8, 12288, 12336) {}
  lemma Rows12336From76() ensures Block(HIGH_12336, 68, MIDDLE_12336, 34, 8, 16, 12288, 12336) {}
  lemma Rows12336From84() ensures Block(HIGH_12336, 68, MIDDLE_12336, 34, 16, 23, 12288, 12336) {}
  lemma Rows12336From91() ensures Block(HIGH_12336, 68, HIGH_12336, 68, 23, 28, 12288, 12336) {}
  lemma Rows12336From96() ensures Block(HIGH_12336, 68, HIGH_12336, 68, 28, 33, 12288, 12336) {}
  lemma Sizes12336() ensures |LOW_12336| == 34 && |MIDDLE_12336| == 34 && |HIGH_12336| == 33 {}
  lemma Rows12336()
    ensures |CAPS_12336| == 101 && Rows(CAPS_12336, 1, 101, 12288, 12336)
  {
    hide LOW_12336, MIDDLE_12336, HIGH_12336, Block;
    Sizes12336();
    Rows12336From1();
    BlockRows(CAPS_12336, LOW_12336, 0, LOW_12336, 0, 1, 10, 12288, 12336);
    Rows12336From10();
    BlockRows(CAPS_12336, LOW_12336, 0, LOW_12336, 0, 10, 17, 12288, 12336);
    Rows12336From17();
    BlockRows(CAPS_12336, LOW_12336, 0, LOW_12336, 0, 17, 24, 12288, 12336);
    Rows12336From24();
    BlockRows(CAPS_12336, LOW_12336, 0, LOW_12336, 0, 24, 34, 12288, 12336);
    Rows12336From34();
    BlockRows(CAPS_12336, MIDDLE_12336, 34, LOW_12336, 0, 0, 6, 12288, 12336);
    Rows12336From40();
    BlockRows(CAPS_12336, MIDDLE_12336, 34, LOW_12336, 0, 6, 12, 12288, 12336);
    Rows12336From46();
    BlockRows(CAPS_12336, MIDDLE_12336, 34, MIDDLE_12336, 34, 12, 20, 12288, 12336);
    Rows12336From54();
    BlockRows(CAPS_12336, MIDDLE_12336, 34, MIDDLE_12336, 34, 20, 27, 12288, 12336);
    Rows12336From61();
    BlockRows(CAPS_12336, MIDDLE_12336, 34, MIDDLE_12336, 34, 27, 34, 12288, 12336);
    Rows12336From68();
    BlockRows(CAPS_12336, HIGH_12336, 68, MIDDLE_12336, 34, 0, 8, 12288, 12336);
    Rows12336From76();
    BlockRows(CAPS_12336, HIGH_12336, 68, MIDDLE_12336, 34, 8, 16, 12288, 12336);
    Rows12336From84();
    BlockRows(CAPS_12336, HIGH_12336, 68, MIDDLE_12336, 34, 16, 23, 12288, 12336);
    Rows12336From91();
    BlockRows(CAPS_12336, HIGH_12336, 68, HIGH_12336, 68, 23, 28, 12288, 12336);
    Rows12336From96();
    BlockRows(CAPS_12336, HIGH_12336, 68, HIGH_12336, 68, 28, 33, 12288, 12336);
  }
  lemma Climb12336() ensures Rungs(LEVELS_12336, 0, 13, 1, 12336) {}
  lemma Low12336()
    ensures |LOW_12336| == 34 && LOW_12336[0] == 0 && forall x :: 0 <= x < 34 ==> LOW_12336[x] <= 15 * 4048
  {}
  lemma Middle12336()
    ensures |MIDDLE_12336| == 34 && forall x :: 0 <= x < 34 ==> MIDDLE_12336[x] <= 15 * 4048
  {}
  lemma High12336()
    ensures |HIGH_12336| == 33 && forall x :: 0 <= x < 33 ==> HIGH_12336[x] <= 4096
  {}
  lemma Bounds12336()
    ensures |CAPS_12336| == 101 && Caps(CAPS_12336, 12288, 12336, 4096)
  {
    hide LOW_12336, MIDDLE_12336, HIGH_12336;
    Low12336(); Middle12336(); High12336();
  }
  lemma Ends12336()
    ensures |LEVELS_12336| == 14 && LEVELS_12336[0] == 4096 && LEVELS_12336[13] == 101
  {}
  lemma Checked12336()
    ensures Checked(I_12336)
  {
    hide Caps, CAPS_12336, LEVELS_12336;
    Rows12336(); Climb12336(); Bounds12336(); Ends12336();
  }

  // decays 12337 to 12378

  const CAPS_12378: seq<int> :=
    [0, -8290, -12533, -12729, -8878, -21215, -13317, -21607, -9662, -21999, -26242, -10250, -18540, -30877, -31073,
     -11034, -15277, -27614, -35904, -32053, -7967, -20304, -20500, -28790, -33033, -45370, -37472, -9339, -17629,
     -29966, -26115, -30358, -30554]
  const LEVELS_12378: seq<nat> :=
    [4047, 3057, 2309, 1744, 1317, 995, 751, 567, 428, 323, 244, 184, 139, 105, 79, 59, 44, 33]
  const I_12378 := Interval(12337, 12378, -9339, 1, LEVELS_12378, CAPS_12378)

  lemma Rows12378From1() ensures Rows(CAPS_12378, 1, 9, 12337, 12378) {}
  lemma Rows12378From9() ensures Rows(CAPS_12378, 9, 16, 12337, 12378) {}
  lemma Rows12378From16() ensures Rows(CAPS_12378, 16, 23, 12337, 12378) {}
  lemma Rows12378From23() ensures Rows(CAPS_12378, 23, 28, 12337, 12378) {}
  lemma Rows12378From28() ensures Rows(CAPS_12378, 28, 33, 12337, 12378) {}
  lemma Climb12378From0() ensures Rungs(LEVELS_12378, 0, 8, 1, 12378) {}
  lemma Climb12378From8() ensures Rungs(LEVELS_12378, 8, 17, 1, 12378) {}
  lemma Bounds12378() ensures |CAPS_12378| == 33 && Caps(CAPS_12378, 12337, 12378, -9339) {}
  lemma Ends12378()
    ensures |LEVELS_12378| == 18 && LEVELS_12378[0] == 4047 && LEVELS_12378[17] == 33
  {}
  lemma Checked12378()
    ensures Checked(I_12378)
  {
    hide Caps, CAPS_12378, LEVELS_12378;
    Rows12378From1(); Rows12378From9(); Rows12378From16(); Rows12378From23(); Rows12378From28(); Climb12378From0();
    Climb12378From8(); Bounds12378(); Ends12378();
  }

  // decays 12379 to 12603

  const CAPS_12603: seq<int> :=
    [0, -8374, -12743, -13107, -9466, -21845, -14199, -22573, -10922, -23301, -27670, -12014, -20388, -32767, -33131,
     -13470, -17839, -28762, -38592, -34951, -11285, -13834, -24028, -30946, -36771, -30946, -41504, -13833, -12377,
     -20023, -26941, -33858, -35678, -26941, -37499, -44780, -13104]
  const LEVELS_12603: seq<nat> :=
    [4005, 3080, 2369, 1822, 1401, 1077, 828, 637, 490, 377, 290, 223, 171, 131, 100, 77, 59, 45, 34]
  const I_12603 := Interval(12379, 12603, -12377, 1, LEVELS_12603, CAPS_12603)

  lemma Rows12603From1() ensures Rows(CAPS_12603, 1, 11, 12379, 12603) {}
  lemma Rows12603From11() ensures Rows(CAPS_12603, 11, 18, 12379, 12603) {}
  lemma Rows12603From18() ensures Rows(CAPS_12603, 18, 25, 12379, 12603) {}
  lemma Rows12603From25() ensures Rows(CAPS_12603, 25, 31, 12379, 12603) {}
  lemma Rows12603From31() ensures Rows(CAPS_12603, 31, 37, 12379, 12603) {}
  lemma Climb12603From0() ensures Rungs(LEVELS_12603, 0, 6, 1, 12603) {}
  lemma Climb12603From6() ensures Rungs(LEVELS_12603, 6, 12, 1, 12603) {}
  lemma Climb12603From12() ensures Rungs(LEVELS_12603, 12, 18, 1, 12603) {}
  lemma Bounds12603() ensures |CAPS_12603| == 37 && Caps(CAPS_12603, 12379, 12603, -12377) {}
  lemma Ends12603()
    ensures |LEVELS_12603| == 19 && LEVELS_12603[0] == 4005 && LEVELS_12603[18] == 34
  {}
  lemma Checked12603()
    ensures Checked(I_12603)
  {
    hide Caps, CAPS_12603, LEVELS_12603;
    Rows12603From1(); Rows12603From11(); Rows12603From18(); Rows12603From25(); Rows12603From31(); Climb12603From0();
    Climb12603From6(); Climb12603From12(); Bounds12603(); Ends12603();
  }

  // decays 12604 to 12873

  const CAPS_12873: seq<int> :=
    [0, -8824, -13868, -15132, -12616, -25220, -18924, -27748, -17672, -23968, -35320, -21464, -23980, -31552, -44156,
     -26520, -25256, -29048, -40376, -50476, -29060, -24016, -25268]
  const LEVELS_12873: seq<nat> :=
    [3780, 2970, 2333, 1833, 1440, 1131, 888, 697, 547, 429, 337, 264, 207, 162, 127, 99, 77, 60, 47, 37, 29, 22]
  const I_12873 := Interval(12604, 12873, -24016, 1, LEVELS_12873, CAPS_12873)

  lemma Rows12873From1() ensures Rows(CAPS_12873, 1, 13, 12604, 12873) {}
  lemma Rows12873From13() ensures Rows(CAPS_12873, 13, 23, 12604, 12873) {}
  lemma Climb12873From0() ensures Rungs(LEVELS_12873, 0, 7, 1, 12873) {}
  lemma Climb12873From7() ensures Rungs(LEVELS_12873, 7, 14, 1, 12873) {}
  lemma Climb12873From14() ensures Rungs(LEVELS_12873, 14, 21, 1, 12873) {}
  lemma Bounds12873() ensures |CAPS_12873| == 23 && Caps(CAPS_12873, 12604, 12873, -24016) {}
  lemma Ends12873()
    ensures |LEVELS_12873| == 22 && LEVELS_12873[0] == 3780 && LEVELS_12873[21] == 22
  {}
  lemma Checked12873()
    ensures Checked(I_12873)
  {
    hide Caps, CAPS_12873, LEVELS_12873;
    Rows12873From1(); Rows12873From13(); Climb12873From0(); Climb12873From7(); Climb12873From14(); Bounds12873();
    Ends12873();
  }

  // decays 12874 to 13107

  const CAPS_13107: seq<int> :=
    [0, -9364, -15218, -17562, -16396, -29270, -24594, -33958, -25772, -31626, -44500, -32804, -35148, -44512, -29306,
     -42180, -41014, -46868, -28152, -38670]
  const LEVELS_13107: seq<nat> :=
    [3510, 2808, 2246, 1796, 1436, 1148, 918, 734, 587, 469, 375, 300, 240, 192, 153, 122, 97, 77, 61, 48, 38, 30, 24,
     19]
  const I_13107 := Interval(12874, 13107, -28152, 1, LEVELS_13107, CAPS_13107)

  lemma Rows13107() ensures Rows(CAPS_13107, 1, 20, 12874, 13107) {}
  lemma Climb13107From0() ensures Rungs(LEVELS_13107, 0, 4, 1, 13107) {}
  lemma Climb13107From4() ensures Rungs(LEVELS_13107, 4, 7, 1, 13107) {}
  lemma Climb13107From7() ensures Rungs(LEVELS_13107, 7, 15, 1, 13107) {}
  lemma Climb13107From15() ensures Rungs(LEVELS_13107, 15, 23, 1, 13107) {}
  lemma Bounds13107() ensures |CAPS_13107| == 20 && Caps(CAPS_13107, 12874, 13107, -28152) {}
  lemma Ends13107()
    ensures |LEVELS_13107| == 24 && LEVELS_13107[0] == 3510 && LEVELS_13107[23] == 19
  {}
  lemma Checked13107()
    ensures Checked(I_13107)
  {
    hide Caps, CAPS_13107, LEVELS_13107;
    Rows13107(); Climb13107From0(); Climb13107From4(); Climb13107From7(); Climb13107From15(); Bounds13107();
    Ends13107();
  }

  // decays 13108 to 13253

  const CAPS_13253: seq<int> :=
    [0, -9832, -16388, -19668, -19672, -16400, -29508, -22960, -32792, -22968, -29524, -42632, -29532, -32812, -42644,
     -26268, -39376, -39380, -45936, -26284, -36116, -49224, -45952]
  const LEVELS_13253: seq<nat> :=
    [3276, 2650, 2143, 1733, 1402, 1134, 917, 741, 599, 484, 391, 316, 255, 206, 166, 134, 108, 87, 70, 56, 45, 36,
     29, 23]
  const I_13253 := Interval(13108, 13253, -26284, 1, LEVELS_13253, CAPS_13253)

  lemma Rows13253From1() ensures Rows(CAPS_13253, 1, 13, 13108, 13253) {}
  lemma Rows13253From13() ensures Rows(CAPS_13253, 13, 23, 13108, 13253) {}
  lemma Climb13253From0() ensures Rungs(LEVELS_13253, 0, 7, 1, 13253) {}
  lemma Climb13253From7() ensures Rungs(LEVELS_13253, 7, 15, 1, 13253) {}
  lemma Climb13253From15() ensures Rungs(LEVELS_13253, 15, 23, 1, 13253) {}
  lemma Bounds13253() ensures |CAPS_13253| == 23 && Caps(CAPS_13253, 13108, 13253, -26284) {}
  lemma Ends13253()
    ensures |LEVELS_13253| == 24 && LEVELS_13253[0] == 3276 && LEVELS_13253[23] == 23
  {}
  lemma Checked13253()
    ensures Checked(I_13253)
  {
    hide Caps, CAPS_13253, LEVELS_13253;
    Rows13253From1(); Rows13253From13(); Climb13253From0(); Climb13253From7(); Climb13253From15(); Bounds13253();
    Ends13253();
  }

  // decays 13254 to 13447

  const CAPS_13447: seq<int> :=
    [0, -10124, -17118, -20982, -21716, -19320, -32574, -27048, -37172, -28516, -35510, -25386, -36978, -40842,
     -27588, -36050, -37712, -50038, -33654, -38986]
  const LEVELS_13447: seq<nat> :=
    [3130, 2569, 2108, 1730, 1420, 1165, 956, 784, 643, 527, 432, 354, 290, 238, 195, 160, 131, 107, 87, 71, 58, 47,
     38, 31, 25, 20]
  const I_13447 := Interval(13254, 13447, -33654, 1, LEVELS_13447, CAPS_13447)

  lemma Rows13447() ensures Rows(CAPS_13447, 1, 20, 13254, 13447) {}
  lemma Climb13447From0() ensures Rungs(LEVELS_13447, 0, 6, 1, 13447) {}
  lemma Climb13447From6() ensures Rungs(LEVELS_13447, 6, 12, 1, 13447) {}
  lemma Climb13447From12() ensures Rungs(LEVELS_13447, 12, 18, 1, 13447) {}
  lemma Climb13447From18() ensures Rungs(LEVELS_13447, 18, 25, 1, 13447) {}
  lemma Bounds13447() ensures |CAPS_13447| == 20 && Caps(CAPS_13447, 13254, 13447, -33654) {}
  lemma Ends13447()
    ensures |LEVELS_13447| == 26 && LEVELS_13447[0] == 3130 && LEVELS_13447[25] == 20
  {}
  lemma Checked13447()
    ensures Checked(I_13447)
  {
    hide Caps, CAPS_13447, LEVELS_13447;
    Rows13447(); Climb13447From0(); Climb13447From6(); Climb13447From12(); Climb13447From18(); Bounds13447();
    Ends13447();
  }

  // decays 13448 to 13653

  const CAPS_13653: seq<int> :=
    [0, -10512, -18088, -22728, -24432, -23200, -36648, -32480, -42992, -35888, -43464, -33424, -46872, -51512,
     -38536, -49048, -50752]
  const LEVELS_13653: seq<nat> :=
    [2936, 2446, 2038, 1698, 1415, 1179, 982, 818, 681, 567, 472, 393, 327, 272, 226, 188, 156, 130, 108, 90, 75, 62,
     51, 42, 35, 29, 24, 20, 16]
  const I_13653 := Interval(13448, 13653, -38536, 1, LEVELS_13653, CAPS_13653)

  lemma Rows13653() ensures Rows(CAPS_13653, 1, 17, 13448, 13653) {}
  lemma Climb13653From0() ensures Rungs(LEVELS_13653, 0, 7, 1, 13653) {}
  lemma Climb13653From7() ensures Rungs(LEVELS_13653, 7, 11, 1, 13653) {}
  lemma Climb13653From11() ensures Rungs(LEVELS_13653, 11, 14, 1, 13653) {}
  lemma Climb13653From14() ensures Rungs(LEVELS_13653, 14, 21, 1, 13653) {}
  lemma Climb13653From21() ensures Rungs(LEVELS_13653, 21, 28, 1, 13653) {}
  lemma Bounds13653() ensures |CAPS_13653| == 17 && Caps(CAPS_13653, 13448, 13653, -38536) {}
  lemma Ends13653()
    ensures |LEVELS_13653| == 29 && LEVELS_13653[0] == 2936 && LEVELS_13653[28] == 16
  {}
  lemma Checked13653()
    ensures Checked(I_13653)
  {
    hide Caps, CAPS_13653, LEVELS_13653;
    Rows13653(); Climb13653From0(); Climb13653From7(); Climb13653From11(); Climb13653From14(); Climb13653From21();
    Bounds13653(); Ends13653();
  }

  // decays 13654 to 13999

  const CAPS_13999: seq<int> :=
    [0, -10924, -19118, -24582, -27316, -27320, -24594, -38248, -32792, -43716, -35530, -43724, -32808, -40994,
     -51926, -38280, -43736, -51938, -35562, -41006, -49208, -57414, -38308, -41022, -46494, -54684]
  const LEVELS_13999: seq<nat> :=
    [2730, 2332, 1992, 1702, 1454, 1242, 1061, 906, 774, 661, 564, 482, 411, 351, 300, 256, 218, 186, 159, 136, 116,
     99, 84, 71, 60, 51, 43, 36, 30, 25]
  const I_13999 := Interval(13654, 13999, -38308, 1, LEVELS_13999, CAPS_13999)

  lemma Rows13999From1() ensures Rows(CAPS_13999, 1, 15, 13654, 13999) {}
  lemma Rows13999From15() ensures Rows(CAPS_13999, 15, 26, 13654, 13999) {}
  lemma Climb13999From0() ensures Rungs(LEVELS_13999, 0, 4, 1, 13999) {}
  lemma Climb13999From4() ensures Rungs(LEVELS_13999, 4, 7, 1, 13999) {}
  lemma Climb13999From7() ensures Rungs(LEVELS_13999, 7, 11, 1, 13999) {}
  lemma Climb13999From11() ensures Rungs(LEVELS_13999, 11, 14, 1, 13999) {}
  lemma Climb13999From14() ensures Rungs(LEVELS_13999, 14, 18, 1, 13999) {}
  lemma Climb13999From18() ensures Rungs(LEVELS_13999, 18, 21, 1, 13999) {}
  lemma Climb13999From21() ensures Rungs(LEVELS_13999, 21, 25, 1, 13999) {}
  lemma Climb13999From25() ensures Rungs(LEVELS_13999, 25, 29, 1, 13999) {}
  lemma Bounds13999() ensures |CAPS_13999| == 26 && Caps(CAPS_13999, 13654, 13999, -38308) {}
  lemma Ends13999()
    ensures |LEVELS_13999| == 30 && LEVELS_13999[0] == 2730 && LEVELS_13999[29] == 25
  {}
  lemma Checked13999()
    ensures Checked(I_13999)
  {
    hide Caps, CAPS_13999, LEVELS_13999;
    Rows13999From1(); Rows13999From15(); Climb13999From0(); Climb13999From4(); Climb13999From7(); Climb13999From11();
    Climb13999From14(); Climb13999From18(); Climb13999From21(); Climb13999From25(); Bounds13999(); Ends13999();
  }

  // decays 14000 to 14199

  const CAPS_14199: seq<int> :=
    [0, -11616, -20848, -27696, -32160, -34240, -33936, -31552, -45248, -40480, -51792, -44640, -53568, -44032,
     -51184, -64576, -52656, -57424, -68432, -54128, -56512, -66048, -51744, -62448, -62448, -69600, -52912, -61232,
     -60064, -67216, -77616, -58544]
  const LEVELS_14199: seq<nat> :=
    [2384, 1703, 1216, 868, 620, 443, 316, 225, 160, 114, 81, 58, 41, 29]
  const I_14199 := Interval(14000, 14199, -58544, 3, LEVELS_14199, CAPS_14199)

  lemma Rows14199From1() ensures Rows(CAPS_14199, 1, 9, 14000, 14199) {}
  lemma Rows14199From9() ensures Rows(CAPS_14199, 9, 16, 14000, 14199) {}
  lemma Rows14199From16() ensures Rows(CAPS_14199, 16, 22, 14000, 14199) {}
  lemma Rows14199From22() ensures Rows(CAPS_14199, 22, 27, 14000, 14199) {}
  lemma Rows14199From27() ensures Rows(CAPS_14199, 27, 32, 14000, 14199) {}
  lemma Climb14199() ensures Rungs(LEVELS_14199, 0, 13, 3, 14199) {}
  lemma Bounds14199() ensures |CAPS_14199| == 32 && Caps(CAPS_14199, 14000, 14199, -58544) {}
  lemma Ends14199()
    ensures |LEVELS_14199| == 14 && LEVELS_14199[0] == 2384 && LEVELS_14199[13] == 29
  {}
  lemma Checked14199()
    ensures Checked(I_14199)
  {
    hide Caps, CAPS_14199, LEVELS_14199;
    Rows14199From1(); Rows14199From9(); Rows14199From16(); Rows14199From22(); Rows14199From27(); Climb14199();
    Bounds14199(); Ends14199();
  }

  // decays 14200 to 14335

  const CAPS_14335: seq<int> :=
    [0, -12016, -21848, -29496, -34960, -38240, -39336, -38248, -52448, -49176, -61192, -55736, -65568, -57928,
     -65576, -55752, -69952, -75416, -63408, -75424, -78704, -64512, -74344, -76520]
  const LEVELS_14335: seq<nat> :=
    [2184, 1456, 970, 646, 430, 286, 190, 126, 84, 56, 37, 24]
  const I_14335 := Interval(14200, 14335, -64512, 4, LEVELS_14335, CAPS_14335)

  lemma Rows14335From1() ensures Rows(CAPS_14335, 1, 14, 14200, 14335) {}
  lemma Rows14335From14() ensures Rows(CAPS_14335, 14, 24, 14200, 14335) {}
  lemma Climb14335() ensures Rungs(LEVELS_14335, 0, 11, 4, 14335) {}
  lemma Bounds14335() ensures |CAPS_14335| == 24 && Caps(CAPS_14335, 14200, 14335, -64512) {}
  lemma Ends14335()
    ensures |LEVELS_14335| == 12 && LEVELS_14335[0] == 2184 && LEVELS_14335[11] == 24
  {}
  lemma Checked14335()
    ensures Checked(I_14335)
  {
    hide Caps, CAPS_14335, LEVELS_14335;
    Rows14335From1(); Rows14335From14(); Climb14335(); Bounds14335(); Ends14335();
  }

  // decays 14336 to 14557

  const CAPS_14557: seq<int> :=
    [0, -12288, -22528, -30720, -36864, -40960, -43008, -43008, -40960, -55296, -51200, -63488, -57344, -67584,
     -59392, -67584, -57344, -65536, -77824, -65536, -71680, -81920, -67584]
  const LEVELS_14557: seq<nat> :=
    [2048, 1416, 979, 677, 468, 323, 223, 154, 106, 73, 50, 34, 23]
  const I_14557 := Interval(14336, 14557, -67584, 4, LEVELS_14557, CAPS_14557)

  lemma Rows14557From1() ensures Rows(CAPS_14557, 1, 13, 14336, 14557) {}
  lemma Rows14557From13() ensures Rows(CAPS_14557, 13, 23, 14336, 14557) {}
  lemma Climb14557() ensures Rungs(LEVELS_14557, 0, 12, 4, 14557) {}
  lemma Bounds14557() ensures |CAPS_14557| == 23 && Caps(CAPS_14557, 14336, 14557, -67584) {}
  lemma Ends14557()
    ensures |LEVELS_14557| == 13 && LEVELS_14557[0] == 2048 && LEVELS_14557[12] == 23
  {}
  lemma Checked14557()
    ensures Checked(I_14557)
  {
    hide Caps, CAPS_14557, LEVELS_14557;
    Rows14557From1(); Rows14557From13(); Climb14557(); Bounds14557(); Ends14557();
  }

  // decays 14558 to 14738

  const CAPS_14738: seq<int> :=
    [0, -12732, -23638, -32718, -39972, -45400, -49002, -50778, -50728, -48902, -63410, -59758, -72440, -66962,
     -77818, -70514, -79544, -70414, -77718, -68588, -81220]
  const LEVELS_14738: seq<nat> :=
    [1826, 1302, 929, 662, 472, 336, 239, 170, 121, 86, 61, 43, 30, 21]
  const I_14738 := Interval(14558, 14738, -68588, 4, LEVELS_14738, CAPS_14738)

  lemma Rows14738From1() ensures Rows(CAPS_14738, 1, 12, 14558, 14738) {}
  lemma Rows14738From12() ensures Rows(CAPS_14738, 12, 21, 14558, 14738) {}
  lemma Climb14738From0() ensures Rungs(LEVELS_14738, 0, 7, 4, 14738) {}
  lemma Climb14738From7() ensures Rungs(LEVELS_14738, 7, 13, 4, 14738) {}
  lemma Bounds14738() ensures |CAPS_14738| == 21 && Caps(CAPS_14738, 14558, 14738, -68588) {}
  lemma Ends14738()
    ensures |LEVELS_14738| == 14 && LEVELS_14738[0] == 1826 && LEVELS_14738[13] == 21
  {}
  lemma Checked14738()
    ensures Checked(I_14738)
  {
    hide Caps, CAPS_14738, LEVELS_14738;
    Rows14738From1(); Rows14738From12(); Climb14738From0(); Climb14738From7(); Bounds14738(); Ends14738();
  }

  // decays 14739 to 14974

  const CAPS_14974: seq<int> :=
    [0, -13094, -24543, -34347, -42506, -49020, -53889, -57113, -58692, -58626, -56981, -55336, -68364, -65074,
     -76457, -71522, -81260, -74680, -82773, -74548, -81128]
  const LEVELS_14974: seq<nat> :=
    [1645, 1150, 804, 562, 393, 275, 192, 134, 93, 65, 45, 31, 21]
  const I_14974 := Interval(14739, 14974, -74548, 5, LEVELS_14974, CAPS_14974)

  lemma Rows14974From1() ensures Rows(CAPS_14974, 1, 12, 14739, 14974) {}
  lemma Rows14974From12() ensures Rows(CAPS_14974, 12, 21, 14739, 14974) {}
  lemma Climb14974() ensures Rungs(LEVELS_14974, 0, 12, 5, 14974) {}
  lemma Bounds14974() ensures |CAPS_14974| == 21 && Caps(CAPS_14974, 14739, 14974, -74548) {}
  lemma Ends14974()
    ensures |LEVELS_14974| == 13 && LEVELS_14974[0] == 1645 && LEVELS_14974[12] == 21
  {}
  lemma Checked14974()
    ensures Checked(I_14974)
  {
    hide Caps, CAPS_14974, LEVELS_14974;
    Rows14974From1(); Rows14974From12(); Climb14974(); Bounds14974(); Ends14974();
  }

  // decays 14975 to 15246

  const CAPS_15246: seq<int> :=
    [0, -13566, -25723, -36471, -45810, -53740, -60261, -65373, -69076, -71370, -72255, -71731, -70322, -68913,
     -67504, -79137, -76319, -86543, -82316, -91131]
  const LEVELS_15246: seq<nat> :=
    [1409, 994, 701, 495, 349, 246, 173, 122, 86, 60, 42, 29, 20]
  const I_15246 := Interval(14975, 15246, -82316, 6, LEVELS_15246, CAPS_15246)

  lemma Rows15246() ensures Rows(CAPS_15246, 1, 20, 14975, 15246) {}
  lemma Climb15246() ensures Rungs(LEVELS_15246, 0, 12, 6, 15246) {}
  lemma Bounds15246() ensures |CAPS_15246| == 20 && Caps(CAPS_15246, 14975, 15246, -82316) {}
  lemma Ends15246()
    ensures |LEVELS_15246| == 13 && LEVELS_15246[0] == 1409 && LEVELS_15246[12] == 20
  {}
  lemma Checked15246()
    ensures Checked(I_15246)
  {
    hide Caps, CAPS_15246, LEVELS_15246;
    Rows15246(); Climb15246(); Bounds15246(); Ends15246();
  }

  // decays 15247 to 15506

  const CAPS_15506: seq<int> :=
    [0, -14110, -27083, -38919, -49618, -59180, -67605, -74893, -81044, -86058, -89935, -92675, -94278, -94744]
  const LEVELS_15506: seq<nat> :=
    [1137, 796, 557, 390, 273, 191, 133, 93, 65, 45, 31, 21, 14]
  const I_15506 := Interval(15247, 15506, -94744, 8, LEVELS_15506, CAPS_15506)

  lemma Rows15506() ensures Rows(CAPS_15506, 1, 14, 15247, 15506) {}
  lemma Climb15506() ensures Rungs(LEVELS_15506, 0, 12, 8, 15506) {}
  lemma Bounds15506() ensures |CAPS_15506| == 14 && Caps(CAPS_15506, 15247, 15506, -94744) {}
  lemma Ends15506()
    ensures |LEVELS_15506| == 13 && LEVELS_15506[0] == 1137 && LEVELS_15506[12] == 14
  {}
  lemma Checked15506()
    ensures Checked(I_15506)
  {
    hide Caps, CAPS_15506, LEVELS_15506;
    Rows15506(); Climb15506(); Bounds15506(); Ends15506();
  }

  // decays 15507 to 15895

  const CAPS_15895: seq<int> :=
    [0, -14630, -28383, -41259, -53258, -64380, -74625, -83993, -92484, -100098, -106835, -112695, -117678, -121784,
     -125013]
  const LEVELS_15895: seq<nat> :=
    [877, 645, 475, 350, 257, 189, 139, 102, 75, 55, 40, 29, 21, 15]
  const I_15895 := Interval(15507, 15895, -125013, 12, LEVELS_15895, CAPS_15895)

  lemma Rows15895() ensures Rows(CAPS_15895, 1, 15, 15507, 15895) {}
  lemma Climb15895From0() ensures Rungs(LEVELS_15895, 0, 7, 12, 15895) {}
  lemma Climb15895From7() ensures Rungs(LEVELS_15895, 7, 13, 12, 15895) {}
  lemma Bounds15895() ensures |CAPS_15895| == 15 && Caps(CAPS_15895, 15507, 15895, -125013) {}
  lemma Ends15895()
    ensures |LEVELS_15895| == 14 && LEVELS_15895[0] == 877 && LEVELS_15895[13] == 15
  {}
  lemma Checked15895()
    ensures Checked(I_15895)
  {
    hide Caps, CAPS_15895, LEVELS_15895;
    Rows15895(); Climb15895From0(); Climb15895From7(); Bounds15895(); Ends15895();
  }

  // decays 15896 to 16209

  const CAPS_16209: seq<int> :=
    [0, -15408, -30328, -44760, -58704, -72160, -85128, -97608, -109600, -121104, -132120, -142648, -152688, -162240,
     -171304]
  const LEVELS_16209: seq<nat> :=
    [488, 375, 288, 221, 170, 131, 101, 77, 59, 45, 34, 26, 20, 15]
  const I_16209 := Interval(15896, 16209, -171304, 28, LEVELS_16209, CAPS_16209)

  lemma Rows16209() ensures Rows(CAPS_16209, 1, 15, 15896, 16209) {}
  lemma Climb16209() ensures Rungs(LEVELS_16209, 0, 13, 28, 16209) {}
  lemma Bounds16209() ensures |CAPS_16209| == 15 && Caps(CAPS_16209, 15896, 16209, -171304) {}
  lemma Ends16209()
    ensures |LEVELS_16209| == 14 && LEVELS_16209[0] == 488 && LEVELS_16209[13] == 15
  {}
  lemma Checked16209()
    ensures Checked(I_16209)
  {
    hide Caps, CAPS_16209, LEVELS_16209;
    Rows16209(); Climb16209(); Bounds16209(); Ends16209();
  }

  // decays 16210 to 16255

  const CAPS_16255: seq<int> :=
    [0, -16036, -31898, -47586, -63100, -78440, -93606, -108598, -123416, -138060, -152530]
  const LEVELS_16255: seq<nat> :=
    [174, 126, 91, 66, 48, 35, 25, 18, 13, 9]
  const I_16255 := Interval(16210, 16255, -152530, 48, LEVELS_16255, CAPS_16255)

  lemma Rows16255() ensures Rows(CAPS_16255, 1, 11, 16210, 16255) {}
  lemma Climb16255() ensures Rungs(LEVELS_16255, 0, 9, 48, 16255) {}
  lemma Bounds16255() ensures |CAPS_16255| == 11 && Caps(CAPS_16255, 16210, 16255, -152530) {}
  lemma Ends16255()
    ensures |LEVELS_16255| == 10 && LEVELS_16255[0] == 174 && LEVELS_16255[9] == 9
  {}
  lemma Checked16255()
    ensures Checked(I_16255)
  {
    hide Caps, CAPS_16255, LEVELS_16255;
    Rows16255(); Climb16255(); Bounds16255(); Ends16255();
  }

  /** The record whose interval holds decay d. */
  ghost function Covering(d: nat): (iv: Interval)
    requires ONE < 2 * d && d < 16256
    ensures Checked(iv) && iv.lo <= d <= iv.hi
  {
    hide Checked;
    if d <= 9265 then (Checked9265(); I_9265)
    else if d <= 9947 then (Checked9947(); I_9947)
    else if d <= 10389 then (Checked10389(); I_10389)
    else if d <= 10922 then (Checked10922(); I_10922)
    else if d <= 10936 then (Checked10936(); I_10936)
    else if d <= 10978 then (Checked10978(); I_10978)
    else if d <= 11059 then (Checked11059(); I_11059)
    else if d <= 11342 then (Checked11342(); I_11342)
    else if d <= 11565 then (Checked11565(); I_11565)
    else if d <= 11702 then (Checked11702(); I_11702)
    else if d <= 11762 then (Checked11762(); I_11762)
    else if d <= 11893 then (Checked11893(); I_11893)
    else if d <= 12058 then (Checked12058(); I_12058)
    else if d <= 12287 then (Checked12287(); I_12287)
    else if d <= 12336 then (Checked12336(); I_12336)
    else if d <= 12378 then (Checked12378(); I_12378)
    else if d <= 12603 then (Checked12603(); I_12603)
    else if d <= 12873 then (Checked12873(); I_12873)
    else if d <= 13107 then (Checked13107(); I_13107)
    else if d <= 13253 then (Checked13253(); I_13253)
    else if d <= 13447 then (Checked13447(); I_13447)
    else if d <= 13653 then (Checked13653(); I_13653)
    else if d <= 13999 then (Checked13999(); I_13999)
    else if d <= 14199 then (Checked14199(); I_14199)
    else if d <= 14335 then (Checked14335(); I_14335)
    else if d <= 14557 then (Checked14557(); I_14557)
    else if d <= 14738 then (Checked14738(); I_14738)
    else if d <= 14974 then (Checked14974(); I_14974)
    else if d <= 15246 then (Checked15246(); I_15246)
    else if d <= 15506 then (Checked15506(); I_15506)
    else if d <= 15895 then (Checked15895(); I_15895)
    else if d <= 16209 then (Checked16209(); I_16209)
    else (Checked16255(); I_16255)
  }
}
