/** Entropy coding of the split angle: compute_theta() of celt/bands.c. */
module Theta {
  import opened Arith
  import opened RangeModel
  import opened Window
  import opened Isqrt
  import Enc = EntEnc
  import Dec = EntDec
  import RoundTrip

  /** A step for stereo, a triangle for the time-frequency split. */
  datatype Pdf = Stepped | Triangle

  function Half(qn: nat): (r: nat) {
    qn / 2
  }

  function Square(x: nat): (r: nat) {
    x * x
  }

  /** x (x + 1) / 2 */
  function Triangular(x: nat): (t: nat)
    ensures 2 * t == x * (x + 1)
  {
    if x == 0 then 0
    else
      assert x * (x + 1) == (x - 1) * x + 2 * x;
      Triangular(x - 1) + x
  }

  function Total(pdf: Pdf, qn: nat): (r: nat) {
    match pdf
    case Stepped => 3 * (Half(qn) + 1) + Half(qn)
    case Triangle => Square(Half(qn) + 1)
  }

  function Fl(pdf: Pdf, x: nat, qn: nat): (r: int)
    requires x <= qn
  {
    match pdf
    case Stepped => if x <= Half(qn) then 3 * x else (x - 1 - Half(qn)) + (Half(qn) + 1) * 3
    case Triangle =>
      if x <= Half(qn) then Triangular(x) else Total(pdf, qn) - Triangular(qn + 1 - x)
  }

  function Fh(pdf: Pdf, x: nat, qn: nat): (r: int)
    requires x <= qn
  {
    match pdf
    case Stepped => if x <= Half(qn) then 3 * (x + 1) else (x - Half(qn)) + (Half(qn) + 1) * 3
    case Triangle => Fl(pdf, x, qn) + if x <= Half(qn) then x + 1 else qn + 1 - x
  }

  /** What a run of ec_decode() values means: the angle each frequency stands for. */
  ghost predicate InCell(pdf: Pdf, fs: nat, x: nat, qn: nat) {
    x <= qn && Fl(pdf, x, qn) <= fs < Fh(pdf, x, qn)
  }

  lemma {:induction false} TriangularGrows(x: nat, y: nat)
    requires x < y
    ensures Triangular(x) + x + 1 <= Triangular(y)
  {
    if x + 1 < y {
      TriangularGrows(x, y - 1);
    }
  }

  /** Two triangles make the square. */
  lemma TwoTriangles(h: nat)
    ensures Square(h + 1) == Triangular(h) + Triangular(h + 1)
  {
  }

  /** Neighbouring intervals touch, the first starts at 0 and the last ends at the total. */
  lemma Tiling(pdf: Pdf, qn: nat)
    requires qn % 2 == 0
    ensures Fl(pdf, 0, qn) == 0 && Fh(pdf, qn, qn) == Total(pdf, qn)
    ensures forall x :: 0 <= x <= qn ==> Fl(pdf, x, qn) < Fh(pdf, x, qn)
    ensures forall x :: 0 <= x < qn ==> Fh(pdf, x, qn) == Fl(pdf, x + 1, qn)
  {
    hide Triangular, Square;
    var h := Half(qn);
    TwoTriangles(h);
    forall x | 0 <= x < qn ensures Fh(pdf, x, qn) == Fl(pdf, x + 1, qn) {
      TriangularNext(x);
      TriangularNext(qn - x);
      TriangularNext(h);
    }
    TriangularNext(0);
    TriangularZero();
  }

  lemma TriangularNext(x: nat)
    ensures Triangular(x + 1) == Triangular(x) + x + 1
  {
  }

  lemma TriangularZero()
    ensures Triangular(0) == 0 && Triangular(1) == 1
  {
  }

  lemma {:induction false} Ordered(pdf: Pdf, x: nat, y: nat, qn: nat)
    requires qn % 2 == 0 && x < y <= qn
    ensures Fh(pdf, x, qn) <= Fl(pdf, y, qn)
    decreases y
  {
    hide Fl, Fh;
    Tiling(pdf, qn);
    if x + 1 < y {
      Ordered(pdf, x, y - 1, qn);
      assert Fl(pdf, y - 1, qn) < Fh(pdf, y - 1, qn) == Fl(pdf, y - 1 + 1, qn);
    }
  }

  /** The step: angles up to one half are three times as likely as those above. */
  lemma StepWidths(x: nat, qn: nat)
    requires x <= qn
    ensures Fh(Stepped, x, qn) - Fl(Stepped, x, qn) == if 2 * x <= qn then 3 else 1
  {
  }

  /** The triangle: likelihood grows by one from either end to the middle. */
  lemma TriangleWidths(x: nat, qn: nat)
    requires qn % 2 == 0 && x <= qn
    ensures Fh(Triangle, x, qn) - Fl(Triangle, x, qn) == 1 + Min(x, qn - x)
  {
    hide Triangular, Square;
  }

  /** The intervals of all angles lie inside the total and no two share a frequency. */
  lemma Inside(pdf: Pdf, x: nat, qn: nat)
    requires qn % 2 == 0 && x <= qn
    ensures 0 <= Fl(pdf, x, qn) < Fh(pdf, x, qn) <= Total(pdf, qn)
  {
    hide Fl, Fh, Total;
    Tiling(pdf, qn);
    if x > 0 {
      Ordered(pdf, 0, x, qn);
    }
    if x < qn {
      Ordered(pdf, x, qn, qn);
    }
  }

  lemma InCellUnique(pdf: Pdf, fs: nat, x: nat, y: nat, qn: nat)
    requires qn % 2 == 0 && InCell(pdf, fs, x, qn) && InCell(pdf, fs, y, qn)
    ensures x == y
  {
    hide Fl, Fh;
    if x < y {
      Ordered(pdf, x, y, qn);
    } else if y < x {
      Ordered(pdf, y, x, qn);
    }
  }

  // ---------------------------------------------------------------- finding the angle

  /** The inverse of the triangular numbers, through an exact square root. */
  lemma RootOfTriangular(fm: nat, g: nat)
    requires Square(g) <= 8 * fm + 1 < Square(g + 1)
    ensures g >= 1
    ensures var i := (g - 1) / 2; Triangular(i) <= fm < Triangular(i + 1)
  {
    assert Square(1) == 1;
    if g >= 1 {
      var i: nat := (g - 1) / 2;
      OddSquare(i);
      OddSquare(i + 1);
      SquareMono(2 * i + 1, g);
      SquareMono(g + 1, 2 * i + 3);
    }
  }

  lemma OddSquare(i: nat)
    ensures Square(2 * i + 1) == 8 * Triangular(i) + 1
  {
    assert (2 * i + 1) * (2 * i + 1) == 4 * (i * (i + 1)) + 1;
  }

  lemma SquareMono(a: nat, b: nat)
    requires a <= b
    ensures Square(a) <= Square(b)
  {
    MulMono(a, b, a);
    MulMono(a, b, b);
  }

  /** The closed forms of both sides; at the apex the two agree. */
  lemma TriangleStart(x: nat, qn: nat)
    requires x <= qn && qn % 2 == 0
    ensures x <= qn / 2 ==> Fl(Triangle, x, qn) == x * (x + 1) / 2
    ensures x >= qn / 2 ==>
              Fl(Triangle, x, qn) == (qn / 2 + 1) * (qn / 2 + 1) - (qn + 1 - x) * (qn + 2 - x) / 2
              && Fh(Triangle, x, qn) == Fl(Triangle, x, qn) + (qn + 1 - x)
  {
    assert 2 * Triangular(x) == x * (x + 1);
    var j := qn + 1 - x;
    assert 2 * Triangular(j) == j * (j + 1);
    assert j * (j + 1) == (qn + 1 - x) * (qn + 2 - x);
    TwoTriangles(qn / 2);
  }

  /** The decoder's square-root formulas, for both halves of the triangle, with the interval found. */
  method FindTriangle(fm: nat, qn: nat) returns (x: nat, fl: int, fs: nat)
    requires qn % 2 == 0 && fm < Total(Triangle, qn) <= CODE_BOT
    ensures InCell(Triangle, fm, x, qn) && fl == Fl(Triangle, x, qn) && fl + fs == Fh(Triangle, x, qn)
  {
    hide Square, Triangular, InCell;
    var h := Half(qn);
    if fm < h * (h + 1) / 2 {
      x, fl, fs := FindRising(fm, qn);
    } else {
      x, fl, fs := FindFalling(fm, qn);
    }
  }

  /** The first half of the triangle: the angle whose triangular number is reached. */
  method FindRising(fm: nat, qn: nat) returns (x: nat, fl: int, fs: nat)
    requires qn % 2 == 0 && fm < Half(qn) * (Half(qn) + 1) / 2 && Total(Triangle, qn) <= CODE_BOT
    ensures InCell(Triangle, fm, x, qn) && fl == Fl(Triangle, x, qn) && fl + fs == Fh(Triangle, x, qn)
  {
    hide Square, Triangular;
    ghost var h := Half(qn);
    TwoTriangles(h);
    TriangularNext(h);
    var g := Isqrt32(8 * fm + 1);
    SquareIs(g);
    SquareIs(g + 1);
    RootOfTriangular(fm, g);
    x := (g - 1) / 2;
    fs := x + 1;
    fl := x * (x + 1) / 2;
    TriangularNext(x);
    BelowTriangular(x, h);
    TriangleStart(x, qn);
  }

  /** The second half, counted from the far end. */
  method FindFalling(fm: nat, qn: nat) returns (x: nat, fl: int, fs: nat)
    requires qn % 2 == 0 && Half(qn) * (Half(qn) + 1) / 2 <= fm < Total(Triangle, qn) <= CODE_BOT
    ensures InCell(Triangle, fm, x, qn) && fl == Fl(Triangle, x, qn) && fl + fs == Fh(Triangle, x, qn)
  {
    hide Square, Triangular;
    var h := Half(qn);
    var ft := (h + 1) * (h + 1);
    TwoTriangles(h);
    SquareIs(h + 1);
    TriangularNext(h);
    var u := ft - fm - 1;
    var g := Isqrt32(8 * u + 1);
    SquareIs(g);
    SquareIs(g + 1);
    RootOfTriangular(u, g);
    var j: nat := (g - 1) / 2;
    BelowTriangular(j, h + 1);
    TriangularNext(j);
    x := (2 * (qn + 1) - g) / 2;
    assert x == qn - j;
    fs := qn + 1 - x;
    fl := ft - (qn + 1 - x) * (qn + 2 - x) / 2;
    TriangleStart(x, qn);
  }

  lemma SquareIs(x: nat)
    ensures Square(x) == x * x
  {
  }

  lemma BelowTriangular(i: nat, h: nat)
    requires Triangular(i) < Triangular(h)
    ensures i < h
  {
    if h < i {
      TriangularGrows(h, i);
    }
  }

  method FindStep(fs: nat, qn: nat) returns (x: nat)
    requires qn % 2 == 0 && fs < Total(Stepped, qn)
    ensures InCell(Stepped, fs, x, qn)
  {
    var x0 := qn / 2;
    if fs < (x0 + 1) * 3 {
      x := fs / 3;
    } else {
      x := x0 + 1 + (fs - (x0 + 1) * 3);
    }
  }

  // ---------------------------------------------------------------- through the coder

  /** The three ways compute_theta() codes an angle of resolution qn. */
  function CallsOf(stereo: bool, n: nat, b0: nat, x: nat, qn: nat): (ops: seq<Op>)
    requires Codable(qn) && x <= qn
  {
    if stereo && n > 2 then [CellCall(Stepped, x, qn)]
    else if b0 > 1 || stereo then UintOps(x, qn + 1)
    else [CellCall(Triangle, x, qn)]
  }

  /** Which angles are likely: a step for stereo bands, all alike for time splits and pairs, a triangle otherwise. */
  lemma CallsLikelihood(stereo: bool, n: nat, b0: nat, itheta: nat, qn: nat)
    requires Codable(qn) && itheta <= qn
    ensures var s := CallsOf(stereo, n, b0, itheta, qn);
            && (stereo && n > 2 ==> |s| == 1 && s[0].Freq? && s[0].fh - s[0].fl == if 2 * itheta <= qn then 3 else 1)
            && (!stereo && b0 <= 1 ==> |s| == 1 && s[0].Freq? && s[0].fh - s[0].fl == 1 + Min(itheta, qn - itheta))
            && ((stereo && n <= 2) || (!stereo && b0 > 1) ==> s == UintOps(itheta, qn + 1))
  {
    hide Fl, Fh, UintOps, Total;
    StepWidths(itheta, qn);
    TriangleWidths(itheta, qn);
  }

  /** An even resolution whose totals the range coder accepts. */
  predicate Codable(qn: nat) {
    0 < qn && qn % 2 == 0 && Total(Stepped, qn) <= CODE_BOT && Total(Triangle, qn) <= CODE_BOT
  }

  function CellCall(pdf: Pdf, x: nat, qn: nat): (op: Op)
    requires Codable(qn) && x <= qn
  {
    Inside(pdf, x, qn);
    Freq(Fl(pdf, x, qn), Fh(pdf, x, qn), Total(pdf, qn))
  }

  method Encode(enc: Enc.Encoder, stereo: bool, n: nat, b0: nat, itheta: nat, qn: nat)
    requires enc.Valid() && Codable(qn) && itheta <= qn
    modifies enc, enc.buf
    ensures enc.Valid() && enc.ops == old(enc.ops) + CallsOf(stereo, n, b0, itheta, qn)
    ensures enc.storage == old(enc.storage)
  {
    hide Run, UintOps, Enc.Encoder.Valid, Square, Triangular;
    if stereo && n > 2 {
      var x, x0 := itheta, qn / 2;
      var ft := 3 * (x0 + 1) + x0;
      Inside(Stepped, x, qn);
      enc.Encode(if x <= x0 then 3 * x else (x - 1 - x0) + (x0 + 1) * 3,
                 if x <= x0 then 3 * (x + 1) else (x - x0) + (x0 + 1) * 3, ft);
    } else if b0 > 1 || stereo {
      enc.Uint(itheta, qn + 1);
    } else {
      var h := qn / 2;
      var ft := (h + 1) * (h + 1);
      SquareIs(h + 1);
      Inside(Triangle, itheta, qn);
      var fs := if itheta <= h then itheta + 1 else qn + 1 - itheta;
      TriangleStart(itheta, qn);
      var fl := if itheta <= h then itheta * (itheta + 1) / 2
                else ft - (qn + 1 - itheta) * (qn + 2 - itheta) / 2;
      enc.Encode(fl, fl + fs, ft);
    }
  }

  /** The decoder of the angle: on any bytes a value in 0..qn, with exactly that value's calls. */
  method Decode(dec: Dec.Decoder, stereo: bool, n: nat, b0: nat, qn: nat) returns (itheta: nat)
    requires dec.Valid() && Codable(qn)
    modifies dec
    ensures dec.Valid() && itheta <= qn
    ensures || (dec.ops == old(dec.ops) + CallsOf(stereo, n, b0, itheta, qn) && dec.error == old(dec.error))
            || (dec.error == 1 && Dec.CorruptUint(old(dec.ops), dec.ops, qn + 1))
  {
    hide Run, UintOps, Dec.CorruptUint, Square, Triangular, Points, Fl, Fh, Dec.Decoder.Valid;
    if stereo && n > 2 {
      itheta := DecodeCell(dec, Stepped, qn);
    } else if b0 > 1 || stereo {
      itheta := dec.Uint(qn + 1);
    } else {
      itheta := DecodeCell(dec, Triangle, qn);
    }
  }

  /** ec_decode(), the search of the pdf, ec_dec_update(). */
  method DecodeCell(dec: Dec.Decoder, pdf: Pdf, qn: nat) returns (x: nat)
    requires dec.Valid() && Codable(qn)
    modifies dec
    ensures dec.Valid() && x <= qn && dec.error == old(dec.error)
    ensures dec.ops == old(dec.ops) + [CellCall(pdf, x, qn)]
  {
    hide Run, Square, Triangular, Points, Fl, Fh, Dec.Decoder.Valid;
    var ft := Total(pdf, qn);
    assert ft > 0 by {
      Inside(pdf, 0, qn);
    }
    var fm := dec.Decode(ft);
    PointsBelow(dec.rng, dec.val, fm, ft);
    if pdf.Stepped? {
      x := FindStep(fm, qn);
      Inside(pdf, x, qn);
      dec.Update(Fl(pdf, x, qn), Fh(pdf, x, qn), ft, fm);
    } else {
      var fl, fs;
      x, fl, fs := FindTriangle(fm, qn);
      Inside(pdf, x, qn);
      dec.Update(fl, fl + fs, ft, fm);
    }
  }

  lemma CellsSeparate(pdf: Pdf, x: nat, y: nat, qn: nat)
    requires Codable(qn) && x <= qn && y <= qn
    ensures SameModel(CellCall(pdf, x, qn), CellCall(pdf, y, qn))
    ensures CellCall(pdf, x, qn) == CellCall(pdf, y, qn) ==> x == y
  {
    hide Fl, Fh;
    Inside(pdf, x, qn);
    Inside(pdf, y, qn);
    if x < y {
      Ordered(pdf, x, y, qn);
    } else if y < x {
      Ordered(pdf, y, x, qn);
    }
  }

  /** In sync, the decoded angle is the encoded one. */
  lemma RoundTrips(pre: seq<Op>, stereo: bool, n: nat, b0: nat, x: nat, y: nat, qn: nat, post: seq<Op>, p: seq<byte>)
    requires Codable(qn) && x <= qn && y <= qn
    requires RangeModel.Holds(Run(pre + CallsOf(stereo, n, b0, x, qn) + post), p)
    requires RangeModel.Holds(Run(pre + CallsOf(stereo, n, b0, y, qn)), p)
    ensures x == y
  {
    hide Run, RangeModel.Holds, CellCall, UintOps;
    if stereo && n > 2 {
      CellsSeparate(Stepped, x, y, qn);
      RoundTrip.FollowAll(pre, CallsOf(stereo, n, b0, x, qn), CallsOf(stereo, n, b0, y, qn), post, p);
    } else if b0 > 1 || stereo {
      RoundTrip.CallsUniform(RoundTrip.Uniform(qn + 1), x);
      RoundTrip.CallsUniform(RoundTrip.Uniform(qn + 1), y);
      RoundTrip.FollowValue(pre, RoundTrip.Uniform(qn + 1), x, y, post, p);
    } else {
      CellsSeparate(Triangle, x, y, qn);
      RoundTrip.FollowAll(pre, CallsOf(stereo, n, b0, x, qn), CallsOf(stereo, n, b0, y, qn), post, p);
    }
  }

  /** Even resolutions are exactly the ones whose intervals fit the total and never meet. */
  lemma EvenExactly(pdf: Pdf, qn: nat)
    ensures qn % 2 == 0 <==>
            && (forall x :: 0 <= x <= qn ==> 0 <= Fl(pdf, x, qn) < Fh(pdf, x, qn) <= Total(pdf, qn))
            && (forall x, y :: 0 <= x < y <= qn ==> Fh(pdf, x, qn) <= Fl(pdf, y, qn))
  {
    hide Triangular, Square;
    if qn % 2 == 0 {
      forall x | 0 <= x <= qn ensures 0 <= Fl(pdf, x, qn) < Fh(pdf, x, qn) <= Total(pdf, qn) {
        Inside(pdf, x, qn);
      }
      forall x, y | 0 <= x < y <= qn ensures Fh(pdf, x, qn) <= Fl(pdf, y, qn) {
        Ordered(pdf, x, y, qn);
      }
    } else {
      var h := Half(qn);
      TwoTriangles(h);
      assert Fh(Stepped, qn, qn) == Total(Stepped, qn) + 1;
      assert Fl(Triangle, h, qn) == Fl(Triangle, h + 1, qn);
    }
  }
}
