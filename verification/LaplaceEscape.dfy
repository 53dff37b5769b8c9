/** The escape-coded Laplace distribution of celt/laplace.c: a sign, then base-7 digits. */
module LaplaceEscape {
  import opened Arith
  import opened RangeModel
  import opened Window
  import Enc = EntEnc
  import Dec = EntDec
  import RoundTrip

  predicate Params(p0: nat, decay: nat) {
    1 <= p0 <= 32766 && decay < 0x8000
  }

  /** Magnitude table entry i, before the final zero. */
  function Entry(i: nat, decay: nat): (r: nat) {
    if i == 0 then Max(7, decay)
    else
      NonNegative(Entry(i - 1, decay), decay);
      Max(if i <= 7 then 7 - i else 0, Entry(i - 1, decay) * decay / 0x8000)
  }

  function Entries(n: nat, decay: nat): (s: seq<nat>)
    ensures |s| == n && forall i :: 0 <= i < n ==> s[i] == Entry(i, decay)
  {
    seq(n, i requires 0 <= i < n => Entry(i, decay))
  }

  function MagnitudeIcdf(decay: nat): (s: seq<nat>) {
    Entries(7, decay) + [0]
  }

  function SignIcdf(p0: nat): (s: seq<nat>)
    requires p0 <= 0x8000
  {
    [0x8000 - p0, (0x8000 - p0) / 2, 0]
  }

  // ---------------------------------------------------------------- the tables are usable

  lemma {:induction false} EntryFalls(i: nat, decay: nat)
    requires i <= 6 && decay < 0x8000
    ensures 7 - i <= Entry(i, decay) < 0x8000
    ensures i > 0 ==> Entry(i, decay) < Entry(i - 1, decay)
  {
    if i > 0 {
      EntryFalls(i - 1, decay);
      MulMono(decay, 0x7fff, Entry(i - 1, decay));
    }
  }

  /** The generated table is strictly decreasing and ends in 0, so every symbol can be coded. */
  lemma MagnitudeUsable(decay: nat)
    requires decay < 0x8000
    ensures var t := MagnitudeIcdf(decay);
            && |t| == 8 && t[7] == 0 && (forall i, j :: 0 <= i < j < 8 ==> t[j] < t[i])
            && IcdfTable(t, 15) && (forall v :: 0 <= v < 8 ==> IcdfCodes(t, v, 15))
  {
    hide Entry;
    var t := MagnitudeIcdf(decay);
    Pow2Constants();
    EntryFalls(0, decay);
    EntryFalls(1, decay);
    EntryFalls(2, decay);
    EntryFalls(3, decay);
    EntryFalls(4, decay);
    EntryFalls(5, decay);
    EntryFalls(6, decay);
    assert t[0] > t[1] > t[2] > t[3] > t[4] > t[5] > t[6] > t[7];
  }

  lemma SignUsable(p0: nat)
    requires 1 <= p0 <= 32766
    ensures IcdfTable(SignIcdf(p0), 15) && forall v :: 0 <= v < 3 ==> IcdfCodes(SignIcdf(p0), v, 15)
  {
    Pow2Constants();
  }

  /** Outside the allowed range of p0 one of the signs has no room. */
  lemma SignNeedsRoom(p0: nat)
    requires p0 <= 0x8000
    ensures (IcdfTable(SignIcdf(p0), 15) && forall v :: 0 <= v < 3 ==> IcdfCodes(SignIcdf(p0), v, 15))
            <==> 1 <= p0 <= 32766
  {
    Pow2Constants();
    assert IcdfCodes(SignIcdf(p0), 2, 15) ==> SignIcdf(p0)[2] < SignIcdf(p0)[1];
  }

  /** d^k */
  function Power(d: nat, k: nat): (r: nat) {
    if k == 0 then 1
    else
      NonNegative(d, Power(d, k - 1));
      d * Power(d, k - 1)
  }

  lemma PowerNext(d: nat, k: nat)
    ensures Power(d, k + 1) == d * Power(d, k)
  {
  }

  /**
   * The table decays geometrically: entry i is decay^(i+1) in units of 2^(15i) up to i roundings, except where the
   * floor that keeps every symbol codable takes over.
   */
  lemma {:induction false} EntryDecays(i: nat, decay: nat)
    requires i <= 6 && decay < 0x8000
    ensures Power(decay, i + 1) <= (Entry(i, decay) + i) * Power(0x8000, i)
    ensures Entry(i, decay) == 7 - i || Entry(i, decay) * Power(0x8000, i) <= Power(decay, i + 1)
  {
    hide Power, Entry;
    EntryFalls(i, decay);
    PowerNext(decay, i);
    if i == 0 {
      EntryFirst(decay);
    } else {
      EntryDecays(i - 1, decay);
      EntryNext(i, decay);
      PowerNext(0x8000, i - 1);
      var t, q := Entry(i - 1, decay), Entry(i - 1, decay) * decay / 0x8000;
      DivMod(t * decay, 0x8000);
      DecayBelow(Power(decay, i), t, i - 1, Entry(i, decay), decay, Power(0x8000, i - 1));
      if Entry(i, decay) != 7 - i {
        if t == 7 - (i - 1) {
          MulMono(decay, 0x7fff, t);
        } else {
          DecayAbove(Power(decay, i), t, Entry(i, decay), decay, Power(0x8000, i - 1));
        }
      }
    }
  }

  lemma EntryFirst(decay: nat)
    ensures Entry(0, decay) == Max(7, decay) && Power(decay, 1) == decay && Power(0x8000, 0) == 1
  {
    PowerNext(decay, 0);
  }

  lemma EntryNext(i: nat, decay: nat)
    requires 1 <= i <= 7
    ensures Entry(i, decay) == Max(7 - i, Entry(i - 1, decay) * decay / 0x8000)
  {
  }

  lemma DecayBelow(x: nat, t: nat, e: nat, u: nat, d: nat, p: nat)
    requires x <= (t + e) * p && d < 0x8000 && t * d < 0x8000 * (u + 1)
    ensures d * x <= (u + e + 1) * (0x8000 * p)
  {
    MulMono(x, (t + e) * p, d);
    MulAssoc(d, t + e, p);
    Distribute(d, t, e);
    MulMono(d, 0x8000, e);
    MulMono(d * (t + e), 0x8000 * (u + e + 1), p);
    MulAssoc(u + e + 1, 0x8000, p);
    MulAssoc(0x8000, u + e + 1, p);
  }

  lemma DecayAbove(x: nat, t: nat, u: nat, d: nat, p: nat)
    requires t * p <= x && u * 0x8000 <= t * d
    ensures u * (0x8000 * p) <= d * x
  {
    MulMono(u * 0x8000, t * d, p);
    MulAssoc(u, 0x8000, p);
    MulAssoc(d, t, p);
    MulMono(t * p, x, d);
    MulAssoc(t, p, d);
  }

  // ---------------------------------------------------------------- the calls of a value

  function Digit(v: nat, decay: nat): (op: Op)
    requires v < 8 && decay < 0x8000
  {
    MagnitudeUsable(decay);
    IcdfOp(v, MagnitudeIcdf(decay), 15)
  }

  function SignCall(s: nat, p0: nat): (op: Op)
    requires s < 3 && 1 <= p0 <= 32766
  {
    SignUsable(p0);
    IcdfOp(s, SignIcdf(p0), 15)
  }

  /** The sign symbols: zero exactly p0 wide, then the positive and the negative sign, equal up to one. */
  lemma SignWidths(p0: nat)
    requires 1 <= p0 <= 32766
    ensures var zero, plus, minus := SignCall(0, p0), SignCall(1, p0), SignCall(2, p0);
            && zero.fl == 0 && zero.fh == p0 == plus.fl && plus.fh == minus.fl && minus.fh == 0x8000
            && 0 <= (plus.fh - plus.fl) - (minus.fh - minus.fl) <= 1
  {
    Pow2Constants();
  }

  /** v in base-7 escapes: sevens as long as they fit, then one smaller digit. */
  function Escapes(v: nat, decay: nat): (s: seq<Op>)
    requires decay < 0x8000
  {
    if v < 7 then [Digit(v, decay)] else [Digit(7, decay)] + Escapes(v - 7, decay)
  }

  /** One seven for every whole seven of the value, then the remainder. */
  lemma {:induction false} EscapesSpell(v: nat, decay: nat)
    requires decay < 0x8000
    ensures var s := Escapes(v, decay);
            && |s| == v / 7 + 1 && s[v / 7] == Digit(v % 7, decay)
            && forall i :: 0 <= i < v / 7 ==> s[i] == Digit(7, decay)
    decreases v
  {
    hide Digit;
    if v >= 7 {
      EscapesSpell(v - 7, decay);
    }
  }

  function SignOf(v: int): (r: nat) {
    if v == 0 then 0 else if v > 0 then 1 else 2
  }

  function CallsOf(v: int, p0: nat, decay: nat): (s: seq<Op>)
    requires Params(p0, decay)
  {
    [SignCall(SignOf(v), p0)] + if v == 0 then [] else Escapes(Abs(v) - 1, decay)
  }

  /**
   * What the calls of a value say: zero is one call with probability p0, then come the positive and the negative
   * values in equal shares, and every seven above a magnitude of one takes an escape of its own.
   */
  lemma CallsSpell(v: int, p0: nat, decay: nat)
    requires Params(p0, decay)
    ensures var s := CallsOf(v, p0, decay);
            && s[0].Freq? && s[0].ft == 0x8000
            && (v == 0 ==> s == [Freq(0, p0, 0x8000)])
            && (v > 0 ==> s[0].fl == p0 && s[0].fh == 0x8000 - (0x8000 - p0) / 2)
            && (v < 0 ==> s[0].fl == 0x8000 - (0x8000 - p0) / 2 && s[0].fh == 0x8000)
            && (v != 0 ==> |s| == 2 + (Abs(v) - 1) / 7 && s[|s| - 1] == Digit((Abs(v) - 1) % 7, decay))
            && forall i :: 1 <= i < |s| - 1 ==> s[i] == Digit(7, decay)
  {
    hide Digit, Escapes;
    Pow2Constants();
    if v != 0 {
      EscapesSpell(Abs(v) - 1, decay);
    }
  }

  /** The table loop both sides run. */
  method BuildTable(decay: nat) returns (icdf: seq<nat>)
    requires decay < 0x8000
    ensures icdf == MagnitudeIcdf(decay)
  {
    icdf := [Max(7, decay)];
    var i := 1;
    while i < 7
      invariant 1 <= i <= 7 && icdf == Entries(i, decay)
    {
      NonNegative(icdf[i - 1], decay);
      icdf := icdf + [Max(7 - i, icdf[i - 1] * decay / 0x8000)];
      i := i + 1;
    }
    icdf := icdf + [0];
  }

  /** ec_laplace_encode_p0() */
  method Encode(enc: Enc.Encoder, value: int, p0: nat, decay: nat)
    requires enc.Valid() && Params(p0, decay)
    modifies enc, enc.buf
    ensures enc.Valid() && enc.ops == old(enc.ops) + CallsOf(value, p0, decay) && enc.storage == old(enc.storage)
  {
    hide Run, IcdfOp, MagnitudeIcdf, SignIcdf, IcdfTable, IcdfCodes, Enc.Encoder.Valid, Escapes;
    SignUsable(p0);
    enc.Icdf(SignOf(value), SignIcdf(p0), 15);
    var v: int := Abs(value);
    if v != 0 {
      MagnitudeUsable(decay);
      var icdf := BuildTable(decay);
      v := v - 1;
      EncodeDigits(enc, v, icdf, decay);
      assert enc.ops == old(enc.ops) + ([SignCall(SignOf(value), p0)] + Escapes(v, decay));
    }
  }

  method EncodeDigits(enc: Enc.Encoder, v0: nat, icdf: seq<nat>, decay: nat)
    requires enc.Valid() && decay < 0x8000 && icdf == MagnitudeIcdf(decay)
    modifies enc, enc.buf
    ensures enc.Valid() && enc.ops == old(enc.ops) + Escapes(v0, decay) && enc.storage == old(enc.storage)
  {
    hide Run, IcdfOp, MagnitudeIcdf, IcdfTable, IcdfCodes, Enc.Encoder.Valid;
    MagnitudeUsable(decay);
    var v: int := v0;
    ghost var done: seq<Op> := [];
    while v >= 0
      invariant enc.Valid() && enc.storage == old(enc.storage) && enc.ops == old(enc.ops) + done
      invariant done + (if v >= 0 then Escapes(v, decay) else []) == Escapes(v0, decay)
      decreases v
    {
      var d := if v < 7 then v else 7;
      enc.Icdf(d, icdf, 15);
      done := done + [Digit(d, decay)];
      v := v - 7;
    }
  }

  // ---------------------------------------------------------------- decoding

  /** Packet bytes a renormalisation can still bring in, counting the one whose last bit is held back. */
  function Unread(s: State, p: seq<byte>): (r: nat) {
    if s.n + 4 <= |p| then |p| + 1 - (s.n + 4) else 0
  }

  /** Distance from the code point to the top of the interval: the decoder's val. */
  function Gap(s: State, p: seq<byte>): (r: int) {
    s.low + s.rng - 1 - Code(p, s.n)
  }

  /** Past the end of the packet a shift widens the gap. */
  lemma ShiftWidens(s: State, p: seq<byte>)
    requires Unread(s, p) == 0 && 0 <= Gap(s, p)
    ensures Gap(Shift(s), p) > Gap(s, p)
  {
    var x := Prefix(p, s.n + 3);
    assert Prefix(p, s.n + 4) == 256 * x + At(p, s.n + 3);
    assert Prefix(p, s.n + 5) == 256 * Prefix(p, s.n + 4) + At(p, s.n + 4);
  }

  lemma {:induction false} NormalizeWidens(s: State, p: seq<byte>)
    requires 0 < s.rng <= CODE_TOP && Unread(s, p) == 0 && 0 <= Gap(s, p)
    ensures Gap(Normalize(s), p) >= Gap(s, p)
    ensures s.rng <= CODE_BOT ==> Gap(Normalize(s), p) > Gap(s, p)
    decreases CODE_TOP - s.rng
  {
    hide Code;
    if s.rng <= CODE_BOT {
      ShiftWidens(s, p);
      NormalizeWidens(Shift(s), p);
    }
  }

  lemma NormalizeReads(s: State, p: seq<byte>)
    requires 0 < s.rng <= CODE_BOT
    ensures Unread(Normalize(s), p) <= Unread(s, p)
    ensures Unread(s, p) > 0 ==> Unread(Normalize(s), p) < Unread(s, p)
  {
    assert Normalize(s) == Normalize(Shift(s));
  }

  ghost predicate Progress(s: State, t: State, p: seq<byte>) {
    || Unread(t, p) < Unread(s, p)
    || (Unread(t, p) == Unread(s, p) && Gap(t, p) > Gap(s, p))
    || (Unread(t, p) == Unread(s, p) && Gap(t, p) == Gap(s, p) && t.rng < s.rng)
  }

  /**
   * Decoding another escape makes progress on any bytes: it consumes packet bytes, or widens the gap past
   * their end, or narrows the range. This is why the decoder's loop ends.
   */
  lemma EscapeProgress(s: State, p: seq<byte>, decay: nat)
    requires CODE_BOT < s.rng <= CODE_TOP && decay < 0x8000 && 0 <= Gap(s, p)
    ensures Progress(s, Step(s, Digit(7, decay)), p)
  {
    hide Code;
    MagnitudeUsable(decay);
    var op := Digit(7, decay);
    assert op.fh == op.ft && op.fl > 0;
    BoundOrder(s.rng, op.fl, op.fh, op.ft);
    BoundOrder(s.rng, 0, op.fl, op.ft);
    var t := Narrow(s, op.fl, op.fh, op.ft);
    assert t.n == s.n && t.low + t.rng == s.low + s.rng && t.rng < s.rng;
    if t.rng <= CODE_BOT {
      NormalizeReads(t, p);
      if Unread(s, p) == 0 {
        NormalizeWidens(t, p);
      }
    }
  }

  method DecodeDigit(dec: Dec.Decoder, icdf: seq<nat>, decay: nat) returns (v: nat)
    requires dec.Valid() && decay < 0x8000 && icdf == MagnitudeIcdf(decay)
    modifies dec
    ensures dec.Valid() && v < 8 && dec.ops == old(dec.ops) + [Digit(v, decay)] && dec.error == old(dec.error)
    ensures v == 7 ==> Progress(old(Run(dec.ops)), Run(dec.ops), dec.packet)
  {
    hide Run, IcdfOp, MagnitudeIcdf, IcdfTable, IcdfCodes, Progress, Code, Step;
    MagnitudeUsable(decay);
    ghost var pre := dec.ops;
    assert Gap(Run(pre), dec.packet) >= 0 by {
      GapIsVal(dec);
    }
    EscapeProgress(Run(pre), dec.packet, decay);
    v := dec.Icdf(icdf, 15);
    MagnitudeLength(icdf, v, decay);
    RunAppend(pre, Digit(v, decay));
  }

  lemma GapIsVal(dec: Dec.Decoder)
    requires dec.Valid()
    ensures Gap(Run(dec.ops), dec.packet) == dec.val < dec.rng == Run(dec.ops).rng <= CODE_TOP
  {
  }

  /** Base-7 digits, and the value they spell. */
  method DecodeDigits(dec: Dec.Decoder, icdf: seq<nat>, decay: nat) returns (value: nat)
    requires dec.Valid() && decay < 0x8000 && icdf == MagnitudeIcdf(decay)
    modifies dec
    ensures dec.Valid() && value >= 1 && dec.ops == old(dec.ops) + Escapes(value - 1, decay)
    ensures dec.error == old(dec.error)
  {
    hide Run, Digit, MagnitudeIcdf, Gap, Unread, Dec.Decoder.Valid;
    value := 1;
    var v := 7;
    ghost var n := 0;
    GapIsVal(dec);
    while v == 7
      invariant dec.Valid() && dec.error == old(dec.error) && value >= 1 && (v == 7 ==> value == 7 * n + 1)
      invariant v == 7 ==> dec.ops == old(dec.ops) + Sevens(n, decay)
      invariant v != 7 ==> dec.ops == old(dec.ops) + Escapes(value - 1, decay)
      invariant Gap(Run(dec.ops), dec.packet) < CODE_TOP
      decreases v == 7, Unread(Run(dec.ops), dec.packet), CODE_TOP - Gap(Run(dec.ops), dec.packet), Run(dec.ops).rng
    {
      v := DecodeDigit(dec, icdf, decay);
      value := value + v;
      assert dec.ops == old(dec.ops) + (Sevens(n, decay) + [Digit(v, decay)]);
      GapIsVal(dec);
      if v == 7 {
        n := n + 1;
      } else {
        SevensThen(n, v, decay);
      }
    }
  }

  /** ec_laplace_decode_p0(): on any bytes, exactly the calls of the value returned. */
  method Decode(dec: Dec.Decoder, p0: nat, decay: nat) returns (value: int)
    requires dec.Valid() && Params(p0, decay)
    modifies dec
    ensures dec.Valid() && dec.ops == old(dec.ops) + CallsOf(value, p0, decay) && dec.error == old(dec.error)
  {
    hide Run, IcdfOp, MagnitudeIcdf, IcdfTable, IcdfCodes, Escapes, Dec.Decoder.Valid;
    SignUsable(p0);
    ghost var pre := dec.ops;
    var s: int := dec.Icdf(SignIcdf(p0), 15);
    assert dec.ops == pre + [SignCall(s, p0)] && s < 3 by {
      SignLength(p0, s);
    }
    if s == 2 {
      s := -1;
    }
    if s != 0 {
      var icdf := BuildTable(decay);
      var magnitude := DecodeDigits(dec, icdf, decay);
      value := s * magnitude;
      assert dec.ops == pre + ([SignCall(SignOf(value), p0)] + Escapes(Abs(value) - 1, decay));
    } else {
      value := 0;
    }
  }

  lemma SignLength(p0: nat, s: nat)
    requires 1 <= p0 <= 32766 && IcdfTable(SignIcdf(p0), 15) && IcdfCodes(SignIcdf(p0), s, 15)
    ensures s < 3 && IcdfOp(s, SignIcdf(p0), 15) == SignCall(s, p0)
  {
  }

  lemma MagnitudeLength(icdf: seq<nat>, v: nat, decay: nat)
    requires decay < 0x8000 && icdf == MagnitudeIcdf(decay) && IcdfTable(icdf, 15) && IcdfCodes(icdf, v, 15)
    ensures v < 8 && IcdfOp(v, icdf, 15) == Digit(v, decay)
  {
  }

  function Sevens(n: nat, decay: nat): (s: seq<Op>)
    requires decay < 0x8000
  {
    if n == 0 then [] else Sevens(n - 1, decay) + [Digit(7, decay)]
  }

  lemma {:induction false} SevensThen(n: nat, v: nat, decay: nat)
    requires decay < 0x8000 && v < 7
    ensures Sevens(n, decay) + [Digit(v, decay)] == Escapes(7 * n + v, decay)
  {
    if n > 0 {
      SevensThen(n - 1, v, decay);
      SevensFront(n, decay);
    }
  }

  lemma {:induction false} SevensFront(n: nat, decay: nat)
    requires decay < 0x8000 && n > 0
    ensures Sevens(n, decay) == [Digit(7, decay)] + Sevens(n - 1, decay)
  {
    if n > 1 {
      SevensFront(n - 1, decay);
    }
  }

  // ---------------------------------------------------------------- the round trip

  /** The digits are a prefix code: whatever follows, the packet pins the escaped magnitude. */
  lemma {:induction false} EscapesRoundTrip(pre: seq<Op>, a: nat, b: nat, post: seq<Op>, p: seq<byte>, decay: nat)
    requires decay < 0x8000
    requires Holds(Run(pre + Escapes(a, decay) + post), p) && Holds(Run(pre + Escapes(b, decay)), p)
    ensures a == b
    decreases a
  {
    hide Run, Holds, Digit;
    var da, db := if a < 7 then a else 7, if b < 7 then b else 7;
    var ra := if a < 7 then [] else Escapes(a - 7, decay);
    var rb := if b < 7 then [] else Escapes(b - 7, decay);
    var ops := pre + Escapes(a, decay) + post;
    assert ops == (pre + [Digit(da, decay)]) + ra + post;
    assert pre + Escapes(b, decay) == (pre + [Digit(db, decay)]) + rb;
    PrefixHolds(pre + Escapes(b, decay), |pre| + 1, p);
    assert (pre + Escapes(b, decay))[..|pre| + 1] == pre + [Digit(db, decay)];
    assert ops[..|pre|] == pre && ops[|pre|] == Digit(da, decay);
    DigitsSeparate(da, db, decay);
    Follow(ops, |pre|, Digit(db, decay), p);
    if a >= 7 {
      EscapesRoundTrip(pre + [Digit(7, decay)], a - 7, b - 7, post, p, decay);
    }
  }

  lemma DigitsSeparate(a: nat, b: nat, decay: nat)
    requires a < 8 && b < 8 && decay < 0x8000
    ensures SameModel(Digit(a, decay), Digit(b, decay)) && (Digit(a, decay) == Digit(b, decay) ==> a == b)
  {
    hide MagnitudeIcdf;
    MagnitudeUsable(decay);
    RoundTrip.IcdfSameModel(MagnitudeIcdf(decay), 15, a, b);
  }

  lemma SignsSeparate(a: nat, b: nat, p0: nat)
    requires a < 3 && b < 3 && 1 <= p0 <= 32766
    ensures SameModel(SignCall(a, p0), SignCall(b, p0)) && (SignCall(a, p0) == SignCall(b, p0) ==> a == b)
  {
    hide SignIcdf;
    SignUsable(p0);
    RoundTrip.IcdfSameModel(SignIcdf(p0), 15, a, b);
  }

  /** Every integer comes back, and the decoder consumes exactly the encoder's calls. */
  lemma RoundTrips(pre: seq<Op>, v: int, w: int, post: seq<Op>, p: seq<byte>, p0: nat, decay: nat)
    requires Params(p0, decay)
    requires Holds(Run(pre + CallsOf(v, p0, decay) + post), p) && Holds(Run(pre + CallsOf(w, p0, decay)), p)
    ensures v == w
  {
    hide Run, Holds, SignCall, Escapes;
    var ops := pre + CallsOf(v, p0, decay) + post;
    var sv, sw := SignCall(SignOf(v), p0), SignCall(SignOf(w), p0);
    PrefixHolds(pre + CallsOf(w, p0, decay), |pre| + 1, p);
    assert (pre + CallsOf(w, p0, decay))[..|pre| + 1] == pre + [sw];
    assert ops[..|pre|] == pre && ops[|pre|] == sv;
    SignsSeparate(SignOf(v), SignOf(w), p0);
    Follow(ops, |pre|, sw, p);
    if v != 0 {
      var pre' := pre + [sv];
      var ev, ew := Escapes(Abs(v) - 1, decay), Escapes(Abs(w) - 1, decay);
      assert ops == pre' + ev + post && pre + CallsOf(w, p0, decay) == pre' + ew;
      EscapesRoundTrip(pre', Abs(v) - 1, Abs(w) - 1, post, p, decay);
    }
  }
}
