/** Coding with the Laplace distribution of celt/laplace.c, values past the tail clamped. */
module Laplace {
  import opened Arith
  import opened LaplacePdf
  import opened LaplaceTail
  import opened RangeModel
  import opened Window
  import Enc = EntEnc
  import Dec = EntDec
  import RoundTrip

  // ---------------------------------------------------------------- the code of every value

  /** The value actually coded, and its interval. */
  datatype Code = Code(value: int, fl: int, fh: int)

  /** How many tail magnitudes exist on one side. */
  function TailCount(negative: bool, fs0: nat, decay: nat): (n: int)
    requires Params(fs0, decay)
    ensures n >= 1
  {
    TailNeverShort(fs0, decay);
    (TailUnits(fs0, decay) + if negative then 1 else 0) / 2
  }

  function Sign(negative: bool, m: int): (r: int) {
    if negative then -m else m
  }

  /** What ec_laplace_encode() codes for v; in the tail, clamped to the last unit of its sign. */
  function CodeOf(v: int, fs0: nat, decay: nat): (c: Code)
    requires Params(fs0, decay)
  {
    if v == 0 then Code(0, 0, fs0)
    else
      var m, negative, h := Abs(v), v < 0, TailStart(fs0, decay);
      if m < h then
        var size := Fs(m, fs0, decay) + 1;
        var fl := Fl(m, fs0, decay) + if negative then 0 else size;
        Code(v, fl, fl + size)
      else
        var di := Min(m - h, TailCount(negative, fs0, decay) - 1);
        var fl := Fl(h, fs0, decay) + 2 * di + if negative then 0 else 1;
        Code(Sign(negative, h + di), fl, fl + Min(1, TOTAL - fl))
  }

  /** The pair of intervals a cumulative frequency falls into: magnitude m or the start of the tail. */
  function Seek(m: nat, fm: nat, fs0: nat, decay: nat): (k: nat)
    requires Params(fs0, decay) && m >= 1
    ensures k >= m
    decreases Fs(m, fs0, decay)
  {
    FsFalls(m, fs0, decay);
    if Fs(m, fs0, decay) > 0 && fm >= Fl(m + 1, fs0, decay) then Seek(m + 1, fm, fs0, decay) else m
  }

  /** What the decoder makes of a cumulative frequency. */
  function DecodeOf(fm: nat, fs0: nat, decay: nat): (c: Code)
    requires Params(fs0, decay) && fm < TOTAL
  {
    if fm < fs0 then Code(0, 0, fs0)
    else
      var k := Seek(1, fm, fs0, decay);
      var fs := Fs(k, fs0, decay) + 1;
      var di := if fs == 1 && fm >= Fl(k, fs0, decay) then (fm - Fl(k, fs0, decay)) / 2 else 0;
      var fl := Fl(k, fs0, decay) + 2 * di;
      if fm < fl + fs then Code(-(k + di), fl, Min(fl + fs, TOTAL))
      else Code(k + di, fl + fs, Min(fl + 2 * fs, TOTAL))
  }

  // ---------------------------------------------------------------- the code is a tiling

  /** A coded interval is non-empty and inside the total; clamping is idempotent and keeps sign and order. */
  lemma CodeFits(v: int, fs0: nat, decay: nat)
    requires Params(fs0, decay)
    ensures var c := CodeOf(v, fs0, decay);
            && 0 <= c.fl < c.fh <= TOTAL && CodeOf(c.value, fs0, decay) == c
            && (c.value < 0 <==> v < 0) && Abs(c.value) <= Abs(v)
  {
    hide Fs, Fl;
    TailNeverShort(fs0, decay);
    var m, h := Abs(v), TailStart(fs0, decay);
    if v != 0 && m < h {
      FlGrows(m + 1, h, fs0, decay);
      FlNext(m, fs0, decay);
    }
    FlGrows(1, h, fs0, decay);
    FlFirst(fs0, decay);
  }

  /** The decoder's search stops at the pair a frequency lies in. */
  lemma {:induction false} SeekFinds(m: nat, k: nat, fm: nat, fs0: nat, decay: nat)
    requires Params(fs0, decay) && 1 <= m <= k <= TailStart(fs0, decay) && Fl(k, fs0, decay) <= fm
    requires k < TailStart(fs0, decay) ==> fm < Fl(k + 1, fs0, decay)
    ensures Seek(m, fm, fs0, decay) == k
    decreases k - m
  {
    if m < k {
      FlGrows(m + 1, k, fs0, decay);
      SeekFinds(m + 1, k, fm, fs0, decay);
    }
  }

  /** Every point of a value's interval decodes to that value and that interval. */
  lemma CodeThenDecode(v: int, fm: nat, fs0: nat, decay: nat)
    requires Params(fs0, decay)
    requires CodeOf(v, fs0, decay).fl <= fm < CodeOf(v, fs0, decay).fh
    ensures fm < TOTAL && DecodeOf(fm, fs0, decay) == CodeOf(v, fs0, decay)
  {
    hide Fs, Fl, Seek, TailStart;
    TailNeverShort(fs0, decay);
    CodeFits(v, fs0, decay);
    var m, h := Abs(v), TailStart(fs0, decay);
    if v != 0 {
      FlFirst(fs0, decay);
      if m < h {
        FlNext(m, fs0, decay);
        FlGrows(1, m, fs0, decay);
        SeekFinds(1, m, fm, fs0, decay);
      } else {
        FlGrows(1, h, fs0, decay);
        SeekFinds(1, h, fm, fs0, decay);
      }
    }
  }

  /** The search always ends in a pair that holds the frequency. */
  lemma {:induction false} SeekHolds(m: nat, fm: nat, fs0: nat, decay: nat)
    requires Params(fs0, decay) && 1 <= m <= TailStart(fs0, decay) && Fl(m, fs0, decay) <= fm
    ensures var k := Seek(m, fm, fs0, decay);
            && k <= TailStart(fs0, decay) && Fl(k, fs0, decay) <= fm
            && (k < TailStart(fs0, decay) ==> fm < Fl(k + 1, fs0, decay))
    decreases Fs(m, fs0, decay)
  {
    FsFalls(m, fs0, decay);
    if Fs(m, fs0, decay) > 0 && fm >= Fl(m + 1, fs0, decay) {
      SeekHolds(m + 1, fm, fs0, decay);
    }
  }

  /** Every frequency lies in the interval of the value it decodes to: no gap and no overlap. */
  lemma DecodeThenCode(fm: nat, fs0: nat, decay: nat)
    requires Params(fs0, decay) && fm < TOTAL
    ensures var c := DecodeOf(fm, fs0, decay);
            0 <= c.fl <= fm < c.fh && CodeOf(c.value, fs0, decay) == c
  {
    hide Fs, Fl, Seek;
    TailNeverShort(fs0, decay);
    var h := TailStart(fs0, decay);
    if fm >= fs0 {
      FlFirst(fs0, decay);
      SeekHolds(1, fm, fs0, decay);
      var k := Seek(1, fm, fs0, decay);
      FlNext(k, fs0, decay);
      if k < h {
        FlGrows(k + 1, h, fs0, decay);
      }
    }
  }

  // ---------------------------------------------------------------- through the coder

  function Call(c: Code): (op: Op)
    requires 0 <= c.fl < c.fh <= TOTAL
  {
    Freq(c.fl, c.fh, TOTAL)
  }

  function CallOf(v: int, fs0: nat, decay: nat): (op: Op)
    requires Params(fs0, decay)
  {
    CodeFits(v, fs0, decay);
    Call(CodeOf(v, fs0, decay))
  }

  /** The encoder's walk over the decaying part: up to the value's magnitude or the tail. */
  method Walk(val: nat, fs0: nat, decay: nat) returns (i: nat, fl: nat, fs: nat)
    requires Params(fs0, decay) && val >= 1
    ensures i == Min(val, TailStart(fs0, decay)) && fl == Fl(i, fs0, decay) && fs == Fs(i, fs0, decay)
  {
    fl, fs, i := fs0, Freq1(fs0, decay), 1;
    while fs > 0 && i < val
      invariant 1 <= i <= val && i <= TailStart(fs0, decay)
      invariant fl == Fl(i, fs0, decay) && fs == Fs(i, fs0, decay)
      decreases val - i
    {
      fs := fs * 2;
      fl := fl + fs + 2;
      NonNegative(fs, decay);
      fs := fs * decay / 0x8000;
      i := i + 1;
    }
  }

  /** The interval ec_laplace_encode() computes, and the value it stores back. */
  method Choose(value: int, fs0: nat, decay: nat) returns (stored: int, fl: int, fs: int)
    requires Params(fs0, decay)
    ensures CodeOf(value, fs0, decay) == Code(stored, fl, fl + fs)
  {
    hide Fl, Fs;
    fl, fs := 0, fs0;
    stored := value;
    if value != 0 {
      var negative, val := value < 0, Abs(value);
      var i;
      i, fl, fs := Walk(val, fs0, decay);
      if fs == 0 {
        var ndiMax := TOTAL - fl;
        ndiMax := (ndiMax + if negative then 1 else 0) / 2;
        var di := Min(val - i, ndiMax - 1);
        fl := fl + (2 * di + if negative then 0 else 1);
        fs := Min(1, TOTAL - fl);
        stored := Sign(negative, i + di);
      } else {
        fs := fs + 1;
        if !negative {
          fl := fl + fs;
        }
      }
    }
  }

  /** ec_laplace_encode(): codes the value, or the nearest one the tail can hold, and reports which. */
  method Encode(enc: Enc.Encoder, value: int, fs0: nat, decay: nat) returns (stored: int)
    requires enc.Valid() && Params(fs0, decay)
    modifies enc, enc.buf
    ensures stored == CodeOf(value, fs0, decay).value
    ensures enc.Valid() && enc.ops == old(enc.ops) + [CallOf(value, fs0, decay)] && enc.storage == old(enc.storage)
  {
    hide Run, Enc.Encoder.Valid, CodeOf;
    var fl, fs;
    stored, fl, fs := Choose(value, fs0, decay);
    CodeFits(value, fs0, decay);
    Pow2Constants();
    enc.EncodeBin(fl, fl + fs, 15);
  }

  /** The decoder's search, which carries the minimum probability inside fs. */
  method Search(fm: nat, fs0: nat, decay: nat) returns (val: nat, fl: nat, fs: nat)
    requires Params(fs0, decay) && fs0 <= fm < TOTAL
    ensures val == Seek(1, fm, fs0, decay) && fl == Fl(val, fs0, decay) <= fm && fs == Fs(val, fs0, decay) + 1
  {
    val, fl, fs := 1, fs0, Freq1(fs0, decay) + 1;
    while fs > 1 && fm >= fl + 2 * fs
      invariant 1 <= val && Seek(1, fm, fs0, decay) == Seek(val, fm, fs0, decay)
      invariant fl == Fl(val, fs0, decay) <= fm && fs == Fs(val, fs0, decay) + 1
      decreases fs
    {
      FsFalls(val, fs0, decay);
      fs := fs * 2;
      fl := fl + fs;
      NonNegative(fs - 2, decay);
      fs := (fs - 2) * decay / 0x8000;
      fs := fs + 1;
      val := val + 1;
    }
  }

  /** The value and interval ec_laplace_decode() finds for a cumulative frequency. */
  method Recognise(fm: nat, fs0: nat, decay: nat) returns (value: int, fl: nat, fs: nat)
    requires Params(fs0, decay) && fm < TOTAL
    ensures DecodeOf(fm, fs0, decay) == Code(value, fl, Min(fl + fs, TOTAL))
  {
    hide Fl, Fs, Seek;
    fl, fs := 0, fs0;
    value := 0;
    if fm >= fs0 {
      var val: nat;
      val, fl, fs := Search(fm, fs0, decay);
      if fs <= 1 {
        var di := (fm - fl) / 2;
        val := val + di;
        fl := fl + 2 * di;
      }
      value := val;
      if fm < fl + fs {
        value := -value;
      } else {
        fl := fl + fs;
      }
    }
  }

  /** ec_laplace_decode() */
  method Decode(dec: Dec.Decoder, fs0: nat, decay: nat) returns (value: int)
    requires dec.Valid() && Params(fs0, decay)
    modifies dec
    ensures value == CodeOf(value, fs0, decay).value
    ensures dec.Valid() && dec.ops == old(dec.ops) + [CallOf(value, fs0, decay)] && dec.error == old(dec.error)
  {
    hide Run, Points, CodeOf, DecodeOf;
    Pow2Constants();
    var fm := dec.DecodeBin(15);
    PointsBelow(dec.rng, dec.val, fm, TOTAL);
    var fl, fs;
    value, fl, fs := Recognise(fm, fs0, decay);
    DecodeThenCode(fm, fs0, decay);
    CodeFits(value, fs0, decay);
    dec.Update(fl, Min(fl + fs, TOTAL), TOTAL, fm);
  }

  /** Any two codes are equal or disjoint, so they form one probability model. */
  lemma CodesSeparate(v: int, w: int, fs0: nat, decay: nat)
    requires Params(fs0, decay)
    ensures SameModel(CallOf(v, fs0, decay), CallOf(w, fs0, decay))
    ensures CallOf(v, fs0, decay) == CallOf(w, fs0, decay) ==> CodeOf(v, fs0, decay) == CodeOf(w, fs0, decay)
  {
    hide CodeOf, DecodeOf;
    CodeFits(v, fs0, decay);
    CodeFits(w, fs0, decay);
    var c, d := CodeOf(v, fs0, decay), CodeOf(w, fs0, decay);
    if c.fl < d.fh && d.fl < c.fh {
      var fm := if c.fl < d.fl then d.fl else c.fl;
      CodeThenDecode(v, fm, fs0, decay);
      CodeThenDecode(w, fm, fs0, decay);
    }
  }

  /** In sync, the decoder returns exactly the value the encoder stored back. */
  lemma RoundTrips(pre: seq<Op>, v: int, w: int, post: seq<Op>, p: seq<byte>, fs0: nat, decay: nat)
    requires Params(fs0, decay) && w == CodeOf(w, fs0, decay).value
    requires Holds(Run(pre + [CallOf(v, fs0, decay)] + post), p) && Holds(Run(pre + [CallOf(w, fs0, decay)]), p)
    ensures w == CodeOf(v, fs0, decay).value
  {
    hide Run, Holds, CodeOf, CallOf;
    CodesSeparate(v, w, fs0, decay);
    RoundTrip.FollowAll(pre, [CallOf(v, fs0, decay)], [CallOf(w, fs0, decay)], post, p);
  }

  /** The order of the intervals: by magnitude, and the negative sign first. */
  predicate Before(v: int, w: int) {
    Abs(v) < Abs(w) || (v < 0 < w && Abs(v) == Abs(w))
  }

  lemma CodeOrder(v: int, w: int, fs0: nat, decay: nat)
    requires Params(fs0, decay) && Before(v, w)
    requires CodeOf(v, fs0, decay).value == v && CodeOf(w, fs0, decay).value == w
    ensures CodeOf(v, fs0, decay).fh <= CodeOf(w, fs0, decay).fl
  {
    hide Fs, Fl, TailStart;
    var m, n, h := Abs(v), Abs(w), TailStart(fs0, decay);
    FlFirst(fs0, decay);
    FlGrows(1, Min(n, h), fs0, decay);
    if 0 < m < h {
      FlNext(m, fs0, decay);
      if m < n {
        FlGrows(m + 1, Min(n, h), fs0, decay);
      }
    }
  }

  /** Both signs of a magnitude are equally likely, and in the tail a value has one unit. */
  lemma SignsAlike(v: int, fs0: nat, decay: nat)
    requires Params(fs0, decay) && CodeOf(v, fs0, decay).value == v && CodeOf(-v, fs0, decay).value == -v
    ensures var c, d := CodeOf(v, fs0, decay), CodeOf(-v, fs0, decay);
            c.fh - c.fl == d.fh - d.fl && (Abs(v) >= TailStart(fs0, decay) ==> c.fh - c.fl == 1)
  {
    hide Fs, Fl, TailStart;
    CodeFits(v, fs0, decay);
    CodeFits(-v, fs0, decay);
  }

  /** Only values past the last tail unit of their sign are clamped. */
  lemma ClampedExactly(v: int, fs0: nat, decay: nat)
    requires Params(fs0, decay)
    ensures CodeOf(v, fs0, decay).value == v <==> Abs(v) < TailStart(fs0, decay) + TailCount(v < 0, fs0, decay)
  {
  }

  /** The values of each sign that are coded without clamping: the guaranteed 16, whatever the parameters. */
  lemma GuaranteedDeltas(v: int, fs0: nat, decay: nat)
    requires Params(fs0, decay) && Abs(v) <= NMIN
    ensures CodeOf(v, fs0, decay).value == v
  {
    hide TailStart, CodeOf;
    UnitsPerMagnitude(fs0, decay);
    ClampedExactly(v, fs0, decay);
  }
}
