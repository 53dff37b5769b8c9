/**
 * Whole runs: any sequence of values, each under a probability model that may depend on all values before
 * it, comes back from the packet exactly.
 */
module RoundTrip {
  import opened Arith
  import opened RangeModel
  import opened Window
  import Enc = EntEnc
  import Dec = EntDec
  import Flush

  /** The probability models the coder offers. */
  datatype Model =
    | Table(cum: seq<nat>)
    | TableBin(cum: seq<nat>, bits: nat)
    | Logp(logp: nat)
    | Inverse(icdf: seq<nat>, ftb: nat)
    | Uniform(ft: nat)
    | Field(k: nat)

  /** Cumulative frequencies from 0 to the total, every symbol with a non-empty interval. */
  predicate Cumulative(cum: seq<nat>) {
    && |cum| >= 2 && cum[0] == 0 && cum[|cum| - 1] <= CODE_BOT
    && forall i, j :: 0 <= i < j < |cum| ==> cum[i] < cum[j]
  }

  predicate Usable(m: Model) {
    match m
    case Table(cum) => Cumulative(cum)
    case TableBin(cum, bits) => Cumulative(cum) && bits <= 23 && cum[|cum| - 1] == Pow2(bits)
    case Logp(logp) => 1 <= logp <= 23
    case Inverse(icdf, ftb) => IcdfTable(icdf, ftb)
    case Uniform(ft) => 1 < ft < 0x1_0000_0000
    case Field(k) => 1 <= k <= 25
  }

  predicate Codes(m: Model, v: nat) {
    && Usable(m)
    && match m
       case Table(cum) => v + 1 < |cum|
       case TableBin(cum, _) => v + 1 < |cum|
       case Logp(_) => v < 2
       case Inverse(icdf, ftb) => IcdfCodes(icdf, v, ftb)
       case Uniform(ft) => v < ft
       case Field(k) => v < Pow2(k)
  }

  function Interval(cum: seq<nat>, v: nat): (op: Op)
    requires Cumulative(cum) && v + 1 < |cum|
  {
    Freq(cum[v], cum[v + 1], cum[|cum| - 1])
  }

  function Calls(m: Model, v: nat): (ops: seq<Op>)
    requires Codes(m, v)
  {
    match m
    case Table(cum) => [Interval(cum, v)]
    case TableBin(cum, _) => [Interval(cum, v)]
    case Logp(logp) => [BitOp(v == 1, logp)]
    case Inverse(icdf, ftb) => [IcdfOp(v, icdf, ftb)]
    case Uniform(ft) => UintOps(v, ft)
    case Field(k) => [Bits(v, k)]
  }

  // ---------------------------------------------------------------- one value

  method EncodeValue(enc: Enc.Encoder, m: Model, v: nat)
    requires enc.Valid() && Codes(m, v)
    modifies enc, enc.buf
    ensures enc.Valid() && enc.ops == old(enc.ops) + Calls(m, v) && enc.storage == old(enc.storage)
  {
    hide Run, UintOps;
    match m
    case Table(cum) => enc.Encode(cum[v], cum[v + 1], cum[|cum| - 1]);
    case TableBin(cum, bits) => enc.EncodeBin(cum[v], cum[v + 1], bits);
    case Logp(logp) => enc.BitLogp(v == 1, logp);
    case Inverse(icdf, ftb) => enc.Icdf(v, icdf, ftb);
    case Uniform(ft) => enc.Uint(v, ft);
    case Field(k) => enc.RawBits(v, k);
  }

  /** The symbol whose interval holds a decoded frequency. */
  method Find(cum: seq<nat>, fs: nat) returns (v: nat)
    requires Cumulative(cum) && fs < cum[|cum| - 1]
    ensures v + 1 < |cum| && cum[v] <= fs < cum[v + 1]
  {
    v := 0;
    while cum[v + 1] <= fs
      invariant v + 1 < |cum| && cum[v] <= fs
      decreases |cum| - v
    {
      v := v + 1;
    }
  }

  /** The caller's half of ec_decode(): find the symbol, then ec_dec_update(). */
  method FinishTable(dec: Dec.Decoder, cum: seq<nat>, fs: nat) returns (v: nat)
    requires dec.Valid() && Cumulative(cum)
    requires dec.ext == dec.rng / cum[|cum| - 1] && Points(dec.rng, dec.val, fs, cum[|cum| - 1])
    modifies dec
    ensures dec.Valid() && v + 1 < |cum|
    ensures dec.ops == old(dec.ops) + [Interval(cum, v)] && dec.error == old(dec.error)
  {
    hide Run, Points;
    PointsBelow(dec.rng, dec.val, fs, cum[|cum| - 1]);
    v := Find(cum, fs);
    dec.Update(cum[v], cum[v + 1], cum[|cum| - 1], fs);
  }

  /** Whatever the bytes, the result is in the model's alphabet. */
  method DecodeValue(dec: Dec.Decoder, m: Model) returns (v: nat)
    requires dec.Valid() && Usable(m)
    modifies dec
    ensures dec.Valid() && Codes(m, v)
    ensures || (dec.ops == old(dec.ops) + Calls(m, v) && dec.error == old(dec.error))
            || (m.Uniform? && dec.error == 1 && Dec.CorruptUint(old(dec.ops), dec.ops, m.ft))
  {
    hide Run, UintOps, Points, Dec.CorruptUint, IcdfOp, BitOp;
    match m
    case Table(cum) =>
      var fs := dec.Decode(cum[|cum| - 1]);
      v := FinishTable(dec, cum, fs);
    case TableBin(cum, bits) =>
      var fs := dec.DecodeBin(bits);
      v := FinishTable(dec, cum, fs);
    case Logp(logp) =>
      var bit := dec.BitLogp(logp);
      v := if bit then 1 else 0;
    case Inverse(icdf, ftb) => v := dec.Icdf(icdf, ftb);
    case Uniform(ft) => v := dec.Uint(ft);
    case Field(k) => v := dec.RawBits(k);
  }

  // ---------------------------------------------------------------- what the packet pins down

  /** A decoder's state says its packet carries everything it has decoded. */
  lemma DecoderHolds(dec: Dec.Decoder)
    requires dec.Valid()
    ensures Holds(Run(dec.ops), dec.packet)
  {
  }

  /** After the same calls both sides are in lockstep: ec_tell() and ec_tell_frac() agree. */
  lemma Lockstep(enc: Enc.Encoder, dec: Dec.Decoder)
    requires enc.Valid() && dec.Valid() && enc.ops == dec.ops
    ensures enc.rng == dec.rng && enc.nbitsTotal == dec.nbitsTotal
    ensures enc.nbitsTotal - ILog(enc.rng) == Run(enc.ops).Tell() == dec.nbitsTotal - ILog(dec.rng)
  {
  }

  predicate SameModels(a: seq<Op>, b: seq<Op>) {
    |a| == |b| && forall i :: 0 <= i < |a| ==> SameModel(a[i], b[i])
  }

  /** What is decoded under the encoder's models is what was encoded, call by call. */
  lemma {:induction false} FollowAll(pre: seq<Op>, a: seq<Op>, b: seq<Op>, post: seq<Op>, p: seq<byte>)
    requires SameModels(a, b)
    requires Holds(Run(pre + a + post), p) && Holds(Run(pre + b), p)
    ensures a == b
  {
    hide Run, Holds;
    if a != [] {
      var n := |a| - 1;
      var b' := b[..n];
      assert pre + b == (pre + b') + [b[n]];
      assert (pre + b)[..|pre| + n] == pre + b';
      PrefixHolds(pre + b, |pre| + n, p);
      assert pre + a[..n] + ([a[n]] + post) == pre + a + post;
      FollowAll(pre, a[..n], b', [a[n]] + post, p);
      var ops := pre + a + post;
      assert ops[..|pre| + n] == pre + b' && ops[|pre| + n] == a[n];
      Follow(ops, |pre| + n, b[n], p);
    }
  }

  lemma CallsSameModel(m: Model, v: nat, w: nat)
    requires Codes(m, v) && Codes(m, w)
    ensures SameModels(Calls(m, v), Calls(m, w))
  {
    match m
    case Inverse(icdf, ftb) => IcdfSameModel(icdf, ftb, v, w);
    case _ =>
  }

  lemma IcdfSameModel(icdf: seq<nat>, ftb: nat, v: nat, w: nat)
    requires IcdfTable(icdf, ftb) && IcdfCodes(icdf, v, ftb) && IcdfCodes(icdf, w, ftb)
    ensures SameModel(IcdfOp(v, icdf, ftb), IcdfOp(w, icdf, ftb))
    ensures v != w ==> IcdfOp(v, icdf, ftb) != IcdfOp(w, icdf, ftb)
  {
  }

  lemma CallsInjective(m: Model, v: nat, w: nat)
    requires Codes(m, v) && Codes(m, w) && Calls(m, v) == Calls(m, w)
    ensures v == w
  {
    match m
    case Inverse(icdf, ftb) => IcdfSameModel(icdf, ftb, v, w);
    case Uniform(ft) => UintOpsInjective(v, w, ft);
    case Table(cum) => IntervalInjective(cum, v, w);
    case TableBin(cum, _) => IntervalInjective(cum, v, w);
    case _ =>
  }

  lemma IntervalInjective(cum: seq<nat>, v: nat, w: nat)
    requires Cumulative(cum) && v + 1 < |cum| && w + 1 < |cum|
    ensures v != w ==> Interval(cum, v) != Interval(cum, w)
  {
  }

  lemma UintOpsInjective(v: nat, w: nat, ft: nat)
    requires 1 < ft < 0x1_0000_0000 && v < ft && w < ft && UintOps(v, ft) == UintOps(w, ft)
    ensures v == w
  {
    if ILog(ft - 1) > 8 {
      var d := Pow2(ILog(ft - 1) - 8);
      assert UintOps(v, ft)[0].fl == v / d && UintOps(w, ft)[0].fl == w / d;
      assert UintOps(v, ft)[1].v == v % d && UintOps(w, ft)[1].v == w % d;
      DivMod(v, d);
      DivMod(w, d);
    } else {
      UintSmall(v, ft);
      UintSmall(w, ft);
    }
  }

  /** A value decoded under the encoder's model at the encoder's place is the encoder's value. */
  lemma FollowValue(pre: seq<Op>, m: Model, v: nat, w: nat, post: seq<Op>, p: seq<byte>)
    requires Codes(m, v) && Codes(m, w)
    requires Holds(Run(pre + Calls(m, v) + post), p) && Holds(Run(pre + Calls(m, w)), p)
    ensures v == w
  {
    hide Run, Holds, Calls;
    CallsSameModel(m, v, w);
    FollowAll(pre, Calls(m, v), Calls(m, w), post, p);
    CallsInjective(m, v, w);
  }

  /** A packet that carries an encoder's value never makes ec_dec_uint() report corruption. */
  lemma NeverCorrupt(pre: seq<Op>, v: nat, ft: nat, post: seq<Op>, ops: seq<Op>, p: seq<byte>)
    requires 1 < ft < 0x1_0000_0000 && v < ft
    requires Holds(Run(pre + UintOps(v, ft) + post), p) && Holds(Run(ops), p)
    ensures !Dec.CorruptUint(pre, ops, ft)
  {
    if Dec.CorruptUint(pre, ops, ft) {
      var high: nat, low: nat :| UintParts(high, low, ft) && ft <= UintJoin(high, low, ft)
                                 && ops == pre + [UintHigh(high, ft), Bits(low, ILog(ft - 1) - 8)];
      CorruptDiffers(pre, v, ft, high, low, post, p);
    }
  }

  lemma CorruptDiffers(pre: seq<Op>, v: nat, ft: nat, high: nat, low: nat, post: seq<Op>, p: seq<byte>)
    requires 1 < ft < 0x1_0000_0000 && v < ft && UintParts(high, low, ft)
    requires Holds(Run(pre + UintOps(v, ft) + post), p)
    requires Holds(Run(pre + [UintHigh(high, ft), Bits(low, ILog(ft - 1) - 8)]), p)
    ensures UintJoin(high, low, ft) == v
  {
    hide Run, Holds, Pow2, ILog;
    var d := Pow2(ILog(ft - 1) - 8);
    var b := [UintHigh(high, ft), Bits(low, ILog(ft - 1) - 8)];
    FollowAll(pre, UintOps(v, ft), b, post, p);
    assert UintOps(v, ft)[0].fl == v / d && UintOps(v, ft)[1].v == v % d;
    DivMod(v, d);
  }

  // ---------------------------------------------------------------- whole runs

  /**
   * How a stream's models are chosen: by the values before, and by the two counters both sides keep, which is
   * all that ec_tell() and ec_tell_frac() look at.
   */
  type Chooser = (seq<nat>, int, nat) -> Model

  /** The model of the value that follows `before`, in a section that starts after the calls `pre`. */
  function ModelAt(pre: seq<Op>, next: Chooser, before: seq<nat>): (m: Model)
    decreases |before|, 1
  {
    var s := Run(Trace(pre, next, before));
    next(before, s.NbitsTotal(), s.rng)
  }

  /** `pre` and the coder calls of a section of values; a value its model cannot code has none. */
  function Trace(pre: seq<Op>, next: Chooser, values: seq<nat>): (s: seq<Op>)
    decreases |values|, 0
  {
    if values == [] then pre
    else
      var n := |values| - 1;
      var m := ModelAt(pre, next, values[..n]);
      Trace(pre, next, values[..n]) + if Codes(m, values[n]) then Calls(m, values[n]) else []
  }

  /** Every value is codable under its model. */
  predicate Follows(pre: seq<Op>, next: Chooser, values: seq<nat>) {
    forall i :: 0 <= i < |values| ==> Codes(ModelAt(pre, next, values[..i]), values[i])
  }

  lemma TraceStep(pre: seq<Op>, next: Chooser, values: seq<nat>, n: nat)
    requires n < |values| && Follows(pre, next, values)
    ensures Codes(ModelAt(pre, next, values[..n]), values[n])
    ensures Trace(pre, next, values[..n + 1])
         == Trace(pre, next, values[..n]) + Calls(ModelAt(pre, next, values[..n]), values[n])
  {
    hide ModelAt;
    assert values[..n + 1][..n] == values[..n];
  }

  lemma {:induction false} TracePrefix(pre: seq<Op>, next: Chooser, values: seq<nat>, n: nat)
    requires n <= |values|
    ensures Trace(pre, next, values[..n]) <= Trace(pre, next, values)
    decreases |values| - n
  {
    hide ModelAt, Codes, Calls;
    if n == |values| {
      assert values[..n] == values;
    } else {
      TracePrefix(pre, next, values, n + 1);
      assert values[..n + 1][..n] == values[..n];
    }
  }

  /** A section of values, after whatever was coded before. */
  method EncodeAll(enc: Enc.Encoder, next: Chooser, values: seq<nat>)
    requires enc.Valid() && Follows(enc.ops, next, values)
    modifies enc, enc.buf
    ensures enc.Valid() && enc.ops == Trace(old(enc.ops), next, values) && enc.storage == old(enc.storage)
  {
    hide Codes, Calls, Run, Follows, ModelAt, Trace, Enc.Encoder.Valid;
    ghost var pre := enc.ops;
    EmptyTrace(pre, next);
    assert values[..0] == [];
    var i := 0;
    while i < |values|
      invariant i <= |values| && enc.Valid()
      invariant enc.ops == Trace(pre, next, values[..i]) && enc.storage == old(enc.storage)
    {
      TraceStep(pre, next, values, i);
      EncoderModel(enc, pre, next, values[..i]);
      EncodeValue(enc, next(values[..i], enc.nbitsTotal, enc.rng), values[i]);
      i := i + 1;
    }
    assert values[..|values|] == values;
  }

  /** The encoder's counters select the model of its run. */
  lemma EncoderModel(enc: Enc.Encoder, pre: seq<Op>, next: Chooser, before: seq<nat>)
    requires enc.Valid() && enc.ops == Trace(pre, next, before)
    ensures next(before, enc.nbitsTotal, enc.rng) == ModelAt(pre, next, before)
  {
    hide Run, Trace;
  }

  /** What a decoder that is in sync reads: the encoder's next value, under the encoder's next model. */
  lemma NextInSync(pre: seq<Op>, m: Model, v: nat, w: nat, ops: seq<Op>, post: seq<Op>, error: int, error': int,
                   p: seq<byte>)
    requires Codes(m, v) && Codes(m, w) && Holds(Run(pre + Calls(m, v) + post), p) && Holds(Run(ops), p)
    requires || (ops == pre + Calls(m, w) && error' == error)
             || (m.Uniform? && error' == 1 && Dec.CorruptUint(pre, ops, m.ft))
    ensures w == v && ops == pre + Calls(m, v) && error' == error
  {
    hide Run, Holds, Calls, Dec.CorruptUint;
    if m.Uniform? {
      CallsUniform(m, v);
      NeverCorrupt(pre, v, m.ft, post, ops, p);
    }
    FollowValue(pre, m, v, w, post, p);
  }

  lemma CallsUniform(m: Model, v: nat)
    requires Codes(m, v) && m.Uniform?
    ensures Calls(m, v) == UintOps(v, m.ft)
  {
  }

  /** The packet carries a run that goes on with these values. */
  ghost predicate Carries(pre: seq<Op>, next: Chooser, values: seq<nat>, p: seq<byte>) {
    Follows(pre, next, values) && Holds(Run(Trace(pre, next, values)), p)
  }

  /** Whatever was decoded, a model can be used. */
  ghost predicate AlwaysUsable(next: Chooser) {
    forall before: seq<nat>, nbits: int, rng: nat :: Usable(next(before, nbits, rng))
  }

  /**
   * The decoder is told only how many values there are and how models are chosen. On any packet it returns that
   * many values; on one whose run goes on with values of this section, those values.
   */
  method DecodeAll(dec: Dec.Decoder, next: Chooser, n: nat, ghost values: seq<nat>) returns (out: seq<nat>)
    requires dec.Valid() && |values| == n
    requires AlwaysUsable(next) || Carries(dec.ops, next, values, dec.packet)
    modifies dec
    ensures dec.Valid() && |out| == n
    ensures Carries(old(dec.ops), next, values, dec.packet) ==>
              out == values && dec.ops == Trace(old(dec.ops), next, values) && dec.error == old(dec.error)
  {
    hide Run, Holds, Calls, Codes, Usable, Carries, Dec.CorruptUint, ModelAt, Trace;
    out := [];
    ghost var start := dec.ops;
    assert values[..0] == [] && Trace(start, next, []) == start by {
      EmptyTrace(start, next);
    }
    ghost var synced := Carries(start, next, values, dec.packet);
    while |out| < n
      invariant |out| <= n && dec.Valid()
      invariant synced ==> out == values[..|out|] && dec.ops == Trace(start, next, out) && dec.error == old(dec.error)
    {
      ghost var error := dec.error;
      if synced {
        DecoderModel(dec, start, next, values, |out|);
      }
      var m := next(out, dec.nbitsTotal, dec.rng);
      var w := DecodeValue(dec, m);
      if synced {
        DecoderHolds(dec);
        FollowStep(start, next, values, |out|, m, w, dec.ops, error, dec.error, dec.packet);
      }
      out := out + [w];
      assert synced ==> out == values[..|out|];
    }
  }

  lemma EmptyTrace(pre: seq<Op>, next: Chooser)
    ensures Trace(pre, next, []) == pre
  {
  }

  /** In sync the decoder's counters select the encoder's model. */
  lemma DecoderModel(dec: Dec.Decoder, pre: seq<Op>, next: Chooser, values: seq<nat>, n: nat)
    requires dec.Valid() && n < |values| && Carries(pre, next, values, dec.packet)
    requires dec.ops == Trace(pre, next, values[..n])
    ensures next(values[..n], dec.nbitsTotal, dec.rng) == ModelAt(pre, next, values[..n])
    ensures Usable(ModelAt(pre, next, values[..n]))
  {
    hide Run, Holds, Trace;
    ModelCodes(pre, next, values, n);
  }

  lemma ModelCodes(pre: seq<Op>, next: Chooser, values: seq<nat>, n: nat)
    requires n < |values| && Follows(pre, next, values)
    ensures Codes(ModelAt(pre, next, values[..n]), values[n]) && Usable(ModelAt(pre, next, values[..n]))
  {
    hide ModelAt;
  }

  lemma FollowStep(pre: seq<Op>, next: Chooser, values: seq<nat>, n: nat, m: Model, w: nat, ops: seq<Op>,
                   error: int, error': int, p: seq<byte>)
    requires n < |values| && Carries(pre, next, values, p) && m == ModelAt(pre, next, values[..n]) && Codes(m, w)
    requires Holds(Run(ops), p)
    requires || (ops == Trace(pre, next, values[..n]) + Calls(m, w) && error' == error)
             || (m.Uniform? && error' == 1 && Dec.CorruptUint(Trace(pre, next, values[..n]), ops, m.ft))
    ensures w == values[n] && ops == Trace(pre, next, values[..n + 1]) && error' == error
  {
    hide Run, Holds, Calls, Codes, ModelAt, Dec.CorruptUint;
    TraceStep(pre, next, values, n);
    TracePrefix(pre, next, values, n + 1);
    var all := Trace(pre, next, values);
    var post := all[|Trace(pre, next, values[..n + 1])|..];
    assert Trace(pre, next, values[..n]) + Calls(m, values[n]) + post == all;
    NextInSync(Trace(pre, next, values[..n]), m, values[n], w, ops, post, error, error', p);
  }

  /**
   * The main theorem. Encoding into a packet of `size` bytes succeeds exactly when the flushed bits fit, and then
   * decoding returns the values encoded.
   */
  method EncodeDecode(next: Chooser, values: seq<nat>, size: nat) returns (ok: bool, out: seq<nat>)
    requires Follows([], next, values)
    ensures ok <==> Flush.FlushedBits(Run(Trace([], next, values))) <= 8 * size
    ensures ok ==> out == values
  {
    hide Run, Holds, Trace, Follows, Enc.Encoder.Valid, Dec.Decoder.Valid, Flush.FlushedBits;
    var buf := new byte[size];
    var enc := new Enc.Encoder(buf, size);
    EncodeAll(enc, next, values);
    enc.Done();
    ok, out := enc.error == 0, [];
    if ok {
      var dec := new Dec.Decoder(buf, size);
      out := DecodeAll(dec, next, |values|, values);
    }
  }

  /** The bit budget: what ec_tell() says fits does fit, and what fits is at most one bit above what it says. */
  lemma TellDecides(next: Chooser, values: seq<nat>, size: nat)
    ensures var s := Run(Trace([], next, values));
            && (s.Tell() <= 8 * size ==> Flush.FlushedBits(s) <= 8 * size)
            && (Flush.FlushedBits(s) <= 8 * size ==> s.Tell() <= 8 * size + 1)
  {
    hide Trace;
    Flush.TellCoversFlush(Run(Trace([], next, values)));
  }
}
