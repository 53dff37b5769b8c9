/**
 * The ideal range coder of section 5.1 of RFC 6716: an unbounded low end, a range, and an
 * unbounded integer of raw bits. Both real coders are proved against it.
 */
module RangeModel {
  import opened Arith

  const CODE_TOP: nat := 0x8000_0000
  const CODE_BOT: nat := 0x80_0000

  /** One entropy-coder call: a cumulative-frequency interval, or k raw bits. */
  datatype RawOp = Freq(fl: nat, fh: nat, ft: nat) | Bits(v: nat, k: nat)

  predicate Codable(op: RawOp) {
    match op
    case Freq(fl, fh, ft) => fl < fh <= ft <= CODE_BOT
    case Bits(v, k) => 1 <= k <= 25 && v < Pow2(k)
  }

  type Op = op: RawOp | Codable(op) witness Freq(0, 1, 1)

  /** ec_tell(), from the two counters both sides keep. */
  function EcTell(nbitsTotal: int, rng: nat): (t: int) {
    nbitsTotal - ILog(rng)
  }

  /**
   * n renormalisations so far, the interval [low, low + rng) scaled by 256^n, and the raw bits
   * written so far as one little-endian integer of `bits` bits.
   */
  datatype State = State(n: nat, low: nat, rng: nat, bits: nat, raw: nat) {
    ghost predicate Good() {
      && CODE_BOT < rng <= CODE_TOP
      && low + rng <= CODE_TOP * Pow2(8 * n)
      && raw < Pow2(bits)
    }

    /** What ec_tell() computes from the counter both sides keep. */
    function Tell(): (r: int) {
      EcTell(NbitsTotal(), rng)
    }

    function NbitsTotal(): (r: int) {
      33 + 8 * n + bits
    }
  }

  const INIT := State(0, 0, CODE_TOP, 0, 0)

  /** The point of [0, rng) that cumulative frequency f is mapped to; the division slack goes to frequency 0. */
  function Bound(rng: nat, f: nat, ft: nat): (b: int)
    requires 0 < ft && f <= ft
  {
    if f == 0 then 0 else rng - (rng / ft) * (ft - f)
  }

  lemma BoundOrder(rng: nat, f: nat, g: nat, ft: nat)
    requires f < g <= ft <= CODE_BOT < rng
    ensures 0 <= Bound(rng, f, ft) < Bound(rng, g, ft) <= rng
  {
    var r := rng / ft;
    assert r * ft <= rng < (r + 1) * ft;
    if r < 1 {
      MulMono(r + 1, 1, ft);
    }
    Gap(r, ft - g, ft - f);
    Gap(r, ft - f, ft + 1);
    Gap(r, ft - g, ft);
    Distribute(r, ft, 1);
    Gap(r, -1, ft - g);
  }

  lemma BoundMono(rng: nat, f: nat, g: nat, ft: nat)
    requires f <= g <= ft <= CODE_BOT < rng && 0 < ft
    ensures 0 <= Bound(rng, f, ft) <= Bound(rng, g, ft) <= rng
  {
    if f < g {
      BoundOrder(rng, f, g, ft);
    } else if f < ft {
      BoundOrder(rng, f, ft, ft);
    }
  }

  function Shift(s: State): (t: State) {
    s.(n := s.n + 1, low := s.low * 256, rng := s.rng * 256)
  }

  function Normalize(s: State): (t: State)
    requires 0 < s.rng
    ensures CODE_BOT < t.rng && (s.rng <= CODE_TOP ==> t.rng <= CODE_TOP)
    ensures t.bits == s.bits && t.raw == s.raw && t.n >= s.n
    decreases if s.rng <= CODE_BOT then CODE_BOT + 1 - s.rng else 0
  {
    if s.rng <= CODE_BOT then Normalize(Shift(s)) else s
  }

  function Narrow(s: State, fl: nat, fh: nat, ft: nat): (t: State)
    requires fl < fh <= ft <= CODE_BOT < s.rng
    ensures 0 < t.rng <= s.rng && s.low <= t.low && t.low + t.rng <= s.low + s.rng
  {
    BoundOrder(s.rng, fl, fh, ft);
    s.(low := s.low + Bound(s.rng, fl, ft), rng := Bound(s.rng, fh, ft) - Bound(s.rng, fl, ft))
  }

  // ---------------------------------------------------------------- the symbol coders as frequency intervals

  /** 1 << bits. */
  function Total(bits: nat): (ft: nat)
    requires bits <= 23
    ensures ft == Pow2(bits) && 0 < ft <= CODE_BOT && (bits > 0 ==> ft >= 2)
  {
    Pow2Mono(bits, 23);
    Pow2Constants();
    Pow2(bits)
  }

  function BitOp(bit: bool, logp: nat): (op: Op)
    requires 1 <= logp <= 23
  {
    if bit then Freq(Total(logp) - 1, Total(logp), Total(logp)) else Freq(0, Total(logp) - 1, Total(logp))
  }

  /** An inverse cumulative table: it falls from below 2^ftb to 0. */
  predicate IcdfTable(icdf: seq<nat>, ftb: nat) {
    && ftb <= 23 && |icdf| > 0 && icdf[|icdf| - 1] == 0 && icdf[0] < Total(ftb)
    && forall i, j :: 0 <= i <= j < |icdf| ==> icdf[j] <= icdf[i]
  }

  /** Symbol k has a non-empty interval. */
  predicate IcdfCodes(icdf: seq<nat>, k: nat, ftb: nat) {
    k < |icdf| && (k > 0 ==> icdf[k] < icdf[k - 1])
  }

  function IcdfOp(k: nat, icdf: seq<nat>, ftb: nat): (op: Op)
    requires IcdfTable(icdf, ftb) && IcdfCodes(icdf, k, ftb)
  {
    Freq(if k > 0 then Total(ftb) - icdf[k - 1] else 0, Total(ftb) - icdf[k], Total(ftb))
  }

  /** How ec_enc_uint() splits a value: 8 range-coded bits, the rest raw. */
  function UintOps(fl: nat, ft: nat): (ops: seq<Op>)
    requires 1 < ft < 0x1_0000_0000 && fl < ft
  {
    UintSplit(fl, ft);
    if ILog(ft - 1) > 8 then
      var ftb := ILog(ft - 1) - 8;
      [UintHigh(fl / Pow2(ftb), ft), Bits(fl % Pow2(ftb), ftb)]
    else [Freq(fl, fl + 1, ft)]
  }

  function UintHigh(high: nat, ft: nat): (op: Op)
    requires 1 < ft && ILog(ft - 1) > 8
    requires high <= (ft - 1) / Pow2(ILog(ft - 1) - 8) < 256
  {
    var top := (ft - 1) / Pow2(ILog(ft - 1) - 8);
    Freq(high, high + 1, top + 1)
  }

  lemma UintSplit(fl: nat, ft: nat)
    requires 1 < ft < 0x1_0000_0000 && fl < ft
    ensures var ftb := ILog(ft - 1);
            if ftb > 8 then
              && ftb <= 32 && 0 <= fl / Pow2(ftb - 8) <= (ft - 1) / Pow2(ftb - 8) < 256
              && 0 <= fl % Pow2(ftb - 8) < Pow2(ftb - 8)
            else ft <= 256
  {
    hide Pow2, ILog;
    Pow2Constants();
    var ftb := ILog(ft - 1);
    ILogBounds(ft - 1);
    Pow2Strict(ftb - 1, 32);
    if ftb > 8 {
      Pow2Add(8, ftb - 8);
      DivBelow(ft - 1, Pow2(ftb - 8), 256);
      DivMono(fl, ft - 1, Pow2(ftb - 8));
      DivMono(0, fl, Pow2(ftb - 8));
    } else {
      Pow2Mono(ftb, 8);
    }
  }

  /** Any two parts a decoder can read for an alphabet of ft, joined back. */
  predicate UintParts(high: nat, low: nat, ft: nat)
    requires 1 < ft < 0x1_0000_0000
  {
    && ILog(ft - 1) > 8 && ILog(ft - 1) <= 32
    && high <= (ft - 1) / Pow2(ILog(ft - 1) - 8) < 256 && low < Pow2(ILog(ft - 1) - 8)
  }

  function UintJoin(high: nat, low: nat, ft: nat): (r: int)
    requires 1 < ft < 0x1_0000_0000 && UintParts(high, low, ft)
  {
    high * Pow2(ILog(ft - 1) - 8) + low
  }

  /** Splitting and joining are inverse: whatever parts are read are those of their joined value. */
  lemma UintRejoin(high: nat, low: nat, ft: nat)
    requires 1 < ft < 0x1_0000_0000 && UintParts(high, low, ft)
    ensures 0 <= high * Pow2(ILog(ft - 1) - 8)
    ensures var v := UintJoin(high, low, ft);
            && v == Or(high * Pow2(ILog(ft - 1) - 8), low)
            && 0 <= v && (v < ft ==> UintOps(v, ft) == [UintHigh(high, ft), Bits(low, ILog(ft - 1) - 8)])
  {
    var k := ILog(ft - 1) - 8;
    OrDisjoint(low, high, k);
    MulMono(0, high, Pow2(k));
    DivModUnique(UintJoin(high, low, ft), Pow2(k), high, low);
  }

  lemma UintSmall(fl: nat, ft: nat)
    requires 1 < ft < 0x1_0000_0000 && fl < ft && ILog(ft - 1) <= 8
    ensures ft <= 256 && UintOps(fl, ft) == [Freq(fl, fl + 1, ft)]
  {
    UintSplit(fl, ft);
  }

  /** The raw bits of a uniform value: all but the top eight of ft - 1. */
  function RawWidth(ft: nat): (k: nat) {
    if ft > 1 && ILog(ft - 1) > 8 then ILog(ft - 1) - 8 else 0
  }

  /** What the calls of a uniform value say: its high part is a symbol of its own size one, its low part is raw. */
  lemma UintMeans(v: nat, ft: nat)
    requires 1 < ft < 0x1_0000_0000 && v < ft
    ensures var ops, k := UintOps(v, ft), RawWidth(ft);
            && 1 <= |ops| && ops[0].Freq? && ops[0].fh == ops[0].fl + 1 && ops[0].ft == (ft - 1) / Pow2(k) + 1
            && (k == 0 ==> |ops| == 1 && ops[0].fl == v)
            && (k > 0 ==> |ops| == 2 && ops[1].Bits? && ops[1].k == k && ops[1].v < Pow2(k)
                          && v == ops[0].fl * Pow2(k) + ops[1].v)
  {
    hide Pow2, ILog;
    UintSplit(v, ft);
    Pow2Constants();
    DivMod(v, Pow2(RawWidth(ft)));
  }

  /** The split keeps order: a smaller value has an earlier symbol, or the same one and smaller raw bits. */
  lemma UintOrder(v: nat, w: nat, ft: nat)
    requires 1 < ft < 0x1_0000_0000 && v < w < ft
    ensures var a, b := UintOps(v, ft), UintOps(w, ft);
            && |a| == |b| >= 1 && a[0].Freq? && b[0].Freq? && a[0].ft == b[0].ft
            && (a[0].fh <= b[0].fl || (a[0] == b[0] && |a| == 2 && a[1].Bits? && b[1].Bits? && a[1].v < b[1].v))
            && (w == v + 1 ==> b[0].fl <= a[0].fh)
  {
    hide Pow2, ILog, UintOps;
    UintMeans(v, ft);
    UintMeans(w, ft);
    var k := RawWidth(ft);
    var x, y := UintOps(v, ft)[0].fl, UintOps(w, ft)[0].fl;
    if k > 0 && y < x {
      Gap(Pow2(k), y, x);
    }
    if k > 0 && x + 1 < y {
      Gap(Pow2(k), x, x + 1);
      Gap(Pow2(k), x + 1, y);
    }
  }

  /** The first value starts at 0, the last one ends at the total. */
  lemma UintEnds(ft: nat)
    requires 1 < ft < 0x1_0000_0000
    ensures UintOps(0, ft)[0].Freq? && UintOps(0, ft)[0].fl == 0
    ensures var last := UintOps(ft - 1, ft)[0];
            last.Freq? && last.fh == last.ft
  {
    hide Pow2, ILog;
    UintSplit(0, ft);
    UintSplit(ft - 1, ft);
    if RawWidth(ft) > 0 {
      DivModUnique(0, Pow2(RawWidth(ft)), 0, 0);
    }
  }

  /** The symbols of an inverse table tile the total in their order, each as wide as the table falls. */
  lemma IcdfTiles(icdf: seq<nat>, ftb: nat, k: nat)
    requires IcdfTable(icdf, ftb) && IcdfCodes(icdf, k, ftb)
    ensures var op := IcdfOp(k, icdf, ftb);
            && op.ft == Total(ftb) && op.fh - op.fl == (if k == 0 then Total(ftb) else icdf[k - 1]) - icdf[k]
            && (k == 0 ==> op.fl == 0) && (icdf[k] == 0 ==> op.fh == op.ft)
            && (k + 1 < |icdf| && IcdfCodes(icdf, k + 1, ftb) ==> IcdfOp(k + 1, icdf, ftb).fl == op.fh)
  {
    hide Total;
  }

  /** The register updates of ec_encode() and their effect on the interval. */
  lemma NarrowFields(rng: nat, fl: nat, fh: nat, ft: nat)
    requires fl < fh <= ft <= CODE_BOT < rng
    ensures var r := rng / ft;
            && (fl > 0 ==> rng - r * (ft - fl) == Bound(rng, fl, ft)
                           && r * (fh - fl) == Bound(rng, fh, ft) - Bound(rng, fl, ft))
            && (fl == 0 ==> rng - r * (ft - fh) == Bound(rng, fh, ft) && Bound(rng, fl, ft) == 0)
    ensures 0 <= Bound(rng, fl, ft) < Bound(rng, fh, ft) <= rng
  {
    BoundOrder(rng, fl, fh, ft);
    Distribute(rng / ft, ft - fl, ft - fh);
  }

  /** The register updates of ec_enc_bit_logp(). */
  lemma BitFields(rng: nat, bit: bool, logp: nat)
    requires CODE_BOT < rng && 1 <= logp <= 23
    ensures var op, s := BitOp(bit, logp), rng / Total(logp);
            && (bit ==> Bound(rng, op.fl, op.ft) == rng - s && Bound(rng, op.fh, op.ft) == rng)
            && (!bit ==> Bound(rng, op.fl, op.ft) == 0 && Bound(rng, op.fh, op.ft) == rng - s)
    ensures 0 < rng / Total(logp) < rng
  {
    BoundOrder(rng, 0, Total(logp) - 1, Total(logp));
    BoundOrder(rng, Total(logp) - 1, Total(logp), Total(logp));
  }

  function Step(s: State, op: Op): (t: State)
    requires CODE_BOT < s.rng <= CODE_TOP
    ensures CODE_BOT < t.rng <= CODE_TOP
  {
    match op
    case Freq(fl, fh, ft) => Normalize(Narrow(s, fl, fh, ft))
    case Bits(v, k) => s.(bits := s.bits + k, raw := s.raw + Pow2(s.bits) * v)
  }

  function Run(ops: seq<Op>): (s: State)
    ensures CODE_BOT < s.rng <= CODE_TOP
  {
    if ops == [] then INIT else Step(Run(ops[..|ops| - 1]), ops[|ops| - 1])
  }

  lemma RunAppend(ops: seq<Op>, op: Op)
    ensures Run(ops + [op]) == Step(Run(ops), op)
  {
    assert (ops + [op])[..|ops|] == ops;
  }

  // ---------------------------------------------------------------- the interval stays inside the unit range

  lemma {:induction false} NormalizeInside(s: State)
    requires 0 < s.rng && s.low + s.rng <= CODE_TOP * Pow2(8 * s.n)
    ensures var t := Normalize(s); t.low + t.rng <= CODE_TOP * Pow2(8 * t.n)
    decreases if s.rng <= CODE_BOT then CODE_BOT + 1 - s.rng else 0
  {
    if s.rng <= CODE_BOT {
      Pow2Add(8 * s.n, 8);
      Pow2Constants();
      NormalizeInside(Shift(s));
    }
  }

  lemma StepGood(s: State, op: Op)
    requires s.Good()
    ensures Step(s, op).Good()
  {
    match op
    case Freq(fl, fh, ft) => NormalizeInside(Narrow(s, fl, fh, ft));
    case Bits(v, k) =>
      Pow2Add(s.bits, k);
      Gap(Pow2(s.bits), v, Pow2(k));
  }

  lemma {:induction false} RunGood(ops: seq<Op>)
    ensures Run(ops).Good()
  {
    if ops == [] {
      assert Pow2(0) == 1;
    } else {
      RunGood(ops[..|ops| - 1]);
      StepGood(Run(ops[..|ops| - 1]), ops[|ops| - 1]);
    }
  }

  // ---------------------------------------------------------------- what a packet says

  function At(p: seq<byte>, i: nat): (r: byte) {
    if i < |p| then p[i] else 0
  }

  /** The first k bytes of packet p as a big-endian number, zero-extended past its end. */
  function Prefix(p: seq<byte>, k: nat): (r: nat) {
    if k == 0 then 0 else 256 * Prefix(p, k - 1) + At(p, k - 1)
  }

  /** The code point after n renormalisations: 31 + 8n bits of the packet. */
  function Code(p: seq<byte>, n: nat): (r: nat) {
    Prefix(p, n + 4) / 2
  }

  lemma CodeNext(p: seq<byte>, n: nat)
    ensures Code(p, n + 1) / 256 == Code(p, n)
  {
    assert Prefix(p, n + 5) == 256 * Prefix(p, n + 4) + At(p, n + 4);
  }

  /** Packet p carries the code point of interval s and the raw bits of s. */
  ghost predicate Holds(s: State, p: seq<byte>) {
    && s.low <= Code(p, s.n) < s.low + s.rng
    && Tail(p) % Pow2(s.bits) == s.raw
  }

  lemma {:induction false} NormalizeHolds(s: State, p: seq<byte>)
    requires 0 < s.rng
    ensures Holds(Normalize(s), p) <==> Holds(s, p)
    decreases if s.rng <= CODE_BOT then CODE_BOT + 1 - s.rng else 0
  {
    if s.rng <= CODE_BOT {
      CodeNext(p, s.n);
      NormalizeHolds(Shift(s), p);
    }
  }

  lemma RawSplit(p: seq<byte>, b: nat, k: nat)
    ensures Tail(p) % Pow2(b + k) == Tail(p) % Pow2(b) + Pow2(b) * (Tail(p) / Pow2(b) % Pow2(k))
  {
    Pow2Add(b, k);
    ModSplit(Tail(p), Pow2(b), Pow2(k));
  }

  /** A packet that carries s after one more call already carried s before it, and pins that call's raw value. */
  lemma StepHolds(s: State, op: Op, p: seq<byte>)
    requires s.Good() && Holds(Step(s, op), p)
    ensures Holds(s, p)
    ensures op.Bits? ==> op.v == Tail(p) / Pow2(s.bits) % Pow2(op.k)
  {
    match op
    case Freq(fl, fh, ft) => NormalizeHolds(Narrow(s, fl, fh, ft), p);
    case Bits(v, k) =>
      RawSplit(p, s.bits, k);
      DigitUnique(Pow2(s.bits), Tail(p) % Pow2(s.bits), Tail(p) / Pow2(s.bits) % Pow2(k), s.raw, v);
  }

  lemma DigitUnique(b: nat, r: nat, d: nat, r': nat, d': nat)
    requires r < b && r' < b && r + b * d == r' + b * d'
    ensures r == r' && d == d'
  {
    Distribute(b, d, 0);
    Distribute(b, d', 0);
    DivModUnique(r + b * d, b, d, r);
    DivModUnique(r' + b * d', b, d', r');
  }

  /** Two calls an encoder and a decoder could make from the same state with the same probability model. */
  predicate SameModel(a: Op, b: Op) {
    match (a, b)
    case (Freq(fl, fh, ft), Freq(gl, gh, gt)) => ft == gt && (a == b || fh <= gl || gh <= fl)
    case (Bits(_, k), Bits(_, l)) => k == l
    case _ => false
  }

  /** A packet determines the next call uniquely among those of one model. */
  lemma NextUnique(s: State, a: Op, b: Op, p: seq<byte>)
    requires s.Good() && SameModel(a, b)
    requires Holds(Step(s, a), p) && Holds(Step(s, b), p)
    ensures a == b
  {
    if a.Bits? {
      StepHolds(s, a, p);
      StepHolds(s, b, p);
    } else {
      NormalizeHolds(Narrow(s, a.fl, a.fh, a.ft), p);
      NormalizeHolds(Narrow(s, b.fl, b.fh, b.ft), p);
      if a != b {
        if a.fh <= b.fl {
          BoundMono(s.rng, a.fh, b.fl, a.ft);
        } else {
          BoundMono(s.rng, b.fh, a.fl, a.ft);
        }
        assert false;
      }
    }
  }

  /** A packet carrying a whole run carries every prefix of it. */
  lemma {:induction false} PrefixHolds(ops: seq<Op>, i: nat, p: seq<byte>)
    requires i <= |ops| && Holds(Run(ops), p)
    ensures Holds(Run(ops[..i]), p)
  {
    if i == |ops| {
      assert ops[..i] == ops;
    } else {
      var init := ops[..|ops| - 1];
      RunGood(init);
      StepHolds(Run(init), ops[|ops| - 1], p);
      PrefixHolds(init, i, p);
      assert init[..i] == ops[..i];
    }
  }

  /**
   * The decoder's view: having decoded exactly the first calls of a run the packet carries, whatever it
   * decodes next under the encoder's model is the encoder's next call.
   */
  lemma Follow(ops: seq<Op>, i: nat, b: Op, p: seq<byte>)
    requires i < |ops| && Holds(Run(ops), p)
    requires SameModel(ops[i], b) && Holds(Run(ops[..i] + [b]), p)
    ensures b == ops[i]
    ensures ops[..i] + [b] == ops[..i + 1]
  {
    assert ops[..i] + [ops[i]] == ops[..i + 1];
    PrefixHolds(ops, i + 1, p);
    RunAppend(ops[..i], ops[i]);
    RunAppend(ops[..i], b);
    RunGood(ops[..i]);
    NextUnique(Run(ops[..i]), ops[i], b, p);
  }
}
