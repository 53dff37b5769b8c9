/** Arithmetic of the decoder: following the code point, and reading bits from the end of the packet. */
module Window {
  import opened Arith
  import opened RangeModel

  /** Bits [from, from + n) of the packet read from its end. */
  function TailBits(p: seq<byte>, from: nat, n: nat): (v: nat)
    ensures v < Pow2(n)
  {
    DivNat(Tail(p), Pow2(from));
    Tail(p) / Pow2(from) % Pow2(n)
  }

  lemma DivNat(x: nat, d: nat)
    requires d > 0
    ensures 0 <= x / d
  {
    DivMod(x, d);
  }

  /** One more byte: the window grows at its top. */
  lemma WindowGrows(p: seq<byte>, from: nat, n: nat, j: nat)
    requires from + n == 8 * j
    ensures var b := if j < |p| then p[|p| - 1 - j] else 0;
            0 <= b * Pow2(n) && TailBits(p, from, n + 8) == Or(TailBits(p, from, n), b * Pow2(n))
  {
    hide Tail, Pow2, Or;
    var b: byte := if j < |p| then p[|p| - 1 - j] else 0;
    var t := Tail(p) / Pow2(from);
    DivNat(Tail(p), Pow2(from));
    Pow2Byte(n);
    ModSplit(t, Pow2(n), 256);
    Pow2Add(from, n);
    ModSplit(Tail(p), Pow2(from), Pow2(n));
    TailDigit(p, j);
    Distribute(Pow2(n), b, 0);
    OrDisjoint(TailBits(p, from, n), b, n);
    NonNegative(b, Pow2(n));
  }

  lemma NonNegative(a: nat, b: nat)
    ensures 0 <= a * b
  {
  }

  /** Taking k bits off the bottom of the window. */
  lemma WindowShrinks(p: seq<byte>, from: nat, n: nat, k: nat)
    requires k <= n
    ensures TailBits(p, from, n) % Pow2(k) == TailBits(p, from, k)
    ensures TailBits(p, from, n) / Pow2(k) == TailBits(p, from + k, n - k)
  {
    hide Tail, Pow2;
    var t := Tail(p) / Pow2(from);
    DivNat(Tail(p), Pow2(from));
    Pow2Add(k, n - k);
    ModSplit(t, Pow2(k), Pow2(n - k));
    Pow2Add(from, k);
    ModSplit(Tail(p), Pow2(from), Pow2(k));
    var hi := t / Pow2(k) % Pow2(n - k);
    Distribute(Pow2(k), hi, 0);
    DivModUnique(TailBits(p, from, n), Pow2(k), hi, t % Pow2(k));
  }

  lemma TailBitsAll(p: seq<byte>, n: nat, k: nat)
    ensures Tail(p) % Pow2(n + k) == Tail(p) % Pow2(n) + Pow2(n) * TailBits(p, n, k)
  {
    RawSplit(p, n, k);
  }

  /** val follows the code point: one renormalisation of the decoder, with nothing masked off. */
  lemma CodeShift(p: seq<byte>, k: nat, val: nat, low: nat, rng: nat)
    requires 1 <= k && rng <= CODE_BOT
    requires val < rng && val == low + rng - 1 - Prefix(p, k) / 2
    ensures var sym := (At(p, k - 1) * 256 + At(p, k)) / 2;
            var v := val * 256 + (255 - sym % 256);
            && v < 256 * rng && v % CODE_TOP == v
            && v == low * 256 + rng * 256 - 1 - Prefix(p, k + 1) / 2
  {
    PrefixHalves(Prefix(p, k - 1), At(p, k - 1), At(p, k));
  }

  lemma PrefixHalves(x: nat, r: byte, b: byte)
    ensures (r * 256 + b) / 2 % 256 == 128 * (r % 2) + b / 2
    ensures (256 * x + r) / 2 == 128 * x + r / 2
    ensures (256 * (256 * x + r) + b) / 2 == 256 * (128 * x + r / 2) + 128 * (r % 2) + b / 2
  {
    assert (r * 256 + b) / 2 == 256 * (r / 2) + (128 * (r % 2) + b / 2);
  }

  /** Frequency fs is the one the code point falls into. */
  ghost predicate Points(rng: nat, val: nat, fs: nat, ft: nat) {
    fs < ft && Bound(rng, fs, ft) <= rng - 1 - val < Bound(rng, fs + 1, ft)
  }

  lemma PointsBelow(rng: nat, val: nat, fs: nat, ft: nat)
    requires Points(rng, val, fs, ft)
    ensures fs < ft
  {
  }

  /** How ec_decode() finds it. */
  lemma DecodePoints(rng: nat, val: nat, ft: nat)
    requires 0 < ft <= CODE_BOT < rng && val < rng
    ensures rng / ft > 0
    ensures var s := val / (rng / ft);
            Points(rng, val, ft - (if s + 1 < ft then s + 1 else ft), ft)
  {
    BoundOrder(rng, 0, 1, ft);
    var r := rng / ft;
    DivMod(rng, ft);
    if r <= 0 {
      MulMono(r, 0, ft);
    }
    var s := val / r;
    DivMod(val, r);
    Distribute(r, s, 1);
    if s + 1 > ft {
      Gap(r, ft - 1, s);
    }
  }

  lemma PointsWithin(rng: nat, val: nat, fs: nat, fl: nat, fh: nat, ft: nat)
    requires ft <= CODE_BOT < rng && Points(rng, val, fs, ft) && fl <= fs < fh <= ft
    ensures Bound(rng, fl, ft) <= rng - 1 - val < Bound(rng, fh, ft)
  {
    BoundMono(rng, fl, fs, ft);
    BoundMono(rng, fs + 1, fh, ft);
  }

  lemma UpperGap(rng: nat, fh: nat, ft: nat)
    requires 0 < fh <= ft
    ensures (rng / ft) * (ft - fh) == rng - Bound(rng, fh, ft)
  {
  }

  /**
   * Why a table starts below 2^ftb: one that starts at 2^ftb leaves symbol 0 just the remainder of the division. The
   * encoder's range would become rng % 2^ftb, and the decoder's search stops at 0 only inside that remainder.
   */
  lemma FirstSymbolSlack(rng: nat, val: nat, first: nat, ftb: nat)
    requires ftb <= 23 && CODE_BOT < rng && val < rng && first <= Total(ftb)
    ensures var t, rest := Total(ftb), rng - rng / Total(ftb) * first;
            && (rest == 0 <==> first == t && rng % t == 0)
            && (first == t ==> rest == rng % t && (rng / t * first <= val <==> rng - 1 - val < rng % t))
  {
    hide Total;
    var t: nat := Total(ftb);
    SlackOf(rng, t, rng / t, first, rng % t);
  }

  lemma SlackOf(rng: nat, t: nat, r: int, first: nat, rest: int)
    requires 0 < t <= rng && first <= t && r == rng / t && rest == rng % t
    ensures rng - r * first >= rest && (first == t ==> rng - r * first == rest)
    ensures rng - r * first == 0 <==> first == t && rest == 0
  {
    DivMod(rng, t);
    if r < 1 {
      MulMono(r, 0, t);
    }
    if first < t {
      Gap(r, first, t);
    }
  }

  /** Where the search of ec_dec_icdf() stops is exactly the interval of its symbol. */
  lemma IcdfFields(rng: nat, icdf: seq<nat>, k: nat, ftb: nat)
    requires CODE_BOT < rng && IcdfTable(icdf, ftb) && k < |icdf|
    requires var r := rng / Total(ftb); r * icdf[k] < if k == 0 then rng else r * icdf[k - 1]
    ensures IcdfCodes(icdf, k, ftb)
    ensures var op, r := IcdfOp(k, icdf, ftb), rng / Total(ftb);
            && Bound(rng, op.fh, op.ft) == rng - r * icdf[k]
            && Bound(rng, op.fl, op.ft) == rng - (if k == 0 then rng else r * icdf[k - 1])
  {
    var r := rng / Total(ftb);
    DivNat(rng, Total(ftb));
    assert k > 0 ==> icdf[k] <= icdf[k - 1];
    assert r * icdf[k] == rng - Bound(rng, Total(ftb) - icdf[k], Total(ftb));
  }
}
