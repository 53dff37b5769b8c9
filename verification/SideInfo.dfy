/**
 * The side information whose coding depends on the bits used so far -- time-frequency flags, spread, band
 * boosts and allocation trim -- as a function of the calls already made and the packet size in bytes.
 */
module SideInfo {
  import opened Arith
  import opened RangeModel
  import opened TellFrac

  const TF_SELECT_TABLE: seq<seq<int>> :=
    [[0, -1, 0, -1, 0, -1, 0, -1],
     [0, -1, 0, -2, 1, 0, 1, -1],
     [0, -2, 0, -3, 2, 0, 1, -1],
     [0, -2, 0, -3, 3, 0, 1, -1]]

  const SPREAD_ICDF: seq<nat> := [25, 23, 2, 0]
  const TRIM_ICDF: seq<nat> := [126, 124, 119, 109, 87, 41, 19, 9, 4, 2, 0]
  const SPREAD_NORMAL: nat := 2
  const TRIM_DEFAULT: nat := 5

  predicate Flag(x: int) {
    x == 0 || x == 1
  }

  predicate Flags(s: seq<int>) {
    forall i :: 0 <= i < |s| ==> Flag(s[i])
  }

  /** tf_select_table[LM][4*isTransient + 2*select + flag] */
  function TfEntry(lm: nat, transient: bool, select: int, flag: int): (r: int)
    requires lm < 4 && Flag(select) && Flag(flag)
  {
    TF_SELECT_TABLE[lm][(if transient then 4 else 0) + 2 * select + flag]
  }

  lemma IcdfsUsable()
    ensures IcdfTable(SPREAD_ICDF, 5) && forall k :: 0 <= k < 4 ==> IcdfCodes(SPREAD_ICDF, k, 5)
    ensures IcdfTable(TRIM_ICDF, 7) && forall k :: 0 <= k < 11 ==> IcdfCodes(TRIM_ICDF, k, 7)
  {
    assert Pow2(5) == 32 && Pow2(7) == 128;
  }

  // ---------------------------------------------------------------- time-frequency flags

  /** The settings both sides know before the side information. */
  datatype Frame = Frame(transient: bool, lm: nat, limits: seq<Limit>) {
    predicate Usable() {
      lm < 4 && forall i :: 0 <= i < |limits| ==> limits[i].width > 0
    }
  }

  /** What bounds the boosts of one band: its cap in eighths of a bit, and its number of samples. */
  datatype Limit = Limit(cap: int, width: nat)

  datatype TfRun = TfRun(ops: seq<Op>, res: seq<int>, curr: int, changed: int)

  function TfLogp(first: bool, transient: bool): (logp: nat)
    ensures 2 <= logp <= 5
  {
    if first then (if transient then 2 else 4) else if transient then 4 else 5
  }

  /** One flag per band while the budget lasts; after that the last value is kept. */
  function TfFlags(pre: seq<Op>, raw: seq<int>, transient: bool, budget: int): (r: TfRun)
    requires Flags(raw)
    ensures Flags(r.res) && Flag(r.curr) && Flag(r.changed) && |r.res| == |raw|
    decreases |raw|
  {
    if raw == [] then TfRun([], [], 0, 0)
    else
      hide TfStep;
      var n := |raw| - 1;
      var r := TfFlags(pre, raw[..n], transient, budget);
      TfStep(pre, r, raw[n], TfLogp(n == 0, transient), budget)
  }

  function TfStep(pre: seq<Op>, r: TfRun, flag: int, logp: nat, budget: int): (t: TfRun)
    requires 2 <= logp <= 5 && Flag(flag) && Flags(r.res) && Flag(r.curr) && Flag(r.changed)
    ensures |t.res| == |r.res| + 1 && r.ops <= t.ops
    ensures Flags(t.res) && Flag(t.curr) && Flag(t.changed)
  {
    if Run(pre + r.ops).Tell() + logp <= budget then
      TfRun(r.ops + [BitOp(flag != r.curr, logp)], r.res + [flag], flag, if flag == 1 then 1 else r.changed)
    else r.(res := r.res + [r.curr])
  }

  lemma TfFlagsNext(pre: seq<Op>, raw: seq<int>, flag: int, transient: bool, budget: int)
    requires Flags(raw) && Flag(flag)
    ensures TfFlags(pre, raw + [flag], transient, budget) ==
            TfStep(pre, TfFlags(pre, raw, transient, budget), flag, TfLogp(raw == [], transient), budget)
  {
    hide TfStep;
    assert (raw + [flag])[..|raw|] == raw;
  }

  /** Is a bit kept aside for tf_select? */
  predicate Reserve(pre: seq<Op>, transient: bool, lm: nat, size: nat) {
    lm > 0 && Run(pre).Tell() + TfLogp(true, transient) + 1 <= 8 * size
  }

  function TfBudget(pre: seq<Op>, f: Frame, size: nat): (r: int) {
    8 * size - if Reserve(pre, f.transient, f.lm, size) then 1 else 0
  }

  /** tf_select is coded only if its bit was kept and it makes a difference. */
  predicate SelectCoded(reserved: bool, transient: bool, lm: nat, changed: int)
    requires lm < 4 && Flag(changed)
  {
    reserved && TfEntry(lm, transient, 0, changed) != TfEntry(lm, transient, 1, changed)
  }

  function Resolved(res: seq<int>, lm: nat, transient: bool, select: int): (out: seq<int>)
    requires lm < 4 && Flag(select) && Flags(res)
    ensures |out| == |res|
  {
    seq(|res|, i requires 0 <= i < |res| => TfEntry(lm, transient, select, res[i]))
  }

  datatype TfOut = TfOut(ops: seq<Op>, tfRes: seq<int>)

  /** The calls of the whole section and what is left in tf_res. */
  function TfCode(pre: seq<Op>, raw: seq<int>, select: int, f: Frame, size: nat): (out: TfOut)
    requires Flags(raw) && Flag(select) && f.Usable()
    ensures |out.tfRes| == |raw|
  {
    var r := TfFlags(pre, raw, f.transient, TfBudget(pre, f, size));
    if SelectCoded(Reserve(pre, f.transient, f.lm, size), f.transient, f.lm, r.changed) then
      TfOut(r.ops + [BitOp(select == 1, 1)], Resolved(r.res, f.lm, f.transient, select))
    else
      TfOut(r.ops, Resolved(r.res, f.lm, f.transient, 0))
  }

  // ---------------------------------------------------------------- spread and trim

  datatype Choice = Choice(ops: seq<Op>, value: nat)

  function SpreadCode(pre: seq<Op>, spread: nat, size: nat): (r: Choice)
    requires spread < 4
  {
    IcdfsUsable();
    if Run(pre).Tell() + 4 <= 8 * size then Choice([IcdfOp(spread, SPREAD_ICDF, 5)], spread)
    else Choice([], SPREAD_NORMAL)
  }

  function TrimCode(pre: seq<Op>, trim: nat, size: nat, totalBoost: nat): (r: Choice)
    requires trim < 11
  {
    IcdfsUsable();
    if Tell8(Run(pre)) + 48 <= 64 * size - totalBoost then Choice([IcdfOp(trim, TRIM_ICDF, 7)], trim)
    else Choice([], TRIM_DEFAULT)
  }

  // ---------------------------------------------------------------- band boosts

  /** Six bits, but no more than one and no less than an eighth of a bit per sample. */
  function Quanta(width: nat): (q: nat)
    ensures width <= q <= 8 * width && (6 <= width <= 48 ==> q == 48)
    ensures width >= 48 ==> q == width
    ensures width <= 6 ==> q == 8 * width
  {
    var most := if 48 < width then width else 48;
    if 8 * width < most then 8 * width else most
  }

  function BoostLogp(j: nat, logp: nat): (r: nat) {
    if j == 0 then logp else 1
  }

  /** j boosts in a row. */
  function Ones(j: nat, logp: nat): (ops: seq<Op>)
    requires 1 <= logp <= 6
  {
    if j == 0 then [] else Ones(j - 1, logp) + [BitOp(true, BoostLogp(j - 1, logp))]
  }

  /** What decides the boosts of one band, apart from how many are wanted. */
  datatype Slot = Slot(logp: nat, cap: int, quanta: nat, size: nat, total: nat)

  predicate SlotUsable(b: Slot) {
    2 <= b.logp <= 6 && b.quanta > 0
  }

  /** After j boosts of a band, may another flag be coded? */
  predicate CanBoost(pre: seq<Op>, j: nat, b: Slot)
    requires SlotUsable(b)
  {
    && Tell8(Run(pre + Ones(j, b.logp))) + 8 * BoostLogp(j, b.logp) < 64 * b.size - (b.total + j * b.quanta)
    && j * b.quanta < b.cap
  }

  datatype BandRun = BandRun(ops: seq<Op>, count: nat)

  /** The flags of one band that has had j boosts. */
  function BandCode(pre: seq<Op>, want: int, j: nat, b: Slot): (r: BandRun)
    requires SlotUsable(b)
    ensures r.count >= j
    decreases b.cap - j
  {
    if CanBoost(pre, j, b) then
      BoostProgress(j, b.quanta);
      if j < want then BandCode(pre, want, j + 1, b)
      else BandRun(Ones(j, b.logp) + [BitOp(false, BoostLogp(j, b.logp))], j)
    else BandRun(Ones(j, b.logp), j)
  }

  lemma BoostProgress(j: nat, quanta: nat)
    requires quanta > 0
    ensures j * quanta >= j && (j + 1) * quanta == j * quanta + quanta
  {
    MulMono(1, quanta, j);
  }

  /**
   * What the flags of a band say: it stops at the first count that is not both wanted and possible, with a zero
   * flag exactly when another boost was still possible.
   */
  lemma {:induction false} BandOutcome(pre: seq<Op>, want: int, j: nat, b: Slot)
    requires SlotUsable(b)
    ensures var r := BandCode(pre, want, j, b);
            && (forall i: nat :: j <= i < r.count ==> CanBoost(pre, i, b) && i < want)
            && (CanBoost(pre, r.count, b) ==>
                  r.count >= want && r.ops == Ones(r.count, b.logp) + [BitOp(false, BoostLogp(r.count, b.logp))])
            && (!CanBoost(pre, r.count, b) ==> r.ops == Ones(r.count, b.logp))
    decreases b.cap - j
  {
    hide Ones, CanBoost;
    if CanBoost(pre, j, b) && j < want {
      CanBoostBound(pre, j, b);
      BandOutcome(pre, want, j + 1, b);
    }
  }

  lemma CanBoostBound(pre: seq<Op>, j: nat, b: Slot)
    requires SlotUsable(b) && CanBoost(pre, j, b)
    ensures j < b.cap && j * b.quanta < b.cap
  {
    BoostProgress(j, b.quanta);
  }

  /** The boost loop is a search: it stops at the first j that is not both wanted and possible. */
  lemma {:induction false} BandReach(pre: seq<Op>, want: int, j: nat, b: Slot)
    requires SlotUsable(b) && (j == 0 || j <= want) && forall i: nat :: i < j ==> CanBoost(pre, i, b)
    ensures BandCode(pre, want, 0, b) == BandCode(pre, want, j, b)
  {
    hide CanBoost;
    if j > 0 {
      BandReach(pre, want, j - 1, b);
      assert CanBoost(pre, j - 1, b);
    }
  }

  function NextDynLogp(logp: nat, count: nat): (r: nat) {
    if count > 0 then (if logp - 1 > 2 then logp - 1 else 2) else logp
  }

  datatype Boosts = Boosts(ops: seq<Op>, offsets: seq<nat>, total: nat, logp: nat)

  function BoostSlot(r: Boosts, l: Limit, size: nat): (c: Slot) {
    Slot(r.logp, l.cap, Quanta(l.width), size, r.total)
  }

  function BoostStep(pre: seq<Op>, r: Boosts, want: int, l: Limit, size: nat): (t: Boosts)
    requires l.width > 0 && 2 <= r.logp <= 6
    ensures |t.offsets| == |r.offsets| + 1 && t.total >= r.total && 2 <= t.logp <= 6 && r.ops <= t.ops
  {
    var b := BandCode(pre + r.ops, want, 0, BoostSlot(r, l, size));
    MulMono(0, b.count, Quanta(l.width));
    var boost: nat := b.count * Quanta(l.width);
    Boosts(r.ops + b.ops, r.offsets + [boost], r.total + boost, NextDynLogp(r.logp, b.count))
  }

  function BoostCode(pre: seq<Op>, wants: seq<int>, limits: seq<Limit>, size: nat): (r: Boosts)
    requires |wants| == |limits| && forall i :: 0 <= i < |limits| ==> limits[i].width > 0
    ensures |r.offsets| == |wants| && 2 <= r.logp <= 6
    decreases |wants|
  {
    if wants == [] then Boosts([], [], 0, 6)
    else
      var n := |wants| - 1;
      BoostStep(pre, BoostCode(pre, wants[..n], limits[..n], size), wants[n], limits[n], size)
  }

  function Sum(s: seq<nat>): (r: nat) {
    if s == [] then 0 else Sum(s[..|s| - 1]) + s[|s| - 1]
  }

  /** How many bands got a boost. */
  function Boosted(s: seq<nat>): (r: nat) {
    if s == [] then 0 else Boosted(s[..|s| - 1]) + if s[|s| - 1] > 0 then 1 else 0
  }

  /**
   * The total is the sum of the boosts; each is a number of quanta, no more than wanted, and the last one starts
   * below the cap. The first flag of a band costs six bits less one for every band boosted before, but at least two.
   */
  lemma {:induction false} BoostTotals(pre: seq<Op>, wants: seq<int>, limits: seq<Limit>, size: nat)
    requires |wants| == |limits| && forall i :: 0 <= i < |limits| ==> limits[i].width > 0
    ensures var r := BoostCode(pre, wants, limits, size);
            && r.total == Sum(r.offsets) && r.logp == Max(2, 6 - Boosted(r.offsets))
            && AllAllowed(r.offsets, wants, limits)
    decreases |wants|
  {
    hide BandCode, Quanta, AllAllowed, BoostAllowed;
    if wants == [] {
      NoneAllowed();
    } else {
      var n := |wants| - 1;
      BoostTotals(pre, wants[..n], limits[..n], size);
      var before, r := BoostCode(pre, wants[..n], limits[..n], size), BoostCode(pre, wants, limits, size);
      assert r.offsets[..n] == before.offsets;
      BoostIsAllowed(pre + before.ops, wants[n], limits[n], BoostSlot(before, limits[n], size));
      OneMoreAllowed(r.offsets, wants, limits);
    }
  }

  predicate AllAllowed(offsets: seq<nat>, wants: seq<int>, limits: seq<Limit>) {
    |offsets| == |wants| == |limits| &&
    forall i :: 0 <= i < |offsets| ==> BoostAllowed(offsets[i], wants[i], limits[i])
  }

  lemma NoneAllowed()
    ensures AllAllowed([], [], [])
  {
  }

  lemma OneMoreAllowed(offsets: seq<nat>, wants: seq<int>, limits: seq<Limit>)
    requires |offsets| == |wants| == |limits| > 0
    requires var n := |offsets| - 1;
             AllAllowed(offsets[..n], wants[..n], limits[..n]) && BoostAllowed(offsets[n], wants[n], limits[n])
    ensures AllAllowed(offsets, wants, limits)
  {
    hide BoostAllowed;
    var n := |offsets| - 1;
    forall i | 0 <= i < n ensures BoostAllowed(offsets[i], wants[i], limits[i]) {
      assert offsets[..n][i] == offsets[i] && wants[..n][i] == wants[i] && limits[..n][i] == limits[i];
    }
  }

  predicate BoostAllowed(offset: nat, want: int, l: Limit) {
    offset > 0 ==>
      exists j: nat :: j <= want && offset == j * Quanta(l.width) && (j - 1) * Quanta(l.width) < l.cap
  }

  lemma BoostIsAllowed(pre: seq<Op>, want: int, l: Limit, b: Slot)
    requires SlotUsable(b) && b.quanta == Quanta(l.width) && b.cap == l.cap
    ensures var j := BandCode(pre, want, 0, b).count;
            0 <= j * b.quanta && (j > 0 <==> j * b.quanta > 0) && BoostAllowed(j * b.quanta, want, l)
  {
    hide CanBoost, Quanta, BandCode;
    BandOutcome(pre, want, 0, b);
    var j := BandCode(pre, want, 0, b).count;
    if j > 0 {
      MulMono(1, j, b.quanta);
      CanBoostBound(pre, j - 1, b);
    }
  }

  lemma BoostNext(pre: seq<Op>, wants: seq<int>, want: int, limits: seq<Limit>, size: nat)
    requires |wants| < |limits| && forall i :: 0 <= i < |limits| ==> limits[i].width > 0
    ensures var n := |wants|;
            BoostCode(pre, wants + [want], limits[..n + 1], size) ==
            BoostStep(pre, BoostCode(pre, wants, limits[..n], size), want, limits[n], size)
  {
    hide BoostStep;
    var n := |wants|;
    assert (wants + [want])[..n] == wants && limits[..n + 1][..n] == limits[..n];
  }

  // ---------------------------------------------------------------- all of it

  /** What an encoder wants coded. */
  datatype Wish = Wish(raw: seq<int>, select: int, spread: nat, wants: seq<int>, trim: nat)

  predicate Wishes(w: Wish, f: Frame) {
    && f.Usable() && Flags(w.raw) && Flag(w.select) && w.spread < 4 && w.trim < 11
    && |w.wants| == |f.limits| == |w.raw|
  }

  /** What both sides end up using. */
  datatype Side = Side(tfRes: seq<int>, spread: nat, offsets: seq<int>, trim: nat)

  datatype SideRun = SideRun(ops: seq<Op>, side: Side, total: nat)

  function SideCode(pre: seq<Op>, w: Wish, f: Frame, size: nat): (r: SideRun)
    requires Wishes(w, f)
  {
    var tf := TfCode(pre, w.raw, w.select, f, size);
    var spread := SpreadCode(pre + tf.ops, w.spread, size);
    var boosts := BoostCode(pre + tf.ops + spread.ops, w.wants, f.limits, size);
    var trim := TrimCode(pre + tf.ops + spread.ops + boosts.ops, w.trim, size, boosts.total);
    SideRun(tf.ops + spread.ops + boosts.ops + trim.ops,
            Side(tf.tfRes, spread.value, boosts.offsets, trim.value), boosts.total)
  }

  /** What is coded, the boosts and two bytes more fit. */
  predicate Holdable(size: int, tell8: int, totalBoost: nat) {
    tell8 + totalBoost + 128 <= 64 * size
  }

  /** The smallest packet the encoder may still shrink to. */
  function MinAllowed(tell8: int, totalBoost: nat): (r: int)
    ensures forall size: int :: size >= r <==> Holdable(size, tell8, totalBoost)
  {
    (tell8 + totalBoost + 63) / 64 + 2
  }
}
