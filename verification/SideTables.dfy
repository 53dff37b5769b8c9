/** What the tables of the side information mean. */
module SideTables {
  import opened Arith
  import opened RangeModel
  import opened SideInfo

  // ---------------------------------------------------------------- time-frequency resolutions

  /**
   * Positive entries mean better frequency resolution, negative ones better time resolution. Without a transient,
   * flag 0 keeps the resolution and flag 1 gains time resolution, more in longer frames and one step more under
   * select 1. In a transient, flag 0 gains frequency resolution: all of it under select 0, one step under select 1.
   * Flag 1 always has the better time resolution.
   */
  lemma TfEntries(lm: nat, transient: bool, select: int)
    requires lm < 4 && Flag(select)
    ensures TfEntry(lm, transient, select, 1) < TfEntry(lm, transient, select, 0)
    ensures !transient ==> TfEntry(lm, transient, select, 0) == 0
    ensures !transient ==> TfEntry(lm, transient, select, 1) == -(lm / 2 + 1) - if lm > 0 then select else 0
    ensures transient && select == 0 ==> TfEntry(lm, transient, select, 0) == lm
    ensures transient && select == 0 && lm > 0 ==> TfEntry(lm, transient, select, 1) == 0
    ensures transient && select == 1 && lm > 0 ==>
              TfEntry(lm, transient, select, 0) == 1 && TfEntry(lm, transient, select, 1) == -1
    ensures transient && lm == 0 ==>
              TfEntry(lm, transient, select, 0) == 0 && TfEntry(lm, transient, select, 1) == -1
  {
  }

  /** The flags a band ends up with, and the select in effect. */
  function UsedFlags(pre: seq<Op>, raw: seq<int>, f: Frame, size: nat): (r: TfRun)
    requires Flags(raw)
    ensures |r.res| == |raw| && Flags(r.res) && Flag(r.changed)
  {
    TfFlags(pre, raw, f.transient, TfBudget(pre, f, size))
  }

  predicate SelectUsed(pre: seq<Op>, raw: seq<int>, f: Frame, size: nat)
    requires Flags(raw) && f.Usable()
  {
    SelectCoded(Reserve(pre, f.transient, f.lm, size), f.transient, f.lm, UsedFlags(pre, raw, f, size).changed)
  }

  /** What is left in tf_res, band by band. */
  lemma TfResolves(pre: seq<Op>, raw: seq<int>, select: int, f: Frame, size: nat, i: nat)
    requires Flags(raw) && Flag(select) && f.Usable() && i < |raw|
    ensures var res, flag := TfCode(pre, raw, select, f, size).tfRes[i], UsedFlags(pre, raw, f, size).res[i];
            var used := if SelectUsed(pre, raw, f, size) then select else 0;
            && (!f.transient && flag == 0 ==> res == 0)
            && (!f.transient && flag == 1 ==> res == -(f.lm / 2 + 1) - if f.lm > 0 then used else 0)
            && (f.transient && f.lm > 0 && used == 0 ==> res == if flag == 0 then f.lm else 0)
            && (f.transient && f.lm > 0 && used == 1 ==> res == if flag == 0 then 1 else -1)
            && (f.transient && f.lm == 0 ==> res == -flag)
  {
    hide TfFlags, TfEntry, TfBudget, Reserve;
    TfEntries(f.lm, f.transient, 0);
    TfEntries(f.lm, f.transient, select);
  }

  /** The last coded flag is a one only if some flag is, and that is what `changed` records. */
  lemma {:induction false} ChangedExactly(pre: seq<Op>, raw: seq<int>, transient: bool, budget: int)
    requires Flags(raw)
    ensures var r := TfFlags(pre, raw, transient, budget);
            && (r.changed == 1 <==> exists i :: 0 <= i < |r.res| && r.res[i] == 1)
            && (r.curr == 1 ==> r.changed == 1)
    decreases |raw|
  {
    hide Run, BitOp;
    if raw != [] {
      var n := |raw| - 1;
      ChangedExactly(pre, raw[..n], transient, budget);
      var before, r := TfFlags(pre, raw[..n], transient, budget), TfFlags(pre, raw, transient, budget);
      assert r.res[..n] == before.res;
      assert r.res[n] == 1 || forall i :: 0 <= i < |r.res| && r.res[i] == 1 ==> before.res[i] == 1;
      assert forall i :: 0 <= i < |before.res| && before.res[i] == 1 ==> r.res[i] == 1;
    }
  }

  /** tf_select is coded, when its bit was kept, exactly if it changes the resolution of some band. */
  lemma SelectMatters(pre: seq<Op>, raw: seq<int>, f: Frame, size: nat)
    requires Flags(raw) && raw != [] && f.Usable()
    ensures var res := UsedFlags(pre, raw, f, size).res;
            SelectUsed(pre, raw, f, size) <==>
              && Reserve(pre, f.transient, f.lm, size)
              && Resolved(res, f.lm, f.transient, 0) != Resolved(res, f.lm, f.transient, 1)
  {
    hide TfFlags, TfEntry, Reserve, TfBudget;
    var r := UsedFlags(pre, raw, f, size);
    ChangedExactly(pre, raw, f.transient, TfBudget(pre, f, size));
    TfEntries(f.lm, f.transient, 0);
    TfEntries(f.lm, f.transient, 1);
    var a, b := Resolved(r.res, f.lm, f.transient, 0), Resolved(r.res, f.lm, f.transient, 1);
    if r.changed == 1 {
      var i :| 0 <= i < |r.res| && r.res[i] == 1;
      assert a[i] == TfEntry(f.lm, f.transient, 0, 1) && b[i] == TfEntry(f.lm, f.transient, 1, 1);
    } else {
      assert forall i :: 0 <= i < |r.res| ==> r.res[i] == 0;
      assert a[0] == TfEntry(f.lm, f.transient, 0, 0) && b[0] == TfEntry(f.lm, f.transient, 1, 0);
    }
  }

  // ---------------------------------------------------------------- spread and trim

  function Width(icdf: seq<nat>, ftb: nat, k: nat): (w: int)
    requires IcdfTable(icdf, ftb) && IcdfCodes(icdf, k, ftb)
  {
    var op := IcdfOp(k, icdf, ftb);
    op.fh - op.fl
  }

  /** What is assumed when no spread is coded is its most likely value. */
  lemma SpreadDefault(k: nat)
    requires k < 4
    ensures IcdfTable(SPREAD_ICDF, 5) && IcdfCodes(SPREAD_ICDF, k, 5) && IcdfCodes(SPREAD_ICDF, SPREAD_NORMAL, 5)
    ensures k != SPREAD_NORMAL ==> Width(SPREAD_ICDF, 5, k) < Width(SPREAD_ICDF, 5, SPREAD_NORMAL)
  {
    IcdfsUsable();
    TotalIs32();
  }

  lemma TotalIs32()
    ensures Total(5) == 32 && Total(7) == 128
  {
    assert Pow2(5) == 32 && Pow2(7) == 128;
  }

  /** The same for the trim, whose table is symmetric about its default. */
  lemma TrimDefault(k: nat)
    requires k < 11
    ensures IcdfTable(TRIM_ICDF, 7) && IcdfCodes(TRIM_ICDF, k, 7) && IcdfCodes(TRIM_ICDF, 2 * TRIM_DEFAULT - k, 7)
    ensures Width(TRIM_ICDF, 7, k) == Width(TRIM_ICDF, 7, 2 * TRIM_DEFAULT - k)
    ensures k != TRIM_DEFAULT ==> Width(TRIM_ICDF, 7, k) < Width(TRIM_ICDF, 7, TRIM_DEFAULT)
  {
    IcdfsUsable();
    TotalIs32();
  }
}
