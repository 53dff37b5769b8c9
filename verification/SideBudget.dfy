/** Why the budget tests of the side information are right: what they let through never overruns the packet. */
module SideBudget {
  import opened Arith
  import opened RangeModel
  import opened TellFrac
  import opened SideInfo
  import opened SideTables
  import Flush

  lemma TellBit(pre: seq<Op>, bit: bool, logp: nat)
    requires 1 <= logp <= 8
    ensures Run(pre + [BitOp(bit, logp)]).Tell() <= Run(pre).Tell() + logp
    ensures Tell8(Run(pre + [BitOp(bit, logp)])) <= Tell8(Run(pre)) + 8 * logp
    ensures bit ==> Run(pre + [BitOp(bit, logp)]).Tell() == Run(pre).Tell() + logp
    ensures bit ==> Tell8(Run(pre + [BitOp(bit, logp)])) == Tell8(Run(pre)) + 8 * logp
  {
    hide Run, Tell8, BitOp;
    RunAppend(pre, BitOp(bit, logp));
    Tell8Bit(Run(pre), bit, logp);
    Tell8Bounds(Run(pre));
    Tell8Bounds(Run(pre + [BitOp(bit, logp)]));
  }

  /** Four bits are what the rarest spread takes, six what the rarest trim does. */
  lemma Tell8Choices(pre: seq<Op>, spread: nat, trim: nat)
    requires spread < 4 && trim < 11
    ensures IcdfTable(SPREAD_ICDF, 5) && IcdfCodes(SPREAD_ICDF, spread, 5)
    ensures IcdfTable(TRIM_ICDF, 7) && IcdfCodes(TRIM_ICDF, trim, 7)
    ensures var t := Tell8(Run(pre + [IcdfOp(spread, SPREAD_ICDF, 5)]));
            t <= Tell8(Run(pre)) + 32 && (spread == RAREST_SPREAD ==> t == Tell8(Run(pre)) + 32)
    ensures var t := Tell8(Run(pre + [IcdfOp(trim, TRIM_ICDF, 7)]));
            t <= Tell8(Run(pre)) + 48 && (trim == RAREST_TRIM ==> t == Tell8(Run(pre)) + 48)
  {
    hide Run, Tell8, Step;
    IcdfsUsable();
    TotalIs32();
    Pow2Constants();
    var a, b := IcdfOp(spread, SPREAD_ICDF, 5), IcdfOp(trim, TRIM_ICDF, 7);
    RunAppend(pre, a);
    RunAppend(pre, b);
    Tell8Symbol(Run(pre), a.fl, a.fh, a.ft, 5, 1);
    Tell8Symbol(Run(pre), b.fl, b.fh, b.ft, 7, 1);
  }

  // ---------------------------------------------------------------- coded exactly when the rarest value fits

  const RAREST_SPREAD: nat := 3
  const RAREST_TRIM: nat := 10

  /** A spread is coded exactly when any could be: when the rarest one fits the packet. */
  lemma SpreadExactly(pre: seq<Op>, spread: nat, size: nat)
    requires spread < 4
    ensures IcdfTable(SPREAD_ICDF, 5) && IcdfCodes(SPREAD_ICDF, RAREST_SPREAD, 5)
    ensures SpreadCode(pre, spread, size).ops != [] <==>
            Run(pre + [IcdfOp(RAREST_SPREAD, SPREAD_ICDF, 5)]).Tell() <= 8 * size
  {
    hide Run, Tell8, IcdfOp;
    Tell8Choices(pre, RAREST_SPREAD, 0);
    Tell8Bounds(Run(pre));
    Tell8Bounds(Run(pre + [IcdfOp(RAREST_SPREAD, SPREAD_ICDF, 5)]));
  }

  /** The same for the trim, with the boosts set aside. */
  lemma TrimExactly(pre: seq<Op>, trim: nat, size: nat, totalBoost: nat)
    requires trim < 11
    ensures IcdfTable(TRIM_ICDF, 7) && IcdfCodes(TRIM_ICDF, RAREST_TRIM, 7)
    ensures TrimCode(pre, trim, size, totalBoost).ops != [] <==>
            Tell8(Run(pre + [IcdfOp(RAREST_TRIM, TRIM_ICDF, 7)])) <= 64 * size - totalBoost
  {
    hide Run, Tell8, IcdfOp;
    Tell8Choices(pre, 0, RAREST_TRIM);
  }

  /** A tf flag is coded exactly when a change would fit the budget. */
  lemma TfFlagExactly(pre: seq<Op>, r: TfRun, flag: int, logp: nat, budget: int)
    requires 2 <= logp <= 5 && Flag(flag) && Flags(r.res) && Flag(r.curr) && Flag(r.changed)
    ensures TfStep(pre, r, flag, logp, budget).ops != r.ops <==>
            Run(pre + r.ops + [BitOp(true, logp)]).Tell() <= budget
  {
    hide Run, BitOp;
    TellBit(pre + r.ops, true, logp);
  }

  /** A bit is kept for tf_select exactly when a first change and the select bit would both fit. */
  lemma ReserveExactly(pre: seq<Op>, transient: bool, lm: nat, size: nat)
    ensures Reserve(pre, transient, lm, size) <==>
            && lm > 0
            && Run(pre + [BitOp(true, TfLogp(true, transient))] + [BitOp(true, 1)]).Tell() <= 8 * size
  {
    hide Run, BitOp;
    TellBit(pre, true, TfLogp(true, transient));
    TellBit(pre + [BitOp(true, TfLogp(true, transient))], true, 1);
  }

  /** Another boost flag is coded exactly below the cap and when a boost would leave something of the budget. */
  lemma BoostExactly(pre: seq<Op>, j: nat, b: Slot)
    requires SlotUsable(b)
    ensures CanBoost(pre, j, b) <==>
            && j * b.quanta < b.cap
            && Tell8(Run(pre + Ones(j + 1, b.logp))) < 64 * b.size - (b.total + j * b.quanta)
  {
    hide Run, BitOp, Tell8;
    TellBit(pre + Ones(j, b.logp), true, BoostLogp(j, b.logp));
    var op := BitOp(true, BoostLogp(j, b.logp));
    assert pre + (Ones(j, b.logp) + [op]) == pre + Ones(j, b.logp) + [op];
  }

  /** j boosts in a row cost one bit each, the first one logp. */
  lemma {:induction false} BoostsCost(pre: seq<Op>, j: nat, logp: nat)
    requires 1 <= logp <= 6
    ensures Tell8(Run(pre + Ones(j, logp))) == Tell8(Run(pre)) + if j == 0 then 0 else 8 * (logp + j - 1)
  {
    hide Run, BitOp, Tell8;
    if j == 0 {
      assert pre + [] == pre;
    } else {
      BoostsCost(pre, j - 1, logp);
      TellBit(pre + Ones(j - 1, logp), true, BoostLogp(j - 1, logp));
      var op := BitOp(true, BoostLogp(j - 1, logp));
      assert pre + (Ones(j - 1, logp) + [op]) == pre + Ones(j - 1, logp) + [op];
    }
  }

  /** How likely a change of flag is taken to be: for the first band, and for the others. */
  lemma TfLikelihoods()
    ensures BitOp(true, TfLogp(true, true)) == Freq(3, 4, 4) && BitOp(true, TfLogp(true, false)) == Freq(15, 16, 16)
    ensures BitOp(true, TfLogp(false, true)) == Freq(15, 16, 16)
    ensures BitOp(true, TfLogp(false, false)) == Freq(31, 32, 32)
  {
    assert Pow2(2) == 4 && Pow2(4) == 16 && Pow2(5) == 32;
  }

  // ---------------------------------------------------------------- never past the end of the packet

  lemma {:induction false} TfFlagsWithin(pre: seq<Op>, raw: seq<int>, transient: bool, budget: int)
    requires Flags(raw)
    ensures Run(pre + TfFlags(pre, raw, transient, budget).ops).Tell() <= Max(Run(pre).Tell(), budget)
    ensures Tell8(Run(pre + TfFlags(pre, raw, transient, budget).ops)) <= Max(Tell8(Run(pre)), 8 * budget)
    decreases |raw|
  {
    hide Run, BitOp, Tell8;
    if raw == [] {
      assert pre + [] == pre;
    } else {
      var n := |raw| - 1;
      TfFlagsWithin(pre, raw[..n], transient, budget);
      var r, logp := TfFlags(pre, raw[..n], transient, budget), TfLogp(n == 0, transient);
      var op := BitOp(raw[n] != r.curr, logp);
      TellBit(pre + r.ops, raw[n] != r.curr, logp);
      Tell8Bounds(Run(pre + r.ops));
      assert pre + (r.ops + [op]) == pre + r.ops + [op];
    }
  }

  lemma TfWithin(pre: seq<Op>, raw: seq<int>, select: int, f: Frame, size: nat)
    requires Flags(raw) && Flag(select) && f.Usable()
    ensures Run(pre + TfCode(pre, raw, select, f, size).ops).Tell() <= Max(Run(pre).Tell(), 8 * size)
    ensures Tell8(Run(pre + TfCode(pre, raw, select, f, size).ops)) <= Max(Tell8(Run(pre)), 64 * size)
  {
    hide Run, BitOp, TfFlags, Resolved, Tell8;
    Tell8Bounds(Run(pre));
    var r := TfFlags(pre, raw, f.transient, TfBudget(pre, f, size));
    TfFlagsWithin(pre, raw, f.transient, TfBudget(pre, f, size));
    TellBit(pre + r.ops, select == 1, 1);
    assert pre + (r.ops + [BitOp(select == 1, 1)]) == pre + r.ops + [BitOp(select == 1, 1)];
  }

  lemma SpreadWithin(pre: seq<Op>, spread: nat, size: nat)
    requires spread < 4
    ensures Tell8(Run(pre + SpreadCode(pre, spread, size).ops)) <= Max(Tell8(Run(pre)), 64 * size)
  {
    hide Run, Tell8, IcdfOp;
    Tell8Choices(pre, spread, 0);
    Tell8Bounds(Run(pre));
    assert pre + [] == pre;
  }

  lemma TrimWithin(pre: seq<Op>, trim: nat, size: nat, totalBoost: nat)
    requires trim < 11
    ensures Tell8(Run(pre + TrimCode(pre, trim, size, totalBoost).ops)) <= Max(Tell8(Run(pre)), 64 * size - totalBoost)
  {
    hide Run, Tell8, IcdfOp;
    Tell8Choices(pre, 0, trim);
    assert pre + [] == pre;
  }

  /** A band that codes any flag leaves some of the budget it was tested against. */
  lemma {:induction false} BandWithin(pre: seq<Op>, want: int, j: nat, b: Slot)
    requires SlotUsable(b)
    requires j == 0 || Tell8(Run(pre + Ones(j, b.logp))) < 64 * b.size - b.total
    ensures var ops := BandCode(pre, want, j, b).ops;
            ops == [] || Tell8(Run(pre + ops)) < 64 * b.size - b.total
    decreases b.cap - j
  {
    hide Run, Tell8, BitOp, Quanta;
    if CanBoost(pre, j, b) {
      BoostProgress(j, b.quanta);
      var ones, logp := Ones(j, b.logp), BoostLogp(j, b.logp);
      var bit := j < want;
      TellBit(pre + ones, bit, logp);
      assert pre + (ones + [BitOp(bit, logp)]) == pre + ones + [BitOp(bit, logp)];
      if bit {
        BandWithin(pre, want, j + 1, b);
      }
    }
  }

  lemma {:induction false} BoostWithin(pre: seq<Op>, wants: seq<int>, limits: seq<Limit>, size: nat)
    requires |wants| == |limits| && forall i :: 0 <= i < |limits| ==> limits[i].width > 0
    ensures Tell8(Run(pre + BoostCode(pre, wants, limits, size).ops)) <= Max(Tell8(Run(pre)), 64 * size)
    decreases |wants|
  {
    hide Run, Tell8, BandCode, Quanta;
    if wants == [] {
      assert pre + [] == pre;
    } else {
      var n := |wants| - 1;
      var r := BoostCode(pre, wants[..n], limits[..n], size);
      BoostWithin(pre, wants[..n], limits[..n], size);
      var b := BandCode(pre + r.ops, wants[n], 0, BoostSlot(r, limits[n], size));
      BandWithin(pre + r.ops, wants[n], 0, BoostSlot(r, limits[n], size));
      assert pre + (r.ops + b.ops) == pre + r.ops + b.ops;
      assert r.ops + [] == r.ops;
    }
  }

  /** No part of the side information takes the count past the end of the packet. */
  lemma SideWithin(pre: seq<Op>, w: Wish, f: Frame, size: nat)
    requires Wishes(w, f)
    ensures Tell8(Run(pre + SideCode(pre, w, f, size).ops)) <= Max(Tell8(Run(pre)), 64 * size)
  {
    hide Run, Tell8, TfCode, SpreadCode, BoostCode, TrimCode;
    var tf := TfCode(pre, w.raw, w.select, f, size).ops;
    TfWithin(pre, w.raw, w.select, f, size);
    var pre1 := pre + tf;
    SpreadWithin(pre1, w.spread, size);
    var pre2 := pre1 + SpreadCode(pre1, w.spread, size).ops;
    BoostWithin(pre2, w.wants, f.limits, size);
    var boosts := BoostCode(pre2, w.wants, f.limits, size);
    TrimWithin(pre2 + boosts.ops, w.trim, size, boosts.total);
    assert pre + SideCode(pre, w, f, size).ops
        == pre2 + boosts.ops + TrimCode(pre2 + boosts.ops, w.trim, size, boosts.total).ops;
  }

  /** So a packet that can be finished before the side information can be finished after it. */
  lemma SideFits(pre: seq<Op>, w: Wish, f: Frame, size: nat)
    requires Wishes(w, f) && Run(pre).Tell() <= 8 * size
    ensures Flush.FlushedBits(Run(pre + SideCode(pre, w, f, size).ops)) <= 8 * size
  {
    hide Run, Tell8, SideCode, Flush.FlushedBits;
    SideWithin(pre, w, f, size);
    var s := Run(pre + SideCode(pre, w, f, size).ops);
    Tell8Bounds(Run(pre));
    Tell8Bounds(s);
    Flush.TellCoversFlush(s);
  }
}
