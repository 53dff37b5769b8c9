/**
 * Why encoder and decoder agree on the side information: a packet determines it, and shrinking a packet to no
 * less than the encoder's minimum changes none of the decisions taken for the larger size.
 */
module SideAgreement {
  import opened Arith
  import opened RangeModel
  import opened SideInfo
  import opened TellFrac

  /** The count of used bits never falls along a run. */
  lemma {:induction false} Tell8Grows(pre: seq<Op>, ops: seq<Op>)
    ensures Tell8(Run(pre)) <= Tell8(Run(pre + ops))
    decreases |ops|
  {
    hide Tell8, Step;
    if ops == [] {
      assert pre + ops == pre;
    } else {
      var n := |ops| - 1;
      Tell8Grows(pre, ops[..n]);
      RunAppend(pre + ops[..n], ops[n]);
      Tell8Step(Run(pre + ops[..n]), ops[n]);
      assert pre + ops == pre + ops[..n] + [ops[n]];
    }
  }

  lemma Tell8Prefix(pre: seq<Op>, a: seq<Op>, b: seq<Op>)
    requires a <= b
    ensures Tell8(Run(pre + a)) <= Tell8(Run(pre + b))
  {
    hide Run, Tell8;
    Tell8Grows(pre + a, b[|a|..]);
    assert pre + a + b[|a|..] == pre + b;
  }

  // ---------------------------------------------------------------- shrinking changes no decision

  lemma {:induction false} TfFlagsShrink(pre: seq<Op>, raw: seq<int>, transient: bool, budget: int, budget': int)
    requires Flags(raw) && budget' <= budget
    requires Tell8(Run(pre + TfFlags(pre, raw, transient, budget).ops)) + 48 <= 8 * budget'
    ensures TfFlags(pre, raw, transient, budget') == TfFlags(pre, raw, transient, budget)
    decreases |raw|
  {
    hide Run, Tell8, BitOp;
    if raw != [] {
      var n := |raw| - 1;
      var r := TfFlags(pre, raw[..n], transient, budget);
      Tell8Prefix(pre, r.ops, TfFlags(pre, raw, transient, budget).ops);
      TfFlagsShrink(pre, raw[..n], transient, budget, budget');
      Tell8Bounds(Run(pre + r.ops));
    }
  }

  lemma TfShrink(pre: seq<Op>, raw: seq<int>, select: int, f: Frame, size: nat, size': nat)
    requires Flags(raw) && Flag(select) && f.Usable() && size' <= size
    requires Tell8(Run(pre + TfCode(pre, raw, select, f, size).ops)) + 128 <= 64 * size'
    ensures TfCode(pre, raw, select, f, size') == TfCode(pre, raw, select, f, size)
  {
    hide Run, Tell8, BitOp, TfFlags, Resolved;
    var out := TfCode(pre, raw, select, f, size);
    assert pre + [] == pre;
    Tell8Prefix(pre, [], out.ops);
    Tell8Bounds(Run(pre));
    assert Reserve(pre, f.transient, f.lm, size') == Reserve(pre, f.transient, f.lm, size);
    var budget := TfBudget(pre, f, size);
    Tell8Prefix(pre, TfFlags(pre, raw, f.transient, budget).ops, out.ops);
    TfFlagsShrink(pre, raw, f.transient, budget, TfBudget(pre, f, size'));
  }

  lemma {:induction false} OnesPrefix(i: nat, j: nat, logp: nat)
    requires 1 <= logp <= 6 && i <= j
    ensures Ones(i, logp) <= Ones(j, logp)
  {
    if i < j {
      OnesPrefix(i, j - 1, logp);
    }
  }

  lemma {:induction false} BandPrefix(pre: seq<Op>, want: int, j: nat, b: Slot)
    requires SlotUsable(b)
    ensures Ones(j, b.logp) <= BandCode(pre, want, j, b).ops
    decreases b.cap - j
  {
    hide Run, Tell8, BitOp;
    if CanBoost(pre, j, b) && j < want {
      BoostProgress(j, b.quanta);
      BandPrefix(pre, want, j + 1, b);
      OnesPrefix(j, j + 1, b.logp);
    }
  }

  lemma {:induction false} BandShrink(pre: seq<Op>, want: int, j: nat, b: Slot, size': nat)
    requires SlotUsable(b) && size' <= b.size
    requires var r := BandCode(pre, want, j, b);
             Tell8(Run(pre + r.ops)) + b.total + r.count * b.quanta + 128 <= 64 * size'
    ensures BandCode(pre, want, j, b.(size := size')) == BandCode(pre, want, j, b)
    decreases b.cap - j
  {
    hide Run, Tell8, BitOp, Ones;
    var r := BandCode(pre, want, j, b);
    BandPrefix(pre, want, j, b);
    Tell8Prefix(pre, Ones(j, b.logp), r.ops);
    MulMono(j, r.count, b.quanta);
    assert CanBoost(pre, j, b.(size := size')) == CanBoost(pre, j, b);
    if CanBoost(pre, j, b) && j < want {
      BoostProgress(j, b.quanta);
      BandShrink(pre, want, j + 1, b, size');
    }
  }

  lemma {:induction false} BoostShrink(pre: seq<Op>, wants: seq<int>, limits: seq<Limit>, size: nat, size': nat)
    requires |wants| == |limits| && size' <= size && forall i :: 0 <= i < |limits| ==> limits[i].width > 0
    requires var r := BoostCode(pre, wants, limits, size); Tell8(Run(pre + r.ops)) + r.total + 128 <= 64 * size'
    ensures BoostCode(pre, wants, limits, size') == BoostCode(pre, wants, limits, size)
    decreases |wants|
  {
    hide Run, Tell8, BandCode, Quanta;
    if wants != [] {
      var n := |wants| - 1;
      var r := BoostCode(pre, wants[..n], limits[..n], size);
      var t := BoostCode(pre, wants, limits, size);
      Tell8Prefix(pre, r.ops, t.ops);
      BoostShrink(pre, wants[..n], limits[..n], size, size');
      var b := BandCode(pre + r.ops, wants[n], 0, BoostSlot(r, limits[n], size));
      assert pre + r.ops + b.ops == pre + t.ops;
      BandShrink(pre + r.ops, wants[n], 0, BoostSlot(r, limits[n], size), size');
    }
  }

  /** The encoder keeps the packet, or shrinks it to no less than its minimum. */
  predicate MayShrink(size': int, size: nat, least: int) {
    size' == size || least <= size' <= size
  }

  /** No decision depends on which of the two sizes it was taken for. */
  lemma SideShrink(pre: seq<Op>, w: Wish, f: Frame, size: nat, size': nat)
    requires Wishes(w, f)
    requires var r := SideCode(pre, w, f, size);
             MayShrink(size', size, MinAllowed(Tell8(Run(pre + r.ops)), r.total))
    ensures SideCode(pre, w, f, size') == SideCode(pre, w, f, size)
  {
    hide Run, Tell8, TfCode, BoostCode, IcdfOp;
    if size' != size {
      var tf := TfCode(pre, w.raw, w.select, f, size);
      var pre1 := pre + tf.ops;
      var spread := SpreadCode(pre1, w.spread, size);
      var pre2 := pre1 + spread.ops;
      var boosts := BoostCode(pre2, w.wants, f.limits, size);
      var pre3 := pre2 + boosts.ops;
      var trim := TrimCode(pre3, w.trim, size, boosts.total);
      assert pre3 + trim.ops == pre + SideCode(pre, w, f, size).ops;
      Tell8Grows(pre3, trim.ops);
      Tell8Grows(pre2, boosts.ops);
      Tell8Grows(pre1, spread.ops);
      Tell8Bounds(Run(pre1));
      TfShrink(pre, w.raw, w.select, f, size, size');
      BoostShrink(pre2, w.wants, f.limits, size, size');
    }
  }

  // ---------------------------------------------------------------- a packet determines the side information

  lemma HoldsPrefix(pre: seq<Op>, a: seq<Op>, b: seq<Op>, p: seq<byte>)
    requires a <= b && Holds(Run(pre + b), p)
    ensures Holds(Run(pre + a), p)
  {
    hide Run, Holds;
    assert (pre + b)[..|pre + a|] == pre + a;
    PrefixHolds(pre + b, |pre + a|, p);
  }

  /** Two continuations of one run in one packet begin with the same bit. */
  lemma BitUnique(pre: seq<Op>, x: bool, y: bool, logp: nat, p: seq<byte>)
    requires 1 <= logp <= 23
    requires Holds(Run(pre + [BitOp(x, logp)]), p) && Holds(Run(pre + [BitOp(y, logp)]), p)
    ensures x == y
  {
    hide Run, Holds;
    RunAppend(pre, BitOp(x, logp));
    RunAppend(pre, BitOp(y, logp));
    RunGood(pre);
    NextUnique(Run(pre), BitOp(x, logp), BitOp(y, logp), p);
  }

  lemma IcdfUnique(pre: seq<Op>, icdf: seq<nat>, ftb: nat, j: nat, k: nat, p: seq<byte>)
    requires IcdfTable(icdf, ftb) && IcdfCodes(icdf, j, ftb) && IcdfCodes(icdf, k, ftb)
    requires Holds(Run(pre + [IcdfOp(j, icdf, ftb)]), p) && Holds(Run(pre + [IcdfOp(k, icdf, ftb)]), p)
    ensures j == k
  {
    hide Run, Holds;
    RunAppend(pre, IcdfOp(j, icdf, ftb));
    RunAppend(pre, IcdfOp(k, icdf, ftb));
    RunGood(pre);
    NextUnique(Run(pre), IcdfOp(j, icdf, ftb), IcdfOp(k, icdf, ftb), p);
  }

  lemma {:induction false} TfFlagsUnique(pre: seq<Op>, a: seq<int>, b: seq<int>, transient: bool, budget: int,
                                         p: seq<byte>)
    requires Flags(a) && Flags(b) && |a| == |b|
    requires Holds(Run(pre + TfFlags(pre, a, transient, budget).ops), p)
    requires Holds(Run(pre + TfFlags(pre, b, transient, budget).ops), p)
    ensures TfFlags(pre, a, transient, budget) == TfFlags(pre, b, transient, budget)
    decreases |a|
  {
    hide Run, Holds, BitOp;
    if a != [] {
      var n := |a| - 1;
      var r := TfFlags(pre, a[..n], transient, budget);
      HoldsPrefix(pre, r.ops, TfFlags(pre, a, transient, budget).ops, p);
      HoldsPrefix(pre, TfFlags(pre, b[..n], transient, budget).ops, TfFlags(pre, b, transient, budget).ops, p);
      TfFlagsUnique(pre, a[..n], b[..n], transient, budget, p);
      var logp := TfLogp(n == 0, transient);
      if Run(pre + r.ops).Tell() + logp <= budget {
        assert pre + (r.ops + [BitOp(a[n] != r.curr, logp)]) == pre + r.ops + [BitOp(a[n] != r.curr, logp)];
        assert pre + (r.ops + [BitOp(b[n] != r.curr, logp)]) == pre + r.ops + [BitOp(b[n] != r.curr, logp)];
        BitUnique(pre + r.ops, a[n] != r.curr, b[n] != r.curr, logp, p);
      }
    }
  }

  lemma TfUnique(pre: seq<Op>, a: seq<int>, b: seq<int>, selectA: int, selectB: int, f: Frame, size: nat, p: seq<byte>)
    requires Flags(a) && Flags(b) && Flag(selectA) && Flag(selectB) && |a| == |b| && f.Usable()
    requires Holds(Run(pre + TfCode(pre, a, selectA, f, size).ops), p)
    requires Holds(Run(pre + TfCode(pre, b, selectB, f, size).ops), p)
    ensures TfCode(pre, a, selectA, f, size) == TfCode(pre, b, selectB, f, size)
  {
    hide Run, Holds, BitOp, TfFlags, Resolved;
    var budget := TfBudget(pre, f, size);
    var r := TfFlags(pre, a, f.transient, budget);
    HoldsPrefix(pre, r.ops, TfCode(pre, a, selectA, f, size).ops, p);
    HoldsPrefix(pre, TfFlags(pre, b, f.transient, budget).ops, TfCode(pre, b, selectB, f, size).ops, p);
    TfFlagsUnique(pre, a, b, f.transient, budget, p);
    if SelectCoded(Reserve(pre, f.transient, f.lm, size), f.transient, f.lm, r.changed) {
      assert pre + (r.ops + [BitOp(selectA == 1, 1)]) == pre + r.ops + [BitOp(selectA == 1, 1)];
      assert pre + (r.ops + [BitOp(selectB == 1, 1)]) == pre + r.ops + [BitOp(selectB == 1, 1)];
      BitUnique(pre + r.ops, selectA == 1, selectB == 1, 1, p);
    }
  }

  lemma BandFlag(pre: seq<Op>, want: int, j: nat, b: Slot, p: seq<byte>)
    requires SlotUsable(b) && CanBoost(pre, j, b) && Holds(Run(pre + BandCode(pre, want, j, b).ops), p)
    ensures Holds(Run(pre + Ones(j, b.logp) + [BitOp(j < want, BoostLogp(j, b.logp))]), p)
  {
    hide Run, Holds, BitOp, CanBoost;
    var ops := Ones(j, b.logp) + [BitOp(j < want, BoostLogp(j, b.logp))];
    if j < want {
      BandPrefix(pre, want, j + 1, b);
      assert ops == Ones(j + 1, b.logp);
    }
    HoldsPrefix(pre, ops, BandCode(pre, want, j, b).ops, p);
    assert pre + ops == pre + Ones(j, b.logp) + [BitOp(j < want, BoostLogp(j, b.logp))];
  }

  lemma {:induction false} BandUnique(pre: seq<Op>, wantA: int, wantB: int, j: nat, b: Slot, p: seq<byte>)
    requires SlotUsable(b)
    requires Holds(Run(pre + BandCode(pre, wantA, j, b).ops), p)
    requires Holds(Run(pre + BandCode(pre, wantB, j, b).ops), p)
    ensures BandCode(pre, wantA, j, b) == BandCode(pre, wantB, j, b)
    decreases b.cap - j
  {
    hide Run, Holds, BitOp, Ones, Tell8;
    if CanBoost(pre, j, b) {
      BoostProgress(j, b.quanta);
      BandFlag(pre, wantA, j, b, p);
      BandFlag(pre, wantB, j, b, p);
      BitUnique(pre + Ones(j, b.logp), j < wantA, j < wantB, BoostLogp(j, b.logp), p);
      if j < wantA {
        BandUnique(pre, wantA, wantB, j + 1, b, p);
      }
    }
  }

  lemma {:induction false} BoostUnique(pre: seq<Op>, a: seq<int>, b: seq<int>, limits: seq<Limit>, size: nat,
                                       p: seq<byte>)
    requires |a| == |b| == |limits| && forall i :: 0 <= i < |limits| ==> limits[i].width > 0
    requires Holds(Run(pre + BoostCode(pre, a, limits, size).ops), p)
    requires Holds(Run(pre + BoostCode(pre, b, limits, size).ops), p)
    ensures BoostCode(pre, a, limits, size) == BoostCode(pre, b, limits, size)
    decreases |a|
  {
    hide Run, Holds, BandCode, Quanta;
    if a != [] {
      var n := |a| - 1;
      var r := BoostCode(pre, a[..n], limits[..n], size);
      HoldsPrefix(pre, r.ops, BoostCode(pre, a, limits, size).ops, p);
      HoldsPrefix(pre, BoostCode(pre, b[..n], limits[..n], size).ops, BoostCode(pre, b, limits, size).ops, p);
      BoostUnique(pre, a[..n], b[..n], limits[..n], size, p);
      var slot := BoostSlot(r, limits[n], size);
      assert pre + (r.ops + BandCode(pre + r.ops, a[n], 0, slot).ops)
          == pre + r.ops + BandCode(pre + r.ops, a[n], 0, slot).ops;
      assert pre + (r.ops + BandCode(pre + r.ops, b[n], 0, slot).ops)
          == pre + r.ops + BandCode(pre + r.ops, b[n], 0, slot).ops;
      BandUnique(pre + r.ops, a[n], b[n], 0, slot, p);
    }
  }

  lemma SpreadUnique(pre: seq<Op>, a: nat, b: nat, size: nat, p: seq<byte>)
    requires a < 4 && b < 4
    requires Holds(Run(pre + SpreadCode(pre, a, size).ops), p) && Holds(Run(pre + SpreadCode(pre, b, size).ops), p)
    ensures SpreadCode(pre, a, size) == SpreadCode(pre, b, size)
  {
    hide Run, Holds, IcdfOp;
    IcdfsUsable();
    if Run(pre).Tell() + 4 <= 8 * size {
      IcdfUnique(pre, SPREAD_ICDF, 5, a, b, p);
    }
  }

  lemma TrimUnique(pre: seq<Op>, a: nat, b: nat, size: nat, total: nat, p: seq<byte>)
    requires a < 11 && b < 11
    requires Holds(Run(pre + TrimCode(pre, a, size, total).ops), p)
    requires Holds(Run(pre + TrimCode(pre, b, size, total).ops), p)
    ensures TrimCode(pre, a, size, total) == TrimCode(pre, b, size, total)
  {
    hide Run, Holds, IcdfOp, Tell8;
    IcdfsUsable();
    if Tell8(Run(pre)) + 48 <= 64 * size - total {
      IcdfUnique(pre, TRIM_ICDF, 7, a, b, p);
    }
  }

  /** Two readings of one packet at one place agree on calls and results. */
  lemma SideUnique(pre: seq<Op>, a: Wish, b: Wish, f: Frame, size: nat, p: seq<byte>)
    requires Wishes(a, f) && Wishes(b, f)
    requires Holds(Run(pre + SideCode(pre, a, f, size).ops), p)
    requires Holds(Run(pre + SideCode(pre, b, f, size).ops), p)
    ensures SideCode(pre, a, f, size) == SideCode(pre, b, f, size)
  {
    hide Run, Holds, TfCode, SpreadCode, BoostCode, TrimCode;
    var opsA, opsB := SideCode(pre, a, f, size).ops, SideCode(pre, b, f, size).ops;
    var tf := TfCode(pre, a.raw, a.select, f, size);
    HoldsPrefix(pre, tf.ops, opsA, p);
    HoldsPrefix(pre, TfCode(pre, b.raw, b.select, f, size).ops, opsB, p);
    TfUnique(pre, a.raw, b.raw, a.select, b.select, f, size, p);
    var pre1 := pre + tf.ops;
    var spread := SpreadCode(pre1, a.spread, size);
    Stage(pre, tf.ops, spread.ops, opsA, p);
    Stage(pre, tf.ops, SpreadCode(pre1, b.spread, size).ops, opsB, p);
    SpreadUnique(pre1, a.spread, b.spread, size, p);
    var pre2 := pre1 + spread.ops;
    var boosts := BoostCode(pre2, a.wants, f.limits, size);
    Stage(pre, tf.ops + spread.ops, boosts.ops, opsA, p);
    Stage(pre, tf.ops + spread.ops, BoostCode(pre2, b.wants, f.limits, size).ops, opsB, p);
    assert pre + (tf.ops + spread.ops) == pre2;
    BoostUnique(pre2, a.wants, b.wants, f.limits, size, p);
    var pre3 := pre2 + boosts.ops;
    assert pre + (tf.ops + spread.ops + boosts.ops) == pre3;
    Stage(pre, tf.ops + spread.ops + boosts.ops, TrimCode(pre3, a.trim, size, boosts.total).ops, opsA, p);
    Stage(pre, tf.ops + spread.ops + boosts.ops, TrimCode(pre3, b.trim, size, boosts.total).ops, opsB, p);
    TrimUnique(pre3, a.trim, b.trim, size, boosts.total, p);
  }

  lemma Stage(pre: seq<Op>, done: seq<Op>, next: seq<Op>, all: seq<Op>, p: seq<byte>)
    requires done + next <= all && Holds(Run(pre + all), p)
    ensures Holds(Run(pre + done + next), p)
  {
    hide Run, Holds;
    HoldsPrefix(pre, done + next, all, p);
    assert pre + (done + next) == pre + done + next;
  }
}
