/**
 * What rounding costs the Laplace distribution of celt/laplace.c. Each positive probability of the decaying part
 * takes a guaranteed minimum of one unit; each rounding down gives something back. The tail is what remains.
 */
module LaplaceCost {
  import opened Arith
  import opened LaplacePdf

  const ONE: nat := 0x4000

  /**
   * What rounding down costs along f, f*d/ONE, ...: per positive probability, the minimum unit it adds less
   * the part of a unit its rounding saves, in ONE - d'ths.
   */
  function Cost(f: nat, d: nat): (r: int)
    requires d < ONE
    decreases f
  {
    if f == 0 then 0
    else
      NextSmaller(f, d);
      ONE - d - f * d % ONE + Cost(f * d / ONE, d)
  }

  lemma NextSmaller(f: nat, d: nat)
    requires d < ONE && f > 0
    ensures 0 <= f * d / ONE < f
  {
    MulMono(0, f, d);
    MulMono(d, ONE - 1, f);
    DivBelow(f * d, ONE, f);
    DivMono(0, f * d, ONE);
  }

  /** The units left over, in terms of the cost of the first probability. */
  lemma {:induction false} Account(m: nat, fs0: nat, d: nat)
    requires Params(fs0, d) && d < ONE && 1 <= m <= TailStart(fs0, d)
    ensures (ONE - d) * TailUnits(fs0, d)
         == (ONE - d) * (TOTAL - Fl(m, fs0, d)) - 2 * (ONE * Fs(m, fs0, d) + Cost(Fs(m, fs0, d), d))
    decreases TailStart(fs0, d) - m
  {
    hide TailStart, Cost, Fl, Fs;
    if m < TailStart(fs0, d) {
      Account(m + 1, fs0, d);
      var f := Fs(m, fs0, d);
      FlNext(m, fs0, d);
      FsNext(m, fs0, d);
      CostUnfold(f, d);
      DivMod(f * d, ONE);
      AccountStep(f, d, f * d / ONE, f * d % ONE, TailUnits(fs0, d), TOTAL - Fl(m, fs0, d), Cost(f * d / ONE, d));
    } else {
      CostUnfold(0, d);
    }
  }

  lemma FsNext(m: nat, fs0: nat, d: nat)
    requires Params(fs0, d) && d < ONE && 1 <= m < TailStart(fs0, d)
    ensures Fs(m, fs0, d) > 0 && Fs(m + 1, fs0, d) == Fs(m, fs0, d) * d / ONE
  {
    hide TailStart;
    HalfStep(Fs(m, fs0, d), d);
  }

  lemma CostUnfold(f: nat, d: nat)
    requires d < ONE
    ensures 0 <= f * d / ONE && (f > 0 ==> f * d / ONE < f)
    ensures Cost(f, d) == if f == 0 then 0 else ONE - d - f * d % ONE + Cost(f * d / ONE, d)
  {
    if f > 0 {
      NextSmaller(f, d);
    }
  }

  lemma AccountStep(f: nat, d: nat, g: nat, e: nat, units: int, left: int, cost: int)
    requires d < ONE && f * d == g * ONE + e
    requires (ONE - d) * units == (ONE - d) * (left - 2 * (f + 1)) - 2 * (ONE * g + cost)
    ensures (ONE - d) * units == (ONE - d) * left - 2 * (ONE * f + (ONE - d - e + cost))
  {
    Distribute(ONE - d, left, 2 * (f + 1));
    Distribute(f, ONE, d);
  }

  lemma HalfStep(f: nat, d: nat)
    ensures 2 * f * d / 0x8000 == f * d / ONE
  {
  }

  /** So it is enough that the cost stays below 15 units; the first probability is below ONE - d. */
  lemma EnoughUnits(fs0: nat, d: nat)
    requires Params(fs0, d) && d < ONE
    ensures Fs(1, fs0, d) < ONE - d
    ensures Cost(Fs(1, fs0, d), d) <= 15 * (ONE - d) ==> TailUnits(fs0, d) >= 2
  {
    hide Cost, TailStart, Fs;
    UnitsLeft(fs0, d);
    if TailUnits(fs0, d) < 2 {
      MulMono(TailUnits(fs0, d), 1, ONE - d);
    }
  }

  /** The tail gets the 32 units kept for it less the cost, and no more than one rounding of the mass besides. */
  lemma UnitsLeft(fs0: nat, d: nat)
    requires Params(fs0, d) && d < ONE
    ensures Fs(1, fs0, d) < ONE - d
    ensures (ONE - d) * TailUnits(fs0, d) >= 32 * (ONE - d) - 2 * Cost(Fs(1, fs0, d), d)
    ensures (ONE - d) * TailUnits(fs0, d) < 32 * (ONE - d) - 2 * Cost(Fs(1, fs0, d), d) + 2 * ONE
  {
    hide Cost, TailStart;
    var c, a, f := ONE - d, TOTAL - 2 * NMIN - fs0, Fs(1, fs0, d);
    Account(1, fs0, d);
    FirstProbability(a, c);
    assert f == a * c / 0x8000;
    Distribute(c, a, 32);
  }

  lemma FirstProbability(a: nat, c: nat)
    requires a < 0x8000 && 0 < c
    ensures 0 <= a * c / 0x8000 < c && 0x8000 * (a * c / 0x8000) <= a * c < 0x8000 * (a * c / 0x8000) + 0x8000
  {
    MulMono(0, a, c);
    MulMono(a, 0x7fff, c);
  }

  // ---------------------------------------------------------------- decays up to one half

  /** Each step at least halves, and costs at most one unit. */
  lemma {:induction false} CostOfHalving(f: nat, d: nat)
    requires 2 * d <= ONE
    ensures Cost(f, d) <= (ONE - d) * ILog(f)
    decreases f
  {
    hide ILog;
    if f > 0 {
      NextSmaller(f, d);
      Halves(f, d);
      var g: nat := f * d / ONE;
      CostOfHalving(g, d);
      MulMono(ILog(g), ILog(f) - 1, ONE - d);
      Distribute(ONE - d, ILog(f), 1);
    }
  }

  lemma Halves(f: nat, d: nat)
    requires 2 * d <= ONE && f > 0
    ensures 0 <= f * d / ONE && ILog(f * d / ONE) <= ILog(f) - 1
  {
    MulMono(0, f, d);
    MulMono(2 * d, ONE, f);
    DivMono(0, f * d, ONE);
    assert f * d / ONE <= f / 2;
    ILogMono(f * d / ONE, f / 2);
  }

  lemma {:induction false} ILogMono(a: nat, b: nat)
    requires a <= b
    ensures ILog(a) <= ILog(b)
  {
    if a > 0 {
      ILogMono(a / 2, b / 2);
    }
  }

  lemma HalvingSettled(f: nat, d: nat)
    requires 2 * d <= ONE && f < ONE - d
    ensures Cost(f, d) <= 15 * (ONE - d)
  {
    hide ILog, Pow2;
    CostOfHalving(f, d);
    if f > 0 {
      Pow2Constants();
      ILogBounds(f);
      Pow2Strict(ILog(f) - 1, 15);
    } else {
      ILogMono(0, 1);
      ILogBounds(1);
    }
    MulMono(ILog(f), 15, ONE - d);
  }

  // ---------------------------------------------------------------- decays next to one

  /** With so little to lose per step, every step that loses anything saves more than the unit it costs. */
  lemma {:induction false} CostNearOne(f: nat, d: nat)
    requires d < ONE && (f + 1) * (ONE - d) <= ONE
    ensures Cost(f, d) <= 0
  {
    if f > 0 {
      var c := ONE - d;
      MulMono(0, f, c);
      Distribute(c, f, 1);
      Distribute(f, ONE, c);
      DivModUnique(f * d, ONE, f - 1, ONE - f * c);
      CostNearOne(f - 1, d);
    }
  }

  lemma NearOneSettled(f: nat, d: nat)
    requires ONE - 128 <= d < ONE && f < ONE - d
    ensures Cost(f, d) <= 15 * (ONE - d)
  {
    MulMono(f + 1, 128, ONE - d);
    CostNearOne(f, d);
  }

  // ---------------------------------------------------------------- decays in an interval

  /**
   * What settles the decays lo..hi. Entry f of `caps` bounds the cost from a small probability f. A larger one
   * falls below the next level every `pace` steps, until it enters the upper part of `caps`, bounded by `top`.
   */
  datatype Interval = Interval(lo: nat, hi: nat, top: int, pace: nat, levels: seq<nat>, caps: seq<int>)

  /** Entry f allows for every g that can come next: one unit at most, less what rounding saves, plus entry g. */
  ghost predicate Rows(caps: seq<int>, from: nat, to: nat, lo: nat, hi: nat) {
    && to <= |caps|
    && forall f, g ::
         from <= f < to && 0 <= g < f && f * lo < ONE * (g + 1) && ONE * g <= f * hi ==>
           ONE - lo + caps[g] <= caps[f] || ONE - lo - (f * lo - ONE * g) + caps[g] <= caps[f]
  }

  /** Rows of a table in parts: entries of part fs, at fOff, against those of part gs, at gOff. */
  ghost predicate Block(fs: seq<int>, fOff: nat, gs: seq<int>, gOff: nat, from: nat, to: nat, lo: nat, hi: nat) {
    && from < to <= |fs| && ONE * gOff <= (from + fOff) * lo && (to - 1 + fOff) * hi < ONE * (gOff + |gs|)
    && forall i, j ::
         && from <= i < to && 0 <= j < |gs|
         && (i + fOff) * lo < ONE * (j + gOff + 1) && ONE * (j + gOff) <= (i + fOff) * hi ==>
           ONE - lo + gs[j] <= fs[i] || ONE - lo - ((i + fOff) * lo - ONE * (j + gOff)) + gs[j] <= fs[i]
  }

  lemma BlockRows(caps: seq<int>, fs: seq<int>, fOff: nat, gs: seq<int>, gOff: nat, from: nat, to: nat,
                  lo: nat, hi: nat)
    requires Block(fs, fOff, gs, gOff, from, to, lo, hi)
    requires fOff + |fs| <= |caps| && caps[fOff..fOff + |fs|] == fs
    requires gOff + |gs| <= |caps| && caps[gOff..gOff + |gs|] == gs
    ensures Rows(caps, fOff + from, fOff + to, lo, hi)
  {
    forall f, g | fOff + from <= f < fOff + to && 0 <= g < f && f * lo < ONE * (g + 1) && ONE * g <= f * hi
      ensures ONE - lo + caps[g] <= caps[f] || ONE - lo - (f * lo - ONE * g) + caps[g] <= caps[f]
    {
      MulMono(from + fOff, f, lo);
      MulMono(f, to - 1 + fOff, hi);
      assert fs[f - fOff] == caps[f] && gs[g - gOff] == caps[g];
    }
  }

  /** From below one level, `pace` steps lead below the next. */
  ghost predicate Rungs(levels: seq<nat>, from: nat, to: nat, pace: nat, hi: nat) {
    && to < |levels| && hi < ONE
    && forall i :: from <= i < to ==> Rung(levels[i], levels[i + 1], pace, hi)
  }

  ghost predicate Ladder(levels: seq<nat>, pace: nat, hi: nat) {
    pace > 0 && |levels| > 0 && Rungs(levels, 0, |levels| - 1, pace, hi)
  }

  predicate Rung(level: nat, next: nat, pace: nat, hi: nat)
    requires hi < ONE
  {
    && 0 < next <= level
    && if pace == 1 then (level - 1) * hi < ONE * next
       else (level - next - 1) * ONE < pace * (next * (ONE - hi))
  }

  ghost predicate Caps(caps: seq<int>, lo: nat, hi: nat, top: int) {
    && lo <= hi < ONE && |caps| > 0 && caps[0] == 0
    && (forall x :: 0 <= x < |caps| ==> caps[x] <= 15 * (ONE - hi))
    && (forall x :: 0 <= x < |caps| && |caps| * lo < ONE * (x + 1) ==> caps[x] <= top)
  }

  /** The steps to the table and the top of the table together stay below 15 units. */
  predicate Balanced(steps: nat, top: int, lo: nat, hi: nat) {
    top <= (15 - steps) * (ONE - lo) && top <= (15 - steps) * (ONE - hi)
  }

  ghost predicate Checked(iv: Interval) {
    && Caps(iv.caps, iv.lo, iv.hi, iv.top) && Rows(iv.caps, 1, |iv.caps|, iv.lo, iv.hi)
    && Ladder(iv.levels, iv.pace, iv.hi)
    && iv.levels[0] == ONE - iv.lo && iv.levels[|iv.levels| - 1] <= |iv.caps|
    && 0 <= iv.pace * (|iv.levels| - 1) && Balanced(iv.pace * (|iv.levels| - 1), iv.top, iv.lo, iv.hi)
  }

  lemma {:induction false} RowCovers(iv: Interval, f: nat, d: nat)
    requires Checked(iv) && f < |iv.caps| && iv.lo <= d <= iv.hi
    ensures Cost(f, d) <= iv.caps[f]
  {
    hide Ladder, Balanced;
    if f > 0 {
      NextSmaller(f, d);
      MulMono(iv.lo, d, f);
      MulMono(d, iv.hi, f);
      DivMod(f * d, ONE);
      var g: nat := f * d / ONE;
      RowCovers(iv, g, d);
      assert f * iv.lo < ONE * (g + 1) && ONE * g <= f * iv.hi;
    }
  }

  lemma CostStep(f: nat, d: nat)
    requires d < ONE && f > 0
    ensures 0 <= f * d / ONE < f && Cost(f, d) <= ONE - d + Cost(f * d / ONE, d)
  {
    CostUnfold(f, d);
  }

  /** One step from below a level to below the next. */
  lemma StepBelow(f: nat, d: nat, level: nat, next: nat, hi: nat)
    requires d <= hi < ONE && Rung(level, next, 1, hi) && f < level
    ensures f * d / ONE < next
  {
    MulMono(f, level - 1, d);
    MulMono(d, hi, level - 1);
    MulMono(0, f, d);
    DivBelow(f * d, ONE, next);
  }

  /** How far at least one step goes that starts at `next` or above. */
  function Drop(next: nat, hi: nat): (k: int)
    requires hi < ONE
    ensures ONE * k >= next * (ONE - hi) > ONE * (k - 1)
  {
    (next * (ONE - hi) + ONE - 1) / ONE
  }

  lemma StepDrops(f: nat, d: nat, next: nat, hi: nat)
    requires d <= hi < ONE && f >= next
    ensures f * d / ONE <= f - Drop(next, hi)
  {
    var k := Drop(next, hi);
    MulMono(next, f, ONE - hi);
    MulMono(d, hi, f);
    Distribute(f, ONE, hi);
    Distribute(ONE, f, k - 1);
    MulMono(0, f, d);
    if f > k - 1 {
      DivBelow(f * d, ONE, f - (k - 1));
    } else {
      MulMono(f, k - 1, ONE);
    }
  }

  /** `pace` drops span a rung. */
  lemma Spanned(level: nat, next: nat, pace: nat, hi: nat)
    requires hi < ONE && pace > 1 && Rung(level, next, pace, hi)
    ensures level <= next + pace * Drop(next, hi)
  {
    var k := Drop(next, hi);
    MulMono(next * (ONE - hi), ONE * k, pace);
    MulAssoc(pace, ONE, k);
    if level - next - 1 >= pace * k {
      MulMono(pace * k, level - next - 1, ONE);
    }
  }

  lemma UpperPart(f: nat, d: nat, lo: nat, small: nat)
    requires lo <= d && small <= f
    ensures small * lo < ONE * (f * d / ONE + 1)
  {
    MulMono(small, f, lo);
    MulMono(lo, d, f);
    DivMod(f * d, ONE);
  }

  /** A step that lands in the table lands in its upper part. */
  lemma StepInto(iv: Interval, f: nat, d: nat)
    requires Checked(iv) && iv.lo <= d <= iv.hi && |iv.caps| <= f
    ensures 0 <= f * d / ONE < f && Cost(f, d) <= ONE - d + Cost(f * d / ONE, d)
    ensures f * d / ONE < |iv.caps| ==> Cost(f * d / ONE, d) <= iv.top
  {
    hide Rows, Cost, Ladder, Balanced;
    CostStep(f, d);
    if f * d / ONE < |iv.caps| {
      RowCovers(iv, f * d / ONE, d);
      UpperPart(f, d, iv.lo, |iv.caps|);
    }
  }

  /** The rungs still to go from level i, in steps. */
  function StepsFrom(iv: Interval, i: nat): (n: nat)
    requires i < |iv.levels|
  {
    MulMono(0, |iv.levels| - 1 - i, iv.pace);
    (|iv.levels| - 1 - i) * iv.pace
  }

  lemma NextRung(iv: Interval, i: nat)
    requires i + 1 < |iv.levels|
    ensures StepsFrom(iv, i) == StepsFrom(iv, i + 1) + iv.pace
  {
    Distribute(iv.pace, |iv.levels| - 2 - i, 1);
  }

  /** Outside the table every step costs at most one unit, so the cost is bounded by the steps there are. */
  lemma {:induction false} Descend(iv: Interval, i: nat, f: nat, d: nat)
    requires Checked(iv) && iv.lo <= d <= iv.hi && i < |iv.levels| && |iv.caps| <= f < iv.levels[i]
    ensures Cost(f, d) <= StepsFrom(iv, i) * (ONE - d) + iv.top
    decreases |iv.levels| - i, 0
  {
    hide Rows, Cost, Caps, Rung, Balanced, StepsFrom;
    assert i + 1 < |iv.levels|;
    assert Rung(iv.levels[i], iv.levels[i + 1], iv.pace, iv.hi);
    NextRung(iv, i);
    if iv.pace == 1 {
      StepInto(iv, f, d);
      StepBelow(f, d, iv.levels[i], iv.levels[i + 1], iv.hi);
      if f * d / ONE >= |iv.caps| {
        Descend(iv, i + 1, f * d / ONE, d);
      }
      OneMore(StepsFrom(iv, i + 1), ONE - d);
    } else {
      Spanned(iv.levels[i], iv.levels[i + 1], iv.pace, iv.hi);
      Within(iv, i, iv.pace, f, d);
    }
  }

  /** With x steps of the rung to level i + 1 left. */
  lemma {:induction false} Within(iv: Interval, i: nat, x: nat, f: nat, d: nat)
    requires Checked(iv) && iv.lo <= d <= iv.hi && i + 1 < |iv.levels| && |iv.caps| <= f
    requires f < iv.levels[i + 1] + x * Drop(iv.levels[i + 1], iv.hi)
    ensures Cost(f, d) <= (StepsFrom(iv, i + 1) + x) * (ONE - d) + iv.top
    decreases |iv.levels| - i - 1, 1 + x
  {
    hide Rows, Cost, Caps, Rung, Balanced, StepsFrom, Drop;
    var next := iv.levels[i + 1];
    if f < next {
      Descend(iv, i + 1, f, d);
      MulMono(StepsFrom(iv, i + 1), StepsFrom(iv, i + 1) + x, ONE - d);
    } else {
      StepInto(iv, f, d);
      StepDrops(f, d, next, iv.hi);
      Distribute(Drop(next, iv.hi), x, 1);
      if f * d / ONE >= |iv.caps| {
        Within(iv, i, x - 1, f * d / ONE, d);
      }
      OneMore(StepsFrom(iv, i + 1) + (x - 1), ONE - d);
    }
  }

  lemma OneMore(n: nat, c: nat)
    ensures 0 <= n * c && (n + 1) * c == n * c + c
  {
    MulMono(0, n, c);
    Distribute(c, n, 1);
  }

  lemma BalancedInside(steps: nat, top: int, lo: nat, hi: nat, d: nat)
    requires lo <= d <= hi < ONE && Balanced(steps, top, lo, hi)
    ensures steps * (ONE - d) + top <= 15 * (ONE - d)
  {
    var left := 15 - steps;
    if left >= 0 {
      MulMono(ONE - hi, ONE - d, left);
    } else {
      MulMono(ONE - d, ONE - lo, -left);
    }
    Distribute(ONE - d, left, steps);
  }

  /** A checked record settles every decay of its interval. */
  lemma IntervalSettled(iv: Interval, f: nat, d: nat)
    requires Checked(iv) && iv.lo <= d <= iv.hi && f < ONE - d
    ensures Cost(f, d) <= 15 * (ONE - d)
  {
    hide Rows, Cost, Balanced;
    if f < |iv.caps| {
      RowCovers(iv, f, d);
    } else {
      Descend(iv, 0, f, d);
      BalancedInside(StepsFrom(iv, 0), iv.top, iv.lo, iv.hi, d);
    }
  }
}
