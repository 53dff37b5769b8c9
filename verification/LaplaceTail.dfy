/**
 * The tail of the Laplace distribution never runs short: for every probability of zero and every decay, the
 * decaying part leaves at least two units.
 */
module LaplaceTail {
  import opened Arith
  import opened LaplacePdf
  import opened LaplaceCost
  import opened LaplaceCaps

  /** No cost ever exceeds 15 of the 16 units that are kept for each sign. */
  lemma CostSettled(f: nat, d: nat)
    requires d < ONE && f < ONE - d
    ensures Cost(f, d) <= 15 * (ONE - d)
  {
    hide Cost, Checked;
    if 2 * d <= ONE {
      HalvingSettled(f, d);
    } else if d >= ONE - 128 {
      NearOneSettled(f, d);
    } else {
      IntervalSettled(Covering(d), f, d);
    }
  }

  /** For every probability of zero and every decay, two tail units are left. */
  lemma TailNeverShort(fs0: nat, decay: nat)
    requires Params(fs0, decay)
    ensures TailUnits(fs0, decay) >= 2
  {
    hide Cost;
    if decay == ONE {
      FlatTail(fs0, decay);
    } else {
      EnoughUnits(fs0, decay);
      CostSettled(Fs(1, fs0, decay), decay);
    }
  }

  /** A positive probability never costs more than its unit. */
  lemma {:induction false} CostCounts(m: nat, fs0: nat, decay: nat)
    requires Params(fs0, decay) && decay < ONE && 1 <= m <= TailStart(fs0, decay)
    ensures Cost(Fs(m, fs0, decay), decay) <= (ONE - decay) * (TailStart(fs0, decay) - m)
    decreases TailStart(fs0, decay) - m
  {
    hide TailStart, Fl;
    var k := TailStart(fs0, decay) - m;
    if k > 0 {
      CostCounts(m + 1, fs0, decay);
      CostStep(Fs(m, fs0, decay), decay);
      HalfStep(Fs(m, fs0, decay), decay);
      Distribute(ONE - decay, k, 1);
    }
  }

  /** Each decaying magnitude takes at most two units of the 32 that are kept. */
  lemma UnitsPerMagnitude(fs0: nat, decay: nat)
    requires Params(fs0, decay)
    ensures TailUnits(fs0, decay) >= 2 * NMIN + 2 - 2 * TailStart(fs0, decay)
  {
    hide Cost, TailStart, Fs;
    if decay < ONE {
      UnitsLeft(fs0, decay);
      CostCounts(1, fs0, decay);
      ManyUnits(ONE - decay, TailStart(fs0, decay), TailUnits(fs0, decay), Cost(Fs(1, fs0, decay), decay));
    } else {
      FlatTail(fs0, decay);
    }
  }

  /** At a decay of one half per sign the tail starts at once. */
  lemma FlatTail(fs0: nat, decay: nat)
    requires Params(fs0, decay) && decay == ONE
    ensures TailStart(fs0, decay) == 1 && TailUnits(fs0, decay) >= 2 * NMIN
  {
    FlatFrom(1, fs0, decay);
    FlFirst(fs0, decay);
  }

  lemma ManyUnits(c: nat, h: nat, units: int, cost: int)
    requires c > 0 && h >= 1 && c * units >= 32 * c - 2 * cost && cost <= c * (h - 1)
    ensures units >= 34 - 2 * h
  {
    var bound: int := 33 - 2 * h;
    if units <= bound {
      MulMono(units, bound, c);
      Distribute(c, 33, 2 * h);
      Distribute(c, h, 1);
    }
  }
}
