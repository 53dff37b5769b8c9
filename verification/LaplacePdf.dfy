/** The probabilities of celt/laplace.c: a decaying part, then a flat tail of single units. */
module LaplacePdf {
  import opened Arith
  import opened Window

  const TOTAL: nat := 0x8000
  const NMIN: nat := 16

  /** What the callers guarantee: a codable zero, and a decay for which the probabilities fall. */
  predicate Params(fs0: nat, decay: nat) {
    0 < fs0 <= TOTAL - 2 * NMIN && 0 < decay <= 0x4000
  }

  /** ec_laplace_get_freq1() */
  function Freq1(fs0: nat, decay: nat): (r: nat)
    requires Params(fs0, decay)
  {
    NonNegative(TOTAL - 2 * NMIN - fs0, 0x4000 - decay);
    (TOTAL - 2 * NMIN - fs0) * (0x4000 - decay) / 0x8000
  }

  /** Probability of each sign of magnitude m, less the guaranteed minimum of one. */
  function Fs(m: nat, fs0: nat, decay: nat): (r: nat)
    requires Params(fs0, decay) && m >= 1
  {
    if m == 1 then Freq1(fs0, decay) else 2 * Fs(m - 1, fs0, decay) * decay / 0x8000
  }

  /** Cumulative frequency at which magnitude m starts. */
  function Fl(m: nat, fs0: nat, decay: nat): (r: nat)
    requires Params(fs0, decay) && m >= 1
  {
    if m == 1 then fs0 else Fl(m - 1, fs0, decay) + 2 * Fs(m - 1, fs0, decay) + 2
  }

  lemma FsFalls(m: nat, fs0: nat, decay: nat)
    requires Params(fs0, decay) && m >= 1
    ensures Fs(m + 1, fs0, decay) <= Fs(m, fs0, decay)
    ensures Fs(m, fs0, decay) > 0 ==> Fs(m + 1, fs0, decay) < Fs(m, fs0, decay)
  {
    var fs := Fs(m, fs0, decay);
    if decay == 0x4000 {
      FlatFrom(m, fs0, decay);
    } else {
      MulMono(decay, 0x3fff, 2 * fs);
    }
  }

  lemma {:induction false} FlatFrom(m: nat, fs0: nat, decay: nat)
    requires Params(fs0, decay) && m >= 1 && decay == 0x4000
    ensures Fs(m, fs0, decay) == 0 && Fs(m + 1, fs0, decay) == 0
  {
    if m > 1 {
      FlatFrom(m - 1, fs0, decay);
    }
  }

  /** The first magnitude of the flat tail, searched from m. */
  function Horizon(m: nat, fs0: nat, decay: nat): (h: nat)
    requires Params(fs0, decay) && m >= 1
    ensures h >= m && Fs(h, fs0, decay) == 0
    ensures forall k :: m <= k < h ==> Fs(k, fs0, decay) > 0
    decreases Fs(m, fs0, decay)
  {
    FsFalls(m, fs0, decay);
    if Fs(m, fs0, decay) == 0 then m else Horizon(m + 1, fs0, decay)
  }

  function TailStart(fs0: nat, decay: nat): (h: nat)
    requires Params(fs0, decay)
    ensures h >= 1 && Fs(h, fs0, decay) == 0
    ensures forall k :: 1 <= k < h ==> Fs(k, fs0, decay) > 0
  {
    Horizon(1, fs0, decay)
  }

  /** Units of probability left for the tail. */
  function TailUnits(fs0: nat, decay: nat): (r: int)
    requires Params(fs0, decay)
  {
    TOTAL - Fl(TailStart(fs0, decay), fs0, decay)
  }

  lemma {:induction false} FlGrows(m: nat, k: nat, fs0: nat, decay: nat)
    requires Params(fs0, decay) && 1 <= m <= k
    ensures Fl(m, fs0, decay) + 2 * (k - m) <= Fl(k, fs0, decay)
  {
    if m < k {
      FlGrows(m, k - 1, fs0, decay);
    }
  }

  lemma FlFirst(fs0: nat, decay: nat)
    requires Params(fs0, decay)
    ensures Fl(1, fs0, decay) == fs0
  {
  }

  lemma FlNext(m: nat, fs0: nat, decay: nat)
    requires Params(fs0, decay) && m >= 1
    ensures Fl(m + 1, fs0, decay) == Fl(m, fs0, decay) + 2 * (Fs(m, fs0, decay) + 1)
  {
  }
}
