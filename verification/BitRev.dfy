/** compute_bitrev_table() of celt/kiss_fft.c: the mixed-radix digit reversal. */
module BitRev {
  import opened Arith
  import opened KissFft

  // ---------------------------------------------------------------- digit reversal

  /** The index whose digits, least significant first, are those of value v, most significant first. */
  function Inv(v: nat, fs: seq<nat>): (k: nat)
    requires Positive(fs)
    decreases |fs|
  {
    if fs == [] then 0
    else
      var m := Product(fs[1..]);
      ProductAtLeast(fs[1..]);
      DivMono(0, v, m);
      MulMono(0, fs[0], Inv(v % m, fs[1..]));
      v / m + fs[0] * Inv(v % m, fs[1..])
  }

  /** The table entry at index k. */
  function Rev(k: nat, fs: seq<nat>): (v: nat)
    requires Positive(fs)
    decreases |fs|
  {
    if fs == [] then 0
    else
      MulMono(0, k % fs[0], Product(fs[1..]));
      k % fs[0] * Product(fs[1..]) + Rev(k / fs[0], fs[1..])
  }

  /** Digits in the mixed radix of fs. */
  predicate Digits(ds: seq<nat>, fs: seq<nat>) {
    |ds| == |fs| && forall i :: 0 <= i < |ds| ==> ds[i] < fs[i]
  }

  /** The number with these digits, the first one least significant. */
  function FirstLow(ds: seq<nat>, fs: seq<nat>): (k: nat)
    requires Digits(ds, fs)
    decreases |ds|
  {
    if ds == [] then 0
    else
      MulMono(0, fs[0], FirstLow(ds[1..], fs[1..]));
      ds[0] + fs[0] * FirstLow(ds[1..], fs[1..])
  }

  /** The number with these digits, the last one least significant. */
  function LastLow(ds: seq<nat>, fs: seq<nat>): (v: nat)
    requires Digits(ds, fs) && Positive(fs)
  {
    if ds == [] then 0
    else
      var n := |ds| - 1;
      MulMono(0, LastLow(ds[..n], fs[..n]), fs[n]);
      LastLow(ds[..n], fs[..n]) * fs[n] + ds[n]
  }

  /** The place of a value has its digits in the opposite order. */
  lemma {:induction false} RevDigits(ds: seq<nat>, fs: seq<nat>)
    requires Digits(ds, fs) && Positive(fs)
    ensures Rev(FirstLow(ds, fs), fs) == LastLow(ds, fs)
    decreases |ds|
  {
    hide Product;
    if ds != [] {
      var k := FirstLow(ds[1..], fs[1..]);
      DivModUnique(FirstLow(ds, fs), fs[0], k, ds[0]);
      RevDigits(ds[1..], fs[1..]);
      LastLowFirst(ds, fs);
    }
  }

  /** The first digit stands for the product of the radices after it. */
  lemma {:induction false} LastLowFirst(ds: seq<nat>, fs: seq<nat>)
    requires Digits(ds, fs) && Positive(fs) && ds != []
    ensures LastLow(ds, fs) == ds[0] * Product(fs[1..]) + LastLow(ds[1..], fs[1..])
    decreases |ds|
  {
    hide Product;
    var n := |ds| - 1;
    if n == 0 {
      ProductUnfold(fs[1..]);
    } else {
      LastLowFirst(ds[..n], fs[..n]);
      assert ds[..n][1..] == ds[1..][..n - 1] && fs[..n][1..] == fs[1..][..n - 1];
      var rest := fs[..n][1..];
      assert fs[1..] == rest + [fs[n]];
      ProductConcat(rest, [fs[n]]);
      ProductSingle(fs[n]);
      NextDigit(ds[0], Product(rest), LastLow(ds[..n][1..], rest), fs[n]);
    }
  }

  lemma NextDigit(d: nat, m: nat, b: nat, p: nat)
    ensures (d * m + b) * p == d * (m * p) + b * p
  {
    Distribute(p, d * m, b);
    MulAssoc(d, m, p);
  }

  lemma {:induction false} InvBelow(v: nat, fs: seq<nat>)
    requires Positive(fs) && v < Product(fs)
    ensures Inv(v, fs) < Product(fs)
    decreases |fs|
  {
    hide Product;
    ProductUnfold(fs);
    if fs != [] {
      var m := Product(fs[1..]);
      DivBelow(v, m, fs[0]);
      InvBelow(v % m, fs[1..]);
      Gap(fs[0], Inv(v % m, fs[1..]), m);
    }
  }

  lemma ProductUnfold(fs: seq<nat>)
    requires Positive(fs)
    ensures fs == [] ==> Product(fs) == 1
    ensures fs != [] ==> Product(fs) == fs[0] * Product(fs[1..]) && Product(fs[1..]) >= 1
  {
    if fs != [] {
      ProductAtLeast(fs[1..]);
    }
  }

  lemma {:induction false} RevBelow(k: nat, fs: seq<nat>)
    requires Positive(fs) && k < Product(fs)
    ensures Rev(k, fs) < Product(fs)
    decreases |fs|
  {
    hide Product;
    ProductUnfold(fs);
    if fs != [] {
      var p, m := fs[0], Product(fs[1..]);
      DivBelow(k, p, m);
      RevBelow(k / p, fs[1..]);
      Gap(m, k % p, p);
    }
  }

  lemma InvDigits(v: nat, fs: seq<nat>)
    requires Positive(fs) && fs != [] && v < Product(fs)
    ensures var p, m := fs[0], Product(fs[1..]);
            && v % m < m && 0 <= v / m
            && Inv(v, fs) % p == v / m && Inv(v, fs) / p == Inv(v % m, fs[1..])
  {
    hide Product;
    ProductUnfold(fs);
    var p, m := fs[0], Product(fs[1..]);
    DivBelow(v, m, p);
    DivMod(v, m);
    DivModUnique(Inv(v, fs), p, Inv(v % m, fs[1..]), v / m);
  }

  lemma {:induction false} RevInv(v: nat, fs: seq<nat>)
    requires Positive(fs) && v < Product(fs)
    ensures Rev(Inv(v, fs), fs) == v
    decreases |fs|
  {
    hide Product, Inv;
    ProductUnfold(fs);
    if fs != [] {
      InvDigits(v, fs);
      RevInv(v % Product(fs[1..]), fs[1..]);
      DivMod(v, Product(fs[1..]));
    }
  }

  lemma {:induction false} InvRev(k: nat, fs: seq<nat>)
    requires Positive(fs) && k < Product(fs)
    ensures Inv(Rev(k, fs), fs) == k
    decreases |fs|
  {
    hide Product;
    ProductUnfold(fs);
    if fs != [] {
      var p, m := fs[0], Product(fs[1..]);
      DivBelow(k, p, m);
      InvRev(k / p, fs[1..]);
      RevBelow(k / p, fs[1..]);
      DivMod(k, p);
      DivModUnique(Rev(k, fs), m, k % p, Rev(k / p, fs[1..]));
    }
  }

  /** Every value below n once. */
  predicate Permutation(s: seq<int>) {
    && (forall i :: 0 <= i < |s| ==> 0 <= s[i] < |s|)
    && (forall i, j :: 0 <= i < j < |s| ==> s[i] != s[j])
    && (forall v :: 0 <= v < |s| ==> v in s)
  }

  /** A table that holds v at Inv(v) for every v is the digit reversal, and a permutation. */
  lemma TableIsReversal(s: seq<int>, fs: seq<nat>)
    requires Positive(fs) && |s| == Product(fs)
    requires forall v :: 0 <= v < |s| ==> 0 <= Inv(v, fs) < |s| && s[Inv(v, fs)] == v
    ensures forall k :: 0 <= k < |s| ==> s[k] == Rev(k, fs)
    ensures Permutation(s)
  {
    hide Inv, Rev, Product;
    forall k | 0 <= k < |s| ensures s[k] == Rev(k, fs) && 0 <= s[k] < |s| && Inv(s[k], fs) == k {
      RevBelow(k, fs);
      InvRev(k, fs);
      assert s[Inv(Rev(k, fs), fs)] == Rev(k, fs);
    }
    forall v | 0 <= v < |s| ensures v in s {
      assert s[Inv(v, fs)] == v;
    }
  }

  // ---------------------------------------------------------------- the recursive writer

  /** The k-th of the places a call owns. */
  function Slot(pos: nat, step: nat, k: nat): (x: nat)
  {
    MulMono(0, step, k);
    pos + step * k
  }

  /** The places written so far, in order: the i-th is the one value i belongs to. */
  predicate Logged(log: seq<nat>, pos: nat, step: nat, fs: seq<nat>)
    requires Positive(fs)
  {
    |log| <= Product(fs) && forall i :: 0 <= i < |log| ==> log[i] == Slot(pos, step, Inv(i, fs))
  }

  /** The j-th subtransform writes what comes next in the order of values. */
  lemma SubLog(log: seq<nat>, sub: seq<nat>, pos: nat, step: nat, fs: seq<nat>, j: nat)
    requires fs != [] && Positive(fs) && j < fs[0] && Logged(log, pos, step, fs)
    requires |log| == j * Product(fs[1..]) && |sub| == Product(fs[1..])
    requires 0 <= step * j && 0 <= step * fs[0] && Logged(sub, pos + step * j, step * fs[0], fs[1..])
    ensures Logged(log + sub, pos, step, fs) && |log + sub| == (j + 1) * Product(fs[1..])
  {
    hide Product, Slot;
    ProductUnfold(fs);
    var m := Product(fs[1..]);
    Distribute(m, j, 1);
    MulMono(j + 1, fs[0], m);
    forall i | j * m <= i < (j + 1) * m ensures sub[i - j * m] == Slot(pos, step, Inv(i, fs)) {
      SubSlot(i, pos, step, fs, j);
    }
  }

  lemma SubSlot(i: nat, pos: nat, step: nat, fs: seq<nat>, j: nat)
    requires fs != [] && Positive(fs) && j * Product(fs[1..]) <= i < (j + 1) * Product(fs[1..])
    requires 0 <= step * j && 0 <= step * fs[0]
    ensures Slot(pos + step * j, step * fs[0], Inv(i - j * Product(fs[1..]), fs[1..])) == Slot(pos, step, Inv(i, fs))
  {
    hide Product;
    ProductUnfold(fs);
    var m, p := Product(fs[1..]), fs[0];
    Distribute(m, j, 1);
    DivModUnique(i, m, j, i - j * m);
    var r := Inv(i - j * m, fs[1..]);
    assert Inv(i, fs) == j + p * r;
    Distribute(step, j, p * r);
    MulAssoc(step, p, r);
  }

  /** No place is written twice. */
  lemma LogDistinct(log: seq<nat>, pos: nat, step: nat, fs: seq<nat>, i: nat, j: nat)
    requires Positive(fs) && Logged(log, pos, step, fs) && step > 0 && i < j < |log|
    ensures log[i] != log[j]
  {
    hide Inv, Rev, Product;
    RevInv(i, fs);
    RevInv(j, fs);
    var a, b := Inv(i, fs), Inv(j, fs);
    if a < b {
      Gap(step, a, b);
    } else if b < a {
      Gap(step, b, a);
    }
  }

  /** The j-th subtransform stays inside the places of the whole. */
  lemma SubFits(pos: nat, step: nat, p: nat, m: nat, j: nat, length: nat)
    requires step > 0 && m >= 1 && j < p && 0 <= step * j && 0 <= step * p && 1 <= p * m
    requires pos + step * (p * m - 1) < length
    ensures pos + step * j + step * p * (m - 1) < length
  {
    MulMono(j, p - 1, step);
    Distribute(step, p - 1, p * (m - 1));
    MulAssoc(step, p, m - 1);
    Distribute(p, m, 1);
    assert p - 1 + p * (m - 1) == p * m - 1;
  }

  /**
   * Values fout, fout + 1, ... go one each to the places pos, pos + step, ... in digit-reversed order; nothing
   * else is touched.
   */
  method ComputeBitrevTable(fout: int, f: array<int>, pos: nat, fstride: nat, inStride: nat,
                            factors: array<int>, at: nat, ghost fs: seq<nat>) returns (ghost log: seq<nat>)
    requires f != factors && fs != [] && Positive(fs) && at <= factors.Length && Chain(factors[at..], fs)
    requires fstride > 0 && inStride > 0 && pos + fstride * inStride * (Product(fs) - 1) < f.Length
    modifies f
    ensures |log| == Product(fs) && 0 <= fstride * inStride && Logged(log, pos, fstride * inStride, fs)
    ensures forall i :: 0 <= i < |log| ==> log[i] < f.Length && f[log[i]] == fout + i
    ensures forall x :: 0 <= x < f.Length && x !in log ==> f[x] == old(f[x])
    decreases |fs|, 1
  {
    hide Product, Inv, Slot, Logged;
    var p, m := factors[at], factors[at + 1];
    ProductUnfold(fs);
    ProductUnfold(fs[1..]);
    StepPositive(fstride, inStride, p);
    if m == 1 {
      log := WriteLeaves(fout, f, pos, fstride * inStride, p, fs);
    } else {
      log := WriteSubtables(fout, f, pos, fstride, inStride, factors, at, fs);
    }
  }

  lemma StepPositive(fstride: nat, inStride: nat, p: nat)
    requires fstride > 0 && inStride > 0 && p > 0
    ensures fstride * inStride > 0 && fstride * p > 0
    ensures 0 <= fstride * inStride * p && fstride * p * inStride == fstride * inStride * p
  {
    MulMono(1, fstride, inStride);
    MulMono(1, fstride, p);
    MulMono(1, fstride * inStride, p);
    MulAssoc(fstride, p, inStride);
  }

  /** The last stage: m is 1. */
  method WriteLeaves(fout: int, f: array<int>, pos: nat, step: nat, p: nat, ghost fs: seq<nat>)
    returns (ghost log: seq<nat>)
    requires fs != [] && Positive(fs) && p == fs[0] && Product(fs[1..]) == 1
    requires step > 0 && pos + step * (Product(fs) - 1) < f.Length
    modifies f
    ensures |log| == Product(fs) && Logged(log, pos, step, fs)
    ensures forall i :: 0 <= i < |log| ==> log[i] < f.Length && f[log[i]] == fout + i
    ensures forall x :: 0 <= x < f.Length && x !in log ==> f[x] == old(f[x])
  {
    hide Product, Inv, Logged;
    ProductUnfold(fs);
    LogEmpty(pos, step, fs);
    log := [];
    var at, j := pos, 0;
    MulMono(0, step, 0);
    while j < p
      invariant 0 <= j <= p && |log| == j && 0 <= step * j && at == pos + step * j && Logged(log, pos, step, fs)
      invariant forall i :: 0 <= i < j ==> log[i] < at && log[i] < f.Length && f[log[i]] == fout + i
      invariant forall x :: 0 <= x < f.Length && x !in log ==> f[x] == old(f[x])
    {
      LeafLogged(log, pos, step, fs);
      MulMono(j, p - 1, step);
      Distribute(step, j, 1);
      f[at] := fout + j;
      log := log + [at];
      at := at + step;
      j := j + 1;
    }
  }

  lemma LeafLogged(log: seq<nat>, pos: nat, step: nat, fs: seq<nat>)
    requires fs != [] && Positive(fs) && Product(fs[1..]) == 1 && |log| < fs[0] && Logged(log, pos, step, fs)
    ensures 0 <= step * |log| && Logged(log + [pos + step * |log|], pos, step, fs)
  {
    hide Product, Inv;
    LeafValue(|log|, fs);
    MulMono(0, step, |log|);
  }

  lemma LeafValue(j: nat, fs: seq<nat>)
    requires fs != [] && Positive(fs) && Product(fs[1..]) == 1 && j < fs[0]
    ensures Inv(j, fs) == j && Product(fs) == fs[0]
  {
    hide Product;
    ProductUnfold(fs);
    InvBelow(0, fs[1..]);
    assert Inv(j % 1, fs[1..]) == 0;
  }

  /** A stage with further stages below it. */
  method WriteSubtables(fout: int, f: array<int>, pos: nat, fstride: nat, inStride: nat,
                        factors: array<int>, at: nat, ghost fs: seq<nat>) returns (ghost log: seq<nat>)
    requires f != factors && |fs| > 1 && Positive(fs) && at <= factors.Length && Chain(factors[at..], fs)
    requires fstride > 0 && inStride > 0 && pos + fstride * inStride * (Product(fs) - 1) < f.Length
    modifies f
    ensures |log| == Product(fs) && 0 <= fstride * inStride && Logged(log, pos, fstride * inStride, fs)
    ensures forall i :: 0 <= i < |log| ==> log[i] < f.Length && f[log[i]] == fout + i
    ensures forall x :: 0 <= x < f.Length && x !in log ==> f[x] == old(f[x])
    decreases |fs|, 0
  {
    hide Product, Inv, Slot, Logged;
    var p, m := factors[at], factors[at + 1];
    var value, place, j := fout, pos, 0;
    var step := fstride * inStride;
    ProductUnfold(fs);
    StepPositive(fstride, inStride, p);
    MulMono(0, step, 0);
    LogEmpty(pos, step, fs);
    log := [];
    while j < p
      invariant 0 <= j <= p && |log| == j * m && 0 <= step * j && place == pos + step * j && value == fout + j * m
      invariant Logged(log, pos, step, fs)
      invariant forall i :: 0 <= i < |log| ==> log[i] < f.Length && f[log[i]] == fout + i
      invariant forall x :: 0 <= x < f.Length && x !in log ==> f[x] == old(f[x])
    {
      SubFits(pos, step, p, m, j, f.Length);
      ChainRest(factors[at..], fs);
      assert factors[at..][2..] == factors[at + 2..];
      label before:
      ghost var sub := ComputeBitrevTable(value, f, place, fstride * p, inStride, factors, at + 2, fs[1..]);
      SubLog(log, sub, pos, step, fs, j);
      ghost var both := log + sub;
      forall i | 0 <= i < |log| ensures f[log[i]] == fout + i {
        forall k | 0 <= k < |sub| ensures log[i] != sub[k] {
          LogDistinct(both, pos, step, fs, i, |log| + k);
        }
      }
      log := both;
      Distribute(step, j, 1);
      Distribute(m, j, 1);
      place := place + step;
      value := value + m;
      j := j + 1;
    }
  }

  lemma LogEmpty(pos: nat, step: nat, fs: seq<nat>)
    requires Positive(fs)
    ensures Logged([], pos, step, fs)
  {
  }

  lemma ChainRest(fb: seq<int>, fs: seq<nat>)
    requires fs != [] && Chain(fb, fs)
    ensures Chain(fb[2..], fs[1..])
  {
    forall i | 0 <= i < |fs| - 1
      ensures fb[2..][2 * i] == fs[1..][i] && fb[2..][2 * i + 1] == Product(fs[1..][i + 1..])
    {
      assert fb[2 * (i + 1)] == fs[i + 1] && fb[2 * (i + 1) + 1] == Product(fs[i + 1 + 1..]);
      assert fs[1..][i + 1..] == fs[i + 1 + 1..];
    }
  }

  lemma NotEmpty(n: nat)
    requires n >= 1 && Product(Stages(n)) == n
    ensures Stages(n) != []
  {
  }

  /** The whole table, written with step 1 from place 0: every place is in the log. */
  lemma TableFilled(s: seq<int>, log: seq<nat>, fs: seq<nat>)
    requires Positive(fs) && |s| == |log| == Product(fs) && Logged(log, 0, 1, fs)
    requires forall i :: 0 <= i < |log| ==> log[i] < |s| && s[log[i]] == i
    ensures Permutation(s) && forall k :: 0 <= k < |s| ==> s[k] == Rev(k, fs)
    ensures forall k :: 0 <= k < |s| ==> k in log
  {
    hide Product, Inv, Rev, Permutation;
    forall v | 0 <= v < |s| ensures 0 <= Inv(v, fs) < |s| && s[Inv(v, fs)] == v {
      assert log[v] == Slot(0, 1, Inv(v, fs));
    }
    TableIsReversal(s, fs);
    forall k | 0 <= k < |s| ensures k in log {
      RevBelow(k, fs);
      InvRev(k, fs);
      assert log[Rev(k, fs)] == Slot(0, 1, Inv(Rev(k, fs), fs));
    }
  }

  /** How the transform's state is set up: factor the length, then fill the table. */
  method InitTables(nfft: nat, factors: array<int>, bitrev: array<int>) returns (ok: bool, ghost log: seq<nat>)
    requires nfft >= 1 && bitrev.Length == nfft && factors != bitrev && 2 * |Stages(nfft)| <= factors.Length
    modifies factors, bitrev
    ensures ok <==> Smooth(nfft)
    ensures ok ==> Positive(Stages(nfft)) && Permutation(bitrev[..])
                   && forall k :: 0 <= k < nfft ==> bitrev[k] == Rev(k, Stages(nfft))
    ensures ok ==> |log| == nfft && forall k :: 0 <= k < nfft ==> k in log
  {
    hide Smooth, Greedy, Stages, Product, Inv, Rev, Slot, Logged;
    log := [];
    ok := KfFactor(nfft, factors);
    if ok {
      ghost var fs := Stages(nfft);
      assert factors[0..] == factors[..];
      StagesMultiply(nfft);
      NotEmpty(nfft);
      log := ComputeBitrevTable(0, bitrev, 0, 1, 1, factors, 0, fs);
      TableFilled(bitrev[..], log, fs);
    }
  }
}
