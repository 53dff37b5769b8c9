/** The table-driven pulse coder of celt/cwrs.c. */
module PvqTable {
  import opened Arith
  import opened Pvq

  type u32 = x: int | 0 <= x < 0x1_0000_0000

  /** CELT_PVQ_U_ROW[lo][hi]: the table holds only the half with the smaller index first. */
  function Row(lo: nat, hi: nat): (u: u32)
    requires lo <= hi && U(lo, hi) < 0x1_0000_0000
  {
    U(lo, hi)
  }

  /** CELT_PVQ_U(n, k) */
  function UTable(n: nat, k: nat): (u: u32)
    requires U(n, k) < 0x1_0000_0000
    ensures u == U(n, k)
  {
    USymmetric(n, k);
    if n <= k then Row(n, k) else Row(k, n)
  }

  /** Conversion to opus_int16. */
  function Int16(x: int): (y: int)
    ensures -0x8000 <= y < 0x8000 && (-0x8000 <= x < 0x8000 ==> y == x)
  {
    (x + 0x8000) % 0x1_0000 - 0x8000
  }

  /** The entries a codebook below 2^32 makes the coder touch are themselves below 2^32. */
  lemma EntryFits(n: nat, k: nat, m: nat, l: nat)
    requires 0 < n <= m && k <= l && V(m, l) < 0x1_0000_0000
    ensures U(n, k) < 0x1_0000_0000 && U(n, k + 1) < 0x1_0000_0000
  {
    VMono(n, k, m, l);
  }

  lemma {:induction false} PulsesSuffix(y: seq<int>, j: nat)
    requires j <= |y|
    ensures Pulses(y[j..]) <= Pulses(y)
  {
    if j > 0 {
      assert y[1..][j - 1..] == y[j..];
      PulsesSuffix(y[1..], j - 1);
    }
  }

  /** icwrs(): the index of a vector, summed from its last component to its first. */
  method Icwrs(y: seq<int>) returns (i: u32)
    requires |y| >= 2 && V(|y|, Pulses(y)) < 0x1_0000_0000
    ensures i == Rank(y)
  {
    hide U;
    var n := |y|;
    var j := n - 1;
    LastRank(y);
    PulsesSuffix(y, j);
    i := if y[j] < 0 then 1 else 0;
    var k := Abs(y[j]);
    while j > 0
      invariant j < n && k == Pulses(y[j..]) && i == Rank(y[j..]) && k <= Pulses(y)
    {
      j := j - 1;
      assert y[j..][1..] == y[j + 1..];
      PulsesSuffix(y, j);
      EntryFits(n - j, k, n, Pulses(y));
      EntryFits(n - j, k + Abs(y[j]), n, Pulses(y));
      RankStays(y, j);
      i := i + UTable(n - j, k);
      k := k + Abs(y[j]);
      if y[j] < 0 {
        i := i + UTable(n - j, k + 1);
      }
    }
    assert y[0..] == y;
  }

  lemma LastRank(y: seq<int>)
    requires |y| >= 1
    ensures Rank(y[|y| - 1..]) == if y[|y| - 1] < 0 then 1 else 0
    ensures Pulses(y[|y| - 1..]) == Abs(y[|y| - 1])
  {
    var s := y[|y| - 1..];
    assert s[1..] == [];
    UOne(1);
    if s[0] < 0 {
      ULine(Pulses(s));
    }
  }

  /** Partial sums of the index never exceed the codebook size. */
  lemma RankStays(y: seq<int>, j: nat)
    requires j < |y|
    ensures Rank(y[j..]) < V(|y|, Pulses(y))
  {
    RankFits(y[j..]);
    PulsesSuffix(y, j);
    VMono(|y| - j, Pulses(y[j..]), |y|, Pulses(y));
  }

  /** What decoding one component of index i must produce. */
  ghost predicate Decoded(n: nat, k: nat, i: nat, val: int, k': nat, i': nat)
    requires n > 0
  {
    var j := Folded(n, k, i);
    && k' == Locate(n, k, j) && i' == j - U(n, k')
    && val == if i >= U(n, k + 1) then k' - k else k - k'
  }

  /** (x ^ s) - s for a sign mask s: negate when the mask is set. */
  function Signed(negative: bool, x: int): (r: int) {
    if negative then -x else x
  }

  /** One component when there are at least as many pulses as dimensions. */
  method StepPulses(n: nat, k: nat, i: u32) returns (val: int, k': nat, i': u32)
    requires 2 < n <= k && i < V(n, k) < 0x1_0000_0000
    ensures Decoded(n, k, i, val, k', i')
  {
    hide U, Locate;
    EntryFits(n, k, n, k);
    var p := Row(n, k + 1);
    var negative := i >= p;
    i' := if negative then i - p else i;
    k' := k;
    EntryFits(n, n, n, k);
    var q := Row(n, n);
    if q > i' {
      k' := n - 1;
      EntryFits(n, k', n, k);
      USymmetric(n, k');
      p := Row(k', n);
      UOne(n);
      while p > i'
        invariant k' < n && p == U(n, k') && i' < U(n, k' + 1)
        decreases k'
      {
        k' := k' - 1;
        EntryFits(n, k', n, k);
        USymmetric(n, k');
        p := Row(k', n);
      }
    } else {
      p := Row(n, k');
      while p > i'
        invariant n <= k' <= k && p == U(n, k') && (k' < k ==> i' < U(n, k' + 1))
        decreases k'
      {
        k' := k' - 1;
        EntryFits(n, k', n, k);
        p := Row(n, k');
      }
    }
    LocateUnique(n, k, i', k');
    i' := i' - p;
    val := Signed(negative, k - k');
  }

  /** One component when there are more dimensions than pulses. */
  method StepDims(n: nat, k: nat, i: u32) returns (val: int, k': nat, i': u32)
    requires 2 < n && k < n && i < V(n, k) < 0x1_0000_0000
    ensures Decoded(n, k, i, val, k', i')
  {
    hide U, Locate;
    EntryFits(n, k, n, k);
    USymmetric(n, k);
    USymmetric(n, k + 1);
    UOne(n);
    var p, q := Row(k, n), Row(k + 1, n);
    if p <= i < q {
      LocateUnique(n, k, i, k);
      val, k', i' := 0, k, i - p;
    } else {
      var negative := i >= q;
      i' := if negative then i - q else i;
      assert k > 0 && i' < U(n, k);
      k' := k - 1;
      EntryFits(n, k', n, k);
      USymmetric(n, k');
      p := Row(k', n);
      while p > i'
        invariant k' < k && p == U(n, k') && i' < U(n, k' + 1)
        decreases k'
      {
        k' := k' - 1;
        EntryFits(n, k', n, k);
        USymmetric(n, k');
        p := Row(k', n);
      }
      LocateUnique(n, k, i', k');
      i' := i' - p;
      val := Signed(negative, k - k');
    }
  }

  /** The second to last component, in closed form: U(2, k) = 2k - 1. */
  method StepTwo(k: nat, i: u32) returns (val: int, k': nat, i': u32)
    requires i < V(2, k) < 0x1_0000_0000
    ensures Decoded(2, k, i, val, k', i')
  {
    hide U, Locate;
    UOdd(k);
    UMono(2, k, k + 1);
    var p := 2 * k + 1;
    var negative := i >= p;
    i' := if negative then i - p else i;
    k' := (i' + 1) / 2;
    OddColumn(k, i', k');
    if k' != 0 {
      i' := i' - (2 * k' - 1);
    }
    val := Signed(negative, k - k');
  }

  lemma OddColumn(k: nat, i: nat, r: nat)
    requires r == (i + 1) / 2 && i < U(2, k + 1)
    ensures r <= k && Locate(2, k, i) == r && U(2, r) == if r == 0 then 0 else 2 * r - 1
  {
    hide U, Locate;
    UOdd(k);
    UOdd(r);
    UOne(2);
    if r > 0 {
      UOdd(r - 1);
    }
    LocateUnique(2, k, i, r);
  }

  /** The last component takes all remaining pulses; the index is its sign. */
  lemma LastComponent(k: nat, i: nat)
    requires i < V(1, k)
    ensures i <= 1 && Unrank(1, k, i) == [Signed(i == 1, k)]
  {
    ULine(k);
    UOne(1);
    if k > 0 {
      ULine(k - 1);
    }
    UnrankStep(1, k, i);
    var j := Folded(1, k, i);
    LocateUnique(1, k, j, 0);
  }

  /** The two components the loop of cwrsi() leaves. */
  method LastTwo(n0: nat, ghost k0: nat, k: nat, i: u32, y: array<int>, sum: int, ghost full: seq<int>)
    returns (yy: int)
    requires 2 <= n0 == |full| <= y.Length && k <= k0 == Pulses(full)
    requires i < V(2, k) < 0x1_0000_0000 && full[n0 - 2..] == Unrank(2, k, i)
    requires forall j :: 0 <= j < n0 - 2 ==> y[j] == Int16(full[j])
    modifies y
    ensures forall j :: 0 <= j < n0 ==> y[j] == Int16(full[j])
    ensures k0 < 0x8000 ==> yy == sum + Energy(full[n0 - 2..])
  {
    hide U, Unrank, V, Decoded, Int16, Energy;
    var val: int, k': nat, i': u32;
    val, k', i' := StepTwo(k, i);
    Advance(full, n0, k0, 2, k, i, val, k', i');
    y[n0 - 2] := Int16(val);
    yy := sum + Int16(val) * Int16(val);
    LastComponent(k', i');
    val := Signed(i' == 1, k');
    EnergyLast(full, n0);
    ComponentBound(full, n0 - 1);
    y[n0 - 1] := Int16(val);
    yy := yy + Int16(val) * Int16(val);
  }

  /** cwrsi(): the vector at index i, and the sum of its squares. Components pass through a 16-bit variable. */
  method Cwrsi(n0: nat, k0: nat, i0: u32, y: array<int>) returns (yy: int)
    requires n0 > 1 && k0 > 0 && i0 < V(n0, k0) < 0x1_0000_0000 && n0 <= y.Length
    modifies y
    ensures forall j :: 0 <= j < n0 ==> y[j] == Int16(Unrank(n0, k0, i0)[j])
    ensures k0 < 0x8000 ==> y[..n0] == Unrank(n0, k0, i0) && yy == Energy(Unrank(n0, k0, i0))
  {
    hide U, Unrank, V, Decoded, Energy;
    var n: nat, k: nat, i: u32 := n0, k0, i0;
    ghost var full := Unrank(n0, k0, i0);
    yy := 0;
    assert full[0..] == full;
    while n > 2
      invariant 2 <= n <= n0 && k <= k0 && i < V(n, k) < 0x1_0000_0000
      invariant full[n0 - n..] == Unrank(n, k, i)
      invariant forall j :: 0 <= j < n0 - n ==> y[j] == Int16(full[j])
      invariant k0 < 0x8000 ==> yy + Energy(full[n0 - n..]) == Energy(full)
    {
      var val: int, k': nat, i': u32;
      if k >= n {
        val, k', i' := StepPulses(n, k, i);
      } else {
        val, k', i' := StepDims(n, k, i);
      }
      Advance(full, n0, k0, n, k, i, val, k', i');
      y[n0 - n] := Int16(val);
      yy := yy + Int16(val) * Int16(val);
      n, k, i := n - 1, k', i';
    }
    yy := LastTwo(n0, k0, k, i, y, yy, full);
    if k0 < 0x8000 {
      Exact16(full);
      assert y[..n0] == full;
    }
  }

  lemma Exact16(y: seq<int>)
    requires Pulses(y) < 0x8000
    ensures forall j :: 0 <= j < |y| ==> Int16(y[j]) == y[j]
  {
    forall j | 0 <= j < |y| ensures Int16(y[j]) == y[j] {
      ComponentBound(y, j);
    }
  }

  /** The loop step of cwrsi() on the remaining suffix of the vector. */
  lemma Advance(full: seq<int>, n0: nat, k0: nat, n: nat, k: nat, i: nat, val: int, k': nat, i': nat)
    requires 1 <= n <= n0 == |full| && k <= k0 && Pulses(full) == k0
    requires i < V(n, k) < 0x1_0000_0000 && full[n0 - n..] == Unrank(n, k, i)
    requires Decoded(n, k, i, val, k', i')
    ensures k' <= k && i' < V(n - 1, k') < 0x1_0000_0000
    ensures val == full[n0 - n] && full[n0 - n + 1..] == Unrank(n - 1, k', i')
    ensures Energy(full[n0 - n..]) == val * val + Energy(full[n0 - n + 1..])
    ensures k0 < 0x8000 ==> Int16(val) == val
  {
    hide U, V, Unrank, Locate;
    UnrankStep(n, k, i);
    if n > 1 {
      VMono(n - 1, k', n, k);
    } else {
      EmptyHasNoPulses(k');
    }
    ComponentBound(full, n0 - n);
    var s := full[n0 - n..];
    assert s[1..] == full[n0 - n + 1..];
    EnergyStep(s);
  }

  lemma EnergyStep(s: seq<int>)
    requires s != []
    ensures Energy(s) == s[0] * s[0] + Energy(s[1..])
  {
  }

  lemma EnergyLast(full: seq<int>, n0: nat)
    requires n0 >= 1 && |full| == n0
    ensures Energy(full[n0 - 1..]) == full[n0 - 1] * full[n0 - 1]
  {
    assert full[n0 - 1..][1..] == [];
  }

  lemma {:induction false} UQuadratic(k: nat)
    ensures U(3, k + 1) == 2 * (k * k) + 2 * k + 1
  {
    UOdd(k);
    if k == 0 {
      UOne(3);
    } else {
      UQuadratic(k - 1);
      UOdd(k - 1);
      assert (k - 1) * (k - 1) == k * k - 2 * k + 1;
    }
  }

  /**
   * The 16-bit component variable is the one limit below 2^32 codewords: two dimensions admit more than
   * 32767 pulses, and exactly then some codeword does not decode.
   */
  lemma Int16Exact(n: nat, k: nat)
    requires n > 1 && k > 0 && V(n, k) < 0x1_0000_0000
    ensures k < 0x8000 <==>
            forall i, j :: 0 <= i < V(n, k) && 0 <= j < n ==> Int16(Unrank(n, k, i)[j]) == Unrank(n, k, i)[j]
  {
    hide U, Unrank;
    if k < 0x8000 {
      forall i, j | 0 <= i < V(n, k) && 0 <= j < n ensures Int16(Unrank(n, k, i)[j]) == Unrank(n, k, i)[j] {
        Exact16(Unrank(n, k, i));
      }
    } else {
      if n > 2 {
        VMono(3, k, n, k);
        UQuadratic(k);
        UMono(3, 0x8001, k + 1);
        UQuadratic(0x8000);
        UQuadratic(0x7fff);
        UMono(3, 0x8000, k);
        assert false;
      }
      UOdd(k);
      UOne(2);
      assert 0 < V(2, k);
      UnrankStep(2, k, 0);
      OddColumn(k, 0, 0);
      assert Unrank(n, k, 0)[0] == k;
    }
  }
}
