/**
 * The pyramid vector codebook of celt/cwrs.c: all integer vectors of n components whose absolute values add
 * up to k, ranked through the recurrence U(n, k).
 */
module Pvq {
  import opened Arith

  function U(n: nat, k: nat): (r: nat)
    decreases n + k
  {
    if n == 0 && k == 0 then 1
    else if n == 0 || k == 0 then 0
    else U(n - 1, k) + U(n, k - 1) + U(n - 1, k - 1)
  }

  /** The size of the codebook. */
  function V(n: nat, k: nat): (r: nat) {
    U(n, k) + U(n, k + 1)
  }

  function Pulses(y: seq<int>): (r: nat) {
    if y == [] then 0 else Abs(y[0]) + Pulses(y[1..])
  }

  function Energy(y: seq<int>): (r: nat) {
    if y == [] then 0 else Abs(y[0]) * Abs(y[0]) + Energy(y[1..])
  }

  // ---------------------------------------------------------------- the recurrence

  lemma {:induction false} USymmetric(n: nat, k: nat)
    ensures U(n, k) == U(k, n)
    decreases n + k
  {
    if n != 0 && k != 0 {
      USymmetric(n - 1, k);
      USymmetric(n, k - 1);
      USymmetric(n - 1, k - 1);
    }
  }

  /** Column steps of U count the codebook of one dimension less. */
  lemma UStep(n: nat, k: nat)
    requires n > 0
    ensures U(n, k + 1) == U(n, k) + V(n - 1, k)
  {
  }

  lemma {:induction false} UMono(n: nat, k: nat, l: nat)
    requires n > 0 && k <= l
    ensures U(n, k) <= U(n, l)
    decreases l
  {
    if k < l {
      UMono(n, k, l - 1);
      UStep(n, l - 1);
    }
  }

  lemma UOne(n: nat)
    requires n > 0
    ensures U(n, 0) == 0 && U(n, 1) == 1
    decreases n
  {
    if n > 1 {
      UOne(n - 1);
    } else {
      assert U(1, 1) == U(0, 1) + U(1, 0) + U(0, 0);
    }
  }

  lemma {:induction false} ULine(k: nat)
    ensures U(1, k + 1) == 1
  {
    if k == 0 {
      UOne(1);
    } else {
      ULine(k - 1);
    }
  }

  lemma {:induction false} UOdd(k: nat)
    ensures U(2, k + 1) == 2 * k + 1
  {
    ULine(k);
    if k == 0 {
      UOne(2);
    } else {
      UOdd(k - 1);
      ULine(k - 1);
    }
  }

  /** Every table entry used for a smaller codebook is bounded by the largest codebook. */
  lemma {:induction false} VMono(n: nat, k: nat, m: nat, l: nat)
    requires n <= m && k <= l && 0 < n
    ensures V(n, k) <= V(m, l)
    decreases m
  {
    UMono(n, k, l);
    UMono(n, k + 1, l + 1);
    if n < m {
      VMono(n, l, m - 1, l);
      UMono(m, l, l + 1);
      UStep(m, l);
      assert U(m, l + 1) >= V(m - 1, l);
    }
  }

  // ---------------------------------------------------------------- ranking

  /** The position of a vector in the codebook of its length and pulse count. */
  function Rank(y: seq<int>): (r: nat) {
    if y == [] then 0
    else
      var rest := y[1..];
      Rank(rest) + U(|y|, Pulses(rest)) + if y[0] < 0 then U(|y|, Pulses(y) + 1) else 0
  }

  /** The pulses left after the first component: the r with U(n, r) <= i < U(n, r + 1), searched from k down. */
  function Locate(n: nat, k: nat, i: nat): (r: nat)
    requires n > 0
    ensures r <= k && U(n, r) <= i && (r < k ==> i < U(n, r + 1))
  {
    if k == 0 || U(n, k) <= i then k else Locate(n, k - 1, i)
  }

  lemma LocateUnique(n: nat, k: nat, i: nat, r: nat)
    requires n > 0 && r <= k && U(n, r) <= i && (r < k ==> i < U(n, r + 1))
    ensures Locate(n, k, i) == r
  {
    var q := Locate(n, k, i);
    if q < r {
      UMono(n, q + 1, r);
    } else if r < q {
      UMono(n, r + 1, q);
    }
  }

  /** Index i without its sign half. */
  function Folded(n: nat, k: nat, i: nat): (j: nat) {
    if i >= U(n, k + 1) then i - U(n, k + 1) else i
  }

  lemma FoldedFits(n: nat, k: nat, i: nat)
    requires n > 0 && i < V(n, k)
    ensures var j, r := Folded(n, k, i), Locate(n, k, Folded(n, k, i));
            && j - U(n, r) < V(n - 1, r)
            && (i >= U(n, k + 1) ==> r < k)
  {
    var j := Folded(n, k, i);
    UStep(n, Locate(n, k, j));
  }

  /** The vector at position i. */
  function Unrank(n: nat, k: nat, i: nat): (y: seq<int>)
    requires i < V(n, k)
    ensures |y| == n && Pulses(y) == k
  {
    if n == 0 then
      EmptyHasNoPulses(k);
      []
    else
      FoldedFits(n, k, i);
      var j := Folded(n, k, i);
      var r := Locate(n, k, j);
      var y := [if i >= U(n, k + 1) then r - k else k - r] + Unrank(n - 1, r, j - U(n, r));
      assert y[1..] == Unrank(n - 1, r, j - U(n, r));
      y
  }

  lemma EmptyHasNoPulses(k: nat)
    requires V(0, k) > 0
    ensures k == 0 && V(0, k) == 1
  {
  }

  lemma VEmpty()
    ensures V(0, 0) == 1
  {
  }

  // ---------------------------------------------------------------- the bijection

  lemma {:induction false} RankFits(y: seq<int>)
    ensures Rank(y) < V(|y|, Pulses(y))
  {
    hide U;
    VEmpty();
    if y != [] {
      var rest := y[1..];
      var n, k, q := |y|, Pulses(y), Pulses(rest);
      RankFits(rest);
      UStep(n, q);
      UMono(n, q + 1, k + 1);
      if y[0] < 0 {
        UMono(n, q + 1, k);
      }
    }
  }

  /** Decoding a vector's index gives the vector back. */
  lemma {:induction false} UnrankRank(y: seq<int>)
    ensures Rank(y) < V(|y|, Pulses(y))
    ensures Unrank(|y|, Pulses(y), Rank(y)) == y
  {
    hide U, V;
    RankFits(y);
    if y != [] {
      var rest := y[1..];
      RankFits(rest);
      UnrankRank(rest);
      FoldRank(y);
      assert y == [y[0]] + rest;
    }
  }

  lemma RankParts(y: seq<int>)
    requires y != []
    ensures Pulses(y) == Abs(y[0]) + Pulses(y[1..])
    ensures Rank(y) == Rank(y[1..]) + U(|y|, Pulses(y[1..])) + if y[0] < 0 then U(|y|, Pulses(y) + 1) else 0
  {
  }

  /** Folding the sign half away and locating the column recovers the first component. */
  lemma FoldRank(y: seq<int>)
    requires y != []
    ensures var n, k, q := |y|, Pulses(y), Pulses(y[1..]);
            && (Rank(y) >= U(n, k + 1) <==> y[0] < 0)
            && Folded(n, k, Rank(y)) == Rank(y[1..]) + U(n, q)
            && Locate(n, k, Folded(n, k, Rank(y))) == q
  {
    hide U, Locate, Rank, Pulses;
    var n, k, q := |y|, Pulses(y), Pulses(y[1..]);
    var j := Rank(y[1..]) + U(n, q);
    RankParts(y);
    RankFits(y[1..]);
    UStep(n, q);
    assert U(n, q) <= j < U(n, q + 1) && k == Abs(y[0]) + q;
    UMono(n, q + 1, k + 1);
    if y[0] < 0 {
      UMono(n, q + 1, k);
    }
    LocateUnique(n, k, j, q);
  }

  /** Every index below the codebook size is the index of exactly the vector it decodes to. */
  lemma {:induction false} RankUnrank(n: nat, k: nat, i: nat)
    requires i < V(n, k)
    ensures Rank(Unrank(n, k, i)) == i
  {
    hide U, V, Locate;
    if n == 0 {
      EmptyHasNoPulses(k);
    } else {
      FoldedFits(n, k, i);
      var j := Folded(n, k, i);
      var r := Locate(n, k, j);
      var y := Unrank(n, k, i);
      assert y[1..] == Unrank(n - 1, r, j - U(n, r));
      RankUnrank(n - 1, r, j - U(n, r));
    }
  }

  /** The order of one component: positive before negative, and of one sign the larger magnitude first. */
  predicate Before(a: int, b: int) {
    (a >= 0 && b < 0) || ((a < 0 <==> b < 0) && Abs(a) > Abs(b))
  }

  /** Ranks order the codebook lexicographically: the first component that differs decides. */
  lemma {:induction false} RankOrder(y: seq<int>, z: seq<int>, j: nat)
    requires |y| == |z| && Pulses(y) == Pulses(z) && j < |y| && y[..j] == z[..j] && Before(y[j], z[j])
    ensures Rank(y) < Rank(z)
    decreases |y|
  {
    hide U, Rank, Pulses, Locate, Folded, Before;
    var n, q, r := |y|, Pulses(y[1..]), Pulses(z[1..]);
    RankParts(y);
    RankParts(z);
    if j > 0 {
      assert y[0] == y[..j][0] == z[..j][0] == z[0];
      assert y[1..][..j - 1] == y[..j][1..] == z[..j][1..] == z[1..][..j - 1];
      RankOrder(y[1..], z[1..], j - 1);
    } else {
      FoldRank(y);
      FoldRank(z);
      FirstDecides(y[0], z[0], q, r, Pulses(y));
      if q < r {
        RankFits(y[1..]);
        UStep(n, q);
        UMono(n, q + 1, r);
      }
    }
  }

  lemma FirstDecides(a: int, b: int, q: nat, r: nat, k: nat)
    requires Before(a, b) && k == Abs(a) + q == Abs(b) + r
    ensures (a >= 0 && b < 0) || (q < r && (a < 0 <==> b < 0))
  {
  }

  /** Decoding one component: its sign half, its column, and what is left for the rest. */
  lemma UnrankStep(n: nat, k: nat, i: nat)
    requires n > 0 && i < V(n, k)
    ensures var j, r := Folded(n, k, i), Locate(n, k, Folded(n, k, i));
            && 0 <= j - U(n, r) < V(n - 1, r)
            && Unrank(n, k, i) == [if i >= U(n, k + 1) then r - k else k - r] + Unrank(n - 1, r, j - U(n, r))
  {
    FoldedFits(n, k, i);
  }

  lemma {:induction false} ComponentBound(y: seq<int>, j: nat)
    requires j < |y|
    ensures Abs(y[j]) <= Pulses(y)
  {
    if j > 0 {
      ComponentBound(y[1..], j - 1);
    }
  }
}
