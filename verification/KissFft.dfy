/** kf_factor() of celt/kiss_fft.c: the radices of a mixed-radix transform. */
module KissFft {
  import opened Arith

  function Product(fs: seq<nat>): (p: nat)
  {
    if fs == [] then 1 else
      MulMono(0, fs[0], Product(fs[1..]));
      fs[0] * Product(fs[1..])
  }

  lemma {:induction false} ProductConcat(a: seq<nat>, b: seq<nat>)
    ensures Product(a + b) == Product(a) * Product(b)
  {
    if a == [] {
      assert a + b == b;
    } else {
      ProductConcat(a[1..], b);
      assert (a + b)[1..] == a[1..] + b;
      MulAssoc(a[0], Product(a[1..]), Product(b));
    }
  }

  lemma ProductSingle(x: nat)
    ensures Product([x]) == x
  {
    assert Product([x][1..]) == 1;
  }

  predicate Radix(p: nat) {
    p == 2 || p == 3 || p == 4 || p == 5
  }

  predicate Radices(fs: seq<nat>) {
    forall i :: 0 <= i < |fs| ==> Radix(fs[i])
  }

  /** The radices, or the single stage of radix 1 of a transform of length 1. */
  predicate Positive(fs: seq<nat>) {
    forall i :: 0 <= i < |fs| ==> fs[i] >= 1
  }

  lemma {:induction false} ProductAtLeast(fs: seq<nat>)
    requires Positive(fs)
    ensures Product(fs) >= 1
  {
    if fs != [] {
      ProductAtLeast(fs[1..]);
      MulMono(1, fs[0], Product(fs[1..]));
    }
  }

  // ---------------------------------------------------------------- what can be factored

  /** Fours first, then at most one two, threes, fives. */
  function Greedy(n: nat): (fs: seq<nat>)
    requires n >= 1
    ensures Radices(fs)
  {
    if n % 4 == 0 then [4] + Greedy(n / 4)
    else if n % 2 == 0 then [2] + Greedy(n / 2)
    else if n % 3 == 0 then [3] + Greedy(n / 3)
    else if n % 5 == 0 then [5] + Greedy(n / 5)
    else []
  }

  /** What the greedy choice leaves over. */
  function Cofactor(n: nat): (c: nat)
    requires n >= 1
    ensures 1 <= c <= n && c % 2 != 0 && c % 3 != 0 && c % 5 != 0
  {
    if n % 4 == 0 then Cofactor(n / 4)
    else if n % 2 == 0 then Cofactor(n / 2)
    else if n % 3 == 0 then Cofactor(n / 3)
    else if n % 5 == 0 then Cofactor(n / 5)
    else n
  }

  /** The radix taken first, or 1 when none divides. */
  function First(n: nat): (p: nat)
    requires n >= 1
    ensures p == 1 || Radix(p)
    ensures n % p == 0
  {
    if n % 4 == 0 then 4 else if n % 2 == 0 then 2 else if n % 3 == 0 then 3 else if n % 5 == 0 then 5 else 1
  }

  lemma GreedyStep(n: nat)
    requires n >= 1
    ensures 1 <= n / First(n) && n == First(n) * (n / First(n)) && (First(n) > 1 ==> n / First(n) < n)
    ensures Greedy(n) == if First(n) == 1 then [] else [First(n)] + Greedy(n / First(n))
    ensures Cofactor(n) == if First(n) == 1 then n else Cofactor(n / First(n))
  {
  }

  lemma {:induction false} GreedyProduct(n: nat)
    requires n >= 1
    ensures Product(Greedy(n)) * Cofactor(n) == n
    decreases n
  {
    hide Greedy, Cofactor, First;
    GreedyStep(n);
    var p, m := First(n), n / First(n);
    if p > 1 {
      GreedyProduct(m);
      assert ([p] + Greedy(m))[1..] == Greedy(m);
      MulAssoc(p, Product(Greedy(m)), Cofactor(m));
    }
  }

  /** No prime but 2, 3 and 5 divides n. */
  predicate Smooth(n: nat) {
    forall d: nat :: 1 < d && d <= n && n % d == 0 ==> d % 2 == 0 || d % 3 == 0 || d % 5 == 0
  }

  lemma Expand(p: nat, a: nat, i: nat, k: nat, b: nat, j: nat)
    requires k == b * p + j
    ensures (a * p + i) * k == p * (a * k + i * b) + i * j
  {
    Distribute(k, a * p, i);
    Distribute(i, b * p, j);
    MulAssoc(p, a, k);
    MulAssoc(p, i, b);
    Distribute(p, a * k, i * b);
  }

  /** Euclid's lemma for the primes 2, 3 and 5. */
  lemma Coprime(d: nat, k: nat, p: nat, m: nat)
    requires (p == 2 || p == 3 || p == 5) && d % p != 0 && d * k == p * m
    ensures k % p == 0
  {
    DivMod(d, p);
    DivMod(k, p);
    CoprimeParts(d / p, d % p, k / p, k % p, p, m);
  }

  lemma CoprimeParts(a: nat, i: nat, b: nat, j: nat, p: nat, m: nat)
    requires (p == 2 || p == 3 || p == 5) && 0 < i < p && j < p && 0 <= a * p + i && 0 <= b * p + j
    requires (a * p + i) * (b * p + j) == p * m
    ensures j == 0
  {
    if j != 0 {
      MulMono(0, b, p);
      var k: nat := b * p + j;
      Expand(p, a, i, k, b, j);
      Distribute(p, m, a * k + i * b);
      SmallProduct(p, i, j, m - (a * k + i * b));
    }
  }

  lemma SmallProduct(p: nat, i: nat, j: nat, q: int)
    requires (p == 2 || p == 3 || p == 5) && 0 < i < p && 0 < j < p
    ensures i * j != p * q
  {
    if p == 5 {
      assert i == 1 || i == 2 || i == 3 || i == 4;
    }
  }

  /** A divisor without the primes 2, 3 and 5 survives every division. */
  lemma {:induction false} DividesCofactor(n: nat, d: nat, k: nat) returns (q: nat)
    requires n >= 1 && n == d * k && d % 2 != 0 && d % 3 != 0 && d % 5 != 0
    ensures Cofactor(n) == d * q
    decreases n
  {
    hide Greedy, Cofactor, First;
    GreedyStep(n);
    q := k;
    if First(n) == 4 {
      HalfTwice(n);
      q := Cancel(n, d, k, 2);
      q := Cancel(n / 2, d, q, 2);
    } else if First(n) > 1 {
      q := Cancel(n, d, k, First(n));
    }
    if First(n) > 1 {
      q := DividesCofactor(n / First(n), d, q);
    }
  }

  lemma HalfTwice(n: nat)
    requires n % 4 == 0
    ensures n % 2 == 0 && n / 2 % 2 == 0 && n / 2 / 2 == n / 4
  {
    var q := n / 4;
    DivModUnique(n, 2, 2 * q, 0);
    DivModUnique(2 * q, 2, q, 0);
  }

  lemma Cancel(n: nat, d: nat, k: nat, p: nat) returns (q: nat)
    requires (p == 2 || p == 3 || p == 5) && n == d * k && n % p == 0 && d % p != 0
    ensures 0 <= n / p && n / p == d * q
  {
    q := Cancelled(n, n / p, d, k, p);
  }

  lemma Cancelled(n: nat, m: nat, d: nat, k: nat, p: nat) returns (q: nat)
    requires (p == 2 || p == 3 || p == 5) && n == d * k == p * m && d % p != 0
    ensures m == d * q
  {
    Coprime(d, k, p, m);
    q := k / p;
    DivMod(k, p);
    MulAssoc(d, q, p);
    DivModUnique(n, p, d * q, 0);
    DivModUnique(n, p, m, 0);
  }

  /** The greedy choice leaves nothing over exactly when 2, 3 and 5 are the only primes of n. */
  lemma FactorsExactly(n: nat)
    requires n >= 1
    ensures Cofactor(n) == 1 <==> Smooth(n)
  {
    hide Greedy, Cofactor;
    if Cofactor(n) == 1 {
      forall d: nat | 1 < d && d <= n && n % d == 0 ensures d % 2 == 0 || d % 3 == 0 || d % 5 == 0 {
        if d % 2 != 0 && d % 3 != 0 && d % 5 != 0 {
          DivMod(n, d);
          var q := DividesCofactor(n, d, n / d);
          if q == 0 || q > 1 {
            MulMono(2, d, q);
          }
        }
      }
    } else {
      GreedyProduct(n);
      Multiple(Product(Greedy(n)), Cofactor(n));
    }
  }

  lemma OddQuotient(n: nat, q: nat, p: nat)
    requires n == p * q && n % 2 != 0
    ensures q % 2 != 0
  {
    if q % 2 == 0 {
      MulAssoc(p, 2, q / 2);
    }
  }

  /** A four goes first when it can, and anything else leaves an odd number. */
  lemma FirstLeavesOdd(n: nat)
    requires n >= 1
    ensures n % 4 == 0 ==> First(n) == 4
    ensures n % 2 != 0 ==> First(n) != 2
    ensures First(n) != 4 || n % 2 != 0 ==> n / First(n) % 2 != 0
  {
    hide Greedy, Cofactor;
    GreedyStep(n);
    var m := n / First(n);
    if n % 2 != 0 {
      OddQuotient(n, m, First(n));
    } else if n % 4 != 0 {
      DivMod(m, 2);
    }
  }

  /** 3^k */
  function Pow3(k: nat): (p: nat)
    ensures p >= 1
  {
    if k == 0 then 1 else 3 * Pow3(k - 1)
  }

  /** A two occurs at most once, so k factors make at least 2 * 3^(k-1). */
  lemma {:induction false} ManyFactors(n: nat)
    requires n >= 1
    ensures Greedy(n) != [] ==> Product(Greedy(n)) >= 2 * Pow3(|Greedy(n)| - 1)
    ensures n % 2 != 0 ==> Product(Greedy(n)) >= Pow3(|Greedy(n)|)
    decreases n
  {
    hide Greedy, Cofactor, First;
    GreedyStep(n);
    var p, m := First(n), n / First(n);
    if p > 1 {
      ManyFactors(m);
      var rest := Greedy(m);
      assert ([p] + rest)[1..] == rest;
      FirstLeavesOdd(n);
      MulMono(if p == 2 then 2 else 3, p, Product(rest));
    }
  }

  /** Eight stages are enough for every length below 2 * 3^8, and that length needs nine. */
  lemma EightStages(n: nat)
    requires 1 <= n < 13122
    ensures |Stages(n)| <= 8
  {
    hide Greedy, Cofactor, Stored, Product;
    ManyFactors(n);
    GreedyProduct(n);
    var k := |Greedy(n)|;
    MulMono(1, Cofactor(n), Product(Greedy(n)));
    EighthPower();
    if k > 8 {
      Pow3Mono(8, k - 1);
    }
  }

  lemma {:induction false} Pow3Mono(a: nat, b: nat)
    requires a <= b
    ensures Pow3(a) <= Pow3(b)
  {
    if a < b {
      Pow3Mono(a, b - 1);
    }
  }

  lemma {:induction false} ThreesOnly(k: nat)
    ensures Pow3(k) % 2 != 0 && |Greedy(Pow3(k))| == k && Cofactor(Pow3(k)) == 1
  {
    hide Greedy, Cofactor, First;
    if k == 0 {
      GreedyOne();
    } else {
      ThreesOnly(k - 1);
      FirstThree(Pow3(k - 1));
      GreedyStep(3 * Pow3(k - 1));
    }
  }

  lemma FirstThree(x: nat)
    requires x >= 1 && x % 2 != 0
    ensures (3 * x) % 2 != 0 && First(3 * x) == 3
    ensures First(2 * x) == 2
  {
    DivModUnique(3 * x, 2, 3 * (x / 2) + 1, 1);
    DivModUnique(3 * x, 3, x, 0);
    DivModUnique(2 * x, 4, x / 2, 2);
    DivModUnique(2 * x, 2, x, 0);
  }

  lemma NineStages()
    ensures |Stages(13122)| == 9 && Smooth(13122)
  {
    hide Greedy, Cofactor, First, Stored, Smooth, Pow3;
    ThreesOnly(8);
    FirstThree(Pow3(8));
    var n := 2 * Pow3(8);
    GreedyStep(n);
    FactorsExactly(n);
    EighthPower();
  }

  lemma EighthPower()
    ensures Pow3(8) == 6561
  {
    assert Pow3(4) == 81;
  }

  /** Whatever is taken divides. */
  lemma {:induction false} GreedyDivides(n: nat, i: nat)
    requires n >= 1 && i < |Greedy(n)|
    ensures Greedy(n)[i] > 0 && n % Greedy(n)[i] == 0
    decreases n
  {
    hide Greedy, Cofactor, First;
    GreedyStep(n);
    if i > 0 {
      var p, m, q := First(n), n / First(n), Greedy(n)[i];
      GreedyDivides(m, i - 1);
      DivMod(m, q);
      MulAssoc(p, m / q, q);
      Multiple(p * (m / q), q);
    }
  }

  /** Fours, then twos, threes and fives. */
  function Turn(p: nat): (r: int) {
    if p == 4 then 0 else p - 1
  }

  lemma {:induction false} GreedyOrder(n: nat, i: nat, j: nat)
    requires n >= 1 && i < j < |Greedy(n)|
    ensures Turn(Greedy(n)[i]) <= Turn(Greedy(n)[j]) && (Greedy(n)[i] == 2 ==> Greedy(n)[j] > 2)
    decreases n
  {
    hide Greedy, Cofactor, First;
    GreedyStep(n);
    var p, m := First(n), n / First(n);
    if i > 0 {
      GreedyOrder(m, i - 1, j - 1);
    } else {
      GreedyDivides(n, j);
      GreedyDivides(m, j - 1);
      FirstLeavesOdd(n);
      FirstTurn(n, Greedy(n)[j], m);
    }
  }

  lemma FirstTurn(n: nat, q: nat, m: nat)
    requires n >= 1 && m >= 1 && Radix(q) && n % q == 0 && m % q == 0
    requires First(n) == 4 || m % 2 != 0
    ensures Turn(First(n)) <= Turn(q) && (First(n) == 2 ==> q > 2)
  {
    if q == 4 && m % 2 != 0 {
      HalfTwice(m);
    }
    if q == 4 {
      HalfTwice(n);
    }
  }

  // ---------------------------------------------------------------- the order they are stored in

  /** The list in the order found, with a two that comes third or later exchanged for the four stored second. */
  function Stored(fs: seq<nat>): (s: seq<nat>)
    ensures |s| == |fs|
    decreases |fs|
  {
    if fs == [] then []
    else
      var n := |fs| - 1;
      var s := Stored(fs[..n]);
      if fs[n] == 2 && n > 1 then s[1 := 2] + [4] else s + [fs[n]]
  }

  lemma StoredNext(fs: seq<nat>, p: nat)
    ensures Stored(fs + [p]) == if p == 2 && |fs| > 1 then Stored(fs)[1 := 2] + [4] else Stored(fs) + [p]
  {
    assert (fs + [p])[..|fs|] == fs;
  }

  /** Everything before a two is a four. */
  predicate FoursFirst(fs: seq<nat>) {
    forall i, j :: 0 <= i < j < |fs| && fs[j] == 2 ==> fs[i] == 4
  }

  lemma {:induction false} GreedyFoursFirst(n: nat)
    requires n >= 1
    ensures FoursFirst(Greedy(n)) && (n % 2 != 0 ==> 2 !in Greedy(n))
    ensures n % 4 == 0 ==> Greedy(n) != [] && Greedy(n)[0] == 4
    decreases n
  {
    hide FoursFirst, Greedy, Cofactor, First;
    GreedyStep(n);
    FirstLeavesOdd(n);
    var p, m := First(n), n / First(n);
    if p > 1 {
      GreedyFoursFirst(m);
      PrependFours(p, Greedy(m));
    } else {
      PrependFours(4, []);
    }
  }

  lemma PrependFours(p: nat, fs: seq<nat>)
    requires FoursFirst(fs) && (p == 4 || 2 !in fs)
    ensures FoursFirst([p] + fs) && FoursFirst([])
    ensures p != 2 && 2 !in fs ==> 2 !in [p] + fs
  {
  }

  lemma {:induction false} StoredKeeps(fs: seq<nat>)
    requires Radices(fs) && FoursFirst(fs)
    ensures Radices(Stored(fs)) && Product(Stored(fs)) == Product(fs)
    ensures 2 !in fs ==> Stored(fs) == fs
    ensures fs != [] && fs[0] == 4 ==> Stored(fs)[0] == 4
    decreases |fs|
  {
    hide Product, Stored;
    if fs == [] {
      StoredNone();
    } else {
      var n := |fs| - 1;
      StoredKeeps(fs[..n]);
      assert fs == fs[..n] + [fs[n]];
      if fs[n] == 2 {
        assert forall i :: 0 <= i < n ==> fs[..n][i] == 4;
        StoredKeepsTwo(fs[..n]);
      } else {
        StoredKeepsOther(fs[..n], fs[n]);
      }
    }
  }

  /** A stored two is first, when it is all there is before the threes, or second after a four. */
  lemma {:induction false} StoredTwo(fs: seq<nat>, k: nat)
    requires Radices(fs) && FoursFirst(fs) && k < |fs| && Stored(fs)[k] == 2
    ensures k == (if fs[0] == 4 then 1 else 0)
    ensures fs[0] == 4 ==> Stored(fs)[0] == 4
    decreases |fs|
  {
    hide Product, Stored;
    var n := |fs| - 1;
    StoredKeeps(fs);
    StoredKeeps(fs[..n]);
    assert fs == fs[..n] + [fs[n]];
    StoredNext(fs[..n], fs[n]);
    if fs[n] == 2 {
      assert forall i :: 0 <= i < n ==> fs[..n][i] == 4;
      StoredFours(fs[..n]);
    } else {
      StoredTwo(fs[..n], k);
    }
  }

  lemma StoredFours(fs: seq<nat>)
    requires Radices(fs) && FoursFirst(fs) && forall i :: 0 <= i < |fs| ==> fs[i] == 4
    ensures Stored(fs) == fs
  {
    StoredKeeps(fs);
  }

  lemma StoredNone()
    ensures Stored([]) == []
  {
  }

  lemma StoredKeepsOther(fs: seq<nat>, p: nat)
    requires p != 2
    ensures Stored(fs + [p]) == Stored(fs) + [p]
    ensures Product(Stored(fs)) == Product(fs) ==> Product(Stored(fs) + [p]) == Product(fs + [p])
  {
    hide Product, Stored;
    StoredNext(fs, p);
    ProductConcat(fs, [p]);
    ProductConcat(Stored(fs), [p]);
  }

  /** A two arriving after fours only. */
  lemma StoredKeepsTwo(fs: seq<nat>)
    requires Stored(fs) == fs && forall i :: 0 <= i < |fs| ==> fs[i] == 4
    ensures Stored(fs + [2]) == if |fs| > 1 then fs[1 := 2] + [4] else fs + [2]
    ensures Product(Stored(fs + [2])) == Product(fs + [2])
  {
    hide Product, Stored;
    StoredNext(fs, 2);
    ProductConcat(fs, [2]);
    ProductSingle(2);
    if |fs| > 1 {
      ProductExchange(fs);
    }
  }

  /** A four at index 1 and a new two have the product of a two there and a new four. */
  lemma ProductExchange(s: seq<nat>)
    requires |s| > 1 && s[1] == 4
    ensures Product(s[1 := 2] + [4]) == Product(s) * 2
  {
    hide Product;
    var a, b := s[..1], s[2..];
    assert s == a + [4] + b && s[1 := 2] + [4] == a + [2] + b + [4];
    ProductConcat(a + [4], b);
    ProductConcat(a, [4]);
    ProductConcat(a + [2] + b, [4]);
    ProductConcat(a + [2], b);
    ProductConcat(a, [2]);
    ProductSingle(4);
    ProductSingle(2);
    var x, y := Product(a), Product(b);
    MulAssoc(x * 2, y, 4);
    MulAssoc(x * 4, y, 2);
  }

  function Reversed(s: seq<nat>): (r: seq<nat>)
    ensures |r| == |s| && forall i :: 0 <= i < |s| ==> r[i] == s[|s| - 1 - i]
  {
    if s == [] then [] else Reversed(s[1..]) + [s[0]]
  }

  lemma {:induction false} ReversedProduct(s: seq<nat>)
    ensures Product(Reversed(s)) == Product(s)
  {
    if s != [] {
      ReversedProduct(s[1..]);
      ProductConcat(Reversed(s[1..]), [s[0]]);
      ProductSingle(s[0]);
    }
  }

  /** The radices in the order found; a length of 1 counts as one stage of radix 1. */
  function Found(n: nat): (fs: seq<nat>)
    requires n >= 1
    ensures Positive(fs)
  {
    if n == 1 then [1] else Greedy(n)
  }

  lemma StoredOne()
    ensures Stored([1]) == [1] && Reversed(Stored([1])) == [1] && Product([1]) == 1
  {
    StoredNext([], 1);
    assert [] + [1] == [1];
    ProductSingle(1);
  }

  /** The stages of a transform of length n, first to last. */
  function Stages(n: nat): (fs: seq<nat>)
    requires n >= 1
  {
    Reversed(Stored(Found(n)))
  }

  lemma ReversedKeeps(s: seq<nat>)
    requires Radices(s)
    ensures Radices(Reversed(s)) && Positive(Reversed(s)) && Product(Reversed(s)) == Product(s)
    ensures s != [] ==> Reversed(s)[|s| - 1] == s[0]
  {
    hide Product;
    ReversedProduct(s);
  }

  lemma GreedyKeeps(n: nat)
    requires n > 1 && Smooth(n)
    ensures var fs := Stored(Greedy(n));
            Radices(fs) && Product(fs) == n && fs != [] && (n % 4 == 0 ==> fs[0] == 4)
  {
    hide Greedy, Stored, Smooth, Cofactor, Product, Radices, FoursFirst;
    FactorsExactly(n);
    GreedyProduct(n);
    GreedyFoursFirst(n);
    StoredKeeps(Greedy(n));
    ProductEmpty();
  }

  lemma ProductEmpty()
    ensures Product([]) == 1
  {
  }

  /** For a length that factors, the stages multiply to it, and a length divisible by four ends in a radix-4 stage. */
  lemma StagesMultiply(n: nat)
    requires n >= 1 && Smooth(n)
    ensures Product(Stages(n)) == n && Positive(Stages(n)) && (n > 1 ==> Radices(Stages(n)))
    ensures n % 4 == 0 ==> Stages(n)[|Stages(n)| - 1] == 4
  {
    hide Greedy, Stored, Reversed, Smooth, Product, Radices, Positive;
    if n == 1 {
      StoredOne();
      PositiveOne();
    } else {
      GreedyKeeps(n);
      ReversedKeeps(Stored(Greedy(n)));
    }
  }

  /**
   * A radix-2 stage comes just before a final radix-4 stage, so that what is left after it is 4; only lengths that
   * 4 does not divide end in radix 2.
   */
  lemma RadixTwoStage(n: nat, i: nat)
    requires n >= 1 && i < |Stages(n)| && Stages(n)[i] == 2
    ensures Product(Stages(n)[i + 1..]) == if n % 4 == 0 then 4 else 1
    ensures n % 4 == 0 ==> i == |Stages(n)| - 2 && Stages(n)[i + 1] == 4
  {
    hide Greedy, Stored, Reversed, Product, Radices, FoursFirst, Cofactor, First;
    if n == 1 {
      StoredOne();
    }
    var fs, s := Greedy(n), Stages(n);
    GreedyStep(n);
    GreedyFoursFirst(n);
    FirstLeavesOdd(n);
    StoredTwo(fs, |s| - 1 - i);
    FirstFour(n);
    ProductEmpty();
    ProductSingle(4);
    if n % 4 == 0 {
      assert s[i + 1..] == [4];
    } else {
      assert s[i + 1..] == [];
    }
  }

  lemma FirstFour(n: nat)
    requires n >= 1
    ensures First(n) == 4 <==> n % 4 == 0
  {
  }

  lemma PositiveOne()
    ensures Positive([1])
  {
  }

  // ---------------------------------------------------------------- the method

  /** facbuf holds p1, m1, p2, m2, ... for the given radices: m is what is left after each stage. */
  predicate Chain(fb: seq<int>, fs: seq<nat>) {
    && 2 * |fs| <= |fb|
    && forall i :: 0 <= i < |fs| ==> fb[2 * i] == fs[i] && fb[2 * i + 1] == Product(fs[i + 1..])
  }

  /** The radices at the even indices. */
  predicate Evens(fb: seq<int>, fs: seq<nat>) {
    2 * |fs| <= |fb| && forall i :: 0 <= i < |fs| ==> fb[2 * i] == fs[i]
  }

  /** Candidates before p do not divide n. */
  predicate Tried(n: nat, p: nat) {
    && (p != 4 ==> n % 4 != 0)
    && (p != 4 && p != 2 ==> n % 2 != 0)
    && (p != 4 && p != 2 && p != 3 ==> n % 3 != 0)
    && (p != 4 && p != 2 && p != 3 && p != 5 ==> n % 5 != 0)
  }

  /** The inner loop: the next candidate that divides n. */
  method NextFactor(n: nat, p0: nat) returns (p: nat)
    requires n >= 1 && Tried(n, p0) && (p0 == 4 || 2 <= p0 <= n)
    ensures 0 < p && n % p == 0 && Tried(n, p) && (p == 4 || p <= n) && (p == 1 ==> n == 1)
  {
    hide Tried;
    p := p0;
    while n % p != 0
      invariant 0 < p && Tried(n, p) && (p == 4 || p <= n) && (p == 1 ==> n == 1)
      decreases p == 4, n - p
    {
      TriedNext(n, p);
      p := if p == 4 then 2 else if p == 2 then 3 else p + 2;
      if p > 32000 || p * p > n {
        p := n;
      }
    }
  }

  /** Skipping to n once the next candidate's square exceeds it misses no prime below 7. */
  lemma TriedNext(n: nat, p: nat)
    requires n >= 1 && p >= 2 && Tried(n, p) && n % p != 0 && (p == 4 || p <= n)
    ensures var q := if p == 4 then 2 else if p == 2 then 3 else p + 2;
            if q > 32000 || q * q > n then Tried(n, n) && n != 4 && (p == 4 || n > p || n == 1)
            else Tried(n, q) && q <= n
  {
    var q := if p == 4 then 2 else if p == 2 then 3 else p + 2;
    MulMono(1, q, q);
    DivModUnique(n, n, 1, 0);
    if p <= 5 {
      TriedSmall(n, p);
    }
  }

  /** The squares 4, 9, 25 and 49 of the first candidates. */
  lemma TriedSmall(n: nat, p: nat)
    requires n >= 1 && (p == 2 || p == 3 || p == 4 || p == 5) && Tried(n, p) && n % p != 0
    ensures var q := if p == 4 then 2 else if p == 2 then 3 else p + 2;
            if q * q > n then Tried(n, n) && n != 4 else Tried(n, q)
  {
    if p == 4 {
      assert n < 4 ==> n == 1 || n == 2 || n == 3;
    } else if p == 2 {
      assert n < 9 ==> n == 1 || n == 3 || n == 5 || n == 7;
    } else if p == 3 {
      assert n < 25 && n % 5 == 0 ==> n == 5;
    }
  }

  /** A candidate that divides is the greedy choice, and one above 5 means that there is none. */
  lemma CandidateIsFirst(n: nat, p: nat)
    requires n > 1 && 1 < p && n % p == 0 && Tried(n, p)
    ensures First(n) == if Radix(p) then p else 1
    ensures Radix(p) <==> p <= 5
  {
    if p == 2 {
      assert n % 2 == 0;
    } else if p == 3 {
      assert n % 3 == 0;
    } else if p == 4 {
      assert n % 4 == 0;
    } else if p == 5 {
      assert n % 5 == 0;
    } else {
      assert First(n) == 1;
    }
  }

  lemma TriedQuotient(n: nat, q: nat, p: nat)
    requires n == p * q && Radix(p) && Tried(n, p) && q >= 1
    ensures Tried(q, p) && (q > 1 ==> p == 4 || p <= q)
  {
    DividesProduct(q, p, 2);
    DividesProduct(q, p, 3);
    DividesProduct(q, p, 4);
    DividesProduct(q, p, 5);
  }

  lemma DividesProduct(q: nat, p: nat, c: nat)
    requires c > 0
    ensures q % c == 0 ==> (p * q) % c == 0
  {
    if q % c == 0 {
      DivMod(q, c);
      MulAssoc(p, q / c, c);
      Multiple(p * (q / c), c);
    }
  }

  /** The body's writes: the radix, or the exchange with the four stored second. */
  method StoreRadix(facbuf: array<int>, stages: nat, p: nat, ghost fs: seq<nat>)
    requires |fs| == stages && 2 * stages < facbuf.Length - 1 && Evens(facbuf[..], Stored(fs))
    modifies facbuf
    ensures Evens(facbuf[..], Stored(fs + [p]))
  {
    hide Stored;
    StoredNext(fs, p);
    facbuf[2 * stages] := p;
    if p == 2 && stages > 1 {
      facbuf[2 * stages] := 4;
      facbuf[2] := 2;
    }
  }

  /** The radices still to be found. */
  function Left(n: nat, stages: nat): (fs: seq<nat>)
    requires n >= 1
  {
    if stages == 0 then Found(n) else Greedy(n)
  }

  /** One round of the factoring loop, when it does not give up. */
  lemma TakeRadix(n: nat, stages: nat, p: nat)
    requires n >= 1 && (n > 1 || stages == 0) && Tried(n, p) && 0 < p <= 5 && n % p == 0 && (p == 4 || p <= n)
    requires p == 1 ==> n == 1
    ensures n == p * (n / p) && 1 <= n / p <= n && Left(n, stages) == [p] + Left(n / p, stages + 1)
    ensures Cofactor(n) == Cofactor(n / p) && (n / p > 1 ==> n / p < n)
    ensures Tried(n / p, p) && (n / p > 1 ==> p == 4 || 2 <= p <= n / p)
  {
    hide Greedy, Cofactor, First, Tried;
    GreedyOne();
    DivMod(n, p);
    if n > 1 {
      CandidateIsFirst(n, p);
      GreedyStep(n);
      TriedQuotient(n, n / p, p);
    }
  }

  lemma GiveUp(n: nat, p: nat)
    requires n >= 1 && Tried(n, p) && 5 < p <= n && n % p == 0
    ensures Cofactor(n) > 1
  {
    hide Greedy, Cofactor, First, Tried;
    CandidateIsFirst(n, p);
    GreedyStep(n);
  }

  /** The factoring loop. It needs room for the radices it finds. */
  method FindRadices(n0: nat, facbuf: array<int>) returns (ok: bool, stages: nat)
    requires n0 >= 1 && 2 * |Found(n0)| <= facbuf.Length
    modifies facbuf
    ensures ok <==> Cofactor(n0) == 1
    ensures ok ==> stages == |Found(n0)| && Evens(facbuf[..], Stored(Found(n0)))
  {
    hide Greedy, Cofactor, First, Stored, Evens, Tried, Left;
    var n, p, again := n0, 4, true;
    stages := 0;
    ghost var fs := [];
    NothingYet(facbuf[..], n);
    while again
      invariant again == (n > 1 || stages == 0) && n >= 1 && |fs| == stages
      invariant Tried(n, p) && (again ==> p == 4 || 2 <= p <= n)
      invariant Found(n0) == fs + Left(n, stages) && Cofactor(n0) == Cofactor(n)
      invariant Evens(facbuf[..], Stored(fs))
      decreases n, again
    {
      p := NextFactor(n, p);
      if p > 5 {
        GiveUp(n, p);
        return false, stages;
      }
      TakeRadix(n, stages, p);
      assert Found(n0) == (fs + [p]) + Left(n / p, stages + 1);
      n := n / p;
      StoreRadix(facbuf, stages, p, fs);
      stages, fs := stages + 1, fs + [p];
      again := n > 1;
    }
    AllFound(stages);
    assert fs + [] == fs;
    ok := true;
  }

  lemma NothingYet(fb: seq<int>, n: nat)
    requires n >= 1
    ensures Evens(fb, Stored([])) && Tried(n, 4) && Found(n) == [] + Left(n, 0)
  {
  }

  lemma AllFound(stages: nat)
    requires stages > 0
    ensures Left(1, stages) == [] && Cofactor(1) == 1
  {
  }

  lemma GreedyOne()
    ensures Greedy(1) == [] && Cofactor(1) == 1 && Stored([]) == []
  {
  }

  /** The reversal in place. */
  method ReverseRadices(facbuf: array<int>, stages: nat, ghost fs: seq<nat>)
    requires |fs| == stages && Evens(facbuf[..], fs)
    modifies facbuf
    ensures Evens(facbuf[..], Reversed(fs))
  {
    hide Reversed;
    var i := 0;
    while i < stages / 2
      invariant 0 <= i <= stages / 2
      invariant forall k :: 0 <= k < stages ==> facbuf[2 * k] == fs[if i <= k < stages - i then k else stages - 1 - k]
    {
      var tmp := facbuf[2 * i];
      facbuf[2 * i] := facbuf[2 * (stages - i - 1)];
      facbuf[2 * (stages - i - 1)] := tmp;
      i := i + 1;
    }
  }

  /** The last loop: what remains of n after each stage. */
  method WriteChain(facbuf: array<int>, stages: nat, n0: nat, ghost fs: seq<nat>)
    requires |fs| == stages && Evens(facbuf[..], fs) && Positive(fs) && Product(fs) == n0
    modifies facbuf
    ensures Chain(facbuf[..], fs)
  {
    hide Product;
    var n, i := n0, 0;
    assert fs[0..] == fs;
    while i < stages
      invariant 0 <= i <= stages && n == Product(fs[i..])
      invariant forall k :: 0 <= k < stages ==> facbuf[2 * k] == fs[k]
      invariant forall k :: 0 <= k < i ==> facbuf[2 * k + 1] == Product(fs[k + 1..])
    {
      ProductStep(fs, i);
      n := n / facbuf[2 * i];
      facbuf[2 * i + 1] := n;
      i := i + 1;
    }
  }

  lemma ProductStep(fs: seq<nat>, i: nat)
    requires i < |fs| && Positive(fs)
    ensures Product(fs[i..]) == fs[i] * Product(fs[i + 1..])
    ensures Product(fs[i..]) / fs[i] == Product(fs[i + 1..])
  {
    assert fs[i..][1..] == fs[i + 1..];
    Multiple(Product(fs[i + 1..]), fs[i]);
  }

  /**
   * kf_factor(). It succeeds exactly for lengths whose only primes are 2, 3 and 5, and then facbuf holds the
   * stages: radices that multiply to n, each with the length that is left after it.
   */
  method KfFactor(n: nat, facbuf: array<int>) returns (ok: bool)
    requires n >= 1 && 2 * |Stages(n)| <= facbuf.Length
    modifies facbuf
    ensures ok <==> Smooth(n)
    ensures ok ==> Chain(facbuf[..], Stages(n)) && Product(Stages(n)) == n && (n > 1 ==> Radices(Stages(n)))
  {
    hide Smooth, Greedy, Cofactor, Stored, Reversed, Product, Found;
    FactorsExactly(n);
    var stages;
    ok, stages := FindRadices(n, facbuf);
    if !ok {
      return;
    }
    StagesMultiply(n);
    ghost var fs := Stored(Found(n));
    ReverseRadices(facbuf, stages, fs);
    WriteChain(facbuf, stages, n, Reversed(fs));
  }
}
