/** The low-memory pulse coder of celt/cwrs.c: one row of U, stepped up and down in place. */
module PvqRow {
  import opened Arith
  import opened Pvq
  import opened PvqTable

  const WRAP: nat := 0x1_0000_0000

  /** b is the row after a: b[j] = a[j] + a[j-1] + b[j-1] on 32-bit values, starting from `base`. */
  ghost predicate Next(a: seq<u32>, b: seq<u32>, base: u32) {
    && |a| == |b| >= 1 && b[0] == base
    && forall j :: 1 <= j < |a| ==> b[j] == (a[j] + a[j - 1] + b[j - 1]) % WRAP
  }

  /** b is the row before a. */
  ghost predicate Prev(a: seq<u32>, b: seq<u32>, base: u32) {
    && |a| == |b| >= 1 && b[0] == base
    && forall j :: 1 <= j < |a| ==> b[j] == (a[j] - a[j - 1] - b[j - 1]) % WRAP
  }

  /** Entries from.. of row n. */
  ghost predicate IsRow(a: seq<u32>, n: nat, from: nat) {
    forall j :: 0 <= j < |a| ==> a[j] == U(n, from + j)
  }

  /** Stepping up and back down restores every row, wrap-around included. */
  lemma {:induction false} PrevUndoesNext(a: seq<u32>, b: seq<u32>, c: seq<u32>, base: u32)
    requires |a| >= 1 && Next(a, b, base) && Prev(b, c, a[0])
    ensures c == a
  {
    var j := 1;
    while j < |a|
      invariant 1 <= j <= |a| && forall t :: 0 <= t < j ==> c[t] == a[t]
    {
      var p: int, q: int := a[j - 1], b[j - 1];
      assert b[j] == (a[j] + (p + q)) % WRAP;
      WrapCancels(a[j], p + q, q + c[j - 1]);
      j := j + 1;
    }
  }

  /** And stepping down and back up. */
  lemma {:induction false} NextUndoesPrev(a: seq<u32>, b: seq<u32>, c: seq<u32>, base: u32)
    requires |a| >= 1 && Prev(a, b, base) && Next(b, c, a[0])
    ensures c == a
  {
    var j := 1;
    while j < |a|
      invariant 1 <= j <= |a| && forall t :: 0 <= t < j ==> c[t] == a[t]
    {
      var p: int, q: int, r: int := a[j - 1], b[j - 1], c[j - 1];
      assert b[j] == (a[j] + (0 - p - q)) % WRAP;
      WrapCancels(a[j], 0 - p - q, 0 - q - r);
      j := j + 1;
    }
  }

  lemma WrapCancels(x: u32, d: int, e: int)
    requires d == e
    ensures ((x + d) % WRAP - e) % WRAP == x
  {
  }

  lemma {:induction false} NextRow(a: seq<u32>, b: seq<u32>, n: nat, from: nat)
    requires |a| >= 1 && IsRow(a, n, from) && U(n + 1, from) < WRAP && Next(a, b, U(n + 1, from))
    requires U(n + 1, from + |a| - 1) < WRAP
    ensures IsRow(b, n + 1, from)
  {
    hide U;
    var j := 1;
    while j < |a|
      invariant 1 <= j <= |a| && forall t :: 0 <= t < j ==> b[t] == U(n + 1, from + t)
    {
      URecurrence(n + 1, from + j);
      UMono(n + 1, from + j, from + |a| - 1);
      assert a[j] == U(n, from + j) && a[j - 1] == U(n, from + (j - 1)) && b[j - 1] == U(n + 1, from + (j - 1));
      assert b[j] == U(n + 1, from + j) % WRAP;
      j := j + 1;
    }
  }

  lemma {:induction false} PrevRow(a: seq<u32>, b: seq<u32>, n: nat, from: nat)
    requires |a| >= 1 && IsRow(a, n + 1, from) && U(n, from) < WRAP && Prev(a, b, U(n, from))
    ensures IsRow(b, n, from)
  {
    hide U;
    var j := 1;
    while j < |a|
      invariant 1 <= j <= |a| && forall t :: 0 <= t < j ==> b[t] == U(n, from + t)
    {
      URecurrence(n + 1, from + j);
      assert a[j] == U(n + 1, from + j) && a[j - 1] == U(n + 1, from + (j - 1)) && b[j - 1] == U(n, from + (j - 1));
      assert b[j] == U(n, from + j) % WRAP;
      j := j + 1;
    }
  }

  lemma URecurrence(n: nat, k: nat)
    requires n > 0 && k > 0
    ensures U(n, k) == U(n - 1, k) + U(n, k - 1) + U(n - 1, k - 1)
  {
  }

  /** Entry j of the next row, from what unext() has in hand. */
  function Add32(x: u32, y: u32, z: u32): (r: u32) {
    (x + y + z) % WRAP
  }

  /** Entry j of the previous row. */
  function Sub32(x: u32, y: u32, z: u32): (r: u32) {
    (x - y - z) % WRAP
  }

  /** The first m entries of the row after a. */
  ghost function NextOf(a: seq<u32>, base: u32, m: nat): (b: seq<u32>)
    requires 1 <= m <= |a|
    ensures |b| == m
  {
    if m == 1 then [base]
    else
      var b := NextOf(a, base, m - 1);
      b + [Add32(a[m - 1], a[m - 2], b[m - 2])]
  }

  lemma {:induction false} NextOfIsNext(a: seq<u32>, base: u32, m: nat)
    requires 1 <= m <= |a|
    ensures Next(a[..m], NextOf(a, base, m), base)
  {
    if m > 1 {
      NextOfIsNext(a, base, m - 1);
    }
  }

  /** The first m entries of the row before a. */
  ghost function PrevOf(a: seq<u32>, base: u32, m: nat): (b: seq<u32>)
    requires 1 <= m <= |a|
    ensures |b| == m
  {
    if m == 1 then [base]
    else
      var b := PrevOf(a, base, m - 1);
      b + [Sub32(a[m - 1], a[m - 2], b[m - 2])]
  }

  lemma {:induction false} PrevOfIsPrev(a: seq<u32>, base: u32, m: nat)
    requires 1 <= m <= |a|
    ensures Prev(a[..m], PrevOf(a, base, m), base)
  {
    if m > 1 {
      PrevOfIsPrev(a, base, m - 1);
    }
  }

  /** unext() on u[lo..lo+len] */
  method UNext(u: array<u32>, lo: nat, len: nat, base: u32)
    requires 2 <= len && lo + len <= u.Length
    modifies u
    ensures Next(old(u[lo..lo + len]), u[lo..lo + len], base)
    ensures u[..lo] == old(u[..lo])
  {
    hide Next;
    ghost var a := u[lo..lo + len];
    var ui0 := base;
    var j := 1;
    while j < len
      invariant 1 <= j <= len && u[..lo] == old(u[..lo])
      invariant u[lo + j - 1..lo + len] == a[j - 1..]
      invariant u[lo..lo + j - 1] + [ui0] == NextOf(a, base, j)
    {
      assert u[lo + j] == a[j] && u[lo + j - 1] == a[j - 1];
      var ui1 := Add32(u[lo + j], u[lo + j - 1], ui0);
      u[lo + j - 1] := ui0;
      assert u[lo..lo + j] == u[lo..lo + j - 1] + [ui0] == NextOf(a, base, j);
      assert NextOf(a, base, j + 1) == u[lo..lo + j] + [ui1];
      ui0 := ui1;
      j := j + 1;
    }
    u[lo + j - 1] := ui0;
    assert u[lo..lo + len] == u[lo..lo + len - 1] + [ui0] == NextOf(a, base, len);
    assert a[..len] == a;
    NextOfIsNext(a, base, len);
  }

  /** uprev() on u[..len] */
  method UPrev(u: array<u32>, len: nat, base: u32)
    requires 2 <= len <= u.Length
    modifies u
    ensures Prev(old(u[..len]), u[..len], base)
  {
    hide Prev;
    ghost var a := u[..len];
    var ui0 := base;
    var j := 1;
    while j < len
      invariant 1 <= j <= len
      invariant u[j - 1..len] == a[j - 1..]
      invariant u[..j - 1] + [ui0] == PrevOf(a, base, j)
    {
      assert u[j] == a[j] && u[j - 1] == a[j - 1];
      var ui1 := Sub32(u[j], u[j - 1], ui0);
      u[j - 1] := ui0;
      assert u[..j] == u[..j - 1] + [ui0] == PrevOf(a, base, j);
      assert PrevOf(a, base, j + 1) == u[..j] + [ui1];
      ui0 := ui1;
      j := j + 1;
    }
    u[j - 1] := ui0;
    assert u[..len] == u[..len - 1] + [ui0] == PrevOf(a, base, len);
    assert a[..len] == a;
    PrevOfIsPrev(a, base, len);
  }

  /** ncwrs_urow(): builds row n up to column k + 1 and returns the codebook size. */
  method NcwrsURow(n: nat, k0: nat, u: array<u32>) returns (v: u32)
    requires n >= 2 && k0 > 0 && k0 + 2 <= u.Length && V(n, k0) < WRAP
    modifies u
    ensures IsRow(u[..k0 + 2], n, 0) && v == V(n, k0)
  {
    hide U, Next;
    UOne(2);
    UOdd(0);
    u[0] := 0;
    u[1] := 1;
    var k := 2;
    while k < k0 + 2
      invariant 2 <= k <= k0 + 2 && forall t :: 0 <= t < k ==> u[t] == U(2, t)
    {
      UOdd(k - 1);
      EntryFits(2, k0, n, k0);
      UMono(2, k, k0 + 1);
      u[k] := 2 * k - 1;
      k := k + 1;
    }
    k := 2;
    while k < n
      invariant 2 <= k <= n && IsRow(u[..k0 + 2], k, 0)
    {
      UOne(k + 1);
      EntryFits(k + 1, k0, n, k0);
      assert 1 + (k0 + 1) - 1 == k0 + 1;
      ghost var a := u[1..1 + (k0 + 1)];
      assert IsRow(a, k, 1);
      UOne(k);
      assert u[..k0 + 2][0] == 0;
      assert u[..1] == [0];
      UNext(u, 1, k0 + 1, 1);
      assert u[..1][0] == u[0] == 0;
      assert U(k + 1, 1 + |a| - 1) < WRAP;
      assert Next(a, u[1..1 + (k0 + 1)], U(k + 1, 1));
      NextRow(a, u[1..1 + (k0 + 1)], k, 1);
      RowExtend(u[..k0 + 2], u[1..1 + (k0 + 1)], k + 1);
      k := k + 1;
    }
    v := u[k0] + u[k0 + 1];
  }

  lemma RowExtend(a: seq<u32>, b: seq<u32>, n: nat)
    requires |a| == |b| + 1 && a[1..] == b && n > 0 && a[0] == 0 && IsRow(b, n, 1)
    ensures IsRow(a, n, 0)
  {
    UOne(n);
    forall j | 0 <= j < |a| ensures a[j] == U(n, 0 + j) {
      if j > 0 {
        assert a[j] == b[j - 1] == U(n, 1 + (j - 1));
      }
    }
  }

  /** One component: fold the sign half away, search the row down. */
  method StepRow(u: array<u32>, n: nat, k: nat, i: u32) returns (val: int, k': nat, i': u32)
    requires n > 0 && i < V(n, k) < WRAP && k + 2 <= u.Length && IsRow(u[..k + 2], n, 0)
    ensures Decoded(n, k, i, val, k', i')
  {
    hide U, Locate;
    UOne(n);
    assert forall t :: 0 <= t < k + 2 ==> u[t] == u[..k + 2][t] == U(n, 0 + t);
    var p := u[k + 1];
    var negative := i >= p;
    i' := if negative then i - p else i;
    k' := k;
    p := u[k'];
    while p > i'
      invariant k' <= k && p == u[k'] && (k' < k ==> i' < U(n, k' + 1))
      decreases k'
    {
      k' := k' - 1;
      p := u[k'];
    }
    LocateUnique(n, k, i', k');
    i' := i' - p;
    val := Signed(negative, k - k');
  }

  /** cwrsi() on one row, which it steps down as the dimensions run out. Same result as the table version. */
  method Cwrsi(n: nat, k0: nat, i0: u32, y: array<int>, u: array<u32>) returns (yy: int)
    requires n > 0 && i0 < V(n, k0) < WRAP && n <= y.Length
    requires k0 + 2 <= u.Length && IsRow(u[..k0 + 2], n, 0)
    requires y as object != u as object
    modifies y, u
    ensures forall j :: 0 <= j < n ==> y[j] == Int16(Unrank(n, k0, i0)[j])
    ensures k0 < 0x8000 ==> y[..n] == Unrank(n, k0, i0) && yy == Energy(Unrank(n, k0, i0))
  {
    hide U, Unrank, V, Decoded;
    var k: nat, i: u32, j: nat := k0, i0, 0;
    ghost var full := Unrank(n, k0, i0);
    yy := 0;
    assert full[0..] == full;
    while j < n
      invariant j <= n && k <= k0 && i < V(n - j, k) < WRAP && full[j..] == Unrank(n - j, k, i)
      invariant j < n ==> IsRow(u[..k + 2], n - j, 0)
      invariant forall t :: 0 <= t < j ==> y[t] == Int16(full[t])
      invariant k0 < 0x8000 ==> yy + Energy(full[j..]) == Energy(full)
    {
      var val: int, k': nat, i': u32;
      val, k', i' := StepRow(u, n - j, k, i);
      Advance(full, n, k0, n - j, k, i, val, k', i');
      y[j] := Int16(val);
      yy := yy + Int16(val) * Int16(val);
      StepDown(u, n - j, k, k');
      k, i, j := k', i', j + 1;
    }
    if k0 < 0x8000 {
      Exact16(full);
      assert y[..n] == full;
    }
  }

  /** The closing uprev() of each component: the row of one dimension less, as far as it is still needed. */
  method StepDown(u: array<u32>, n: nat, k: nat, k': nat)
    requires n > 0 && k' <= k && k + 2 <= u.Length && IsRow(u[..k + 2], n, 0)
    modifies u
    ensures n > 1 ==> IsRow(u[..k' + 2], n - 1, 0)
  {
    hide U, Prev;
    ghost var a := u[..k' + 2];
    assert a == u[..k + 2][..k' + 2];
    UPrev(u, k' + 2, 0);
    if n > 1 {
      UOne(n - 1);
      PrevRow(a, u[..k' + 2], n - 1, 0);
    }
  }

  /** icwrs() on one row, which it steps up from dimension two. Same index as the table version. */
  method Icwrs(y: seq<int>, k0: nat, u: array<u32>) returns (i: u32, nc: u32)
    requires |y| >= 2 && k0 == Pulses(y) && V(|y|, k0) < WRAP && k0 + 2 <= u.Length
    modifies u
    ensures i == Rank(y) && nc == V(|y|, k0)
  {
    hide U, V, Next, Rank, Pulses;
    var n := |y|;
    RowTwo(n, k0, u);
    LastRank(y);
    PulsesSuffix(y, n - 1);
    i := if y[n - 1] < 0 then 1 else 0;
    var k := Abs(y[n - 1]);
    var j: nat := n - 1;
    while j > 0
      invariant j < n && k == Pulses(y[j..]) && i == Rank(y[j..]) && k <= k0
      invariant IsRow(u[..k0 + 2], if j == n - 1 then 2 else n - j, 0)
    {
      j := j - 1;
      if j < n - 2 {
        StepUp(u, n - j - 1, k0, n, k0);
      }
      assert y[j..][1..] == y[j + 1..];
      PulsesSuffix(y, j);
      RankStays(y, j);
      RankParts(y[j..]);
      assert forall t :: 0 <= t < k0 + 2 ==> u[t] == u[..k0 + 2][t] == U(n - j, 0 + t);
      i := i + u[k];
      k := k + Abs(y[j]);
      if y[j] < 0 {
        i := i + u[k + 1];
      }
    }
    assert y[0..] == y;
    SizeParts(n, k);
    nc := u[k] + u[k + 1];
  }

  lemma SizeParts(n: nat, k: nat)
    ensures V(n, k) == U(n, k) + U(n, k + 1)
  {
  }

  method StepUp(u: array<u32>, n: nat, k: nat, ghost m: nat, ghost l: nat)
    requires 0 < n < m && k <= l && V(m, l) < WRAP && k + 2 <= u.Length && IsRow(u[..k + 2], n, 0)
    modifies u
    ensures IsRow(u[..k + 2], n + 1, 0)
  {
    hide U, Next;
    UOne(n + 1);
    EntryFits(n + 1, k, m, l);
    ghost var a := u[..k + 2];
    assert u[0..0 + (k + 2)] == a;
    UNext(u, 0, k + 2, 0);
    assert u[0..0 + (k + 2)] == u[..k + 2];
    assert 0 + |a| - 1 == k + 1;
    NextRow(a, u[..k + 2], n, 0);
  }

  /** Row two in closed form. */
  method RowTwo(n: nat, k0: nat, u: array<u32>)
    requires n >= 2 && V(n, k0) < WRAP && k0 + 2 <= u.Length
    modifies u
    ensures IsRow(u[..k0 + 2], 2, 0)
  {
    hide U;
    UOne(2);
    EntryFits(2, k0, n, k0);
    u[0] := 0;
    var k := 1;
    while k <= k0 + 1
      invariant 1 <= k <= k0 + 2 && forall t :: 0 <= t < k ==> u[t] == U(2, t)
    {
      UOdd(k - 1);
      UMono(2, k, k0 + 1);
      u[k] := 2 * k - 1;
      k := k + 1;
    }
  }
}
