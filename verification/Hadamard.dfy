/** deinterleave_hadamard() and interleave_hadamard() of celt/bands.c. */
module Hadamard {
  import opened Arith

  const LINE_2: seq<nat> := [1, 0]
  const LINE_4: seq<nat> := [3, 0, 2, 1]
  const LINE_8: seq<nat> := [7, 0, 4, 3, 6, 1, 5, 2]
  const LINE_16: seq<nat> := [15, 0, 8, 7, 12, 3, 11, 4, 14, 1, 9, 6, 13, 2, 10, 5]
  const ORDERY_TABLE: seq<nat> := LINE_2 + LINE_4 + LINE_8 + LINE_16

  /** The strides the caller passes: any for the plain order, a power of two from 2 to 16 for the ordery one. */
  predicate Ordered(stride: nat, hadamard: bool) {
    stride > 0 && (hadamard ==> stride == 2 || stride == 4 || stride == 8 || stride == 16)
  }

  /** Where column i goes: ordery[i], or i itself. */
  function Order(stride: nat, hadamard: bool): (order: seq<nat>)
    requires Ordered(stride, hadamard)
    ensures |order| == stride
  {
    if hadamard then ORDERY_TABLE[stride - 2..2 * stride - 2] else seq(stride, i requires 0 <= i < stride => i)
  }

  /** Is the entry in row i and column j of the Hadamard matrix negative: have i and j an odd number of common bits? */
  predicate Negative(i: nat, j: nat) {
    if i == 0 || j == 0 then false else (i % 2 == 1 && j % 2 == 1) != Negative(i / 2, j / 2)
  }

  /** How often row i of the Hadamard matrix changes sign within n columns. */
  function SignChanges(i: nat, n: nat): (r: nat) {
    if n < 2 then 0 else SignChanges(i, n - 1) + if Negative(i, n - 1) != Negative(i, n - 2) then 1 else 0
  }

  /** Twice as many columns: each entry is followed by itself in even rows, by its opposite in odd ones. */
  lemma {:induction false} SignChangesDouble(i: nat, n: nat)
    requires n >= 1
    ensures SignChanges(i, 2 * n) == if i % 2 == 0 then SignChanges(i / 2, n) else 2 * n - 1 - SignChanges(i / 2, n)
  {
    Doubled(i, n - 1);
    if n > 1 {
      Doubled(i, n - 2);
      SignChangesDouble(i, n - 1);
      assert SignChanges(i, 2 * n - 1) ==
             SignChanges(i, 2 * n - 2) + if Negative(i, 2 * n - 2) != Negative(i, 2 * n - 3) then 1 else 0;
    } else {
      assert SignChanges(i, 1) == 0;
    }
  }

  lemma Doubled(i: nat, c: nat)
    ensures Negative(i, 2 * c) == Negative(i / 2, c)
    ensures Negative(i, 2 * c + 1) == (Negative(i / 2, c) != (i % 2 == 1))
  {
    assert 2 * c / 2 == c && (2 * c + 1) / 2 == c;
  }

  /** A line is ordered by sign changes. */
  predicate BySignChanges(line: seq<nat>) {
    forall i :: 0 <= i < |line| ==> line[i] == |line| - 1 - SignChanges(i, |line|)
  }

  /** The line for twice as many columns. */
  lemma LineDouble(line: seq<nat>, double: seq<nat>)
    requires |line| >= 1 && |double| == 2 * |line| && BySignChanges(line)
    requires forall i :: 0 <= i < |double| ==>
               double[i] == if i % 2 == 0 then |line| + line[i / 2] else |line| - 1 - line[i / 2]
    ensures BySignChanges(double)
  {
    hide SignChanges;
    forall i | 0 <= i < |double| ensures double[i] == |double| - 1 - SignChanges(i, |double|) {
      SignChangesDouble(i, |line|);
    }
  }

  lemma LinesBySignChanges()
    ensures BySignChanges(LINE_2) && BySignChanges(LINE_4) && BySignChanges(LINE_8) && BySignChanges(LINE_16)
  {
    hide BySignChanges;
    OneColumn();
    LineDouble([0], LINE_2);
    LineDouble(LINE_2, LINE_4);
    LineDouble(LINE_4, LINE_8);
    LineDouble(LINE_8, LINE_16);
  }

  lemma OneColumn()
    ensures BySignChanges([0])
  {
  }

  /** The ordery order is by sign changes, the steady row last. */
  lemma OrderBySignChanges(stride: nat, i: nat)
    requires Ordered(stride, true) && i < stride
    ensures Order(stride, true)[i] == stride - 1 - SignChanges(i, stride)
  {
    hide SignChanges;
    TableLines();
    LinesBySignChanges();
  }

  /** Where each column comes from. */
  ghost function Origin(stride: nat, hadamard: bool): (origin: seq<nat>)
    requires Ordered(stride, hadamard)
    ensures |origin| == stride
  {
    if !hadamard then seq(stride, i requires 0 <= i < stride => i)
    else if stride == 2 then [1, 0]
    else if stride == 4 then [1, 3, 2, 0]
    else if stride == 8 then [1, 5, 7, 3, 2, 6, 4, 0]
    else [1, 9, 13, 5, 7, 15, 11, 3, 2, 10, 14, 6, 4, 12, 8, 0]
  }

  /** Where each line of the table starts. */
  lemma TableLines()
    ensures ORDERY_TABLE[0..2] == LINE_2 && ORDERY_TABLE[2..6] == LINE_4
    ensures ORDERY_TABLE[6..14] == LINE_8 && ORDERY_TABLE[14..30] == LINE_16
  {
    Line([], LINE_2, LINE_4 + LINE_8 + LINE_16);
    Line(LINE_2, LINE_4, LINE_8 + LINE_16);
    Line(LINE_2 + LINE_4, LINE_8, LINE_16);
    Line(LINE_2 + LINE_4 + LINE_8, LINE_16, []);
  }

  lemma Line(before: seq<nat>, line: seq<nat>, after: seq<nat>)
    ensures (before + line + after)[|before|..|before| + |line|] == line
  {
  }

  predicate Inverses(order: seq<nat>, origin: seq<nat>) {
    |order| == |origin| && forall i :: 0 <= i < |order| ==>
      order[i] < |order| && origin[i] < |order| && origin[order[i]] == i && order[origin[i]] == i
  }

  lemma ShortLinesPermute()
    ensures Inverses(LINE_2, [1, 0]) && Inverses(LINE_4, [1, 3, 2, 0])
    ensures Inverses(LINE_8, [1, 5, 7, 3, 2, 6, 4, 0])
  {
  }

  lemma LongLinePermutes()
    ensures Inverses(LINE_16, [1, 9, 13, 5, 7, 15, 11, 3, 2, 10, 14, 6, 4, 12, 8, 0])
  {
    var order := LINE_16;
    var origin: seq<nat> := [1, 9, 13, 5, 7, 15, 11, 3, 2, 10, 14, 6, 4, 12, 8, 0];
    forall i | 0 <= i < 16
      ensures order[i] < 16 && origin[i] < 16 && origin[order[i]] == i && order[origin[i]] == i
    {
      if i < 4 {
        assert i == 0 || i == 1 || i == 2 || i == 3;
      } else if i < 8 {
        assert i == 4 || i == 5 || i == 6 || i == 7;
      } else if i < 12 {
        assert i == 8 || i == 9 || i == 10 || i == 11;
      } else {
        assert i == 12 || i == 13 || i == 14 || i == 15;
      }
    }
  }

  /** Every order is a permutation of the columns. */
  lemma OrderPermutes(stride: nat, hadamard: bool)
    requires Ordered(stride, hadamard)
    ensures Inverses(Order(stride, hadamard), Origin(stride, hadamard))
  {
    hide Inverses;
    if hadamard {
      TableLines();
      ShortLinesPermute();
      LongLinePermutes();
    } else {
      PlainPermutes(stride);
    }
  }

  lemma PlainPermutes(stride: nat)
    requires stride > 0
    ensures Inverses(Order(stride, false), Origin(stride, false))
  {
  }

  /** Index of entry (row, col) of a matrix stored by rows. */
  function Place(rows: nat, width: nat, row: nat, col: nat): (k: nat)
    requires row < rows && col < width
    ensures k < rows * width
  {
    MulMono(0, row, width);
    MulMono(row + 1, rows, width);
    Distribute(width, row, 1);
    row * width + col
  }

  lemma PlaceOf(rows: nat, width: nat, k: nat)
    requires width > 0 && k < rows * width
    ensures 0 <= k / width < rows && Place(rows, width, k / width, k % width) == k
  {
    DivBelow(k, width, rows);
    DivMod(k, width);
  }

  lemma PlaceUnique(rows: nat, width: nat, row: nat, col: nat)
    requires row < rows && col < width
    ensures Place(rows, width, row, col) / width == row && Place(rows, width, row, col) % width == col
  {
    DivModUnique(row * width + col, width, row, col);
  }

  /** y holds the stride columns of x one after the other, column i at place order[i]. */
  ghost predicate Deinterleaved<T>(x: seq<T>, y: seq<T>, n0: nat, stride: nat, hadamard: bool)
    requires Ordered(stride, hadamard)
  {
    OrderPermutes(stride, hadamard);
    var order := Order(stride, hadamard);
    && |x| == |y| == n0 * stride == stride * n0
    && forall i: nat, j: nat :: i < stride && j < n0 ==>
         y[Place(stride, n0, order[i], j)] == x[Place(n0, stride, j, i)]
  }

  /** Where entry k of the interleaved form goes. */
  function Target(k: nat, n0: nat, stride: nat, hadamard: bool): (t: nat)
    requires Ordered(stride, hadamard) && k < n0 * stride
    ensures t < n0 * stride
  {
    PlaceOf(n0, stride, k);
    OrderPermutes(stride, hadamard);
    Place(stride, n0, Order(stride, hadamard)[k % stride], k / stride)
  }

  /** Where entry k of the deinterleaved form comes from. */
  ghost function Source(k: nat, n0: nat, stride: nat, hadamard: bool): (s: nat)
    requires Ordered(stride, hadamard) && k < n0 * stride
    ensures s < n0 * stride
  {
    Positive(k, n0, stride);
    PlaceOf(stride, n0, k);
    OrderPermutes(stride, hadamard);
    Place(n0, stride, k % n0, Origin(stride, hadamard)[k / n0])
  }

  lemma Positive(k: nat, n0: nat, stride: nat)
    requires k < n0 * stride
    ensures n0 > 0 && k < stride * n0
  {
  }

  /** Target and Source are inverse permutations of the indices. */
  lemma TargetSource(k: nat, n0: nat, stride: nat, hadamard: bool)
    requires Ordered(stride, hadamard) && k < n0 * stride
    ensures Target(Source(k, n0, stride, hadamard), n0, stride, hadamard) == k
    ensures Source(Target(k, n0, stride, hadamard), n0, stride, hadamard) == k
  {
    hide Order, Origin, Place;
    OrderPermutes(stride, hadamard);
    Positive(k, n0, stride);
    PlaceOf(n0, stride, k);
    PlaceOf(stride, n0, k);
    var order, origin := Order(stride, hadamard), Origin(stride, hadamard);
    PlaceUnique(n0, stride, k % n0, origin[k / n0]);
    PlaceUnique(stride, n0, order[k % stride], k / stride);
  }

  /** Entry by entry: the deinterleaved form is the permutation Target of the other. */
  lemma DeinterleavedAt<T>(x: seq<T>, y: seq<T>, n0: nat, stride: nat, hadamard: bool, k: nat)
    requires Ordered(stride, hadamard) && Deinterleaved(x, y, n0, stride, hadamard) && k < n0 * stride
    ensures y[Target(k, n0, stride, hadamard)] == x[k]
    ensures y[k] == x[Source(k, n0, stride, hadamard)]
  {
    hide Order, Origin, Place, Target, Source;
    TargetAt(x, y, n0, stride, hadamard, k);
    TargetAt(x, y, n0, stride, hadamard, Source(k, n0, stride, hadamard));
    TargetSource(k, n0, stride, hadamard);
  }

  lemma TargetAt<T>(x: seq<T>, y: seq<T>, n0: nat, stride: nat, hadamard: bool, k: nat)
    requires Ordered(stride, hadamard) && Deinterleaved(x, y, n0, stride, hadamard) && k < n0 * stride
    ensures y[Target(k, n0, stride, hadamard)] == x[k]
  {
    hide Order, Origin, Place;
    PlaceOf(n0, stride, k);
  }

  /** Either form determines the other. */
  lemma BothDetermined<T>(x: seq<T>, y: seq<T>, x': seq<T>, y': seq<T>, n0: nat, stride: nat, hadamard: bool)
    requires Ordered(stride, hadamard)
    requires Deinterleaved(x, y, n0, stride, hadamard) && Deinterleaved(x', y', n0, stride, hadamard)
    ensures x == x' <==> y == y'
  {
    hide Order, Origin, Place, Target, Source, Deinterleaved;
    SameLengths(x, y, n0, stride, hadamard);
    SameLengths(x', y', n0, stride, hadamard);
    forall k | 0 <= k < |x| ensures (x == x' ==> y[k] == y'[k]) && (y == y' ==> x[k] == x'[k]) {
      DeinterleavedAt(x, y, n0, stride, hadamard, k);
      DeinterleavedAt(x', y', n0, stride, hadamard, k);
    }
  }

  lemma SameLengths<T>(x: seq<T>, y: seq<T>, n0: nat, stride: nat, hadamard: bool)
    requires Ordered(stride, hadamard) && Deinterleaved(x, y, n0, stride, hadamard)
    ensures |x| == |y| == n0 * stride
  {
  }

  // ---------------------------------------------------------------- in place, through a buffer

  /** The entries of columns before i, and of column i before row j. */
  predicate Before(a: nat, b: nat, i: nat, j: nat) {
    a < i || (a == i && b < j)
  }

  /** OPUS_COPY(X, tmp, N) */
  method CopyBack<T>(x: array<T>, tmp: array<T>)
    requires x != tmp && tmp.Length <= x.Length
    modifies x
    ensures x[..tmp.Length] == tmp[..] && x[tmp.Length..] == old(x[tmp.Length..])
  {
    forall k | 0 <= k < tmp.Length {
      x[k] := tmp[k];
    }
  }

  method DeinterleaveHadamard<T(0)>(x: array<T>, n0: nat, stride: nat, hadamard: bool)
    requires Ordered(stride, hadamard) && 0 <= n0 * stride <= x.Length
    modifies x
    ensures Deinterleaved(old(x[..n0 * stride]), x[..n0 * stride], n0, stride, hadamard)
    ensures x[n0 * stride..] == old(x[n0 * stride..])
  {
    hide Order, Place;
    OrderPermutes(stride, hadamard);
    var order := Order(stride, hadamard);
    var tmp := new T[n0 * stride];
    ghost var orig := x[..n0 * stride];
    assert n0 * stride == stride * n0;
    var i := 0;
    while i < stride
      invariant 0 <= i <= stride && x[..] == old(x[..])
      invariant forall a: nat, b: nat :: a < i && b < n0 ==>
                  tmp[Place(stride, n0, order[a], b)] == orig[Place(n0, stride, b, a)]
    {
      var j := 0;
      while j < n0
        invariant 0 <= j <= n0 && x[..] == old(x[..])
        invariant forall a: nat, b: nat :: a < stride && b < n0 && Before(a, b, i, j) ==>
                    tmp[Place(stride, n0, order[a], b)] == orig[Place(n0, stride, b, a)]
      {
        forall a: nat, b: nat | a < stride && b < n0 && Before(a, b, i, j)
          ensures Place(stride, n0, order[a], b) != Place(stride, n0, order[i], j)
        {
          PlaceUnique(stride, n0, order[a], b);
          PlaceUnique(stride, n0, order[i], j);
        }
        tmp[Place(stride, n0, order[i], j)] := x[Place(n0, stride, j, i)];
        j := j + 1;
      }
      i := i + 1;
    }
    assert Deinterleaved(orig, tmp[..], n0, stride, hadamard);
    CopyBack(x, tmp);
  }

  method InterleaveHadamard<T(0)>(x: array<T>, n0: nat, stride: nat, hadamard: bool)
    requires Ordered(stride, hadamard) && 0 <= n0 * stride <= x.Length
    modifies x
    ensures Deinterleaved(x[..n0 * stride], old(x[..n0 * stride]), n0, stride, hadamard)
    ensures x[n0 * stride..] == old(x[n0 * stride..])
  {
    hide Order, Place;
    OrderPermutes(stride, hadamard);
    var order := Order(stride, hadamard);
    var tmp := new T[n0 * stride];
    ghost var orig := x[..n0 * stride];
    assert n0 * stride == stride * n0;
    var i := 0;
    while i < stride
      invariant 0 <= i <= stride && x[..] == old(x[..])
      invariant forall a: nat, b: nat :: a < i && b < n0 ==>
                  tmp[Place(n0, stride, b, a)] == orig[Place(stride, n0, order[a], b)]
    {
      var j := 0;
      while j < n0
        invariant 0 <= j <= n0 && x[..] == old(x[..])
        invariant forall a: nat, b: nat :: a < stride && b < n0 && Before(a, b, i, j) ==>
                    tmp[Place(n0, stride, b, a)] == orig[Place(stride, n0, order[a], b)]
      {
        forall a: nat, b: nat | a < stride && b < n0 && Before(a, b, i, j)
          ensures Place(n0, stride, b, a) != Place(n0, stride, j, i)
        {
          PlaceUnique(n0, stride, b, a);
          PlaceUnique(n0, stride, j, i);
        }
        tmp[Place(n0, stride, j, i)] := x[Place(stride, n0, order[i], j)];
        j := j + 1;
      }
      i := i + 1;
    }
    assert Deinterleaved(tmp[..], orig, n0, stride, hadamard);
    CopyBack(x, tmp);
  }

  /** Each undoes the other, whatever the contents, the number of rows and the order. */
  method RoundTrips<T(0)>(x: array<T>, n0: nat, stride: nat, hadamard: bool, deinterleaveFirst: bool)
    requires Ordered(stride, hadamard) && 0 <= n0 * stride <= x.Length
    modifies x
    ensures x[..] == old(x[..])
  {
    hide Deinterleaved;
    var n := n0 * stride;
    ghost var a := x[..n];
    assert x[..] == x[..n] + x[n..];
    if deinterleaveFirst {
      DeinterleaveHadamard(x, n0, stride, hadamard);
      ghost var b := x[..n];
      InterleaveHadamard(x, n0, stride, hadamard);
      BothDetermined(a, b, x[..n], b, n0, stride, hadamard);
    } else {
      InterleaveHadamard(x, n0, stride, hadamard);
      ghost var b := x[..n];
      DeinterleaveHadamard(x, n0, stride, hadamard);
      BothDetermined(b, a, b, x[..n], n0, stride, hadamard);
    }
    assert x[..] == x[..n] + x[n..];
  }
}
