/** Counting bits in eighths: ec_ilog() and ec_tell_frac() of celt/entcode.c. */
module TellFrac {
  import opened Arith
  import opened RangeModel

  const CORRECTION: seq<nat> := [35733, 38967, 42495, 46340, 50535, 55109, 60097, 65535]

  /** ec_ilog(): five halvings of the window the top bit is searched in. */
  method EcIlog(v0: nat) returns (ret: nat)
    requires v0 < 0x1_0000_0000
    ensures ret == ILog(v0)
  {
    hide ILog;
    var v := v0;
    ret := if v != 0 then 1 else 0;
    var m := if v >= 0x1_0000 then 16 else 0;
    IlogDrop(v, m);
    v := v / Pow2(m);
    ret := ret + m;
    m := if v >= 0x100 then 8 else 0;
    IlogDrop(v, m);
    v := v / Pow2(m);
    ret := ret + m;
    m := if v >= 0x10 then 4 else 0;
    IlogDrop(v, m);
    v := v / Pow2(m);
    ret := ret + m;
    m := if v >= 4 then 2 else 0;
    IlogDrop(v, m);
    v := v / Pow2(m);
    ret := ret + m;
    ret := ret + if v >= 2 then 1 else 0;
    IlogSmall(v);
  }

  lemma IlogSmall(v: nat)
    requires v < 4
    ensures ILog(v) == if v == 0 then 0 else if v == 1 then 1 else 2
  {
    assert ILog(0) == 0;
    assert ILog(1) == 1;
  }

  /** Dropping the low m bits when a bit at or above them is set. */
  lemma IlogDrop(v: nat, m: nat)
    requires m in {0, 2, 4, 8, 16} && (m == 0 || v >= Pow2(m))
    ensures 0 <= v / Pow2(m) && ILog(v) == ILog(v / Pow2(m)) + m && (v > 0 <==> v / Pow2(m) > 0)
    ensures m == 16 && v < 0x1_0000_0000 ==> v / Pow2(m) < 0x1_0000
    ensures m == 8 && v < 0x1_0000 ==> v / Pow2(m) < 0x100
    ensures m == 4 && v < 0x100 ==> v / Pow2(m) < 0x10
    ensures m == 2 && v < 0x10 ==> v / Pow2(m) < 4
    ensures m == 0 ==> v / Pow2(m) == v
    ensures Pow2(16) == 0x1_0000 && Pow2(8) == 0x100 && Pow2(4) == 0x10 && Pow2(2) == 4
  {
    hide ILog, Pow2;
    Powers();
    ILogShift(v, m);
    if v > 0 {
      ILogBounds(v);
    }
  }

  lemma Powers()
    ensures Pow2(0) == 1 && Pow2(2) == 4 && Pow2(4) == 0x10 && Pow2(8) == 0x100 && Pow2(16) == 0x1_0000
  {
    Pow2Constants();
  }

  lemma {:induction false} ILogShift(v: nat, m: nat)
    requires m == 0 || v >= Pow2(m)
    ensures 0 <= v / Pow2(m) && ILog(v) == ILog(v / Pow2(m)) + m
  {
    hide ILog, Pow2;
    Powers();
    if m > 0 {
      HalfAbove(v, m);
      ILogShift(v / 2, m - 1);
      ILogHalf(v);
    }
  }

  lemma ILogHalf(v: nat)
    requires v > 0
    ensures ILog(v) == 1 + ILog(v / 2)
  {
  }

  lemma HalfAbove(v: nat, m: nat)
    requires m > 0 && v >= Pow2(m)
    ensures v / 2 >= Pow2(m - 1) && v / Pow2(m) == v / 2 / Pow2(m - 1)
  {
    ModSplit(v, 2, Pow2(m - 1));
  }

  // ---------------------------------------------------------------- eighths of a bit

  /** The 16 leading bits of a range. */
  function Lead(rng: nat): (r: nat)
    requires rng >= 0x8000
    ensures 0x8000 <= r < 0x1_0000
  {
    Pow2Constants();
    ILogBounds(rng);
    Pow2Strict(15, ILog(rng));
    Pow2Add(15, ILog(rng) - 16);
    Pow2Add(16, ILog(rng) - 16);
    LeadBounds(rng, Pow2(ILog(rng) - 16));
    rng / Pow2(ILog(rng) - 16)
  }

  lemma LeadBounds(rng: nat, d: nat)
    requires d > 0 && 0x8000 * d <= rng < 0x1_0000 * d
    ensures 0x8000 <= rng / d < 0x1_0000
  {
    DivMod(rng, d);
    var q := rng / d;
    if q < 0x8000 {
      MulMono(q + 1, 0x8000, d);
    } else if q >= 0x1_0000 {
      MulMono(0x1_0000, q, d);
    }
  }

  /** The lookup version's eighths. */
  function FastEighths(r: nat): (b: nat)
    requires 0x8000 <= r < 0x1_0000
    ensures b <= 7
  {
    var b := r / 0x1000 - 8;
    b + if r > CORRECTION[b] then 1 else 0
  }

  /** One squaring of the reference version: the next bit of the logarithm and the next mantissa. */
  function Squared(r: nat): (v: nat) {
    r * r / 0x8000
  }

  function Bit(r: nat): (v: nat)
  {
    Squared(r) / 0x1_0000
  }

  function NextLead(r: nat): (q: nat)
    requires 0x8000 <= r < 0x1_0000
    ensures 0x8000 <= q < 0x1_0000 && Bit(r) <= 1
  {
    SquareBounds(r);
    if Bit(r) == 0 then Squared(r) else Squared(r) / 2
  }

  lemma SquareBounds(r: nat)
    requires 0x8000 <= r < 0x1_0000
    ensures 0x8000 <= Squared(r) < 0x2_0000
  {
    MulMono(0x8000, r, r);
    MulMono(r, 0xffff, r);
    MulMono(0x8000, r, 0x8000);
    MulMono(r, 0xffff, 0xffff);
  }

  /** The reference version's eighths: three squarings. */
  function SlowEighths(r: nat): (b: nat)
    requires 0x8000 <= r < 0x1_0000
  {
    4 * Bit(r) + 2 * Bit(NextLead(r)) + Bit(NextLead(NextLead(r)))
  }

  /** A larger mantissa has no smaller bit, and for equal bits no smaller next mantissa. */
  lemma SquareMonotone(a: nat, b: nat)
    requires 0x8000 <= a <= b < 0x1_0000
    ensures Bit(a) <= Bit(b) <= 1
    ensures Bit(a) == Bit(b) ==> NextLead(a) <= NextLead(b)
  {
    SquareBounds(a);
    SquareBounds(b);
    MulMono(a, b, a);
    MulMono(a, b, b);
  }

  lemma SlowMonotone(a: nat, b: nat)
    requires 0x8000 <= a <= b < 0x1_0000
    ensures SlowEighths(a) <= SlowEighths(b)
  {
    hide Squared, Bit, NextLead;
    SquareMonotone(a, b);
    SquareMonotone(NextLead(a), NextLead(a));
    SquareMonotone(NextLead(b), NextLead(b));
    SquareMonotone(NextLead(NextLead(a)), NextLead(NextLead(a)));
    SquareMonotone(NextLead(NextLead(b)), NextLead(NextLead(b)));
    if Bit(a) == Bit(b) {
      SquareMonotone(NextLead(a), NextLead(b));
      if Bit(NextLead(a)) == Bit(NextLead(b)) {
        SquareMonotone(NextLead(NextLead(a)), NextLead(NextLead(b)));
      }
    }
  }

  /** The correction table holds the last mantissa of every eighth. */
  lemma Thresholds()
    ensures forall k :: 0 <= k < 7 ==> 0x8000 <= CORRECTION[k] < 0xffff
    ensures SlowEighths(0x8000) == 0 && SlowEighths(65535) == 7
    ensures SlowEighths(35733) == 0 && SlowEighths(35734) == 1
    ensures SlowEighths(38967) == 1 && SlowEighths(38968) == 2
    ensures SlowEighths(42495) == 2 && SlowEighths(42496) == 3
    ensures SlowEighths(46340) == 3 && SlowEighths(46341) == 4
    ensures SlowEighths(50535) == 4 && SlowEighths(50536) == 5
    ensures SlowEighths(55109) == 5 && SlowEighths(55110) == 6
    ensures SlowEighths(60097) == 6 && SlowEighths(60098) == 7
  {
    hide SlowEighths;
    Eighths(32768, 32768, 32768, 32768);
    Eighths(65535, 131068, 131064, 131056);
    Eighths(35733, 38966, 46336, 65522);
    Eighths(35734, 38968, 46341, 65536);
    Eighths(38967, 46338, 65527, 131036);
    Eighths(38968, 46341, 65536, 32768);
    Eighths(42495, 55109, 92681, 65533);
    Eighths(42496, 55112, 92692, 65550);
    Eighths(46340, 65533, 131060, 131048);
    Eighths(46341, 65536, 32768, 32768);
    Eighths(50535, 77935, 46338, 65527);
    Eighths(50536, 77938, 46343, 65541);
    Eighths(55109, 92681, 65533, 131060);
    Eighths(55110, 92685, 65538, 32770);
    Eighths(60097, 110218, 92681, 65533);
    Eighths(60098, 110222, 92688, 65544);
  }

  /** The reference version by its three squares. */
  lemma Eighths(r: nat, s1: nat, s2: nat, s3: nat)
    requires 0x8000 <= r < 0x1_0000 && s1 == r * r / 0x8000
    requires var q := if s1 < 0x1_0000 then s1 else s1 / 2; s2 == q * q / 0x8000
    requires var q := if s2 < 0x1_0000 then s2 else s2 / 2; s3 == q * q / 0x8000
    ensures SlowEighths(r) == 4 * (s1 / 0x1_0000) + 2 * (s2 / 0x1_0000) + s3 / 0x1_0000
  {
  }

  /** The lookup agrees with repeated squaring on every mantissa. */
  lemma FastIsSlow(r: nat)
    requires 0x8000 <= r < 0x1_0000
    ensures FastEighths(r) == SlowEighths(r)
  {
    hide SlowEighths;
    Thresholds();
    var k := r / 0x1000 - 8;
    var lo := if k == 0 then 0x8000 else CORRECTION[k - 1] + 1;
    if r <= CORRECTION[k] {
      SlowMonotone(lo, r);
      SlowMonotone(r, CORRECTION[k]);
    } else {
      SlowMonotone(CORRECTION[k] + 1, r);
      SlowMonotone(r, CORRECTION[k + 1]);
    }
  }

  /** The logarithm of a range in eighths, scaled like EC_ILOG. */
  function Log8(rng: nat): (l: nat)
    requires rng >= 0x8000
    ensures 8 * ILog(rng) <= l <= 8 * ILog(rng) + 7
  {
    8 * ILog(rng) + FastEighths(Lead(rng))
  }

  /** ec_tell_frac() of a coder state. */
  function Tell8(s: State): (r: int)
    requires CODE_BOT < s.rng
  {
    8 * s.NbitsTotal() - Log8(s.rng)
  }

  /** The version in use: a linear function and one comparison. */
  method EcTellFrac(nbitsTotal: int, rng: nat) returns (t: int)
    requires CODE_BOT < rng <= CODE_TOP
    ensures t == 8 * nbitsTotal - Log8(rng)
  {
    hide Pow2, ILog;
    var nbits := 8 * nbitsTotal;
    var l: nat := ILog(rng);
    LeadIs(rng);
    var r := rng / Pow2(l - 16);
    var b := r / 0x1000 - 8;
    b := b + if r > CORRECTION[b] then 1 else 0;
    l := 8 * l + b;
    t := nbits - l;
  }

  lemma LeadIs(rng: nat)
    requires rng >= 0x8000
    ensures ILog(rng) >= 16 && Lead(rng) == rng / Pow2(ILog(rng) - 16)
  {
    Pow2Constants();
    ILogBounds(rng);
    Pow2Strict(15, ILog(rng));
  }

  /** The reference version: three rounds of squaring give the same count. */
  method EcTellFracReference(nbitsTotal: int, rng: nat) returns (t: int)
    requires CODE_BOT < rng <= CODE_TOP
    ensures t == 8 * nbitsTotal - Log8(rng)
  {
    hide Pow2, ILog, FastEighths, Lead;
    var nbits := 8 * nbitsTotal;
    var l: nat := ILog(rng);
    LeadIs(rng);
    var r := rng / Pow2(l - 16);
    FastIsSlow(r);
    ghost var l0, r0 := l, r;
    var i := 3;
    while i > 0
      invariant 0 <= i <= 3 && 0x8000 <= r < 0x1_0000
      invariant i == 3 ==> r == r0 && l == l0
      invariant i == 2 ==> r == NextLead(r0) && l == 2 * l0 + Bit(r0)
      invariant i == 1 ==> r == NextLead(NextLead(r0)) && l == 4 * l0 + 2 * Bit(r0) + Bit(NextLead(r0))
      invariant i == 0 ==> l == 8 * l0 + SlowEighths(r0)
    {
      ghost var q := NextLead(r);
      MulMono(0, r, r);
      r := r * r / 0x8000;
      var b := r / 0x1_0000;
      l := 2 * l + b;
      r := if b == 0 then r else r / 2;
      assert r == q;
      i := i - 1;
    }
    t := nbits - l;
  }

  /** The fractional count refines the whole one. */
  lemma Tell8Bounds(s: State)
    requires CODE_BOT < s.rng
    ensures 8 * s.Tell() - 8 < Tell8(s) <= 8 * s.Tell()
  {
  }

  // ---------------------------------------------------------------- never below the information coded

  function Pow8(x: nat): (r: nat) {
    Sq(Sq(Sq(x)))
  }

  function Sq(x: nat): (r: nat) {
    x * x
  }

  /** One squaring loses nothing upwards: r^2 is at least what bit and next mantissa stand for. */
  lemma SquareCovers(r: nat)
    requires 0x8000 <= r < 0x1_0000
    ensures Sq(r) >= NextLead(r) * Pow2(15 + Bit(r))
  {
    SquareBounds(r);
    Pow2Constants();
    var s := Squared(r);
    assert s * 0x8000 <= Sq(r);
  }

  lemma SqMono(a: nat, b: nat)
    requires a <= b
    ensures Sq(a) <= Sq(b)
  {
    MulMono(a, b, a);
    MulMono(a, b, b);
  }

  lemma SqProduct(a: nat, k: nat)
    ensures 0 <= a * Pow2(k) && Sq(a * Pow2(k)) == Sq(a) * Pow2(2 * k)
  {
    MulMono(0, a, Pow2(k));
    Pow2Add(k, k);
    ProductSquare(a, Pow2(k));
  }

  lemma ProductSquare(a: nat, b: nat)
    requires 0 <= a * b
    ensures Sq(a * b) == Sq(a) * (b * b)
  {
    MulAssoc(a * b, a, b);
    MulAssoc(a, b, a);
    MulAssoc(a * a, b, b);
  }

  /** One level of the squaring chain: from x >= q 2^k to x^2 >= q' 2^(2k + 15 + bit). */
  lemma ChainStep(x: nat, q: nat, k: nat)
    requires 0x8000 <= q < 0x1_0000 && x >= q * Pow2(k)
    ensures Sq(x) >= NextLead(q) * Pow2(2 * k + 15 + Bit(q))
  {
    hide Pow2, Sq, NextLead, Bit;
    SqProduct(q, k);
    SqMono(q * Pow2(k), x);
    SquareCovers(q);
    MulMono(NextLead(q) * Pow2(15 + Bit(q)), Sq(q), Pow2(2 * k));
    Pow2Add(15 + Bit(q), 2 * k);
    MulAssoc(NextLead(q), Pow2(15 + Bit(q)), Pow2(2 * k));
    assert 15 + Bit(q) + 2 * k == 2 * k + 15 + Bit(q);
  }

  /** rng^8 is at least 2 to the eighths counted (less the one bit of EC_ILOG). */
  lemma Log8Covers(rng: nat)
    requires 0x8000 <= rng
    ensures Log8(rng) >= 8 && Pow8(rng) >= Pow2(Log8(rng) - 8)
  {
    hide Pow2, ILog, Sq, Lead, Bit, NextLead, FastEighths;
    LeadIs(rng);
    var r, k: nat := Lead(rng), ILog(rng) - 16;
    DivMod(rng, Pow2(k));
    FastIsSlow(r);
    ChainStep(rng, r, k);
    var k1 := 2 * k + 15 + Bit(r);
    ChainStep(Sq(rng), NextLead(r), k1);
    var k2 := 2 * k1 + 15 + Bit(NextLead(r));
    ChainStep(Sq(Sq(rng)), NextLead(NextLead(r)), k2);
    var k3 := 2 * k2 + 15 + Bit(NextLead(NextLead(r)));
    var q := NextLead(NextLead(NextLead(r)));
    Pow2Constants();
    MulMono(Pow2(15), q, Pow2(k3));
    Pow2Add(15, k3);
    assert 15 + k3 == Log8(rng) - 8;
  }

  /** The count never under-reports: the range left is no smaller than the bits not yet used allow. */
  lemma Tell8Covers(s: State)
    requires CODE_BOT < s.rng
    ensures 0 <= 8 * (s.NbitsTotal() - 1) - Tell8(s)
    ensures Pow8(s.rng) >= Pow2(8 * (s.NbitsTotal() - 1) - Tell8(s))
  {
    hide Pow8, Log8, Pow2;
    Log8Covers(s.rng);
  }

  // ---------------------------------------------------------------- never more than two eighths above it

  /** One squaring with e units of slack: at most 4e + 2 units of the next mantissa. */
  lemma SquareBelow(r: nat, e: nat)
    requires 0x8000 <= r < 0x1_0000 && e <= 181
    ensures Sq(r + e) < (NextLead(r) + 4 * e + 2) * Pow2(15 + Bit(r))
  {
    SquareBounds(r);
    Pow2Constants();
    assert Pow2(15) == 0x8000 && Pow2(16) == 0x1_0000;
    DivMod(r * r, 0x8000);
    MulMono(e, 181, e);
    MulMono(e, 181, 181);
    MulMono(r, 0xffff, e);
    Distribute(r + e, r, e);
    Distribute(r, r, e);
    Distribute(e, r, e);
    assert Sq(r + e) < 0x8000 * (Squared(r) + 4 * e + 2);
  }

  /** One level of the chain from above. */
  lemma ChainBelow(x: nat, q: nat, e: nat, k: nat)
    requires 0x8000 <= q < 0x1_0000 && e <= 181 && x < (q + e) * Pow2(k)
    ensures Sq(x) < (NextLead(q) + 4 * e + 2) * Pow2(2 * k + 15 + Bit(q))
  {
    hide Pow2, Sq, NextLead, Bit;
    var b := 15 + Bit(q);
    SqProduct(q + e, k);
    SqMono(x, (q + e) * Pow2(k));
    SquareBelow(q, e);
    Pow2Add(b, 2 * k);
    ScaledBelow(Sq(x), Sq(q + e), NextLead(q) + 4 * e + 2, Pow2(b), Pow2(2 * k));
    assert b + 2 * k == 2 * k + 15 + Bit(q);
  }

  lemma ScaledBelow(x: nat, a: nat, q: nat, b: nat, c: nat)
    requires x <= a * c && a < q * b && c > 0
    ensures x < q * (b * c)
  {
    MulMono(a + 1, q * b, c);
    Distribute(c, a, 1);
    MulAssoc(q, b, c);
  }

  /** Three truncated squarings lose at most 106 units of the last mantissa, so one power of two is enough. */
  lemma Log8Within(rng: nat)
    requires 0x8000 <= rng
    ensures Log8(rng) >= 8 && Pow8(rng) < Pow2(Log8(rng) - 8 + 2)
  {
    hide Pow2, ILog, Sq, Lead, Bit, NextLead, FastEighths;
    LeadIs(rng);
    var r, k: nat := Lead(rng), ILog(rng) - 16;
    DivMod(rng, Pow2(k));
    Distribute(Pow2(k), r, 1);
    FastIsSlow(r);
    ChainBelow(rng, r, 1, k);
    var k1 := 2 * k + 15 + Bit(r);
    ChainBelow(Sq(rng), NextLead(r), 6, k1);
    var k2 := 2 * k1 + 15 + Bit(NextLead(r));
    ChainBelow(Sq(Sq(rng)), NextLead(NextLead(r)), 26, k2);
    var k3 := 2 * k2 + 15 + Bit(NextLead(NextLead(r)));
    var q := NextLead(NextLead(NextLead(r)));
    Pow2Constants();
    Pow2Add(1, 16);
    MulMono(q + 106, Pow2(17), Pow2(k3));
    Pow2Add(17, k3);
    assert 17 + k3 == Log8(rng) - 8 + 2;
  }

  /** The count over-reports by less than two eighths of a bit. */
  lemma Tell8Within(s: State)
    requires CODE_BOT < s.rng
    ensures 0 <= 8 * (s.NbitsTotal() - 1) - Tell8(s)
    ensures Pow8(s.rng) < Pow2(8 * (s.NbitsTotal() - 1) - Tell8(s) + 2)
  {
    hide Pow8, Log8, Pow2;
    Log8Within(s.rng);
  }

  /** One eighth is not enough: here the low bits that the mantissa drops carry the range past the next eighth. */
  lemma OverByOneEighth()
    ensures Log8(1518501887) == 251 && Pow8(1518501887) >= Pow2(251 - 8 + 1)
  {
    hide Pow2, ILog, Sq;
    var rng := 1518501887;
    Pow2Constants();
    ILogUnique(rng, 31);
    LeadIs(rng);
    assert Lead(rng) == 46340;
    Pow2Add(30, 31);
    PowerSquare(61);
    PowerSquare(122);
    SquareOf(rng);
    SqMono(Pow2(61), Sq(rng));
    SqMono(Pow2(122), Sq(Sq(rng)));
  }

  lemma SquareOf(x: nat)
    ensures Sq(x) == x * x
  {
  }

  lemma PowerSquare(k: nat)
    ensures Sq(Pow2(k)) == Pow2(2 * k)
  {
    hide Sq, Pow2;
    SquareOf(Pow2(k));
    Pow2Add(k, k);
  }

  // ---------------------------------------------------------------- monotone along every run

  lemma LeadMonotone(a: nat, b: nat)
    requires 0x8000 <= a <= b
    ensures 16 <= ILog(a) <= ILog(b) && (ILog(a) == ILog(b) ==> Lead(a) <= Lead(b))
  {
    hide Pow2, ILog;
    ILogBounds(a);
    ILogBounds(b);
    LeadIs(a);
    LeadIs(b);
    Pow2Strict(ILog(a) - 1, ILog(b));
    DivMono(a, b, Pow2(ILog(a) - 16));
  }

  lemma Log8Monotone(a: nat, b: nat)
    requires 0x8000 <= a <= b
    ensures Log8(a) <= Log8(b)
  {
    hide SlowEighths, Lead, ILog;
    LeadMonotone(a, b);
    if ILog(a) == ILog(b) {
      FastIsSlow(Lead(a));
      FastIsSlow(Lead(b));
      SlowMonotone(Lead(a), Lead(b));
    }
  }

  /** A renormalisation shift is exactly eight bits. */
  lemma Log8Shift(rng: nat)
    requires 0x8000 <= rng
    ensures Log8(rng * 256) == Log8(rng) + 64
  {
    hide ILog, Pow2;
    ILogBounds(rng);
    LeadIs(rng);
    LeadIs(rng * 256);
    Pow2Byte(ILog(rng) - 1);
    Pow2Byte(ILog(rng));
    ILogUnique(rng * 256, ILog(rng) + 8);
    Pow2Byte(ILog(rng) - 16);
    var d := Pow2(ILog(rng) - 16);
    DivScale(rng, d, 256);
  }

  lemma DivScale(x: nat, d: nat, m: nat)
    requires d > 0 && m > 0
    ensures d * m > 0 && x * m / (d * m) == x / d
  {
    DivMod(x, d);
    var q, r := x / d, x % d;
    MulAssoc(q, d, m);
    MulMono(r + 1, d, m);
    Distribute(m, q * d, r);
    MulMono(0, r, m);
    DivModUnique(x * m, d * m, q, r * m);
  }

  lemma {:induction false} Tell8Normalize(s: State, top: nat)
    requires 0 < s.rng <= top && top >= 0x8000
    ensures Tell8(Normalize(s)) >= 8 * s.NbitsTotal() - Log8(top)
    decreases if s.rng <= CODE_BOT then CODE_BOT + 1 - s.rng else 0
  {
    hide Log8;
    if s.rng <= CODE_BOT {
      Log8Shift(top);
      Tell8Normalize(Shift(s), top * 256);
    } else {
      Log8Monotone(s.rng, top);
    }
  }

  /** Coding a symbol or raw bits never lowers the count. */
  lemma Tell8Step(s: State, op: Op)
    requires CODE_BOT < s.rng <= CODE_TOP
    ensures Tell8(Step(s, op)) >= Tell8(s)
  {
    hide Log8;
    match op
    case Freq(fl, fh, ft) => Tell8Normalize(Narrow(s, fl, fh, ft), s.rng);
    case Bits(v, k) =>
  }

  // ---------------------------------------------------------------- what a symbol costs

  lemma {:induction false} Tell8Renormalized(s: State)
    requires 0x8000 <= s.rng <= CODE_TOP
    ensures Tell8(Normalize(s)) == 8 * s.NbitsTotal() - Log8(s.rng)
    decreases if s.rng <= CODE_BOT then CODE_BOT + 1 - s.rng else 0
  {
    hide Log8;
    if s.rng <= CODE_BOT {
      Log8Shift(s.rng);
      Tell8Renormalized(Shift(s));
    }
  }

  /** Dropping k low bits is exactly k bits, as long as the leading ones stay. */
  lemma Log8Drop(rng: nat, k: nat)
    requires 0x8000 <= rng / Pow2(k)
    ensures 0x8000 <= rng && Log8(rng) == Log8(rng / Pow2(k)) + 8 * k
  {
    hide ILog, Pow2, FastEighths;
    var q := rng / Pow2(k);
    DivMod(rng, Pow2(k));
    MulMono(1, q, Pow2(k));
    MulMono(1, Pow2(k), q);
    ILogShift(rng, k);
    LeadIs(rng);
    LeadIs(q);
    Pow2Add(k, ILog(q) - 16);
    assert ILog(rng) - 16 == k + (ILog(q) - 16);
    ModSplit(rng, Pow2(k), Pow2(ILog(q) - 16));
  }

  /** 2^c shares of 2^k take k - c bits. */
  lemma Log8Share(rng: nat, k: nat, c: nat)
    requires CODE_BOT < rng && c <= k <= 8
    ensures var least: int := rng / Pow2(k) * Pow2(c);
            least >= 0x8000 && Log8(least) == Log8(rng) - 8 * (k - c)
  {
    hide Pow2, Log8;
    Pow2Constants();
    Pow2Mono(k, 8);
    Pow2Mono(0, c);
    ShareBelow(rng, Pow2(k));
    var r: nat := rng / Pow2(k);
    MulMono(1, Pow2(c), r);
    Multiple(r, Pow2(c));
    Log8Drop(rng, k);
    Log8Drop(r * Pow2(c), c);
  }

  /** A symbol gets a share of the range for each unit of its frequency, and exactly that if it is not the first. */
  lemma SymbolShare(s: State, fl: nat, fh: nat, ft: nat, w: nat)
    requires fl < fh <= ft <= CODE_BOT < s.rng && w <= fh - fl
    ensures Narrow(s, fl, fh, ft).rng >= s.rng / ft * w
    ensures fl > 0 && w == fh - fl ==> Narrow(s, fl, fh, ft).rng == s.rng / ft * w
  {
    var r := s.rng / ft;
    NarrowFields(s.rng, fl, fh, ft);
    DivMono(0, s.rng, ft);
    MulMono(w, fh - fl, r);
    DivMod(s.rng, ft);
    Distribute(r, ft - fh, ft - fl);
    Distribute(r, ft, fh);
  }

  /** A symbol takes at most the bits its share of the total stands for; exactly those when it is not the first. */
  lemma Tell8Symbol(s: State, fl: nat, fh: nat, ft: nat, k: nat, c: nat)
    requires CODE_BOT < s.rng <= CODE_TOP && c <= k <= 8 && fl < fh <= ft == Pow2(k) && fh - fl >= Pow2(c)
    ensures ft <= CODE_BOT && Tell8(Step(s, Freq(fl, fh, ft))) <= Tell8(s) + 8 * (k - c)
    ensures fl > 0 && fh - fl == Pow2(c) ==> Tell8(Step(s, Freq(fl, fh, ft))) == Tell8(s) + 8 * (k - c)
  {
    hide ILog, Pow2, Log8, Normalize;
    Pow2Constants();
    Pow2Mono(k, 8);
    Log8Share(s.rng, k, c);
    SymbolShare(s, fl, fh, ft, Pow2(c));
    var t := Narrow(s, fl, fh, ft);
    Log8Monotone(s.rng / ft * Pow2(c), t.rng);
    Tell8Renormalized(t);
  }

  lemma ShareBelow(rng: nat, ft: nat)
    requires 0x80_0000 < rng && 0 < ft <= 0x100
    ensures rng / ft >= 0x8000
  {
    DivMod(rng, ft);
    var q := rng / ft;
    if q < 0x8000 {
      MulMono(q + 1, 0x8000, ft);
    }
  }

  /** The rarer value of a bit takes exactly logp bits, the other one at most one. */
  lemma Tell8Bit(s: State, bit: bool, logp: nat)
    requires CODE_BOT < s.rng <= CODE_TOP && 1 <= logp <= 8
    ensures bit ==> Tell8(Step(s, BitOp(bit, logp))) == Tell8(s) + 8 * logp
    ensures !bit ==> Tell8(Step(s, BitOp(bit, logp))) <= Tell8(s) + 8
  {
    hide Tell8, Step, Pow2;
    Pow2Constants();
    Pow2Mono(1, logp);
    if bit {
      Tell8Symbol(s, Pow2(logp) - 1, Pow2(logp), Pow2(logp), logp, 0);
    } else {
      Pow2Add(logp - 1, 1);
      assert Pow2(logp) == 2 * Pow2(logp - 1);
      Pow2Mono(0, logp - 1);
      Tell8Symbol(s, 0, Pow2(logp) - 1, Pow2(logp), logp, logp - 1);
    }
  }
}
