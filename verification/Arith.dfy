/** Powers of two, bit lengths, division facts and byte-string values shared by every other module. */
module Arith {
  type byte = x: int | 0 <= x < 256

  function Min(a: int, b: int): (m: int)
    ensures m <= a && m <= b && (m == a || m == b)
  {
    if a < b then a else b
  }

  function Max(a: int, b: int): (m: int)
    ensures m >= a && m >= b && (m == a || m == b)
  {
    if a < b then b else a
  }

  function Abs(x: int): (a: nat)
    ensures a == x || a == -x
  {
    if x < 0 then -x else x
  }

  function Pow2(e: nat): (p: nat)
    ensures p >= 1
  {
    if e == 0 then 1 else 2 * Pow2(e - 1)
  }

  lemma {:induction false} Pow2Add(a: nat, b: nat)
    ensures Pow2(a + b) == Pow2(a) * Pow2(b)
  {
    if b != 0 {
      Pow2Add(a, b - 1);
      assert Pow2(a) * (2 * Pow2(b - 1)) == 2 * (Pow2(a) * Pow2(b - 1));
    }
  }

  lemma Pow2Byte(e: nat)
    ensures Pow2(e + 8) == Pow2(e) * 256
  {
    Pow2Add(e, 8);
    assert Pow2(8) == 256;
  }

  lemma {:induction false} Pow2Mono(a: nat, b: nat)
    requires a <= b
    ensures Pow2(a) <= Pow2(b)
  {
    if a < b {
      Pow2Mono(a, b - 1);
    }
  }

  /** Strict growth also gives injectivity on exponents. */
  lemma Pow2Strict(a: nat, b: nat)
    requires Pow2(a) < Pow2(b)
    ensures a < b
  {
    if b <= a {
      Pow2Mono(b, a);
    }
  }

  /** The powers of two used as machine constants. */
  lemma Pow2Constants()
    ensures Pow2(0) == 1 && Pow2(1) == 2 && Pow2(7) == 0x80 && Pow2(8) == 0x100
    ensures Pow2(15) == 0x8000 && Pow2(16) == 0x1_0000
    ensures Pow2(23) == 0x80_0000 && Pow2(24) == 0x100_0000
    ensures Pow2(30) == 0x4000_0000 && Pow2(31) == 0x8000_0000 && Pow2(32) == 0x1_0000_0000
  {
    assert Pow2(4) == 16;
    Pow2Add(4, 4);
    assert Pow2(7) == 0x80;
    Pow2Add(8, 7);
    Pow2Add(8, 8);
    Pow2Add(8, 15);
    Pow2Add(8, 16);
    Pow2Add(15, 15);
    Pow2Add(16, 15);
    Pow2Add(16, 16);
  }

  /** Number of significant bits: what the EC_ILOG macro returns. */
  function ILog(v: nat): (l: nat)
    ensures v == 0 <==> l == 0
  {
    if v == 0 then 0 else 1 + ILog(v / 2)
  }

  lemma {:induction false} ILogBounds(v: nat)
    requires v > 0
    ensures Pow2(ILog(v) - 1) <= v < Pow2(ILog(v))
  {
    if v > 1 {
      ILogBounds(v / 2);
    }
  }

  lemma ILogUnique(v: nat, l: nat)
    requires l >= 1 && Pow2(l - 1) <= v < Pow2(l)
    ensures ILog(v) == l
  {
    ILogBounds(v);
    Pow2Strict(l - 1, ILog(v));
    Pow2Strict(ILog(v) - 1, l);
  }

  // ---------------------------------------------------------------- products and quotients

  lemma MulMono(a: int, b: int, k: int)
    requires a <= b && 0 <= k
    ensures a * k <= b * k
  {
  }

  lemma MulAssoc(a: int, b: int, c: int)
    ensures a * (b * c) == (a * b) * c == (a * c) * b
  {
  }

  lemma Distribute(k: int, a: int, b: int)
    ensures k * (a - b) == k * a - k * b && k * (a + b) == k * a + k * b
    ensures k * a == a * k
  {
  }

  /** A quotient is characterised by the interval its dividend lies in. */
  lemma DivUnique(x: int, d: int, q: int)
    requires d > 0 && q * d <= x < (q + 1) * d
    ensures x / d == q
  {
    var p := x / d;
    assert p * d <= x < (p + 1) * d;
    if p < q {
      MulMono(p + 1, q, d);
    } else if q < p {
      MulMono(q + 1, p, d);
    }
  }

  lemma DivModUnique(x: int, d: int, q: int, r: int)
    requires d > 0 && x == q * d + r && 0 <= r < d
    ensures x / d == q && x % d == r
  {
    assert (q + 1) * d == q * d + d;
    DivUnique(x, d, q);
  }

  lemma DivMod(x: int, d: int)
    requires d > 0
    ensures x == (x / d) * d + x % d && 0 <= x % d < d
  {
  }

  lemma Multiple(q: int, d: int)
    requires d > 0
    ensures q * d / d == q && q * d % d == 0
  {
    DivModUnique(q * d, d, q, 0);
  }

  lemma Gap(r: int, a: int, b: int)
    requires 1 <= r && a < b
    ensures r * a + r <= r * b
  {
    MulMono(a + 1, b, r);
    Distribute(r, a, 1);
    Distribute(r, b, 0);
    Distribute(r, a + 1, 0);
  }

  lemma DivBelow(x: nat, d: nat, q: nat)
    requires d > 0 && x < q * d
    ensures x / d < q
  {
    DivMod(x, d);
    if x / d >= q {
      MulMono(q, x / d, d);
    }
  }

  lemma DivMono(x: nat, y: nat, d: nat)
    requires d > 0 && x <= y
    ensures x / d <= y / d
  {
    DivMod(x, d);
    DivMod(y, d);
    if y / d < x / d {
      MulMono(y / d + 1, x / d, d);
      Distribute(d, y / d, 1);
    }
  }

  lemma AlignDown(x: int, d: int)
    requires d > 0
    ensures x - d < x - x % d <= x && (x - x % d) % d == 0
  {
    assert x - x % d == (x / d) * d;
    Multiple(x / d, d);
  }

  lemma ModDivides(x: int, a: int, b: int)
    requires a > 0 && b > 0 && a * b > 0 && x % (a * b) == 0
    ensures x % a == 0
  {
    DivMod(x, a * b);
    var q := x / (a * b);
    MulAssoc(q, b, a);
    Distribute(b, a, 0);
    Multiple(q * b, a);
  }

  /** Splitting a remainder: the low part plus the next digit. */
  lemma ModSplit(x: nat, a: nat, b: nat)
    requires a > 0 && b > 0
    ensures a * b > 0
    ensures x % (a * b) == x % a + a * ((x / a) % b)
    ensures x / (a * b) == (x / a) / b
  {
    var q, r := x / a, x % a;
    var q2, r2 := q / b, q % b;
    assert x == q * a + r && q == q2 * b + r2;
    assert (q2 * b + r2) * a == q2 * (a * b) + a * r2 by {
      assert (q2 * b) * a == q2 * (a * b);
    }
    MulMono(r2, b - 1, a);
    assert (b - 1) * a == a * b - a;
    assert r2 * a == a * r2;
    MulMono(1, b, a);
    DivModUnique(x, a * b, q2, r + a * r2);
  }

  // ---------------------------------------------------------------- bitwise or

  /** Bitwise OR of naturals. */
  function Or(a: nat, b: nat): (r: nat) {
    if a == 0 then b
    else if b == 0 then a
    else 2 * Or(a / 2, b / 2) + if a % 2 == 1 || b % 2 == 1 then 1 else 0
  }

  /** OR of numbers with disjoint bits is their sum. */
  lemma {:induction false} OrDisjoint(a: nat, b: nat, k: nat)
    requires a < Pow2(k)
    ensures Or(a, b * Pow2(k)) == a + b * Pow2(k) == Or(b * Pow2(k), a)
  {
    if k == 0 {
    } else {
      var c := b * Pow2(k - 1);
      assert b * (2 * Pow2(k - 1)) == 2 * c;
      OrDisjoint(a / 2, b, k - 1);
    }
  }

  // ---------------------------------------------------------------- byte strings as numbers

  /** Big-endian value. */
  function Big(s: seq<byte>): (r: nat) {
    if |s| == 0 then 0 else 256 * Big(s[..|s| - 1]) + s[|s| - 1]
  }

  /** Little-endian value of the string read from its last byte towards its first. */
  function Tail(s: seq<byte>): (r: nat) {
    if |s| == 0 then 0 else s[|s| - 1] + 256 * Tail(s[..|s| - 1])
  }

  lemma BigAppend(s: seq<byte>, b: byte)
    ensures Big(s + [b]) == 256 * Big(s) + b
  {
    assert (s + [b])[..|s|] == s;
  }

  lemma TailPrepend(b: byte, s: seq<byte>)
    ensures Tail([b] + s) == Tail(s) + Pow2(8 * |s|) * b
  {
    hide Tail, Pow2;
    TailSingle(b);
    TailConcat([b], s);
  }

  lemma TailSingle(b: byte)
    ensures Tail([b]) == b
  {
    assert [b][..0] == [];
  }

  lemma {:induction false} TailConcat(s: seq<byte>, t: seq<byte>)
    ensures Tail(s + t) == Tail(t) + Pow2(8 * |t|) * Tail(s)
  {
    if |t| == 0 {
      assert s + t == s;
    } else {
      var t' := t[..|t| - 1];
      assert (s + t)[..|s + t| - 1] == s + t';
      TailConcat(s, t');
      Pow2Byte(8 * |t'|);
      assert 8 * |t'| + 8 == 8 * |t|;
      MulAssoc(Pow2(8 * |t'|), Tail(s), 256);
    }
  }

  lemma {:induction false} TailBound(s: seq<byte>)
    ensures Tail(s) < Pow2(8 * |s|)
  {
    if |s| != 0 {
      TailBound(s[..|s| - 1]);
      Pow2Byte(8 * (|s| - 1));
    }
  }

  lemma TailLast(s: seq<byte>)
    requires |s| > 0
    ensures Tail(s) % 256 == s[|s| - 1]
  {
    DivModUnique(Tail(s), 256, Tail(s[..|s| - 1]), s[|s| - 1]);
  }

  lemma TailDrop(s: seq<byte>, j: nat)
    requires j <= |s|
    ensures Tail(s) / Pow2(8 * j) == Tail(s[..|s| - j])
  {
    hide Tail, Pow2;
    var a, b := s[..|s| - j], s[|s| - j..];
    assert s == a + b;
    TailConcat(a, b);
    TailBound(b);
    Distribute(Pow2(8 * j), Tail(a), 0);
    DivModUnique(Tail(s), Pow2(8 * j), Tail(a), Tail(b));
  }

  /** The j-th base-256 digit of Tail(s) is the j-th byte from the end, and 0 past the start of the string. */
  lemma TailDigit(s: seq<byte>, j: nat)
    ensures Tail(s) / Pow2(8 * j) % 256 == if j < |s| then s[|s| - 1 - j] else 0
  {
    hide Tail, Pow2;
    if j >= |s| {
      TailBound(s);
      Pow2Mono(8 * |s|, 8 * j);
      DivUnique(Tail(s), Pow2(8 * j), 0);
    } else {
      TailDrop(s, j);
      TailLast(s[..|s| - j]);
    }
  }
}
