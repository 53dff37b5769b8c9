/** Why the bytes ec_enc_done() leaves in the buffer decode to the encoder's final interval and raw bits. */
module Flush {
  import opened Arith
  import opened RangeModel

  // ---------------------------------------------------------------- choosing the final code point

  /** 32 - EC_ILOG(rng): the bits needed to name a value of the range in the best case. */
  function Shortest(rng: nat): (l: nat)
    requires CODE_BOT < rng <= CODE_TOP
    ensures l <= 8
  {
    Pow2Constants();
    ILogBounds(rng);
    Pow2Strict(23, ILog(rng));
    Pow2Strict(ILog(rng) - 1, 32);
    32 - ILog(rng)
  }

  /** (val + msk) & ~msk, for a mask of low bits. */
  function ClearMask(val: nat, msk: nat): (end: nat)
    ensures val <= end <= val + msk
  {
    AlignDown(val + msk, msk + 1);
    (val + msk) - (val + msk) % (msk + 1)
  }

  /** val rounded up to a multiple of 2^(31-l). */
  function RoundUp(val: nat, l: nat): (end: nat)
    requires l <= 31
  {
    ClearMask(val, Pow2(31 - l) - 1)
  }

  lemma RoundUpBounds(val: nat, l: nat)
    requires l <= 31
    ensures val <= RoundUp(val, l) < val + Pow2(31 - l)
    ensures RoundUp(val, l) % Pow2(31 - l) == 0
  {
    AlignDown(val + Pow2(31 - l) - 1, Pow2(31 - l));
  }

  predicate Covers(val: nat, rng: nat, l: nat)
    requires l <= 31
  {
    RoundUp(val, l) + Pow2(31 - l) <= val + rng
  }

  /** How many bits of the final code point ec_enc_done() writes. */
  function FlushLen(val: nat, rng: nat): (l: nat)
    requires CODE_BOT < rng <= CODE_TOP
    ensures Shortest(rng) <= l <= Shortest(rng) + 1 <= 9
  {
    if Covers(val, rng, Shortest(rng)) then Shortest(rng) else Shortest(rng) + 1
  }

  /** The chosen bits name a sub-interval of the range whatever bits follow them. */
  lemma FlushCovers(val: nat, rng: nat)
    requires CODE_BOT < rng <= CODE_TOP
    ensures Covers(val, rng, FlushLen(val, rng))
  {
    var l := Shortest(rng);
    if !Covers(val, rng, l) {
      ILogBounds(rng);
      assert Pow2(31 - l) <= rng;
      RoundUpBounds(val, l + 1);
    }
  }

  /** No shorter flush would do: with fewer bits, no code point has all its continuations in the range. */
  lemma FlushMinimal(val: nat, rng: nat, l: nat, e: nat)
    requires CODE_BOT < rng <= CODE_TOP && l < FlushLen(val, rng)
    requires val <= e && e % Pow2(31 - l) == 0
    ensures val + rng < e + Pow2(31 - l)
  {
    var b := Pow2(31 - l);
    if l < Shortest(rng) {
      ILogBounds(rng);
      Pow2Mono(ILog(rng), 31 - l);
    } else {
      RoundUpBounds(val, l);
      MultipleGap(e, RoundUp(val, l), b);
    }
  }

  lemma MultipleGap(a: int, b: int, d: int)
    requires d > 0 && a % d == 0 && b % d == 0 && b - d < a
    ensures b <= a
  {
    var p, q := a / d, b / d;
    assert a == p * d && b == q * d;
    Distribute(d, q, 1);
    if p < q {
      MulMono(p, q - 1, d);
    }
  }

  // ---------------------------------------------------------------- the packet

  function Zeros(n: nat): (s: seq<byte>)
    ensures |s| == n && forall i :: 0 <= i < n ==> s[i] == 0
  {
    seq(n, _ => 0)
  }

  /** Range bytes, cleared space, raw bytes; `extra` is OR-ed into the byte before the raw bytes. */
  function Packet(front: seq<byte>, z: nat, back: seq<byte>, extra: byte): (p: seq<byte>)
    requires extra == 0 || |front| + z > 0
    ensures |p| == |front| + z + |back|
  {
    var body := front + Zeros(z);
    if extra == 0 then body + back
    else
      var m := |body| - 1;
      OrByte(body[m], extra);
      body[..m] + [Or(body[m], extra)] + back
  }

  /** The packet is the two ends around cleared space, with the shared byte updated in place. */
  lemma PacketInPlace(front: seq<byte>, z: nat, back: seq<byte>, extra: byte)
    requires |front| + z > 0
    ensures var cleared, m := front + Zeros(z) + back, |front| + z - 1;
            && 0 <= Or(cleared[m], extra) < 256
            && Packet(front, z, back, extra) == cleared[m := Or(cleared[m], extra)]
  {
    OrByte((front + Zeros(z) + back)[|front| + z - 1], extra);
  }

  lemma {:induction false} OrBits(a: nat, b: nat, k: nat)
    requires a < Pow2(k) && b < Pow2(k)
    ensures Or(a, b) < Pow2(k)
  {
    if a != 0 && b != 0 && k > 0 {
      OrBits(a / 2, b / 2, k - 1);
    }
  }

  lemma OrByte(a: byte, b: byte)
    ensures Or(a, b) < 256
  {
    Pow2Constants();
    OrBits(a, b, 8);
  }

  lemma {:induction false} PrefixIsBig(p: seq<byte>, k: nat)
    requires k <= |p|
    ensures Prefix(p, k) == Big(p[..k])
  {
    if k > 0 {
      PrefixIsBig(p, k - 1);
      assert p[..k] == p[..k - 1] + [p[k - 1]];
      BigAppend(p[..k - 1], p[k - 1]);
    }
  }

  lemma {:induction false} PrefixGrows(p: seq<byte>, k: nat, d: nat)
    ensures Prefix(p, k) * Pow2(8 * d) <= Prefix(p, k + d) <= Prefix(p, k) * Pow2(8 * d) + Pow2(8 * d) - 1
  {
    if d > 0 {
      PrefixGrows(p, k, d - 1);
      Pow2Byte(8 * (d - 1));
      MulAssoc(Prefix(p, k), Pow2(8 * (d - 1)), 256);
    }
  }

  /** OR-ing extra bits below the last `spare` bits of the range data only changes those bits. */
  lemma PacketPrefix(front: seq<byte>, z: nat, back: seq<byte>, extra: byte, spare: nat)
    requires spare < 8 && Big(front) % Pow2(spare) == 0
    requires extra != 0 ==> |front| + z > 0
    requires z == 0 ==> extra < Pow2(spare)
    ensures Big(front) <= Prefix(Packet(front, z, back, extra), |front|) <= Big(front) + Pow2(spare) - 1
  {
    hide Big, Prefix, Or, Pow2, Packet;
    PacketHead(front, z, back, extra);
    PrefixIsBig(Packet(front, z, back, extra), |front|);
    if z == 0 && extra != 0 {
      var init, last := front[..|front| - 1], front[|front| - 1];
      assert front == init + [last];
      LastByteAligned(front, spare);
      SharedByte(last, extra, spare);
      BigAppend(init, last + extra);
      BigAppend(init, last);
    }
  }

  /** The range bytes of a packet: only their last one may be shared. */
  lemma PacketHead(front: seq<byte>, z: nat, back: seq<byte>, extra: byte)
    requires extra != 0 ==> |front| + z > 0
    ensures Packet(front, z, back, extra)[..|front|] ==
            if z > 0 || extra == 0 then front
            else front[..|front| - 1] + [Or(front[|front| - 1], extra)]
  {
    hide Or;
    if z == 0 && extra != 0 {
      assert front + Zeros(0) == front;
    }
  }

  lemma SharedByte(last: byte, extra: byte, spare: nat)
    requires last % Pow2(spare) == 0 && extra < Pow2(spare)
    ensures Or(last, extra) == last + extra < 256
  {
    DivMod(last, Pow2(spare));
    OrDisjoint(extra, last / Pow2(spare), spare);
    OrByte(last, extra);
  }

  lemma LastByteAligned(s: seq<byte>, spare: nat)
    requires |s| > 0 && spare < 8 && Big(s) % Pow2(spare) == 0
    ensures s[|s| - 1] % Pow2(spare) == 0
  {
    Pow2Add(spare, 8 - spare);
    Pow2Constants();
    ModSplit(Big(s), Pow2(spare), Pow2(8 - spare));
    DivModUnique(Big(s), 256, Big(s[..|s| - 1]), s[|s| - 1]);
    var k := Big(s) / Pow2(spare) % Pow2(8 - spare);
    Distribute(Pow2(spare), k, 0);
    Multiple(k, Pow2(spare));
  }

  /**
   * Front bytes that spell code point `e` of interval depth n to l bits, in j bytes beyond n, decode to a
   * point of [e, e + 2^(31-l)) whatever was put in the spare bits and behind them.
   */
  lemma PacketCode(front: seq<byte>, z: nat, back: seq<byte>, extra: byte, n: nat, j: nat, l: nat, e: nat)
    requires |front| == n + j && j <= 2 && l <= 8 * j < l + 8
    requires Big(front) * CODE_TOP == e * Pow2(8 * j) && Big(front) % Pow2(8 * j - l) == 0
    requires extra != 0 ==> |front| + z > 0
    requires z == 0 ==> extra < Pow2(8 * j - l)
    ensures e <= Code(Packet(front, z, back, extra), n) < e + Pow2(31 - l)
  {
    ScaleBack(Big(front), e, j, l);
    PacketDepth(front, z, back, extra, n, j, 8 * j - l);
  }

  lemma ScaleBack(b: nat, e: nat, j: nat, l: nat)
    requires j <= 2 && l <= 8 * j
    requires b * CODE_TOP == e * Pow2(8 * j)
    ensures e == b * Pow2(31 - 8 * j) && Pow2(31 - l) == Pow2(8 * j - l) * Pow2(31 - 8 * j)
  {
    Pow2Add(8 * j - l, 31 - 8 * j);
    Pow2Add(31 - 8 * j, 8 * j);
    Pow2Constants();
    CancelScaled(b, e, Pow2(31 - 8 * j), Pow2(8 * j));
  }

  lemma CancelScaled(b: int, e: int, w: int, u: int)
    requires u > 0 && b * (w * u) == e * u
    ensures e == b * w
  {
    MulAssoc(b, w, u);
    Multiple(e, u);
    Multiple(b * w, u);
  }

  lemma PacketDepth(front: seq<byte>, z: nat, back: seq<byte>, extra: byte, n: nat, j: nat, spare: nat)
    requires |front| == n + j && j <= 2 && spare < 8
    requires Big(front) % Pow2(spare) == 0
    requires extra != 0 ==> |front| + z > 0
    requires z == 0 ==> extra < Pow2(spare)
    ensures var b, w := Big(front), Pow2(31 - 8 * j);
            b * w <= Code(Packet(front, z, back, extra), n) < b * w + Pow2(spare) * w
  {
    var p := Packet(front, z, back, extra);
    PacketPrefix(front, z, back, extra, spare);
    PrefixGrows(p, n + j, 4 - j);
    CodeArith(Big(front), Prefix(p, n + j), Prefix(p, n + 4), Pow2(31 - 8 * j), Pow2(spare));
  }

  lemma CodeArith(b: nat, x: nat, y: nat, w: nat, s: nat)
    requires 0 < w && b <= x <= b + s - 1
    requires x * (2 * w) <= y <= x * (2 * w) + 2 * w - 1
    ensures b * w <= y / 2 < b * w + s * w
  {
    MulMono(b, x, w);
    MulMono(x, b + s - 1, w);
    Distribute(w, b + s, 1);
    Distribute(w, b, s);
    MulAssoc(x, 2, w);
  }

  /** The raw bits read back from the end of the packet are those of the back bytes and the extra bits. */
  lemma PacketRaw(front: seq<byte>, z: nat, back: seq<byte>, extra: byte, used: nat, spare: nat)
    requires used < 8 && extra < Pow2(used)
    requires used != 0 ==> |front| + z > 0
    requires z == 0 ==> used <= spare < 8 && Big(front) % Pow2(spare) == 0
    ensures Tail(Packet(front, z, back, extra)) % Pow2(8 * |back| + used)
         == Tail(back) + AboveBytes(|back|, extra)
  {
    var p := Packet(front, z, back, extra);
    var head := p[..|front| + z];
    assert p == head + back;
    TailConcat(head, back);
    TailBound(back);
    Pow2Add(8 * |back|, used);
    var b := Pow2(8 * |back|);
    ModSplit(Tail(p), b, Pow2(used));
    Distribute(b, Tail(head), 0);
    DivModUnique(Tail(p), b, Tail(head), Tail(back));
    if used == 0 {
      assert Tail(head) % 1 == 0;
    } else {
      HeadLow(front, z, back, extra, used, spare);
    }
  }

  lemma HeadLow(front: seq<byte>, z: nat, back: seq<byte>, extra: byte, used: nat, spare: nat)
    requires 0 < used < 8 && extra < Pow2(used)
    requires |front| + z > 0
    requires z == 0 ==> used <= spare < 8 && Big(front) % Pow2(spare) == 0
    ensures Tail(Packet(front, z, back, extra)[..|front| + z]) % Pow2(used) == extra
  {
    hide Tail, Packet, Or, Pow2, Big, Zeros;
    var head := Packet(front, z, back, extra)[..|front| + z];
    var last := (front + Zeros(z))[|front| + z - 1];
    ClearedByte(front, z, used, spare);
    HeadByte(front, z, back, extra, used);
    TailLast(head);
    DigitLow(Tail(head), last, extra, used);
  }

  lemma HeadByte(front: seq<byte>, z: nat, back: seq<byte>, extra: byte, used: nat)
    requires |front| + z > 0 && extra < Pow2(used)
    requires (front + Zeros(z))[|front| + z - 1] % Pow2(used) == 0
    ensures Packet(front, z, back, extra)[|front| + z - 1] == (front + Zeros(z))[|front| + z - 1] + extra
  {
    hide Pow2;
    SharedByte((front + Zeros(z))[|front| + z - 1], extra, used);
  }

  lemma ClearedByte(front: seq<byte>, z: nat, used: nat, spare: nat)
    requires |front| + z > 0
    requires z == 0 ==> used <= spare < 8 && Big(front) % Pow2(spare) == 0
    ensures (front + Zeros(z))[|front| + z - 1] % Pow2(used) == 0
  {
    if z > 0 {
      Multiple(0, Pow2(used));
    } else {
      var last := front[|front| - 1];
      LastByteAligned(front, spare);
      Pow2Add(used, spare - used);
      ModDivides(last, Pow2(used), Pow2(spare - used));
    }
  }

  lemma DigitLow(t: nat, last: byte, extra: byte, used: nat)
    requires used < 8 && last % Pow2(used) == 0 && extra < Pow2(used)
    requires t % 256 == last + extra
    ensures t % Pow2(used) == extra
  {
    Pow2Add(used, 8 - used);
    Pow2Constants();
    LowDigit(t, last, extra, Pow2(used), Pow2(8 - used));
  }

  lemma LowDigit(t: nat, last: nat, extra: nat, u: nat, v: nat)
    requires 0 < u && 0 < v && last % u == 0 && extra < u
    requires u * v > 0 && t % (u * v) == last + extra
    ensures t % u == extra
  {
    ModSplit(t, u, v);
    DivMod(last, u);
    Distribute(u, t / u % v, 0);
    DivModUnique(last + extra, u, last / u, extra);
    DivModUnique(last + extra, u, t / u % v, t % u);
  }

  // ---------------------------------------------------------------- the shifts that write the code point out

  /** Shifting out a symbol keeps the code point aligned to the bits still to be written. */
  lemma AlignShift(end: nat, k: nat)
    requires end % Pow2(k) == 0
    ensures k + 8 <= 31 ==> (end * 256 % CODE_TOP) % Pow2(k + 8) == 0
    ensures k + 8 >= 31 ==> end * 256 % CODE_TOP == 0
  {
    Pow2Add(k, 8);
    Pow2Constants();
    ScaleAligned(end, Pow2(k), 256);
    if k + 8 <= 31 {
      Pow2Add(k + 8, 31 - (k + 8));
      ModAligned(end * 256, Pow2(k + 8), Pow2(31 - (k + 8)));
    }
    if k + 8 >= 31 {
      Pow2Add(31, k + 8 - 31);
      ModDivides(end * 256, CODE_TOP, Pow2(k + 8 - 31));
    }
  }

  /** A code point after j more shifts. */
  function Deeper(e: nat, j: nat): (r: nat) {
    if j == 0 then e else Deeper(e, j - 1) * 256
  }

  lemma {:induction false} DeeperPow(e: nat, j: nat)
    ensures Deeper(e, j) == e * Pow2(8 * j)
  {
    if j > 0 {
      DeeperPow(e, j - 1);
      Pow2Byte(8 * (j - 1));
      assert 8 * (j - 1) + 8 == 8 * j;
      MulAssoc(e, Pow2(8 * (j - 1)), 256);
    }
  }

  lemma ScaleAligned(x: nat, d: nat, m: nat)
    requires d > 0 && m > 0 && x % d == 0
    ensures d * m > 0 && x * m % (d * m) == 0
  {
    DivMod(x, d);
    MulAssoc(x / d, d, m);
    Multiple(x / d, d * m);
  }

  lemma ModAligned(x: nat, d: nat, m: nat)
    requires d > 0 && m > 0 && d * m > 0 && x % d == 0
    ensures (x % (d * m)) % d == 0
  {
    ModSplit(x, d, m);
    Distribute(d, x / d % m, 0);
    Multiple(x / d % m, d);
  }

  /** The spare bits of the last range byte are clear. */
  lemma SpareClear(b: nat, e: nat, j: nat, l: nat)
    requires j <= 2 && l <= 8 * j && b * CODE_TOP == e * Pow2(8 * j) && e % Pow2(31 - l) == 0
    ensures b % Pow2(8 * j - l) == 0
  {
    ScaleBack(b, e, j, l);
    UnscaleAligned(b, Pow2(8 * j - l), Pow2(31 - 8 * j));
  }

  lemma UnscaleAligned(b: nat, d: nat, w: nat)
    requires d > 0 && w > 0 && d * w > 0 && b * w % (d * w) == 0
    ensures b % d == 0
  {
    DivMod(b * w, d * w);
    var q := b * w / (d * w);
    MulAssoc(q, d, w);
    Multiple(b, w);
    Multiple(q * d, w);
    Multiple(q, d);
  }

  lemma SumAligned(a: nat, b: nat, d: nat)
    requires d > 0 && a % d == 0 && b % d == 0
    ensures (a + b) % d == 0
  {
    DivMod(a, d);
    DivMod(b, d);
    Distribute(d, a / d, b / d);
    Distribute(d, a / d + b / d, 0);
    Multiple(a / d + b / d, d);
  }

  /** The chosen code point, as an extension of the unbounded low end: still aligned. */
  lemma PointAligned(digits: nat, end: nat, l: nat)
    requires l <= 31 && end % Pow2(31 - l) == 0
    ensures (digits * CODE_TOP + end) % Pow2(31 - l) == 0
  {
    Pow2Add(31 - l, l);
    Pow2Constants();
    MulAssoc(digits, Pow2(l), Pow2(31 - l));
    Distribute(Pow2(l), Pow2(31 - l), 0);
    Multiple(digits * Pow2(l), Pow2(31 - l));
    SumAligned(digits * CODE_TOP, end, Pow2(31 - l));
  }

  /** Setting the mask bits of an aligned value adds the mask. */
  lemma OrMask(end: nat, k: nat)
    requires end % Pow2(k) == 0
    ensures Or(end, Pow2(k) - 1) == end + Pow2(k) - 1
  {
    DivMod(end, Pow2(k));
    OrDisjoint(Pow2(k) - 1, end / Pow2(k), k);
  }

  lemma MaskShift(l: nat)
    requires l <= 31
    ensures (CODE_TOP - 1) / Pow2(l) == Pow2(31 - l) - 1
  {
    Pow2Add(31 - l, l);
    Pow2Constants();
    Distribute(Pow2(l), Pow2(31 - l), 1);
    Distribute(Pow2(l), Pow2(31 - l) - 1, 0);
    DivModUnique(CODE_TOP - 1, Pow2(l), Pow2(31 - l) - 1, Pow2(l) - 1);
  }

  /** The mask arithmetic of ec_enc_done(), for l bits and for one more. */
  lemma PointMask(val: nat, l: nat, msk: nat)
    requires l <= 8 && msk == (CODE_TOP - 1) / Pow2(l)
    ensures ClearMask(val, msk) == RoundUp(val, l)
    ensures Or(RoundUp(val, l), msk) == RoundUp(val, l) + Pow2(31 - l) - 1
    ensures ClearMask(val, msk / 2) == RoundUp(val, l + 1)
  {
    MaskShift(l);
    RoundUpBounds(val, l);
    OrMask(RoundUp(val, l), 31 - l);
    assert msk / 2 == Pow2(31 - (l + 1)) - 1;
  }

  // ---------------------------------------------------------------- raw bits

  /** x placed above e whole bytes. */
  function AboveBytes(e: nat, x: nat): (r: nat) {
    Pow2(8 * e) * x
  }

  lemma AboveSplit(e: nat, w: nat)
    ensures AboveBytes(e, w % 256) + AboveBytes(e + 1, w / 256) == AboveBytes(e, w)
  {
    Pow2Byte(8 * e);
    assert 8 * (e + 1) == 8 * e + 8;
    ByteOff(Pow2(8 * e), Pow2(8 * (e + 1)), w);
  }

  lemma ByteOff(b: nat, b': nat, w: nat)
    requires b' == b * 256
    ensures b * (w % 256) + b' * (w / 256) == b * w
  {
    MulAssoc(b, 256, w / 256);
    Distribute(b, 256 * (w / 256), w % 256);
  }

  /** The raw bits of s are the bytes at the back followed by a window of `used` bits. */
  ghost predicate RawAt(back: seq<byte>, window: nat, used: nat, s: State) {
    && s.bits == 8 * |back| + used
    && s.raw == Tail(back) + AboveBytes(|back|, window)
  }

  /** Moving the low byte of the window to the back of the buffer keeps the raw value. */
  lemma RawByte(back: seq<byte>, window: nat, used: nat, s: State)
    requires used >= 8 && window < Pow2(used)
    ensures window / 256 < Pow2(used - 8)
    ensures RawAt(back, window, used, s) ==> RawAt([window % 256] + back, window / 256, used - 8, s)
  {
    AboveSplit(|back|, window);
    TailPrepend(window % 256, back);
    assert Tail([window % 256] + back) == Tail(back) + AboveBytes(|back|, window % 256);
    Pow2Byte(used - 8);
  }

  /** Appending k raw bits above `used` bits of the window appends them to the raw value. */
  lemma WindowAppend(window: nat, used: nat, v: nat, k: nat)
    requires window < Pow2(used) && v < Pow2(k)
    ensures 0 <= v * Pow2(used)
    ensures Or(window, v * Pow2(used)) == window + v * Pow2(used) < Pow2(used + k)
  {
    hide Pow2, Or;
    OrDisjoint(window, v, used);
    Pow2Add(used, k);
    Gap(Pow2(used), v, Pow2(k));
    Distribute(Pow2(used), v, 0);
  }

  lemma AboveAppend(e: nat, window: nat, used: nat, v: nat)
    requires 0 <= v * Pow2(used)
    ensures AboveBytes(e, window + v * Pow2(used)) == AboveBytes(e, window) + Pow2(8 * e + used) * v
  {
    Pow2Add(8 * e, used);
    Distribute(Pow2(8 * e), window, v * Pow2(used));
    MulAssoc(Pow2(8 * e), v, Pow2(used));
  }

  lemma RawStep(back: seq<byte>, window: nat, used: nat, s: State, v: nat, k: nat)
    requires window < Pow2(used) && v < Pow2(k) && 1 <= k <= 25
    requires CODE_BOT < s.rng <= CODE_TOP
    ensures 0 <= v * Pow2(used)
    ensures var w := Or(window, v * Pow2(used));
            && w < Pow2(used + k)
            && (RawAt(back, window, used, s) ==> RawAt(back, w, used + k, Step(s, Bits(v, k))))
  {
    WindowAppend(window, used, v, k);
    AboveAppend(|back|, window, used, v);
  }

  /** The bits that go into the shared byte: when the packet is one byte too short, only as many as are spare. */
  function Extra(window: nat, used: nat, spare: nat, z: nat): (extra: nat)
    requires window < Pow2(used) && used < 8 && spare < 8
    ensures extra < Pow2(used) && extra < 256 && (used == 0 ==> extra == 0)
    ensures z == 0 ==> extra < Pow2(spare)
  {
    Pow2Constants();
    Pow2Mono(used, 8);
    if z == 0 && spare < used then
      Pow2Mono(spare, used);
      window % Pow2(spare)
    else
      if used <= spare then Pow2Mono(used, spare); window else window
  }

  /** The final code point of interval s, as an extension of the unbounded low end. */
  ghost predicate PointIn(s: State, e: int, l: nat)
    requires l <= 31
  {
    s.low <= e && e + Pow2(31 - l) <= s.low + s.rng && e % Pow2(31 - l) == 0
  }

  lemma ExtraCases(window: nat, used: nat, spare: nat, z: nat)
    requires window < Pow2(used) && used < 8 && spare < 8
    ensures Extra(window, used, spare, z) == if z == 0 && spare < used then window % Pow2(spare) else window
    ensures used == 0 ==> Extra(window, used, spare, z) == 0
  {
  }

  lemma PacketPlain(front: seq<byte>, z: nat, back: seq<byte>)
    ensures Packet(front, z, back, 0) == front + Zeros(z) + back
  {
  }

  /** Digits that continue the low end of s to code point e. */
  ghost predicate Spelled(front: seq<byte>, s: State, e: nat, j: nat) {
    |front| == s.n + j && j <= 2 && Big(front) * CODE_TOP == Deeper(e, j)
  }

  lemma SpelledClear(front: seq<byte>, s: State, e: nat, j: nat, l: nat)
    requires Spelled(front, s, e, j) && l <= 8 * j < l + 8 && PointIn(s, e, l)
    ensures Big(front) % Pow2(8 * j - l) == 0
  {
    DeeperPow(e, j);
    SpareClear(Big(front), e, j, l);
  }

  /** The range bytes of the finished packet decode into the final interval. */
  lemma RangeSurvives(front: seq<byte>, z: nat, back: seq<byte>, extra: byte, s: State, e: nat, j: nat, l: nat)
    requires Spelled(front, s, e, j) && l <= 8 * j < l + 8 && PointIn(s, e, l)
    requires (extra != 0 ==> |front| + z > 0) && (z == 0 ==> extra < Pow2(8 * j - l))
    ensures InInterval(s, Packet(front, z, back, extra))
  {
    SpelledClear(front, s, e, j, l);
    DeeperPow(e, j);
    PacketCode(front, z, back, extra, s.n, j, l, e);
  }

  /** When the spare bits suffice, the raw bits survive too. */
  lemma RawSurvives(front: seq<byte>, z: nat, back: seq<byte>, window: nat, used: nat, s: State, e: nat, j: nat, l: nat)
    requires Spelled(front, s, e, j) && l <= 8 * j < l + 8 && PointIn(s, e, l)
    requires used < 8 && window < Pow2(used) && window < 256 && (used > 0 ==> |front| + z > 0)
    requires window != 0 ==> |front| + z > 0
    requires RawAt(back, window, used, s) && (z == 0 ==> used <= 8 * j - l)
    ensures Tail(Packet(front, z, back, window)) % Pow2(s.bits) == s.raw
  {
    SpelledClear(front, s, e, j, l);
    PacketRaw(front, z, back, window, used, 8 * j - l);
  }

  /** What the flush promises about packet p: success is counted in bytes, and nothing that fits is lost. */
  ghost predicate Sealed(s: State, p: seq<byte>, range: nat, spare: nat, ok: bool) {
    && (ok <==> FitsBytes(range, s.bits, spare, |p|))
    && (ok ==> Holds(s, p))
    && (range + s.bits / 8 <= |p| && (s.bits % 8 > 0 ==> s.bits / 8 < |p|) ==> InInterval(s, p))
  }

  lemma SealedPacket(front: seq<byte>, p: seq<byte>, back: seq<byte>, window: nat, used: nat,
                     s: State, e: nat, j: nat, l: nat, ok: bool)
    requires Spelled(front, s, e, j) && l <= 8 * j < l + 8 && PointIn(s, e, l)
    requires used < 8 && window < Pow2(used) && RawAt(back, window, used, s)
    requires |front| + |back| <= |p|
    requires ok <==> (used > 0 ==> |back| < |p| && (|front| + |back| < |p| || used <= 8 * j - l))
    requires used == 0 || |back| < |p| ==>
               var z := |p| - |front| - |back|;
               p == Packet(front, z, back, Extra(window, used, 8 * j - l, z))
    ensures Sealed(s, p, |front|, 8 * j - l, ok)
  {
    assert s.bits / 8 == |back| && s.bits % 8 == used;
    if used == 0 || |back| < |p| {
      var z, spare := |p| - |front| - |back|, 8 * j - l;
      var extra := Extra(window, used, spare, z);
      RangeSurvives(front, z, back, extra, s, e, j, l);
      if ok {
        assert extra == window;
        RawSurvives(front, z, back, window, used, s, e, j, l);
      }
    }
  }

  lemma SealedOverflow(s: State, p: seq<byte>, range: nat, spare: nat)
    ensures range + s.bits / 8 > |p| ==> Sealed(s, p, range, spare, false)
  {
  }

  /** Counting bits or bytes: everything fits exactly when the bits do. */
  lemma FitsInBits(range: nat, j: nat, l: nat, bits: nat, storage: nat)
    requires l <= 8 * j < l + 8
    ensures 8 * range + l + bits <= 8 * storage <==>
            FitsBytes(range + j, bits, 8 * j - l, storage)
  {
  }

  predicate FitsBytes(range: nat, bits: nat, spare: nat, storage: nat) {
    && range + bits / 8 <= storage
    && (bits % 8 > 0 ==> bits / 8 < storage && (range + bits / 8 < storage || bits % 8 <= spare))
  }

  lemma PointChosen(val: nat, rng: nat, s: State, d: nat)
    requires CODE_BOT < rng <= CODE_TOP && rng == s.rng && s.low == d * CODE_TOP + val
    ensures var l := FlushLen(val, rng); PointIn(s, d * CODE_TOP + RoundUp(val, l), l)
  {
    var l := FlushLen(val, rng);
    FlushCovers(val, rng);
    RoundUpBounds(val, l);
    PointAligned(d, RoundUp(val, l), l);
  }

  /** The point fits the register like val does, and nothing is written exactly when it is zero bits long. */
  lemma PointRegister(val: nat, rng: nat)
    requires CODE_BOT < rng <= CODE_TOP && val + rng < 2 * CODE_TOP
    ensures var l := FlushLen(val, rng); var end := RoundUp(val, l);
            && end < 2 * CODE_TOP && (val + rng <= CODE_TOP ==> end < CODE_TOP)
            && if l > 0 then end % Pow2(31 - l) == 0 else end == 0
  {
    var l := FlushLen(val, rng);
    FlushCovers(val, rng);
    RoundUpBounds(val, l);
    if l == 0 {
      Pow2Constants();
      DivMod(RoundUp(val, 0), CODE_TOP);
    }
  }

  /** How much is flushed depends on the unbounded low end only through the register: its last 31 bits. */
  lemma FlushLenRegister(d: nat, val: nat, rng: nat)
    requires CODE_BOT < rng <= CODE_TOP && 0 <= d * CODE_TOP
    ensures FlushLen(d * CODE_TOP + val, rng) == FlushLen(val, rng)
  {
    var l := Shortest(rng);
    var low: nat := d * CODE_TOP + val;
    var b := Pow2(31 - l);
    RoundUpBounds(val, l);
    RoundUpBounds(low, l);
    PointAligned(d, RoundUp(val, l), l);
    MultipleGap(RoundUp(low, l), d * CODE_TOP + RoundUp(val, l), b);
    MultipleGap(d * CODE_TOP + RoundUp(val, l), RoundUp(low, l), b);
  }

  /** The bits the finished packet needs: renormalised symbols, the final code point, the raw bits. */
  function FlushedBits(s: State): (b: nat)
    requires CODE_BOT < s.rng <= CODE_TOP
  {
    8 * s.n + FlushLen(s.low, s.rng) + s.bits
  }

  /** The whole bytes of both parts fit, and there is a byte for the last raw bits. */
  predicate RangeFits(s: State, storage: nat)
    requires CODE_BOT < s.rng <= CODE_TOP
  {
    && s.n + (FlushLen(s.low, s.rng) + 7) / 8 + s.bits / 8 <= storage
    && (s.bits % 8 > 0 ==> s.bits / 8 < storage)
  }

  ghost predicate InInterval(s: State, p: seq<byte>) {
    s.low <= Code(p, s.n) < s.low + s.rng
  }

  /** What ec_tell() reports is never less than what the flush needs, and at most one bit more. */
  lemma TellCoversFlush(s: State)
    requires CODE_BOT < s.rng <= CODE_TOP
    ensures FlushedBits(s) <= s.Tell() <= FlushedBits(s) + 1
  {
  }
}
