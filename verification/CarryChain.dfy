/** The pending digits of a range encoder, as values: what delayed carry propagation computes. */
module CarryChain {
  import opened Arith

  const SYM_MAX: byte := 255

  function Rep(b: byte, n: nat): (s: seq<byte>)
    ensures |s| == n
  {
    if n == 0 then [] else Rep(b, n - 1) + [b]
  }

  lemma RepZero(b: byte)
    ensures Rep(b, 0) == []
  {
  }

  lemma RepAppend(w: seq<byte>, b: byte, n: nat)
    ensures w + Rep(b, n + 1) == (w + Rep(b, n)) + [b]
  {
  }

  function Buffered(rem: int): (s: seq<byte>)
    requires -1 <= rem <= 255
  {
    if rem >= 0 then [rem] else []
  }

  /** All digits produced so far: written bytes, the buffered one, and `ext` outstanding 255s. */
  function Digits(w: seq<byte>, rem: int, ext: nat): (s: seq<byte>)
    requires -1 <= rem <= 255
    ensures |s| == |w| + |Buffered(rem)| + ext
  {
    w + Buffered(rem) + Rep(SYM_MAX, ext)
  }

  /** A carry can be absorbed only by a buffered byte below 255. */
  predicate CarryFits(rem: int, c: nat) {
    c < 512 && -1 <= rem <= 255 && (c >= 256 ==> 0 <= rem < 255)
  }

  /** The bytes that outputting symbol c releases. */
  function Released(rem: int, ext: nat, c: nat): (s: seq<byte>)
    requires CarryFits(rem, c)
    ensures |s| == if c == 255 then 0 else |Buffered(rem)| + ext
  {
    if c == 255 then []
    else if c < 256 then Buffered(rem) + Rep(SYM_MAX, ext)
    else [rem + 1] + Rep(0, ext)
  }

  /** Outputting a zero symbol releases everything pending. */
  lemma ReleaseAll(w: seq<byte>, rem: int, ext: nat)
    requires -1 <= rem <= 255
    ensures w + Released(rem, ext, 0) == Digits(w, rem, ext)
    ensures rem == -1 && ext == 0 ==> Digits(w, rem, ext) == w
  {
  }

  /** What ec_enc_carry_out() writes for a given carry bit. */
  function Flushed(rem: int, ext: nat, carry: nat): (s: seq<byte>)
    requires CarryFits(rem, 256 * carry)
    ensures |s| == |Buffered(rem)| + ext
  {
    (if rem >= 0 then [rem + carry] else []) + Rep((255 + carry) % 256, ext)
  }

  lemma ReleasedByCarry(rem: int, ext: nat, c: nat)
    requires CarryFits(rem, c) && c != 255
    ensures CarryFits(rem, 256 * (c / 256)) && Released(rem, ext, c) == Flushed(rem, ext, c / 256)
  {
  }

  function NextRem(rem: int, c: nat): (r: int) {
    if c == 255 then rem else c % 256
  }

  function NextExt(ext: nat, c: nat): (r: nat) {
    if c == 255 then ext + 1 else 0
  }

  /** A carry into a byte below 255 followed by a run of 255s is the byte plus one and a run of zeros. */
  lemma {:induction false} CarryRipples(w: seq<byte>, b: byte, ext: nat)
    requires b < 255
    ensures Big(w + [b + 1] + Rep(0, ext)) == Big(w + [b] + Rep(SYM_MAX, ext)) + 1
  {
    if ext == 0 {
      assert w + [b] + [] == w + [b] && w + [b + 1] + [] == w + [b + 1];
      BigAppend(w, b);
      BigAppend(w, b + 1);
    } else {
      CarryRipples(w, b, ext - 1);
      assert w + [b] + Rep(SYM_MAX, ext) == (w + [b] + Rep(SYM_MAX, ext - 1)) + [SYM_MAX];
      assert w + [b + 1] + Rep(0, ext) == (w + [b + 1] + Rep(0, ext - 1)) + [0];
      BigAppend(w + [b] + Rep(SYM_MAX, ext - 1), SYM_MAX);
      BigAppend(w + [b + 1] + Rep(0, ext - 1), 0);
    }
  }

  /** Delayed carry propagation is exact: outputting c multiplies the digit value by 256 and adds c. */
  lemma CarryExact(w: seq<byte>, rem: int, ext: nat, c: nat)
    requires CarryFits(rem, c)
    ensures Big(Digits(w + Released(rem, ext, c), NextRem(rem, c), NextExt(ext, c)))
         == 256 * Big(Digits(w, rem, ext)) + c
  {
    hide Big, Digits, Rep, Released;
    if c == 255 {
      DigitsHeld(w, rem, ext);
      BigAppend(Digits(w, rem, ext), SYM_MAX);
    } else if c < 256 {
      DigitsKept(w, rem, ext, c);
      BigAppend(Digits(w, rem, ext), c);
    } else {
      DigitsCarried(w, rem, ext, c - 256);
      RippleExact(w, rem, ext, c - 256);
    }
  }

  lemma RippleExact(w: seq<byte>, rem: byte, ext: nat, r: byte)
    requires rem < 255
    ensures Big((w + [rem + 1] + Rep(0, ext)) + [r]) == 256 * (Big(w + [rem] + Rep(SYM_MAX, ext)) + 1) + r
  {
    hide Big, Rep;
    CarryRipples(w, rem, ext);
    BigAppend(w + [rem + 1] + Rep(0, ext), r);
  }

  lemma DigitsHeld(w: seq<byte>, rem: int, ext: nat)
    requires -1 <= rem <= 255
    ensures Digits(w + Released(rem, ext, 255), rem, ext + 1) == Digits(w, rem, ext) + [SYM_MAX]
  {
    assert w + [] == w;
  }

  lemma DigitsKept(w: seq<byte>, rem: int, ext: nat, c: byte)
    requires -1 <= rem <= 255 && c < 255
    ensures Digits(w + Released(rem, ext, c), c, 0) == Digits(w, rem, ext) + [c]
  {
  }

  lemma DigitsCarried(w: seq<byte>, rem: byte, ext: nat, r: byte)
    requires rem < 255
    ensures Digits(w + Released(rem, ext, 256 + r), r, 0) == (w + [rem + 1] + Rep(0, ext)) + [r]
    ensures Digits(w, rem, ext) == w + [rem] + Rep(SYM_MAX, ext)
  {
  }

  lemma CarryCount(w: seq<byte>, rem: int, ext: nat, c: nat)
    requires CarryFits(rem, c)
    ensures |Digits(w + Released(rem, ext, c), NextRem(rem, c), NextExt(ext, c))| == |Digits(w, rem, ext)| + 1
  {
  }

  /** Output symbol c, keep v: one renormalisation shift of the register. */
  ghost predicate Shifted(val: nat, c: nat, v: nat) {
    c == val / 0x80_0000 && v == val * 256 % 0x8000_0000
  }

  /**
   * The symbol handed out never carries into a missing or saturated byte, and what stays in the register
   * keeps that guarantee for the next one.
   */
  lemma ShiftKeepsRoom(val: nat, rng: nat, rem: int, c: nat, v: nat)
    requires Shifted(val, c, v)
    requires 0 < rng <= 0x80_0000 && -1 <= rem <= 255
    requires val + rng < 0x1_0000_0000
    requires rem == -1 || rem == 255 ==> val + rng <= 0x8000_0000
    ensures CarryFits(rem, c) && 256 * val == c * 0x8000_0000 + v
    ensures v + 256 * rng < 0x1_0000_0000
    ensures NextRem(rem, c) == -1 || NextRem(rem, c) == 255 ==> v + 256 * rng <= 0x8000_0000
  {
    var r := val % 0x80_0000;
    assert val * 256 == c * 0x8000_0000 + r * 256;
    assert c % 256 == 255 ==> c == 255 || c == 511;
  }

  /** The same shift on the value of the digits: 256 times the unbounded low end, exactly. */
  lemma ShiftLow(w: seq<byte>, rem: int, ext: nat, val: nat, c: nat, v: nat, low: nat)
    requires CarryFits(rem, c) && 256 * val == c * 0x8000_0000 + v
    requires low == Big(Digits(w, rem, ext)) * 0x8000_0000 + val
    ensures var d := Digits(w + Released(rem, ext, c), NextRem(rem, c), NextExt(ext, c));
            |d| == |Digits(w, rem, ext)| + 1 && low * 256 == Big(d) * 0x8000_0000 + v
  {
    CarryExact(w, rem, ext, c);
    CarryCount(w, rem, ext, c);
  }
}
