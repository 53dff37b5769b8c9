/** isqrt32() of celt/mathops.c. */
module Isqrt {
  import opened Arith

  /** One digit of the square root: t is what adding b to g adds to its square. */
  lemma Digit(g: nat, b: nat, s: nat)
    requires b == Pow2(s)
    ensures 0 <= (2 * g + b) * Pow2(s)
    ensures (g + b) * (g + b) == g * g + (2 * g + b) * Pow2(s)
  {
    hide Pow2;
    Distribute(b, 2 * g, b);
    MulMono(0, 2 * g + b, b);
    assert (g + b) * (g + b) == g * g + 2 * (g * b) + b * b;
    assert b * (2 * g) == 2 * (g * b);
  }

  /** g is the floor of the square root of x. */
  predicate FloorRoot(x: nat, g: nat) {
    g * g <= x < (g + 1) * (g + 1)
  }

  /** There is only one. */
  lemma RootUnique(x: nat, g: nat, h: nat)
    requires FloorRoot(x, g) && FloorRoot(x, h)
    ensures g == h
  {
    if g < h {
      MulMono(g + 1, h, g + 1);
      MulMono(g + 1, h, h);
    } else if h < g {
      MulMono(h + 1, g, h + 1);
      MulMono(h + 1, g, g);
    }
  }

  /** The exact integer square root of a 32-bit value, by binary digits from the top. */
  method Isqrt32(val0: nat) returns (g: nat)
    requires 0 < val0 < 0x1_0000_0000
    ensures FloorRoot(val0, g) && forall h: nat :: FloorRoot(val0, h) ==> h == g
  {
    hide Pow2, ILog;
    var val: nat := val0;
    g := 0;
    var bshift: int := (ILog(val) - 1) / 2;
    Start(val0, bshift);
    var b := Pow2(bshift);
    while bshift >= 0
      invariant -1 <= bshift <= 15 && b == (if bshift >= 0 then Pow2(bshift) else 0)
      invariant val + g * g == val0
      invariant val0 < (g + Step(bshift)) * (g + Step(bshift))
      invariant g + Step(bshift) <= 0x1_0000
      decreases bshift
    {
      Digit(g, b, bshift);
      StepHalves(bshift);
      var t := (2 * g + b) * Pow2(bshift);
      Fits(g, b, t, Step(bshift));
      assert t < 0x1_0000_0000;
      if t <= val {
        g := g + b;
        val := val - t;
      }
      HalfPow(bshift);
      b := b / 2;
      bshift := bshift - 1;
    }
    LastStep();
    forall h: nat | FloorRoot(val0, h) ensures h == g {
      RootUnique(val0, h, g);
    }
  }

  lemma LastStep()
    ensures Step(-1) == 1
  {
  }

  /** The distance still to be searched, before digit s is decided. */
  function Step(s: int): (r: nat)
    requires -1 <= s
  {
    Pow2(s + 1)
  }

  lemma StepHalves(s: nat)
    ensures Step(s) == 2 * Pow2(s) && Step(s - 1) == Pow2(s)
  {
  }

  lemma HalfPow(s: nat)
    ensures Pow2(s) / 2 == if s > 0 then Pow2(s - 1) else 0
  {
  }

  lemma Fits(g: nat, b: nat, t: int, d: nat)
    requires (g + b) * (g + b) == g * g + t && 1 <= b && g + d <= 0x1_0000 && d == 2 * b
    ensures t < 0x1_0000_0000
  {
    MulMono(g + b, 0xffff, g + b);
    MulMono(g + b, 0xffff, 0xffff);
  }

  lemma Start(val: nat, s: int)
    requires 0 < val < 0x1_0000_0000 && s == (ILog(val) - 1) / 2
    ensures 0 <= s <= 15 && val < Step(s) * Step(s) && Step(s) <= 0x1_0000
  {
    hide Pow2, ILog;
    ILogBounds(val);
    Pow2Constants();
    Pow2Strict(ILog(val) - 1, 32);
    Pow2Mono(ILog(val), 2 * s + 2);
    Pow2Add(s + 1, s + 1);
    Pow2Mono(s + 1, 16);
  }
}
