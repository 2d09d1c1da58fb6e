/**
`LcRng`: a linear congruential generator modulo 2^64 with a mixed output. Its state runs
through all 2^64 values, so a sampling loop that waits for a particular residue ends.
*/
module LcRng {
  import opened Bytes
  import opened BitStrings
  import opened PowersOfTwo
  import opened Arithmetic

  const MULTIPLIER := 6364136223846793005
  const INCREMENT := 1442695040888963407
  const MIX := 0xFF51_AFD7_ED55_8CCD
  /** The inverse of MIX modulo 2^64. */
  const UNMIX := 0x4F74_430C_22A5_4005

  // ---- The generator ---------------------------------------------------------------------

  function Next(s: nat): nat {
    (s * MULTIPLIER + INCREMENT) % TWO_64
  }

  function Output(s: nat): nat {
    Xor(s, s / 0x2_0000_0000) * MIX % TWO_64
  }

  /** The state n steps later. */
  function Run(s: nat, n: nat): nat {
    if n == 0 then s else Next(Run(s, n - 1))
  }

  lemma {:induction false} RunFromNext(s: nat, n: nat)
    ensures Run(Next(s), n) == Run(s, n + 1)
  {
    if n > 0 {
      RunFromNext(s, n - 1);
    }
  }

  // ---- The same steps without reduction ------------------------------------------------------

  function Steps(s: int, n: nat): int {
    if n == 0 then s else Steps(s, n - 1) * MULTIPLIER + INCREMENT
  }

  lemma {:induction false} StepsAdd(s: int, m: nat, n: nat)
    ensures Steps(s, m + n) == Steps(Steps(s, m), n)
    decreases n
  {
    if n > 0 {
      StepsAdd(s, m, n - 1);
    }
  }

  lemma {:induction false} RunIsSteps(s: nat, n: nat) returns (q: int)
    ensures Steps(s, n) == Run(s, n) + TWO_64 * q
  {
    if n == 0 {
      q := 0;
    } else {
      var p := RunIsSteps(s, n - 1);
      var x := Run(s, n - 1) * MULTIPLIER + INCREMENT;
      q := p * MULTIPLIER + x / TWO_64;
    }
  }

  /** 2^e steps are one step of a generator with multiplier A(e) and increment C(e). */
  function A(e: nat): int {
    if e == 0 then MULTIPLIER else A(e - 1) * A(e - 1)
  }

  function C(e: nat): int {
    if e == 0 then INCREMENT else A(e - 1) * C(e - 1) + C(e - 1)
  }

  lemma {:induction false} Jump(s: int, e: nat)
    ensures Steps(s, Pow2(e)) == A(e) * s + C(e)
    decreases e
  {
    if e == 0 {
      assert Steps(s, 1) == Steps(s, 0) * MULTIPLIER + INCREMENT;
    } else {
      var h := Pow2(e - 1);
      Jump(s, e - 1);
      Jump(Steps(s, h), e - 1);
      StepsAdd(s, h, h);
      Doubling(A(e - 1), C(e - 1), s);
    }
  }

  lemma {:induction false} Doubling(a: int, c: int, s: int)
    ensures a * (a * s + c) + c == a * a * s + (a * c + c)
  {
  }

  /** A(e) is 1 modulo 2^(e+2), and C(e) is an odd multiple of 2^e. */
  lemma {:induction false} JumpFactors(e: nat) returns (alpha: int, gamma: int)
    ensures A(e) == 1 + 4 * Pow2(e) * alpha
    ensures C(e) == Pow2(e) * gamma && gamma % 2 == 1
    decreases e
  {
    if e == 0 {
      alpha, gamma := (MULTIPLIER - 1) / 4, INCREMENT;
    } else {
      var x, y := JumpFactors(e - 1);
      var p := Pow2(e - 1);
      alpha := x + 2 * p * x * x;
      gamma := y * (1 + 2 * p * x);
      SquareFactor(p, x);
      ProductFactor(p, x, y);
    }
  }

  lemma {:induction false} SquareFactor(p: int, x: int)
    ensures (1 + 4 * p * x) * (1 + 4 * p * x) == 1 + 4 * (2 * p) * (x + 2 * p * x * x)
  {
  }

  lemma {:induction false} ProductFactor(p: int, x: int, y: int)
    requires y % 2 == 1
    ensures (1 + 4 * p * x) * (p * y) + p * y == 2 * p * (y * (1 + 2 * p * x))
    ensures y * (1 + 2 * p * x) % 2 == 1
  {
    OddTimesOdd(y, 1 + 2 * p * x, p * x);
  }

  lemma {:induction false} OddTimesOdd(y: int, z: int, h: int)
    requires y % 2 == 1 && z == 1 + 2 * h
    ensures y * z % 2 == 1
  {
    var g := y / 2;
    assert y == 2 * g + 1;
    OddProduct(y, g, h);
    EvenPlusOne(y * h + g);
  }

  lemma {:induction false} OddProduct(y: int, g: int, h: int)
    requires y == 2 * g + 1
    ensures y * (1 + 2 * h) == 2 * (y * h + g) + 1
  {
  }

  lemma {:induction false} EvenPlusOne(x: int)
    ensures (2 * x + 1) % 2 == 1
  {
  }

  // ---- Every state is reached -----------------------------------------------------------------

  /** From any state some number of steps leads to any target modulo 2^e: once the low e bits
      match, 2^e further steps keep them and flip the next bit. */
  lemma {:induction false} Reach(s: int, u: int, e: nat) returns (n: nat, q: int)
    ensures Steps(s, n) == u + Pow2(e) * q
    decreases e
  {
    if e == 0 {
      n, q := 0, s - u;
    } else {
      var p := Pow2(e - 1);
      n, q := Reach(s, u, e - 1);
      if q % 2 == 0 {
        q := q / 2;
      } else {
        var x := Steps(s, n);
        var alpha, gamma := JumpFactors(e - 1);
        StepsAdd(s, n, p);
        Jump(x, e - 1);
        n := n + p;
        q := FlipBit(p, alpha, gamma, x, u, q);
      }
    }
  }

  lemma {:induction false} FlipBit(p: int, alpha: int, gamma: int, x: int, u: int, q: int) returns (h: int)
    requires x == u + p * q && q % 2 == 1 && gamma % 2 == 1
    ensures (1 + 4 * p * alpha) * x + p * gamma == u + 2 * p * h
  {
    var g := (q + gamma) / 2;
    h := g + 2 * alpha * x;
    calc {
      (1 + 4 * p * alpha) * x + p * gamma;
      { assert (1 + 4 * p * alpha) * x == x + 4 * p * alpha * x; }
      u + p * q + 4 * p * alpha * x + p * gamma;
      { assert p * q + p * gamma == p * (2 * g); }
      u + 2 * p * g + 4 * p * alpha * x;
      { assert 2 * p * h == 2 * p * g + 2 * p * (2 * alpha * x);
        assert 2 * p * (2 * alpha * x) == 4 * p * alpha * x; }
      u + 2 * p * h;
    }
  }

  lemma {:induction false} EveryStateIsReached(s: nat, u: nat) returns (n: nat)
    requires s < TWO_64 && u < TWO_64
    ensures Run(s, n) == u
  {
    var e: nat, q: int := 64, 0;
    n, q := Reach(s, u, e);
    Pow2Of64(e);
    var p := RunIsSteps(s, n);
    RunBound(s, n);
    SameRemainder(Run(s, n), u, p, q);
  }

  lemma {:induction false} RunBound(s: nat, n: nat)
    requires s < TWO_64
    ensures Run(s, n) < TWO_64
  {
  }

  lemma {:induction false} SameRemainder(x: int, y: int, p: int, q: int)
    requires 0 <= x < TWO_64 && 0 <= y < TWO_64 && x + TWO_64 * p == y + TWO_64 * q
    ensures x == y
  {
  }

  // ---- Every output is produced ----------------------------------------------------------------

  lemma {:induction false} XorShifted(a: nat, b: nat, n: nat)
    ensures Shr(Xor(a, b), n) == Xor(Shr(a, n), Shr(b, n))
    decreases n
  {
    if n > 0 {
      XorStep(a, b);
      XorShifted(a / 2, b / 2, n - 1);
    }
  }

  lemma {:induction false} ShiftedIs(a: nat, n: nat, p: nat)
    requires p == Pow2(n) && p > 0
    ensures Shr(a, n) == a / p
  {
    LowIsRemainder(a, n);
    QuotientIs(a, p, Shr(a, n), Low(a, n));
  }

  /** The xor-shift by 33 undoes itself on 64-bit words. */
  lemma {:induction false} ShiftUndone(y: nat)
    requires y < TWO_64
    ensures var u := Xor(y, y / 0x2_0000_0000); u < TWO_64 && Xor(u, u / 0x2_0000_0000) == y
  {
    var n: nat := 33;
    var z := y / 0x2_0000_0000;
    Pow2Of32(n - 1);
    XorShifted(y, z, n);
    ShiftedIs(y, n, 0x2_0000_0000);
    ShiftedIs(z, n, 0x2_0000_0000);
    ShiftedIs(Xor(y, z), n, 0x2_0000_0000);
    assert z / 0x2_0000_0000 == 0;
    XorAssociates(y, z, z);
    XorSelf(z);
    Word(y, z);
  }

  lemma {:induction false} Word(a: nat, b: nat)
    requires a < TWO_64 && b < TWO_64
    ensures Xor(a, b) < TWO_64
  {
    var n: nat := 64;
    Pow2Of64(n);
    Pow2IsPower(n);
    XorBound(a, b, Pow2(n));
  }

  lemma {:induction false} Pow2IsPower(n: nat)
    ensures IsPowerOfTwo(Pow2(n))
  {
    if n > 0 {
      Pow2Positive(n - 1);
      Pow2IsPower(n - 1);
    }
  }

  lemma {:induction false} Unmixed(i: nat)
    requires i < TWO_64
    ensures i * UNMIX % TWO_64 * MIX % TWO_64 == i
  {
    var y, q := i * UNMIX % TWO_64, i * UNMIX / TWO_64;
    assert UNMIX * MIX == 1 + TWO_64 * 5710046619856821070;
    var m := i * 5710046619856821070 - q * MIX;
    calc {
      y * MIX;
      (i * UNMIX - TWO_64 * q) * MIX;
      i * (UNMIX * MIX) - TWO_64 * (q * MIX);
      i + TWO_64 * m;
    }
    RemainderIs(y * MIX, i, m);
  }

  lemma {:induction false} RemainderIs(x: int, i: int, m: int)
    requires x == i + TWO_64 * m && 0 <= i < TWO_64
    ensures x % TWO_64 == i
  {
  }

  /** Every number is the output of some state. */
  lemma {:induction false} StateOf(i: nat) returns (u: nat)
    requires i < TWO_64
    ensures u < TWO_64 && Output(u) == i
  {
    var y := i * UNMIX % TWO_64;
    Unmixed(i);
    ShiftUndone(y);
    u := Xor(y, y / 0x2_0000_0000);
  }

  /** Every state follows some state. */
  lemma {:induction false} StateBefore(u: nat) returns (t: nat)
    requires u < TWO_64
    ensures t < TWO_64 && Next(t) == u
  {
    var n := EveryStateIsReached(Next(0), u);
    RunFromNext(0, n);
    RunBound(0, n);
    t := Run(0, n);
  }

  /** From any state, some later draw is the number i. */
  lemma {:induction false} EveryOutputIsDrawn(s: nat, i: nat) returns (n: nat)
    requires s < TWO_64 && i < TWO_64
    ensures n >= 1 && Output(Run(s, n)) == i
  {
    hide Output;
    var u := StateOf(i);
    n := EveryStateIsReached(Next(s), u);
    RunFromNext(s, n);
    n := n + 1;
  }
}
