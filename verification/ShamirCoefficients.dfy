/**
The coefficients of a split: the step of their generator by its bits, that it loses nothing and never
reaches zero, and the first coefficients worked out.
*/
module ShamirCoefficients {
  import opened Bytes
  import opened Sequences
  import opened PowersOfTwo
  import opened Arithmetic
  import opened BitStrings
  import opened Gf256
  import opened LinearAlgebra
  import opened Lagrange
  import opened LcRng
  import opened KnownAnswers
  import opened Shamir

  // ---- Bits of a word --------------------------------------------------------------------------

  function Bit(x: nat, i: nat): nat {
    Shr(x, i) % 2
  }

  lemma {:induction false} BitOfXor(a: nat, b: nat, i: nat)
    ensures Bit(Xor(a, b), i) == (Bit(a, i) + Bit(b, i)) % 2
  {
    hide Xor, Shr;
    XorShifted(a, b, i);
    XorStep(Shr(a, i), Shr(b, i));
  }

  lemma {:induction false} BitOfTimes(x: nat, n: nat, i: nat)
    ensures Bit(x * Pow2(n), i) == if i < n then 0 else Bit(x, i - n)
    decreases n
  {
    if n > 0 {
      Doubled(x, Pow2(n - 1));
      if i > 0 {
        BitOfTimes(x, n - 1, i - 1);
      }
    }
  }

  lemma {:induction false} BitOfLow(v: nat, m: nat, i: nat)
    requires i < m
    ensures Bit(Low(v, m), i) == Bit(v, i)
    decreases m
  {
    var r := Low(v, m);
    assert r == 2 * Low(v / 2, m - 1) + v % 2;
    assert r / 2 == Low(v / 2, m - 1) && r % 2 == v % 2;
    if i > 0 {
      BitOfLow(v / 2, m - 1, i - 1);
    }
  }

  lemma {:induction false} ShrTwice(x: nat, n: nat, i: nat)
    ensures Shr(Shr(x, n), i) == Shr(x, n + i)
    decreases n
  {
    if n > 0 {
      ShrTwice(x / 2, n - 1, i);
    }
  }

  lemma {:induction false} ShrOfSmall(x: nat, n: nat)
    requires x < Pow2(n)
    ensures Shr(x, n) == 0
    decreases n
  {
    if n > 0 {
      ShrOfSmall(x / 2, n - 1);
    }
  }

  lemma {:induction false} NoBitBeyond(x: nat, i: nat)
    requires x < TWO_64 && i >= 64
    ensures Bit(x, i) == 0
  {
    hide Shr, Pow2;
    var n: nat := 64;
    Pow2Of64(n);
    ShrOfSmall(x, n);
    ShrTwice(x, n, i - n);
    Pow2Positive(i - n);
    ShrOfSmall(0, i - n);
  }

  /** Words with the same bits are the same. */
  lemma {:induction false} SameBits(a: nat, b: nat, n: nat)
    requires a < Pow2(n) && b < Pow2(n) && forall i :: 0 <= i < n ==> Bit(a, i) == Bit(b, i)
    ensures a == b
    decreases n
  {
    if n > 0 {
      assert Bit(a, 0) == Bit(b, 0);
      forall i | 0 <= i < n - 1
        ensures Bit(a / 2, i) == Bit(b / 2, i)
      {
        assert Bit(a, i + 1) == Bit(b, i + 1);
      }
      SameBits(a / 2, b / 2, n - 1);
    }
  }

  lemma {:induction false} SameWords(a: nat, b: nat)
    requires a < TWO_64 && b < TWO_64 && forall i :: 0 <= i < 64 ==> Bit(a, i) == Bit(b, i)
    ensures a == b
  {
    hide Bit, Pow2;
    var n: nat := 64;
    Pow2Of64(n);
    SameBits(a, b, n);
  }

  // ---- The step by its bits ----------------------------------------------------------------------

  /** y is x exclusive-or x shifted left, or right, by n places in a 64-bit word. */
  ghost predicate XorsLeft(x: nat, n: nat, y: nat) {
    y < TWO_64 && forall i :: 0 <= i < 64 ==> Bit(y, i) == LeftBit(x, n, i)
  }

  ghost predicate XorsRight(x: nat, n: nat, y: nat) {
    y < TWO_64 && forall i :: 0 <= i < 64 ==> Bit(y, i) == RightBit(x, n, i)
  }

  function LeftBit(x: nat, n: nat, i: nat): nat {
    if i < n then Bit(x, i) else (Bit(x, i) + Bit(x, i - n)) % 2
  }

  function RightBit(x: nat, n: nat, i: nat): nat {
    if i + n < 64 then (Bit(x, i) + Bit(x, i + n)) % 2 else Bit(x, i)
  }

  /** One step of the generator: left by 13, right by 7, left by 17. */
  ghost predicate IsStep(x: nat, y: nat) {
    exists a, b :: XorsLeft(x, 13, a) && XorsRight(a, 7, b) && XorsLeft(b, 17, y)
  }

  lemma {:induction false} LeftIs(x: nat, n: nat, p: nat)
    requires x < TWO_64 && p == Pow2(n)
    ensures XorsLeft(x, n, Xor(x, x * p % TWO_64))
  {
    hide Xor, Shr, Pow2, Low, Bit;
    var w: nat, v := 64, x * p % TWO_64;
    Word(x, v);
    WordIsLow(x * p, w);
    forall i | 0 <= i < 64
      ensures Bit(Xor(x, v), i) == LeftBit(x, n, i)
    {
      BitIsBit(x, i);
      BitOfXor(x, v, i);
      BitOfLow(x * p, w, i);
      BitOfTimes(x, n, i);
    }
  }

  lemma {:induction false} WordIsLow(v: nat, n: nat)
    requires n == 64
    ensures v % TWO_64 == Low(v, n)
  {
    hide Low, Shr, Pow2;
    Pow2Of64(n);
    LowIsRemainder(v, n);
    QuotientIs(v, TWO_64, Shr(v, n), Low(v, n));
  }

  lemma {:induction false} RightIs(x: nat, n: nat)
    requires x < TWO_64
    ensures XorsRight(x, n, Xor(x, Shr(x, n)))
  {
    hide Xor, Shr, Bit;
    ShrIsSmaller(x, n);
    Word(x, Shr(x, n));
    forall i | 0 <= i < 64
      ensures Bit(Xor(x, Shr(x, n)), i) == RightBit(x, n, i)
    {
      BitOfXor(x, Shr(x, n), i);
      BitOfShr(x, n, i);
      BitIsBit(x, i);
      if i + n >= 64 {
        NoBitBeyond(x, n + i);
      }
    }
  }

  lemma {:induction false} BitOfShr(x: nat, n: nat, i: nat)
    ensures Bit(Shr(x, n), i) == Bit(x, n + i)
  {
    ShrTwice(x, n, i);
  }

  lemma {:induction false} BitIsBit(x: nat, i: nat)
    ensures 0 <= Bit(x, i) < 2
  {
  }

  lemma {:induction false} ShrIsSmaller(x: nat, n: nat)
    ensures Shr(x, n) <= x
    decreases n
  {
    if n > 0 {
      ShrIsSmaller(x / 2, n - 1);
    }
  }

  lemma {:induction false} LeftUnique(x: nat, n: nat, y: nat, z: nat)
    requires XorsLeft(x, n, y) && XorsLeft(x, n, z)
    ensures y == z
  {
    hide Bit;
    SameWords(y, z);
  }

  lemma {:induction false} RightUnique(x: nat, n: nat, y: nat, z: nat)
    requires XorsRight(x, n, y) && XorsRight(x, n, z)
    ensures y == z
  {
    hide Bit;
    SameWords(y, z);
  }

  /** The step of the generator is this one and no other. */
  lemma {:induction false} StepByBits(x: nat, y: nat)
    requires x < TWO_64
    ensures NextState(x) < TWO_64 && (IsStep(x, y) <==> y == NextState(x))
  {
    hide Xor, Pow2, XorsLeft, XorsRight;
    SmallPowers(13, 7, 17);
    var a := Xor(x, x * 0x2000 % TWO_64);
    LeftIs(x, 13, 0x2000);
    LeftIsWord(x, 13, a);
    var b := Xor(a, a / 0x80);
    ShiftedIs(a, 7, 0x80);
    RightIs(a, 7);
    RightIsWord(a, 7, b);
    LeftIs(b, 17, 0x20000);
    LeftIsWord(b, 17, NextState(x));
    if IsStep(x, y) {
      var c, d :| XorsLeft(x, 13, c) && XorsRight(c, 7, d) && XorsLeft(d, 17, y);
      LeftUnique(x, 13, a, c);
      RightUnique(a, 7, b, d);
      LeftUnique(b, 17, NextState(x), y);
    }
  }

  lemma {:induction false} LeftIsWord(x: nat, n: nat, y: nat)
    requires XorsLeft(x, n, y)
    ensures y < TWO_64
  {
  }

  lemma {:induction false} RightIsWord(x: nat, n: nat, y: nat)
    requires XorsRight(x, n, y)
    ensures y < TWO_64
  {
  }

  lemma {:induction false} SmallPowers(a: nat, b: nat, c: nat)
    requires a == 13 && b == 7 && c == 17
    ensures Pow2(a) == 0x2000 && Pow2(b) == 0x80 && Pow2(c) == 0x20000
  {
    var z: nat := 8;
    Pow2Of8(z);
    Pow2Next(b);
    Pow2Add(z, z);
    Pow2Next(16);
    assert Pow2(a) == 32 * Pow2(a - 5);
  }

  // ---- Nothing is lost ----------------------------------------------------------------------------

  lemma {:induction false} LeftInjective(x: nat, y: nat, n: nat, z: nat)
    requires x < TWO_64 && y < TWO_64 && n > 0 && XorsLeft(x, n, z) && XorsLeft(y, n, z)
    ensures x == y
  {
    hide Bit;
    forall i | 0 <= i < 64
      ensures Bit(x, i) == Bit(y, i)
    {
      SameLeftBit(x, y, n, z, i);
    }
    SameWords(x, y);
  }

  lemma {:induction false} SameLeftBit(x: nat, y: nat, n: nat, z: nat, i: nat)
    requires n > 0 && XorsLeft(x, n, z) && XorsLeft(y, n, z) && i < 64
    ensures Bit(x, i) == Bit(y, i)
    decreases i
  {
    hide Shr;
    if i >= n {
      SameLeftBit(x, y, n, z, i - n);
    }
    assert Bit(z, i) == LeftBit(x, n, i) == LeftBit(y, n, i);
  }

  lemma {:induction false} RightInjective(x: nat, y: nat, n: nat, z: nat)
    requires x < TWO_64 && y < TWO_64 && n > 0 && XorsRight(x, n, z) && XorsRight(y, n, z)
    ensures x == y
  {
    hide Bit;
    forall i | 0 <= i < 64
      ensures Bit(x, i) == Bit(y, i)
    {
      SameRightBit(x, y, n, z, i);
    }
    SameWords(x, y);
  }

  lemma {:induction false} SameRightBit(x: nat, y: nat, n: nat, z: nat, i: nat)
    requires n > 0 && XorsRight(x, n, z) && XorsRight(y, n, z) && i < 64
    ensures Bit(x, i) == Bit(y, i)
    decreases 64 - i
  {
    hide Shr;
    if i + n < 64 {
      SameRightBit(x, y, n, z, i + n);
    }
    assert Bit(z, i) == RightBit(x, n, i) == RightBit(y, n, i);
  }

  lemma {:induction false} StepInjective(x: nat, y: nat)
    requires x < TWO_64 && y < TWO_64 && NextState(x) == NextState(y)
    ensures x == y
  {
    hide NextState, XorsLeft, XorsRight;
    var z := NextState(x);
    StepByBits(x, z);
    StepByBits(y, z);
    var a, b :| XorsLeft(x, 13, a) && XorsRight(a, 7, b) && XorsLeft(b, 17, z);
    var c, d :| XorsLeft(y, 13, c) && XorsRight(c, 7, d) && XorsLeft(d, 17, z);
    LeftIsWord(x, 13, a);
    LeftIsWord(y, 13, c);
    RightIsWord(a, 7, b);
    RightIsWord(c, 7, d);
    LeftInjective(b, d, 17, z);
    RightInjective(a, c, 7, b);
    LeftInjective(x, y, 13, a);
  }

  ghost function Reached(n: nat): set<nat> {
    set x | 0 <= x < n :: NextState(x)
  }

  lemma {:induction false} ReachedStep(n: nat)
    ensures Reached(0) == {} && Reached(n + 1) == Reached(n) + {NextState(n)}
    ensures forall y :: y in Reached(n) <==> exists x :: 0 <= x < n && NextState(x) == y
  {
    hide NextState;
  }

  lemma {:induction false} ReachedSize(n: nat)
    requires n <= TWO_64
    ensures |Reached(n)| == n && forall y :: y in Reached(n) ==> y < TWO_64
  {
    hide NextState, Reached;
    ReachedStep(0);
    if n > 0 {
      ReachedSize(n - 1);
      ReachedStep(n - 1);
      var y := NextState(n - 1);
      StepByBits(n - 1, y);
      if y in Reached(n - 1) {
        var x :| 0 <= x < n - 1 && NextState(x) == y;
        StepInjective(x, n - 1);
      }
    }
  }

  /** The step is a bijection of the 64-bit words that keeps zero alone. */
  lemma {:induction false} StepIsBijection(y: nat) returns (x: nat)
    requires y < TWO_64
    ensures x < TWO_64 && NextState(x) == y
    ensures forall z :: 0 <= z < TWO_64 && NextState(z) == y ==> z == x
    ensures y == 0 <==> x == 0
  {
    hide NextState, Reached, Range;
    var n: nat := TWO_64;
    ReachedSize(n);
    SubsetOfSameSize(Reached(n), Range(n));
    ReachedStep(n);
    assert y in Range(n);
    x :| 0 <= x < n && NextState(x) == y;
    forall z | 0 <= z < TWO_64 && NextState(z) == y
      ensures z == x
    {
      StepInjective(z, x);
    }
    ZeroStays();
    if y == 0 {
      StepInjective(x, 0);
    }
  }

  lemma {:induction false} ZeroStays()
    ensures NextState(0) == 0
  {
    XorZero(0);
  }

  /** No state of a split is zero. */
  lemma {:induction false} StatesAreNotZero(b: nat, c: nat)
    requires b < SECRET_BYTES
    ensures 0 < State(b, c) < TWO_64
  {
    hide NextState;
    if c > 0 {
      StatesAreNotZero(b, c - 1);
      var x := State(b, c - 1);
      StepByBits(x, NextState(x));
      ZeroStays();
      if NextState(x) == 0 {
        StepInjective(x, 0);
      }
    }
  }

  // ---- The first coefficients -------------------------------------------------------------------------

  lemma {:induction false} StepIs(x: nat, u: nat, a: nat, v: nat, b: nat, w: nat, c: nat)
    requires u == x * 0x2000 % TWO_64 && Xor(x, u) == a
    requires v == a / 0x80 && Xor(a, v) == b
    requires w == b * 0x20000 % TWO_64 && Xor(b, w) == c
    ensures NextState(x) == c
  {
    hide Xor;
  }

  lemma {:induction false} FirstStepA()
    ensures Xor(25892, 212107264) == 212133156
  {
    hide Xor;
    XorHex(1618, 0, 1, 0, 0, 13256704, 0, 0, 0, 0);
    XorHex(101, 0, 0, 1, 0, 828544, 0, 0, 0, 0);
    XorHex(6, 0, 1, 0, 1, 51784, 0, 0, 0, 0);
    XorHex(0, 0, 1, 1, 0, 3236, 1, 0, 0, 0);
    XorZero(3236);
  }

  lemma {:induction false} FirstStepB()
    ensures Xor(212133156, 1657290) == 213757166
  {
    hide Xor;
    XorHex(13258322, 0, 1, 0, 0, 103580, 1, 0, 1, 0);
    XorHex(828645, 0, 0, 1, 0, 6473, 1, 1, 0, 0);
    XorHex(51790, 0, 1, 0, 1, 404, 1, 0, 0, 1);
    XorHex(3236, 1, 1, 1, 0, 25, 0, 1, 0, 0);
    XorHex(202, 0, 1, 0, 0, 1, 1, 0, 0, 1);
    XorHex(12, 1, 0, 1, 0, 0, 0, 0, 0, 1);
    XorZero(12);
  }

  lemma {:induction false} FirstStepC()
    ensures Xor(213757166, 28017579261952) == 28017504136430
  {
    hide Xor;
    XorHex(13359822, 1, 1, 1, 0, 1751098703872, 0, 0, 0, 0);
    XorHex(834988, 1, 1, 1, 0, 109443668992, 0, 0, 0, 0);
    XorHex(52186, 1, 1, 0, 0, 6840229312, 0, 0, 0, 0);
    XorHex(3261, 1, 0, 1, 0, 427514332, 0, 0, 0, 0);
    XorHex(203, 1, 1, 0, 1, 26719645, 1, 1, 0, 0);
    XorHex(12, 1, 0, 1, 1, 1669977, 1, 1, 0, 1);
    XorHex(0, 1, 1, 0, 0, 104373, 1, 0, 0, 1);
    XorZero(104373);
  }

  lemma {:induction false} FirstStep()
    ensures NextState(25892) == 28017504136430
  {
    hide Xor, NextState;
    FirstStepA();
    FirstStepB();
    FirstStepC();
    StepIs(25892, 212107264, 212133156, 1657290, 213757166, 28017579261952, 28017504136430);
  }

  lemma {:induction false} SecondStepAHigh()
    ensures Xor(104373, 855026371) == 855063926
  {
    hide Xor;
    XorHex(6523, 0, 1, 0, 1, 53439148, 0, 0, 1, 1);
    XorHex(407, 1, 0, 1, 1, 3339946, 1, 1, 0, 0);
    XorHex(25, 0, 1, 1, 1, 208746, 1, 0, 1, 0);
    XorHex(1, 1, 0, 0, 1, 13046, 1, 0, 1, 0);
    XorHex(0, 0, 0, 0, 1, 815, 0, 1, 1, 0);
    XorZero(815);
  }

  lemma {:induction false} SecondStepA()
    ensures Xor(28017504136430, 229519393885634560) == 229529474901503214
  {
    hide Xor;
    XorHex(1751094008526, 1, 1, 1, 0, 14344962117852160, 0, 0, 0, 0);
    XorHex(109443375532, 1, 1, 1, 0, 896560132365760, 0, 0, 0, 0);
    XorHex(6840210970, 1, 1, 0, 0, 56035008272860, 0, 0, 0, 0);
    XorHex(427513185, 1, 0, 1, 0, 3502188017053, 1, 1, 0, 0);
    XorHex(26719574, 0, 0, 0, 1, 218886751065, 1, 1, 0, 1);
    XorHex(1669973, 0, 1, 1, 0, 13680421941, 1, 0, 0, 1);
    XorHex(104373, 0, 1, 0, 1, 855026371, 0, 1, 0, 1);
    SecondStepAHigh();
  }

  lemma {:induction false} SecondStepBHigh()
    ensures Xor(855063926, 6680186) == 848483084
  {
    hide Xor;
    XorHex(53441495, 0, 1, 1, 0, 417511, 1, 0, 1, 0);
    XorHex(3340093, 0, 1, 1, 1, 26094, 0, 1, 1, 1);
    XorHex(208755, 1, 1, 0, 1, 1630, 1, 1, 1, 0);
    XorHex(13047, 0, 0, 1, 1, 101, 1, 1, 1, 0);
    XorHex(815, 0, 1, 1, 1, 6, 0, 1, 0, 1);
    XorHex(50, 1, 1, 1, 1, 0, 0, 1, 1, 0);
    XorZero(50);
  }

  lemma {:induction false} SecondStepB()
    ensures Xor(229529474901503214, 1793199022667993) == 227762943800742967
  {
    hide Xor;
    XorHex(14345592181343950, 1, 1, 1, 0, 112074938916749, 1, 0, 0, 1);
    XorHex(896599511333996, 1, 1, 1, 0, 7004683682296, 1, 1, 0, 1);
    XorHex(56037469458374, 1, 1, 0, 0, 437792730143, 1, 0, 0, 0);
    XorHex(3502341841148, 0, 1, 1, 0, 27362045633, 1, 1, 1, 1);
    XorHex(218896365071, 1, 1, 0, 0, 1710127852, 0, 0, 0, 1);
    XorHex(13681022816, 1, 1, 1, 1, 106882990, 1, 1, 0, 0);
    XorHex(855063926, 0, 0, 0, 0, 6680186, 1, 1, 1, 0);
    SecondStepBHigh();
  }

  lemma {:induction false} SecondStepCHighHigh()
    ensures Xor(3, 90) == 89
  {
    hide Xor;
    XorHex(0, 0, 0, 1, 1, 5, 1, 0, 1, 0);
    XorZero(5);
  }

  lemma {:induction false} SecondStepCHigh()
    ensures Xor(848483084, 24261543858) == 23966979262
  {
    hide Xor;
    XorHex(53030192, 1, 1, 0, 0, 1516346491, 0, 0, 1, 0);
    XorHex(3314387, 0, 0, 0, 0, 94771655, 1, 0, 1, 1);
    XorHex(207149, 0, 0, 1, 1, 5923228, 0, 1, 1, 1);
    XorHex(12946, 1, 1, 0, 1, 370201, 1, 1, 0, 0);
    XorHex(809, 0, 0, 1, 0, 23137, 1, 0, 0, 1);
    XorHex(50, 1, 0, 0, 1, 1446, 0, 0, 0, 1);
    XorHex(3, 0, 0, 1, 0, 90, 0, 1, 1, 0);
    SecondStepCHighHigh();
  }

  lemma {:induction false} SecondStepC()
    ensures Xor(227762943800742967, 6512658588927655936) == 6433587007243654199
  {
    hide Xor;
    XorHex(14235183987546435, 0, 1, 1, 1, 407041161807978496, 0, 0, 0, 0);
    XorHex(889698999221652, 0, 0, 1, 1, 25440072612998656, 0, 0, 0, 0);
    XorHex(55606187451353, 0, 1, 0, 0, 1590004538312416, 0, 0, 0, 0);
    XorHex(3475386715709, 1, 0, 0, 1, 99375283644526, 0, 0, 0, 0);
    XorHex(217211669731, 1, 1, 0, 1, 6210955227782, 1, 1, 1, 0);
    XorHex(13575729358, 0, 0, 1, 1, 388184701736, 0, 1, 1, 0);
    XorHex(848483084, 1, 1, 1, 0, 24261543858, 1, 0, 0, 0);
    SecondStepCHigh();
  }

  lemma {:induction false} SecondStep()
    ensures NextState(28017504136430) == 6433587007243654199
  {
    hide Xor, NextState;
    SecondStepA();
    SecondStepB();
    SecondStepC();
    StepIs(28017504136430, 229519393885634560, 229529474901503214, 1793199022667993, 227762943800742967, 6512658588927655936, 6433587007243654199);
  }

  lemma {:induction false} ThirdStepAHighHigh()
    ensures Xor(89, 22) == 79
  {
    hide Xor;
    XorHex(5, 1, 0, 0, 1, 1, 0, 1, 1, 0);
    XorHex(0, 0, 1, 0, 1, 0, 0, 0, 0, 1);
    XorZero(0);
  }

  lemma {:induction false} ThirdStepAHigh()
    ensures Xor(23966979262, 5949082791) == 21308954649
  {
    hide Xor;
    XorHex(1497936203, 1, 1, 1, 0, 371817674, 0, 1, 1, 1);
    XorHex(93621012, 1, 0, 1, 1, 23238604, 1, 0, 1, 0);
    XorHex(5851313, 0, 1, 0, 0, 1452412, 1, 1, 0, 0);
    XorHex(365707, 0, 0, 0, 1, 90775, 1, 1, 0, 0);
    XorHex(22856, 1, 0, 1, 1, 5673, 0, 1, 1, 1);
    XorHex(1428, 1, 0, 0, 0, 354, 1, 0, 0, 1);
    XorHex(89, 0, 1, 0, 0, 22, 0, 0, 1, 0);
    ThirdStepAHighHigh();
  }

  lemma {:induction false} ThirdStepA()
    ensures Xor(6433587007243654199, 1596944751826231296) == 5720078958168732727
  {
    hide Xor;
    XorHex(402099187952728387, 0, 1, 1, 1, 99809046989139456, 0, 0, 0, 0);
    XorHex(25131199247045524, 0, 0, 1, 1, 6238065436821216, 0, 0, 0, 0);
    XorHex(1570699952940345, 0, 1, 0, 0, 389879089801326, 0, 0, 0, 0);
    XorHex(98168747058771, 1, 0, 0, 1, 24367443112582, 1, 1, 1, 0);
    XorHex(6135546691173, 0, 0, 1, 1, 1522965194536, 0, 1, 1, 0);
    XorHex(383471668198, 0, 1, 0, 1, 95185324658, 1, 0, 0, 0);
    XorHex(23966979262, 0, 1, 1, 0, 5949082791, 0, 0, 1, 0);
    ThirdStepAHigh();
  }

  lemma {:induction false} ThirdStepBHigh()
    ensures Xor(21308954649, 166476208) == 21473845673
  {
    hide Xor;
    XorHex(1331809665, 1, 0, 0, 1, 10404763, 0, 0, 0, 0);
    XorHex(83238104, 0, 0, 0, 1, 650297, 1, 0, 1, 1);
    XorHex(5202381, 1, 0, 0, 0, 40643, 1, 0, 0, 1);
    XorHex(325148, 1, 1, 0, 1, 2540, 0, 0, 1, 1);
    XorHex(20321, 1, 1, 0, 0, 158, 1, 1, 0, 0);
    XorHex(1270, 0, 0, 0, 1, 9, 1, 1, 1, 0);
    XorHex(79, 0, 1, 1, 0, 0, 1, 0, 0, 1);
    XorZero(79);
  }

  lemma {:induction false} ThirdStepB()
    ensures Xor(5720078958168732727, 44688116860693224) == 5764341555439394527
  {
    hide Xor;
    XorHex(357504934885545795, 0, 1, 1, 1, 2793007303793326, 1, 0, 0, 0);
    XorHex(22344058430346612, 0, 0, 1, 1, 174562956487082, 1, 1, 1, 0);
    XorHex(1396503651896663, 0, 1, 0, 0, 10910184780442, 1, 0, 1, 0);
    XorHex(87281478243541, 0, 1, 1, 1, 681886548777, 1, 0, 1, 0);
    XorHex(5455092390221, 0, 1, 0, 1, 42617909298, 1, 0, 0, 1);
    XorHex(340943274388, 1, 1, 0, 1, 2663619331, 0, 0, 1, 0);
    XorHex(21308954649, 0, 1, 0, 0, 166476208, 0, 0, 1, 1);
    ThirdStepBHigh();
  }

  lemma {:induction false} ThirdStepCHighHigh()
    ensures Xor(79, 28) == 83
  {
    hide Xor;
    XorHex(4, 1, 1, 1, 1, 1, 1, 1, 0, 0);
    XorHex(0, 0, 1, 0, 0, 0, 0, 0, 0, 1);
    XorZero(0);
  }

  lemma {:induction false} ThirdStepCHigh()
    ensures Xor(21473845673, 7571963803) == 22492094002
  {
    hide Xor;
    XorHex(1342115354, 1, 0, 0, 1, 473247737, 1, 0, 1, 1);
    XorHex(83882209, 1, 0, 1, 0, 29577983, 1, 0, 0, 1);
    XorHex(5242638, 0, 0, 0, 1, 1848623, 1, 1, 1, 1);
    XorHex(327664, 1, 1, 1, 0, 115538, 1, 1, 1, 1);
    XorHex(20479, 0, 0, 0, 0, 7221, 0, 0, 1, 0);
    XorHex(1279, 1, 1, 1, 1, 451, 0, 1, 0, 1);
    XorHex(79, 1, 1, 1, 1, 28, 0, 0, 1, 1);
    ThirdStepCHighHigh();
  }

  lemma {:induction false} ThirdStepC()
    ensures Xor(5764341555439394527, 2032583556504354816) == 6037675509993889503
  {
    hide Xor;
    XorHex(360271347214962157, 1, 1, 1, 1, 127036472281522176, 0, 0, 0, 0);
    XorHex(22516959200935134, 1, 1, 0, 1, 7939779517595136, 0, 0, 0, 0);
    XorHex(1407309950058445, 1, 1, 1, 0, 496236219849696, 0, 0, 0, 0);
    XorHex(87956871878652, 1, 1, 0, 1, 31014763740606, 0, 0, 0, 0);
    XorHex(5497304492415, 1, 1, 0, 0, 1938422733787, 1, 1, 1, 0);
    XorHex(343581530775, 1, 1, 1, 1, 121151420861, 1, 0, 1, 1);
    XorHex(21473845673, 0, 1, 1, 1, 7571963803, 1, 1, 0, 1);
    ThirdStepCHigh();
  }

  lemma {:induction false} ThirdStep()
    ensures NextState(6433587007243654199) == 6037675509993889503
  {
    hide Xor, NextState;
    ThirdStepA();
    ThirdStepB();
    ThirdStepC();
    StepIs(6433587007243654199, 1596944751826231296, 5720078958168732727, 44688116860693224, 5764341555439394527, 2032583556504354816, 6037675509993889503);
  }

  lemma {:induction false} OtherStepA()
    ensures Xor(48955, 401039360) == 401071931
  {
    hide Xor;
    XorHex(3059, 1, 0, 1, 1, 25064960, 0, 0, 0, 0);
    XorHex(191, 0, 0, 1, 1, 1566560, 0, 0, 0, 0);
    XorHex(11, 1, 1, 1, 1, 97910, 0, 0, 0, 0);
    XorHex(0, 1, 0, 1, 1, 6119, 0, 1, 1, 0);
    XorZero(6119);
  }

  lemma {:induction false} OtherStepB()
    ensures Xor(401071931, 3133374) == 398987397
  {
    hide Xor;
    XorHex(25066995, 1, 0, 1, 1, 195835, 1, 1, 1, 0);
    XorHex(1566687, 0, 0, 1, 1, 12239, 1, 0, 1, 1);
    XorHex(97917, 1, 1, 1, 1, 764, 1, 1, 1, 1);
    XorHex(6119, 1, 1, 0, 1, 47, 1, 1, 0, 0);
    XorHex(382, 0, 1, 1, 1, 2, 1, 1, 1, 1);
    XorHex(23, 1, 1, 1, 0, 0, 0, 0, 1, 0);
    XorZero(23);
  }

  lemma {:induction false} OtherStepCHigh()
    ensures Xor(1, 194818) == 194819
  {
    hide Xor;
    XorHex(0, 0, 0, 0, 1, 12176, 0, 0, 1, 0);
    XorZero(12176);
  }

  lemma {:induction false} OtherStepC()
    ensures Xor(398987397, 52296076099584) == 52296440483973
  {
    hide Xor;
    XorHex(24936712, 0, 1, 0, 1, 3268504756224, 0, 0, 0, 0);
    XorHex(1558544, 1, 0, 0, 0, 204281547264, 0, 0, 0, 0);
    XorHex(97409, 0, 0, 0, 0, 12767596704, 0, 0, 0, 0);
    XorHex(6088, 0, 0, 0, 1, 797974794, 0, 0, 0, 0);
    XorHex(380, 1, 0, 0, 0, 49873424, 1, 0, 1, 0);
    XorHex(23, 1, 1, 0, 0, 3117089, 0, 0, 0, 0);
    XorHex(1, 0, 1, 1, 1, 194818, 0, 0, 0, 1);
    OtherStepCHigh();
  }

  lemma {:induction false} OtherStep()
    ensures NextState(48955) == 52296440483973
  {
    hide Xor, NextState;
    OtherStepA();
    OtherStepB();
    OtherStepC();
    StepIs(48955, 401039360, 401071931, 3133374, 398987397, 52296076099584, 52296440483973);
  }

  lemma {:induction false} FirstCoefficients()
    ensures Coefficients(0, 3) == [238, 55, 223] && Coefficients(1, 1) == [133]
  {
    hide NextState;
    FirstStep();
    SecondStep();
    ThirdStep();
    OtherStep();
    var z: nat, one: nat := 0, 1;
    StateSteps(z, z);
    StateSteps(z, z + 1);
    StateSteps(z, z + 2);
    StateSteps(one, z);
    CoefficientSteps(z, z);
    CoefficientSteps(z, z + 1);
    CoefficientSteps(z, z + 2);
    CoefficientSteps(one, z);
  }

  lemma {:induction false} StateSteps(b: nat, c: nat)
    ensures State(b, c + 1) == NextState(State(b, c))
    ensures c == 0 && b < SECRET_BYTES ==> State(b, c) == 0x5A17 * (b + 1) + 0xB0D
  {
    hide NextState;
  }

  lemma {:induction false} CoefficientSteps(b: nat, c: nat)
    ensures Coefficients(b, c + 1) == Coefficients(b, c) + [State(b, c + 1) % 256]
    ensures c == 0 ==> Coefficients(b, c) == []
  {
    hide State;
  }

  lemma {:induction false} EvalOfTwo(s: byte, c: byte)
    ensures Eval([s, c], 1) == Add(s, c)
  {
    hide Mul, Add, Eval;
    assert [s] + [c] == [s, c] && [c] + [] == [c];
    EvalStep(s, [c], 1);
    EvalStep(c, [], 1);
    NoCoefficients(1);
    MulZero(1);
    AddLaws(c, 0, 0);
    MulCommutes(1, c);
    MulOne(c);
  }

  lemma {:induction false} OneCoefficient()
    ensures Coefficients(0, 1) == [238]
  {
    hide Coefficients, State, NextState;
    var z: nat := 0;
    FirstStep();
    StateSteps(z, z);
    CoefficientSteps(z, z);
  }

  /** With threshold 2 the first byte of share 1 is the first byte of the secret plus 238. */
  lemma {:induction false} FirstShareDiffers(share: Share, secret: Vec)
    requires |secret| == SECRET_BYTES && OnCurve(share, 1, secret, 2, SECRET_BYTES)
    ensures share.1[0] == Add(secret[0], 238) && share.1 != secret
  {
    hide Mul, Add, Eval, Coefficients;
    OneCoefficient();
    assert [secret[0]] + [238] == [secret[0], 238];
    EvalOfTwo(secret[0], 238);
    AddCancel(secret[0], 238);
    AddLaws(secret[0], 238, 0);
  }

  lemma {:induction false} EvalOfThree(s: byte, c: byte, d: byte, x: byte)
    ensures Eval([s, c, d], x) == Add(s, Mul(x, Add(c, Mul(x, d))))
  {
    hide Mul, Add, Eval;
    assert [s] + [c, d] == [s, c, d] && [c] + [d] == [c, d] && [d] + [] == [d];
    EvalStep(s, [c, d], x);
    EvalStep(c, [d], x);
    EvalStep(d, [], x);
    NoCoefficients(x);
    MulCommutes(x, 0);
    MulZero(x);
    AddLaws(d, 0, 0);
  }

  lemma {:induction false} TwoCoefficients()
    ensures Coefficients(0, 2) == [238, 55]
  {
    hide Coefficients, State, NextState;
    var z: nat := 0;
    FirstStep();
    SecondStep();
    StateSteps(z, z);
    StateSteps(z, z + 1);
    CoefficientSteps(z, z);
    CoefficientSteps(z, z + 1);
  }

  /** With threshold 3 the coefficients weigh the point and its square, in this order. */
  lemma {:induction false} SharesOfThree(share: Share, x: byte, secret: Vec)
    requires |secret| == SECRET_BYTES && OnCurve(share, x, secret, 3, SECRET_BYTES)
    ensures share.0 == x && share.1[0] == Add(secret[0], Mul(x, Add(238, Mul(x, 55))))
  {
    hide Mul, Add, Eval, Coefficients;
    TwoCoefficients();
    assert [secret[0]] + [238, 55] == [secret[0], 238, 55];
    EvalOfThree(secret[0], 238, 55, x);
  }

  lemma {:induction false} NoCoefficients(x: byte)
    ensures Eval([], x) == 0
  {
  }
}
