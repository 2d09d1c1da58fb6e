/** Bit strings, most significant bit first. */
module BitStrings {
  import opened Bytes
  import opened PowersOfTwo

  type bit = x: int | 0 <= x < 2

  /** The n low bits of v. */
  function Bits(v: nat, n: nat): (b: seq<bit>)
    ensures |b| == n
  {
    if n == 0 then [] else Bits(v / 2, n - 1) + [v % 2]
  }

  function Value(b: seq<bit>): nat {
    if b == [] then 0 else 2 * Value(b[..|b| - 1]) + b[|b| - 1]
  }

  lemma {:induction false} ValueOfBits(v: nat, n: nat)
    requires v < Pow2(n)
    ensures Value(Bits(v, n)) == v
  {
    if n > 0 {
      ValueOfBits(v / 2, n - 1);
      assert Bits(v, n)[..n - 1] == Bits(v / 2, n - 1);
    }
  }

  lemma {:induction false} BitsOfValue(b: seq<bit>)
    ensures Value(b) < Pow2(|b|) && Bits(Value(b), |b|) == b
  {
    if b != [] {
      var n := |b| - 1;
      BitsOfValue(b[..n]);
      assert Value(b) / 2 == Value(b[..n]) && Value(b) % 2 == b[n];
    }
  }

  /** The bits of a byte string. */
  function BitsOf(bytes: seq<byte>): (b: seq<bit>)
    ensures |b| == 8 * |bytes|
  {
    if bytes == [] then [] else BitsOf(bytes[..|bytes| - 1]) + Bits(bytes[|bytes| - 1], 8)
  }

  // ---- Shifts ------------------------------------------------------------------------------

  function Shr(v: nat, n: nat): nat {
    if n == 0 then v else Shr(v / 2, n - 1)
  }

  /** The m low bits. */
  function Low(v: nat, m: nat): (r: nat)
    ensures r < Pow2(m)
  {
    if m == 0 then 0 else 2 * Low(v / 2, m - 1) + v % 2
  }

  /** A shift to the left in a 64-bit word. */
  function Shl(v: nat, n: nat): nat {
    Low(v * Pow2(n % 64), 64)
  }

  function Or(a: nat, b: nat): nat {
    if a == 0 && b == 0 then 0
    else 2 * Or(a / 2, b / 2) + (if a % 2 == 1 || b % 2 == 1 then 1 else 0)
  }

  lemma {:induction false} OrOfApart(v: nat, c: nat, n: nat)
    requires c < Pow2(n)
    ensures Or(v * Pow2(n), c) == v * Pow2(n) + c
  {
    if n == 0 {
      OrZero(v);
    } else {
      Doubled(v, Pow2(n - 1));
      OrOfApart(v, c / 2, n - 1);
    }
  }

  lemma {:induction false} OrZero(v: nat)
    ensures Or(v, 0) == v
  {
    if v > 0 {
      OrZero(v / 2);
    }
  }

  lemma {:induction false} SplitBits(v: nat, k: nat, n: nat)
    ensures Bits(v, k + n) == Bits(Shr(v, n), k) + Bits(v, n)
  {
    if n > 0 {
      SplitBits(v / 2, k, n - 1);
    }
  }

  lemma {:induction false} ShiftBits(v: nat, c: nat, k: nat, n: nat)
    requires c < Pow2(n)
    ensures Bits(v * Pow2(n) + c, k + n) == Bits(v, k) + Bits(c, n)
  {
    if n > 0 {
      var p := Pow2(n - 1);
      Doubled(v, p);
      var x := v * Pow2(n) + c;
      assert x / 2 == v * p + c / 2 && x % 2 == c % 2;
      ShiftBits(v, c / 2, k, n - 1);
    }
  }

  /** Bits beyond the m-th do not matter to the first m. */
  lemma {:induction false} LowBits(v: nat, m: nat, n: nat)
    requires n <= m
    ensures Bits(Low(v, m), n) == Bits(v, n)
  {
    if n > 0 {
      LowBits(v / 2, m - 1, n - 1);
    }
  }

  lemma {:induction false} LowOfShifted(v: nat, n: nat, m: nat)
    requires n <= m
    ensures Low(v * Pow2(n), m) == Low(v, m - n) * Pow2(n)
  {
    hide Low;
    if n > 0 {
      Doubled(v, Pow2(n - 1));
      Doubled(Low(v, m - n), Pow2(n - 1));
      LowEven(v * Pow2(n - 1), m);
      LowOfShifted(v, n - 1, m - 1);
    }
  }

  lemma {:induction false} LowEven(v: nat, m: nat)
    requires m > 0
    ensures Low(2 * v, m) == 2 * Low(v, m - 1)
  {
  }

  lemma {:induction false} LowIsRemainder(v: nat, m: nat)
    ensures v == Shr(v, m) * Pow2(m) + Low(v, m)
  {
    if m > 0 {
      LowIsRemainder(v / 2, m - 1);
      Doubled(Shr(v, m), Pow2(m - 1));
    }
  }

  /** The low bits of a small number are the number. */
  lemma {:induction false} LowOfSmall(v: nat, m: nat)
    requires v < Pow2(m)
    ensures Low(v, m) == v
  {
    if m > 0 {
      LowOfSmall(v / 2, m - 1);
    }
  }
}
