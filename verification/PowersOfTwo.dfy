/** Powers of two. */
module PowersOfTwo {

  function Pow2(n: nat): nat {
    if n == 0 then 1 else 2 * Pow2(n - 1)
  }

  lemma {:induction false} Pow2Positive(n: nat)
    ensures Pow2(n) > 0
  {
    if n > 0 {
      Pow2Positive(n - 1);
    }
  }

  const TWO_64 := 0x1_0000_0000_0000_0000

  lemma {:induction false} Pow2Add(m: nat, n: nat)
    ensures Pow2(m + n) == Pow2(m) * Pow2(n)
  {
    if m > 0 {
      Pow2Add(m - 1, n);
      Doubled(Pow2(n), Pow2(m - 1));
    }
  }

  lemma {:induction false} Doubled(x: nat, p: nat)
    ensures x * (2 * p) == 2 * (x * p)
  {
  }

  lemma {:induction false} Pow2Of32(n: nat)
    requires n == 32
    ensures Pow2(n) == 0x1_0000_0000
  {
    var z: nat := 0;
    assert Pow2(z + 2) == 4 && Pow2(z + 4) == 4 * Pow2(z + 2);
    Pow2Add(z + 4, z + 4);
    Pow2Add(z + 8, z + 8);
    Pow2Add(z + 16, z + 16);
  }

  lemma {:induction false} Pow2Of64(n: nat)
    requires n == 64
    ensures Pow2(n) == TWO_64
  {
    Pow2Of32(n - 32);
    Pow2Add(n - 32, n - 32);
  }

  lemma {:induction false} Pow2Grows(m: nat, n: nat)
    requires m <= n
    ensures Pow2(m) <= Pow2(n)
  {
    if m < n {
      Pow2Grows(m, n - 1);
    }
  }

  lemma {:induction false} Pow2Zero()
    ensures Pow2(0) == 1
  {
  }

  lemma {:induction false} Pow2Next(n: nat)
    ensures Pow2(n + 1) == 2 * Pow2(n)
  {
  }

  lemma {:induction false} Pow2Of8(n: nat)
    requires n == 8
    ensures Pow2(n) == 256
  {
    var z: nat := 0;
    assert Pow2(z + 2) == 4 && Pow2(z + 4) == 4 * Pow2(z + 2);
    Pow2Add(z + 4, z + 4);
  }
}
