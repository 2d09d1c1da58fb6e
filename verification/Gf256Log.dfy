/**
Discrete logarithms in GF(2^8): the powers of x are exactly the nonzero bytes, each
once in a run of 255. Inverses follow.
*/
module Gf256Log {
  import opened Bytes
  import opened Arithmetic
  import opened Sequences
  import opened Gf256

  // ---- The order of x, computed on machine bytes ----------------------------

  function Shift(v: bv8): bv8 {
    (v << 1) ^ (if v & 0x80 != 0 then 0x1D else 0)
  }

  lemma {:induction false} ShiftOfParts(v: bv8)
    requires v & 0x80 != 0
    ensures v as int == 128 + 16 * (((v >> 4) & 7) as int) + 2 * (((v >> 1) & 7) as int) + (v & 1) as int
    ensures Shift(v) as int
         == 32 * (((v >> 4) & 7) as int) + 4 * (7 - ((v >> 1) & 7) as int) + 2 * ((v & 1) as int) + 1
    ensures ((v >> 1) & 7) as int < 8 && (v & 1) as int < 2
  {
  }

  lemma {:induction false} ShiftIsXtime(v: bv8)
    ensures Xtime(v as int) == Shift(v) as int
  {
    if v & 0x80 != 0 {
      ShiftOfParts(v);
      XtimeOfParts(v as int, ((v >> 4) & 7) as int, ((v >> 1) & 7) as int, (v & 1) as int);
    }
  }

  function Shifts(n: nat): bv8 {
    if n == 0 then 1 else Shift(Shifts(n - 1))
  }

  lemma {:induction false} PowerIsShifts(n: nat)
    ensures Power(n) == Shifts(n) as int
  {
    if n > 0 {
      PowerIsShifts(n - 1);
      ShiftIsXtime(Shifts(n - 1));
    }
  }

  function Shift5(v: bv8): bv8 {
    Shift(Shift(Shift(Shift(Shift(v)))))
  }

  lemma {:induction false} ShiftsBy5(n: nat)
    ensures Shifts(n + 5) == Shift5(Shifts(n))
  {
    assert Shifts(n + 2) == Shift(Shift(Shifts(n)));
    assert Shifts(n + 4) == Shift(Shift(Shifts(n + 2)));
  }

  function Shift17(v: bv8): bv8 {
    Shift(Shift(Shift5(Shift5(Shift5(v)))))
  }

  lemma {:induction false} ShiftsBy17(n: nat)
    ensures Shifts(n + 17) == Shift17(Shifts(n))
  {
    ShiftsBy5(n);
    ShiftsBy5(n + 5);
    ShiftsBy5(n + 10);
    assert Shifts(n + 17) == Shift(Shift(Shifts(n + 15)));
  }

  function Shift85(v: bv8): bv8 {
    Shift17(Shift17(Shift17(Shift17(Shift17(v)))))
  }

  lemma {:induction false} ShiftsBy85(n: nat)
    ensures Shifts(n + 85) == Shift85(Shifts(n))
  {
    ShiftsBy17(n);
    ShiftsBy17(n + 17);
    ShiftsBy17(n + 34);
    ShiftsBy17(n + 51);
    ShiftsBy17(n + 68);
  }

  lemma {:induction false} Shift17Up()
    ensures Shift17(1) == 152 && Shift17(152) == 78 && Shift17(78) == 10 && Shift17(10) == 153 && Shift17(153) == 214
  {
  }

  lemma {:induction false} Shift17Further()
    ensures Shift17(214) == 68 && Shift17(68) == 147 && Shift17(147) == 79 && Shift17(79) == 146 && Shift17(146) == 215
  {
  }

  lemma {:induction false} Shift17Around()
    ensures Shift17(215) == 220 && Shift17(220) == 221 && Shift17(221) == 69 && Shift17(69) == 11 && Shift17(11) == 1
  {
  }

  lemma {:induction false} Shift85Values()
    ensures Shift85(1) == 214 && Shift85(214) == 215 && Shift85(215) == 1
  {
    hide Shift17;
    Shift17Up();
    Shift17Further();
    Shift17Around();
  }

  lemma {:induction false} ShiftValues()
    ensures Shift17(Shift17(Shift17(1))) == 10 && Shift5(Shift5(Shift5(1))) == 38
  {
    Shift17Up();
  }

  lemma {:induction false} ShiftsByDivisor(n: nat)
    requires Shifts(n) == 1
    ensures Shifts(n + 15) != 1 && Shifts(n + 51) != 1 && Shifts(n + 85) != 1
  {
    ShiftValues();
    Shift85Values();
    ShiftsBy5(n);
    ShiftsBy5(n + 5);
    ShiftsBy5(n + 10);
    ShiftsBy17(n);
    ShiftsBy17(n + 17);
    ShiftsBy17(n + 34);
    ShiftsBy85(n);
  }

  lemma {:induction false} ShiftsBy255(n: nat)
    requires Shifts(n) == 1
    ensures Shifts(n + 255) == 1
  {
    Shift85Values();
    ShiftsBy85(n);
    ShiftsBy85(n + 85);
    ShiftsBy85(n + 170);
  }

  lemma {:induction false} PowerIsOne(n: nat)
    ensures Power(n) == 1 <==> Shifts(n) == 1
  {
    PowerIsShifts(n);
  }

  /** x^255 is 1, and x^n is not 1 for n one of the three largest proper divisors of 255. */
  lemma {:induction false} PowerTable(n: nat)
    ensures n == 15 || n == 51 || n == 85 ==> Power(n) != 1
    ensures n == 255 ==> Power(n) == 1
  {
    PowerIsOne(n);
    var zero: nat := 0;
    if n == 255 {
      ShiftsBy255(zero);
    } else {
      ShiftsByDivisor(zero);
    }
  }

  // ---- x has order exactly 255 ------------------------------------------------

  lemma {:induction false} PowerPeriodic(n: nat, q: nat, r: nat)
    requires Power(n) == 1
    ensures Power(q * n + r) == Power(r)
    decreases q
  {
    hide Power, Gf256.Mul;
    if q > 0 {
      PowerPeriodic(n, q - 1, r);
      OneMore(q - 1, n);
      PowerAdd(n, (q - 1) * n + r);
      MulOne(Power(r));
    }
  }

  lemma {:induction false} AtMost(q: nat, n: nat)
    requires q * n == 255 && n > 15
    ensures q < 16
  {
    assert q * (n - 16) >= 0;
  }

  lemma {:induction false} PowerWraps(n: nat, o: nat)
    requires o == 255
    ensures Power(o + n) == Power(n)
  {
    PowerTable(o);
    PowerAdd(o, n);
    MulOne(Power(n));
  }

  /** A proper divisor of 255 divides 15, 51 or 85. */
  lemma {:induction false} ProperDivisor(n: nat, q: nat) returns (d: nat)
    requires q * n == 255 && n < 255
    ensures d * n == 15 || d * n == 51 || d * n == 85
  {
    if n > 15 {
      AtMost(q, n);
      SmallDivisor(q, n);
      d := if q == 15 then 3 else 1;
    } else {
      SmallDivisor(n, q);
      d := if n == 1 then 15 else if n == 3 then 5 else if n == 5 then 3 else 1;
    }
  }

  /** The divisors of 255 up to 15 and their cofactors. */
  lemma {:induction false} SmallDivisor(a: nat, b: nat)
    requires a * b == 255 && a <= 15
    ensures (a == 1 && b == 255) || (a == 3 && b == 85) || (a == 5 && b == 51) || (a == 15 && b == 17)
  {
    assert a != 0;
    if a == 1 {
    } else if a == 2 {
    } else if a == 3 {
    } else if a == 4 {
    } else if a == 5 {
    } else if a == 6 {
    } else if a == 7 {
    } else if a == 8 {
    } else if a == 9 {
    } else if a == 10 {
    } else if a == 11 {
    } else if a == 12 {
    } else if a == 13 {
    } else if a == 14 {
    } else {
      assert a == 15;
    }
  }

  /** If x^n is 1, so is x^m for every multiple m of n; in general x^m is x^(m mod n). */
  lemma {:induction false} PowerModulo(n: nat, m: nat)
    requires n > 0 && Power(n) == 1
    ensures Power(m) == Power(m % n)
  {
    var q, r := m / n, m % n;
    assert m == q * n + r;
    PowerPeriodic(n, q, r);
  }

  lemma {:induction false} DivisorIsNotOne(n: nat, q: nat)
    requires q * n == 255 && n < 255
    ensures Power(n) != 1
  {
    if Power(n) == 1 {
      var d := ProperDivisor(n, q);
      PowerPeriodic(n, d, 0);
      var m: nat := d * n;
      assert m + 0 == m && Power(0) == 1;
      PowerTable(m);
    }
  }

  lemma {:induction false} PowerIsNotOne(n: nat, o: nat)
    requires 0 < n < o == 255
    ensures Power(n) != 1
    decreases n
  {
    var r := o % n;
    if r == 0 {
      DivisorIsNotOne(n, o / n);
    } else if Power(n) == 1 {
      PowerModulo(n, o);
      PowerTable(o);
      PowerIsNotOne(r, o);
    }
  }

  lemma {:induction false} XtimeInjective(a: byte, b: byte)
    requires Xtime(a) == Xtime(b)
    ensures a == b
  {
    XtimeAdd(a, b);
    AddCancel(Xtime(a), Xtime(b));
    AddCancel(a, b);
  }

  lemma {:induction false} PowerInjective(i: nat, j: nat)
    requires i < j < 255
    ensures Power(i) != Power(j)
  {
    if i == 0 {
      PowerIsNotOne(j, 255);
    } else if Power(i) == Power(j) {
      XtimeInjective(Power(i - 1), Power(j - 1));
      PowerInjective(i - 1, j - 1);
    }
  }

  lemma {:induction false} PowerNonzero(n: nat)
    ensures Power(n) != 0
  {
    if n > 0 {
      PowerNonzero(n - 1);
      if Power(n) == 0 {
        XtimeInjective(Power(n - 1), 0);
      }
    }
  }

  // ---- Every nonzero byte is a power of x -------------------------------------

  ghost function Powers(n: nat): set<int> {
    if n == 0 then {} else Powers(n - 1) + {Power(n - 1) as int}
  }

  lemma {:induction false} PowersMember(n: nat, a: int)
    ensures a in Powers(n) <==> exists i: nat :: i < n && Power(i) == a
  {
    if n > 0 {
      PowersMember(n - 1, a);
      if a in Powers(n) {
        if a == Power(n - 1) {
          assert exists i: nat :: i < n && Power(i) == a;
        } else {
          assert a in Powers(n - 1);
          assert exists i: nat :: i < n && Power(i) == a;
        }
      } else {
        assert a != Power(n - 1);
        assert a !in Powers(n - 1);
        assert !exists i: nat :: i < n && Power(i) == a;
      }
    }
  }

  lemma {:induction false} PowersSize(n: nat)
    requires n <= 255
    ensures |Powers(n)| == n
  {
    if n > 0 {
      PowersSize(n - 1);
      PowersMember(n - 1, Power(n - 1));
      forall i: nat | i < n - 1
        ensures Power(i) != Power(n - 1)
      {
        PowerInjective(i, n - 1);
      }
    }
  }

  ghost function UpTo(n: nat): set<int> {
    if n == 0 then {} else UpTo(n - 1) + {n}
  }

  lemma {:induction false} UpToMembers(n: nat)
    ensures |UpTo(n)| == n
    ensures forall a :: a in UpTo(n) <==> 0 < a <= n
  {
    if n > 0 {
      UpToMembers(n - 1);
    }
  }

  lemma {:induction false} EveryByteIsAPower(a: byte)
    requires a != 0
    ensures exists i: nat :: i < 255 && Power(i) == a
  {
    PowersSize(255);
    UpToMembers(255);
    forall x | x in Powers(255)
      ensures x in UpTo(255)
    {
      PowersMember(255, x);
      var i: nat :| i < 255 && Power(i) == x;
      PowerNonzero(i);
    }
    SubsetOfSameSize(Powers(255), UpTo(255));
    PowersMember(255, a);
  }

  // ---- Logarithm and inverse ---------------------------------------------------

  ghost function Log(a: byte): (i: nat)
    requires a != 0
    ensures i < 255 && Power(i) == a
  {
    EveryByteIsAPower(a);
    var i: nat :| i < 255 && Power(i) == a;
    i
  }

  lemma {:induction false} LogIsUnique(i: nat)
    requires i < 255
    ensures Power(i) != 0 && Log(Power(i)) == i
  {
    PowerNonzero(i);
    var j := Log(Power(i));
    if j < i {
      PowerInjective(j, i);
    } else if i < j {
      PowerInjective(i, j);
    }
  }

  ghost function Inverse(a: byte): (b: byte)
    requires a != 0
    ensures b != 0 && Mul(a, b) == 1 && Mul(b, a) == 1
  {
    var b := Power(255 - Log(a));
    PowerAdd(Log(a), 255 - Log(a));
    PowerTable(Log(a) + (255 - Log(a)));
    MulCommutes(a, b);
    PowerNonzero(255 - Log(a));
    b
  }

  lemma {:induction false} NoZeroDivisors(a: byte, b: byte)
    requires Mul(a, b) == 0
    ensures a == 0 || b == 0
  {
    if a != 0 {
      MulAssociates(Inverse(a), a, b);
      MulOne(b);
    }
  }

  lemma {:induction false} MulCancel(a: byte, b: byte, c: byte)
    requires a != 0 && Mul(a, b) == Mul(a, c)
    ensures b == c
  {
    MulAddRight(a, b, c);
    AddCancel(Mul(a, b), Mul(a, c));
    NoZeroDivisors(a, Add(b, c));
    AddCancel(b, c);
  }
}
