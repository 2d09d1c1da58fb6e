/**
The field GF(2^8) modulo x^8 + x^4 + x^3 + x^2 + 1 (0x11D).

`Mul` is the reference product: Horner's rule over the bits of the second factor.
The laws of a field are proved for it; the table-driven arithmetic of the program
(class `Gf8` in Gf8.dfy) is proved to compute the same product.
*/
module Gf256 {
  import opened Bytes

  /** Multiplication by x. When the top bit falls out, reduction by 0x11D sets bit 0
      and flips bits 2, 3 and 4 (`XtimeReduces`). */
  function Xtime(a: byte): byte {
    if a < 128 then 2 * a else 2 * a - 227 - 8 * ((a - 128) / 2 % 8)
  }

  /** The low bit of b selects a or nothing. */
  function Times(a: byte, b: nat): byte {
    if b % 2 == 1 then a else 0
  }

  function Mul(a: byte, b: byte): byte
    decreases b
  {
    if b == 0 then 0
    else Add(Xtime(Mul(a, b / 2)), Times(a, b))
  }

  /** x to the n-th power. */
  function Power(n: nat): byte {
    if n == 0 then 1 else Xtime(Power(n - 1))
  }

  // ---- Linearity -----------------------------------------------------------

  /** One bit of an exclusive or. */
  lemma {:induction false} XorBit(a: nat, p: nat, b: nat, q: nat)
    requires p < 2 && q < 2
    ensures Xor(2 * a + p, 2 * b + q) == 2 * Xor(a, b) + (if p == q then 0 else 1)
  {
    hide Xor;
    XorStep(2 * a + p, 2 * b + q);
    SameHalves(Xor(2 * a + p, 2 * b + q), 2 * Xor(a, b) + (if p == q then 0 else 1));
  }

  lemma {:induction false} XorSeven(u: nat, x: nat, y: nat, z: nat)
    requires x < 2 && y < 2 && z < 2
    ensures Xor(8 * u + 4 * x + 2 * y + z, 7) == 8 * u + 7 - (4 * x + 2 * y + z)
  {
    XorZero(u);
    hide Xor;
    XorBit(2 * (2 * u + x) + y, z, 3, 1);
    XorBit(2 * u + x, y, 1, 1);
    XorBit(u, x, 0, 1);
  }

  lemma {:induction false} XorZero(u: nat)
    ensures Xor(u, 0) == u == Xor(0, u)
  {
  }

  lemma {:induction false} XorReduction(u: nat, x: nat, y: nat, z: nat, e: nat)
    requires x < 2 && y < 2 && z < 2 && e < 2
    ensures Xor(2 * (2 * (8 * u + 4 * x + 2 * y + z) + e), 29)
         == 4 * (8 * u + 7 - (4 * x + 2 * y + z)) + 2 * e + 1
  {
    hide Xor;
    XorSeven(u, x, y, z);
    XorBit(8 * u + 4 * x + 2 * y + z, e, 7, 0);
    XorBit(2 * (8 * u + 4 * x + 2 * y + z) + e, 0, 14, 1);
  }

  lemma {:induction false} XtimeOfParts(a: byte, u: nat, d: nat, e: nat)
    requires a == 128 + 16 * u + 2 * d + e && d < 8 && e < 2
    ensures Xtime(a) == 4 * (8 * u + 7 - d) + 2 * e + 1
  {
    assert a - 128 == 2 * (8 * u + d) + e;
    assert (a - 128) / 2 == 8 * u + d;
  }

  lemma {:induction false} Parts(a: nat) returns (u: nat, x: nat, y: nat, z: nat, e: nat)
    ensures a == 16 * u + 8 * x + 4 * y + 2 * z + e
    ensures x < 2 && y < 2 && z < 2 && e < 2
  {
    var b := a / 2;
    var c := b / 2;
    var d := c / 2;
    e, z, y, x, u := a % 2, b % 2, c % 2, d % 2, d / 2;
  }

  lemma {:induction false} XtimeReduces(a: byte)
    requires a >= 128
    ensures Xtime(a) == Xor(2 * a - 256, 0x1D)
  {
    var u, x, y, z, e := Parts(a - 128);
    XtimeOfParts(a, u, 4 * x + 2 * y + z, e);
    XorReduction(u, x, y, z, e);
  }

  /** The bit of weight m, a power of two, is carried independently of the lower ones. */
  lemma {:induction false} TopBit(a: nat, b: nat, m: nat)
    requires IsPowerOfTwo(m) && a < m && b < m
    ensures Xor(a + m, b) == Xor(a, b) + m
    decreases m
  {
    hide Xor;
    XorZero(a + m);
    XorZero(a);
    if m > 1 {
      var n := m / 2;
      assert m == 2 * n;
      TopBit(a / 2, b / 2, n);
      XorStep(a, b);
      XorStep(a + m, b);
      assert (a + m) / 2 == a / 2 + n && (a + m) % 2 == a % 2;
      SameHalves(Xor(a + m, b), Xor(a, b) + m);
    }
  }

  lemma {:induction false} TopBitTwice(a: nat, b: nat, m: nat)
    requires IsPowerOfTwo(m) && a < m && b < m
    ensures Xor(a + m, b + m) == Xor(a, b)
    decreases m
  {
    hide Xor;
    XorStep(a + m, b + m);
    XorStep(a, b);
    XorZero(0);
    if m > 1 {
      var n := m / 2;
      assert m == 2 * n;
      TopBitTwice(a / 2, b / 2, n);
      assert (a + m) / 2 == a / 2 + n && (a + m) % 2 == a % 2;
      assert (b + m) / 2 == b / 2 + n && (b + m) % 2 == b % 2;
    }
    SameHalves(Xor(a + m, b + m), Xor(a, b));
  }

  lemma {:induction false} XorDouble(a: nat, b: nat)
    ensures Xor(2 * a, 2 * b) == 2 * Xor(a, b)
  {
    hide Xor;
    XorBit(a, 0, b, 0);
  }

  /** The seven low bits of a byte, and its top bit as a summand. */
  lemma {:induction false} SplitTop(a: byte)
    requires a >= 128
    ensures a == Add(128, a - 128)
    ensures Xtime(a) == Add(Xtime(a - 128), 0x1D)
  {
    hide Xor;
    TopBit(0, a - 128, 128);
    XorZero(a - 128);
    XtimeReduces(a);
  }

  lemma {:induction false} XtimeAddLow(a: byte, b: byte)
    requires a < 128 && b < 128
    ensures Xtime(Add(a, b)) == Add(Xtime(a), Xtime(b))
  {
    XorBound(a, b, 128);
    XorDouble(a, b);
  }

  lemma {:induction false} XtimeAdd128(a: byte)
    ensures Xtime(Add(128, a)) == Add(0x1D, Xtime(a))
  {
    if a < 128 {
      TopBit(0, a, 128);
      SplitTop(128 + a);
      AddLaws(Xtime(a), 0x1D, 0);
    } else {
      SplitTop(a);
      AddCancel(128, a - 128);
      AddLaws(Xtime(a - 128), 0x1D, 0);
      AddCancel(0x1D, Xtime(a - 128));
    }
  }

  lemma {:induction false} XtimeAdd(a: byte, b: byte)
    ensures Xtime(Add(a, b)) == Add(Xtime(a), Xtime(b))
    decreases a / 128 + b / 128, 255 - a
  {
    if a >= 128 {
      var c: byte := a - 128;
      calc {
        Xtime(Add(a, b));
        { SplitTop(a); AddLaws(128, c, b); }
        Xtime(Add(128, Add(c, b)));
        { XtimeAdd128(Add(c, b)); XtimeAdd(c, b); }
        Add(0x1D, Add(Xtime(c), Xtime(b)));
        { AddLaws(0x1D, Xtime(c), Xtime(b)); XtimeAdd128(c); SplitTop(a); }
        Add(Xtime(a), Xtime(b));
      }
    } else if b >= 128 {
      AddLaws(a, b, 0);
      XtimeAdd(b, a);
      AddLaws(Xtime(a), Xtime(b), 0);
    } else {
      XtimeAddLow(a, b);
    }
  }

  lemma {:induction false} MulAddLeft(a: byte, b: byte, c: byte)
    ensures Mul(Add(a, b), c) == Add(Mul(a, c), Mul(b, c))
    decreases c
  {
    if c != 0 {
      var p, q := Mul(a, c / 2), Mul(b, c / 2);
      MulAddLeft(a, b, c / 2);
      XtimeAdd(p, q);
      AddSwap(Xtime(p), Xtime(q), Times(a, c), Times(b, c));
    }
  }

  lemma {:induction false} MulAddRight(a: byte, b: byte, c: byte)
    ensures Mul(a, Add(b, c)) == Add(Mul(a, b), Mul(a, c))
    decreases b + c
  {
    if b != 0 && c != 0 {
      var p, q := Mul(a, b / 2), Mul(a, c / 2);
      XorStep(b, c);
      MulAddRight(a, b / 2, c / 2);
      XtimeAdd(p, q);
      AddSwap(Xtime(p), Xtime(q), Times(a, b), Times(a, c));
      AddLaws(a, 0, 0);
      MulStep(a, Add(b, c));
    }
  }

  lemma {:induction false} MulStep(a: byte, b: byte)
    ensures Mul(a, b) == Add(Xtime(Mul(a, b / 2)), Times(a, b))
  {
  }

  lemma {:induction false} MulZero(a: byte)
    ensures Mul(0, a) == 0 == Mul(a, 0)
    decreases a
  {
    if a != 0 {
      MulZero(a / 2);
    }
  }

  // ---- Multiplication by x commutes with the product -----------------------

  lemma {:induction false} MulXtimeLeft(a: byte, b: byte)
    ensures Mul(Xtime(a), b) == Xtime(Mul(a, b))
    decreases b
  {
    if b != 0 {
      MulXtimeLeft(a, b / 2);
      XtimeAdd(Xtime(Mul(a, b / 2)), Times(a, b));
    }
  }

  /** Every byte is its upper seven bits times x, plus its lowest bit. */
  lemma {:induction false} SplitLowBit(b: byte)
    ensures b == Add(Xtime(b / 2), b % 2)
  {
    XorStep(2 * (b / 2), b % 2);
    SameHalves(b, Xor(2 * (b / 2), b % 2));
  }

  lemma {:induction false} MulOne(a: byte)
    ensures Mul(1, a) == a
    decreases a
  {
    if a != 0 {
      MulOne(a / 2);
      SplitLowBit(a);
    }
  }

  lemma {:induction false} MulCommutes(a: byte, b: byte)
    ensures Mul(a, b) == Mul(b, a)
    decreases b
  {
    if b == 0 {
      MulZero(a);
    } else {
      var h: byte, l: byte := b / 2, b % 2;
      calc {
        Mul(b, a);
        { SplitLowBit(b); MulAddLeft(Xtime(h), l, a); }
        Add(Mul(Xtime(h), a), Mul(l, a));
        { MulXtimeLeft(h, a); MulCommutes(a, h); MulOne(a); MulZero(a); }
        Add(Xtime(Mul(a, h)), Times(a, b));
        Mul(a, b);
      }
    }
  }

  lemma {:induction false} MulXtimeRight(a: byte, b: byte)
    ensures Mul(a, Xtime(b)) == Xtime(Mul(a, b))
  {
    MulCommutes(a, Xtime(b));
    MulXtimeLeft(b, a);
    MulCommutes(a, b);
  }

  lemma {:induction false} MulAssociates(a: byte, b: byte, c: byte)
    ensures Mul(Mul(a, b), c) == Mul(a, Mul(b, c))
    decreases c
  {
    if c != 0 {
      var h: byte := c / 2;
      MulAssociates(a, b, h);
      MulAddRight(a, Xtime(Mul(b, h)), Times(b, c));
      MulXtimeRight(a, Mul(b, h));
    }
  }

  // ---- Powers of x ---------------------------------------------------------

  lemma {:induction false} PowerAdd(m: nat, n: nat)
    ensures Power(m + n) == Mul(Power(m), Power(n))
    decreases n
  {
    if n == 0 {
      MulCommutes(Power(m), 1);
      MulOne(Power(m));
    } else {
      PowerAdd(m, n - 1);
      MulXtimeRight(Power(m), Power(n - 1));
    }
  }
}
