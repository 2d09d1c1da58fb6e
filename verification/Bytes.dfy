/**
Bytes, exclusive or, and the fixed-width little-endian integers of the file formats.
*/
module Bytes {

  type byte = x: int | 0 <= x < 256

  /** Bitwise exclusive or. */
  function Xor(a: nat, b: nat): nat {
    if a == 0 then b
    else if b == 0 then a
    else 2 * Xor(a / 2, b / 2) + (if a % 2 == b % 2 then 0 else 1)
  }

  lemma {:induction false} XorStep(a: nat, b: nat)
    ensures Xor(a, b) / 2 == Xor(a / 2, b / 2)
    ensures Xor(a, b) % 2 == if a % 2 == b % 2 then 0 else 1
  {
  }

  lemma {:induction false} SameHalves(a: nat, b: nat)
    requires a / 2 == b / 2 && a % 2 == b % 2
    ensures a == b
  {
  }

  lemma {:induction false} XorCommutes(a: nat, b: nat)
    ensures Xor(a, b) == Xor(b, a)
  {
    if a != 0 && b != 0 {
      XorCommutes(a / 2, b / 2);
    }
  }

  lemma {:induction false} XorAssociates(a: nat, b: nat, c: nat)
    ensures Xor(Xor(a, b), c) == Xor(a, Xor(b, c))
    decreases a + b + c
  {
    if a != 0 && b != 0 && c != 0 {
      XorAssociates(a / 2, b / 2, c / 2);
      XorStep(a, b);
      XorStep(b, c);
      XorStep(Xor(a, b), c);
      XorStep(a, Xor(b, c));
      SameHalves(Xor(Xor(a, b), c), Xor(a, Xor(b, c)));
    }
  }

  lemma {:induction false} XorSelf(a: nat)
    ensures Xor(a, a) == 0
  {
    if a != 0 {
      XorSelf(a / 2);
    }
  }

  lemma {:induction false} XorBound(a: nat, b: nat, m: nat)
    requires a < m && b < m
    requires IsPowerOfTwo(m)
    ensures Xor(a, b) < m
  {
    if a != 0 && b != 0 {
      XorBound(a / 2, b / 2, m / 2);
    }
  }

  predicate IsPowerOfTwo(m: nat) {
    m == 1 || (m > 1 && m % 2 == 0 && IsPowerOfTwo(m / 2))
  }

  /** Exclusive or of two bytes is a byte. */
  function Add(a: byte, b: byte): (r: byte)
    ensures r == Xor(a, b)
  {
    XorBound(a, b, 256);
    Xor(a, b)
  }

  /** The order of three and of four terms does not matter; a repeated term cancels. */
  lemma {:induction false} AddLaws(a: byte, b: byte, c: byte)
    ensures Add(a, b) == Add(b, a)
    ensures Add(Add(a, b), c) == Add(a, Add(b, c))
    ensures Add(a, a) == 0
    ensures Add(a, 0) == a == Add(0, a)
  {
    XorCommutes(a, b);
    XorAssociates(a, b, c);
    XorSelf(a);
  }

  lemma {:induction false} AddSwap(a: byte, b: byte, c: byte, d: byte)
    ensures Add(Add(a, b), Add(c, d)) == Add(Add(a, c), Add(b, d))
  {
    AddLaws(a, b, Add(c, d));
    AddLaws(b, c, d);
    AddLaws(c, b, d);
    AddLaws(a, c, Add(b, d));
  }

  lemma {:induction false} AddCancel(a: byte, b: byte)
    ensures Add(Add(a, b), b) == a
    ensures Add(a, Add(a, b)) == b
    ensures Add(a, b) == 0 <==> a == b
  {
    AddLaws(a, b, b);
    AddLaws(a, a, b);
    AddLaws(b, 0, 0);
  }

  // ---- Little-endian integers --------------------------------------------------------------

  /** The low `width` bytes of n, lowest first. */
  function Le(n: nat, width: nat): (s: seq<byte>)
    ensures |s| == width
    decreases width
  {
    if width == 0 then [] else [n % 256] + Le(n / 256, width - 1)
  }

  function FromLe(s: seq<byte>): nat {
    if s == [] then 0 else s[0] + 256 * FromLe(s[1..])
  }

  function Pow256(n: nat): nat {
    if n == 0 then 1 else 256 * Pow256(n - 1)
  }

  lemma {:induction false} FromLeOfLe(n: nat, width: nat)
    requires n < Pow256(width)
    ensures FromLe(Le(n, width)) == n
    decreases width
  {
    if width > 0 {
      FromLeOfLe(n / 256, width - 1);
      assert Le(n, width)[1..] == Le(n / 256, width - 1);
    }
  }

  lemma {:induction false} LeOfFromLe(s: seq<byte>)
    ensures FromLe(s) < Pow256(|s|)
    ensures Le(FromLe(s), |s|) == s
  {
    if s != [] {
      LeOfFromLe(s[1..]);
      var rest := FromLe(s[1..]);
      assert FromLe(s) == s[0] + 256 * rest;
      assert FromLe(s) % 256 == s[0] && FromLe(s) / 256 == rest;
    }
  }

  lemma {:induction false} SmallMod(i: nat, k: nat)
    requires i < k
    ensures i % k == i
  {
  }

  lemma {:induction false} Widths(two: nat, four: nat, eight: nat)
    requires two == 2 && four == 4 && eight == 8
    ensures Pow256(two) == 65536 && Pow256(four) == 0x1_0000_0000 && Pow256(eight) == 0x1_0000_0000_0000_0000
  {
    var z: nat := 0;
    assert Pow256(z + 2) == 65536 && Pow256(z + 4) == 65536 * Pow256(z + 2);
    assert Pow256(z + 6) == 65536 * Pow256(z + 4) && Pow256(z + 8) == 65536 * Pow256(z + 6);
  }

  // ---- Bytes written out -------------------------------------------------------------------

  /** The codes of the characters of a text. */
  function Ascii(text: string): (s: seq<byte>)
    ensures |s| == |text|
  {
    seq(|text|, i requires 0 <= i < |text| => text[i] as int % 256)
  }

  /** The bytes of a 64-bit number, lowest first. */
  function Bytes8(n: nat): seq<byte> {
    [n % 256, n / 0x100 % 256, n / 0x1_0000 % 256, n / 0x100_0000 % 256,
     n / 0x1_0000_0000 % 256, n / 0x100_0000_0000 % 256, n / 0x1_0000_0000_0000 % 256, n / 0x100_0000_0000_0000 % 256]
  }

  lemma {:induction false} LeStep(n: nat, width: nat)
    requires width > 0
    ensures Le(n, width) == [n % 256] + Le(n / 256, width - 1)
  {
  }

  lemma {:induction false} LeFour(n: nat, width: nat)
    requires width >= 4
    ensures Le(n, width) == [n % 256, n / 0x100 % 256, n / 0x1_0000 % 256, n / 0x100_0000 % 256]
                            + Le(n / 0x1_0000_0000, width - 4)
  {
    hide Le;
    LeStep(n, width);
    LeStep(n / 0x100, width - 1);
    LeStep(n / 0x1_0000, width - 2);
    LeStep(n / 0x100_0000, width - 3);
    assert n / 0x100 / 256 == n / 0x1_0000 && n / 0x1_0000 / 256 == n / 0x100_0000;
    assert n / 0x100_0000 / 256 == n / 0x1_0000_0000;
  }

  lemma {:induction false} LeEight(n: nat, width: nat)
    requires width == 8
    ensures Le(n, width) == Bytes8(n)
  {
    var m := n / 0x1_0000_0000;
    assert Le(m / 0x1_0000_0000, width - 8) == [];
    hide Le;
    LeFour(n, width);
    LeFour(m, width - 4);
    assert m / 0x100 == n / 0x100_0000_0000 && m / 0x1_0000 == n / 0x1_0000_0000_0000;
    assert m / 0x100_0000 == n / 0x100_0000_0000_0000;
  }
}
