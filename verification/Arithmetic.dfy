/** Division by a variable. */
module Arithmetic {

  lemma {:induction false} QuotientIs(a: nat, d: nat, q: nat, r: nat)
    requires d > 0 && a == d * q + r && r < d
    ensures a / d == q && a % d == r
  {
    var x := a / d - q;
    assert a == d * (a / d) + a % d;
    assert d * x == r - a % d;
    AtLeastOnce(d, x);
  }

  lemma {:induction false} AtLeastOnce(d: int, x: int)
    requires d > 0
    ensures x >= 1 ==> d * x >= d
    ensures x <= -1 ==> d * x <= -d
  {
    if x >= 1 {
      assert d * (x - 1) >= 0;
    } else if x <= -1 {
      assert d * (-x - 1) >= 0;
    }
  }

  lemma {:induction false} SubtractMod(n: nat, c: nat)
    requires 0 < c <= n
    ensures n % c == (n - c) % c
  {
    var q, r := n / c, n % c;
    assert n == c * q + r;
    assert q >= 1;
    assert c * (q - 1) == c * q - c;
    QuotientIs(n - c, c, q - 1, r);
  }

  lemma {:induction false} OneMore(k: nat, c: nat)
    ensures (k + 1) * c == k * c + c
  {
  }
}
