/**
`ShamirShare`: a 32-byte secret is split into n shares of which any k restore it.
*/
module Shamir {
  import opened Bytes
  import opened Sequences
  import opened Wrappers
  import opened PowersOfTwo
  import opened Gf256
  import opened Gf8Tables
  import opened LinearAlgebra
  import opened Cauchy
  import opened Lagrange

  const MAX_SHARES := 255
  const SECRET_BYTES := 32
  /** Slots of the fixed coefficient array. */
  const SLOTS := 32

  /** A share: its point and its 32 values. */
  type Share = (byte, Vec)

  datatype SplitResult =
    | Shares(shares: seq<Share>)
    | Rejected
    | IndexOutOfBounds // the program panics

  // ---- The polynomials ---------------------------------------------------------------

  /** Xorshift on a 64-bit word. */
  function NextState(x: nat): nat {
    var a := Xor(x, x * 0x2000 % TWO_64);
    var b := Xor(a, a / 0x80);
    Xor(b, b * 0x20000 % TWO_64)
  }

  function State(b: nat, c: nat): nat {
    if c == 0 then (0x5A17 * (b + 1) + 0xB0D) % TWO_64 else NextState(State(b, c - 1))
  }

  /** The coefficients above the constant term for byte b of the secret. */
  function Coefficients(b: nat, count: nat): (c: Vec)
    ensures |c| == count
  {
    if count == 0 then [] else Coefficients(b, count - 1) + [State(b, count) % 256]
  }

  /** The polynomial that hides byte b of the secret. */
  function Curve(secret: Vec, b: nat, k: nat): (c: Vec)
    requires b < |secret| && k > 0
    ensures |c| == k && c[0] == secret[b]
  {
    [secret[b]] + Coefficients(b, k - 1)
  }

  function Pow(x: byte, n: nat): byte {
    if n == 0 then 1 else Mul(Pow(x, n - 1), x)
  }

  lemma {:induction false} EvalAppend(c: Vec, d: byte, x: byte)
    ensures Eval(c + [d], x) == Add(Eval(c, x), Mul(d, Pow(x, |c|)))
  {
    hide Mul, Add;
    if c == [] {
      assert [d][1..] == [];
      MulZero(x);
      AddLaws(d, 0, 0);
      MulCommutes(d, 1);
      MulOne(d);
    } else {
      var e := c[1..];
      assert (c + [d])[1..] == e + [d];
      EvalAppend(e, d, x);
      MulAddRight(x, Eval(e, x), Mul(d, Pow(x, |e|)));
      MulSwap(x, d, Pow(x, |e|));
      MulCommutes(x, Pow(x, |e|));
      AddLaws(c[0], Mul(x, Eval(e, x)), Mul(d, Pow(x, |c|)));
    }
  }

  // ---- Splitting -----------------------------------------------------------------------

  /** The fixed array of coefficients, filled from the front. */
  method FillCoefficients(b: nat, k: nat) returns (coeffs: Vec)
    requires 0 < k <= SLOTS + 1
    ensures |coeffs| == SLOTS && coeffs[..k - 1] == Coefficients(b, k - 1)
  {
    coeffs := Zeros(SLOTS);
    var x := State(b, 0);
    for c := 0 to k - 1
      invariant |coeffs| == SLOTS && x == State(b, c)
      invariant coeffs[..c] == Coefficients(b, c)
    {
      x := NextState(x);
      coeffs := coeffs[c := x % 256];
      assert coeffs[..c + 1] == coeffs[..c] + [x % 256];
    }
  }

  /** The polynomial with constant term s at one point, by rising powers. */
  method ValueAt(gf: Gf8, s: byte, coeffs: Vec, x: byte) returns (val: byte)
    requires gf.Valid()
    ensures val == Eval([s] + coeffs, x)
  {
    hide Mul, Add;
    val := s;
    var xpow := x;
    MulZero(x);
    AddLaws(s, 0, 0);
    MulOne(x);
    assert ([s] + coeffs)[..1] == [s] && [s][1..] == [];
    for c := 0 to |coeffs|
      invariant xpow == Pow(x, c + 1)
      invariant val == Eval(([s] + coeffs)[..c + 1], x)
    {
      EvalAppend(([s] + coeffs)[..c + 1], coeffs[c], x);
      assert ([s] + coeffs)[..c + 2] == ([s] + coeffs)[..c + 1] + [coeffs[c]];
      val := Add(val, gf.Mul(coeffs[c], xpow));
      xpow := gf.Mul(xpow, x);
    }
    assert ([s] + coeffs)[..|coeffs| + 1] == [s] + coeffs;
  }

  /** The shares carry the points 1, 2, ..., and their first `bytes` values lie on the curves. */
  ghost predicate OnCurves(shares: seq<Share>, secret: Vec, k: nat, bytes: nat)
    requires k > 0
  {
    && bytes <= |secret| == SECRET_BYTES
    && forall i :: 0 <= i < |shares| ==> OnCurve(shares[i], i + 1, secret, k, bytes)
  }

  ghost predicate OnCurve(share: Share, x: nat, secret: Vec, k: nat, bytes: nat)
    requires k > 0 && bytes <= |secret|
  {
    && |share.1| == SECRET_BYTES
    && (bytes > 0 ==> share.0 == x)
    && forall b :: 0 <= b < bytes && b < SECRET_BYTES ==> x < 256 && share.1[b] == Eval(Curve(secret, b, k), x)
  }

  /** One byte of the secret, for all shares. */
  method SplitByte(gf: Gf8, shares: seq<Share>, secret: Vec, b: nat, k: nat) returns (r: seq<Share>)
    requires gf.Valid() && |secret| == SECRET_BYTES && b < SECRET_BYTES
    requires 0 < k <= SLOTS + 1 && |shares| <= MAX_SHARES && OnCurves(shares, secret, k, b)
    ensures |r| == |shares| && OnCurves(r, secret, k, b + 1)
  {
    var coeffs := FillCoefficients(b, k);
    r := shares;
    for i := 0 to |shares|
      invariant |r| == |shares|
      invariant forall j :: 0 <= j < i ==> OnCurve(r[j], j + 1, secret, k, b + 1)
      invariant forall j :: i <= j < |r| ==> r[j] == shares[j]
    {
      var x: byte := i + 1;
      var val := ValueAt(gf, secret[b], coeffs[..k - 1], x);
      assert OnCurve(r[i], i + 1, secret, k, b);
      assert val == Eval(Curve(secret, b, k), x);
      r := r[i := (x, r[i].1[b := val])];
      assert OnCurve(r[i], i + 1, secret, k, b + 1);
    }
  }

  /** Splitting is refused for impossible thresholds, panics for k above 33, and otherwise
      puts share i at point i + 1 of a polynomial of k coefficients per byte. */
  method Split(secret: Vec, k: nat, n: nat) returns (r: SplitResult)
    requires |secret| == SECRET_BYTES
    ensures r.Rejected? <==> k == 0 || n == 0 || k > n || n > 255
    ensures r.IndexOutOfBounds? <==> !r.Rejected? && k > 33
    ensures r.Shares? ==> |r.shares| == n && k > 0 && OnCurves(r.shares, secret, k, SECRET_BYTES)
  {
    if k == 0 || n == 0 || k > n || n > MAX_SHARES {
      return Rejected;
    }
    var gf := new Gf8();
    var shares: seq<Share> := seq(n, _ => (0, Zeros(SECRET_BYTES)));
    for b := 0 to SECRET_BYTES
      invariant gf.Valid() && |shares| == n && (b > 0 ==> k <= SLOTS + 1)
      invariant OnCurves(shares, secret, k, b)
    {
      if k - 1 > SLOTS {
        return IndexOutOfBounds;
      }
      shares := SplitByte(gf, shares, secret, b, k);
    }
    return Shares(shares);
  }

  // ---- Combining -------------------------------------------------------------------------

  /** Numerator and denominator of the i-th weight, skipping the i-th point. */
  method NumDen(gf: Gf8, xs: Vec, i: nat) returns (num: byte, den: byte)
    requires gf.Valid() && i < |xs|
    ensures num == Num(xs, i) && den == Den(xs, i)
  {
    hide Mul, Add, Diffs;
    ghost var others := Remove(xs, i);
    ghost var diffs := Diffs(others, xs[i]);
    num, den := 1, 1;
    for j := 0 to |xs|
      invariant num == Prod(others[..if j <= i then j else j - 1])
      invariant den == Prod(diffs[..if j <= i then j else j - 1])
    {
      if i != j {
        ghost var l := if j < i then j else j - 1;
        assert others[l] == xs[j];
        assert others[..l + 1][..l] == others[..l] && diffs[..l + 1][..l] == diffs[..l];
        num := gf.Mul(num, xs[j]);
        den := gf.Mul(den, Add(xs[j], xs[i]));
      }
    }
    assert others[..|others|] == others && diffs[..|diffs|] == diffs;
  }

  /** The weight of the i-th point, unless the point occurs twice. */
  method WeightOf(gf: Gf8, xs: Vec, i: nat) returns (r: Option<byte>)
    requires gf.Valid() && i < |xs|
    ensures r.Some? <==> forall j :: 0 <= j < |xs| && j != i ==> xs[j] != xs[i]
    ensures r.Some? && Distinct(xs) ==> r.value == Weight(xs, i)
  {
    var num, den := NumDen(gf, xs, i);
    DenIff(xs, i);
    var d := gf.Inv(den);
    if d.None? {
      return None;
    }
    return Some(gf.Mul(num, d.value));
  }

  lemma {:induction false} DenIff(xs: Vec, i: nat)
    requires i < |xs|
    ensures Den(xs, i) != 0 <==> forall j :: 0 <= j < |xs| && j != i ==> xs[j] != xs[i]
  {
    hide Mul, Add, Prod;
    if j :| 0 <= j < |xs| && j != i && xs[j] == xs[i] {
      DenZero(xs, i, j);
    } else {
      var d := Diffs(Remove(xs, i), xs[i]);
      forall l | 0 <= l < |d|
        ensures d[l] != 0
      {
        AddCancel(xs[if l < i then l else l + 1], xs[i]);
      }
      ProdNonzero(d);
    }
  }

  lemma {:induction false} EmptySum(ys: Vec, xs: Vec)
    requires |xs| == |ys|
    ensures Distinct(xs) ==> Sum(Products(ys, Weights(xs))[..0]) == 0
  {
  }

  /** The weighted sum of the values for one byte, or nothing when a point is repeated. */
  method CombineByte(gf: Gf8, xs: Vec, ys: Vec) returns (r: Option<byte>)
    requires gf.Valid() && |xs| == |ys|
    ensures r.Some? <==> Distinct(xs)
    ensures r.Some? ==> r.value == Dot(ys, Weights(xs))
  {
    hide Mul, Add, Sum, Weight, Weights, Products;
    var acc: byte := 0;
    EmptySum(ys, xs);
    for i := 0 to |xs|
      invariant forall a, j :: 0 <= a < i && 0 <= j < |xs| && j != a ==> xs[j] != xs[a]
      invariant Distinct(xs) ==> acc == Sum(Products(ys, Weights(xs))[..i])
    {
      var li := WeightOf(gf, xs, i);
      if li.None? {
        return None;
      }
      if Distinct(xs) {
        SumPrefix(Products(ys, Weights(xs)), i);
      }
      acc := Add(acc, gf.Mul(ys[i], li.value));
    }
    ghost var p := Products(ys, Weights(xs));
    assert p[..|xs|] == p;
    return Some(acc);
  }

  ghost predicate WellFormed(shares: seq<Share>, k: nat) {
    && 0 < k <= |shares|
    && forall i :: 0 <= i < k ==> |shares[i].1| == SECRET_BYTES
  }

  ghost function Points(shares: seq<Share>, k: nat): (xs: Vec)
    requires k <= |shares|
    ensures |xs| == k && forall i :: 0 <= i < k ==> xs[i] == shares[i].0
  {
    seq(k, i requires 0 <= i < k => shares[i].0)
  }

  /** The first k shares lie, for every byte b, on a polynomial polys[b] of at most k coefficients. */
  ghost predicate Consistent(shares: seq<Share>, k: nat, polys: seq<Vec>) {
    && WellFormed(shares, k)
    && |polys| == SECRET_BYTES
    && (forall b :: 0 <= b < SECRET_BYTES ==> 0 < |polys[b]| <= k)
    && forall b, i :: 0 <= b < SECRET_BYTES && 0 <= i < k ==> shares[i].1[b] == Eval(polys[b], shares[i].0)
  }

  /** All bytes, from well-formed shares. */
  method CombineBytes(gf: Gf8, shares: seq<Share>, k: nat) returns (r: Option<Vec>)
    requires gf.Valid() && WellFormed(shares, k)
    ensures r.Some? <==> Distinct(Points(shares, k))
    ensures r.Some? ==> |r.value| == SECRET_BYTES
    ensures r.Some? ==> forall b :: 0 <= b < SECRET_BYTES ==>
      r.value[b] == Dot(Column(shares, k, b), Weights(Points(shares, k)))
  {
    hide Dot, Weight, Weights;
    var xs: Vec := seq(k, i requires 0 <= i < k => shares[i].0);
    assert xs == Points(shares, k);
    var secret: Vec := [];
    for b := 0 to SECRET_BYTES
      invariant |secret| == b && (b > 0 ==> Distinct(xs))
      invariant forall c :: 0 <= c < b ==> secret[c] == Dot(Column(shares, k, c), Weights(xs))
    {
      var ys: Vec := seq(k, i requires 0 <= i < k => shares[i].1[b]);
      assert ys == Column(shares, k, b);
      var acc := CombineByte(gf, xs, ys);
      if acc.None? {
        return None;
      }
      secret := secret + [acc.value];
    }
    return Some(secret);
  }

  /** Combining succeeds exactly for k well-formed shares with distinct points, and returns
      the constant terms of whatever polynomials the shares lie on. */
  method Combine(shares: seq<Share>, k: nat) returns (r: Option<Vec>)
    ensures r.Some? <==> WellFormed(shares, k) && Distinct(Points(shares, k))
    ensures r.Some? ==> |r.value| == SECRET_BYTES
    ensures r.Some? ==> forall polys, b :: Consistent(shares, k, polys) && 0 <= b < SECRET_BYTES ==>
      r.value[b] == polys[b][0]
  {
    if |shares| < k || k == 0 {
      return None;
    }
    if exists i :: 0 <= i < k && |shares[i].1| != SECRET_BYTES {
      return None;
    }
    var gf := new Gf8();
    r := CombineBytes(gf, shares, k);
    if r.Some? {
      forall polys, b | Consistent(shares, k, polys) && 0 <= b < SECRET_BYTES
        ensures r.value[b] == polys[b][0]
      {
        ConstantTerm(shares, k, polys, b);
      }
    }
  }

  ghost function Column(shares: seq<Share>, k: nat, b: nat): (ys: Vec)
    requires WellFormed(shares, k) && b < SECRET_BYTES
    ensures |ys| == k && forall i :: 0 <= i < k ==> ys[i] == shares[i].1[b]
  {
    seq(k, i requires 0 <= i < k => shares[i].1[b])
  }

  lemma {:induction false} ConstantTerm(shares: seq<Share>, k: nat, polys: seq<Vec>, b: nat)
    requires Consistent(shares, k, polys) && b < SECRET_BYTES && Distinct(Points(shares, k))
    ensures Dot(Column(shares, k, b), Weights(Points(shares, k))) == polys[b][0]
  {
    hide Mul, Add, Dot;
    var xs := Points(shares, k);
    InterpolationAtZero(polys[b], xs);
    assert Column(shares, k, b) == Values(polys[b], xs);
    MulZero(Eval(polys[b][1..], 0));
    AddLaws(polys[b][0], 0, 0);
  }

  /** Shares made by `Split` are consistent, whichever k of them come first: so `Combine`
      returns the secret. */
  lemma {:induction false} SharesOfSplitAreConsistent(shares: seq<Share>, secret: Vec, k: nat, picked: seq<nat>, got: seq<Share>)
    requires 0 < k && OnCurves(shares, secret, k, SECRET_BYTES) && |shares| <= MAX_SHARES
    requires |picked| == |got| >= k && Distinct(picked[..k])
    requires forall i :: 0 <= i < |got| ==> picked[i] < |shares| && got[i] == shares[picked[i]]
    ensures WellFormed(got, k) && Distinct(Points(got, k))
    ensures Consistent(got, k, seq(SECRET_BYTES, b requires 0 <= b < SECRET_BYTES => Curve(secret, b, k)))
  {
    hide Curve, Eval;
    forall i | 0 <= i < |got|
      ensures |got[i].1| == SECRET_BYTES && got[i].0 == picked[i] + 1
      ensures forall b :: 0 <= b < SECRET_BYTES ==> got[i].1[b] == Eval(Curve(secret, b, k), got[i].0)
    {
      assert OnCurve(shares[picked[i]], picked[i] + 1, secret, k, SECRET_BYTES);
    }
    forall i, j | 0 <= i < j < k
      ensures got[i].0 != got[j].0
    {
      assert picked[..k][i] != picked[..k][j];
    }
  }

  /** Any k different shares of a split restore the secret; a share handed in twice does not. */
  method SplitThenCombine(secret: Vec, k: nat, n: nat, picked: seq<nat>) returns (r: Option<Vec>)
    requires |secret| == SECRET_BYTES && 0 < k <= 33 && k <= n <= 255
    requires |picked| >= k && forall i :: 0 <= i < |picked| ==> picked[i] < n
    ensures r == if Distinct(picked[..k]) then Some(secret) else None
  {
    hide Curve, Eval, OnCurve;
    var split := Split(secret, k, n);
    var shares := split.shares;
    var got: seq<Share> := seq(|picked|, i requires 0 <= i < |picked| => shares[picked[i]]);
    r := Combine(got, k);
    if Distinct(picked[..k]) {
      SharesOfSplitAreConsistent(shares, secret, k, picked, got);
      var curves := seq(SECRET_BYTES, b requires 0 <= b < SECRET_BYTES => Curve(secret, b, k));
      assert r.value == secret by {
        forall b | 0 <= b < SECRET_BYTES
          ensures r.value[b] == secret[b]
        {
          assert curves[b][0] == secret[b];
        }
      }
    } else {
      var i, j :| 0 <= i < j < k && picked[..k][i] == picked[..k][j];
      assert Points(got, k)[i] == Points(got, k)[j];
    }
  }

  // ---- One share ---------------------------------------------------------------------------

  lemma {:induction false} ConstantApart(s: byte, c: Vec, x: byte)
    ensures Eval([s] + c, x) == Add(s, Eval([0] + c, x))
  {
    hide Mul, Add, Eval;
    EvalStep(s, c, x);
    EvalStep(0, c, x);
    AddLaws(Mul(x, Eval(c, x)), 0, 0);
  }

  lemma {:induction false} EvalStep(s: byte, c: Vec, x: byte)
    ensures Eval([s] + c, x) == Add(s, Mul(x, Eval(c, x)))
  {
    hide Mul, Add;
    assert ([s] + c)[1..] == c;
  }

  /** The other coefficients do not depend on the secret, so each share determines the secret. */
  lemma {:induction false} OneShareDetermines(share: Share, x: nat, secret: Vec, k: nat, b: nat)
    requires k > 0 && |secret| == SECRET_BYTES && b < SECRET_BYTES && OnCurve(share, x, secret, k, SECRET_BYTES)
    ensures secret[b] == Add(share.1[b], Eval([0] + Coefficients(b, k - 1), share.0))
  {
    hide Add, Eval, Coefficients;
    var e := Eval([0] + Coefficients(b, k - 1), share.0);
    ConstantApart(secret[b], Coefficients(b, k - 1), share.0);
    AddLaws(secret[b], e, e);
    AddLaws(e, 0, 0);
  }

  /** Splits of different secrets have no share in common. */
  lemma {:induction false} NoShareInCommon(share: Share, x: nat, y: nat, secret: Vec, other: Vec, k: nat)
    requires k > 0 && |secret| == |other| == SECRET_BYTES
    requires OnCurve(share, x, secret, k, SECRET_BYTES) && OnCurve(share, y, other, k, SECRET_BYTES)
    ensures secret == other
  {
    hide OnCurve, Eval, Add;
    forall b | 0 <= b < SECRET_BYTES
      ensures secret[b] == other[b]
    {
      OneShareDetermines(share, x, secret, k, b);
      OneShareDetermines(share, y, other, k, b);
    }
  }
}
