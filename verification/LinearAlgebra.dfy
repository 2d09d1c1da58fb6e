/**
Vectors over GF(2^8): sums, linear combinations of rows, and scalar products.
*/
module LinearAlgebra {
  import opened Bytes
  import opened Sequences
  import opened Gf256

  type Vec = seq<byte>

  // ---- Scalars -------------------------------------------------------------

  /** The sum of a list of field elements. */
  function Sum(s: Vec): byte {
    if s == [] then 0 else Add(Sum(s[..|s| - 1]), s[|s| - 1])
  }

  lemma {:induction false} SumPrefix(s: Vec, i: nat)
    requires i < |s|
    ensures Sum(s[..i + 1]) == Add(Sum(s[..i]), s[i])
  {
    hide Add;
    assert s[..i + 1][..i] == s[..i];
  }

  lemma {:induction false} SumOfZeros(s: Vec)
    requires forall i :: 0 <= i < |s| ==> s[i] == 0
    ensures Sum(s) == 0
  {
    if s != [] {
      SumOfZeros(s[..|s| - 1]);
    }
  }

  lemma {:induction false} SumAdd(s: Vec, t: Vec)
    requires |s| == |t|
    ensures Sum(AddV(s, t)) == Add(Sum(s), Sum(t))
  {
    if s != [] {
      var n := |s| - 1;
      assert AddV(s, t)[..n] == AddV(s[..n], t[..n]);
      SumAdd(s[..n], t[..n]);
      AddSwap(Sum(s[..n]), Sum(t[..n]), s[n], t[n]);
    }
  }

  lemma {:induction false} SumScale(c: byte, s: Vec)
    ensures Sum(ScaleV(c, s)) == Mul(c, Sum(s))
  {
    if s != [] {
      var n := |s| - 1;
      assert ScaleV(c, s)[..n] == ScaleV(c, s[..n]);
      SumScale(c, s[..n]);
      MulAddRight(c, Sum(s[..n]), s[n]);
    }
  }

  /** One summand can be taken out of a sum. */
  lemma {:induction false} SumRemove(s: Vec, r: nat)
    requires r < |s|
    ensures Sum(s) == Add(s[r], Sum(Remove(s, r)))
  {
    var n := |s| - 1;
    if r == n {
      assert Remove(s, r) == s[..n];
      AddLaws(s[r], Sum(s[..n]), 0);
    } else {
      SumRemove(s[..n], r);
      var t := Remove(s, r);
      assert t[..|t| - 1] == Remove(s[..n], r);
      assert t[|t| - 1] == s[n];
      AddLaws(s[r], Sum(Remove(s[..n], r)), s[n]);
    }
  }

  // ---- Vectors ---------------------------------------------------------------

  function Zeros(n: nat): (v: Vec)
    ensures |v| == n && forall i :: 0 <= i < n ==> v[i] == 0
  {
    seq(n, _ => 0)
  }

  function Unit(n: nat, k: nat): (v: Vec)
    ensures |v| == n && forall i :: 0 <= i < n ==> v[i] == if i == k then 1 else 0
  {
    seq(n, i => if i == k then 1 else 0)
  }

  function AddV(u: Vec, v: Vec): (w: Vec)
    requires |u| == |v|
    ensures |w| == |u| && forall i :: 0 <= i < |u| ==> w[i] == Add(u[i], v[i])
  {
    seq(|u|, i requires 0 <= i < |u| => Add(u[i], v[i]))
  }

  function ScaleV(c: byte, v: Vec): (w: Vec)
    ensures |w| == |v| && forall i :: 0 <= i < |v| ==> w[i] == Mul(c, v[i])
  {
    seq(|v|, i requires 0 <= i < |v| => Mul(c, v[i]))
  }

  lemma {:induction false} AddVLaws(u: Vec, v: Vec, w: Vec)
    requires |u| == |v| == |w|
    ensures AddV(u, v) == AddV(v, u)
    ensures AddV(AddV(u, v), w) == AddV(u, AddV(v, w))
    ensures AddV(u, Zeros(|u|)) == u == AddV(Zeros(|u|), u)
  {
    forall i | 0 <= i < |u|
      ensures Add(u[i], v[i]) == Add(v[i], u[i])
      ensures Add(Add(u[i], v[i]), w[i]) == Add(u[i], Add(v[i], w[i]))
    {
      AddLaws(u[i], v[i], w[i]);
    }
  }

  lemma {:induction false} AddVSwap(a: Vec, b: Vec, c: Vec, d: Vec)
    requires |a| == |b| == |c| == |d|
    ensures AddV(AddV(a, b), AddV(c, d)) == AddV(AddV(a, c), AddV(b, d))
  {
    forall i | 0 <= i < |a|
      ensures AddV(AddV(a, b), AddV(c, d))[i] == AddV(AddV(a, c), AddV(b, d))[i]
    {
      AddSwap(a[i], b[i], c[i], d[i]);
    }
  }

  lemma {:induction false} ScaleVLaws(c: byte, d: byte, u: Vec, v: Vec)
    requires |u| == |v|
    ensures ScaleV(c, AddV(u, v)) == AddV(ScaleV(c, u), ScaleV(c, v))
    ensures ScaleV(Add(c, d), u) == AddV(ScaleV(c, u), ScaleV(d, u))
    ensures ScaleV(Mul(c, d), u) == ScaleV(c, ScaleV(d, u))
    ensures ScaleV(0, u) == Zeros(|u|) && ScaleV(1, u) == u
  {
    forall i | 0 <= i < |u|
      ensures Mul(c, Add(u[i], v[i])) == Add(Mul(c, u[i]), Mul(c, v[i]))
      ensures Mul(Add(c, d), u[i]) == Add(Mul(c, u[i]), Mul(d, u[i]))
      ensures Mul(Mul(c, d), u[i]) == Mul(c, Mul(d, u[i]))
      ensures Mul(0, u[i]) == 0 && Mul(1, u[i]) == u[i]
    {
      MulAddRight(c, u[i], v[i]);
      MulAddLeft(c, d, u[i]);
      MulAssociates(c, d, u[i]);
      MulZero(u[i]);
      MulOne(u[i]);
    }
  }

  lemma {:induction false} ScaleVZeros(c: byte, n: nat)
    ensures ScaleV(c, Zeros(n)) == Zeros(n)
  {
    MulZero(c);
  }

  // ---- Linear combinations of rows ---------------------------------------------

  predicate IsMatrix(rows: seq<Vec>, n: nat) {
    forall i :: 0 <= i < |rows| ==> |rows[i]| == n
  }

  /** The rows, weighted by u, added up. */
  function Comb(u: Vec, rows: seq<Vec>, n: nat): (v: Vec)
    requires |u| == |rows| && IsMatrix(rows, n)
    ensures |v| == n
  {
    if u == [] then Zeros(n)
    else
      var l := |u| - 1;
      AddV(Comb(u[..l], rows[..l], n), ScaleV(u[l], rows[l]))
  }

  lemma {:induction false} CombAdd(u: Vec, v: Vec, rows: seq<Vec>, n: nat)
    requires |u| == |v| == |rows| && IsMatrix(rows, n)
    ensures Comb(AddV(u, v), rows, n) == AddV(Comb(u, rows, n), Comb(v, rows, n))
  {
    if u == [] {
      AddVLaws(Zeros(n), Zeros(n), Zeros(n));
    } else {
      var l := |u| - 1;
      assert AddV(u, v)[..l] == AddV(u[..l], v[..l]);
      CombAdd(u[..l], v[..l], rows[..l], n);
      ScaleVLaws(u[l], v[l], rows[l], rows[l]);
      AddVSwap(Comb(u[..l], rows[..l], n), Comb(v[..l], rows[..l], n), ScaleV(u[l], rows[l]), ScaleV(v[l], rows[l]));
    }
  }

  lemma {:induction false} CombScale(c: byte, u: Vec, rows: seq<Vec>, n: nat)
    requires |u| == |rows| && IsMatrix(rows, n)
    ensures Comb(ScaleV(c, u), rows, n) == ScaleV(c, Comb(u, rows, n))
  {
    if u == [] {
      ScaleVZeros(c, n);
    } else {
      var l := |u| - 1;
      assert ScaleV(c, u)[..l] == ScaleV(c, u[..l]);
      CombScale(c, u[..l], rows[..l], n);
      ScaleVLaws(c, u[l], rows[l], rows[l]);
      ScaleVLaws(c, 0, Comb(u[..l], rows[..l], n), ScaleV(u[l], rows[l]));
    }
  }

  lemma {:induction false} CombZeros(rows: seq<Vec>, n: nat)
    requires IsMatrix(rows, n)
    ensures Comb(Zeros(|rows|), rows, n) == Zeros(n)
  {
    if rows != [] {
      var l := |rows| - 1;
      assert Zeros(|rows|)[..l] == Zeros(l);
      CombZeros(rows[..l], n);
      ScaleVLaws(0, 0, rows[l], rows[l]);
      AddVLaws(Zeros(n), Zeros(n), Zeros(n));
    }
  }

  lemma {:induction false} CombUnit(k: nat, rows: seq<Vec>, n: nat)
    requires k < |rows| && IsMatrix(rows, n)
    ensures Comb(Unit(|rows|, k), rows, n) == rows[k]
  {
    var l := |rows| - 1;
    if k == l {
      assert Unit(|rows|, k)[..l] == Zeros(l);
      CombZeros(rows[..l], n);
      ScaleVLaws(1, 0, rows[l], rows[l]);
      AddVLaws(rows[l], rows[l], rows[l]);
    } else {
      assert Unit(|rows|, k)[..l] == Unit(l, k);
      CombUnit(k, rows[..l], n);
      ScaleVLaws(0, 0, rows[l], rows[l]);
      AddVLaws(rows[k], rows[k], rows[k]);
    }
  }

  /** Combining combinations: u (A rows) is (u A) rows. */
  lemma {:induction false} CombComb(u: Vec, a: seq<Vec>, rows: seq<Vec>, n: nat, b: seq<Vec>)
    requires |u| == |a| == |b|
    requires IsMatrix(a, |rows|) && IsMatrix(rows, n) && IsMatrix(b, n)
    requires forall i :: 0 <= i < |a| ==> b[i] == Comb(a[i], rows, n)
    ensures Comb(u, b, n) == Comb(Comb(u, a, |rows|), rows, n)
  {
    if u == [] {
      CombZeros(rows, n);
    } else {
      var l := |u| - 1;
      CombComb(u[..l], a[..l], rows, n, b[..l]);
      CombScale(u[l], a[l], rows, n);
      CombAdd(Comb(u[..l], a[..l], |rows|), ScaleV(u[l], a[l]), rows, n);
    }
  }

  // ---- Scalar products -----------------------------------------------------------

  function Products(u: Vec, v: Vec): (p: Vec)
    requires |u| == |v|
    ensures |p| == |u| && forall i :: 0 <= i < |u| ==> p[i] == Mul(u[i], v[i])
  {
    seq(|u|, i requires 0 <= i < |u| => Mul(u[i], v[i]))
  }

  function Dot(u: Vec, v: Vec): byte
    requires |u| == |v|
  {
    Sum(Products(u, v))
  }

  lemma {:induction false} DotAdd(u: Vec, v: Vec, w: Vec)
    requires |u| == |v| == |w|
    ensures Dot(AddV(u, v), w) == Add(Dot(u, w), Dot(v, w))
  {
    forall i | 0 <= i < |u|
      ensures Products(AddV(u, v), w)[i] == AddV(Products(u, w), Products(v, w))[i]
    {
      MulAddLeft(u[i], v[i], w[i]);
    }
    assert Products(AddV(u, v), w) == AddV(Products(u, w), Products(v, w));
    SumAdd(Products(u, w), Products(v, w));
  }

  lemma {:induction false} DotScale(c: byte, u: Vec, w: Vec)
    requires |u| == |w|
    ensures Dot(ScaleV(c, u), w) == Mul(c, Dot(u, w))
  {
    forall i | 0 <= i < |u|
      ensures Products(ScaleV(c, u), w)[i] == ScaleV(c, Products(u, w))[i]
    {
      MulAssociates(c, u[i], w[i]);
    }
    assert Products(ScaleV(c, u), w) == ScaleV(c, Products(u, w));
    SumScale(c, Products(u, w));
  }

  /** v is orthogonal to every row. */
  ghost predicate InKernel(rows: seq<Vec>, v: Vec) {
    forall i :: 0 <= i < |rows| ==> |rows[i]| == |v| && Dot(rows[i], v) == 0
  }
}
