/**
Cauchy matrices over GF(2^8) are invertible.
*/
module Cauchy {
  import opened Bytes
  import opened Sequences
  import opened Gf256
  import opened Gf256Log
  import opened LinearAlgebra

  ghost predicate Apart(x: byte, ys: Vec) {
    forall j :: 0 <= j < |ys| ==> x != ys[j]
  }

  /** 1/(x + y) */
  ghost function Recip(x: byte, y: byte): (r: byte)
    requires x != y
    ensures r != 0 && Mul(Add(x, y), r) == 1
  {
    AddCancel(x, y);
    Inverse(Add(x, y))
  }

  /** The row 1/(x + y_0), 1/(x + y_1), ... */
  ghost function CauchyRow(x: byte, ys: Vec): (r: Vec)
    requires Apart(x, ys)
    ensures |r| == |ys|
    ensures forall j :: 0 <= j < |ys| ==> r[j] == Recip(x, ys[j])
  {
    seq(|ys|, j requires 0 <= j < |ys| => Recip(x, ys[j]))
  }

  lemma {:induction false} MulSwap(a: byte, b: byte, c: byte)
    ensures Mul(a, Mul(b, c)) == Mul(b, Mul(a, c))
  {
    MulAssociates(a, b, c);
    MulCommutes(a, b);
    MulAssociates(b, a, c);
  }

  lemma {:induction false} MulInverse(a: byte, b: byte, c: byte)
    requires Mul(a, b) == 1
    ensures Mul(a, Mul(b, c)) == c
  {
    MulAssociates(a, b, c);
    MulOne(c);
  }

  /** (p + d) v/p + (q + d) v/q = (p + q) (d v/q)/p */
  lemma {:induction false} Combine(p: byte, q: byte, d: byte, P: byte, Q: byte, v: byte)
    requires Mul(p, P) == 1 && Mul(q, Q) == 1
    ensures Add(Mul(Add(p, d), Mul(P, v)), Mul(Add(q, d), Mul(Q, v)))
         == Mul(Add(p, q), Mul(P, Mul(d, Mul(Q, v))))
  {
    var x, y := Mul(d, Mul(P, v)), Mul(d, Mul(Q, v));
    MulAddLeft(p, d, Mul(P, v));
    MulInverse(p, P, v);
    MulAddLeft(q, d, Mul(Q, v));
    MulInverse(q, Q, v);
    AddSwap(v, x, v, y);
    AddLaws(v, v, 0);
    AddLaws(Add(x, y), 0, 0);
    assert Add(Mul(Add(p, d), Mul(P, v)), Mul(Add(q, d), Mul(Q, v))) == Add(x, y);
    MulAddLeft(p, q, Mul(P, y));
    MulInverse(p, P, y);
    calc {
      Mul(q, Mul(P, y));
      { MulSwap(P, d, Mul(Q, v)); MulSwap(P, Q, v); }
      Mul(q, Mul(d, Mul(Q, Mul(P, v))));
      { MulSwap(q, d, Mul(Q, Mul(P, v))); MulInverse(q, Q, Mul(P, v)); }
      x;
    }
    AddLaws(x, y, 0);
  }

  /** Sums of bytes in which a common summand cancels. */
  lemma {:induction false} AddThrough(a: byte, b: byte, c: byte)
    ensures Add(a, c) == Add(Add(a, b), Add(c, b))
  {
    AddSwap(a, b, c, b);
    AddLaws(b, b, 0);
    AddLaws(Add(a, c), 0, 0);
  }

  // ---- The kernel is trivial -----------------------------------------------------

  ghost predicate Nodes(xs: Vec, ys: Vec) {
    && |xs| == |ys|
    && Distinct(xs) && Distinct(ys)
    && forall i :: 0 <= i < |xs| ==> Apart(xs[i], ys)
  }

  /** v solves the homogeneous Cauchy system. */
  ghost predicate Solves(xs: Vec, ys: Vec, v: Vec) {
    && Nodes(xs, ys)
    && |v| == |ys|
    && forall i :: 0 <= i < |xs| ==> Dot(CauchyRow(xs[i], ys), v) == 0
  }

  /** A Cauchy matrix annihilates only the zero vector. By induction on its size: adding
      multiples of the last row eliminates the last unknown and leaves a smaller Cauchy system. */
  lemma {:induction false} CauchyKernel(xs: Vec, ys: Vec, v: Vec)
    requires Solves(xs, ys, v)
    ensures AllZero(v)
  {
    hide Mul, Add, Dot, CauchyRow, Eliminated, Distinct;
    if xs != [] {
      var l := |xs| - 1;
      SmallerSystem(xs, ys, v);
      CauchyKernel(xs[..l], ys[..l], Eliminated(xs[l], ys, v));
      Unwound(xs[l], ys, v);
    }
  }

  ghost predicate AllZero(v: Vec) {
    forall j :: 0 <= j < |v| ==> v[j] == 0
  }

  lemma {:induction false} Unwound(x: byte, ys: Vec, v: Vec)
    requires Apart(x, ys) && Distinct(ys) && |v| == |ys| > 0
    requires AllZero(Eliminated(x, ys, v)) && Dot(CauchyRow(x, ys), v) == 0
    ensures AllZero(v)
  {
    forall j | 0 <= j < |v| - 1
      ensures v[j] == 0
    {
      EliminatedZero(x, ys, v, j);
    }
    LastUnknown(CauchyRow(x, ys), v);
  }

  lemma {:induction false} SmallerSystem(xs: Vec, ys: Vec, v: Vec)
    requires Solves(xs, ys, v) && xs != []
    ensures Apart(xs[|xs| - 1], ys)
    ensures Solves(xs[..|xs| - 1], ys[..|ys| - 1], Eliminated(xs[|xs| - 1], ys, v))
  {
    var l := |xs| - 1;
    assert Apart(xs[l], ys);
    var xs' := xs[..l];
    forall i | 0 <= i < |xs'|
      ensures Apart(xs'[i], ys[..l])
      ensures Dot(CauchyRow(xs'[i], ys[..l]), Eliminated(xs[l], ys, v)) == 0
    {
      assert Apart(xs[i], ys);
      EliminatedRow(xs[i], xs[l], ys, v);
    }
  }

  /** The unknowns of the smaller system: v_j (y_l + y_j)/(x + y_j). */
  ghost function Eliminated(x: byte, ys: Vec, v: Vec): (w: Vec)
    requires Apart(x, ys) && |v| == |ys| > 0
    ensures |w| == |ys| - 1
    ensures forall j :: 0 <= j < |w| ==> w[j] == Mul(Add(ys[|ys| - 1], ys[j]), Mul(Recip(x, ys[j]), v[j]))
  {
    var l := |ys| - 1;
    seq(l, j requires 0 <= j < l => Mul(Add(ys[l], ys[j]), Mul(Recip(x, ys[j]), v[j])))
  }

  lemma {:induction false} EliminatedTerm(x: byte, z: byte, y: byte, yl: byte, v: byte)
    requires x != y && z != y
    ensures MixedTerm(x, z, y, yl, v)
         == Mul(Add(x, z), Mul(Recip(x, y), Mul(Add(yl, y), Mul(Recip(z, y), v))))
  {
    var p, q, d := Add(x, y), Add(z, y), Add(yl, y);
    AddThrough(x, y, yl);
    AddThrough(z, y, yl);
    AddThrough(x, y, z);
    Combine(p, q, d, Recip(x, y), Recip(z, y), v);
  }

  ghost function MixedTerm(x: byte, z: byte, y: byte, yl: byte, v: byte): byte
    requires x != y && z != y
  {
    Add(Mul(Add(x, yl), Mul(Recip(x, y), v)), Mul(Add(z, yl), Mul(Recip(z, y), v)))
  }

  /** The rows of x and z, scaled to cancel the last unknown and added up. */
  ghost function Mixed(x: byte, z: byte, ys: Vec, v: Vec): (t: Vec)
    requires Apart(x, ys) && Apart(z, ys) && |ys| == |v| > 0
    ensures |t| == |v|
    ensures forall j :: 0 <= j < |v| ==> t[j] == MixedTerm(x, z, ys[j], ys[|ys| - 1], v[j])
  {
    AddV(ScaleV(Add(x, ys[|ys| - 1]), Products(CauchyRow(x, ys), v)),
         ScaleV(Add(z, ys[|ys| - 1]), Products(CauchyRow(z, ys), v)))
  }

  lemma {:induction false} MixedSum(x: byte, z: byte, ys: Vec, v: Vec)
    requires Apart(x, ys) && Apart(z, ys) && |ys| == |v| > 0
    requires Dot(CauchyRow(x, ys), v) == 0 && Dot(CauchyRow(z, ys), v) == 0
    ensures Sum(Mixed(x, z, ys, v)) == 0
  {
    var l := |ys| - 1;
    var a, b := Products(CauchyRow(x, ys), v), Products(CauchyRow(z, ys), v);
    SumAdd(ScaleV(Add(x, ys[l]), a), ScaleV(Add(z, ys[l]), b));
    SumScale(Add(x, ys[l]), a);
    SumScale(Add(z, ys[l]), b);
    MulZero(Add(x, ys[l]));
    MulZero(Add(z, ys[l]));
  }

  lemma {:induction false} MixedLast(x: byte, z: byte, yl: byte, v: byte)
    requires x != yl && z != yl
    ensures MixedTerm(x, z, yl, yl, v) == 0
  {
    MulInverse(Add(x, yl), Recip(x, yl), v);
    MulInverse(Add(z, yl), Recip(z, yl), v);
    AddCancel(v, v);
  }

  lemma {:induction false} EliminatedRow(x: byte, z: byte, ys: Vec, v: Vec)
    requires Apart(x, ys) && Apart(z, ys) && |ys| == |v| > 0 && x != z
    requires Dot(CauchyRow(x, ys), v) == 0 && Dot(CauchyRow(z, ys), v) == 0
    ensures Apart(x, ys[..|ys| - 1])
    ensures Dot(CauchyRow(x, ys[..|ys| - 1]), Eliminated(z, ys, v)) == 0
  {
    var l := |ys| - 1;
    var t := Mixed(x, z, ys, v);
    MixedSum(x, z, ys, v);
    var c := Products(CauchyRow(x, ys[..l]), Eliminated(z, ys, v));
    forall j | 0 <= j < l
      ensures t[j] == ScaleV(Add(x, z), c)[j]
    {
      EliminatedTerm(x, z, ys[j], ys[l], v[j]);
    }
    assert t[..l] == ScaleV(Add(x, z), c);
    MixedLast(x, z, ys[l], v[l]);
    AddLaws(Sum(t[..l]), 0, 0);
    SumScale(Add(x, z), c);
    AddCancel(x, z);
    NoZeroDivisors(Add(x, z), Sum(c));
  }

  lemma {:induction false} EliminatedZero(x: byte, ys: Vec, v: Vec, j: nat)
    requires Apart(x, ys) && Distinct(ys) && |v| == |ys| && j < |ys| - 1
    requires Eliminated(x, ys, v)[j] == 0
    ensures v[j] == 0
  {
    var l := |ys| - 1;
    AddCancel(ys[l], ys[j]);
    NoZeroDivisors(Add(ys[l], ys[j]), Mul(Recip(x, ys[j]), v[j]));
    NoZeroDivisors(Recip(x, ys[j]), v[j]);
  }

  lemma {:induction false} LastUnknown(u: Vec, v: Vec)
    requires |u| == |v| > 0 && u[|u| - 1] != 0 && Dot(u, v) == 0
    requires forall j :: 0 <= j < |v| - 1 ==> v[j] == 0
    ensures v[|v| - 1] == 0
  {
    var l := |u| - 1;
    var p := Products(u, v);
    forall j | 0 <= j < l
      ensures p[..l][j] == 0
    {
      MulZero(u[j]);
    }
    SumOfZeros(p[..l]);
    AddLaws(p[l], 0, 0);
    NoZeroDivisors(u[l], v[l]);
  }
}
