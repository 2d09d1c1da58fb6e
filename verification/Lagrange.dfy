/**
Interpolation at zero over GF(2^8): the Lagrange weights of distinct points recover the
constant term of any polynomial with no more coefficients than there are points.
*/
module Lagrange {
  import opened Bytes
  import opened Sequences
  import opened Gf256
  import opened Gf256Log
  import opened LinearAlgebra
  import opened Cauchy

  // ---- Polynomials ---------------------------------------------------------------

  /** c[0] + c[1] x + c[2] x^2 + ... */
  function Eval(c: Vec, x: byte): byte {
    if c == [] then 0 else Add(c[0], Mul(x, Eval(c[1..], x)))
  }

  /** The quotient of c by (x + a). */
  function Quotient(c: Vec, a: byte): (q: Vec)
    ensures |q| == if c == [] then 0 else |c| - 1
  {
    if |c| <= 1 then [] else [Eval(c[1..], a)] + Quotient(c[1..], a)
  }

  lemma {:induction false} Division(c: Vec, a: byte, x: byte)
    ensures Eval(c, x) == Add(Eval(c, a), Mul(Add(x, a), Eval(Quotient(c, a), x)))
  {
    hide Mul, Add;
    if |c| <= 1 {
      MulZero(Add(x, a));
      AddLaws(Eval(c, a), 0, 0);
      if |c| == 1 {
        MulZero(x);
        MulZero(a);
      }
    } else {
      var d, q := c[1..], Quotient(c[1..], a);
      var e, f := Eval(d, a), Eval(q, x);
      var s := Add(x, a);
      Division(d, a, x);
      assert Quotient(c, a)[1..] == q;
      calc {
        Eval(c, x);
        Add(c[0], Mul(x, Add(e, Mul(s, f))));
        { MulAddRight(x, e, Mul(s, f)); MulSwap(x, s, f); }
        Add(c[0], Add(Mul(x, e), Mul(s, Mul(x, f))));
        { AddThrough(x, a, 0); AddLaws(x, a, 0); AddLaws(s, a, 0); AddLaws(a, 0, 0); MulAddLeft(s, a, e);
          AddLaws(Mul(s, e), Mul(a, e), 0); }
        Add(c[0], Add(Add(Mul(a, e), Mul(s, e)), Mul(s, Mul(x, f))));
        { AddLaws(Mul(a, e), Mul(s, e), Mul(s, Mul(x, f))); MulAddRight(s, e, Mul(x, f)); }
        Add(c[0], Add(Mul(a, e), Mul(s, Add(e, Mul(x, f)))));
        { AddLaws(c[0], Mul(a, e), Mul(s, Add(e, Mul(x, f)))); }
        Add(Add(c[0], Mul(a, e)), Mul(s, Add(e, Mul(x, f))));
        Add(Eval(c, a), Mul(s, Eval(Quotient(c, a), x)));
      }
    }
  }

  // ---- Products --------------------------------------------------------------------

  function Prod(s: Vec): byte {
    if s == [] then 1 else Mul(Prod(s[..|s| - 1]), s[|s| - 1])
  }

  lemma {:induction false} ProdRemove(s: Vec, r: nat)
    requires r < |s|
    ensures Prod(s) == Mul(s[r], Prod(Remove(s, r)))
  {
    hide Mul;
    var n := |s| - 1;
    if r == n {
      assert Remove(s, r) == s[..n];
      MulCommutes(s[r], Prod(s[..n]));
    } else {
      ProdRemove(s[..n], r);
      var t := Remove(s, r);
      assert t[..|t| - 1] == Remove(s[..n], r);
      assert t[|t| - 1] == s[n];
      MulAssociates(s[r], Prod(Remove(s[..n], r)), s[n]);
    }
  }

  lemma {:induction false} ProdNonzero(s: Vec)
    requires forall i :: 0 <= i < |s| ==> s[i] != 0
    ensures Prod(s) != 0
  {
    hide Mul;
    if s != [] {
      var n := |s| - 1;
      ProdNonzero(s[..n]);
      if Prod(s) == 0 {
        NoZeroDivisors(Prod(s[..n]), s[n]);
      }
    }
  }

  // ---- Lagrange weights at zero --------------------------------------------------------

  function Diffs(s: Vec, x: byte): (d: Vec)
    ensures |d| == |s| && forall i :: 0 <= i < |s| ==> d[i] == Add(s[i], x)
  {
    seq(|s|, i requires 0 <= i < |s| => Add(s[i], x))
  }

  /** The product of the other points, and of their differences to the i-th. */
  function Num(xs: Vec, i: nat): byte
    requires i < |xs|
  {
    Prod(Remove(xs, i))
  }

  function Den(xs: Vec, i: nat): byte
    requires i < |xs|
  {
    Prod(Diffs(Remove(xs, i), xs[i]))
  }

  lemma {:induction false} DenNonzero(xs: Vec, i: nat)
    requires i < |xs| && Distinct(xs)
    ensures Den(xs, i) != 0
  {
    var d := Diffs(Remove(xs, i), xs[i]);
    forall j | 0 <= j < |d|
      ensures d[j] != 0
    {
      AddCancel(Remove(xs, i)[j], xs[i]);
    }
    ProdNonzero(d);
  }

  lemma {:induction false} DenZero(xs: Vec, i: nat, j: nat)
    requires i < |xs| && j < |xs| && i != j && xs[i] == xs[j]
    ensures Den(xs, i) == 0
  {
    var d := Diffs(Remove(xs, i), xs[i]);
    var r := if j < i then j else j - 1;
    AddCancel(xs[j], xs[i]);
    assert d[r] == 0;
    ProdRemove(d, r);
    MulZero(Prod(Remove(d, r)));
  }

  ghost function Weight(xs: Vec, i: nat): byte
    requires i < |xs| && Distinct(xs)
  {
    DenNonzero(xs, i);
    Mul(Num(xs, i), Inverse(Den(xs, i)))
  }

  ghost function Weights(xs: Vec): (w: Vec)
    requires Distinct(xs)
    ensures |w| == |xs| && forall i :: 0 <= i < |xs| ==> w[i] == Weight(xs, i)
  {
    seq(|xs|, i requires 0 <= i < |xs| => Weight(xs, i))
  }

  lemma {:induction false} Quotients(a: byte, b: byte, c: byte, d: byte)
    requires a != 0 && d != 0 && Mul(a, d) != 0
    ensures Mul(a, Mul(Mul(b, c), Inverse(Mul(a, d)))) == Mul(b, Mul(c, Inverse(d)))
  {
    hide Mul;
    var z, y := Inverse(Mul(a, d)), Inverse(d);
    calc {
      Mul(d, Mul(a, z));
      { MulAssociates(d, a, z); MulCommutes(d, a); }
      1;
      Mul(d, y);
    }
    MulCancel(d, Mul(a, z), y);
    calc {
      Mul(a, Mul(Mul(b, c), z));
      { MulSwap(a, Mul(b, c), z); }
      Mul(Mul(b, c), y);
      { MulAssociates(b, c, y); }
      Mul(b, Mul(c, y));
    }
  }

  lemma {:induction false} RemovedAt<T>(s: seq<T>, r: nat, k: nat)
    requires r < |s| && k < |s| - 1
    ensures |Remove(s, r)| == |s| - 1 && Remove(s, r)[k] == s[if k < r then k else k + 1]
  {
  }

  lemma {:induction false} RemoveTwice<T>(s: seq<T>, i: nat, r: nat)
    requires i < |s| && r < |s| && i != r
    ensures Remove(s, i)[if r < i then r else r - 1] == s[r]
    ensures Remove(Remove(s, i), if r < i then r else r - 1) == Remove(Remove(s, r), if i < r then i else i - 1)
  {
    var i', r' := if i < r then i else i - 1, if r < i then r else r - 1;
    var t, u := Remove(Remove(s, i), r'), Remove(Remove(s, r), i');
    assert |t| == |u| == |s| - 2;
    forall k: nat | k < |t|
      ensures t[k] == u[k]
    {
      RemovedAt(Remove(s, i), r', k);
      RemovedAt(Remove(s, r), i', k);
      RemovedAt(s, i, if k < r' then k else k + 1);
      RemovedAt(s, r, if k < i' then k else k + 1);
    }
  }

  lemma {:induction false} DistinctRemove<T>(s: seq<T>, r: nat)
    requires r < |s| && Distinct(s)
    ensures Distinct(Remove(s, r))
  {
  }

  /** (x_i + x_r) times the weight of x_i is x_r times its weight without x_r. */
  lemma {:induction false} WeightWithout(xs: Vec, i: nat, r: nat)
    requires Distinct(xs) && i < |xs| && r < |xs| && i != r
    ensures Distinct(Remove(xs, r))
    ensures Mul(Add(xs[i], xs[r]), Weight(xs, i)) == Mul(xs[r], Weight(Remove(xs, r), if i < r then i else i - 1))
  {
    DistinctRemove(xs, r);
    var i' := if i < r then i else i - 1;
    var r' := if r < i then r else r - 1;
    var a := Add(xs[i], xs[r]);
    NumDenWithout(xs, i, r);
    DenNonzero(xs, i);
    DenNonzero(Remove(xs, r), i');
    AddCancel(xs[i], xs[r]);
    Quotients(a, xs[r], Num(Remove(xs, r), i'), Den(Remove(xs, r), i'));
  }

  lemma {:induction false} DiffsRemove(s: Vec, x: byte, r: nat)
    requires r < |s|
    ensures Remove(Diffs(s, x), r) == Diffs(Remove(s, r), x)
  {
    hide Add;
  }

  lemma {:induction false} NumDenWithout(xs: Vec, i: nat, r: nat)
    requires i < |xs| && r < |xs| && i != r
    ensures var i' := if i < r then i else i - 1;
      && Num(xs, i) == Mul(xs[r], Num(Remove(xs, r), i'))
      && Den(xs, i) == Mul(Add(xs[i], xs[r]), Den(Remove(xs, r), i'))
  {
    hide Mul, Add, Prod, Diffs;
    var i' := if i < r then i else i - 1;
    var r' := if r < i then r else r - 1;
    RemoveTwice(xs, i, r);
    RemoveTwice(xs, r, i);
    var s := Remove(xs, i);
    ProdRemove(s, r');
    ProdRemove(Diffs(s, xs[i]), r');
    DiffsRemove(s, xs[i], r');
    AddLaws(xs[r], xs[i], 0);
  }

  // ---- Interpolation ---------------------------------------------------------------------

  ghost function Shifted(xs: Vec, r: nat, g: Vec): (v: Vec)
    requires r < |xs| == |g|
    ensures |v| == |xs| && forall i :: 0 <= i < |xs| ==> v[i] == Mul(Add(xs[i], xs[r]), g[i])
  {
    seq(|xs|, i requires 0 <= i < |xs| => Mul(Add(xs[i], xs[r]), g[i]))
  }

  /** Values with a root at x_r interpolate like their quotients at the other points. */
  lemma {:induction false} DropRoot(xs: Vec, r: nat, g: Vec)
    requires Distinct(xs) && r < |xs| == |g|
    ensures Distinct(Remove(xs, r))
    ensures Dot(Shifted(xs, r, g), Weights(xs)) == Mul(xs[r], Dot(Remove(g, r), Weights(Remove(xs, r))))
  {
    hide Mul, Add, Sum, Weight, Weights, Shifted, Products, ScaleV;
    DistinctRemove(xs, r);
    var p := Products(Shifted(xs, r, g), Weights(xs));
    var q := Products(Remove(g, r), Weights(Remove(xs, r)));
    SumRemove(p, r);
    AddCancel(xs[r], xs[r]);
    MulZero(g[r]);
    MulZero(Weights(xs)[r]);
    AddLaws(Sum(Remove(p, r)), 0, 0);
    forall j | 0 <= j < |q|
      ensures Remove(p, r)[j] == ScaleV(xs[r], q)[j]
    {
      DropRootTerm(xs, r, g, j);
    }
    assert Remove(p, r) == ScaleV(xs[r], q);
    SumScale(xs[r], q);
  }

  lemma {:induction false} DropRootTerm(xs: Vec, r: nat, g: Vec, j: nat)
    requires Distinct(xs) && r < |xs| == |g| && j < |xs| - 1
    ensures Distinct(Remove(xs, r))
    ensures var i := if j < r then j else j + 1;
      Mul(Mul(Add(xs[i], xs[r]), g[i]), Weight(xs, i)) == Mul(xs[r], Mul(Remove(g, r)[j], Weight(Remove(xs, r), j)))
  {
    hide Mul, Add;
    var i := if j < r then j else j + 1;
    var a := Add(xs[i], xs[r]);
    WeightWithout(xs, i, r);
    MulAssociates(a, g[i], Weight(xs, i));
    MulSwap(a, g[i], Weight(xs, i));
    MulSwap(g[i], xs[r], Weight(Remove(xs, r), j));
  }

  ghost function Ones(n: nat): (v: Vec)
    ensures |v| == n && forall i :: 0 <= i < n ==> v[i] == 1
  {
    seq(n, _ => 1)
  }

  /** The weights add up to one. */
  lemma {:induction false} WeightsSum(xs: Vec)
    requires Distinct(xs) && xs != []
    ensures Dot(Ones(|xs|), Weights(xs)) == 1
  {
    hide Dot, Weight, Weights, Shifted, Ones;
    var n := |xs|;
    if n == 1 {
      SinglePoint(xs);
    } else {
      DistinctRemove(xs, 0);
      DistinctRemove(xs, 1);
      WeightsSum(Remove(xs, 0));
      WeightsSum(Remove(xs, 1));
      hide Mul, Add;
      assert Remove(Ones(n), 0) == Ones(n - 1) && Remove(Ones(n), 1) == Ones(n - 1);
      DropRoot(xs, 0, Ones(n));
      DropRoot(xs, 1, Ones(n));
      MulCommutes(xs[0], 1);
      MulCommutes(xs[1], 1);
      MulOne(xs[0]);
      MulOne(xs[1]);
      var u, v, d := Shifted(xs, 0, Ones(n)), Shifted(xs, 1, Ones(n)), Add(xs[0], xs[1]);
      DotAdd(u, v, Weights(xs));
      ShiftedOnes(xs, n, u, v, d);
      DotScale(d, Ones(n), Weights(xs));
      AddCancel(xs[0], xs[1]);
      MulCommutes(d, 1);
      MulOne(d);
      MulCancel(d, Dot(Ones(n), Weights(xs)), 1);
    }
  }

  lemma {:induction false} ShiftedOnes(xs: Vec, n: nat, u: Vec, v: Vec, d: byte)
    requires |xs| == n >= 2 && u == Shifted(xs, 0, Ones(n)) && v == Shifted(xs, 1, Ones(n))
    requires d == Add(xs[0], xs[1])
    ensures AddV(u, v) == ScaleV(d, Ones(n))
  {
    hide Mul, Add;
    forall i | 0 <= i < n
      ensures AddV(u, v)[i] == ScaleV(d, Ones(n))[i]
    {
      MulAddLeft(Add(xs[i], xs[0]), Add(xs[i], xs[1]), 1);
      AddSwap(xs[i], xs[0], xs[i], xs[1]);
      AddLaws(xs[i], xs[i], 0);
      AddLaws(d, 0, 0);
    }
  }

  lemma {:induction false} SinglePoint(xs: Vec)
    requires Distinct(xs) && |xs| == 1
    ensures Dot(Ones(1), Weights(xs)) == 1
  {
    hide Mul, Add, Weights, Products, Inverse;
    assert Remove(xs, 0) == [] && Diffs([], xs[0]) == [];
    assert Num(xs, 0) == 1 && Den(xs, 0) == 1;
    MulOne(Inverse(1));
    assert Weight(xs, 0) == Mul(1, Inverse(1)) == 1;
    MulOne(1);
    var p := Products(Ones(1), Weights(xs));
    assert p == [1];
    assert p[..0] == [] && Sum(p[..0]) == 0;
    assert Sum(p) == Add(0, 1);
    AddLaws(1, 0, 0);
  }

  ghost function Values(c: Vec, xs: Vec): (v: Vec)
    ensures |v| == |xs| && forall i :: 0 <= i < |xs| ==> v[i] == Eval(c, xs[i])
  {
    seq(|xs|, i requires 0 <= i < |xs| => Eval(c, xs[i]))
  }

  /** Interpolation at zero: any polynomial with at most as many coefficients as there are
      distinct points is recovered at zero from its values there. */
  lemma {:induction false} InterpolationAtZero(c: Vec, xs: Vec)
    requires Distinct(xs) && |c| <= |xs|
    ensures Dot(Values(c, xs), Weights(xs)) == Eval(c, 0)
    decreases |xs|
  {
    hide Mul, Add, Dot, Weight, Weights, Values, Ones, Quotient, ScaleV, AddV, Shifted;
    if c == [] {
      ZeroValues(xs);
    } else {
      hide Eval;
      var x, q := xs[0], Quotient(c, xs[0]);
      var rest := Remove(xs, 0);
      DistinctRemove(xs, 0);
      InterpolationAtZero(q, rest);
      WeightsSum(xs);
      var n, w := |xs|, Weights(xs);
      var g := Values(q, xs);
      SplitValues(c, xs);
      DotAdd(ScaleV(Eval(c, x), Ones(n)), Shifted(xs, 0, g), w);
      DotScale(Eval(c, x), Ones(n), w);
      DropRoot(xs, 0, g);
      assert Remove(g, 0) == Values(q, rest);
      Division(c, x, 0);
      AddLaws(x, 0, 0);
      MulCommutes(Eval(c, x), 1);
      MulOne(Eval(c, x));
    }
  }

  lemma {:induction false} SplitValues(c: Vec, xs: Vec)
    requires xs != []
    ensures Values(c, xs)
         == AddV(ScaleV(Eval(c, xs[0]), Ones(|xs|)), Shifted(xs, 0, Values(Quotient(c, xs[0]), xs)))
  {
    hide Mul, Add, Eval;
    var e := Eval(c, xs[0]);
    forall i | 0 <= i < |xs|
      ensures Eval(c, xs[i]) == Add(Mul(e, 1), Mul(Add(xs[i], xs[0]), Eval(Quotient(c, xs[0]), xs[i])))
    {
      Division(c, xs[0], xs[i]);
      MulCommutes(e, 1);
      MulOne(e);
    }
  }

  lemma {:induction false} ZeroValues(xs: Vec)
    requires Distinct(xs)
    ensures Dot(Values([], xs), Weights(xs)) == 0
  {
    var p := Products(Values([], xs), Weights(xs));
    forall i | 0 <= i < |p|
      ensures p[i] == 0
    {
      MulZero(Weights(xs)[i]);
    }
    SumOfZeros(p);
  }
}
