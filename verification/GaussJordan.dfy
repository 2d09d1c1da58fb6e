/**
`CauchyMds::invert_matrix`: Gauss-Jordan elimination over GF(2^8) on the matrix
augmented by the identity.
*/
module GaussJordan {
  import opened Bytes
  import opened Sequences
  import opened Wrappers
  import opened Gf256
  import opened Gf256Log
  import opened Gf8Tables
  import opened LinearAlgebra

  // ---- Row operations, as loops over the columns -------------------------------

  method ScaleRow(gf: Gf8, c: byte, v: Vec) returns (w: Vec)
    requires gf.Valid()
    ensures w == ScaleV(c, v)
  {
    w := v;
    for j := 0 to |v|
      invariant |w| == |v|
      invariant forall i :: 0 <= i < j ==> w[i] == Mul(c, v[i])
      invariant forall i :: j <= i < |v| ==> w[i] == v[i]
    {
      MulCommutes(w[j], c);
      w := w[j := gf.Mul(w[j], c)];
    }
  }

  method AddScaledRow(gf: Gf8, u: Vec, c: byte, v: Vec) returns (w: Vec)
    requires gf.Valid() && |u| == |v|
    ensures w == AddV(u, ScaleV(c, v))
  {
    w := u;
    for j := 0 to |u|
      invariant |w| == |u|
      invariant forall i :: 0 <= i < j ==> w[i] == Add(u[i], Mul(c, v[i]))
      invariant forall i :: j <= i < |u| ==> w[i] == u[i]
    {
      w := w[j := Add(w[j], gf.Mul(c, v[j]))];
    }
  }

  // ---- One column of elimination, on values --------------------------------------

  ghost function Swapped(aug: seq<Vec>, p: nat, q: nat): seq<Vec>
    requires p < |aug| && q < |aug|
  {
    aug[p := aug[q]][q := aug[p]]
  }

  ghost function Normalized(aug: seq<Vec>, col: nat): seq<Vec>
    requires col < |aug| && col < |aug[col]| && aug[col][col] != 0
  {
    aug[col := ScaleV(Inverse(aug[col][col]), aug[col])]
  }

  ghost function Cleared(aug: seq<Vec>, w: nat, col: nat): seq<Vec>
    requires IsMatrix(aug, w) && col < w && col < |aug|
  {
    seq(|aug|, r requires 0 <= r < |aug| =>
      if r == col then aug[col] else AddV(aug[r], ScaleV(aug[r][col], aug[col])))
  }

  ghost function Column(aug: seq<Vec>, w: nat, col: nat, p: nat): seq<Vec>
    requires IsMatrix(aug, w) && col < w && col <= p < |aug| && aug[p][col] != 0
  {
    Cleared(Normalized(Swapped(aug, col, p), col), w, col)
  }

  // ---- What elimination keeps -----------------------------------------------------

  /** The left half of an augmented row is the combination of the rows of m
      that its right half records. */
  ghost predicate Records(row: Vec, m: seq<Vec>) {
    && |row| == 2 * |m|
    && IsMatrix(m, |m|)
    && row[..|m|] == Comb(row[|m|..], m, |m|)
  }

  lemma {:induction false} RecordsAdd(x: Vec, y: Vec, m: seq<Vec>)
    requires Records(x, m) && Records(y, m)
    ensures Records(AddV(x, y), m)
  {
    var n := |m|;
    var s := AddV(x, y);
    assert s[..n] == AddV(x[..n], y[..n]);
    assert s[n..] == AddV(x[n..], y[n..]);
    CombAdd(x[n..], y[n..], m, n);
  }

  lemma {:induction false} RecordsScale(c: byte, x: Vec, m: seq<Vec>)
    requires Records(x, m)
    ensures Records(ScaleV(c, x), m)
  {
    var n := |m|;
    var s := ScaleV(c, x);
    assert s[..n] == ScaleV(c, x[..n]);
    assert s[n..] == ScaleV(c, x[n..]);
    CombScale(c, x[n..], m, n);
  }

  /** v is orthogonal to the left half of an augmented row. */
  ghost predicate Orthogonal(row: Vec, v: Vec) {
    |row| == 2 * |v| && Dot(row[..|v|], v) == 0
  }

  ghost predicate LeftKernel(aug: seq<Vec>, v: Vec) {
    forall r :: 0 <= r < |aug| ==> Orthogonal(aug[r], v)
  }

  /** Whatever the left halves annihilate, m annihilates. */
  ghost predicate KernelWithin(aug: seq<Vec>, m: seq<Vec>) {
    forall v: Vec :: |v| == |m| && LeftKernel(aug, v) ==> InKernel(m, v)
  }

  /** Rows recording combinations of m, whose left halves have no larger kernel than m. */
  ghost predicate Reduces(aug: seq<Vec>, m: seq<Vec>) {
    && |aug| == |m|
    && (forall r :: 0 <= r < |aug| ==> Records(aug[r], m))
    && KernelWithin(aug, m)
  }

  lemma {:induction false} ReducedShape(aug: seq<Vec>, m: seq<Vec>)
    requires Reduces(aug, m)
    ensures |aug| == |m| && IsMatrix(aug, 2 * |m|)
  {
  }

  /** If a matrix has no larger left kernel than one that reduces m, neither has it than m. */
  lemma {:induction false} KernelStep(aug: seq<Vec>, next: seq<Vec>, m: seq<Vec>)
    requires KernelWithin(aug, m)
    requires forall v: Vec :: |v| == |m| && LeftKernel(next, v) ==> LeftKernel(aug, v)
    ensures KernelWithin(next, m)
  {
  }

  lemma {:induction false} SwapReduces(aug: seq<Vec>, m: seq<Vec>, p: nat, q: nat)
    requires Reduces(aug, m) && p < |m| && q < |m|
    ensures Reduces(Swapped(aug, p, q), m)
  {
    var next := Swapped(aug, p, q);
    forall r | 0 <= r < |next|
      ensures Records(next[r], m)
    {
      assert Records(aug[if r == p then q else if r == q then p else r], m);
    }
    forall v: Vec | LeftKernel(next, v)
      ensures LeftKernel(aug, v)
    {
      SwapKernel(aug, p, q, v);
    }
    KernelStep(aug, next, m);
  }

  lemma {:induction false} SwapKernel(aug: seq<Vec>, p: nat, q: nat, v: Vec)
    requires p < |aug| && q < |aug| && LeftKernel(Swapped(aug, p, q), v)
    ensures LeftKernel(aug, v)
  {
    forall r | 0 <= r < |aug|
      ensures Orthogonal(aug[r], v)
    {
      assert Orthogonal(Swapped(aug, p, q)[if r == p then q else if r == q then p else r], v);
    }
  }

  lemma {:induction false} ScaledOrthogonal(c: byte, x: Vec, v: Vec)
    requires c != 0 && Orthogonal(ScaleV(c, x), v)
    ensures Orthogonal(x, v)
  {
    var n := |v|;
    assert ScaleV(c, x)[..n] == ScaleV(c, x[..n]);
    DotScale(c, x[..n], v);
    NoZeroDivisors(c, Dot(x[..n], v));
  }

  lemma {:induction false} ScaleReduces(aug: seq<Vec>, m: seq<Vec>, p: nat, c: byte)
    requires Reduces(aug, m) && p < |m| && c != 0
    ensures Reduces(aug[p := ScaleV(c, aug[p])], m)
  {
    var next := aug[p := ScaleV(c, aug[p])];
    RecordsScale(c, aug[p], m);
    forall v: Vec | LeftKernel(next, v)
      ensures LeftKernel(aug, v)
    {
      forall r | 0 <= r < |aug|
        ensures Orthogonal(aug[r], v)
      {
        assert Orthogonal(next[r], v);
        if r == p {
          ScaledOrthogonal(c, aug[p], v);
        }
      }
    }
    KernelStep(aug, next, m);
  }

  lemma {:induction false} AddedOrthogonal(x: Vec, c: byte, y: Vec, v: Vec)
    requires |x| == |y| && Orthogonal(AddV(x, ScaleV(c, y)), v) && Orthogonal(y, v)
    ensures Orthogonal(x, v)
  {
    var n := |v|;
    assert AddV(x, ScaleV(c, y))[..n] == AddV(x[..n], ScaleV(c, y[..n]));
    DotAdd(x[..n], ScaleV(c, y[..n]), v);
    DotScale(c, y[..n], v);
    MulZero(c);
    AddLaws(Dot(x[..n], v), 0, 0);
  }

  lemma {:induction false} ClearReduces(aug: seq<Vec>, m: seq<Vec>, col: nat)
    requires Reduces(aug, m) && col < |m|
    ensures IsMatrix(aug, 2 * |m|)
    ensures Reduces(Cleared(aug, 2 * |m|, col), m)
  {
    var w := 2 * |m|;
    var next := Cleared(aug, w, col);
    forall r | 0 <= r < |aug|
      ensures Records(next[r], m)
    {
      RecordsScale(aug[r][col], aug[col], m);
      RecordsAdd(aug[r], ScaleV(aug[r][col], aug[col]), m);
    }
    forall v: Vec | LeftKernel(next, v)
      ensures LeftKernel(aug, v)
    {
      forall r | 0 <= r < |aug|
        ensures Orthogonal(aug[r], v)
      {
        assert Orthogonal(next[r], v) && Orthogonal(next[col], v);
        if r != col {
          AddedOrthogonal(aug[r], aug[r][col], aug[col], v);
        }
      }
    }
    KernelStep(aug, next, m);
  }

  // ---- Columns already reduced ------------------------------------------------------

  /** The first col columns are those of the identity. */
  ghost predicate Reduced(aug: seq<Vec>, col: nat) {
    forall r :: 0 <= r < |aug| ==> UnitPrefix(aug[r], r, col)
  }

  /** The first col entries are those of row r of the identity. */
  ghost predicate UnitPrefix(row: Vec, r: nat, col: nat) {
    col <= |row| && forall j :: 0 <= j < col ==> row[j] == if r == j then 1 else 0
  }

  /** With col columns reduced and no pivot left in the next, that column is a
      combination of the earlier ones: a nonzero vector of the kernel. */
  lemma {:induction false} NoPivot(aug: seq<Vec>, m: seq<Vec>, col: nat) returns (v: Vec)
    requires Reduces(aug, m) && Reduced(aug, col) && col < |m|
    requires forall r :: col <= r < |m| ==> col < |aug[r]| && aug[r][col] == 0
    ensures |v| == |m| && v != Zeros(|m|) && InKernel(m, v)
  {
    hide Mul, Add, Dot, Comb;
    ReducedShape(aug, m);
    v := ColumnRelation(aug, |m|, col);
    assert v[col] == 1;
    forall r | 0 <= r < |m|
      ensures Orthogonal(aug[r], v)
    {
      PivotlessRow(aug[r][..|m|], v, r, col);
    }
    assert LeftKernel(aug, v);
  }

  ghost function ColumnRelation(aug: seq<Vec>, n: nat, col: nat): (v: Vec)
    requires |aug| == n && IsMatrix(aug, 2 * n) && col < n
    ensures |v| == n
    ensures forall j :: 0 <= j < n ==> v[j] == if j < col then aug[j][col] else if j == col then 1 else 0
  {
    seq(n, j requires 0 <= j < n => if j < col then aug[j][col] else if j == col then 1 else 0)
  }

  lemma {:induction false} PivotlessRow(u: Vec, v: Vec, r: nat, col: nat)
    requires |u| == |v| && col < |v| && r < |u|
    requires forall j :: 0 <= j < col ==> u[j] == if r == j then 1 else 0
    requires r < col ==> v[r] == u[col]
    requires r >= col ==> u[col] == 0
    requires v[col] == 1 && forall j :: col < j < |v| ==> v[j] == 0
    ensures Dot(u, v) == 0
  {
    hide Mul, Add;
    var p := Products(u, v);
    forall j | 0 <= j < |u| && j != col && j != r
      ensures p[j] == 0
    {
      MulZero(u[j]);
      MulZero(v[j]);
    }
    MulOne(u[col]);
    MulCommutes(u[col], 1);
    SumRemove(p, col);
    var q := Remove(p, col);
    if r < col {
      MulOne(v[r]);
      SumRemove(q, r);
      SumOfZeros(Remove(q, r));
      AddLaws(u[col], 0, 0);
    } else {
      MulZero(v[r]);
      MulZero(u[r]);
      SumOfZeros(q);
    }
  }

  lemma {:induction false} ClearedColumn(aug: seq<Vec>, w: nat, col: nat)
    requires IsMatrix(aug, w) && col < w && col < |aug|
    requires Reduced(aug, col) && aug[col][col] == 1
    ensures Reduced(Cleared(aug, w, col), col + 1)
  {
    forall r, j | 0 <= r < |aug| && 0 <= j < col + 1
      ensures Cleared(aug, w, col)[r][j] == if r == j then 1 else 0
    {
      if r != col {
        ClearedEntry(aug[r], aug[col], col, j);
      }
    }
  }

  lemma {:induction false} ClearedEntry(x: Vec, y: Vec, col: nat, j: nat)
    requires |x| == |y| && j <= col < |x| && y[col] == 1
    requires j < col ==> y[j] == 0
    ensures AddV(x, ScaleV(x[col], y))[j] == if j == col then 0 else x[j]
  {
    MulCommutes(x[col], 1);
    MulOne(x[col]);
    MulZero(x[col]);
    AddCancel(x[col], x[col]);
    AddLaws(x[j], 0, 0);
  }

  /** One turn of the column loop keeps what elimination promises. */
  lemma {:induction false} ColumnStep(aug: seq<Vec>, m: seq<Vec>, col: nat, p: nat)
    requires Reduces(aug, m) && Reduced(aug, col) && col <= p < |m|
    requires col < |aug[p]| && aug[p][col] != 0
    ensures Reduces(Column(aug, 2 * |m|, col, p), m)
    ensures Reduced(Column(aug, 2 * |m|, col, p), col + 1)
  {
    SwapReduces(aug, m, col, p);
    var s := Swapped(aug, col, p);
    ReducedShape(aug, m);
    SwappedColumns(aug, 2 * |m|, col, p);
    ScaleReduces(s, m, col, Inverse(s[col][col]));
    var t := Normalized(s, col);
    ScaledPivot(s, col);
    ClearReduces(t, m, col);
    ClearedColumn(t, 2 * |m|, col);
  }

  lemma {:induction false} SwappedColumns(aug: seq<Vec>, w: nat, col: nat, p: nat)
    requires IsMatrix(aug, w) && col <= w
    requires Reduced(aug, col) && col <= p < |aug|
    ensures Reduced(Swapped(aug, col, p), col)
  {
    var s := Swapped(aug, col, p);
    forall r, j | 0 <= r < |aug| && 0 <= j < col
      ensures j < |s[r]| && s[r][j] == if r == j then 1 else 0
    {
      var r' := if r == col then p else if r == p then col else r;
      assert s[r] == aug[r'];
      assert |aug[r']| == w;
      assert aug[r'][j] == if r' == j then 1 else 0;
    }
  }

  /** A row that is zero in the reduced columns may stand in row col. */
  lemma {:induction false} ReplacedRow(s: seq<Vec>, col: nat, row: Vec)
    requires col < |s| && col <= |row| && Reduced(s, col) && row[..col] == Zeros(col)
    ensures Reduced(s[col := row], col)
  {
    assert forall j :: 0 <= j < col ==> row[j] == row[..col][j];
    assert UnitPrefix(row, col, col);
  }

  lemma {:induction false} ScaledPivot(s: seq<Vec>, col: nat)
    requires col < |s| && col < |s[col]| && s[col][col] != 0
    requires Reduced(s, col)
    ensures Normalized(s, col)[col][col] == 1
    ensures Reduced(Normalized(s, col), col)
  {
    var u, row := Inverse(s[col][col]), s[col];
    var scaled := ScaleV(u, row);
    MulZero(u);
    hide Mul, Inverse;
    assert scaled[col] == Mul(u, row[col]) == 1;
    assert scaled[..col] == Zeros(col) by {
      forall j | 0 <= j < col
        ensures scaled[j] == 0
      {
        assert row[j] == 0;
        assert scaled[j] == Mul(u, row[j]);
      }
    }
    hide Reduced;
    ReplacedRow(s, col, scaled);
  }

  // ---- Repeated rows ---------------------------------------------------------------------------

  /** Two rows agree in the first n entries, or one row is zero there. */
  ghost predicate Degenerate(aug: seq<Vec>, n: nat)
    requires forall r :: 0 <= r < |aug| ==> n <= |aug[r]|
  {
    || (exists r, s :: 0 <= r < s < |aug| && aug[r][..n] == aug[s][..n])
    || (exists r :: 0 <= r < |aug| && aug[r][..n] == Zeros(n))
  }

  lemma {:induction false} SwapKeepsDegenerate(aug: seq<Vec>, w: nat, n: nat, p: nat, q: nat)
    requires IsMatrix(aug, w) && n <= w && p < |aug| && q < |aug| && Degenerate(aug, n)
    ensures IsMatrix(Swapped(aug, p, q), w) && Degenerate(Swapped(aug, p, q), n)
  {
    var s := Swapped(aug, p, q);
    if i, j :| 0 <= i < j < |aug| && aug[i][..n] == aug[j][..n] {
      var i' := if i == p then q else if i == q then p else i;
      var j' := if j == p then q else if j == q then p else j;
      assert s[i'] == aug[i] && s[j'] == aug[j] && i' != j';
      if i' < j' {
        assert s[i'][..n] == s[j'][..n];
      } else {
        assert s[j'][..n] == s[i'][..n];
      }
    } else {
      var i :| 0 <= i < |aug| && aug[i][..n] == Zeros(n);
      assert s[if i == p then q else if i == q then p else i] == aug[i];
    }
  }

  /** The entry of a row from which the scaled pivot row was taken away. */
  lemma {:induction false} ClearedByTwin(pivot: byte, x: byte)
    requires pivot != 0
    ensures Add(x, Mul(pivot, Mul(Inverse(pivot), x))) == 0
  {
    hide Mul, Add, Inverse;
    MulAssociates(pivot, Inverse(pivot), x);
    MulOne(x);
    AddLaws(x, x, 0);
  }

  lemma {:induction false} UntouchedByZero(x: byte, y: byte)
    ensures Add(x, Mul(0, y)) == x
  {
    MulZero(y);
    AddLaws(x, 0, 0);
  }

  /** One column after the swap. */
  ghost function Pivoted(s: seq<Vec>, w: nat, col: nat): (next: seq<Vec>)
    requires IsMatrix(s, w) && col < w && col < |s| && s[col][col] != 0
    ensures IsMatrix(next, w) && |next| == |s|
    ensures next == Cleared(Normalized(s, col), w, col)
    ensures forall r, q :: 0 <= r < |s| && r != col && 0 <= q < w ==>
      next[r][q] == Add(s[r][q], Mul(s[r][col], Mul(Inverse(s[col][col]), s[col][q])))
  {
    Cleared(Normalized(s, col), w, col)
  }

  lemma {:induction false} ZeroStays(s: seq<Vec>, w: nat, n: nat, col: nat, z: nat)
    requires IsMatrix(s, w) && n <= w && col < n && col < |s| && s[col][col] != 0
    requires z < |s| && s[z][..n] == Zeros(n)
    ensures Degenerate(Pivoted(s, w, col), n)
  {
    hide Mul, Add, Inverse, Pivoted;
    var next := Pivoted(s, w, col);
    assert s[z][..n][col] == 0;
    forall q | 0 <= q < n
      ensures next[z][q] == 0
    {
      UntouchedByZero(s[z][q], Mul(Inverse(s[col][col]), s[col][q]));
      assert s[z][..n][q] == 0;
    }
    assert next[z][..n] == Zeros(n);
  }

  lemma {:induction false} TwinsStay(s: seq<Vec>, w: nat, n: nat, col: nat, i: nat, j: nat)
    requires IsMatrix(s, w) && n <= w && col < n && col < |s| && s[col][col] != 0
    requires i < j < |s| && s[i][..n] == s[j][..n]
    ensures Degenerate(Pivoted(s, w, col), n)
  {
    hide Mul, Add, Inverse, Pivoted;
    var next := Pivoted(s, w, col);
    forall q | 0 <= q < n
      ensures s[i][q] == s[j][q]
    {
      assert s[i][..n][q] == s[j][..n][q];
    }
    if i == col || j == col {
      var other := if i == col then j else i;
      forall q | 0 <= q < n
        ensures next[other][q] == 0
      {
        ClearedByTwin(s[col][col], s[col][q]);
      }
      assert next[other][..n] == Zeros(n);
    } else {
      assert next[i][..n] == next[j][..n];
    }
  }

  lemma {:induction false} ColumnKeepsDegenerate(aug: seq<Vec>, w: nat, n: nat, col: nat, p: nat)
    requires IsMatrix(aug, w) && n <= w && col < n && col <= p < |aug| && aug[p][col] != 0 && Degenerate(aug, n)
    ensures IsMatrix(Column(aug, w, col, p), w) && Degenerate(Column(aug, w, col, p), n)
  {
    hide Pivoted, Mul, Add, Inverse, Cleared, Normalized;
    SwapKeepsDegenerate(aug, w, n, col, p);
    var s := Swapped(aug, col, p);
    hide Swapped;
    var next := Pivoted(s, w, col);
    if z :| 0 <= z < |s| && s[z][..n] == Zeros(n) {
      ZeroStays(s, w, n, col, z);
    } else {
      var i, j :| 0 <= i < j < |s| && s[i][..n] == s[j][..n];
      TwinsStay(s, w, n, col, i, j);
    }
  }

  lemma {:induction false} ReducedIsNotDegenerate(aug: seq<Vec>, w: nat, n: nat)
    requires IsMatrix(aug, w) && |aug| == n <= w && Reduced(aug, n)
    ensures !Degenerate(aug, n)
  {
    forall r | 0 <= r < n
      ensures aug[r][..n][r] == 1
    {
    }
    forall r, s | 0 <= r < s < n
      ensures aug[r][..n] != aug[s][..n]
    {
      assert aug[s][..n][r] == 0;
    }
  }

  ghost predicate RepeatsRow(m: seq<Vec>) {
    exists r, s :: 0 <= r < s < |m| && m[r] == m[s]
  }

  // ---- The algorithm -------------------------------------------------------------------

  /** The matrix augmented by the identity. */
  method Augment(m: seq<Vec>) returns (aug: seq<Vec>)
    requires IsMatrix(m, |m|)
    ensures Reduces(aug, m)
    ensures |aug| == |m| && forall r :: 0 <= r < |m| ==> |aug[r]| == 2 * |m| && aug[r][..|m|] == m[r]
  {
    var n := |m|;
    aug := [];
    for i := 0 to n
      invariant |aug| == i
      invariant forall r :: 0 <= r < i ==> aug[r] == m[r] + Unit(n, r)
    {
      aug := aug + [m[i] + Unit(n, i)];
    }
    forall r | 0 <= r < n
      ensures Records(aug[r], m)
    {
      CombUnit(r, m, n);
      assert aug[r][..n] == m[r] && aug[r][n..] == Unit(n, r);
    }
    forall v: Vec | |v| == n && LeftKernel(aug, v)
      ensures InKernel(m, v)
    {
      forall r | 0 <= r < n
        ensures Dot(m[r], v) == 0
      {
        assert Orthogonal(aug[r], v);
        assert aug[r][..n] == m[r];
      }
    }
    assert KernelWithin(aug, m);
  }

  lemma {:induction false} RepeatedIsDegenerate(aug: seq<Vec>, m: seq<Vec>)
    requires |aug| == |m| && forall r :: 0 <= r < |m| ==> |aug[r]| == 2 * |m| && aug[r][..|m|] == m[r]
    ensures RepeatsRow(m) ==> Degenerate(aug, |m|)
  {
    if RepeatsRow(m) {
      var r, s :| 0 <= r < s < |m| && m[r] == m[s];
      assert aug[r][..|m|] == aug[s][..|m|];
    }
  }

  method FindPivot(aug: seq<Vec>, col: nat) returns (pivot: Option<nat>)
    requires forall r :: col <= r < |aug| ==> col < |aug[r]|
    ensures pivot.Some? ==> col <= pivot.value < |aug| && aug[pivot.value][col] != 0
    ensures pivot.Some? ==> forall r :: col <= r < pivot.value ==> aug[r][col] == 0
    ensures pivot.None? ==> forall r :: col <= r < |aug| ==> aug[r][col] == 0
  {
    var r := col;
    while r < |aug|
      invariant forall i :: col <= i < r && i < |aug| ==> aug[i][col] == 0
    {
      if aug[r][col] != 0 {
        return Some(r);
      }
      r := r + 1;
    }
    return None;
  }

  /** Clears a column outside the pivot row; rows that are zero there are skipped. */
  method ClearColumn(gf: Gf8, a: seq<Vec>, ghost w: nat, col: nat) returns (aug: seq<Vec>)
    requires gf.Valid() && IsMatrix(a, w) && col < w && col < |a|
    ensures aug == Cleared(a, w, col)
  {
    aug := a;
    for r := 0 to |a|
      invariant |aug| == |a| && aug[col] == a[col]
      invariant forall i :: 0 <= i < r ==> aug[i] == Cleared(a, w, col)[i]
      invariant forall i :: r <= i < |a| ==> aug[i] == a[i]
    {
      if r != col && aug[r][col] != 0 {
        var row := AddScaledRow(gf, aug[r], aug[r][col], aug[col]);
        aug := aug[r := row];
      } else if r != col {
        ScaleVLaws(0, 0, a[col], a[col]);
        AddVLaws(a[r], a[r], a[r]);
      }
    }
  }

  /** One turn of the column loop. */
  method ReduceColumn(gf: Gf8, a: seq<Vec>, ghost w: nat, col: nat, p: nat) returns (aug: seq<Vec>)
    requires gf.Valid() && IsMatrix(a, w) && col < w && col <= p < |a| && a[p][col] != 0
    ensures aug == Column(a, w, col, p)
  {
    aug := a[col := a[p]][p := a[col]];
    var i := gf.Inv(aug[col][col]);
    var row := ScaleRow(gf, i.value, aug[col]);
    aug := aug[col := row];
    aug := ClearColumn(gf, aug, w, col);
  }

  /** The inverse of m if there is one, and otherwise there is a nonzero vector that m
      annihilates. */
  method InvertMatrix(gf: Gf8, m: seq<Vec>) returns (inv: Option<seq<Vec>>)
    requires gf.Valid() && IsMatrix(m, |m|)
    ensures inv.Some? ==> |inv.value| == |m| && IsMatrix(inv.value, |m|)
    ensures inv.Some? ==> forall c :: 0 <= c < |m| ==> Comb(inv.value[c], m, |m|) == Unit(|m|, c)
    ensures inv.None? ==> exists v: Vec :: |v| == |m| && v != Zeros(|m|) && InKernel(m, v)
    ensures RepeatsRow(m) ==> inv.None?
  {
    hide Comb, Dot, Mul, Add, Degenerate;
    var n := |m|;
    var aug := Augment(m);
    RepeatedIsDegenerate(aug, m);
    for col := 0 to n
      invariant Reduces(aug, m) && Reduced(aug, col)
      invariant IsMatrix(aug, 2 * n) && (RepeatsRow(m) ==> Degenerate(aug, n))
    {
      ReducedShape(aug, m);
      var pivot := FindPivot(aug, col);
      if pivot.None? {
        ghost var v := NoPivot(aug, m, col);
        return None;
      }
      ColumnStep(aug, m, col, pivot.value);
      if RepeatsRow(m) {
        ColumnKeepsDegenerate(aug, 2 * n, n, col, pivot.value);
      }
      aug := ReduceColumn(gf, aug, 2 * n, col, pivot.value);
    }
    ReducedShape(aug, m);
    ReducedIsNotDegenerate(aug, 2 * n, n);
    var out := RightHalves(aug, n);
    forall c | 0 <= c < n
      ensures Comb(out[c], m, n) == Unit(n, c)
    {
      assert Records(aug[c], m);
      assert aug[c][..n] == Unit(n, c);
    }
    return Some(out);
  }

  method RightHalves(aug: seq<Vec>, n: nat) returns (out: seq<Vec>)
    requires IsMatrix(aug, 2 * n)
    ensures |out| == |aug|
    ensures forall c :: 0 <= c < |aug| ==> out[c] == aug[c][n..]
  {
    out := [];
    for r := 0 to |aug|
      invariant |out| == r
      invariant forall c :: 0 <= c < r ==> out[c] == aug[c][n..]
    {
      out := out + [aug[r][n..]];
    }
  }
}
