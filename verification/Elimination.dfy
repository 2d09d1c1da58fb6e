/**
Gauss-Jordan elimination over GF(2) on the waiting equations of the carousel decoder. The
bitset of an equation is the set of its block indices; exclusive or of bitsets is the
symmetric difference.
*/
module Elimination {
  import opened Bytes
  import opened Sequences
  import opened Wrappers
  import opened LinearAlgebra
  import opened CarouselSystem

  type MaskRow = (set<nat>, Vec)

  ghost predicate HoldsMask(t: Blocks, row: MaskRow) {
    IsMatrix(t, BLOCK) && XorOver(t, row.0, |t|) == row.1
  }

  ghost predicate HoldsMasks(t: Blocks, rows: seq<MaskRow>) {
    forall i :: 0 <= i < |rows| ==> HoldsMask(t, rows[i])
  }

  ghost predicate MasksOk(rows: seq<MaskRow>, unknowns: set<nat>) {
    forall i :: 0 <= i < |rows| ==> rows[i].0 <= unknowns && |rows[i].1| == BLOCK
  }

  // ---- Clearing a column ---------------------------------------------------------------------

  function ClearedRow(rows: seq<MaskRow>, piv: nat, col: nat, i: nat): MaskRow
    requires piv < |rows| && i < |rows| && |rows[i].1| == |rows[piv].1|
  {
    if i != piv && col in rows[i].0
    then (SymmetricDifference(rows[i].0, rows[piv].0), AddV(rows[i].1, rows[piv].1))
    else rows[i]
  }

  ghost function Cleared(rows: seq<MaskRow>, piv: nat, col: nat): (r: seq<MaskRow>)
    requires piv < |rows| && forall i :: 0 <= i < |rows| ==> |rows[i].1| == BLOCK
    ensures |r| == |rows| && forall i :: 0 <= i < |rows| ==> r[i] == ClearedRow(rows, piv, col, i)
  {
    seq(|rows|, i requires 0 <= i < |rows| => ClearedRow(rows, piv, col, i))
  }

  /** Adding the pivot equation to another keeps what the two say together. */
  lemma {:induction false} ClearedRowHolds(t: Blocks, rows: seq<MaskRow>, piv: nat, col: nat, i: nat)
    requires piv < |rows| && i < |rows| && |rows[i].1| == |rows[piv].1| == BLOCK && HoldsMask(t, rows[piv])
    ensures HoldsMask(t, ClearedRow(rows, piv, col, i)) <==> HoldsMask(t, rows[i])
  {
    hide XorOver, AddV, SymmetricDifference;
    if IsMatrix(t, BLOCK) {
      var x, y := XorOver(t, rows[i].0, |t|), rows[piv].1;
      XorDifference(t, rows[i].0, rows[piv].0, |t|);
      AddVCancel(x, y);
      AddVCancel(rows[i].1, y);
    }
  }

  lemma {:induction false} ClearedHolds(t: Blocks, rows: seq<MaskRow>, piv: nat, col: nat)
    requires piv < |rows| && forall i :: 0 <= i < |rows| ==> |rows[i].1| == BLOCK
    ensures HoldsMasks(t, Cleared(rows, piv, col)) <==> HoldsMasks(t, rows)
  {
    hide HoldsMask;
    var next := Cleared(rows, piv, col);
    assert next[piv] == rows[piv];
    if HoldsMask(t, rows[piv]) {
      forall i | 0 <= i < |rows|
        ensures HoldsMask(t, next[i]) <==> HoldsMask(t, rows[i])
      {
        ClearedRowHolds(t, rows, piv, col, i);
      }
    }
  }

  /** The c-th column occurs in the c-th pivot row and in no other. */
  ghost predicate ColumnDone(rows: seq<MaskRow>, col: nat, piv: nat) {
    forall i :: 0 <= i < |rows| ==> (col in rows[i].0 <==> i == piv)
  }

  ghost predicate Reduced(rows: seq<MaskRow>, cols: seq<nat>, pivots: seq<nat>) {
    && |cols| == |pivots| && Distinct(pivots)
    && forall c :: 0 <= c < |cols| ==> pivots[c] < |rows| && ColumnDone(rows, cols[c], pivots[c])
  }

  lemma {:induction false} ClearedReduced(rows: seq<MaskRow>, cols: seq<nat>, pivots: seq<nat>, col: nat, piv: nat)
    requires forall i :: 0 <= i < |rows| ==> |rows[i].1| == BLOCK
    requires Reduced(rows, cols, pivots) && piv < |rows| && col in rows[piv].0
    requires forall c :: 0 <= c < |pivots| ==> pivots[c] != piv
    ensures Reduced(Cleared(rows, piv, col), cols + [col], pivots + [piv])
  {
    var next := Cleared(rows, piv, col);
    forall c | 0 <= c < |cols|
      ensures ColumnDone(next, cols[c], pivots[c])
    {
      assert ColumnDone(rows, cols[c], pivots[c]);
      assert cols[c] !in rows[piv].0;
    }
    assert ColumnDone(next, col, piv);
    assert forall c :: 0 <= c < |cols| ==> (cols + [col])[c] == cols[c] && (pivots + [piv])[c] == pivots[c];
  }

  lemma {:induction false} ClearedOk(rows: seq<MaskRow>, piv: nat, col: nat, unknowns: set<nat>)
    requires MasksOk(rows, unknowns) && piv < |rows|
    ensures MasksOk(Cleared(rows, piv, col), unknowns)
  {
    var next := Cleared(rows, piv, col);
    forall i | 0 <= i < |next|
      ensures next[i].0 <= unknowns && |next[i].1| == BLOCK
    {
      assert rows[i].0 <= unknowns && rows[piv].0 <= unknowns;
    }
  }

  // ---- Two messages when a column has no pivot ---------------------------------------------------

  /** The first byte of a block, changed. */
  ghost function Flip(): (v: Vec)
    ensures |v| == BLOCK && v[0] == 1
  {
    Unit(BLOCK, 0)
  }

  ghost function Flipped(t: Blocks, z: set<nat>): (u: Blocks)
    requires IsMatrix(t, BLOCK)
    ensures IsBlocks(u, |t|)
    ensures forall i :: 0 <= i < |t| ==> u[i] == if i in z then AddV(t[i], Flip()) else t[i]
  {
    seq(|t|, i requires 0 <= i < |t| => if i in z then AddV(t[i], Flip()) else t[i])
  }

  ghost function Flips(k: nat): (u: Blocks)
    ensures IsBlocks(u, k) && forall i :: 0 <= i < k ==> u[i] == Flip()
  {
    seq(k, _ => Flip())
  }

  lemma {:induction false} SelectedFlipped(t: Blocks, z: set<nat>, s: set<nat>, i: nat)
    requires i < |t| && IsMatrix(t, BLOCK)
    ensures Selected(Flipped(t, z), s, i) == AddV(Selected(t, s, i), Selected(Flips(|t|), s * z, i))
  {
    hide AddV, Flip;
    AddVLaws(t[i], Flip(), Flip());
    AddVLaws(Zeros(BLOCK), Zeros(BLOCK), Zeros(BLOCK));
  }

  lemma {:induction false} XorFlipped(t: Blocks, z: set<nat>, s: set<nat>, n: nat)
    requires n <= |t| && IsMatrix(t, BLOCK)
    ensures XorOver(Flipped(t, z), s, n) == AddV(XorOver(t, s, n), XorOver(Flips(|t|), s * z, n))
  {
    hide AddV, Flip, Flipped, Flips, Selected;
    if n == 0 {
      AddVLaws(Zeros(BLOCK), Zeros(BLOCK), Zeros(BLOCK));
    } else {
      XorFlipped(t, z, s, n - 1);
      SelectedFlipped(t, z, s, n - 1);
      AddVSwap(XorOver(t, s, n - 1), XorOver(Flips(|t|), s * z, n - 1), Selected(t, s, n - 1), Selected(Flips(|t|), s * z, n - 1));
    }
  }

  /** Changing none or two of the blocks of an equation does not show. */
  lemma {:induction false} FlippedHolds(t: Blocks, z: set<nat>, row: MaskRow, a: nat, b: nat)
    requires HoldsMask(t, row)
    requires row.0 * z == {} || (a < |t| && b < |t| && a != b && row.0 * z == {a, b})
    ensures HoldsMask(Flipped(t, z), row)
  {
    hide AddV, XorOver, Flip, Flipped, Flips;
    var k := |t|;
    XorFlipped(t, z, row.0, k);
    if row.0 * z == {} {
      XorNone(Flips(k), {}, k);
    } else {
      assert {a, b} == SymmetricDifference({a}, {b});
      XorDifference(Flips(k), {a}, {b}, k);
      XorSingle(Flips(k), a, k);
      XorSingle(Flips(k), b, k);
      AddVSelf(Flip());
    }
    AddVLaws(row.1, row.1, row.1);
  }

  /** The blocks to change together with block `col`: the pivot columns of the rows it occurs in. */
  ghost function Together(rows: seq<MaskRow>, cols: seq<nat>, pivots: seq<nat>, col: nat): set<nat>
    requires Reduced(rows, cols, pivots)
  {
    (set c | 0 <= c < |cols| && col in rows[pivots[c]].0 :: cols[c]) + {col}
  }

  lemma {:induction false} TogetherMeets(rows: seq<MaskRow>, cols: seq<nat>, pivots: seq<nat>, col: nat, i: nat)
    requires Reduced(rows, cols, pivots) && i < |rows|
    requires forall c :: 0 <= c < |cols| ==> cols[c] != col
    requires forall j :: 0 <= j < |rows| && col in rows[j].0 ==> j in pivots
    ensures var m := rows[i].0 * Together(rows, cols, pivots, col);
      m == {} || exists c :: 0 <= c < |cols| && m == {cols[c], col}
  {
    var z := Together(rows, cols, pivots, col);
    if col in rows[i].0 {
      assert i in pivots;
      var c :| 0 <= c < |pivots| && pivots[c] == i;
      assert ColumnDone(rows, cols[c], i);
      forall x | x in rows[i].0 * z
        ensures x == cols[c] || x == col
      {
        if x != col {
          var d :| 0 <= d < |cols| && col in rows[pivots[d]].0 && cols[d] == x;
          assert ColumnDone(rows, cols[d], pivots[d]);
          assert pivots[d] == pivots[c] && d == c;
        }
      }
      assert rows[i].0 * z == {cols[c], col};
    } else {
      forall x | x in z
        ensures x !in rows[i].0
      {
        if x != col {
          var d :| 0 <= d < |cols| && col in rows[pivots[d]].0 && cols[d] == x;
          assert ColumnDone(rows, cols[d], pivots[d]);
        }
      }
      assert rows[i].0 * z == {};
    }
  }

  /** Equations that no message can tell two messages apart by: `u` differs from `t`, but only
      in unknown blocks and only in their first byte. */
  ghost predicate Twin(t: Blocks, u: Blocks, unknowns: set<nat>) {
    && IsMatrix(t, BLOCK) && IsBlocks(u, |t|) && u != t
    && forall i :: 0 <= i < |t| ==> if i in unknowns then u[i][1..] == t[i][1..] else u[i] == t[i]
  }

  lemma {:induction false} FlippedTwin(t: Blocks, z: set<nat>, col: nat, unknowns: set<nat>)
    requires IsMatrix(t, BLOCK) && col in z && col < |t| && z <= unknowns
    ensures Twin(t, Flipped(t, z), unknowns)
  {
    var u := Flipped(t, z);
    AddCancel(t[col][0], 1);
    assert u[col][0] == Add(t[col][0], 1) != t[col][0] by {
      AddCancel(t[col][0], Add(t[col][0], 1));
    }
    assert u[col] != t[col];
    forall i | 0 <= i < |t|
      ensures if i in unknowns then u[i][1..] == t[i][1..] else u[i] == t[i]
    {
      if i in z {
        forall j | 1 <= j < BLOCK
          ensures u[i][j] == t[i][j]
        {
          AddLaws(t[i][j], 0, 0);
        }
      }
    }
  }

  lemma {:induction false} NoPivot(t: Blocks, rows: seq<MaskRow>, cols: seq<nat>, pivots: seq<nat>, col: nat, unknowns: set<nat>)
    returns (u: Blocks)
    requires HoldsMasks(t, rows) && IsMatrix(t, BLOCK) && forall x :: x in unknowns ==> x < |t|
    requires Reduced(rows, cols, pivots) && col in unknowns
    requires forall c :: 0 <= c < |cols| ==> cols[c] in unknowns && cols[c] != col
    requires forall j :: 0 <= j < |rows| && col in rows[j].0 ==> j in pivots
    ensures Twin(t, u, unknowns) && HoldsMasks(u, rows)
  {
    hide HoldsMask, Flipped;
    var z := Together(rows, cols, pivots, col);
    u := Flipped(t, z);
    FlippedTwin(t, z, col, unknowns);
    forall i | 0 <= i < |rows|
      ensures HoldsMask(u, rows[i])
    {
      TogetherMeets(rows, cols, pivots, col, i);
      if rows[i].0 * z == {} {
        FlippedHolds(t, z, rows[i], 0, 0);
      } else {
        var c :| 0 <= c < |cols| && rows[i].0 * z == {cols[c], col};
        FlippedHolds(t, z, rows[i], cols[c], col);
      }
    }
  }

  // ---- The algorithm -------------------------------------------------------------------------------

  /** The bitsets of the waiting equations. */
  method ToMasks(pending: seq<Row>) returns (rows: seq<MaskRow>)
    ensures |rows| == |pending|
    ensures forall i :: 0 <= i < |rows| ==> rows[i] == (Members(pending[i].0), pending[i].1)
  {
    rows := [];
    for i := 0 to |pending|
      invariant |rows| == i
      invariant forall j :: 0 <= j < i ==> rows[j] == (Members(pending[j].0), pending[j].1)
    {
      var idx := pending[i].0;
      var mask: set<nat> := {};
      for a := 0 to |idx|
        invariant mask == Members(idx[..a])
      {
        assert idx[..a + 1] == idx[..a] + [idx[a]];
        mask := mask + {idx[a]};
      }
      assert idx[..|idx|] == idx;
      rows := rows + [(mask, pending[i].1)];
    }
  }

  method FindPivot(rows: seq<MaskRow>, col: nat, pivots: seq<nat>) returns (r: Option<nat>)
    ensures r.Some? ==> r.value < |rows| && col in rows[r.value].0 && r.value !in pivots
    ensures r.Some? ==> forall j :: 0 <= j < r.value && col in rows[j].0 ==> j in pivots
    ensures r.None? ==> forall j :: 0 <= j < |rows| && col in rows[j].0 ==> j in pivots
  {
    for i := 0 to |rows|
      invariant forall j :: 0 <= j < i && col in rows[j].0 ==> j in pivots
    {
      if col in rows[i].0 && i !in pivots {
        return Some(i);
      }
    }
    return None;
  }

  method ClearColumn(rows: seq<MaskRow>, piv: nat, col: nat) returns (r: seq<MaskRow>)
    requires piv < |rows| && forall i :: 0 <= i < |rows| ==> |rows[i].1| == BLOCK
    ensures r == Cleared(rows, piv, col)
  {
    hide AddV;
    r := rows;
    for i := 0 to |rows|
      invariant |r| == |rows|
      invariant forall j :: 0 <= j < i ==> r[j] == ClearedRow(rows, piv, col, j)
      invariant forall j :: i <= j < |rows| ==> r[j] == rows[j]
    {
      if i != piv && col in r[i].0 {
        r := r[i := (SymmetricDifference(r[i].0, rows[piv].0), AddV(r[i].1, rows[piv].1))];
      }
    }
  }

  /** Same solutions among messages of k blocks. */
  ghost predicate SameMasks(a: seq<MaskRow>, b: seq<MaskRow>) {
    forall t: Blocks :: HoldsMasks(t, a) <==> HoldsMasks(t, b)
  }

  /** Reduction to one unknown per pivot row; or, when some unknown has no pivot, every message
      that satisfies the equations has a twin that does. */
  method ReduceMasks(rows0: seq<MaskRow>, cols: seq<nat>, ghost k: nat) returns (r: Option<(seq<MaskRow>, seq<nat>)>)
    requires Distinct(cols) && MasksOk(rows0, Members(cols)) && forall c :: 0 <= c < |cols| ==> cols[c] < k
    ensures r.Some? ==> Reduced(r.value.0, cols, r.value.1) && MasksOk(r.value.0, Members(cols))
    ensures r.Some? ==> SameMasks(r.value.0, rows0)
    ensures r.None? ==> forall t: Blocks :: IsBlocks(t, k) && HoldsMasks(t, rows0) ==>
      exists u: Blocks :: Twin(t, u, Members(cols)) && HoldsMasks(u, rows0)
  {
    hide HoldsMasks, Twin;
    var rows, pivots := rows0, [];
    for c := 0 to |cols|
      invariant Reduced(rows, cols[..c], pivots) && MasksOk(rows, Members(cols))
      invariant SameMasks(rows, rows0)
    {
      var col := cols[c];
      assert cols[..c + 1] == cols[..c] + [col];
      var piv := FindPivot(rows, col, pivots);
      if piv.None? {
        forall t: Blocks | IsBlocks(t, k) && HoldsMasks(t, rows0)
          ensures exists u: Blocks :: Twin(t, u, Members(cols)) && HoldsMasks(u, rows0)
        {
          assert HoldsMasks(t, rows);
          assert forall d :: 0 <= d < c ==> cols[..c][d] == cols[d] && cols[d] in Members(cols);
          var u := NoPivot(t, rows, cols[..c], pivots, col, Members(cols));
          assert HoldsMasks(u, rows);
        }
        return None;
      }
      ClearedReduced(rows, cols[..c], pivots, col, piv.value);
      ClearedOk(rows, piv.value, col, Members(cols));
      forall t: Blocks
        ensures HoldsMasks(t, Cleared(rows, piv.value, col)) <==> HoldsMasks(t, rows)
      {
        ClearedHolds(t, rows, piv.value, col);
      }
      rows := ClearColumn(rows, piv.value, col);
      pivots := pivots + [piv.value];
    }
    assert cols[..|cols|] == cols;
    return Some((rows, pivots));
  }

  /** After reduction a pivot row has exactly one unknown. */
  lemma {:induction false} PivotRow(rows: seq<MaskRow>, cols: seq<nat>, pivots: seq<nat>, c: nat)
    requires Reduced(rows, cols, pivots) && MasksOk(rows, Members(cols)) && c < |cols|
    ensures rows[pivots[c]].0 == {cols[c]}
  {
    var mask := rows[pivots[c]].0;
    assert ColumnDone(rows, cols[c], pivots[c]);
    forall x | x in mask
      ensures x == cols[c]
    {
      assert x in Members(cols);
      var d :| 0 <= d < |cols| && cols[d] == x;
      assert ColumnDone(rows, cols[d], pivots[d]);
      assert pivots[d] == pivots[c];
    }
  }
}
