/**
The linear systems over GF(2) behind the carousel decoder. A message is k blocks of 200
bytes; a drop is the exclusive or of some of them. A system is given by its solutions.
*/
module CarouselSystem {
  import opened Bytes
  import opened Sequences
  import opened Wrappers
  import opened LinearAlgebra

  const BLOCK := 200

  type Blocks = seq<Vec>

  ghost predicate IsBlocks(t: Blocks, k: nat) {
    |t| == k && IsMatrix(t, BLOCK)
  }

  // ---- Exclusive or of selected blocks ------------------------------------------------

  ghost function Selected(t: Blocks, s: set<nat>, i: nat): (v: Vec)
    requires i < |t| && IsMatrix(t, BLOCK)
    ensures |v| == BLOCK
  {
    if i in s then t[i] else Zeros(BLOCK)
  }

  /** The exclusive or of the blocks below n whose index is in s. */
  ghost function XorOver(t: Blocks, s: set<nat>, n: nat): (v: Vec)
    requires n <= |t| && IsMatrix(t, BLOCK)
    ensures |v| == BLOCK
  {
    if n == 0 then Zeros(BLOCK)
    else AddV(XorOver(t, s, n - 1), Selected(t, s, n - 1))
  }

  function SymmetricDifference(a: set<nat>, b: set<nat>): set<nat> {
    (a - b) + (b - a)
  }

  lemma {:induction false} AddVSelf(v: Vec)
    ensures AddV(v, v) == Zeros(|v|)
  {
    forall i | 0 <= i < |v|
      ensures Add(v[i], v[i]) == 0
    {
      AddLaws(v[i], 0, 0);
    }
  }

  lemma {:induction false} AddVCancel(u: Vec, v: Vec)
    requires |u| == |v|
    ensures AddV(AddV(u, v), v) == u
  {
    hide AddV;
    AddVLaws(u, v, v);
    AddVSelf(v);
    AddVLaws(u, u, u);
  }

  lemma {:induction false} SelectedDifference(t: Blocks, a: set<nat>, b: set<nat>, i: nat)
    requires i < |t| && IsMatrix(t, BLOCK)
    ensures Selected(t, SymmetricDifference(a, b), i) == AddV(Selected(t, a, i), Selected(t, b, i))
  {
    hide AddV;
    AddVSelf(t[i]);
    AddVLaws(t[i], t[i], t[i]);
    AddVLaws(Zeros(BLOCK), Zeros(BLOCK), Zeros(BLOCK));
  }

  lemma {:induction false} XorDifference(t: Blocks, a: set<nat>, b: set<nat>, n: nat)
    requires n <= |t| && IsMatrix(t, BLOCK)
    ensures XorOver(t, SymmetricDifference(a, b), n) == AddV(XorOver(t, a, n), XorOver(t, b, n))
  {
    hide AddV, SymmetricDifference, Selected;
    if n == 0 {
      AddVLaws(Zeros(BLOCK), Zeros(BLOCK), Zeros(BLOCK));
    } else {
      XorDifference(t, a, b, n - 1);
      SelectedDifference(t, a, b, n - 1);
      AddVSwap(XorOver(t, a, n - 1), XorOver(t, b, n - 1), Selected(t, a, n - 1), Selected(t, b, n - 1));
    }
  }

  lemma {:induction false} XorNone(t: Blocks, s: set<nat>, n: nat)
    requires n <= |t| && IsMatrix(t, BLOCK) && forall i :: i in s ==> i >= n
    ensures XorOver(t, s, n) == Zeros(BLOCK)
  {
    hide AddV;
    if n > 0 {
      XorNone(t, s, n - 1);
      AddVLaws(Zeros(BLOCK), Zeros(BLOCK), Zeros(BLOCK));
    }
  }

  lemma {:induction false} XorSingle(t: Blocks, i: nat, n: nat)
    requires i < n <= |t| && IsMatrix(t, BLOCK)
    ensures XorOver(t, {i}, n) == t[i]
  {
    hide AddV;
    if i == n - 1 {
      XorNone(t, {i}, n - 1);
    } else {
      XorSingle(t, i, n - 1);
    }
    AddVLaws(t[i], t[i], t[i]);
  }

  /** Taking one block out of a selection. */
  lemma {:induction false} XorWithout(t: Blocks, s: set<nat>, i: nat)
    requires i < |t| && IsMatrix(t, BLOCK) && i in s
    ensures XorOver(t, s - {i}, |t|) == AddV(XorOver(t, s, |t|), t[i])
  {
    hide AddV, XorOver;
    assert s - {i} == SymmetricDifference(s, {i});
    XorDifference(t, s, {i}, |t|);
    XorSingle(t, i, |t|);
  }

  // ---- Systems -----------------------------------------------------------------------------

  /** An equation still waiting: its unknowns and their exclusive or. */
  type Row = (seq<nat>, Vec)

  /** A block found, not yet recorded. */
  type Find = (nat, Vec)

  ghost predicate HoldsRow(t: Blocks, row: Row)
    requires IsMatrix(t, BLOCK)
  {
    XorOver(t, Members(row.0), |t|) == row.1
  }

  ghost predicate Agrees(t: Blocks, solved: seq<Option<Vec>>) {
    |t| == |solved| && forall i :: 0 <= i < |t| && solved[i].Some? ==> t[i] == solved[i].value
  }

  ghost predicate HoldsFind(t: Blocks, f: Find) {
    f.0 < |t| && t[f.0] == f.1
  }

  ghost predicate Solution(t: Blocks, solved: seq<Option<Vec>>, rows: seq<Row>, finds: seq<Find>) {
    && IsBlocks(t, |solved|)
    && Agrees(t, solved)
    && (forall i :: 0 <= i < |rows| ==> HoldsRow(t, rows[i]))
    && (forall i :: 0 <= i < |finds| ==> HoldsFind(t, finds[i]))
  }

  ghost function Solutions(solved: seq<Option<Vec>>, rows: seq<Row>, finds: seq<Find>): iset<Blocks> {
    iset t: Blocks | Solution(t, solved, rows, finds)
  }

  /** A system with solutions is replaced by one with the same solutions. */
  ghost predicate Keeps(a: iset<Blocks>, b: iset<Blocks>) {
    a != iset{} ==> b == a
  }

  // ---- Peeling -------------------------------------------------------------------------------

  /** A waiting equation has at least two unknowns, distinct and all unsolved. */
  ghost predicate RowOk(row: Row, solved: seq<Option<Vec>>) {
    && |row.0| >= 2 && Distinct(row.0)
    && |row.1| == BLOCK
    && forall a :: 0 <= a < |row.0| ==> row.0[a] < |solved| && solved[row.0[a]].None?
  }

  ghost predicate RowsOk(rows: seq<Row>, solved: seq<Option<Vec>>) {
    forall i :: 0 <= i < |rows| ==> RowOk(rows[i], solved)
  }

  ghost predicate FindsOk(finds: seq<Find>, k: nat) {
    forall i :: 0 <= i < |finds| ==> finds[i].0 < k && |finds[i].1| == BLOCK
  }

  ghost predicate SolvedOk(solved: seq<Option<Vec>>) {
    forall i :: 0 <= i < |solved| && solved[i].Some? ==> |solved[i].value| == BLOCK
  }

  /** The equation with a known block moved to the other side. */
  function Substituted(row: Row, pos: nat, w: Vec): Row
    requires pos < |row.0| && |row.1| == |w|
  {
    (SwapRemove(row.0, pos), AddV(row.1, w))
  }

  lemma {:induction false} SubstitutedHolds(t: Blocks, row: Row, pos: nat, w: Vec)
    requires IsMatrix(t, BLOCK) && Distinct(row.0) && pos < |row.0| && row.0[pos] < |t| && t[row.0[pos]] == w
    requires |row.1| == BLOCK
    ensures HoldsRow(t, Substituted(row, pos, w)) <==> HoldsRow(t, row)
  {
    hide XorOver, AddV, SwapRemove;
    var b := row.0[pos];
    SwapRemoveMembers(row.0, pos);
    assert Members(SwapRemove(row.0, pos)) == Members(row.0) - {b};
    assert b in Members(row.0);
    XorWithout(t, Members(row.0), b);
    AddVCancel(XorOver(t, Members(row.0), |t|), w);
    AddVCancel(row.1, w);
  }

  lemma {:induction false} SingleHolds(t: Blocks, row: Row)
    requires IsMatrix(t, BLOCK) && |row.0| == 1 && row.0[0] < |t|
    ensures HoldsRow(t, row) <==> HoldsFind(t, (row.0[0], row.1))
  {
    hide XorOver;
    assert Members(row.0) == {row.0[0]};
    XorSingle(t, row.0[0], |t|);
  }

  /** Substituting a known block into one equation keeps the solutions. */
  lemma {:induction false} SubstitutedKeeps(solved: seq<Option<Vec>>, rows: seq<Row>, finds: seq<Find>, i: nat, pos: nat, w: Vec)
    requires i < |rows| && Distinct(rows[i].0) && pos < |rows[i].0| && |rows[i].1| == BLOCK == |w|
    requires rows[i].0[pos] < |solved| && solved[rows[i].0[pos]] == Some(w)
    ensures Solutions(solved, rows[i := Substituted(rows[i], pos, w)], finds) == Solutions(solved, rows, finds)
  {
    hide XorOver, HoldsRow, Substituted;
    var next := rows[i := Substituted(rows[i], pos, w)];
    forall t: Blocks | IsBlocks(t, |solved|) && Agrees(t, solved)
      ensures Solution(t, solved, next, finds) <==> Solution(t, solved, rows, finds)
    {
      SubstitutedHolds(t, rows[i], pos, w);
      forall j | 0 <= j < |rows|
        ensures HoldsRow(t, next[j]) <==> HoldsRow(t, rows[j])
      {
      }
    }
  }

  /** An equation in one unknown is a block found. */
  lemma {:induction false} FoundKeeps(solved: seq<Option<Vec>>, rows: seq<Row>, finds: seq<Find>, i: nat)
    requires i < |rows| && |rows[i].0| == 1 && rows[i].0[0] < |solved|
    ensures Solutions(solved, SwapRemove(rows, i), finds + [(rows[i].0[0], rows[i].1)]) == Solutions(solved, rows, finds)
  {
    hide XorOver, HoldsRow;
    var next, more := SwapRemove(rows, i), finds + [(rows[i].0[0], rows[i].1)];
    forall t: Blocks | IsBlocks(t, |solved|)
      ensures Solution(t, solved, next, more) <==> Solution(t, solved, rows, finds)
    {
      SingleHolds(t, rows[i]);
      if Solution(t, solved, rows, finds) {
        assert forall j :: 0 <= j < |next| ==> next[j] == rows[if j == i then |rows| - 1 else j];
      }
      if Solution(t, solved, next, more) {
        assert more[|finds|] == (rows[i].0[0], rows[i].1);
        assert forall j :: 0 <= j < |finds| ==> finds[j] == more[j];
        assert forall j :: 0 <= j < |rows| && j != i ==> rows[j] == next[if j == |rows| - 1 then i else j];
      }
    }
  }

  /** Recording a found block keeps the solutions. */
  lemma {:induction false} RecordKeeps(solved: seq<Option<Vec>>, rows: seq<Row>, finds: seq<Find>, b: nat, w: Vec)
    requires b < |solved| && solved[b].None?
    ensures Solutions(solved[b := Some(w)], rows, finds) == Solutions(solved, rows, finds + [(b, w)])
  {
    hide XorOver, HoldsRow;
    var next, more := solved[b := Some(w)], finds + [(b, w)];
    forall t: Blocks
      ensures Solution(t, next, rows, finds) <==> Solution(t, solved, rows, more)
    {
      if Solution(t, next, rows, finds) {
        assert next[b].Some? && t[b] == w;
        assert forall i :: 0 <= i < |t| && solved[i].Some? ==> next[i] == solved[i];
      }
      if Solution(t, solved, rows, more) {
        assert HoldsFind(t, more[|finds|]);
        assert forall j :: 0 <= j < |finds| ==> finds[j] == more[j];
      }
    }
  }

  /** A block found again adds nothing, as long as the system has a solution. */
  lemma {:induction false} RepeatKeeps(solved: seq<Option<Vec>>, rows: seq<Row>, finds: seq<Find>, b: nat, w: Vec)
    requires b < |solved| && solved[b].Some?
    ensures Keeps(Solutions(solved, rows, finds + [(b, w)]), Solutions(solved, rows, finds))
  {
    hide XorOver, HoldsRow;
    var more := finds + [(b, w)];
    if s: Blocks :| Solution(s, solved, rows, more) {
      assert HoldsFind(s, more[|finds|]);
      assert solved[b].value == w;
      forall t: Blocks
        ensures Solution(t, solved, rows, finds) <==> Solution(t, solved, rows, more)
      {
        if Solution(t, solved, rows, more) {
          assert forall j :: 0 <= j < |finds| ==> finds[j] == more[j];
        }
      }
    } else {
      assert Solutions(solved, rows, more) == iset{};
    }
  }
}
