/**
`KaruselDecoder`: drops in any order become blocks, by peeling and, when peeling is stuck,
by elimination over GF(2).
*/
module KaruselDecoding {
  import opened Bytes
  import opened Sequences
  import opened Wrappers
  import opened LinearAlgebra
  import opened CarouselSystem
  import opened Elimination
  import Sampling

  const MAX_BLOCKS := 65_535

  /** A drop as received: which blocks it combines, and its bytes. */
  datatype Drop = Drop(idx: seq<nat>, payload: Vec)

  /** The payload cut or zero-filled to one block. */
  function Resized(payload: Vec): (v: Vec)
    ensures |v| == BLOCK
  {
    if |payload| >= BLOCK then payload[..BLOCK] else payload + Zeros(BLOCK - |payload|)
  }

  /** The drop is the exclusive or of the message's blocks at distinct indices. */
  ghost predicate Faithful(t: Blocks, d: Drop) {
    && IsMatrix(t, BLOCK)
    && Distinct(d.idx)
    && XorOver(t, Members(d.idx), |t|) == Resized(d.payload)
  }

  /** The messages of k blocks that all the drops are faithful to. */
  ghost function Explanations(history: seq<Drop>, k: nat): iset<Blocks> {
    iset t: Blocks | IsBlocks(t, k) && forall i :: 0 <= i < |history| ==> Faithful(t, history[i])
  }

  ghost function Faithfuls(s: iset<Blocks>, d: Drop): iset<Blocks> {
    iset t | t in s && Faithful(t, d)
  }

  /** A new drop narrows the explanations and a system that stands for them alike. */
  lemma {:induction false} DropKeeps(history: seq<Drop>, d: Drop, k: nat, s: iset<Blocks>, next: iset<Blocks>)
    requires Keeps(Explanations(history, k), s) && Keeps(Faithfuls(s, d), next)
    ensures Keeps(Explanations(history + [d], k), next)
  {
    hide Faithful;
    ExplanationsAppend(history, d, k);
    if t :| t in Faithfuls(Explanations(history, k), d) {
      assert t in Explanations(history, k);
      assert s == Explanations(history, k);
    } else {
      assert Explanations(history + [d], k) == iset{};
    }
  }

  lemma {:induction false} ExplanationsAppend(history: seq<Drop>, d: Drop, k: nat)
    ensures Explanations(history + [d], k) == Faithfuls(Explanations(history, k), d)
  {
    hide Faithful;
    var more := history + [d];
    forall t: Blocks | IsBlocks(t, k)
      ensures t in Explanations(more, k) <==> t in Explanations(history, k) && Faithful(t, d)
    {
      if t in Explanations(more, k) {
        assert Faithful(t, more[|history|]);
        assert forall i :: 0 <= i < |history| ==> history[i] == more[i];
      }
    }
  }

  function Count(solved: seq<Option<Vec>>): (n: nat)
    ensures n <= |solved|
  {
    if solved == [] then 0
    else Count(solved[..|solved| - 1]) + if solved[|solved| - 1].Some? then 1 else 0
  }

  lemma {:induction false} CountUpdate(solved: seq<Option<Vec>>, b: nat, w: Vec)
    requires b < |solved| && solved[b].None?
    ensures Count(solved[b := Some(w)]) == Count(solved) + 1
  {
    var l := |solved| - 1;
    if b < l {
      CountUpdate(solved[..l], b, w);
      assert solved[b := Some(w)][..l] == solved[..l][b := Some(w)];
    } else {
      assert solved[b := Some(w)][..l] == solved[..l];
    }
  }

  lemma {:induction false} CountFull(solved: seq<Option<Vec>>)
    ensures Count(solved) == |solved| <==> forall i :: 0 <= i < |solved| ==> solved[i].Some?
  {
    if solved != [] {
      var l := |solved| - 1;
      CountFull(solved[..l]);
      if forall i :: 0 <= i < l ==> solved[..l][i].Some? {
        assert forall i :: 0 <= i < l ==> solved[i].Some?;
      }
    }
  }

  // ---- Peeling ------------------------------------------------------------------------------

  method Position(s: seq<nat>, b: nat) returns (r: Option<nat>)
    ensures r.Some? ==> r.value < |s| && s[r.value] == b
    ensures r.None? ==> forall a :: 0 <= a < |s| ==> s[a] != b
  {
    for a := 0 to |s|
      invariant forall c :: 0 <= c < a ==> s[c] != b
    {
      if s[a] == b {
        return Some(a);
      }
    }
    return None;
  }

  /** A row that is in order apart from possibly still containing b. */
  ghost predicate RowOkBut(row: Row, solved: seq<Option<Vec>>, b: nat) {
    && |row.0| >= 2 && Distinct(row.0)
    && |row.1| == BLOCK
    && forall a :: 0 <= a < |row.0| ==> row.0[a] < |solved| && (row.0[a] == b || solved[row.0[a]].None?)
  }

  lemma {:induction false} SubstitutedOk(row: Row, pos: nat, w: Vec, solved: seq<Option<Vec>>)
    requires pos < |row.0| && |w| == BLOCK && RowOkBut(row, solved, row.0[pos])
    ensures var r := Substituted(row, pos, w);
      && |r.0| == |row.0| - 1 && |r.1| == BLOCK && Distinct(r.0)
      && (|r.0| >= 2 ==> RowOk(r, solved))
      && r.0[0] < |solved|
  {
    SwapRemoveDistinct(row.0, pos);
    var r := Substituted(row, pos, w);
    forall a | 0 <= a < |r.0|
      ensures r.0[a] < |solved| && solved[r.0[a]].None?
    {
      var c := if a == pos then |row.0| - 1 else a;
      assert r.0[a] == row.0[c];
    }
  }

  /** One sweep: the known block b is substituted into every waiting equation; equations left
      with a single unknown move to the list of finds. */
  method Sweep(solved: seq<Option<Vec>>, pending: seq<Row>, queue: seq<Find>, b: nat, w: Vec)
    returns (rows: seq<Row>, finds: seq<Find>)
    requires b < |solved| && solved[b] == Some(w) && |w| == BLOCK
    requires forall i :: 0 <= i < |pending| ==> RowOkBut(pending[i], solved, b)
    requires FindsOk(queue, |solved|)
    ensures RowsOk(rows, solved) && FindsOk(finds, |solved|)
    ensures |rows| + |finds| == |pending| + |queue|
    ensures Solutions(solved, rows, finds) == Solutions(solved, pending, queue)
  {
    hide Solutions, HoldsRow, Substituted;
    rows, finds := pending, queue;
    var i := 0;
    while i < |rows|
      invariant 0 <= i <= |rows| && |rows| + |finds| == |pending| + |queue|
      invariant forall j :: 0 <= j < i ==> RowOk(rows[j], solved)
      invariant forall j :: i <= j < |rows| ==> RowOkBut(rows[j], solved, b)
      invariant FindsOk(finds, |solved|)
      invariant Solutions(solved, rows, finds) == Solutions(solved, pending, queue)
      decreases |rows| - i
    {
      var pos := Position(rows[i].0, b);
      if pos.Some? {
        SubstitutedKeeps(solved, rows, finds, i, pos.value, w);
        SubstitutedOk(rows[i], pos.value, w, solved);
        rows := rows[i := Substituted(rows[i], pos.value, w)];
        if |rows[i].0| == 1 {
          FoundKeeps(solved, rows, finds, i);
          finds := finds + [(rows[i].0[0], rows[i].1)];
          rows := SwapRemove(rows, i);
          continue;
        }
      }
      i := i + 1;
    }
  }

  // ---- Reducing a drop by the known blocks ---------------------------------------------------

  /** Both sides of a drop's equation, moved to one side, with i more indices processed. */
  ghost predicate SameEquation(solved: seq<Option<Vec>>, done: seq<nat>, pay0: Vec, rem: seq<nat>, pay: Vec)
    requires |pay0| == |pay| == BLOCK
  {
    forall t: Blocks :: IsBlocks(t, |solved|) && Agrees(t, solved) ==>
      AddV(XorOver(t, Members(done), |t|), pay0) == AddV(XorOver(t, Members(rem), |t|), pay)
  }

  lemma {:induction false} MembersAppend(s: seq<nat>, i: nat)
    ensures Members(s + [i]) == Members(s) + {i}
  {
  }

  lemma {:induction false} XorWith(t: Blocks, s: set<nat>, i: nat)
    requires i < |t| && IsMatrix(t, BLOCK) && i !in s
    ensures XorOver(t, s + {i}, |t|) == AddV(XorOver(t, s, |t|), t[i])
  {
    hide XorOver, AddV;
    assert s + {i} == SymmetricDifference(s, {i});
    XorDifference(t, s, {i}, |t|);
    XorSingle(t, i, |t|);
  }

  lemma {:induction false} AddVRight(a: Vec, b: Vec, c: Vec)
    requires |a| == |b| == |c|
    ensures AddV(AddV(a, c), b) == AddV(AddV(a, b), c) == AddV(a, AddV(b, c))
  {
    hide AddV;
    AddVLaws(a, b, c);
    AddVLaws(a, c, b);
    AddVLaws(b, c, c);
  }

  lemma {:induction false} KnownStep(solved: seq<Option<Vec>>, done: seq<nat>, pay0: Vec, rem: seq<nat>, pay: Vec, i: nat)
    requires |pay0| == |pay| == BLOCK && SameEquation(solved, done, pay0, rem, pay)
    requires i < |solved| && solved[i].Some? && |solved[i].value| == BLOCK && i !in Members(done)
    ensures SameEquation(solved, done + [i], pay0, rem, AddV(pay, solved[i].value))
  {
    hide XorOver, AddV;
    MembersAppend(done, i);
    forall t: Blocks | IsBlocks(t, |solved|) && Agrees(t, solved)
      ensures AddV(XorOver(t, Members(done + [i]), |t|), pay0)
           == AddV(XorOver(t, Members(rem), |t|), AddV(pay, solved[i].value))
    {
      XorWith(t, Members(done), i);
      AddVRight(XorOver(t, Members(done), |t|), pay0, t[i]);
      AddVRight(XorOver(t, Members(rem), |t|), pay, t[i]);
    }
  }

  lemma {:induction false} UnknownStep(solved: seq<Option<Vec>>, done: seq<nat>, pay0: Vec, rem: seq<nat>, pay: Vec, i: nat)
    requires |pay0| == |pay| == BLOCK && SameEquation(solved, done, pay0, rem, pay)
    requires i < |solved| && i !in Members(done) && i !in Members(rem)
    ensures SameEquation(solved, done + [i], pay0, rem + [i], pay)
  {
    hide XorOver, AddV;
    MembersAppend(done, i);
    MembersAppend(rem, i);
    forall t: Blocks | IsBlocks(t, |solved|) && Agrees(t, solved)
      ensures AddV(XorOver(t, Members(done + [i]), |t|), pay0) == AddV(XorOver(t, Members(rem + [i]), |t|), pay)
    {
      XorWith(t, Members(done), i);
      XorWith(t, Members(rem), i);
      AddVRight(XorOver(t, Members(done), |t|), pay0, t[i]);
      AddVRight(XorOver(t, Members(rem), |t|), pay, t[i]);
    }
  }

  lemma {:induction false} EquationHolds(a: Vec, p: Vec, b: Vec, q: Vec)
    requires |a| == |p| == |b| == |q| && AddV(a, p) == AddV(b, q)
    ensures a == p <==> b == q
  {
    hide AddV;
    AddVSelf(p);
    AddVSelf(q);
    AddVCancel(a, p);
    AddVCancel(b, q);
    AddVLaws(p, p, p);
    AddVLaws(q, q, q);
  }

  /** What is left of a drop: its unsolved indices, and its payload without the solved blocks. */
  method Reduce(solved: seq<Option<Vec>>, idx: seq<nat>, payload: Vec) returns (rem: seq<nat>, pay: Vec)
    requires SolvedOk(solved) && forall a :: 0 <= a < |idx| ==> idx[a] < |solved|
    ensures Distinct(rem) && |pay| == BLOCK
    ensures forall a :: 0 <= a < |rem| ==> rem[a] < |solved| && solved[rem[a]].None?
    ensures Distinct(idx) ==> forall t: Blocks :: IsBlocks(t, |solved|) && Agrees(t, solved) ==>
      (Faithful(t, Drop(idx, payload)) <==> HoldsRow(t, (rem, pay)))
  {
    hide XorOver, AddV;
    ghost var pay0 := Resized(payload);
    rem, pay := [], Resized(payload);
    for j := 0 to |idx|
      invariant Distinct(rem) && |pay| == BLOCK
      invariant forall a :: 0 <= a < |rem| ==> rem[a] < |solved| && solved[rem[a]].None?
      invariant Members(rem) <= Members(idx[..j])
      invariant Distinct(idx) ==> SameEquation(solved, idx[..j], pay0, rem, pay)
    {
      var i := idx[j];
      assert idx[..j + 1] == idx[..j] + [i];
      MembersAppend(idx[..j], i);
      if solved[i].Some? {
        if Distinct(idx) {
          KnownStep(solved, idx[..j], pay0, rem, pay, i);
        }
        pay := AddV(pay, solved[i].value);
      } else if i !in rem {
        if Distinct(idx) {
          UnknownStep(solved, idx[..j], pay0, rem, pay, i);
        }
        MembersAppend(rem, i);
        rem := rem + [i];
      }
    }
    assert idx[..|idx|] == idx;
    if Distinct(idx) {
      forall t: Blocks | IsBlocks(t, |solved|) && Agrees(t, solved)
        ensures Faithful(t, Drop(idx, payload)) <==> HoldsRow(t, (rem, pay))
      {
        EquationHolds(XorOver(t, Members(idx), |t|), pay0, XorOver(t, Members(rem), |t|), pay);
      }
    }
  }

  // ---- What a reduced drop does to the system --------------------------------------------------

  /** For messages that agree with the solved blocks, the drop says what the row says. */
  ghost predicate Says(solved: seq<Option<Vec>>, d: Drop, row: Row) {
    forall t: Blocks :: IsBlocks(t, |solved|) && Agrees(t, solved) ==> (Faithful(t, d) <==> HoldsRow(t, row))
  }

  lemma {:induction false} NothingLeft(solved: seq<Option<Vec>>, rows: seq<Row>, d: Drop, pay: Vec)
    requires Says(solved, d, ([], pay))
    ensures Keeps(Faithfuls(Solutions(solved, rows, []), d), Solutions(solved, rows, []))
  {
    hide XorOver, Faithful;
    var s := Solutions(solved, rows, []);
    forall t | t in s
      ensures Faithful(t, d) <==> pay == Zeros(BLOCK)
    {
      assert Members([]) == {};
      XorNone(t, {}, |t|);
    }
    if Faithfuls(s, d) != iset{} {
      assert forall t :: t in s ==> t in Faithfuls(s, d);
    }
  }

  lemma {:induction false} OneLeft(solved: seq<Option<Vec>>, rows: seq<Row>, d: Drop, b: nat, pay: Vec)
    requires Says(solved, d, ([b], pay)) && b < |solved|
    ensures Faithfuls(Solutions(solved, rows, []), d) == Solutions(solved, rows, [(b, pay)])
  {
    hide XorOver, Faithful, HoldsRow;
    forall t: Blocks | IsBlocks(t, |solved|)
      ensures t in Faithfuls(Solutions(solved, rows, []), d) <==> t in Solutions(solved, rows, [(b, pay)])
    {
      SingleHolds(t, ([b], pay));
      if t in Solutions(solved, rows, [(b, pay)]) {
        assert HoldsFind(t, [(b, pay)][0]);
      }
    }
  }

  lemma {:induction false} MoreLeft(solved: seq<Option<Vec>>, rows: seq<Row>, d: Drop, row: Row)
    requires Says(solved, d, row)
    ensures Faithfuls(Solutions(solved, rows, []), d) == Solutions(solved, rows + [row], [])
  {
    hide XorOver, Faithful, HoldsRow;
    var more := rows + [row];
    forall t: Blocks | IsBlocks(t, |solved|)
      ensures t in Faithfuls(Solutions(solved, rows, []), d) <==> t in Solutions(solved, more, [])
    {
      if t in Solutions(solved, more, []) {
        assert HoldsRow(t, more[|rows|]);
        assert forall i :: 0 <= i < |rows| ==> rows[i] == more[i];
      }
    }
  }

  ghost predicate AllSolved(solved: seq<Option<Vec>>) {
    forall i :: 0 <= i < |solved| ==> solved[i].Some?
  }

  /** A decoder that knows every block has at most one solution. */
  lemma {:induction false} AtMostOne(solved: seq<Option<Vec>>, rows: seq<Row>, s: Blocks, t: Blocks)
    requires AllSolved(solved) && s in Solutions(solved, rows, []) && t in Solutions(solved, rows, [])
    ensures s == t
  {
    hide XorOver, HoldsRow;
    forall i | 0 <= i < |s|
      ensures s[i] == t[i]
    {
      assert solved[i].Some?;
    }
  }

  lemma {:induction false} NothingNew(solved: seq<Option<Vec>>, rows: seq<Row>, d: Drop)
    requires AllSolved(solved)
    ensures Keeps(Faithfuls(Solutions(solved, rows, []), d), Solutions(solved, rows, []))
  {
    hide Solutions, Faithful;
    var s := Solutions(solved, rows, []);
    if w :| w in Faithfuls(s, d) {
      forall t | t in s
        ensures t in Faithfuls(s, d)
      {
        AtMostOne(solved, rows, t, w);
      }
    } else {
      assert Faithfuls(s, d) == iset{};
    }
  }

  lemma {:induction false} RepeatedIndex(s: iset<Blocks>, d: Drop, next: iset<Blocks>)
    requires !Distinct(d.idx)
    ensures Keeps(Faithfuls(s, d), next)
  {
    assert Faithfuls(s, d) == iset{};
  }

  // ---- What elimination does to the system ----------------------------------------------------

  ghost predicate AreMasks(rows: seq<MaskRow>, pending: seq<Row>) {
    |rows| == |pending| && forall i :: 0 <= i < |rows| ==> rows[i] == (Members(pending[i].0), pending[i].1)
  }

  lemma {:induction false} MasksOfSystem(t: Blocks, rows: seq<MaskRow>, pending: seq<Row>)
    requires AreMasks(rows, pending) && IsMatrix(t, BLOCK)
    ensures HoldsMasks(t, rows) <==> forall i :: 0 <= i < |pending| ==> HoldsRow(t, pending[i])
  {
    hide XorOver;
    forall i | 0 <= i < |rows|
      ensures HoldsMask(t, rows[i]) <==> HoldsRow(t, pending[i])
    {
    }
  }

  lemma {:induction false} MasksAreOk(rows: seq<MaskRow>, pending: seq<Row>, solved: seq<Option<Vec>>, cols: seq<nat>)
    requires AreMasks(rows, pending) && RowsOk(pending, solved)
    requires forall i :: 0 <= i < |solved| && solved[i].None? ==> i in cols
    ensures MasksOk(rows, Members(cols))
  {
    forall i | 0 <= i < |rows|
      ensures rows[i].0 <= Members(cols) && |rows[i].1| == BLOCK
    {
      assert RowOk(pending[i], solved);
    }
  }

  /** A twin of a solution that satisfies the equations is a solution. */
  lemma {:induction false} TwinSolves(t: Blocks, u: Blocks, solved: seq<Option<Vec>>, pending: seq<Row>, rows: seq<MaskRow>, cols: seq<nat>)
    requires t in Solutions(solved, pending, []) && AreMasks(rows, pending)
    requires Twin(t, u, Members(cols)) && HoldsMasks(u, rows)
    requires forall c :: 0 <= c < |cols| ==> cols[c] < |solved| && solved[cols[c]].None?
    ensures u in Solutions(solved, pending, [])
  {
    hide XorOver, HoldsRow, HoldsMasks;
    MasksOfSystem(u, rows, pending);
    forall i | 0 <= i < |u| && solved[i].Some?
      ensures u[i] == solved[i].value
    {
      assert i !in Members(cols);
    }
  }

  /** Every unknown filled in from its pivot row. */
  ghost predicate Filled(next: seq<Option<Vec>>, solved: seq<Option<Vec>>, rows: seq<MaskRow>, cols: seq<nat>, pivots: seq<nat>) {
    && |next| == |solved|
    && |cols| == |pivots|
    && (forall c :: 0 <= c < |cols| ==> cols[c] < |next| && pivots[c] < |rows| && next[cols[c]] == Some(rows[pivots[c]].1))
    && (forall i :: 0 <= i < |solved| && i !in cols ==> next[i] == solved[i])
  }

  lemma {:induction false} FilledAgrees(t: Blocks, next: seq<Option<Vec>>, solved: seq<Option<Vec>>, rows: seq<MaskRow>, cols: seq<nat>, pivots: seq<nat>)
    requires IsBlocks(t, |solved|) && Agrees(t, solved) && HoldsMasks(t, rows)
    requires Filled(next, solved, rows, cols, pivots) && Reduced(rows, cols, pivots) && MasksOk(rows, Members(cols))
    ensures Agrees(t, next)
  {
    hide XorOver;
    forall i | 0 <= i < |t| && next[i].Some?
      ensures t[i] == next[i].value
    {
      if i in cols {
        var c :| 0 <= c < |cols| && cols[c] == i;
        PivotRow(rows, cols, pivots, c);
        assert HoldsMask(t, rows[pivots[c]]);
        XorSingle(t, i, |t|);
      }
    }
  }

  /** Filling in every unknown and dropping the equations keeps a system with solutions. */
  lemma {:induction false} FilledKeeps(next: seq<Option<Vec>>, solved: seq<Option<Vec>>, pending: seq<Row>, masks: seq<MaskRow>,
                                       rows: seq<MaskRow>, cols: seq<nat>, pivots: seq<nat>)
    requires AreMasks(masks, pending) && SameMasks(rows, masks) && AllSolved(next)
    requires Filled(next, solved, rows, cols, pivots) && Reduced(rows, cols, pivots) && MasksOk(rows, Members(cols))
    ensures Keeps(Solutions(solved, pending, []), Solutions(next, [], []))
  {
    hide XorOver, HoldsRow, HoldsMasks, Agrees, Reduced, MasksOk;
    var old_, new_ := Solutions(solved, pending, []), Solutions(next, [], []);
    forall t | t in old_
      ensures t in new_
    {
      MasksOfSystem(t, masks, pending);
      assert HoldsMasks(t, rows);
      FilledAgrees(t, next, solved, rows, cols, pivots);
    }
    if w :| w in old_ {
      forall t | t in new_
        ensures t in old_
      {
        AtMostOne(next, [], t, w);
      }
    } else {
      assert old_ == iset{};
    }
  }

  method Unknowns(solved: seq<Option<Vec>>) returns (cols: seq<nat>)
    ensures forall a, c :: 0 <= a < c < |cols| ==> cols[a] < cols[c]
    ensures forall c :: 0 <= c < |cols| ==> cols[c] < |solved| && solved[cols[c]].None?
    ensures forall i :: 0 <= i < |solved| && solved[i].None? ==> i in cols
  {
    cols := [];
    for i := 0 to |solved|
      invariant forall a, c :: 0 <= a < c < |cols| ==> cols[a] < cols[c]
      invariant forall c :: 0 <= c < |cols| ==> cols[c] < i && solved[cols[c]].None?
      invariant forall j :: 0 <= j < i && solved[j].None? ==> j in cols
    {
      if solved[i].None? {
        cols := cols + [i];
      }
    }
  }

  /** Reads every unknown off its pivot row. The guard against a row with several unknowns
      never fires. */
  method FillIn(solved: seq<Option<Vec>>, rows: seq<MaskRow>, cols: seq<nat>, pivots: seq<nat>)
    returns (ok: bool, next: seq<Option<Vec>>, count: nat)
    requires SolvedOk(solved) && Distinct(cols)
    requires forall c :: 0 <= c < |cols| ==> cols[c] < |solved| && solved[cols[c]].None?
    requires Reduced(rows, cols, pivots) && MasksOk(rows, Members(cols))
    ensures ok && Filled(next, solved, rows, cols, pivots) && SolvedOk(next)
    ensures count == Count(next)
  {
    next, count := solved, Count(solved);
    for c := 0 to |cols|
      invariant |next| == |solved| && SolvedOk(next) && count == Count(next)
      invariant forall d :: 0 <= d < c ==> next[cols[d]] == Some(rows[pivots[d]].1)
      invariant forall d :: c <= d < |cols| ==> next[cols[d]].None?
      invariant forall i :: 0 <= i < |solved| && i !in cols ==> next[i] == solved[i]
    {
      PivotRow(rows, cols, pivots, c);
      if |rows[pivots[c]].0| != 1 {
        return false, next, count;
      }
      CountUpdate(next, cols[c], rows[pivots[c]].1);
      next := next[cols[c] := Some(rows[pivots[c]].1)];
      count := count + 1;
    }
    return true, next, count;
  }

  // ---- Messages ---------------------------------------------------------------------------------

  function Joined(t: Blocks): Vec {
    if t == [] then [] else Joined(t[..|t| - 1]) + t[|t| - 1]
  }

  lemma {:induction false} JoinedLength(t: Blocks)
    requires IsMatrix(t, BLOCK)
    ensures |Joined(t)| == |t| * BLOCK
  {
    if t != [] {
      JoinedLength(t[..|t| - 1]);
    }
  }

  /** The message of n bytes in a list of blocks. */
  ghost function Message(t: Blocks, n: nat): Vec
    requires IsMatrix(t, BLOCK) && n <= |t| * BLOCK
  {
    JoinedLength(t);
    Joined(t)[..n]
  }

  predicate Addressed(idx: seq<nat>, k: nat) {
    idx != [] && forall a :: 0 <= a < |idx| ==> idx[a] < k
  }

  // ---- Frames -----------------------------------------------------------------------------------

  const HEADER := 20
  /** "BDLMQRV1AB" */
  const FRAME_MAGIC: Vec := [66, 68, 76, 77, 81, 82, 86, 49, 65, 66]

  /** Sequence number, flags and payload of a well-formed frame. */
  function Parsed(frame: Vec): (r: Option<(nat, byte, Vec)>) {
    if |frame| < HEADER || frame[10..20] != FRAME_MAGIC then None
    else
      var len := FromLe(frame[8..10]);
      if |frame| != HEADER + len || len > BLOCK then None
      else Some((FromLe(frame[0..4]), frame[6], frame[HEADER..]))
  }

  /** The blocks a frame names: by its flag either one block or the blocks of a repair drop. */
  ghost function Named(k: nat, seqno: nat, flags: byte): seq<nat>
    requires 0 < k <= MAX_BLOCKS
  {
    if flags % 2 == 1 then Sampling.Composition(k, seqno) else [seqno % k]
  }

  lemma {:induction false} NamedAddressed(k: nat, seqno: nat, flags: byte)
    requires 0 < k <= MAX_BLOCKS
    ensures Addressed(Named(k, seqno, flags), k) && Distinct(Named(k, seqno, flags))
  {
    hide Sampling.Composition;
    Sampling.CompositionPicks(k, seqno);
  }

  /** The drop a frame delivers. */
  ghost function Delivered(frame: Vec, k: nat): seq<Drop>
    requires 0 < k <= MAX_BLOCKS
  {
    match Parsed(frame)
    case None => []
    case Some((seqno, flags, payload)) => [Drop(Named(k, seqno, flags), payload)]
  }

  class KaruselDecoder {
    const k: nat
    const totalLen: nat
    var solved: seq<Option<Vec>>
    var solvedCount: nat
    var pending: seq<Row>
    ghost var history: seq<Drop>

    /** The counter is exact and every waiting equation has two or more distinct unsolved blocks. */
    ghost predicate WellFormed()
      reads this
    {
      && 0 < k <= MAX_BLOCKS && 0 < totalLen <= k * BLOCK
      && |solved| == k && SolvedOk(solved)
      && solvedCount == Count(solved)
      && RowsOk(pending, solved)
    }

    ghost function System(): iset<Blocks>
      reads this
    {
      Solutions(solved, pending, [])
    }

    /** As long as some message explains the drops received, the decoder's equations have
        exactly the messages that explain them as solutions. */
    ghost predicate Valid()
      reads this
    {
      WellFormed() && Keeps(Explanations(history, k), System())
    }

    constructor (k: nat, totalLen: nat)
      requires 0 < k <= MAX_BLOCKS && 0 < totalLen <= k * BLOCK
      ensures Valid() && this.k == k && this.totalLen == totalLen && history == []
      ensures solvedCount == 0 && pending == []
    {
      this.k := k;
      this.totalLen := totalLen;
      this.solved := seq(k, _ => None);
      this.solvedCount := 0;
      this.pending := [];
      this.history := [];
      new;
      CountNone(this.solved);
    }

    /** A decoder for 1 to 65535 blocks and a length that is not zero and fits into them. */
    static method New(k: nat, totalLen: nat) returns (r: Option<KaruselDecoder>)
      ensures r.Some? <==> 0 < k <= 65_535 && 0 < totalLen <= k * 200
      ensures r.Some? ==> fresh(r.value) && r.value.Valid() && r.value.history == []
      ensures r.Some? ==> r.value.k == k && r.value.totalLen == totalLen
    {
      if k == 0 || k > MAX_BLOCKS || totalLen == 0 || totalLen > k * BLOCK {
        return None;
      }
      var dec := new KaruselDecoder(k, totalLen);
      return Some(dec);
    }

    static lemma {:induction false} CountNone(solved: seq<Option<Vec>>)
      requires forall i :: 0 <= i < |solved| ==> solved[i].None?
      ensures Count(solved) == 0
    {
      if solved != [] {
        CountNone(solved[..|solved| - 1]);
      }
    }

    predicate IsComplete()
      reads this
    {
      solvedCount >= k
    }

    /** The peeling cascade: a found block is recorded and substituted, which may find more. */
    method Resolve(b0: nat, w0: Vec)
      requires WellFormed() && b0 < k && |w0| == BLOCK
      modifies this`solved, this`solvedCount, this`pending
      ensures WellFormed()
      ensures Keeps(Solutions(old(solved), old(pending), [(b0, w0)]), System())
    {
      hide Solutions;
      var queue: seq<Find> := [(b0, w0)];
      ghost var start := Solutions(solved, pending, queue);
      while queue != []
        invariant WellFormed() && FindsOk(queue, k)
        invariant Keeps(start, Solutions(solved, pending, queue))
        decreases |queue| + |pending|
      {
        var rest := queue[..|queue| - 1];
        var (b, w) := queue[|queue| - 1];
        assert queue == rest + [(b, w)];
        if solved[b].Some? {
          RepeatKeeps(solved, pending, rest, b, w);
          queue := rest;
        } else {
          RecordKeeps(solved, pending, rest, b, w);
          CountUpdate(solved, b, w);
          solved := solved[b := Some(w)];
          solvedCount := solvedCount + 1;
          pending, queue := Sweep(solved, pending, rest, b, w);
        }
      }
    }

    /** A drop that names blocks of the message is recorded in the history and its equation
        enters the system; other drops change nothing. */
    method AddDrop(idx: seq<nat>, payload: Vec)
      requires Valid()
      modifies this
      ensures Valid()
      ensures history == if Addressed(idx, k) then old(history) + [Drop(idx, payload)] else old(history)
    {
      hide Solutions, Explanations, Faithfuls, Faithful, HoldsRow;
      if !Addressed(idx, k) {
        return;
      }
      ghost var d := Drop(idx, payload);
      ghost var before := System();
      if IsComplete() {
        CountFull(solved);
        NothingNew(solved, pending, d);
      } else {
        var rem, pay := Reduce(solved, idx, payload);
        if Distinct(idx) {
          assert Says(solved, d, (rem, pay));
        }
        match |rem|
        case 0 =>
          if Distinct(idx) {
            assert rem == [];
            NothingLeft(solved, pending, d, pay);
          }
        case 1 =>
          if Distinct(idx) {
            assert rem == [rem[0]];
            OneLeft(solved, pending, d, rem[0], pay);
          }
          Resolve(rem[0], pay);
        case _ =>
          if Distinct(idx) {
            MoreLeft(solved, pending, d, (rem, pay));
          }
          pending := pending + [(rem, pay)];
      }
      if !Distinct(idx) {
        RepeatedIndex(before, d, System());
      }
      DropKeeps(history, d, k, before, System());
      history := history + [d];
    }

    /** A well-formed frame delivers its drop; any other frame is dropped silently. */
    method AddFrame(frame: Vec) returns (ok: bool)
      requires Valid()
      modifies this
      ensures Valid()
      ensures ok <==> Parsed(frame).Some?
      ensures history == old(history) + Delivered(frame, k)
    {
      hide Sampling.Composition, Explanations, Solutions;
      var parsed := Parsed(frame);
      if parsed.None? {
        return false;
      }
      var (seqno, flags, payload) := parsed.value;
      NamedAddressed(k, seqno, flags);
      var idx: seq<nat>;
      if flags % 2 == 1 {
        idx := Sampling.Draw(k, seqno);
      } else {
        idx := [seqno % k];
      }
      AddDrop(idx, payload);
      return true;
    }

    /** Elimination completes the decoder, or changes nothing: then every solution has a twin. */
    method Eliminate() returns (ok: bool)
      requires Valid()
      modifies this`solved, this`solvedCount, this`pending
      ensures Valid()
      ensures ok ==> IsComplete()
      ensures !ok ==> solved == old(solved) && pending == old(pending) && solvedCount == old(solvedCount)
      ensures !ok ==> HaveTwins(System(), Unsolved())
    {
      hide Solutions, HoldsMasks, Twin, Explanations;
      if IsComplete() {
        return true;
      }
      var masks := ToMasks(pending);
      var cols := Unknowns(solved);
      MasksAreOk(masks, pending, solved, cols);
      assert Members(cols) == Unsolved();
      var r := ReduceMasks(masks, cols, k);
      if r.None? {
        forall t | t in System()
          ensures exists u :: u in System() && Twin(t, u, Unsolved())
        {
          SolutionShape(t, solved, pending, masks);
          var u: Blocks :| Twin(t, u, Members(cols)) && HoldsMasks(u, masks);
          TwinSolves(t, u, solved, pending, masks, cols);
        }
        return false;
      }
      var fill, next, count := FillIn(solved, r.value.0, cols, r.value.1);
      FilledAll(next, solved, r.value.0, cols, r.value.1);
      FilledKeeps(next, solved, pending, masks, r.value.0, cols, r.value.1);
      CountFull(next);
      solved, solvedCount, pending := next, count, [];
      return true;
    }

    ghost function Unsolved(): set<nat>
      reads this
    {
      set i | 0 <= i < |solved| && solved[i].None?
    }

    static lemma {:induction false} SolutionShape(t: Blocks, solved: seq<Option<Vec>>, pending: seq<Row>, masks: seq<MaskRow>)
      requires t in Solutions(solved, pending, []) && AreMasks(masks, pending)
      ensures IsBlocks(t, |solved|) && HoldsMasks(t, masks)
    {
      hide HoldsRow, HoldsMasks;
      MasksOfSystem(t, masks, pending);
    }

    static lemma {:induction false} FilledAll(next: seq<Option<Vec>>, solved: seq<Option<Vec>>, rows: seq<MaskRow>, cols: seq<nat>, pivots: seq<nat>)
      requires Filled(next, solved, rows, cols, pivots)
      requires forall i :: 0 <= i < |solved| && solved[i].None? ==> i in cols
      ensures AllSolved(next)
    {
    }

    /** The original, or nothing. Never wrong data: a result is the message of every explanation
        of the drops received. Never needlessly nothing: if the drops have an explanation, there
        is a result exactly when they have only one. */
    method Assemble() returns (r: Option<Vec>)
      requires Valid()
      modifies this`solved, this`solvedCount, this`pending
      ensures Valid()
      ensures r.Some? ==> forall t :: t in Explanations(history, k) ==> r.value == Message(t, totalLen)
      ensures Explanations(history, k) != iset{} ==> (r.Some? <==> Determined(history, k))
      ensures r.None? ==> HaveTwins(Explanations(history, k), Unsolved())
      ensures r.None? ==> solved == old(solved) && pending == old(pending) && solvedCount == old(solvedCount)
    {
      hide Solutions, Twin, Explanations, Determined, Message, HaveTwins;
      if !IsComplete() {
        var ok := Eliminate();
        if !ok {
          TwinsUndetermine(history, k, System(), Unsolved());
          return None;
        }
      }
      var out := JoinSolved();
      return Some(out);
    }

    /** The blocks of a complete decoder, joined. */
    method JoinSolved() returns (out: Vec)
      requires Valid() && IsComplete()
      ensures Determined(history, k)
      ensures forall t :: t in Explanations(history, k) ==> out == Message(t, totalLen)
    {
      hide Solutions, Explanations, Determined, Message;
      CountFull(solved);
      SolvedDetermines(history, k, solved, pending, totalLen);
      out := Join(solved, totalLen);
    }
  }

  ghost function Found(solved: seq<Option<Vec>>): (t: Blocks)
    requires AllSolved(solved)
    ensures |t| == |solved| && forall i :: 0 <= i < |t| ==> t[i] == solved[i].value
  {
    seq(|solved|, i requires 0 <= i < |solved| => solved[i].value)
  }

  /** Blocks joined until n bytes are there. */
  method Join(solved: seq<Option<Vec>>, n: nat) returns (out: Vec)
    requires AllSolved(solved) && SolvedOk(solved) && 0 < n <= |solved| * BLOCK
    ensures IsMatrix(Found(solved), BLOCK) && out == Message(Found(solved), n)
  {
    ghost var t := Found(solved);
    out := [];
    var i := 0;
    JoinedLength(t);
    while i < |solved|
      invariant 0 <= i <= |solved|
      invariant |out| == i * BLOCK < n && out == Joined(t[..i])
    {
      var take := if n - |out| < BLOCK then n - |out| else BLOCK;
      JoinedPrefix(t, i + 1);
      assert t[..i + 1][..i] == t[..i];
      out := out + solved[i].value[..take];
      i := i + 1;
      if |out| >= n {
        break;
      }
    }
  }

  lemma {:induction false} JoinedPrefix(t: Blocks, i: nat)
    requires IsMatrix(t, BLOCK) && i <= |t|
    ensures Joined(t[..i]) <= Joined(t) && |Joined(t[..i])| == i * BLOCK
  {
    JoinedLength(t[..i]);
    if i < |t| {
      JoinedPrefix(t[..|t| - 1], i);
      assert t[..|t| - 1][..i] == t[..i];
    } else {
      assert t[..i] == t;
    }
  }

  lemma {:induction false} SolvedMessage(t: Blocks, solved: seq<Option<Vec>>, rows: seq<Row>, n: nat)
    requires AllSolved(solved) && t in Solutions(solved, rows, [])
    ensures t == Found(solved)
  {
    hide HoldsRow;
    forall i | 0 <= i < |t|
      ensures t[i] == solved[i].value
    {
      assert solved[i].Some?;
    }
  }

  lemma {:induction false} SolvedDetermines(history: seq<Drop>, k: nat, solved: seq<Option<Vec>>, rows: seq<Row>, n: nat)
    requires AllSolved(solved) && SolvedOk(solved) && Keeps(Explanations(history, k), Solutions(solved, rows, []))
    requires n <= |solved| * BLOCK && k == |solved|
    ensures IsMatrix(Found(solved), BLOCK) && Determined(history, k)
    ensures forall t :: t in Explanations(history, k) ==> Message(t, n) == Message(Found(solved), n)
  {
    hide Solutions, Explanations, Message;
    forall s, t | s in Explanations(history, k) && t in Explanations(history, k)
      ensures s == t == Found(solved)
    {
      SolvedMessage(t, solved, rows, n);
      AtMostOne(solved, rows, s, t);
    }
  }

  /** Every message in the set has a twin in the set. */
  ghost predicate HaveTwins(s: iset<Blocks>, unknowns: set<nat>) {
    forall t :: t in s ==> exists u :: u in s && Twin(t, u, unknowns)
  }

  lemma {:induction false} TwinsUndetermine(history: seq<Drop>, k: nat, s: iset<Blocks>, unknowns: set<nat>)
    requires Keeps(Explanations(history, k), s) && HaveTwins(s, unknowns)
    ensures HaveTwins(Explanations(history, k), unknowns)
    ensures Explanations(history, k) != iset{} ==> !Determined(history, k)
  {
    hide Explanations, Twin;
    if t :| t in Explanations(history, k) {
      var u :| u in s && Twin(t, u, unknowns);
      TwinDiffers(t, u, unknowns);
    } else {
      assert Explanations(history, k) == iset{};
    }
  }

  /** At most one message explains the drops. */
  ghost predicate Determined(history: seq<Drop>, k: nat) {
    forall s, t :: s in Explanations(history, k) && t in Explanations(history, k) ==> s == t
  }

  lemma {:induction false} TwinDiffers(t: Blocks, u: Blocks, unknowns: set<nat>)
    requires Twin(t, u, unknowns)
    ensures t != u
  {
  }

  /** What explains the drops depends on which drops arrived, not on their order or repetition. */
  lemma {:induction false} OrderDoesNotMatter(h: seq<Drop>, g: seq<Drop>, k: nat)
    requires forall d :: d in h <==> d in g
    ensures Explanations(h, k) == Explanations(g, k)
    ensures Determined(h, k) <==> Determined(g, k)
  {
    hide Faithful;
    forall t: Blocks
      ensures t in Explanations(h, k) <==> t in Explanations(g, k)
    {
      if t in Explanations(h, k) {
        ExplainsSubset(t, h, g, k);
      }
      if t in Explanations(g, k) {
        ExplainsSubset(t, g, h, k);
      }
    }
  }

  lemma {:induction false} ExplainsSubset(t: Blocks, h: seq<Drop>, g: seq<Drop>, k: nat)
    requires t in Explanations(h, k) && forall d :: d in g ==> d in h
    ensures t in Explanations(g, k)
  {
    hide Faithful;
    forall i | 0 <= i < |g|
      ensures Faithful(t, g[i])
    {
      assert g[i] in h;
      var j :| 0 <= j < |h| && h[j] == g[i];
    }
  }

  // ---- Twins as messages ---------------------------------------------------------------------------

  /** The blocks of a message of n bytes: zero from byte n on. */
  ghost predicate Padded(t: Blocks, n: nat) {
    && IsMatrix(t, BLOCK) && n <= |t| * BLOCK
    && forall i :: n <= i < |Joined(t)| ==> Joined(t)[i] == 0
  }

  lemma {:induction false} JoinedAt(t: Blocks, i: nat, j: nat)
    requires IsMatrix(t, BLOCK) && i < |t| && j < BLOCK
    ensures |Joined(t)| == |t| * BLOCK && i * BLOCK + j < |Joined(t)| && Joined(t)[i * BLOCK + j] == t[i][j]
  {
    JoinedLength(t);
    var l := |t| - 1;
    JoinedLength(t[..l]);
    if i < l {
      JoinedAt(t[..l], i, j);
    }
  }

  /** With k = ceil(n / 200), as the sender chooses it, twins are different messages of n bytes,
      and a twin of a zero-padded message is zero-padded. */
  lemma {:induction false} TwinMessages(t: Blocks, u: Blocks, unknowns: set<nat>, n: nat)
    requires Twin(t, u, unknowns) && (|t| - 1) * BLOCK < n <= |t| * BLOCK
    ensures Message(t, n) != Message(u, n)
    ensures Padded(t, n) ==> Padded(u, n)
  {
    var i :| 0 <= i < |t| && t[i] != u[i];
    assert t[i] == [t[i][0]] + t[i][1..];
    assert u[i] == [u[i][0]] + u[i][1..];
    assert t[i][0] != u[i][0];
    JoinedAt(t, i, 0);
    JoinedAt(u, i, 0);
    FirstByteInside(i, |t|, n);
    assert Message(t, n)[i * BLOCK] != Message(u, n)[i * BLOCK];
    if Padded(t, n) {
      forall p | n <= p < |Joined(u)|
        ensures Joined(u)[p] == 0
      {
        TailAgrees(t, u, unknowns, n, p);
      }
    }
  }

  lemma {:induction false} FirstByteInside(i: nat, k: nat, n: nat)
    requires i < k && (k - 1) * BLOCK < n
    ensures i * BLOCK < n
  {
  }

  lemma {:induction false} TailAgrees(t: Blocks, u: Blocks, unknowns: set<nat>, n: nat, p: nat)
    requires Twin(t, u, unknowns) && (|t| - 1) * BLOCK < n <= p < |Joined(u)|
    ensures p < |Joined(t)| && Joined(t)[p] == Joined(u)[p]
  {
    JoinedLength(u);
    var l := |t| - 1;
    var j := p - l * BLOCK;
    JoinedAt(t, l, j);
    JoinedAt(u, l, j);
    assert t[l][1..][j - 1] == t[l][j] && u[l][1..][j - 1] == u[l][j];
    assert t[l][1..] == u[l][1..];
  }
}
