/**
Cutting content at structural boundaries (records, lines or fixed blocks) and merging pieces
that are too small. Joining the pieces gives back the content, whatever its kind.
*/
module Structure {
  import opened Bytes
  import opened Arithmetic
  import opened Chunking
  import opened Hashing

  datatype StructuralKind = Json | Csv | Log | Text | Binary

  datatype StructuralChunk = StructuralChunk(contentId: Digest, data: seq<byte>)

  /** The tag "BDLM_CONTENT_V1", the length and the bytes. */
  function ContentInput(bytes: seq<byte>): seq<byte> {
    [0x42, 0x44, 0x4C, 0x4D, 0x5F, 0x43, 0x4F, 0x4E, 0x54, 0x45, 0x4E, 0x54, 0x5F, 0x56, 0x31]
    + Le(|bytes|, 8) + bytes
  }

  function ContentId(h: Hash, bytes: seq<byte>): Digest {
    h(ContentInput(bytes))
  }

  lemma {:induction false} ContentInputInjective(a: seq<byte>, b: seq<byte>)
    requires ContentInput(a) == ContentInput(b)
    ensures a == b
  {
    assert a == ContentInput(a)[23..] && b == ContentInput(b)[23..];
  }

  function ChunkOf(h: Hash, piece: seq<byte>): StructuralChunk {
    StructuralChunk(ContentId(h, piece), piece)
  }

  function ChunksOf(h: Hash, pieces: seq<seq<byte>>): (chunks: seq<StructuralChunk>)
    ensures |chunks| == |pieces|
  {
    seq(|pieces|, i requires 0 <= i < |pieces| => ChunkOf(h, pieces[i]))
  }

  function Datas(chunks: seq<StructuralChunk>): (pieces: seq<seq<byte>>)
    ensures |pieces| == |chunks|
  {
    seq(|chunks|, i requires 0 <= i < |chunks| => chunks[i].data)
  }

  lemma {:induction false} DatasOfChunks(h: Hash, pieces: seq<seq<byte>>)
    ensures Datas(ChunksOf(h, pieces)) == pieces
  {
  }

  // ---- Where content is cut --------------------------------------------------------------------

  const QUOTE: byte := 0x22
  const COMMA: byte := 0x2C
  const BACKSLASH: byte := 0x5C
  const NEWLINE: byte := 0x0A

  /** Nesting depth, and whether the scan is inside a string or behind a backslash. */
  datatype Scan = Scan(depth: int, inStr: bool, esc: bool)

  /** Arithmetic of a 32-bit depth. */
  function Wrap32(x: int): int {
    if x >= 0x8000_0000 then x - 0x1_0000_0000
    else if x < -0x8000_0000 then x + 0x1_0000_0000
    else x
  }

  function InString(s: Scan, c: byte): Scan {
    if c == QUOTE && !s.esc then s.(inStr := !s.inStr)
    else if c == BACKSLASH && s.inStr then s.(esc := !s.esc)
    else s.(esc := false)
  }

  function Nesting(s: Scan, c: byte): Scan {
    if s.inStr then s
    else if c == 0x7B || c == 0x5B then s.(depth := Wrap32(s.depth + 1))
    else if c == 0x7D || c == 0x5D then s.(depth := Wrap32(s.depth - 1))
    else s
  }

  function ScanTo(data: seq<byte>, i: nat): Scan
    requires i <= |data|
  {
    if i == 0 then Scan(0, false, false)
    else Nesting(InString(ScanTo(data, i - 1), data[i - 1]), data[i - 1])
  }

  /** A record begins at a comma at depth 1 outside strings. */
  predicate RecordCut(data: seq<byte>, i: nat) {
    i < |data| && data[i] == COMMA && !ScanTo(data, i).inStr && ScanTo(data, i).depth == 1
  }

  predicate LineCut(data: seq<byte>, i: nat) {
    0 < i < |data| && data[i - 1] == NEWLINE
  }

  predicate BlockCut(data: seq<byte>, i: nat) {
    i < |data| && i % 65536 == 0
  }

  /** The three ways of cutting. */
  datatype Rule = Records | Lines | Blocks

  predicate IsCut(rule: Rule, data: seq<byte>, i: nat) {
    match rule
    case Records => RecordCut(data, i)
    case Lines => LineCut(data, i)
    case Blocks => BlockCut(data, i)
  }

  /** JSON that is not UTF-8 is cut like binary content. */
  function RuleFor(kind: StructuralKind, data: seq<byte>, utf8: seq<byte> -> bool): Rule {
    match kind
    case Json => if utf8(data) then Records else Blocks
    case Binary => Blocks
    case _ => Lines
  }

  // ---- Pieces and boundaries ------------------------------------------------------------------

  /** One piece ends and the next begins at position i. */
  ghost predicate Boundary(pieces: seq<seq<byte>>, i: nat) {
    exists k :: 0 < k < |pieces| && |Concat(pieces[..k])| == i
  }

  /** The pieces make up the first n bytes, none is empty, and they meet exactly at the cuts. */
  ghost predicate Splits(data: seq<byte>, n: nat, pieces: seq<seq<byte>>, rule: Rule) {
    && n <= |data| && Concat(pieces) == data[..n]
    && (forall k :: 0 <= k < |pieces| ==> pieces[k] != [])
    && (forall i :: 0 < i < n ==> (IsCut(rule, data, i) <==> Boundary(pieces, i)))
  }

  lemma {:induction false} BoundaryBelow(pieces: seq<seq<byte>>, k: nat)
    requires k < |pieces| && forall i :: 0 <= i < |pieces| ==> pieces[i] != []
    ensures |Concat(pieces[..k])| < |Concat(pieces)|
  {
    assert pieces == pieces[..k] + pieces[k..];
    ConcatAppend(pieces[..k], pieces[k..]);
  }

  lemma {:induction false} ConcatOne<T>(piece: seq<T>)
    ensures Concat([piece]) == piece
  {
    assert [piece][1..] == [];
    assert Concat<T>([]) == [];
  }

  lemma {:induction false} BoundaryAppend(pieces: seq<seq<byte>>, piece: seq<byte>, i: nat)
    requires forall k :: 0 <= k < |pieces| ==> pieces[k] != []
    ensures Boundary(pieces + [piece], i) <==>
      Boundary(pieces, i) || (pieces != [] && i == |Concat(pieces)|)
  {
    var more := pieces + [piece];
    assert more[..|pieces|] == pieces;
    assert forall k :: 0 <= k <= |pieces| ==> more[..k] == pieces[..k];
    if Boundary(pieces, i) {
      var k :| 0 < k < |pieces| && |Concat(pieces[..k])| == i;
      assert |Concat(more[..k])| == i;
    }
    if Boundary(more, i) {
      var k :| 0 < k < |more| && |Concat(more[..k])| == i;
      assert k == |pieces| || |Concat(pieces[..k])| == i;
    }
    if pieces != [] && i == |Concat(pieces)| {
      assert |Concat(more[..|pieces|])| == i;
    }
  }

  /** The next piece reaches from the last cut to the next one. */
  lemma {:induction false} PushPiece(data: seq<byte>, start: nat, i: nat, pieces: seq<seq<byte>>, rule: Rule)
    requires Splits(data, start, pieces, rule) && start < i <= |data|
    requires start > 0 ==> IsCut(rule, data, start)
    requires forall j :: start < j < i ==> !IsCut(rule, data, j)
    ensures Splits(data, i, pieces + [data[start..i]], rule)
  {
    hide Boundary, Concat, IsCut;
    var piece := data[start..i];
    ConcatOne(piece);
    ConcatAppend(pieces, [piece]);
    assert data[..i] == data[..start] + piece;
    assert pieces == [] ==> start == 0 by {
      NoPieces(pieces);
    }
    forall j | 0 < j < i
      ensures IsCut(rule, data, j) <==> Boundary(pieces + [piece], j)
    {
      BoundaryAppend(pieces, piece, j);
      NotBeyond(pieces, j);
    }
  }

  lemma {:induction false} NoPieces(pieces: seq<seq<byte>>)
    ensures pieces == [] ==> Concat(pieces) == []
  {
  }

  lemma {:induction false} NotBeyond(pieces: seq<seq<byte>>, j: nat)
    requires forall i :: 0 <= i < |pieces| ==> pieces[i] != []
    ensures Boundary(pieces, j) ==> j < |Concat(pieces)|
    ensures pieces != [] ==> Concat(pieces) != []
  {
    if Boundary(pieces, j) {
      var k :| 0 < k < |pieces| && |Concat(pieces[..k])| == j;
      BoundaryBelow(pieces, k);
    }
  }

  // ---- The pieces ------------------------------------------------------------------------------

  /** The last cut before n, or the beginning. */
  ghost function LastCut(rule: Rule, data: seq<byte>, n: nat): (j: nat)
    requires n > 0
    ensures j < n && (j > 0 ==> IsCut(rule, data, j)) && forall i :: j < i < n ==> !IsCut(rule, data, i)
  {
    if n == 1 || IsCut(rule, data, n - 1) then n - 1 else LastCut(rule, data, n - 1)
  }

  /** The pieces of the first n bytes: up to the last cut, and from there on. */
  ghost function Pieces(rule: Rule, data: seq<byte>, n: nat): (pieces: seq<seq<byte>>)
    requires n <= |data|
    ensures Splits(data, n, pieces, rule)
  {
    if n == 0 then NothingSplit(data, rule); []
    else
      var j := LastCut(rule, data, n);
      PushPiece(data, j, n, Pieces(rule, data, j), rule);
      Pieces(rule, data, j) + [data[j..n]]
  }

  lemma {:induction false} NothingSplit(data: seq<byte>, rule: Rule)
    ensures Splits(data, 0, [], rule)
  {
  }

  /** There is only one way of cutting content exactly at the cuts. */
  lemma {:induction false} SplitsUnique(data: seq<byte>, n: nat, pieces: seq<seq<byte>>, rule: Rule)
    requires Splits(data, n, pieces, rule)
    ensures pieces == Pieces(rule, data, n)
  {
    hide Boundary, Concat, IsCut, Pieces;
    if pieces == [] {
      NoPieces(pieces);
      NoBytes(rule, data);
    } else {
      NotBeyond(pieces, 0);
      var front, last := pieces[..|pieces| - 1], pieces[|pieces| - 1];
      assert pieces == front + [last];
      ConcatAppend(front, [last]);
      ConcatOne(last);
      var s := |Concat(front)|;
      LastStart(data, n, front, last, rule);
      assert front == Pieces(rule, data, s) by {
        SplitsUnique(data, s, front, rule);
      }
      PiecesStep(rule, data, n);
      assert last == data[..n][s..];
    }
  }

  lemma {:induction false} NoBytes(rule: Rule, data: seq<byte>)
    ensures Pieces(rule, data, 0) == []
  {
  }

  lemma {:induction false} PiecesStep(rule: Rule, data: seq<byte>, n: nat)
    requires 0 < n <= |data|
    ensures var j := LastCut(rule, data, n); Pieces(rule, data, n) == Pieces(rule, data, j) + [data[j..n]]
  {
  }

  /** The last piece starts at the last cut, and the others split what precedes it. */
  lemma {:induction false} LastStart(data: seq<byte>, n: nat, front: seq<seq<byte>>, last: seq<byte>, rule: Rule)
    requires Splits(data, n, front + [last], rule) && Concat(front + [last]) == Concat(front) + last && last != []
    ensures |Concat(front)| < n && |Concat(front)| == LastCut(rule, data, n)
    ensures Splits(data, |Concat(front)|, front, rule)
  {
    hide Boundary, Concat, IsCut;
    var pieces, s := front + [last], |Concat(front)|;
    forall k | 0 <= k < |front|
      ensures front[k] != []
    {
      assert front[k] == pieces[k];
    }
    assert data[..n][..s] == Concat(front);
    NotBeyond(front, 0);
    NoPieces(front);
    forall i | 0 < i < n
      ensures IsCut(rule, data, i) <==> Boundary(front, i) || (front != [] && i == s)
    {
      BoundaryAppend(front, last, i);
    }
    forall i | 0 < i
      ensures Boundary(front, i) ==> i < s
    {
      NotBeyond(front, i);
    }
    var j := LastCut(rule, data, n);
    assert s > 0 ==> IsCut(rule, data, s);
    NotBeyond(front, j);
  }

  // ---- Cutting ---------------------------------------------------------------------------------

  method SplitJson(data: seq<byte>) returns (out: seq<seq<byte>>)
    requires data != []
    ensures Splits(data, |data|, out, Records)
  {
    hide Splits;
    out := [];
    NothingSplit(data, Records);
    var start, depth, inStr, esc := 0, 0, false, false;
    for i := 0 to |data|
      invariant start <= i && ScanTo(data, i) == Scan(depth, inStr, esc)
      invariant start == 0 || (RecordCut(data, start) && start < i)
      invariant forall j :: start < j < i ==> !RecordCut(data, j)
      invariant Splits(data, start, out, Records)
    {
      var c := data[i];
      if c == QUOTE && !esc {
        inStr := !inStr;
      } else if c == BACKSLASH && inStr {
        esc := !esc;
      } else {
        esc := false;
      }
      if !inStr {
        if c == 0x7B || c == 0x5B {
          depth := Wrap32(depth + 1);
        } else if c == 0x7D || c == 0x5D {
          depth := Wrap32(depth - 1);
        } else if c == COMMA && depth == 1 {
          assert RecordCut(data, i);
          if i > start {
            PushPiece(data, start, i, out, Records);
            out := out + [data[start..i]];
          }
          start := i;
        }
      }
    }
    PushPiece(data, start, |data|, out, Records);
    assert data[start..|data|] == data[start..];
    out := out + [data[start..]];
  }

  /** Every line keeps its line feed. */
  method SplitLines(data: seq<byte>) returns (out: seq<seq<byte>>)
    ensures Splits(data, |data|, out, Lines)
  {
    hide Splits;
    out := [];
    NothingSplit(data, Lines);
    var start := 0;
    for i := 0 to |data|
      invariant start <= i && (start == 0 || data[start - 1] == NEWLINE)
      invariant forall j :: start <= j < i ==> data[j] != NEWLINE
      invariant Splits(data, start, out, Lines)
    {
      if data[i] == NEWLINE {
        PushPiece(data, start, i + 1, out, Lines);
        out := out + [data[start..i + 1]];
        start := i + 1;
      }
    }
    if start < |data| {
      PushPiece(data, start, |data|, out, Lines);
      out := out + [data[start..|data|]];
    }
  }

  method SplitFixed(data: seq<byte>) returns (out: seq<seq<byte>>)
    ensures Splits(data, |data|, out, Blocks)
  {
    hide Splits;
    out := [];
    NothingSplit(data, Blocks);
    var start := 0;
    while start < |data|
      invariant start <= |data| && (start % 65536 == 0 || start == |data|)
      invariant Splits(data, start, out, Blocks)
    {
      var end := if start + 65536 < |data| then start + 65536 else |data|;
      PushPiece(data, start, end, out, Blocks);
      out := out + [data[start..end]];
      start := end;
    }
  }

  /** The pieces of any content of any kind, cut exactly where the kind says. */
  method StructuralSplit(h: Hash, utf8: seq<byte> -> bool, kind: StructuralKind, data: seq<byte>)
    returns (out: seq<StructuralChunk>)
    ensures out == ChunksOf(h, Datas(out))
    ensures Datas(out) == Pieces(RuleFor(kind, data, utf8), data, |data|)
  {
    hide Splits, ContentId, Pieces;
    if data == [] {
      NoBytes(RuleFor(kind, data, utf8), data);
      assert Datas([]) == [];
      return [];
    }
    var pieces;
    if kind.Json? && utf8(data) {
      pieces := SplitJson(data);
    } else if kind.Json? || kind.Binary? {
      pieces := SplitFixed(data);
    } else {
      pieces := SplitLines(data);
    }
    SplitsUnique(data, |data|, pieces, RuleFor(kind, data, utf8));
    out := ChunksOf(h, pieces);
    DatasOfChunks(h, pieces);
  }

  /** Joining is concatenation for every kind. */
  method StructuralJoin(chunks: seq<StructuralChunk>) returns (out: seq<byte>)
    ensures out == Concat(Datas(chunks))
  {
    out := [];
    for i := 0 to |chunks|
      invariant out == Concat(Datas(chunks[..i]))
    {
      assert Datas(chunks[..i + 1]) == Datas(chunks[..i]) + [chunks[i].data];
      ConcatAppend(Datas(chunks[..i]), [chunks[i].data]);
      ConcatOne(chunks[i].data);
      out := out + chunks[i].data;
    }
    assert chunks[..|chunks|] == chunks;
  }

  // ---- Merging small pieces ------------------------------------------------------------------------

  function AtLeast1(m: nat): nat {
    if m == 0 then 1 else m
  }

  /** How many pieces of a list go together: j of them, and as many more as fit into m. */
  function RunLength(pieces: seq<seq<byte>>, j: nat, m: nat): (r: nat)
    requires 1 <= j <= |pieces|
    ensures j <= r <= |pieces|
    decreases |pieces| - j
  {
    if j < |pieces| && |Concat(pieces[..j + 1])| <= AtLeast1(m) then RunLength(pieces, j + 1, m) else j
  }

  /** The first piece with as many of the following as fit into m together, and so on with the rest. */
  function MergedPieces(pieces: seq<seq<byte>>, m: nat): seq<seq<byte>> {
    if pieces == [] then []
    else
      var j := RunLength(pieces, 1, m);
      [Concat(pieces[..j])] + MergedPieces(pieces[j..], m)
  }

  lemma {:induction false} RunReaches(pieces: seq<seq<byte>>, j: nat, n: nat, m: nat)
    requires 1 <= j <= n <= |pieces| && (j == n || |Concat(pieces[..n])| <= AtLeast1(m))
    requires n == |pieces| || |Concat(pieces[..n + 1])| > AtLeast1(m)
    ensures RunLength(pieces, j, m) == n
    decreases n - j
  {
    hide Concat;
    if j < n {
      ConcatGrows(pieces, j + 1, n);
      RunReaches(pieces, j + 1, n, m);
    }
  }

  lemma {:induction false} ConcatGrows(pieces: seq<seq<byte>>, i: nat, n: nat)
    requires i <= n <= |pieces|
    ensures |Concat(pieces[..i])| <= |Concat(pieces[..n])|
  {
    hide Concat;
    assert pieces[..n] == pieces[..i] + pieces[i..n];
    ConcatAppend(pieces[..i], pieces[i..n]);
  }

  /** A run that fits, or a single piece, is merged if the next piece would be too much. */
  lemma {:induction false} FirstRun(run: seq<seq<byte>>, rest: seq<seq<byte>>, m: nat)
    requires run != [] && (|run| == 1 || |Concat(run)| <= AtLeast1(m))
    requires rest == [] || |Concat(run)| + |rest[0]| > AtLeast1(m)
    ensures MergedPieces(run + rest, m) == [Concat(run)] + MergedPieces(rest, m)
  {
    hide Concat;
    var pieces, n := run + rest, |run|;
    assert pieces[..n] == run && pieces[n..] == rest;
    if rest != [] {
      assert pieces[..n + 1] == run + [rest[0]];
      ConcatAppend(run, [rest[0]]);
      ConcatOne(rest[0]);
    }
    RunReaches(pieces, 1, n, m);
  }

  /** Each output piece is a run of input pieces, several only where they fit into m together, and
      no two neighbours in the output would fit. */
  ghost predicate Merged(pieces: seq<seq<byte>>, runs: seq<seq<seq<byte>>>, out: seq<seq<byte>>, m: nat) {
    && |runs| == |out| && Concat(runs) == pieces
    && (forall k :: 0 <= k < |out| ==> out[k] == Concat(runs[k]) && out[k] != [])
    && (forall k :: 0 <= k < |out| ==> |runs[k]| == 1 || |out[k]| <= AtLeast1(m))
    && Loose(out, m)
  }

  ghost predicate Loose(out: seq<seq<byte>>, m: nat) {
    forall k :: 0 <= k < |out| - 1 ==> |out[k]| + |out[k + 1]| > AtLeast1(m)
  }

  ghost predicate Compacted(pieces: seq<seq<byte>>, out: seq<seq<byte>>, m: nat) {
    exists runs :: Merged(pieces, runs, out, m)
  }

  ghost predicate NoneEmpty(pieces: seq<seq<byte>>) {
    forall k :: 0 <= k < |pieces| ==> pieces[k] != []
  }

  /** Where the first run ends it is a single piece or fits, and the next piece does not fit. */
  lemma {:induction false} RunEnds(pieces: seq<seq<byte>>, j: nat, m: nat)
    requires 1 <= j <= |pieces| && (j == 1 || |Concat(pieces[..j])| <= AtLeast1(m))
    ensures var r := RunLength(pieces, j, m);
      && (r == 1 || |Concat(pieces[..r])| <= AtLeast1(m))
      && (r < |pieces| ==> |Concat(pieces[..r])| + |pieces[r]| > AtLeast1(m))
    decreases |pieces| - j
  {
    hide Concat;
    if j < |pieces| {
      assert pieces[..j + 1] == pieces[..j] + [pieces[j]];
      ConcatAppend(pieces[..j], [pieces[j]]);
      ConcatOne(pieces[j]);
      if |Concat(pieces[..j + 1])| <= AtLeast1(m) {
        RunEnds(pieces, j + 1, m);
      }
    }
  }

  /** What the merge of nonempty pieces is like. */
  lemma {:induction false} MergedIsCompacted(pieces: seq<seq<byte>>, m: nat) returns (runs: seq<seq<seq<byte>>>)
    requires NoneEmpty(pieces)
    ensures Merged(pieces, runs, MergedPieces(pieces, m), m)
    ensures pieces != [] ==> MergedPieces(pieces, m) != [] && |MergedPieces(pieces, m)[0]| >= |pieces[0]|
    decreases |pieces|
  {
    hide Concat, RunLength, MergedPieces, Merged;
    NothingToMerge(m);
    if pieces == [] {
      runs := [];
      NothingMerged(m);
    } else {
      var j := RunLength(pieces, 1, m);
      var run, rest := pieces[..j], pieces[j..];
      RunEnds(pieces, 1, m);
      var more := MergedIsCompacted(rest, m);
      runs := [run] + more;
      FirstPieceInside(run);
      FirstMerged(pieces, m);
      PrependRun(run, rest, more, MergedPieces(rest, m), m);
      assert run + rest == pieces;
    }
  }

  lemma {:induction false} FirstMerged(pieces: seq<seq<byte>>, m: nat)
    requires pieces != []
    ensures var j := RunLength(pieces, 1, m);
      MergedPieces(pieces, m) == [Concat(pieces[..j])] + MergedPieces(pieces[j..], m)
  {
  }

  lemma {:induction false} NothingMerged(m: nat)
    ensures Merged([], [], [], m)
  {
  }

  lemma {:induction false} FirstPieceInside(run: seq<seq<byte>>)
    requires run != []
    ensures |Concat(run)| >= |run[0]|
  {
  }

  lemma {:induction false} PrependRun(run: seq<seq<byte>>, rest: seq<seq<byte>>, more: seq<seq<seq<byte>>>, out: seq<seq<byte>>, m: nat)
    requires Merged(rest, more, out, m) && Concat(run) != [] && (|run| == 1 || |Concat(run)| <= AtLeast1(m))
    requires out != [] ==> |Concat(run)| + |out[0]| > AtLeast1(m)
    ensures Merged(run + rest, [run] + more, [Concat(run)] + out, m)
  {
    hide Concat;
    ConcatAppend([run], more);
    ConcatOne(run);
  }

  /** What is left of the merge after some output, with a run gathered and more pieces to come. */
  ghost predicate Remains(all: seq<seq<byte>>, out: seq<seq<byte>>, run: seq<seq<byte>>, rest: seq<seq<byte>>, m: nat) {
    all == out + MergedPieces(run + rest, m)
  }

  lemma {:induction false} Gather(all: seq<seq<byte>>, out: seq<seq<byte>>, run: seq<seq<byte>>, next: seq<byte>,
                                  rest: seq<seq<byte>>, m: nat)
    requires Remains(all, out, run, [next] + rest, m)
    ensures Remains(all, out, run + [next], rest, m) && Concat(run + [next]) == Concat(run) + next
  {
    hide Concat, MergedPieces;
    assert run + ([next] + rest) == (run + [next]) + rest;
    ConcatAppend(run, [next]);
    ConcatOne(next);
  }

  lemma {:induction false} Flush(all: seq<seq<byte>>, out: seq<seq<byte>>, run: seq<seq<byte>>, rest: seq<seq<byte>>, m: nat)
    requires Remains(all, out, run, rest, m) && run != [] && |Concat(run)| <= AtLeast1(m)
    requires rest == [] || |Concat(run)| + |rest[0]| > AtLeast1(m)
    ensures Remains(all, out + [Concat(run)], [], rest, m)
  {
    hide Concat, MergedPieces;
    FirstRun(run, rest, m);
    assert [] + rest == rest;
  }

  lemma {:induction false} Lone(all: seq<seq<byte>>, out: seq<seq<byte>>, next: seq<byte>, rest: seq<seq<byte>>, m: nat)
    requires Remains(all, out, [], [next] + rest, m) && |next| >= m && next != [] && (rest == [] || rest[0] != [])
    ensures Remains(all, out + [next], [], rest, m)
  {
    hide Concat, MergedPieces;
    ConcatOne(next);
    FirstRun([next], rest, m);
    assert [] + ([next] + rest) == [next] + rest && [] + rest == rest;
  }

  /** The merge, piece by piece with an accumulator. */
  method Compact(h: Hash, raw: seq<StructuralChunk>, m: nat) returns (out: seq<StructuralChunk>)
    requires raw == ChunksOf(h, Datas(raw)) && NoneEmpty(Datas(raw))
    ensures out == ChunksOf(h, MergedPieces(Datas(raw), m))
  {
    hide ContentId, Concat, MergedPieces, Remains, ChunksOf;
    ghost var datas := Datas(raw);
    ghost var all := MergedPieces(datas, m);
    var pieces := [];
    var acc: seq<byte> := [];
    ghost var run: seq<seq<byte>> := [];
    NoPieces(run);
    NothingYet(datas, m);
    for c := 0 to |raw|
      invariant Remains(all, pieces, run, datas[c..], m)
      invariant acc == Concat(run) && (acc == [] <==> run == []) && |acc| <= AtLeast1(m)
    {
      var next := raw[c].data;
      ghost var rest := datas[c + 1..];
      assert datas[c] == next && datas[c..] == [next] + rest;
      if acc == [] && |next| >= m {
        Lone(all, pieces, next, rest, m);
        pieces := pieces + [next];
      } else if |acc| + |next| <= AtLeast1(m) {
        Gather(all, pieces, run, next, rest, m);
        acc, run := acc + next, run + [next];
      } else {
        if acc != [] {
          Flush(all, pieces, run, [next] + rest, m);
          pieces := pieces + [acc];
        }
        run := [];
        NoPieces(run);
        if |next| >= m {
          Lone(all, pieces, next, rest, m);
          pieces := pieces + [next];
          acc := [];
        } else {
          Gather(all, pieces, run, next, rest, m);
          acc, run := next, run + [next];
        }
      }
    }
    assert datas[|raw|..] == [];
    if acc != [] {
      Flush(all, pieces, run, [], m);
      pieces := pieces + [acc];
    }
    NothingLeft(all, pieces, m);
    out := ChunksOf(h, pieces);
  }

  lemma {:induction false} NothingYet(pieces: seq<seq<byte>>, m: nat)
    ensures Remains(MergedPieces(pieces, m), [], [], pieces[0..], m)
  {
    assert [] + pieces[0..] == pieces;
  }

  lemma {:induction false} NothingLeft(all: seq<seq<byte>>, out: seq<seq<byte>>, m: nat)
    ensures Remains(all, out, [], [], m) ==> all == out
  {
    hide MergedPieces;
    var none: seq<seq<byte>> := [];
    NothingToMerge(m);
    assert none + none == none && out + none == out;
  }

  /** Two pieces are merged exactly if they fit the threshold together. */
  lemma {:induction false} TwoPieces(a: seq<byte>, b: seq<byte>, m: nat)
    requires a != [] && b != []
    ensures MergedPieces([a, b], m) == if |a| + |b| <= m then [a + b] else [a, b]
  {
    hide Concat, MergedPieces;
    NothingToMerge(m);
    ConcatOne(a);
    ConcatOne(b);
    if |a| + |b| <= m {
      ConcatAppend([a], [b]);
      assert [a] + [b] == [a, b] && [a, b] + [] == [a, b];
      FirstRun([a, b], [], m);
    } else {
      assert [a] + [b] == [a, b] && [b] + [] == [b];
      FirstRun([a], [b], m);
      FirstRun([b], [], m);
    }
  }

  lemma {:induction false} NothingToMerge(m: nat)
    ensures MergedPieces([], m) == []
  {
  }

  lemma {:induction false} ConcatOfRuns(runs: seq<seq<seq<byte>>>, out: seq<seq<byte>>)
    requires |runs| == |out| && forall k :: 0 <= k < |out| ==> out[k] == Concat(runs[k])
    ensures Concat(Concat(runs)) == Concat(out)
  {
    if runs != [] {
      ConcatOfRuns(runs[1..], out[1..]);
      ConcatAppend(runs[0], Concat(runs[1..]));
    }
  }

  /** Merging loses nothing. */
  lemma {:induction false} CompactedConcat(pieces: seq<seq<byte>>, out: seq<seq<byte>>, m: nat)
    requires Compacted(pieces, out, m)
    ensures Concat(out) == Concat(pieces)
    ensures forall k :: 0 <= k < |out| ==> out[k] != []
  {
    var runs :| Merged(pieces, runs, out, m);
    ConcatOfRuns(runs, out);
  }

  /** Merging bounds the number of pieces: on average each holds more than half of m. */
  lemma {:induction false} LooseCount(out: seq<seq<byte>>, m: nat)
    requires Loose(out, m)
    ensures (|out| / 2) * (AtLeast1(m) + 1) <= |Concat(out)|
  {
    if |out| >= 2 {
      LooseCount(out[2..], m);
      assert Concat(out) == out[0] + (out[1] + Concat(out[2..])) by {
        assert out[1..][1..] == out[2..];
      }
      assert |out| / 2 == |out[2..]| / 2 + 1;
      OneMore(|out[2..]| / 2, AtLeast1(m) + 1);
    }
  }

  /** No piece grows beyond a limit of at least m unless it was beyond already. */
  lemma {:induction false} CompactedSizes(pieces: seq<seq<byte>>, out: seq<seq<byte>>, m: nat, limit: nat)
    requires Compacted(pieces, out, m) && AtLeast1(m) <= limit
    ensures Within(out, limit) <==> Within(pieces, limit)
  {
    var runs :| Merged(pieces, runs, out, m);
    forall k | 0 <= k < |out| && Within(pieces, limit)
      ensures |out[k]| <= limit
    {
      if |runs[k]| == 1 {
        InConcat(runs, k, 0);
        var i :| 0 <= i < |pieces| && pieces[i] == runs[k][0];
        ConcatOne(runs[k][0]);
        assert runs[k] == [runs[k][0]];
      }
    }
    forall i | 0 <= i < |pieces| && Within(out, limit)
      ensures |pieces[i]| <= limit
    {
      var k, j := FromConcat(runs, i);
      PartIsShorter(runs[k], j);
    }
  }

  ghost predicate Within(pieces: seq<seq<byte>>, limit: nat) {
    forall k :: 0 <= k < |pieces| ==> |pieces[k]| <= limit
  }

  lemma {:induction false} InConcat<T>(runs: seq<seq<T>>, k: nat, j: nat)
    requires k < |runs| && j < |runs[k]|
    ensures runs[k][j] in Concat(runs)
  {
    if k > 0 {
      InConcat(runs[1..], k - 1, j);
    }
  }

  lemma {:induction false} FromConcat<T>(runs: seq<seq<T>>, i: nat) returns (k: nat, j: nat)
    requires i < |Concat(runs)|
    ensures k < |runs| && j < |runs[k]| && runs[k][j] == Concat(runs)[i]
  {
    if i < |runs[0]| {
      k, j := 0, i;
    } else {
      k, j := FromConcat(runs[1..], i - |runs[0]|);
      k := k + 1;
    }
  }

  lemma {:induction false} PartIsShorter(run: seq<seq<byte>>, j: nat)
    requires j < |run|
    ensures |run[j]| <= |Concat(run)|
  {
    if j > 0 {
      PartIsShorter(run[1..], j - 1);
    }
  }

  /** Merging loses nothing. */
  lemma {:induction false} MergedConcat(pieces: seq<seq<byte>>, m: nat)
    requires NoneEmpty(pieces)
    ensures Concat(MergedPieces(pieces, m)) == Concat(pieces) && Compacted(pieces, MergedPieces(pieces, m), m)
  {
    hide Concat, MergedPieces;
    var runs := MergedIsCompacted(pieces, m);
    CompactedConcat(pieces, MergedPieces(pieces, m), m);
  }

  /** The merged pieces of some content. */
  ghost function MergedOf(rule: Rule, data: seq<byte>, m: nat): (merged: seq<seq<byte>>)
    ensures Concat(merged) == data && Compacted(Pieces(rule, data, |data|), merged, m)
  {
    MergedConcat(Pieces(rule, data, |data|), m);
    assert data[..|data|] == data;
    MergedPieces(Pieces(rule, data, |data|), m)
  }

  /** Cutting and merging: every content of every kind is kept, byte for byte. */
  method StructuralSplitCompact(h: Hash, utf8: seq<byte> -> bool, kind: StructuralKind, data: seq<byte>, m: nat)
    returns (out: seq<StructuralChunk>)
    ensures out == ChunksOf(h, MergedOf(RuleFor(kind, data, utf8), data, m))
    ensures Concat(Datas(out)) == data
  {
    hide ContentId, Concat, Pieces, Splits, Compacted;
    var raw := StructuralSplit(h, utf8, kind, data);
    PiecesNotEmpty(RuleFor(kind, data, utf8), data);
    out := Compact(h, raw, m);
    DatasOfChunks(h, MergedOf(RuleFor(kind, data, utf8), data, m));
  }

  lemma {:induction false} PiecesNotEmpty(rule: Rule, data: seq<byte>)
    ensures NoneEmpty(Pieces(rule, data, |data|))
  {
    hide Pieces, Boundary, Concat;
    assert Splits(data, |data|, Pieces(rule, data, |data|), rule);
  }
}
