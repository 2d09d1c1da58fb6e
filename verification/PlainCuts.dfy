/**
What cutting by format comes to: text is cut into lines, unstructured content into blocks of 64 KiB, and
JSON into records.
*/
module PlainCuts {
  import opened Bytes
  import opened Chunking
  import opened Structure
  import opened Pipe

  /** Line feeds end pieces: each piece but the last has one at its end, and none has one before. */
  ghost predicate AreLines(pieces: seq<seq<byte>>) {
    && (forall k, i :: 0 <= k < |pieces| && 0 <= i < |pieces[k]| - 1 ==> pieces[k][i] != 0x0A)
    && (forall k :: 0 <= k < |pieces| - 1 ==> |pieces[k]| > 0 && pieces[k][|pieces[k]| - 1] == 0x0A)
  }

  ghost predicate EndsWith(pieces: seq<seq<byte>>, c: byte) {
    && pieces != [] && pieces[|pieces| - 1] != []
    && pieces[|pieces| - 1][|pieces[|pieces| - 1]| - 1] == c
  }

  lemma {:induction false} OneMoreLine(front: seq<seq<byte>>, line: seq<byte>)
    requires AreLines(front) && (front != [] ==> EndsWith(front, 0x0A)) && line != []
    requires forall i :: 0 <= i < |line| - 1 ==> line[i] != 0x0A
    ensures AreLines(front + [line]) && EndsWith(front + [line], line[|line| - 1])
  {
    var pieces := front + [line];
    assert forall k :: 0 <= k < |front| ==> pieces[k] == front[k];
  }

  lemma {:induction false} LinesOfPieces(data: seq<byte>, n: nat)
    requires n <= |data|
    ensures AreLines(Pieces(Structure.Lines, data, n))
    ensures if n == 0 then Pieces(Structure.Lines, data, n) == [] else EndsWith(Pieces(Structure.Lines, data, n), data[n - 1])
  {
    hide Pieces, Concat;
    NoBytes(Structure.Lines, data);
    if n > 0 {
      var j := LastCut(Structure.Lines, data, n);
      PiecesStep(Structure.Lines, data, n);
      LinesOfPieces(data, j);
      assert j > 0 ==> IsCut(Structure.Lines, data, j);
      forall i | 0 <= i < n - j - 1
        ensures data[j..n][i] != 0x0A
      {
        assert !IsCut(Structure.Lines, data, j + i + 1);
      }
      OneMoreLine(Pieces(Structure.Lines, data, j), data[j..n]);
    }
  }

  /** All pieces but the last have 65536 bytes, and the last has no more. */
  ghost predicate AreBlocks(pieces: seq<seq<byte>>) {
    && (forall k :: 0 <= k < |pieces| - 1 ==> |pieces[k]| == 65_536)
    && (pieces != [] ==> 0 < |pieces[|pieces| - 1]| <= 65_536)
  }

  lemma {:induction false} OneMoreBlock(front: seq<seq<byte>>, block: seq<byte>)
    requires AreBlocks(front) && (front != [] ==> |front[|front| - 1]| == 65_536) && 0 < |block| <= 65_536
    ensures AreBlocks(front + [block])
  {
    var pieces := front + [block];
    assert forall k :: 0 <= k < |front| ==> pieces[k] == front[k];
  }

  lemma {:induction false} BlocksOfPieces(data: seq<byte>, n: nat)
    requires n <= |data|
    ensures AreBlocks(Pieces(Structure.Blocks, data, n))
    ensures n % 65_536 == 0 ==>
      var pieces := Pieces(Structure.Blocks, data, n); pieces != [] ==> |pieces[|pieces| - 1]| == 65_536
  {
    hide Pieces, Concat, AreBlocks;
    NoBytes(Structure.Blocks, data);
    if n == 0 {
      NoBlocks();
    } else {
      var j := LastCut(Structure.Blocks, data, n);
      PiecesStep(Structure.Blocks, data, n);
      BlocksOfPieces(data, j);
      assert j > 0 ==> IsCut(Structure.Blocks, data, j);
      var next: nat := j + 65_536;
      assert next < n ==> IsCut(Structure.Blocks, data, next);
      OneMoreBlock(Pieces(Structure.Blocks, data, j), data[j..n]);
    }
  }

  lemma {:induction false} NoBlocks()
    ensures AreBlocks([])
  {
  }

  /** How content of each format is cut. */
  lemma {:induction false} CutsByFormat(o: Outside, data: seq<byte>)
    ensures var pieces := Pieces(RuleOf(o, data), data, |data|);
      match o.detect(data)
      case JsonFormat => if o.utf8(data) then pieces == Pieces(Structure.Records, data, |data|) else AreBlocks(pieces)
      case CsvFormat => AreLines(pieces)
      case LogFormat => AreLines(pieces)
      case TextFormat => AreLines(pieces)
      case _ => AreBlocks(pieces)
  {
    hide Pieces, AreLines, AreBlocks;
    LinesOfPieces(data, |data|);
    BlocksOfPieces(data, |data|);
  }
}
