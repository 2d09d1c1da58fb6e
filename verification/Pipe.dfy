/**
End to end: detect the format, cut, merge, pack, and back. The detector, the UTF-8 test and the
foreign zstd decoder are any functions: what is stored comes back whatever they answer.
*/
module Pipe {
  import opened Bytes
  import opened Wrappers
  import opened Chunking
  import opened Hashing
  import opened Structure
  import opened Container
  import opened HuffmanLengths
  import opened HuffmanShortest
  import H = Huffman
  import W = WireFormats

  const DEFAULT_MIN_CHUNK := 64 * 1024

  /** What the pipeline takes from outside. */
  datatype Outside = Outside(hash: Hash, utf8: seq<byte> -> bool, detect: seq<byte> -> FormatCodec,
                             unzstd: seq<byte> -> Option<seq<byte>>)

  // ---- Unpacking a file -----------------------------------------------------------------------

  /** What a stored chunk unpacks to. */
  ghost function Unpacked(o: Outside, codec: ChunkCodec, stored: seq<byte>): Option<seq<byte>> {
    match codec
    case Raw => Some(stored)
    case HuffmanCoded => H.Unpacked(stored)
    case Zstd => o.unzstd(stored)
  }

  method UnpackChunk(o: Outside, codec: ChunkCodec, stored: seq<byte>) returns (r: Option<seq<byte>>)
    ensures r == Unpacked(o, codec, stored)
  {
    match codec
    case Raw => r := Some(stored);
    case HuffmanCoded => r := H.Decompress(stored);
    case Zstd => r := o.unzstd(stored);
  }

  /** All chunks unpacked and joined, unless one does not unpack. */
  ghost function Restored(o: Outside, codec: ChunkCodec, chunks: seq<StructuralChunk>): Option<seq<byte>> {
    if chunks == [] then Some([])
    else
      var n := |chunks| - 1;
      match Restored(o, codec, chunks[..n])
      case None => None
      case Some(out) =>
        match Unpacked(o, codec, chunks[n].data)
        case None => None
        case Some(part) => Some(out + part)
  }

  method RestoreOriginal(o: Outside, f: BudV2File) returns (r: Option<seq<byte>>)
    ensures r == Restored(o, f.chunkCodec, f.chunks)
  {
    hide Unpacked;
    var out: seq<byte> := [];
    for i := 0 to |f.chunks|
      invariant Restored(o, f.chunkCodec, f.chunks[..i]) == Some(out)
    {
      assert f.chunks[..i + 1][..i] == f.chunks[..i];
      var d := UnpackChunk(o, f.chunkCodec, f.chunks[i].data);
      if d.None? {
        StaysLost(o, f, i + 1, |f.chunks|);
        assert f.chunks[..|f.chunks|] == f.chunks;
        return None;
      }
      out := out + d.value;
    }
    assert f.chunks[..|f.chunks|] == f.chunks;
    return Some(out);
  }

  lemma {:induction false} StaysLost(o: Outside, f: BudV2File, i: nat, n: nat)
    requires i <= n <= |f.chunks| && Restored(o, f.chunkCodec, f.chunks[..i]) == None
    ensures Restored(o, f.chunkCodec, f.chunks[..n]) == None
  {
    if i < n {
      StaysLost(o, f, i, n - 1);
      assert f.chunks[..n][..n - 1] == f.chunks[..n - 1];
    }
  }

  /** The restored content of the file whose image the bytes are, if there is one. */
  method Restore(o: Outside, bytes: seq<byte>) returns (r: Option<seq<byte>>)
    ensures forall f :: FileImage(bytes, f) && GoodFile(o.hash, f) ==> r == Restored(o, f.chunkCodec, f.chunks)
    ensures r.Some? ==> exists f :: FileImage(bytes, f) && GoodFile(o.hash, f)
  {
    hide GoodFile, FileImage, Restored;
    var file := Decode(o.hash, bytes);
    if file.None? {
      return None;
    }
    r := RestoreOriginal(o, file.value);
  }

  /** Joining what the chunks unpack to. */
  lemma {:induction false} RestoredIs(o: Outside, codec: ChunkCodec, chunks: seq<StructuralChunk>, parts: seq<seq<byte>>)
    requires |parts| == |chunks|
    requires forall i :: 0 <= i < |chunks| ==>
      var part := Unpacked(o, codec, chunks[i].data); part.None? || part.value == parts[i]
    ensures Restored(o, codec, chunks) ==
      if forall i :: 0 <= i < |chunks| ==> Unpacked(o, codec, chunks[i].data).Some? then Some(Concat(parts)) else None
  {
    hide Unpacked, Concat;
    if chunks == [] {
      assert Concat(parts) == [] by {
        NoPieces(parts);
      }
    } else {
      var n := |chunks| - 1;
      RestoredIs(o, codec, chunks[..n], parts[..n]);
      assert parts == parts[..n] + [parts[n]];
      ConcatAppend(parts[..n], [parts[n]]);
      ConcatOne(parts[n]);
      assert forall i :: 0 <= i < n ==> chunks[..n][i] == chunks[i];
    }
  }

  // ---- Storing ----------------------------------------------------------------------------------

  ghost function RuleOf(o: Outside, data: seq<byte>): Rule {
    RuleFor(KindOf(o.detect(data)), data, o.utf8)
  }

  /** The chunks of some content: its structural pieces, merged up to the threshold. */
  ghost function ChunksOfContent(o: Outside, data: seq<byte>, m: nat): (chunks: seq<seq<byte>>)
    ensures Concat(chunks) == data
  {
    MergedOf(RuleOf(o, data), data, m)
  }

  ghost predicate WithinLimits(chunks: seq<seq<byte>>) {
    |chunks| <= 1_000_000 && |Concat(chunks)| <= 4_294_967_296 && Within(chunks, 67_108_864)
  }

  /** The bytes are those of a file of this format with these chunks. */
  ghost predicate FileOf(o: Outside, bytes: seq<byte>, format: FormatCodec, codec: ChunkCodec, chunks: seq<seq<byte>>) {
    bytes == W.FileLayout(o.hash, format, codec, chunks)
  }

  /** Such bytes are read back as a good file. */
  lemma {:induction false} FileReadsBack(o: Outside, bytes: seq<byte>, format: FormatCodec, codec: ChunkCodec,
                                         chunks: seq<seq<byte>>) returns (f: BudV2File)
    requires FileOf(o, bytes, format, codec, chunks) && WithinLimits(chunks)
    ensures FileImage(bytes, f) && GoodFile(o.hash, f)
    ensures f.header.codec == format && f.chunkCodec == codec && Datas(f.chunks) == chunks
  {
    hide W.FileLayout, FileBytes, FileImage, ContentId, Size, NewHeader, Concat, Within;
    var list := ChunksOf(o.hash, chunks);
    DatasOfChunks(o.hash, chunks);
    SizeIsConcat(list);
    f := BudV2File(NewHeader(o.hash, format, list), codec, list);
    HeaderCodec(o.hash, format, list);
    W.FileIsLaidOut(o.hash, format, codec, list);
    assert GoodChunks(o.hash, list) by {
      WithinAll(chunks);
    }
    EncodedImage(o.hash, f);
  }

  lemma {:induction false} WithinAll(chunks: seq<seq<byte>>)
    requires Within(chunks, MAX_CHUNK_BYTES)
    ensures forall i :: 0 <= i < |chunks| ==> |chunks[i]| <= MAX_CHUNK_BYTES
  {
  }

  /** Chunks become the bytes of a file exactly within the limits. */
  method StoreChunks(o: Outside, format: FormatCodec, codec: ChunkCodec, chunks: seq<StructuralChunk>) returns (r: Option<seq<byte>>)
    requires chunks == ChunksOf(o.hash, Datas(chunks))
    ensures r.Some? <==> WithinLimits(Datas(chunks))
    ensures r.Some? ==> FileOf(o, r.value, format, codec, Datas(chunks))
  {
    hide GoodFile, FileImage, FileBytes, ContentId, Concat, Within, W.FileLayout;
    SizeIsConcat(chunks);
    var file := NewWithCodec(o.hash, format, codec, chunks);
    if file.None? {
      return None;
    }
    W.FileIsLaidOut(o.hash, format, codec, chunks);
    var bytes := Encode(file.value);
    return Some(bytes);
  }

  /** Storing succeeds exactly if the chunks of the content are within the limits. */
  method StoreWithMin(o: Outside, data: seq<byte>, m: nat) returns (r: Option<seq<byte>>)
    ensures r.Some? <==> WithinLimits(ChunksOfContent(o, data, m))
    ensures r.Some? ==> FileOf(o, r.value, o.detect(data), Raw, ChunksOfContent(o, data, m))
  {
    hide FileOf, WithinLimits, Concat, MergedOf, ContentId;
    var format := o.detect(data);
    var chunks := StructuralSplitCompact(o.hash, o.utf8, KindOf(format), data, m);
    DatasOfChunks(o.hash, ChunksOfContent(o, data, m));
    r := StoreChunks(o, format, Raw, chunks);
  }

  /** Whatever is stored comes back. */
  method StoreThenRestore(o: Outside, data: seq<byte>, m: nat) returns (stored: Option<seq<byte>>, r: Option<seq<byte>>)
    ensures stored.Some? <==> WithinLimits(ChunksOfContent(o, data, m))
    ensures r == if stored.Some? then Some(data) else None
  {
    hide GoodFile, FileImage, FileOf, WithinLimits, Concat, Restored, ChunksOfContent;
    stored := StoreWithMin(o, data, m);
    if stored.None? {
      return stored, None;
    }
    r := Restore(o, stored.value);
    ghost var chunks := ChunksOfContent(o, data, m);
    ghost var f := FileReadsBack(o, stored.value, o.detect(data), Raw, chunks);
    RestoredIs(o, Raw, f.chunks, chunks);
  }

  /** With the default threshold only the total size and the longest piece decide. */
  method Store(o: Outside, data: seq<byte>) returns (r: Option<seq<byte>>)
    ensures r.Some? <==> |data| <= 4_294_967_296 && Within(Pieces(RuleOf(o, data), data, |data|), 67_108_864)
    ensures r.Some? ==> FileOf(o, r.value, o.detect(data), Raw, ChunksOfContent(o, data, 65_536))
  {
    hide Compacted, FileOf, Concat, Within, Pieces, MergedOf;
    r := StoreWithMin(o, data, DEFAULT_MIN_CHUNK);
    ghost var pieces, chunks := Pieces(RuleOf(o, data), data, |data|), ChunksOfContent(o, data, DEFAULT_MIN_CHUNK);
    CompactedSizes(pieces, chunks, DEFAULT_MIN_CHUNK, MAX_CHUNK_BYTES);
    if |data| <= MAX_TOTAL_BYTES {
      FewChunks(pieces, chunks, DEFAULT_MIN_CHUNK);
    }
  }

  /** Merging to more than 8 KiB keeps four gigabytes within a million chunks. */
  lemma {:induction false} FewChunks(pieces: seq<seq<byte>>, merged: seq<seq<byte>>, m: nat)
    requires Compacted(pieces, merged, m) && m >= 8600 && |Concat(merged)| <= MAX_TOTAL_BYTES
    ensures |merged| <= MAX_CHUNK_COUNT
  {
    hide Concat;
    var runs :| Merged(pieces, runs, merged, m);
    LooseCount(merged, m);
    var half := |merged| / 2;
    AtLeastTimes(half, 500_000, m + 1);
  }

  lemma {:induction false} AtLeastTimes(a: nat, b: nat, c: nat)
    ensures a >= b ==> a * c >= b * c
  {
  }

  // ---- Storing compressed ------------------------------------------------------------------------

  ghost function TotalPacked(chunks: seq<seq<byte>>): nat {
    if chunks == [] then 0 else H.PackedSize(chunks[0]) + TotalPacked(chunks[1..])
  }

  /** The packed chunks are within the limits. */
  ghost predicate PackedWithin(chunks: seq<seq<byte>>) {
    && |chunks| <= 1_000_000 && TotalPacked(chunks) <= 4_294_967_296
    && forall i :: 0 <= i < |chunks| ==> H.PackedSize(chunks[i]) <= 67_108_864
  }

  ghost predicate CompressedChunks(merged: seq<seq<byte>>, packed: seq<seq<byte>>) {
    |packed| == |merged| && forall i :: 0 <= i < |merged| ==> H.IsCompressed(merged[i], packed[i])
  }

  lemma {:induction false} PackedLimits(chunks: seq<seq<byte>>, packed: seq<seq<byte>>)
    requires CompressedChunks(chunks, packed)
    ensures |Concat(packed)| == TotalPacked(chunks)
    ensures WithinLimits(packed) <==> PackedWithin(chunks)
  {
    forall i | 0 <= i < |chunks|
      ensures |packed[i]| == H.PackedSize(chunks[i])
    {
      CompressedSize(chunks[i], packed[i]);
    }
    hide H.IsCompressed, H.PackedSize;
    if chunks != [] {
      PackedLimits(chunks[1..], packed[1..]);
    }
  }

  lemma {:induction false} CompressedSize(chunk: seq<byte>, packed: seq<byte>)
    requires H.IsCompressed(chunk, packed)
    ensures |packed| == H.PackedSize(chunk)
  {
    hide H.PackedSize;
  }

  method CompressAll(pieces: seq<seq<byte>>) returns (packed: seq<seq<byte>>)
    ensures CompressedChunks(pieces, packed)
  {
    hide H.IsCompressed;
    packed := [];
    for i := 0 to |pieces|
      invariant |packed| == i && forall k :: 0 <= k < i ==> H.IsCompressed(pieces[k], packed[k])
    {
      var bytes := H.Compress(pieces[i]);
      packed := packed + [bytes];
    }
  }

  /** The bytes are the image of a file that holds these chunks packed. */
  ghost predicate PackedFileOf(o: Outside, bytes: seq<byte>, format: FormatCodec, chunks: seq<seq<byte>>) {
    exists packed :: CompressedChunks(chunks, packed) && FileOf(o, bytes, format, HuffmanCoded, packed)
  }

  /** Storing compressed succeeds exactly if the packed chunks of the content are within the limits. */
  method StoreCompressedWithMin(o: Outside, data: seq<byte>, m: nat) returns (r: Option<seq<byte>>)
    ensures r.Some? <==> PackedWithin(ChunksOfContent(o, data, m))
    ensures r.Some? ==> PackedFileOf(o, r.value, o.detect(data), ChunksOfContent(o, data, m))
  {
    hide FileOf, WithinLimits, PackedWithin, Concat, MergedOf, CompressedChunks, ContentId;
    var format := o.detect(data);
    var plain := StructuralSplitCompact(o.hash, o.utf8, KindOf(format), data, m);
    DatasOfChunks(o.hash, ChunksOfContent(o, data, m));
    var packed := CompressAll(Datas(plain));
    PackedLimits(Datas(plain), packed);
    var chunks := ChunksOf(o.hash, packed);
    DatasOfChunks(o.hash, packed);
    r := StoreChunks(o, format, HuffmanCoded, chunks);
  }

  method StoreCompressed(o: Outside, data: seq<byte>) returns (r: Option<seq<byte>>)
    ensures r.Some? <==> PackedWithin(ChunksOfContent(o, data, 65_536))
    ensures r.Some? ==> PackedFileOf(o, r.value, o.detect(data), ChunksOfContent(o, data, 65_536))
  {
    r := StoreCompressedWithMin(o, data, DEFAULT_MIN_CHUNK);
  }

  /** No chunk needs a code that the decoder refuses. */
  ghost predicate AllDecodable(chunks: seq<seq<byte>>) {
    forall i :: 0 <= i < |chunks| ==> H.LongestCodeOf(chunks[i]) <= 32
  }

  ghost predicate AllShort(chunks: seq<seq<byte>>) {
    forall i :: 0 <= i < |chunks| ==> |chunks[i]| < TOO_SHORT_FOR_33_BITS
  }

  /** What is stored compressed comes back exactly when no chunk of the content needs a code of more
      than 32 bits; chunks of fewer than 9227465 bytes never do. */
  method StoreCompressedThenRestore(o: Outside, data: seq<byte>, m: nat)
    returns (stored: Option<seq<byte>>, r: Option<seq<byte>>)
    ensures stored.Some? <==> PackedWithin(ChunksOfContent(o, data, m))
    ensures r == if stored.Some? && AllDecodable(ChunksOfContent(o, data, m)) then Some(data) else None
    ensures stored.Some? && AllShort(ChunksOfContent(o, data, m)) ==> r == Some(data)
  {
    hide GoodFile, FileImage, FileOf, WithinLimits, Concat, Restored, CompressedChunks, AllDecodable, AllShort, ChunksOfContent, PackedWithin;
    stored := StoreCompressedWithMin(o, data, m);
    ghost var chunks := ChunksOfContent(o, data, m);
    ShortIsDecodable(chunks);
    if stored.None? {
      return stored, None;
    }
    r := Restore(o, stored.value);
    ghost var packed :| CompressedChunks(chunks, packed) && FileOf(o, stored.value, o.detect(data), HuffmanCoded, packed);
    PackedLimits(chunks, packed);
    ghost var f := FileReadsBack(o, stored.value, o.detect(data), HuffmanCoded, packed);
    RestoreCompressed(o, f.chunks, chunks);
  }

  lemma {:induction false} ShortIsDecodable(chunks: seq<seq<byte>>)
    ensures AllShort(chunks) ==> AllDecodable(chunks)
  {
    hide H.LongestCodeOf;
    forall i | 0 <= i < |chunks| && |chunks[i]| < TOO_SHORT_FOR_33_BITS
      ensures H.LongestCodeOf(chunks[i]) <= H.MAX_CODE_LEN
    {
      H.ShortDataFits(chunks[i]);
    }
  }

  /** Packed chunks within the limits restore to their content iff all of them are decodable. */
  lemma {:induction false} RestoreCompressed(o: Outside, chunks: seq<StructuralChunk>, merged: seq<seq<byte>>)
    requires CompressedChunks(merged, Datas(chunks)) && PackedWithin(merged)
    ensures Restored(o, HuffmanCoded, chunks) == if AllDecodable(merged) then Some(Concat(merged)) else None
  {
    hide H.IsCompressed, H.Unpacked, H.LongestCodeOf, Concat, Restored, H.PackedSize, TotalPacked;
    forall i | 0 <= i < |merged|
      ensures Unpacked(o, HuffmanCoded, chunks[i].data) ==
              if H.LongestCodeOf(merged[i]) <= H.MAX_CODE_LEN then Some(merged[i]) else None
    {
      PackedBounds(merged[i]);
      assert Datas(chunks)[i] == chunks[i].data;
      H.UnpackedCompressed(merged[i], chunks[i].data);
    }
    RestoredIs(o, HuffmanCoded, chunks, merged);
  }

  // ---- Content that is lost ------------------------------------------------------------------------

  /** 34 characters from the blank on, with Fibonacci frequencies: one line of 14930351 bytes. */
  ghost function LostContent(): seq<byte> {
    FibonacciText(32, 34)
  }

  lemma {:induction false} OneLine(data: seq<byte>)
    requires data != [] && forall i :: 0 <= i < |data| ==> data[i] != NEWLINE
    ensures Pieces(Lines, data, |data|) == [data]
  {
    hide Concat;
    ConcatOne(data);
    assert data[..|data|] == data;
    assert Splits(data, |data|, [data], Lines);
    SplitsUnique(data, |data|, [data], Lines);
  }

  lemma {:induction false} LoneChunk(data: seq<byte>, m: nat)
    ensures MergedPieces([data], m) == [data]
  {
    ConcatOne(data);
    FirstRun([data], [], m);
    assert [data] + [] == [data];
    NothingToMerge(m);
  }

  /** Taken as text, this content is stored compressed, and what is stored does not come back. */
  lemma {:induction false} StoredAndLost(o: Outside, m: nat)
    requires o.detect(LostContent()) == TextFormat
    ensures |LostContent()| == 14_930_351
    ensures ChunksOfContent(o, LostContent(), m) == [LostContent()]
    ensures PackedWithin(ChunksOfContent(o, LostContent(), m))
    ensures !AllDecodable(ChunksOfContent(o, LostContent(), m))
  {
    hide FibonacciText, H.PackedSize, H.LongestCodeOf, MergedPieces, Pieces, Concat;
    var data := LostContent();
    LostTextSize(32);
    forall i | 0 <= i < |data|
      ensures data[i] != NEWLINE
    {
      FibonacciTextBytes(32, 34, i);
    }
    OneLine(data);
    LoneChunk(data, m);
    FibonacciTextNeedsLongCodes(32, 34);
    PackedBounds(data);
    assert TotalPacked([data]) == H.PackedSize(data) by {
      assert [data][1..] == [];
    }
  }
}
