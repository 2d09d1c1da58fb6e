/**
The `.bud` v2 container: a header with the root digest, then every chunk with its length and
content id. The hash is any function to 32 bytes.
*/
module Container {
  import opened Bytes
  import opened Wrappers
  import opened PowersOfTwo
  import opened Chunking
  import opened Hashing
  import opened Structure

  datatype FormatCodec = JsonFormat | CsvFormat | LogFormat | TextFormat | Mp4 | Jpeg | Png | Pdf | Unknown

  function CodecNumber(c: FormatCodec): (v: nat)
    ensures v < 65536 && CodecFrom(v) == c
  {
    match c
    case JsonFormat => 1
    case CsvFormat => 2
    case LogFormat => 3
    case TextFormat => 4
    case Mp4 => 10
    case Jpeg => 11
    case Png => 12
    case Pdf => 16
    case Unknown => 0
  }

  function CodecFrom(v: nat): FormatCodec {
    if v == 1 then JsonFormat else if v == 2 then CsvFormat else if v == 3 then LogFormat
    else if v == 4 then TextFormat else if v == 10 then Mp4 else if v == 11 then Jpeg
    else if v == 12 then Png else if v == 16 then Pdf else Unknown
  }

  function KindOf(c: FormatCodec): StructuralKind {
    match c
    case JsonFormat => Json
    case CsvFormat => Csv
    case LogFormat => Log
    case TextFormat => Text
    case _ => Binary
  }

  datatype ChunkCodec = Raw | HuffmanCoded | Zstd

  function ChunkCodecNumber(c: ChunkCodec): byte {
    match c
    case Raw => 0
    case HuffmanCoded => 1
    case Zstd => 2
  }

  function ChunkCodecFrom(v: byte): Option<ChunkCodec> {
    if v == 0 then Some(Raw) else if v == 1 then Some(HuffmanCoded) else if v == 2 then Some(Zstd) else None
  }

  datatype MultiHash = MultiHash(algo: byte, digest: Digest)

  datatype BudV2Header = BudV2Header(magic: seq<byte>, codec: FormatCodec, contentId: MultiHash,
                                     chunkCount: nat, totalLen: nat)

  datatype BudV2File = BudV2File(header: BudV2Header, chunkCodec: ChunkCodec, chunks: seq<StructuralChunk>)

  const MAGIC: seq<byte> := [0xB5, 0x55, 0x44, 0xB0, 0x02, 0x00, 0x00, 0x00]
  const SHA3_256: byte := 0x16
  const MAX_CHUNK_COUNT := 1_000_000
  const MAX_CHUNK_BYTES := 64 * 1024 * 1024
  const MAX_TOTAL_BYTES := 4 * 1024 * 1024 * 1024
  const HDR := 56

  // ---- The root digest and the header ----------------------------------------------------------

  function Ids(chunks: seq<StructuralChunk>): (ids: seq<byte>)
    ensures |ids| == 32 * |chunks|
  {
    if chunks == [] then [] else chunks[0].contentId + Ids(chunks[1..])
  }

  /** The tag "BDLM_BUD_V2" and all content ids. */
  function RootInput(chunks: seq<StructuralChunk>): seq<byte> {
    [0x42, 0x44, 0x4C, 0x4D, 0x5F, 0x42, 0x55, 0x44, 0x5F, 0x56, 0x32] + Ids(chunks)
  }

  function Size(chunks: seq<StructuralChunk>): nat {
    if chunks == [] then 0 else |chunks[0].data| + Size(chunks[1..])
  }

  lemma {:induction false} SizeIsConcat(chunks: seq<StructuralChunk>)
    ensures Size(chunks) == |Concat(Datas(chunks))|
  {
    if chunks != [] {
      SizeIsConcat(chunks[1..]);
      assert Datas(chunks)[1..] == Datas(chunks[1..]);
    }
  }

  function NewHeader(h: Hash, codec: FormatCodec, chunks: seq<StructuralChunk>): BudV2Header {
    BudV2Header(MAGIC, codec, MultiHash(SHA3_256, h(RootInput(chunks))), |chunks| % 0x1_0000_0000, Size(chunks))
  }

  function HeaderBytes(d: BudV2Header): seq<byte> {
    d.magic + Le(CodecNumber(d.codec), 2) + [d.contentId.algo, 32] + d.contentId.digest
    + Le(d.chunkCount, 4) + Le(d.totalLen, 8)
  }

  function HeaderFrom(raw: seq<byte>): Option<BudV2Header> {
    if |raw| < HDR || raw[..8] != MAGIC then None
    else Some(BudV2Header(MAGIC, CodecFrom(FromLe(raw[8..10])), MultiHash(raw[10], raw[12..44]),
                          FromLe(raw[44..48]), FromLe(raw[48..56])))
  }

  ghost predicate HeaderFits(d: BudV2Header) {
    d.magic == MAGIC && d.chunkCount < 0x1_0000_0000 && d.totalLen < TWO_64
  }

  /** The image of a header, up to an unknown codec number and the unread length byte. */
  ghost predicate HeaderImage(raw: seq<byte>, d: BudV2Header) {
    && |raw| == HDR && raw[..8] == d.magic
    && CodecFrom(FromLe(raw[8..10])) == d.codec && raw[10] == d.contentId.algo
    && raw[12..] == d.contentId.digest + Le(d.chunkCount, 4) + Le(d.totalLen, 8)
  }

  lemma {:induction false} HeaderBytesImage(d: BudV2Header)
    requires HeaderFits(d)
    ensures HeaderImage(HeaderBytes(d), d)
  {
    hide Le, FromLe, Pow256;
    var raw := HeaderBytes(d);
    var tail := d.contentId.digest + Le(d.chunkCount, 4) + Le(d.totalLen, 8);
    assert raw == d.magic + Le(CodecNumber(d.codec), 2) + [d.contentId.algo, 32] + tail;
    assert raw[..8] == d.magic && raw[10] == d.contentId.algo && raw[12..] == tail;
    assert raw[8..10] == Le(CodecNumber(d.codec), 2);
    Widths(2, 4, 8);
    FromLeOfLe(CodecNumber(d.codec), 2);
  }

  lemma {:induction false} HeaderFromIff(raw: seq<byte>, d: BudV2Header)
    requires |raw| == HDR
    ensures HeaderFrom(raw) == Some(d) <==> HeaderFits(d) && HeaderImage(raw, d)
  {
    hide Le, FromLe, Pow256;
    Widths(2, 4, 8);
    var digest, count, total := raw[12..44], raw[44..48], raw[48..56];
    assert raw[12..] == digest + count + total;
    LeOfFromLe(count);
    LeOfFromLe(total);
    if HeaderFits(d) && HeaderImage(raw, d) {
      var tail := d.contentId.digest + Le(d.chunkCount, 4) + Le(d.totalLen, 8);
      assert digest == tail[..32] && count == tail[32..36] && total == tail[36..44];
      FromLeOfLe(d.chunkCount, 4);
      FromLeOfLe(d.totalLen, 8);
    }
  }

  // ---- Chunk records -----------------------------------------------------------------------------

  function Record(c: StructuralChunk): seq<byte> {
    Le(|c.data|, 8) + c.contentId + c.data
  }

  function Records(chunks: seq<StructuralChunk>): seq<byte> {
    if chunks == [] then [] else Record(chunks[0]) + Records(chunks[1..])
  }

  ghost predicate GoodChunk(h: Hash, c: StructuralChunk) {
    |c.data| <= MAX_CHUNK_BYTES && c.contentId == ContentId(h, c.data)
  }

  ghost predicate GoodChunks(h: Hash, chunks: seq<StructuralChunk>) {
    forall i :: 0 <= i < |chunks| ==> GoodChunk(h, chunks[i])
  }

  /** Reads one record and returns the rest of the bytes. */
  function ReadChunk(h: Hash, raw: seq<byte>): Option<(StructuralChunk, seq<byte>)> {
    if |raw| < 40 then None
    else
      var len := FromLe(raw[..8]);
      if len > MAX_CHUNK_BYTES || 40 + len > |raw| || ContentId(h, raw[40..40 + len]) != raw[8..40] then None
      else Some((StructuralChunk(raw[8..40], raw[40..40 + len]), raw[40 + len..]))
  }

  lemma {:induction false} ReadChunkIff(h: Hash, raw: seq<byte>, c: StructuralChunk, rest: seq<byte>)
    ensures ReadChunk(h, raw) == Some((c, rest)) <==> GoodChunk(h, c) && raw == Record(c) + rest
  {
    hide Le, FromLe, Pow256, ContentId;
    Widths(2, 4, 8);
    if ReadChunk(h, raw) == Some((c, rest)) {
      LeOfFromLe(raw[..8]);
      assert raw == raw[..8] + raw[8..40] + raw[40..40 + |c.data|] + raw[40 + |c.data|..];
    }
    if GoodChunk(h, c) && raw == Record(c) + rest {
      FromLeOfLe(|c.data|, 8);
      assert raw[..8] == Le(|c.data|, 8) && raw[8..40] == c.contentId;
      assert raw[40..40 + |c.data|] == c.data && raw[40 + |c.data|..] == rest;
    }
  }

  /** Reads `count` records that use up all bytes and hold no more than the limit with `total`. */
  function ReadChunks(h: Hash, raw: seq<byte>, count: nat, total: nat): Option<seq<StructuralChunk>> {
    if count == 0 then if raw == [] then Some([]) else None
    else
      match ReadChunk(h, raw)
      case None => None
      case Some((c, rest)) =>
        if total + |c.data| > MAX_TOTAL_BYTES then None
        else
          match ReadChunks(h, rest, count - 1, total + |c.data|)
          case None => None
          case Some(cs) => Some([c] + cs)
  }

  lemma {:induction false} ReadChunksIff(h: Hash, raw: seq<byte>, count: nat, total: nat, chunks: seq<StructuralChunk>)
    requires total <= MAX_TOTAL_BYTES
    ensures ReadChunks(h, raw, count, total) == Some(chunks) <==>
      && |chunks| == count && GoodChunks(h, chunks) && raw == Records(chunks)
      && total + Size(chunks) <= MAX_TOTAL_BYTES
    decreases count
  {
    hide Record, ReadChunk, GoodChunk;
    if count > 0 {
      if chunks != [] {
        var c, cs := chunks[0], chunks[1..];
        assert chunks == [c] + cs;
        assert Records(chunks) == Record(c) + Records(cs);
        if GoodChunks(h, chunks) && raw == Records(chunks) {
          ReadChunkIff(h, raw, c, Records(cs));
          if total + |c.data| <= MAX_TOTAL_BYTES {
            ReadChunksIff(h, Records(cs), count - 1, total + |c.data|, cs);
          }
        }
        if ReadChunks(h, raw, count, total) == Some(chunks) {
          var rest := ReadChunk(h, raw).value.1;
          ReadChunkIff(h, raw, c, rest);
          ReadChunksIff(h, rest, count - 1, total + |c.data|, cs);
        }
      }
    }
  }

  // ---- Files -------------------------------------------------------------------------------------

  /** Within the limits, with the right content ids and the header that belongs to the chunks. */
  ghost predicate GoodFile(h: Hash, f: BudV2File) {
    && |f.chunks| <= MAX_CHUNK_COUNT && Size(f.chunks) <= MAX_TOTAL_BYTES && GoodChunks(h, f.chunks)
    && f.header == NewHeader(h, f.header.codec, f.chunks)
  }

  /** Files are built exactly from chunk lists within the limits. */
  method NewWithCodec(h: Hash, codec: FormatCodec, chunkCodec: ChunkCodec, chunks: seq<StructuralChunk>)
    returns (r: Option<BudV2File>)
    requires chunks == ChunksOf(h, Datas(chunks))
    ensures r.Some? <==>
      |chunks| <= MAX_CHUNK_COUNT && Size(chunks) <= MAX_TOTAL_BYTES && Within(Datas(chunks), MAX_CHUNK_BYTES)
    ensures r.Some? ==>
      && r.value == BudV2File(NewHeader(h, codec, chunks), chunkCodec, chunks)
      && GoodFile(h, r.value)
  {
    hide ContentId, Size, NewHeader;
    if |chunks| > MAX_CHUNK_COUNT || Size(chunks) > MAX_TOTAL_BYTES {
      return None;
    }
    assert forall i :: 0 <= i < |chunks| ==> chunks[i] == ChunkOf(h, Datas(chunks)[i]);
    for i := 0 to |chunks|
      invariant forall k :: 0 <= k < i ==> |chunks[k].data| <= MAX_CHUNK_BYTES
    {
      if |chunks[i].data| > MAX_CHUNK_BYTES {
        assert |Datas(chunks)[i]| > MAX_CHUNK_BYTES;
        return None;
      }
    }
    r := Some(BudV2File(NewHeader(h, codec, chunks), chunkCodec, chunks));
    assert NewHeader(h, codec, chunks).codec == codec by {
      HeaderCodec(h, codec, chunks);
    }
  }

  lemma {:induction false} HeaderCodec(h: Hash, codec: FormatCodec, chunks: seq<StructuralChunk>)
    ensures NewHeader(h, codec, chunks).codec == codec
  {
  }

  function Preamble(f: BudV2File): seq<byte> {
    [ChunkCodecNumber(f.chunkCodec)] + Le(f.header.chunkCount, 4)
  }

  function FileBytes(f: BudV2File): seq<byte> {
    HeaderBytes(f.header) + Preamble(f) + Records(f.chunks)
  }

  method Encode(f: BudV2File) returns (v: seq<byte>)
    ensures v == FileBytes(f)
  {
    hide Record, HeaderBytes, Preamble;
    v := HeaderBytes(f.header) + Preamble(f);
    for i := 0 to |f.chunks|
      invariant v + Records(f.chunks[i..]) == FileBytes(f)
    {
      var rest := f.chunks[i..];
      assert rest[0] == f.chunks[i] && rest[1..] == f.chunks[i + 1..];
      v := v + Record(f.chunks[i]);
    }
    assert f.chunks[|f.chunks|..] == [];
  }

  /** The bytes of a file, up to an unknown codec number and the unread digest length. */
  ghost predicate FileImage(raw: seq<byte>, f: BudV2File) {
    && |raw| >= HDR + 5 && HeaderImage(raw[..HDR], f.header)
    && raw[HDR..HDR + 5] == Preamble(f) && raw[HDR + 5..] == Records(f.chunks)
  }

  lemma {:induction false} GoodHeaderFits(h: Hash, f: BudV2File)
    requires GoodFile(h, f)
    ensures HeaderFits(f.header) && f.header.chunkCount == |f.chunks| && f.header.totalLen == Size(f.chunks)
    ensures f.header.contentId == MultiHash(SHA3_256, h(RootInput(f.chunks)))
  {
    hide Size, RootInput;
  }

  lemma {:induction false} EncodedImage(h: Hash, f: BudV2File)
    requires GoodFile(h, f)
    ensures FileImage(FileBytes(f), f)
  {
    hide HeaderImage, HeaderBytes, Records, GoodFile;
    GoodHeaderFits(h, f);
    HeaderBytesImage(f.header);
    var raw := FileBytes(f);
    assert |HeaderBytes(f.header)| == HDR by {
      HeaderSize(f.header);
    }
    assert raw[..HDR] == HeaderBytes(f.header);
    assert raw[HDR..HDR + 5] == Preamble(f) && raw[HDR + 5..] == Records(f.chunks);
  }

  lemma {:induction false} HeaderSize(d: BudV2Header)
    requires HeaderFits(d)
    ensures |HeaderBytes(d)| == HDR
  {
  }

  /** Whatever decodes to a file has its canonical length and differs from the canonical bytes at
      most in the codec number and in the length byte of the digest. */
  lemma {:induction false} ImageIsNearlyCanonical(h: Hash, raw: seq<byte>, f: BudV2File)
    requires GoodFile(h, f) && FileImage(raw, f)
    ensures |raw| == |FileBytes(f)|
    ensures forall i :: 0 <= i < |raw| && i != 8 && i != 9 && i != 11 ==> raw[i] == FileBytes(f)[i]
  {
    hide Records, Le, GoodFile, Preamble;
    GoodHeaderFits(h, f);
    HeaderSize(f.header);
    var canon, d := FileBytes(f), f.header;
    var tail := d.contentId.digest + Le(d.chunkCount, 4) + Le(d.totalLen, 8);
    assert raw == raw[..HDR] + raw[HDR..HDR + 5] + raw[HDR + 5..];
    assert HeaderBytes(d)[12..] == tail && raw[..HDR][12..] == tail;
    forall i | 0 <= i < HDR && i != 8 && i != 9 && i != 11
      ensures raw[i] == HeaderBytes(d)[i]
    {
      if i < 8 {
        assert raw[..HDR][..8][i] == raw[i];
      } else if i >= 12 {
        assert raw[..HDR][12..][i - 12] == raw[i];
      }
    }
  }

  // ---- Decoding ------------------------------------------------------------------------------------

  function Prepended(cs: seq<StructuralChunk>, r: Option<seq<StructuralChunk>>): Option<seq<StructuralChunk>> {
    match r
    case None => None
    case Some(more) => Some(cs + more)
  }

  lemma {:induction false} ReadNext(h: Hash, raw: seq<byte>, pos: nat, count: nat, chunks: seq<StructuralChunk>)
    requires pos <= |raw| && count > 0
    ensures var total := Size(chunks);
      Prepended(chunks, ReadChunks(h, raw[pos..], count, total)) ==
      if |raw| < pos + 40 then None
      else
        var len := FromLe(raw[pos..pos + 8]);
        var end := pos + 40 + len;
        if len > MAX_CHUNK_BYTES || end > |raw| || ContentId(h, raw[pos + 40..end]) != raw[pos + 8..pos + 40] then None
        else if total + len > MAX_TOTAL_BYTES then None
        else
          var c := StructuralChunk(raw[pos + 8..pos + 40], raw[pos + 40..end]);
          Prepended(chunks + [c], ReadChunks(h, raw[end..], count - 1, total + len))
  {
    hide ContentId, FromLe, ReadChunk;
    ReadAt(h, raw, pos);
    var next := ReadChunk(h, raw[pos..]);
    if next.Some? {
      var (c, rest) := next.value;
      var more := ReadChunks(h, rest, count - 1, Size(chunks) + |c.data|);
      if more.Some? {
        assert chunks + ([c] + more.value) == chunks + [c] + more.value;
      }
    }
  }

  lemma {:induction false} ReadAt(h: Hash, raw: seq<byte>, pos: nat)
    requires pos <= |raw|
    ensures ReadChunk(h, raw[pos..]) ==
      if |raw| < pos + 40 then None
      else
        var len := FromLe(raw[pos..pos + 8]);
        var end := pos + 40 + len;
        if len > MAX_CHUNK_BYTES || end > |raw| || ContentId(h, raw[pos + 40..end]) != raw[pos + 8..pos + 40] then None
        else Some((StructuralChunk(raw[pos + 8..pos + 40], raw[pos + 40..end]), raw[end..]))
  {
    hide ContentId, FromLe;
    var rest := raw[pos..];
    if |raw| >= pos + 40 {
      assert rest[..8] == raw[pos..pos + 8] && rest[8..40] == raw[pos + 8..pos + 40];
      var len := FromLe(raw[pos..pos + 8]);
      var end := pos + 40 + len;
      if end <= |raw| {
        assert rest[40..40 + len] == raw[pos + 40..end] && rest[40 + len..] == raw[end..];
      }
    }
  }

  lemma {:induction false} SizeAppend(chunks: seq<StructuralChunk>, c: StructuralChunk)
    ensures Size(chunks + [c]) == Size(chunks) + |c.data|
  {
    if chunks != [] {
      SizeAppend(chunks[1..], c);
      assert (chunks + [c])[1..] == chunks[1..] + [c];
    }
  }

  method DecodeChunks(h: Hash, raw: seq<byte>, count: nat) returns (r: Option<seq<StructuralChunk>>)
    requires |raw| >= HDR + 5
    ensures r == ReadChunks(h, raw[HDR + 5..], count, 0)
  {
    hide ContentId, FromLe, ReadChunks, Size;
    var pos, total := HDR + 5, 0;
    var chunks: seq<StructuralChunk> := [];
    NoChunks(h, raw[HDR + 5..], count);
    for i := 0 to count
      invariant HDR + 5 <= pos <= |raw| && total == Size(chunks)
      invariant ReadChunks(h, raw[HDR + 5..], count, 0) ==
                Prepended(chunks, ReadChunks(h, raw[pos..], count - i, total))
    {
      ReadNext(h, raw, pos, count - i, chunks);
      if |raw| < pos + 40 {
        return None;
      }
      var len := FromLe(raw[pos..pos + 8]);
      if len > MAX_CHUNK_BYTES {
        return None;
      }
      var cid: Digest := raw[pos + 8..pos + 40];
      var end := pos + 40 + len;
      if end > |raw| {
        return None;
      }
      var data := raw[pos + 40..end];
      if ContentId(h, data) != cid {
        return None;
      }
      if total + len > MAX_TOTAL_BYTES {
        return None;
      }
      SizeAppend(chunks, StructuralChunk(cid, data));
      total := total + len;
      chunks := chunks + [StructuralChunk(cid, data)];
      pos := end;
    }
    AllRead(h, raw[pos..], total, chunks);
    if pos != |raw| {
      return None;
    }
    return Some(chunks);
  }

  lemma {:induction false} NoChunks(h: Hash, raw: seq<byte>, count: nat)
    ensures Size([]) == 0 && Prepended([], ReadChunks(h, raw, count, 0)) == ReadChunks(h, raw, count, 0)
  {
    var r := ReadChunks(h, raw, count, 0);
    if r.Some? {
      assert [] + r.value == r.value;
    }
  }

  lemma {:induction false} AllRead(h: Hash, raw: seq<byte>, total: nat, chunks: seq<StructuralChunk>)
    ensures Prepended(chunks, ReadChunks(h, raw, 0, total)) == if raw == [] then Some(chunks) else None
  {
    assert chunks + [] == chunks;
  }

  /** Decoding accepts exactly the images of good files, and gives back the file. */
  method Decode(h: Hash, raw: seq<byte>) returns (r: Option<BudV2File>)
    ensures r.Some? ==> GoodFile(h, r.value) && FileImage(raw, r.value)
    ensures forall f :: GoodFile(h, f) && FileImage(raw, f) ==> r == Some(f)
  {
    hide GoodFile, FileImage, HeaderFrom, ReadChunks, FromLe, RootInput, Size;
    forall f | GoodFile(h, f) && FileImage(raw, f)
      ensures Reads(h, raw, f)
    {
      ImageReads(h, raw, f);
    }
    if |raw| < HDR + 5 {
      return None;
    }
    var header := HeaderFrom(raw[..HDR]);
    if header.None? || header.value.magic != MAGIC || header.value.contentId.algo != SHA3_256 {
      return None;
    }
    var chunkCodec := ChunkCodecFrom(raw[HDR]);
    if chunkCodec.None? {
      return None;
    }
    var count := FromLe(raw[HDR + 1..HDR + 5]);
    if count > MAX_CHUNK_COUNT {
      return None;
    }
    var chunks := DecodeChunks(h, raw, count);
    if chunks.None? {
      return None;
    }
    if |chunks.value| != header.value.chunkCount || Size(chunks.value) != header.value.totalLen
       || h(RootInput(chunks.value)) != header.value.contentId.digest
    {
      return None;
    }
    r := Some(BudV2File(header.value, chunkCodec.value, chunks.value));
    ReadsIsImage(h, raw, r.value);
  }

  /** All checks of the decoder pass and the parts read are those of f. */
  ghost predicate Reads(h: Hash, raw: seq<byte>, f: BudV2File) {
    && |raw| >= HDR + 5
    && HeaderFrom(raw[..HDR]) == Some(f.header)
    && f.header.magic == MAGIC && f.header.contentId.algo == SHA3_256
    && ChunkCodecFrom(raw[HDR]) == Some(f.chunkCodec)
    && FromLe(raw[HDR + 1..HDR + 5]) <= MAX_CHUNK_COUNT
    && ReadChunks(h, raw[HDR + 5..], FromLe(raw[HDR + 1..HDR + 5]), 0) == Some(f.chunks)
    && |f.chunks| == f.header.chunkCount && Size(f.chunks) == f.header.totalLen
    && h(RootInput(f.chunks)) == f.header.contentId.digest
  }

  lemma {:induction false} ImageReads(h: Hash, raw: seq<byte>, f: BudV2File)
    requires GoodFile(h, f) && FileImage(raw, f)
    ensures Reads(h, raw, f)
  {
    hide Le, FromLe, Records, GoodChunks, Size, RootInput, HeaderImage, HeaderFrom, ReadChunks, Pow256;
    GoodHeaderFits(h, f);
    HeaderFromIff(raw[..HDR], f.header);
    Widths(2, 4, 8);
    FromLeOfLe(f.header.chunkCount, 4);
    assert raw[HDR + 1..HDR + 5] == Preamble(f)[1..];
    assert Preamble(f)[1..] == Le(f.header.chunkCount, 4);
    assert raw[HDR] == raw[HDR..HDR + 5][0];
    ReadChunksIff(h, raw[HDR + 5..], |f.chunks|, 0, f.chunks);
  }

  lemma {:induction false} ReadsIsImage(h: Hash, raw: seq<byte>, f: BudV2File)
    requires Reads(h, raw, f)
    ensures GoodFile(h, f) && FileImage(raw, f)
  {
    hide Le, FromLe, Records, GoodChunks, Size, RootInput, HeaderImage, HeaderFrom, ReadChunks;
    HeaderFromIff(raw[..HDR], f.header);
    var count := FromLe(raw[HDR + 1..HDR + 5]);
    ReadChunksIff(h, raw[HDR + 5..], count, 0, f.chunks);
    LeOfFromLe(raw[HDR + 1..HDR + 5]);
    assert raw[HDR..HDR + 5] == [raw[HDR]] + raw[HDR + 1..HDR + 5];
  }

  /** What is encoded decodes to the same file. */
  method EncodeThenDecode(h: Hash, f: BudV2File) returns (r: Option<BudV2File>)
    requires GoodFile(h, f)
    ensures r == Some(f)
  {
    var raw := Encode(f);
    EncodedImage(h, f);
    r := Decode(h, raw);
  }

  // ---- The root digest binds the chunks -------------------------------------------------------------

  /** Two different hashed inputs of the two files with the same digest. */
  ghost predicate Collision(h: Hash, a: seq<StructuralChunk>, b: seq<StructuralChunk>) {
    || (RootInput(a) != RootInput(b) && h(RootInput(a)) == h(RootInput(b)))
    || (exists i, j :: 0 <= i < |a| && 0 <= j < |b| && ContentInput(a[i].data) != ContentInput(b[j].data)
          && h(ContentInput(a[i].data)) == h(ContentInput(b[j].data)))
  }

  lemma {:induction false} IdsInjective(a: seq<StructuralChunk>, b: seq<StructuralChunk>)
    requires Ids(a) == Ids(b)
    ensures |a| == |b| && forall i :: 0 <= i < |a| ==> a[i].contentId == b[i].contentId
  {
    if a != [] {
      assert a[0].contentId == Ids(a)[..32] && b[0].contentId == Ids(b)[..32];
      assert Ids(a[1..]) == Ids(a)[32..] && Ids(b[1..]) == Ids(b)[32..];
      IdsInjective(a[1..], b[1..]);
      forall i | 0 <= i < |a|
        ensures a[i].contentId == b[i].contentId
      {
        if i > 0 {
          assert a[1..][i - 1] == a[i] && b[1..][i - 1] == b[i];
        }
      }
    }
  }

  /** Good files with the same root digest have the same chunks, or the hash has collided. */
  lemma {:induction false} RootBindsChunks(h: Hash, f: BudV2File, g: BudV2File)
    requires GoodFile(h, f) && GoodFile(h, g) && f.header.contentId.digest == g.header.contentId.digest
    ensures f.chunks == g.chunks || Collision(h, f.chunks, g.chunks)
  {
    hide ContentInput, Size, Ids;
    var a, b := f.chunks, g.chunks;
    if RootInput(a) == RootInput(b) {
      assert Ids(a) == RootInput(a)[11..] && Ids(b) == RootInput(b)[11..];
      IdsInjective(a, b);
      if !Collision(h, a, b) {
        forall i | 0 <= i < |a|
          ensures a[i] == b[i]
        {
          assert GoodChunk(h, a[i]) && GoodChunk(h, b[i]);
          ContentInputInjective(a[i].data, b[i].data);
        }
      }
    }
  }
}
