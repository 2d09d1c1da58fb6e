/**
The layouts on the wire and on disk, byte by byte: frames, content ids, files and the head of packed
data.
*/
module WireFormats {
  import opened Bytes
  import opened Wrappers
  import opened Chunking
  import opened Hashing
  import opened LinearAlgebra
  import KaruselSending
  import KaruselDecoding
  import S = Structure
  import C = Container
  import H = Huffman

  function Bytes2(n: nat): (s: seq<byte>)
    ensures |s| == 2
  {
    [n % 256, n / 0x100 % 256]
  }

  function Bytes4(n: nat): (s: seq<byte>)
    ensures |s| == 4
  {
    [n % 256, n / 0x100 % 256, n / 0x1_0000 % 256, n / 0x100_0000 % 256]
  }

  lemma {:induction false} LeTwoFour(n: nat, two: nat, four: nat)
    requires two == 2 && four == 4
    ensures Le(n, two) == Bytes2(n) && Le(n, four) == Bytes4(n)
  {
    assert Le(n / 0x100 / 256, two - 2) == [] && Le(n / 0x1_0000_0000, four - 4) == [];
    hide Le;
    LeStep(n, two);
    LeStep(n / 0x100, two - 1);
    LeFour(n, four);
  }

  // ---- Frames --------------------------------------------------------------------------------------

  lemma {:induction false} FrameMagic()
    ensures KaruselDecoding.FRAME_MAGIC == Ascii("BDLMQRV1AB")
  {
  }

  /** A frame: number, turn, flags, length, mark and up to 200 bytes. */
  lemma {:induction false} FrameLayout(seqno: nat, block: nat, flags: byte, payload: Vec)
    ensures KaruselSending.Pack(seqno, block, flags, payload) ==
      if |payload| > 200 then None
      else Some(Bytes4(seqno) + Bytes2(block) + [flags, 0] + Bytes2(|payload|) + Ascii("BDLMQRV1AB") + payload)
  {
    hide Le, Ascii, Bytes2, Bytes4;
    FrameMagic();
    LeTwoFour(seqno, 2, 4);
    LeTwoFour(block, 2, 4);
    LeTwoFour(|payload|, 2, 4);
  }

  /** A frame is read exactly if it is laid out so; its turn and one byte are not looked at. */
  lemma {:induction false} FrameIsRead(frame: Vec, seqno: nat, flags: byte, payload: Vec)
    ensures KaruselDecoding.Parsed(frame) == Some((seqno, flags, payload)) <==>
      && |frame| == 20 + |payload| && |payload| <= 200 && seqno < 0x1_0000_0000
      && frame[0..4] == Bytes4(seqno) && frame[6] == flags && frame[8..10] == Bytes2(|payload|)
      && frame[10..20] == Ascii("BDLMQRV1AB") && frame[20..] == payload
  {
    hide Le, FromLe, Ascii, Bytes2, Bytes4, Pow256;
    FrameMagic();
    Widths(2, 4, 8);
    LeTwoFour(seqno, 2, 4);
    LeTwoFour(|payload|, 2, 4);
    if |frame| >= 20 {
      LeOfFromLe(frame[0..4]);
      LeOfFromLe(frame[8..10]);
    }
    if seqno < 0x1_0000_0000 {
      FromLeOfLe(seqno, 4);
    }
    if |payload| <= 200 {
      FromLeOfLe(|payload|, 2);
    }
  }

  // ---- Content ids and files -----------------------------------------------------------------------

  lemma {:induction false} ContentTag()
    ensures Ascii("BDLM_CONTENT_V1") ==
      [0x42, 0x44, 0x4C, 0x4D, 0x5F, 0x43, 0x4F, 0x4E, 0x54, 0x45, 0x4E, 0x54, 0x5F, 0x56, 0x31]
  {
  }

  /** The id of some bytes: the hash of a tag, their number and the bytes. */
  lemma {:induction false} ContentIdLayout(h: Hash, bytes: seq<byte>)
    ensures S.ContentId(h, bytes) == h(Ascii("BDLM_CONTENT_V1") + Bytes8(|bytes|) + bytes)
  {
    hide Le, Ascii, Bytes8;
    ContentTag();
    LeEight(|bytes|, 8);
  }

  function FormatNumber(c: C.FormatCodec): nat {
    match c
    case Unknown => 0
    case JsonFormat => 1
    case CsvFormat => 2
    case LogFormat => 3
    case TextFormat => 4
    case Mp4 => 10
    case Jpeg => 11
    case Png => 12
    case Pdf => 16
  }

  function PackingNumber(c: C.ChunkCodec): byte {
    match c
    case Raw => 0
    case HuffmanCoded => 1
    case Zstd => 2
  }

  function IdOf(h: Hash, data: seq<byte>): Digest {
    h(Ascii("BDLM_CONTENT_V1") + Bytes8(|data|) + data)
  }

  /** One chunk of a file: its size, its id and its bytes. */
  function ChunkLayout(h: Hash, data: seq<byte>): seq<byte> {
    Bytes8(|data|) + IdOf(h, data) + data
  }

  function AllIds(h: Hash, datas: seq<seq<byte>>): seq<byte> {
    if datas == [] then [] else IdOf(h, datas[0]) + AllIds(h, datas[1..])
  }

  function AllChunks(h: Hash, datas: seq<seq<byte>>): seq<byte> {
    if datas == [] then [] else ChunkLayout(h, datas[0]) + AllChunks(h, datas[1..])
  }

  /** A file that holds these chunks: mark, format, root digest, number and size of the chunks, how they
      are packed, their number again, and the chunks. */
  function FileLayout(h: Hash, format: C.FormatCodec, packing: C.ChunkCodec, datas: seq<seq<byte>>): seq<byte> {
    [0xB5, 0x55, 0x44, 0xB0, 2, 0, 0, 0] + Bytes2(FormatNumber(format)) + [0x16, 32]
    + h(Ascii("BDLM_BUD_V2") + AllIds(h, datas)) + Bytes4(|datas|) + Bytes8(|Concat(datas)|)
    + [PackingNumber(packing)] + Bytes4(|datas|) + AllChunks(h, datas)
  }

  lemma {:induction false} RootTag()
    ensures Ascii("BDLM_BUD_V2") == [0x42, 0x44, 0x4C, 0x4D, 0x5F, 0x42, 0x55, 0x44, 0x5F, 0x56, 0x32]
  {
  }

  lemma {:induction false} IdsLayout(h: Hash, chunks: seq<S.StructuralChunk>)
    requires chunks == S.ChunksOf(h, S.Datas(chunks))
    ensures C.Ids(chunks) == AllIds(h, S.Datas(chunks)) && C.Records(chunks) == AllChunks(h, S.Datas(chunks))
  {
    hide S.ContentId, Le, Bytes8, Ascii;
    if chunks != [] {
      var rest, datas := chunks[1..], S.Datas(chunks);
      assert chunks[0] == S.ChunkOf(h, datas[0]);
      assert datas[1..] == S.Datas(rest);
      forall i | 0 <= i < |rest|
        ensures rest[i] == S.ChunkOf(h, S.Datas(rest)[i])
      {
        assert chunks[i + 1] == S.ChunkOf(h, datas[i + 1]);
      }
      assert rest == S.ChunksOf(h, S.Datas(rest));
      IdsLayout(h, rest);
      ContentIdLayout(h, datas[0]);
      LeEight(|datas[0]|, 8);
    }
  }

  /** The bytes of a file made from chunks. */
  lemma {:induction false} FileIsLaidOut(h: Hash, format: C.FormatCodec, packing: C.ChunkCodec, chunks: seq<S.StructuralChunk>)
    requires chunks == S.ChunksOf(h, S.Datas(chunks)) && |chunks| < 0x1_0000_0000
    ensures C.FileBytes(C.BudV2File(C.NewHeader(h, format, chunks), packing, chunks)) ==
            FileLayout(h, format, packing, S.Datas(chunks))
  {
    hide Le, Bytes2, Bytes4, Bytes8, Ascii, S.ContentId, C.Records, AllChunks, AllIds, C.Ids, S.Datas;
    var datas := S.Datas(chunks);
    IdsLayout(h, chunks);
    RootTag();
    C.SizeIsConcat(chunks);
    SmallMod(|chunks|, 0x1_0000_0000);
    LeTwoFour(C.CodecNumber(format), 2, 4);
    LeTwoFour(|chunks|, 2, 4);
    LeEight(|Concat(datas)|, 8);
  }

  /** Bytes are taken for a file of some chunks exactly if they are laid out so, except that other numbers
      than the known ones stand for an unknown format, and one byte is not looked at. */
  lemma {:induction false} FileIsRead(h: Hash, raw: seq<byte>, format: C.FormatCodec, packing: C.ChunkCodec,
                                      chunks: seq<S.StructuralChunk>)
    requires chunks == S.ChunksOf(h, S.Datas(chunks)) && |chunks| < 0x1_0000_0000 && C.Size(chunks) < 0x1_0000_0000_0000_0000
    ensures var layout := FileLayout(h, format, packing, S.Datas(chunks));
      C.FileImage(raw, C.BudV2File(C.NewHeader(h, format, chunks), packing, chunks)) <==>
      && |raw| == |layout| && C.CodecFrom(FromLe(raw[8..10])) == format
      && forall i :: 0 <= i < |raw| && i != 8 && i != 9 && i != 11 ==> raw[i] == layout[i]
  {
    hide C.FileBytes, FileLayout, C.FileImage, S.Datas, C.Size, C.NewHeader;
    var f := C.BudV2File(C.NewHeader(h, format, chunks), packing, chunks);
    FileIsLaidOut(h, format, packing, chunks);
    HeaderOfNew(h, format, chunks);
    ImageIff(raw, f);
  }

  lemma {:induction false} HeaderOfNew(h: Hash, format: C.FormatCodec, chunks: seq<S.StructuralChunk>)
    requires C.Size(chunks) < 0x1_0000_0000_0000_0000
    ensures C.HeaderFits(C.NewHeader(h, format, chunks)) && C.NewHeader(h, format, chunks).codec == format
  {
    hide C.Size, C.RootInput;
  }

  lemma {:induction false} ImageIff(raw: seq<byte>, f: C.BudV2File)
    requires C.HeaderFits(f.header)
    ensures |C.FileBytes(f)| >= 61
    ensures C.FileImage(raw, f) <==>
      && |raw| == |C.FileBytes(f)| && C.CodecFrom(FromLe(raw[8..10])) == f.header.codec
      && forall i :: 0 <= i < |raw| && i != 8 && i != 9 && i != 11 ==> raw[i] == C.FileBytes(f)[i]
  {
    hide Le, FromLe, C.Records, C.Preamble;
    var d, bytes := f.header, C.FileBytes(f);
    C.HeaderSize(d);
    assert |C.Preamble(f)| == 5 by {
      PreambleSize(f);
    }
    var tail := d.contentId.digest + Le(d.chunkCount, 4) + Le(d.totalLen, 8);
    assert C.HeaderBytes(d) == d.magic + Le(C.CodecNumber(d.codec), 2) + [d.contentId.algo, 32] + tail;
    assert bytes[..8] == d.magic && bytes[10] == d.contentId.algo && bytes[12..56] == tail;
    assert bytes[56..61] == C.Preamble(f) && bytes[61..] == C.Records(f.chunks);
    if |raw| >= 61 {
      assert raw[..56][..8] == raw[..8] && raw[..56][8..10] == raw[8..10] && raw[..56][12..] == raw[12..56];
      assert raw == raw[..8] + raw[8..10] + [raw[10]] + [raw[11]] + raw[12..56] + raw[56..61] + raw[61..];
      assert bytes == bytes[..8] + bytes[8..10] + [bytes[10]] + [bytes[11]] + bytes[12..56] + bytes[56..61] + bytes[61..];
    }
  }

  lemma {:induction false} PreambleSize(f: C.BudV2File)
    ensures |C.Preamble(f)| == 5
  {
  }

  // ---- The head of packed data ---------------------------------------------------------------------

  /** The symbols with a code, ascending. */
  function UsedSymbols(lens: seq<nat>, n: nat): (used: seq<nat>)
    requires n <= |lens|
    ensures forall i :: 0 <= i < |used| ==> used[i] < n && lens[used[i]] > 0
    ensures forall i, j :: 0 <= i < j < |used| ==> used[i] < used[j]
    ensures forall s :: 0 <= s < n && lens[s] > 0 ==> s in used
  {
    if n == 0 then [] else UsedSymbols(lens, n - 1) + if lens[n - 1] > 0 then [n - 1] else []
  }

  ghost predicate Lists(table: seq<byte>, used: seq<nat>, lens: seq<nat>)
    requires forall i :: 0 <= i < |used| ==> used[i] < |lens|
  {
    |table| == 2 * |used| && forall i :: 0 <= i < |used| ==> table[2 * i] == used[i] && table[2 * i + 1] == lens[used[i]]
  }

  lemma {:induction false} TableLayout(lens: seq<nat>, n: nat)
    requires n <= 256 && H.ByteLengths(lens)
    ensures |UsedSymbols(lens, n)| == H.Entries(lens, n)
    ensures Lists(H.Table(lens, n), UsedSymbols(lens, n), lens)
  {
    hide H.Table, H.Entries, UsedSymbols, Lists;
    if n == 0 {
      NothingListed(lens);
    } else {
      TableLayout(lens, n - 1);
      TableSteps(lens, n);
      if lens[n - 1] > 0 {
        ListsMore(H.Table(lens, n - 1), UsedSymbols(lens, n - 1), lens, n - 1);
      }
    }
  }

  lemma {:induction false} NothingListed(lens: seq<nat>)
    requires H.ByteLengths(lens)
    ensures UsedSymbols(lens, 0) == [] && H.Table(lens, 0) == [] && H.Entries(lens, 0) == 0 && Lists([], [], lens)
  {
  }

  lemma {:induction false} TableSteps(lens: seq<nat>, n: nat)
    requires 0 < n <= 256 && H.ByteLengths(lens)
    ensures H.Entries(lens, n) == H.Entries(lens, n - 1) + if lens[n - 1] > 0 then 1 else 0
    ensures lens[n - 1] > 0 ==>
      && UsedSymbols(lens, n) == UsedSymbols(lens, n - 1) + [n - 1]
      && H.Table(lens, n) == H.Table(lens, n - 1) + [n - 1, lens[n - 1]]
    ensures lens[n - 1] == 0 ==>
      UsedSymbols(lens, n) == UsedSymbols(lens, n - 1) && H.Table(lens, n) == H.Table(lens, n - 1)
  {
  }

  lemma {:induction false} ListsMore(table: seq<byte>, used: seq<nat>, lens: seq<nat>, s: nat)
    requires (forall i :: 0 <= i < |used| ==> used[i] < |lens|) && Lists(table, used, lens)
    requires s < |lens| && s < 256 && lens[s] < 256
    ensures Lists(table + [s, lens[s]], used + [s], lens)
  {
    var more, all := table + [s, lens[s]], used + [s];
    forall i | 0 <= i < |all|
      ensures more[2 * i] == all[i] && more[2 * i + 1] == lens[all[i]]
    {
      if i < |used| {
        assert more[2 * i] == table[2 * i] && more[2 * i + 1] == table[2 * i + 1];
      }
    }
  }

  /** The head of packed data: mark, version, size of the input, number of entries, and then symbol and
      code length of every symbol that occurs. */
  ghost predicate HeadLayout(head: seq<byte>, size: nat, lens: seq<nat>)
    requires |lens| == 256
  {
    var used := UsedSymbols(lens, 256);
    && |head| == 19 + 2 * |used|
    && head[..19] == [0xB5, 0x48, 0x46, 0x4D, 0x31, 0, 0, 0, 1] + Bytes8(size) + Bytes2(|used|)
    && forall i :: 0 <= i < |used| ==> head[19 + 2 * i] == used[i] && head[20 + 2 * i] == lens[used[i]]
  }

  lemma {:induction false} HeadIsLaidOut(size: nat, lens: seq<nat>)
    requires H.ByteLengths(lens)
    ensures HeadLayout(H.Head(size, lens), size, lens)
  {
    hide Le, Bytes2, Bytes8, H.Table, H.Entries, UsedSymbols;
    var head, used, table := H.Head(size, lens), UsedSymbols(lens, 256), H.Table(lens, 256);
    TableLayout(lens, 256);
    LeTwoFour(|used|, 2, 4);
    LeEight(size, 8);
    var fixed := H.MAGIC + [H.VERSION] + Le(size, 8) + Le(|used|, 2);
    assert H.MAGIC + [H.VERSION] == [0xB5, 0x48, 0x46, 0x4D, 0x31, 0, 0, 0, 1];
    assert head == fixed + table && head[..19] == fixed;
    forall i | 0 <= i < |used|
      ensures head[19 + 2 * i] == used[i] && head[20 + 2 * i] == lens[used[i]]
    {
      assert head[19 + 2 * i] == table[2 * i] && head[20 + 2 * i] == table[2 * i + 1];
    }
  }

  /** Only bytes with this head and with room for the table are unpacked. */
  lemma {:induction false} HeadIsNeeded(bytes: seq<byte>, out: seq<byte>)
    requires H.Parses(bytes, out)
    ensures |bytes| >= 19 && bytes[..9] == [0xB5, 0x48, 0x46, 0x4D, 0x31, 0, 0, 0, 1]
    ensures bytes[9..17] == Bytes8(|out|) && |out| <= 4_294_967_296
    ensures |bytes| >= 19 + 2 * (bytes[17] as int + 256 * (bytes[18] as int))
  {
    hide Le, FromLe, Bytes8, H.ReadTable, H.ParsesBody;
    assert bytes[..9] == bytes[..8] + [bytes[8]];
    LeOfFromLe(bytes[9..17]);
    LeEight(|out|, 8);
    FromTwo(bytes[17..19]);
  }

  lemma {:induction false} FromTwo(s: seq<byte>)
    requires |s| == 2
    ensures FromLe(s) == s[0] as int + 256 * (s[1] as int)
  {
    assert s[1..][1..] == [] && FromLe(s[1..]) == s[1];
  }
}
