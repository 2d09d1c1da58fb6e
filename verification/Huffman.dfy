/**
The lossless codec: a header, a table of code lengths and the packed codes. Unpacking undoes
packing exactly when no code is longer than 32 bits and the input is at most 4 GiB.
*/
module Huffman {
  import opened Bytes
  import opened Wrappers
  import opened PowersOfTwo
  import opened BitStrings
  import opened HuffmanTree
  import opened HuffmanLengths
  import opened CanonicalCode
  import opened HuffmanPacking
  import opened HuffmanTables
  import opened HuffmanBuilding
  import opened HuffmanDecoding

  const MAGIC: seq<byte> := [0xB5, 0x48, 0x46, 0x4D, 0x31, 0, 0, 0]
  const VERSION: byte := 1
  const MAX_DECOMPRESSED_BYTES := 4 * 1024 * 1024 * 1024
  const MAX_CODE_LEN := 32
  /** Magic, version, original length and number of table entries. */
  const FIXED := 19

  // ---- Frequencies --------------------------------------------------------------------------

  function Frequencies(data: seq<byte>): (freq: seq<nat>)
    ensures |freq| == 256
  {
    seq(256, b requires 0 <= b < 256 => multiset(data)[b as byte])
  }

  method CountBytes(data: seq<byte>) returns (freq: seq<nat>)
    ensures freq == Frequencies(data)
  {
    freq := Zeros(256);
    for i := 0 to |data|
      invariant freq == Frequencies(data[..i])
    {
      NextFrequency(data, i);
      freq := freq[data[i] := freq[data[i]] + 1];
    }
    assert data[..|data|] == data;
  }

  lemma {:induction false} NextFrequency(data: seq<byte>, i: nat)
    requires i < |data|
    ensures var freq := Frequencies(data[..i]);
      Frequencies(data[..i + 1]) == freq[data[i] := freq[data[i]] + 1]
  {
    assert data[..i + 1] == data[..i] + [data[i]];
  }

  lemma {:induction false} FrequenciesTotal(data: seq<byte>)
    ensures Sum(Frequencies(data)) == |data|
  {
    if data == [] {
      ZerosTotal(256);
      assert Frequencies(data) == Zeros(256);
    } else {
      hide Frequencies, Sum;
      var n := |data| - 1;
      FrequenciesTotal(data[..n]);
      assert data[..n + 1] == data;
      NextFrequency(data, n);
      var freq := Frequencies(data[..n]);
      SumUpdate(freq, data[n], freq[data[n]] + 1);
    }
  }

  lemma {:induction false} ZerosTotal(n: nat)
    ensures Sum(Zeros(n)) == 0
  {
    if n > 0 {
      ZerosTotal(n - 1);
      assert Zeros(n)[..n - 1] == Zeros(n - 1);
    }
  }

  // ---- The table of code lengths -------------------------------------------------------------

  ghost predicate ByteLengths(lens: seq<nat>) {
    |lens| == 256 && forall s :: 0 <= s < 256 ==> lens[s] < 256
  }

  /** Symbol and length of every used symbol below n. */
  function Table(lens: seq<nat>, n: nat): (t: seq<byte>)
    requires n <= 256 && ByteLengths(lens)
    ensures |t| == 2 * Entries(lens, n)
  {
    if n == 0 then []
    else Table(lens, n - 1) + (if lens[n - 1] > 0 then [n - 1, lens[n - 1]] else [])
  }

  function Entries(lens: seq<nat>, n: nat): (k: nat)
    requires n <= |lens|
    ensures k <= n
  {
    if n == 0 then 0 else Entries(lens, n - 1) + (if lens[n - 1] > 0 then 1 else 0)
  }

  /** The lengths a table of k entries gives, if no symbol is entered again after a length. */
  function ReadTable(t: seq<byte>, k: nat): (r: Option<seq<nat>>)
    requires 2 * k <= |t|
    ensures r.Some? ==> ByteLengths(r.value)
  {
    if k == 0 then Some(Zeros(256))
    else
      match ReadTable(t, k - 1)
      case None => None
      case Some(lens) =>
        var sym, l := t[2 * k - 2], t[2 * k - 1];
        if lens[sym] != 0 then None else Some(lens[sym := l])
  }

  lemma {:induction false} ReadTablePrefix(t: seq<byte>, more: seq<byte>, k: nat)
    requires 2 * k <= |t|
    ensures ReadTable(t + more, k) == ReadTable(t, k)
  {
    if k > 0 {
      ReadTablePrefix(t, more, k - 1);
    }
  }

  function FirstLengths(lens: seq<nat>, n: nat): (r: seq<nat>)
    requires n <= |lens|
    ensures |r| == |lens|
  {
    seq(|lens|, s requires 0 <= s < |lens| => if s < n then lens[s] else 0)
  }

  /** Reading a table back gives the lengths it was written from. */
  lemma {:induction false} TableRoundTrip(lens: seq<nat>, n: nat)
    requires n <= 256 && ByteLengths(lens)
    ensures ReadTable(Table(lens, n), Entries(lens, n)) == Some(FirstLengths(lens, n))
  {
    if n == 0 {
      assert Zeros(256) == FirstLengths(lens, 0);
    } else {
      TableRoundTrip(lens, n - 1);
      if lens[n - 1] > 0 {
        var before, k := Table(lens, n - 1), Entries(lens, n - 1);
        ReadTablePrefix(before, [n - 1, lens[n - 1]], k);
        assert FirstLengths(lens, n - 1)[n - 1 := lens[n - 1]] == FirstLengths(lens, n);
      } else {
        assert Table(lens, n) == Table(lens, n - 1);
        assert FirstLengths(lens, n) == FirstLengths(lens, n - 1);
      }
    }
  }

  method ParseTable(t: seq<byte>, k: nat) returns (r: Option<seq<nat>>)
    requires 2 * k <= |t|
    ensures r == ReadTable(t, k)
  {
    var lens := Zeros(256);
    for i := 0 to k
      invariant ReadTable(t, i) == Some(lens)
    {
      var sym, l := t[2 * i], t[2 * i + 1];
      if lens[sym] != 0 {
        StaysBad(t, i + 1, k);
        return None;
      }
      lens := lens[sym := l];
    }
    return Some(lens);
  }

  lemma {:induction false} StaysBad(t: seq<byte>, i: nat, k: nat)
    requires i <= k && 2 * k <= |t| && ReadTable(t, i) == None
    ensures ReadTable(t, k) == None
  {
    if i < k {
      StaysBad(t, i, k - 1);
    }
  }

  // ---- Packing ---------------------------------------------------------------------------------

  function LengthsOf(data: seq<byte>): (lens: seq<nat>)
    ensures |lens| == 256
  {
    CodeLengths(Frequencies(data))
  }

  /** The longest code the input needs. */
  function LongestCodeOf(data: seq<byte>): nat {
    LongestCode(Frequencies(data))
  }

  lemma {:induction false} LengthsOfData(data: seq<byte>)
    ensures ByteLengths(LengthsOf(data)) && Coded(LengthsOf(data), data)
    ensures forall s :: 0 <= s < 256 ==> LengthsOf(data)[s] <= LongestCodeOf(data)
    ensures LongestCodeOf(data) <= 255
    ensures data != [] ==> exists s :: 0 <= s < 256 && LengthsOf(data)[s] == LongestCodeOf(data) > 0
    ensures data == [] ==> LengthsOf(data) == Zeros(256) && LongestCodeOf(data) == 0
  {
    hide CodeLengths, LongestCode, Frequencies;
    var freq, lens := Frequencies(data), LengthsOf(data);
    LengthsOfUsed(freq);
    UsedBytes(data);
    LongestFitsByte(freq);
  }

  lemma {:induction false} UsedBytes(data: seq<byte>)
    ensures forall i :: 0 <= i < |data| ==> Frequencies(data)[data[i]] > 0
    ensures HasUsed(Frequencies(data)) <==> data != []
  {
    if data != [] {
      assert Frequencies(data)[data[0]] > 0;
    }
  }

  lemma {:induction false} LongestFitsByte(freq: seq<nat>)
    requires |freq| == 256
    ensures LongestCode(freq) <= 255
    ensures !HasUsed(freq) ==> CodeLengths(freq) == Zeros(256) && LongestCode(freq) == 0
  {
    LeavesUsed(freq);
    if HasUsed(freq) {
      HeightFitsByte(HuffmanTreeOf(freq), freq);
    }
  }

  /** Everything that precedes the body. */
  function Head(size: nat, lens: seq<nat>): seq<byte>
    requires ByteLengths(lens)
  {
    MAGIC + [VERSION] + Le(size, 8) + Le(Entries(lens, 256), 2) + Table(lens, 256)
  }

  /** The body holds the codes of the data and fewer than eight zero bits. */
  ghost predicate IsBody(data: seq<byte>, body: seq<byte>) {
    && Coded(LengthsOf(data), data)
    && exists pad: nat :: pad < 8 && BitsOf(body) == Encoded(LengthsOf(data), data) + Bits(0, pad)
  }

  /** How large the packed input is. */
  ghost function PackedSize(data: seq<byte>): nat {
    LengthsOfData(data);
    FIXED + 2 * Entries(LengthsOf(data), 256) + (|Encoded(LengthsOf(data), data)| + 7) / 8
  }

  ghost predicate IsCompressed(data: seq<byte>, out: seq<byte>) {
    && ByteLengths(LengthsOf(data)) && |out| == PackedSize(data)
    && exists body: seq<byte> ::
         && out == Head(|data|, LengthsOf(data)) + body
         && (LongestCodeOf(data) <= 57 ==> IsBody(data, body))
  }

  method Compress(data: seq<byte>) returns (out: seq<byte>)
    ensures IsCompressed(data, out)
  {
    hide Frequencies, CodeLengths, LongestCode, Encoded, Bits, BitsOf, Fits;
    var freq := CountBytes(data);
    var lens := LengthsByFreq(freq);
    LengthsOfData(data);
    var codes := AssignCodes(lens);
    var body := PackBody(data, lens, codes);
    if LongestCodeOf(data) <= 57 {
      FitsData(data, 63);
      assert Short(lens);
      assert IsBody(data, body);
    }
    out := Head(|data|, lens) + body;
  }

  lemma {:induction false} FitsData(data: seq<byte>, m: nat)
    requires LongestCodeOf(data) <= m
    ensures Fits(LengthsOf(data), m)
  {
    LengthsOfData(data);
    KraftHolds(Frequencies(data), m);
  }

  // ---- Unpacking ---------------------------------------------------------------------------------

  /** Which text a byte string unpacks to. */
  ghost predicate Parses(bytes: seq<byte>, out: seq<byte>) {
    && |bytes| >= FIXED && bytes[..8] == MAGIC && bytes[8] == VERSION
    && FromLe(bytes[9..17]) <= MAX_DECOMPRESSED_BYTES
    && |out| == FromLe(bytes[9..17])
    && var k := FromLe(bytes[17..19]);
    && |bytes| >= FIXED + 2 * k
    && ReadTable(bytes[FIXED..], k).Some?
    && ParsesBody(ReadTable(bytes[FIXED..], k).value, k, bytes[FIXED + 2 * k..], out)
  }

  ghost predicate ParsesBody(lens: seq<nat>, k: nat, body: seq<byte>, out: seq<byte>) {
    if out == [] then k == 0 && body == []
    else k > 0 && Fits(lens, MAX_CODE_LEN) && Coded(lens, out) && Encoded(lens, out) <= BitsOf(body)
  }

  lemma {:induction false} ParsesUnique(bytes: seq<byte>, a: seq<byte>, b: seq<byte>)
    requires Parses(bytes, a) && Parses(bytes, b)
    ensures a == b
  {
    hide Fits, Encoded, BitsOf, ReadTable, FromLe;
    if a != [] {
      var k := FromLe(bytes[17..19]);
      Determined(ReadTable(bytes[FIXED..], k).value, MAX_CODE_LEN, BitsOf(bytes[FIXED + 2 * k..]), a, b);
    }
  }

  /** The text, if there is one. */
  ghost function Unpacked(bytes: seq<byte>): (r: Option<seq<byte>>)
    ensures r.Some? ==> Parses(bytes, r.value)
    ensures r.None? ==> forall out :: !Parses(bytes, out)
  {
    if out :| Parses(bytes, out) then Some(out) else None
  }

  method Decompress(bytes: seq<byte>) returns (r: Option<seq<byte>>)
    ensures forall out :: Parses(bytes, out) <==> r == Some(out)
    ensures r == Unpacked(bytes)
  {
    r := Unpack(bytes);
    forall out | Parses(bytes, out)
      ensures r == Some(out)
    {
      ParsesUnique(bytes, out, r.value);
    }
  }

  method Unpack(bytes: seq<byte>) returns (r: Option<seq<byte>>)
    ensures r.Some? ==> Parses(bytes, r.value)
    ensures r.None? ==> forall out :: !Parses(bytes, out)
  {
    hide Fits, Encoded, BitsOf, ReadTable, FromLe;
    if |bytes| < FIXED || bytes[..8] != MAGIC || bytes[8] != VERSION {
      return None;
    }
    var n := FromLe(bytes[9..17]);
    if n > MAX_DECOMPRESSED_BYTES {
      return None;
    }
    var k := FromLe(bytes[17..19]);
    if |bytes| < FIXED + 2 * k {
      return None;
    }
    var table := ParseTable(bytes[FIXED..], k);
    if table.None? {
      return None;
    }
    var body := bytes[FIXED + 2 * k..];
    r := UnpackBody(table.value, k, body, n);
  }

  method UnpackBody(lens: seq<nat>, k: nat, body: seq<byte>, n: nat) returns (r: Option<seq<byte>>)
    requires ByteLengths(lens)
    ensures r.Some? ==> |r.value| == n && ParsesBody(lens, k, body, r.value)
    ensures r.None? ==> forall out :: |out| == n ==> !ParsesBody(lens, k, body, out)
  {
    hide Fits, Encoded, BitsOf;
    if n == 0 {
      return if k != 0 || body != [] then None else Some([]);
    }
    if k == 0 {
      return None;
    }
    var ok := KraftOk(lens);
    if !ok {
      return None;
    }
    var longest := Longest(lens);
    if longest == 0 || longest > MAX_CODE_LEN {
      FitsAtMost(lens);
      NothingCoded(lens);
      return None;
    }
    var d := BuildDecoder(lens);
    r := DecodeBody(body, n, lens, longest, d);
  }

  lemma {:induction false} FitsAtMost(lens: seq<nat>)
    requires Fits(lens, MAX_CODE_LEN)
    ensures forall s :: 0 <= s < |lens| ==> lens[s] <= MAX_CODE_LEN
  {
  }

  lemma {:induction false} NothingCoded(lens: seq<nat>)
    requires |lens| == 256
    ensures (forall s :: 0 <= s < 256 ==> lens[s] == 0) ==> forall out :: out != [] ==> !Coded(lens, out)
  {
    forall out: seq<byte> | out != [] && Coded(lens, out)
      ensures exists s :: 0 <= s < 256 && lens[s] > 0
    {
      assert lens[out[0]] > 0;
    }
  }

  method Longest(lens: seq<nat>) returns (m: nat)
    ensures forall s :: 0 <= s < |lens| ==> lens[s] <= m
    ensures m > 0 ==> exists s :: 0 <= s < |lens| && lens[s] == m
  {
    m := 0;
    for i := 0 to |lens|
      invariant forall s :: 0 <= s < i ==> lens[s] <= m
      invariant m > 0 ==> exists s :: 0 <= s < i && lens[s] == m
    {
      if lens[i] > m {
        m := lens[i];
      }
    }
  }

  // ---- The round trip ------------------------------------------------------------------------------

  /** What the parser sees of a head followed by a body. */
  lemma {:induction false} HeadFields(size: nat, lens: seq<nat>, body: seq<byte>)
    requires ByteLengths(lens) && size < TWO_64
    ensures var bytes := Head(size, lens) + body;
      && |bytes| >= FIXED && bytes[..8] == MAGIC && bytes[8] == VERSION
      && FromLe(bytes[9..17]) == size && FromLe(bytes[17..19]) == Entries(lens, 256)
      && bytes[FIXED..] == Table(lens, 256) + body
      && |bytes| >= FIXED + 2 * Entries(lens, 256)
      && bytes[FIXED + 2 * Entries(lens, 256)..] == body
  {
    hide Le, FromLe, Pow256, Table, Entries;
    var bytes := Head(size, lens) + body;
    assert bytes[9..17] == Le(size, 8);
    assert bytes[17..19] == Le(Entries(lens, 256), 2);
    Widths(2, 4, 8);
    FromLeOfLe(size, 8);
    FromLeOfLe(Entries(lens, 256), 2);
  }

  lemma {:induction false} TableReadsBack(lens: seq<nat>, body: seq<byte>)
    requires ByteLengths(lens)
    ensures ReadTable(Table(lens, 256) + body, Entries(lens, 256)) == Some(lens)
  {
    hide ReadTable, Table, Entries;
    TableRoundTrip(lens, 256);
    ReadTablePrefix(Table(lens, 256), body, Entries(lens, 256));
    assert FirstLengths(lens, 256) == lens;
  }

  lemma {:induction false} NoEntries(lens: seq<nat>, n: nat)
    requires n <= |lens|
    ensures Entries(lens, n) == 0 <==> forall s :: 0 <= s < n ==> lens[s] == 0
  {
    if n > 0 {
      NoEntries(lens, n - 1);
    }
  }

  /** Packed data parses to itself exactly when codes and size are within the limits. */
  lemma {:induction false} CompressedParses(data: seq<byte>, out: seq<byte>)
    requires IsCompressed(data, out) && |data| < TWO_64
    ensures Parses(out, data) <==> LongestCodeOf(data) <= 32 && |data| <= 4_294_967_296
    ensures forall text :: Parses(out, text) ==> text == data
  {
    hide Fits, Encoded, BitsOf, ReadTable, FromLe, LengthsOf, LongestCodeOf, Head, Table, Entries, Bits;
    var lens := LengthsOf(data);
    LengthsOfData(data);
    var body: seq<byte> :| out == Head(|data|, lens) + body && (LongestCodeOf(data) <= 57 ==> IsBody(data, body));
    HeadFields(|data|, lens, body);
    TableReadsBack(lens, body);
    NoEntries(lens, 256);
    CompressedBody(data, body);
    forall text | Parses(out, text)
      ensures text == data
    {
      if data != [] {
        assert Fits(lens, MAX_CODE_LEN);
        FitsAtMost(lens);
        assert ParsesBody(lens, Entries(lens, 256), body, data);
        ParsesUnique(out, data, text);
      }
    }
  }

  /** The same, as the value that unpacking gives. */
  lemma {:induction false} UnpackedCompressed(data: seq<byte>, out: seq<byte>)
    requires IsCompressed(data, out) && |data| < TWO_64
    ensures Unpacked(out) ==
            if LongestCodeOf(data) <= MAX_CODE_LEN && |data| <= MAX_DECOMPRESSED_BYTES then Some(data) else None
  {
    hide IsCompressed, Parses, LongestCodeOf;
    CompressedParses(data, out);
  }

  lemma {:induction false} CompressedBody(data: seq<byte>, body: seq<byte>)
    requires LongestCodeOf(data) <= 57 ==> IsBody(data, body)
    ensures var lens := LengthsOf(data);
      LongestCodeOf(data) <= MAX_CODE_LEN <==> ParsesBody(lens, Entries(lens, 256), body, data)
  {
    hide Fits, Encoded, BitsOf, LengthsOf, LongestCodeOf, Entries, Bits;
    var lens := LengthsOf(data);
    LengthsOfData(data);
    NoEntries(lens, 256);
    if LongestCodeOf(data) <= MAX_CODE_LEN {
      FitsData(data, MAX_CODE_LEN);
      if data == [] {
        NothingEncoded(lens, data);
      }
    } else if Fits(lens, MAX_CODE_LEN) {
      FitsAtMost(lens);
    }
  }

  lemma {:induction false} NothingEncoded(lens: seq<nat>, data: seq<byte>)
    requires data == [] && |lens| == 256
    ensures Encoded(lens, data) == []
  {
  }

  /** Packing and unpacking. Short inputs always survive. */
  method RoundTrip(data: seq<byte>) returns (r: Option<seq<byte>>)
    requires |data| < TWO_64
    ensures r == if LongestCodeOf(data) <= 32 && |data| <= 4_294_967_296 then Some(data) else None
    ensures |data| < TOO_SHORT_FOR_33_BITS ==> r == Some(data)
  {
    hide Parses, IsCompressed, LongestCodeOf;
    var out := Compress(data);
    r := Decompress(out);
    UnpackedCompressed(data, out);
    if |data| < TOO_SHORT_FOR_33_BITS {
      ShortDataFits(data);
    }
  }

  lemma {:induction false} ShortDataFits(data: seq<byte>)
    requires |data| < TOO_SHORT_FOR_33_BITS
    ensures LongestCodeOf(data) <= MAX_CODE_LEN
  {
    FrequenciesTotal(data);
    ShortInputsHaveShortCodes(Frequencies(data));
  }
}
