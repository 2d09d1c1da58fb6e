/**
Content-defined chunking: a rolling hash over the bytes decides where a chunk ends. The chunks
make up the content, keep their size limits, and after a common cut depend only on what follows.
*/
module FastCdc {
  import opened Bytes
  import opened Wrappers
  import opened BitStrings
  import opened PowersOfTwo
  import opened Arithmetic
  import opened Chunking
  import opened Structure
  import opened Hashing

  /** Sizes, and the 128 factors of the rolling hash. */
  datatype Config = Config(min: nat, avg: nat, max: nat, gear: seq<nat>) {
    predicate Valid() {
      0 < min <= avg <= max && |gear| == 128
    }
  }

  function Log2(n: nat): nat {
    if n < 2 then 0 else 1 + Log2(n / 2)
  }

  /** The number of low bits that must be zero at a cut. */
  function MaskBits(avg: nat): nat {
    var bits := if Log2(avg) < 1 then 1 else Log2(avg);
    if bits >= 63 then 64 else bits
  }

  function RotateLeft(x: nat): nat {
    Low(2 * x, 64) + Shr(x, 63)
  }

  function Roll(g: Config, hash: nat, b: byte): nat
    requires g.Valid()
  {
    Low(Low(RotateLeft(hash) * g.gear[b % 128], 64) + b, 64)
  }

  /** Whether a chunk that began at `start` ends before byte i, given the hash with byte i. */
  predicate EndsAt(g: Config, hash: nat, len: nat) {
    (Low(hash, MaskBits(g.avg)) == 0 && len >= g.min) || len >= g.max
  }

  /** The chunks from `start` on, when byte i is the next to enter the hash. */
  function ChunksFrom(g: Config, data: seq<byte>, start: nat, i: nat, hash: nat): seq<seq<byte>>
    requires g.Valid() && start <= i <= |data|
    decreases |data| - i
  {
    if i == |data| then if start < |data| then [data[start..]] else []
    else
      var next := Roll(g, hash, data[i]);
      if EndsAt(g, next, i - start) then [data[start..i]] + ChunksFrom(g, data, i, i + 1, 0)
      else ChunksFrom(g, data, start, i + 1, next)
  }

  /** The first chunk takes its minimum unhashed. */
  function Split(g: Config, data: seq<byte>): seq<seq<byte>>
    requires g.Valid() && data != []
  {
    if |data| <= g.min then [data] else ChunksFrom(g, data, 0, g.min, 0)
  }

  // ---- Nothing is lost ------------------------------------------------------------------------

  lemma {:induction false} ConcatFrom(g: Config, data: seq<byte>, start: nat, i: nat, hash: nat)
    requires g.Valid() && start <= i <= |data|
    ensures Concat(ChunksFrom(g, data, start, i, hash)) == data[start..]
    decreases |data| - i
  {
    hide Roll, EndsAt, Concat;
    if i == |data| {
      NoPieces([]);
      ConcatOne(data[start..]);
    } else {
      var next := Roll(g, hash, data[i]);
      if EndsAt(g, next, i - start) {
        ConcatFrom(g, data, i, i + 1, 0);
        ConcatAppend([data[start..i]], ChunksFrom(g, data, i, i + 1, 0));
        ConcatOne(data[start..i]);
        assert data[start..] == data[start..i] + data[i..];
      } else {
        ConcatFrom(g, data, start, i + 1, next);
      }
    }
  }

  lemma {:induction false} SplitLosesNothing(g: Config, data: seq<byte>)
    requires g.Valid() && data != []
    ensures Concat(Split(g, data)) == data
  {
    hide ChunksFrom, Concat;
    if |data| <= g.min {
      ConcatOne(data);
    } else {
      ConcatFrom(g, data, 0, g.min, 0);
    }
  }

  // ---- Sizes ----------------------------------------------------------------------------------

  ghost predicate Sized(g: Config, chunks: seq<seq<byte>>) {
    && (forall k :: 0 <= k < |chunks| ==> 0 < |chunks[k]| <= g.max)
    && (forall k :: 0 <= k < |chunks| - 1 ==> |chunks[k]| >= g.min)
  }

  lemma {:induction false} SizedFrom(g: Config, data: seq<byte>, start: nat, i: nat, hash: nat)
    requires g.Valid() && start < i <= |data| && i - start <= g.max
    ensures Sized(g, ChunksFrom(g, data, start, i, hash))
    decreases |data| - i
  {
    hide Roll, MaskBits, Low;
    if i < |data| {
      var next := Roll(g, hash, data[i]);
      if EndsAt(g, next, i - start) {
        SizedFrom(g, data, i, i + 1, 0);
      } else {
        SizedFrom(g, data, start, i + 1, next);
      }
    }
  }

  /** No chunk is empty or above the maximum; only the last may be below the minimum. */
  lemma {:induction false} SplitKeepsSizes(g: Config, data: seq<byte>)
    requires g.Valid() && data != []
    ensures Sized(g, Split(g, data))
  {
    hide ChunksFrom;
    if |data| > g.min {
      SizedFrom(g, data, 0, g.min, 0);
    }
  }

  // ---- Edits stay local ------------------------------------------------------------------------

  /** Chunking looks only at what lies between the start of the chunk and the end of the data. */
  lemma {:induction false} ChunksShift(g: Config, a: seq<byte>, b: seq<byte>, s: seq<byte>, start: nat, i: nat, hash: nat)
    requires g.Valid() && start <= i <= |s|
    ensures ChunksFrom(g, a + s, |a| + start, |a| + i, hash) == ChunksFrom(g, b + s, |b| + start, |b| + i, hash)
    decreases |s| - i
  {
    hide Roll, EndsAt;
    assert (a + s)[|a| + start..] == s[start..] && (b + s)[|b| + start..] == s[start..];
    if i < |s| {
      assert (a + s)[|a| + i] == s[i] && (b + s)[|b| + i] == s[i];
      var next := Roll(g, hash, s[i]);
      if EndsAt(g, next, i - start) {
        assert (a + s)[|a| + start..|a| + i] == s[start..i] && (b + s)[|b| + start..|b| + i] == s[start..i];
        ChunksShift(g, a, b, s, i, i + 1, 0);
        assert |a| + i + 1 == |a| + (i + 1) && |b| + i + 1 == |b| + (i + 1);
      } else {
        ChunksShift(g, a, b, s, start, i + 1, next);
        assert |a| + i + 1 == |a| + (i + 1) && |b| + i + 1 == |b| + (i + 1);
      }
    }
  }

  /** A boundary inside the chunks: what follows it is chunked from there with an empty hash. */
  lemma {:induction false} AfterBoundary(g: Config, data: seq<byte>, start: nat, i: nat, hash: nat, k: nat)
    requires g.Valid() && start < i <= |data| && i - start <= g.max
    requires 0 < k < |ChunksFrom(g, data, start, i, hash)|
    ensures var chunks := ChunksFrom(g, data, start, i, hash);
      var p := start + |Concat(chunks[..k])|;
      p < |data| && chunks[k..] == ChunksFrom(g, data, p, p + 1, 0)
    decreases |data| - i
  {
    hide Roll, EndsAt, Concat;
    var chunks := ChunksFrom(g, data, start, i, hash);
    if i < |data| {
      var next := Roll(g, hash, data[i]);
      if EndsAt(g, next, i - start) {
        var first, rest := data[start..i], ChunksFrom(g, data, i, i + 1, 0);
        ConcatOne(first);
        if k == 1 {
          assert chunks[..1] == [first] && chunks[1..] == rest;
        } else {
          AfterBoundary(g, data, i, i + 1, 0, k - 1);
          assert chunks[..k] == [first] + rest[..k - 1] && chunks[k..] == rest[k - 1..];
          ConcatAppend([first], rest[..k - 1]);
        }
      } else {
        EndsAtMax(g, next, i - start);
        AfterBoundary(g, data, start, i + 1, next, k);
      }
    }
  }

  lemma {:induction false} EndsAtMax(g: Config, hash: nat, len: nat)
    requires !EndsAt(g, hash, len)
    ensures len < g.max
  {
  }

  /** Two contents with a common ending that both cut where it begins are chunked alike from there
      on, whatever precedes. */
  lemma {:induction false} SuffixChunksAgree(g: Config, a: seq<byte>, b: seq<byte>, s: seq<byte>, j: nat, k: nat)
    requires g.Valid() && a != [] && b != []
    requires 0 < j < |Split(g, a + s)| && |Concat(Split(g, a + s)[..j])| == |a|
    requires 0 < k < |Split(g, b + s)| && |Concat(Split(g, b + s)[..k])| == |b|
    ensures Split(g, a + s)[j..] == Split(g, b + s)[k..]
  {
    hide ChunksFrom, Concat;
    AfterBoundary(g, a + s, 0, g.min, 0, j);
    AfterBoundary(g, b + s, 0, g.min, 0, k);
    ChunksShift(g, a, b, s, 0, 1, 0);
  }

  // ---- Where chunks end ------------------------------------------------------------------------

  /** The hash of some bytes on 64-bit words: each byte rotates it left by one, multiplies it by the
      factor of the byte and is added. */
  function GearHash(gear: seq<nat>, bytes: seq<byte>): (x: nat)
    requires |gear| == 128
    ensures x < TWO_64
  {
    if bytes == [] then 0
    else
      var l := |bytes| - 1;
      var x, b := GearHash(gear, bytes[..l]), bytes[l];
      ((2 * x % TWO_64 + x / 0x8000_0000_0000_0000) * gear[b % 128] + b) % TWO_64
  }

  /** How many low bits an average size stands for: its binary logarithm, at least 1, and all 64
      from 2^63 on. */
  predicate CutBits(avg: nat, e: nat) {
    if avg < 4 then e == 1
    else if avg >= 0x8000_0000_0000_0000 then e == 64
    else Pow2(e) <= avg < Pow2(e + 1)
  }

  ghost predicate Marked(avg: nat, hash: nat) {
    exists e :: CutBits(avg, e) && Pow2(e) > 0 && hash % Pow2(e) == 0
  }

  /** The first byte that is hashed for the chunk that begins at p: the first chunk takes its minimum
      unhashed, the others their first byte. */
  function FirstHashed(g: Config, p: nat): nat {
    if p == 0 then g.min else p + 1
  }

  /** The chunk that begins at p may end before byte q. */
  ghost predicate MayEnd(g: Config, data: seq<byte>, p: nat, q: nat)
    requires g.Valid() && FirstHashed(g, p) <= q < |data|
  {
    || (q - p >= g.min && Marked(g.avg, GearHash(g.gear, data[FirstHashed(g, p)..q + 1])))
    || q - p >= g.max
  }

  /** The chunks from p on: each ends where it first may, the last one with the data. */
  ghost predicate CutByContent(g: Config, data: seq<byte>, p: nat, chunks: seq<seq<byte>>)
    requires g.Valid() && p < |data|
    decreases |chunks|
  {
    && chunks != [] && chunks[0] != []
    && var q := p + |chunks[0]|;
      && q <= |data| && chunks[0] == data[p..q]
      && (forall i :: FirstHashed(g, p) <= i < q ==> !MayEnd(g, data, p, i))
      && if |chunks| == 1 then q == |data|
         else FirstHashed(g, p) <= q < |data| && MayEnd(g, data, p, q) && CutByContent(g, data, q, chunks[1..])
  }

  lemma {:induction false} LowIsMod(v: nat, m: nat)
    ensures Pow2(m) > 0 && Low(v, m) == v % Pow2(m)
  {
    hide Low, Shr, Pow2;
    Pow2Positive(m);
    LowIsRemainder(v, m);
    QuotientIs(v, Pow2(m), Shr(v, m), Low(v, m));
  }

  lemma {:induction false} LowOfWord(v: nat, n: nat)
    requires n == 64
    ensures Low(v, n) == v % TWO_64
  {
    hide Low, Pow2;
    LowIsMod(v, n);
    Pow2Of64(n);
  }

  lemma {:induction false} RotateIs(x: nat)
    ensures RotateLeft(x) == 2 * x % TWO_64 + x / 0x8000_0000_0000_0000
  {
    hide Low, Shr, Pow2;
    var n: nat := 64;
    LowOfWord(2 * x, n);
    Pow2Of64(n);
    Pow2Next(n - 1);
    LowIsRemainder(x, n - 1);
    QuotientIs(x, 0x8000_0000_0000_0000, Shr(x, n - 1), Low(x, n - 1));
  }

  lemma {:induction false} RollIsHash(g: Config, bytes: seq<byte>, b: byte)
    requires g.Valid()
    ensures Roll(g, GearHash(g.gear, bytes), b) == GearHash(g.gear, bytes + [b])
  {
    hide Low, RotateLeft;
    var x, z: nat := GearHash(g.gear, bytes), 64;
    assert (bytes + [b])[..|bytes|] == bytes;
    RotateIs(x);
    var y := RotateLeft(x) * g.gear[b % 128];
    LowOfWord(y, z);
    LowOfWord(y % TWO_64 + b, z);
    AddedMod(y, b);
  }

  lemma {:induction false} AddedMod(y: nat, b: nat)
    ensures (y % TWO_64 + b) % TWO_64 == (y + b) % TWO_64
  {
  }

  lemma {:induction false} Log2Is(n: nat, e: nat)
    requires Pow2(e) <= n < Pow2(e + 1)
    ensures Log2(n) == e
  {
    if e > 0 {
      Pow2Positive(e - 1);
      Log2Is(n / 2, e - 1);
    }
  }

  lemma {:induction false} Log2Bounds(n: nat)
    requires n > 0
    ensures Pow2(Log2(n)) <= n < Pow2(Log2(n) + 1)
  {
    if n > 1 {
      Log2Bounds(n / 2);
    }
  }

  lemma {:induction false} CutBitsIs(avg: nat, e: nat)
    requires avg > 0
    ensures CutBits(avg, e) <==> e == MaskBits(avg)
  {
    hide Log2, Pow2;
    var z: nat, l := 64, Log2(avg);
    Pow2Of64(z);
    Pow2Next(z - 1);
    Pow2Zero();
    Pow2Next(0);
    Pow2Next(1);
    Log2Bounds(avg);
    if l < 63 {
      Pow2Grows(l + 1, z - 1);
    } else {
      Pow2Grows(z - 1, l);
    }
    if l < 2 {
      Pow2Grows(l + 1, 2);
    } else {
      Pow2Grows(2, l);
    }
    if Pow2(e) <= avg < Pow2(e + 1) {
      Log2Is(avg, e);
    }
  }

  lemma {:induction false} EndsWhereMarked(g: Config, hash: nat, len: nat)
    requires g.Valid()
    ensures EndsAt(g, hash, len) <==> (len >= g.min && Marked(g.avg, hash)) || len >= g.max
  {
    hide Low, Pow2, MaskBits, CutBits;
    var e := MaskBits(g.avg);
    CutBitsIs(g.avg, e);
    LowIsMod(hash, e);
    if Marked(g.avg, hash) {
      var f :| CutBits(g.avg, f) && Pow2(f) > 0 && hash % Pow2(f) == 0;
      CutBitsIs(g.avg, f);
    }
  }

  /** The state of the scan: the bytes hashed so far, none of which ended the chunk. */
  ghost predicate Scanned(g: Config, data: seq<byte>, p: nat, i: nat, hash: nat)
    requires g.Valid()
  {
    && FirstHashed(g, p) <= i <= |data| && hash == GearHash(g.gear, data[FirstHashed(g, p)..i])
    && forall j :: FirstHashed(g, p) <= j < i ==> !MayEnd(g, data, p, j)
  }

  lemma {:induction false} ScanStep(g: Config, data: seq<byte>, p: nat, i: nat, hash: nat)
    requires g.Valid() && Scanned(g, data, p, i, hash) && i < |data|
    ensures var next := Roll(g, hash, data[i]);
      && (EndsAt(g, next, i - p) <==> MayEnd(g, data, p, i))
      && (!EndsAt(g, next, i - p) ==> Scanned(g, data, p, i + 1, next))
  {
    hide Roll, EndsAt, GearHash, Marked;
    var f := FirstHashed(g, p);
    RollIsHash(g, data[f..i], data[i]);
    assert data[f..i] + [data[i]] == data[f..i + 1];
    EndsWhereMarked(g, Roll(g, hash, data[i]), i - p);
  }

  lemma {:induction false} NothingScanned(g: Config, data: seq<byte>, p: nat)
    requires g.Valid() && FirstHashed(g, p) <= |data|
    ensures Scanned(g, data, p, FirstHashed(g, p), 0)
  {
  }

  lemma {:induction false} CutFrom(g: Config, data: seq<byte>, p: nat, i: nat, hash: nat)
    requires g.Valid() && p < |data| && p < i && Scanned(g, data, p, i, hash)
    ensures CutByContent(g, data, p, ChunksFrom(g, data, p, i, hash))
    decreases |data| - i
  {
    hide Roll, EndsAt, MayEnd;
    if i == |data| {
      LastFrom(g, data, p, hash);
    } else {
      ScanStep(g, data, p, i, hash);
      StepFrom(g, data, p, i, hash);
      var next := Roll(g, hash, data[i]);
      if EndsAt(g, next, i - p) {
        NothingScanned(g, data, i);
        CutFrom(g, data, i, i + 1, 0);
        var rest := ChunksFrom(g, data, i, i + 1, 0);
        assert ([data[p..i]] + rest)[1..] == rest;
      } else {
        CutFrom(g, data, p, i + 1, next);
      }
    }
  }

  /** Every chunk ends where it first may. */
  lemma {:induction false} SplitCutsByContent(g: Config, data: seq<byte>)
    requires g.Valid() && data != []
    ensures CutByContent(g, data, 0, Split(g, data))
  {
    hide ChunksFrom, MayEnd, Scanned;
    if |data| > g.min {
      NothingScanned(g, data, 0);
      CutFrom(g, data, 0, g.min, 0);
    }
  }

  /** Nothing else is cut that way. */
  lemma {:induction false} CutsUnique(g: Config, data: seq<byte>, p: nat, a: seq<seq<byte>>, b: seq<seq<byte>>)
    requires g.Valid() && p < |data| && CutByContent(g, data, p, a) && CutByContent(g, data, p, b)
    ensures a == b
    decreases |a|
  {
    hide MayEnd;
    var q, r := p + |a[0]|, p + |b[0]|;
    assert q == r;
    if |a| > 1 {
      CutsUnique(g, data, q, a[1..], b[1..]);
      assert a == [a[0]] + a[1..] && b == [b[0]] + b[1..];
    }
  }

  // ---- The method ------------------------------------------------------------------------------

  datatype FastCdcSplit = FastCdcSplit(chunks: seq<seq<byte>>, chunkIds: seq<Digest>)

  ghost predicate Identified(h: Hash, s: FastCdcSplit) {
    |s.chunkIds| == |s.chunks| && forall k :: 0 <= k < |s.chunks| ==> s.chunkIds[k] == ContentId(h, s.chunks[k])
  }

  lemma {:induction false} OneMoreIdentified(h: Hash, chunks: seq<seq<byte>>, ids: seq<Digest>, next: seq<byte>)
    ensures Identified(h, FastCdcSplit([], []))
    ensures Identified(h, FastCdcSplit(chunks, ids)) ==>
      Identified(h, FastCdcSplit(chunks + [next], ids + [ContentId(h, next)]))
  {
    hide ContentId;
  }

  /** Refused exactly for empty data or sizes out of order. */
  method SplitData(h: Hash, g: Config, data: seq<byte>) returns (r: Option<FastCdcSplit>)
    requires |g.gear| == 128
    ensures r.Some? <==> data != [] && g.Valid()
    ensures r.Some? ==> r.value.chunks == Split(g, data) && Identified(h, r.value)
    ensures r.Some? ==> Concat(r.value.chunks) == data && Sized(g, r.value.chunks)
    ensures r.Some? ==> CutByContent(g, data, 0, r.value.chunks)
  {
    hide Roll, EndsAt, ContentId, ChunksFrom, Concat, Sized, Identified, CutByContent;
    if data == [] || g.min == 0 || g.avg == 0 || g.max == 0 || g.min > g.avg || g.avg > g.max {
      return None;
    }
    SplitLosesNothing(g, data);
    SplitKeepsSizes(g, data);
    SplitCutsByContent(g, data);
    OneMoreIdentified(h, [], [], data);
    assert [] + [data] == [data] && [] + [ContentId(h, data)] == [ContentId(h, data)];
    if g.min >= |data| {
      return Some(FastCdcSplit([data], [ContentId(h, data)]));
    }
    var chunks: seq<seq<byte>> := [];
    var ids: seq<Digest> := [];
    var start, hash, i := 0, 0, g.min;
    while i < |data|
      invariant start < i <= |data|
      invariant chunks + ChunksFrom(g, data, start, i, hash) == Split(g, data)
      invariant Identified(h, FastCdcSplit(chunks, ids))
    {
      StepFrom(g, data, start, i, hash);
      hash := Roll(g, hash, data[i]);
      if EndsAt(g, hash, i - start) {
        OneMoreIdentified(h, chunks, ids, data[start..i]);
        ids := ids + [ContentId(h, data[start..i])];
        chunks := chunks + [data[start..i]];
        start, hash := i, 0;
      }
      i := i + 1;
    }
    LastFrom(g, data, start, hash);
    OneMoreIdentified(h, chunks, ids, data[start..]);
    ids := ids + [ContentId(h, data[start..])];
    chunks := chunks + [data[start..]];
    return Some(FastCdcSplit(chunks, ids));
  }

  lemma {:induction false} StepFrom(g: Config, data: seq<byte>, start: nat, i: nat, hash: nat)
    requires g.Valid() && start <= i < |data|
    ensures var next := Roll(g, hash, data[i]);
      ChunksFrom(g, data, start, i, hash) ==
      if EndsAt(g, next, i - start) then [data[start..i]] + ChunksFrom(g, data, i, i + 1, 0)
      else ChunksFrom(g, data, start, i + 1, next)
  {
  }

  lemma {:induction false} LastFrom(g: Config, data: seq<byte>, start: nat, hash: nat)
    requires g.Valid() && start < |data|
    ensures ChunksFrom(g, data, start, |data|, hash) == [data[start..]]
  {
  }
}
