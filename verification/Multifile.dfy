/**
The tenant store: files are cut into blocks, equal blocks are kept once, and a file is a list of
block ids. Also the block-wise delta between two versions of a file.
*/
module Multifile {
  import opened Bytes
  import opened Arithmetic
  import opened Wrappers
  import opened Chunking
  import opened Hashing
  import opened Structure

  const MAX_CHUNK := 64 * 1024 * 1024

  // ---- Looking up blocks ------------------------------------------------------------------------

  /** The first block of the pool with this id. */
  function Find(pool: seq<StructuralChunk>, id: Digest): Option<seq<byte>> {
    if pool == [] then None
    else
      var n := |pool| - 1;
      match Find(pool[..n], id)
      case Some(d) => Some(d)
      case None => if pool[n].contentId == id then Some(pool[n].data) else None
  }

  ghost predicate Holds(pool: seq<StructuralChunk>, k: int, id: Digest) {
    0 <= k < |pool| && pool[k].contentId == id
  }

  lemma {:induction false} FindMeans(pool: seq<StructuralChunk>, id: Digest)
    ensures Find(pool, id).Some? <==> exists k :: Holds(pool, k, id)
    ensures Find(pool, id).Some? ==> exists k :: Holds(pool, k, id) && pool[k].data == Find(pool, id).value
  {
    if pool != [] {
      var n := |pool| - 1;
      FindMeans(pool[..n], id);
      if Find(pool[..n], id).Some? {
        var k :| Holds(pool[..n], k, id) && pool[..n][k].data == Find(pool[..n], id).value;
        assert Holds(pool, k, id);
      } else if pool[n].contentId == id {
        assert Holds(pool, n, id);
      } else {
        assert forall k :: Holds(pool, k, id) ==> Holds(pool[..n], k, id);
      }
    }
  }

  method FindChunk(pool: seq<StructuralChunk>, id: Digest) returns (r: Option<seq<byte>>)
    ensures r == Find(pool, id)
  {
    for i := 0 to |pool|
      invariant Find(pool[..i], id) == None
    {
      assert pool[..i + 1][..i] == pool[..i];
      if pool[i].contentId == id {
        FindStays(pool[..i + 1], pool[i + 1..], id);
        assert pool[..i + 1] + pool[i + 1..] == pool;
        return Some(pool[i].data);
      }
    }
    assert pool[..|pool|] == pool;
    return None;
  }

  lemma {:induction false} FindStays(pool: seq<StructuralChunk>, more: seq<StructuralChunk>, id: Digest)
    requires Find(pool, id).Some?
    ensures Find(pool + more, id) == Find(pool, id)
  {
    if more == [] {
      assert pool + more == pool;
    } else {
      var n := |more| - 1;
      FindStays(pool, more[..n], id);
      assert (pool + more)[..|pool| + n] == pool + more[..n];
    }
  }

  lemma {:induction false} FindLast(pool: seq<StructuralChunk>, c: StructuralChunk)
    requires Find(pool, c.contentId).None?
    ensures Find(pool + [c], c.contentId) == Some(c.data)
  {
    assert (pool + [c])[..|pool|] == pool;
  }

  // ---- The pool that files leave behind -----------------------------------------------------------

  /** The pool after some blocks: those whose id was not there yet, in order. */
  function Pool(h: Hash, blocks: seq<seq<byte>>): seq<StructuralChunk> {
    if blocks == [] then []
    else
      var n := |blocks| - 1;
      var before := Pool(h, blocks[..n]);
      if Find(before, ContentId(h, blocks[n])).Some? then before else before + [ChunkOf(h, blocks[n])]
  }

  /** What the pool did not have to keep. */
  function Saved(h: Hash, blocks: seq<seq<byte>>): nat {
    if blocks == [] then 0
    else
      var n := |blocks| - 1;
      Saved(h, blocks[..n]) +
      match Find(Pool(h, blocks[..n]), ContentId(h, blocks[n]))
      case Some(d) => |d|
      case None => 0
  }

  ghost predicate DistinctIds(pool: seq<StructuralChunk>) {
    forall i, j :: 0 <= i < j < |pool| ==> pool[i].contentId != pool[j].contentId
  }

  ghost predicate PoolOk(h: Hash, blocks: seq<seq<byte>>, pool: seq<StructuralChunk>) {
    && DistinctIds(pool)
    && forall k :: 0 <= k < |pool| ==> pool[k].contentId == ContentId(h, pool[k].data) && pool[k].data in blocks
  }

  lemma {:induction false} PoolIdsDistinct(h: Hash, blocks: seq<seq<byte>>)
    ensures PoolOk(h, blocks, Pool(h, blocks))
  {
    hide ContentId, PoolOk, Find;
    if blocks == [] {
      NoPool(h);
    } else {
      var n := |blocks| - 1;
      PoolIdsDistinct(h, blocks[..n]);
      PoolKept(h, blocks, Pool(h, blocks[..n]));
      PoolGrown(h, blocks, Pool(h, blocks[..n]));
    }
  }

  lemma {:induction false} NoPool(h: Hash)
    ensures PoolOk(h, [], [])
  {
  }

  lemma {:induction false} PoolKept(h: Hash, blocks: seq<seq<byte>>, pool: seq<StructuralChunk>)
    requires blocks != [] && PoolOk(h, blocks[..|blocks| - 1], pool)
    ensures PoolOk(h, blocks, pool)
  {
    hide ContentId;
    forall k | 0 <= k < |pool|
      ensures pool[k].data in blocks
    {
      assert pool[k].data in blocks[..|blocks| - 1];
    }
  }

  lemma {:induction false} PoolGrown(h: Hash, blocks: seq<seq<byte>>, pool: seq<StructuralChunk>)
    requires blocks != [] && PoolOk(h, blocks, pool)
    ensures var last := blocks[|blocks| - 1];
      Find(pool, ContentId(h, last)).None? ==> PoolOk(h, blocks, pool + [ChunkOf(h, last)])
  {
    hide ContentId, Find;
    var last := blocks[|blocks| - 1];
    FindMeans(pool, ContentId(h, last));
    assert forall k :: 0 <= k < |pool| && pool[k].contentId == ContentId(h, last) ==> Holds(pool, k, ContentId(h, last));
  }

  /** Different blocks have different ids. */
  ghost predicate NoCollision(h: Hash, blocks: seq<seq<byte>>) {
    forall i, j :: 0 <= i < |blocks| && 0 <= j < |blocks| && ContentId(h, blocks[i]) == ContentId(h, blocks[j]) ==>
      blocks[i] == blocks[j]
  }

  /** Every block ever seen is found under its id. */
  lemma {:induction false} PoolFinds(h: Hash, blocks: seq<seq<byte>>, i: nat)
    requires i < |blocks|
    ensures Find(Pool(h, blocks), ContentId(h, blocks[i])).Some?
    ensures NoCollision(h, blocks) ==> Find(Pool(h, blocks), ContentId(h, blocks[i])) == Some(blocks[i])
  {
    hide ContentId, Find;
    var n := |blocks| - 1;
    var id := ContentId(h, blocks[i]);
    var before := Pool(h, blocks[..n]);
    if i < n {
      PoolFinds(h, blocks[..n], i);
      FindStays(before, [ChunkOf(h, blocks[n])], id);
    } else if Find(before, id).None? {
      FindLast(before, ChunkOf(h, blocks[n]));
    }
    FoundIsBlock(h, blocks, id);
  }

  lemma {:induction false} FoundIsBlock(h: Hash, blocks: seq<seq<byte>>, id: Digest)
    requires Find(Pool(h, blocks), id).Some?
    ensures exists j :: 0 <= j < |blocks| && blocks[j] == Find(Pool(h, blocks), id).value && ContentId(h, blocks[j]) == id
  {
    hide ContentId, Find, Pool;
    PoolIdsDistinct(h, blocks);
    var pool := Pool(h, blocks);
    FindMeans(pool, id);
    var k :| Holds(pool, k, id) && pool[k].data == Find(pool, id).value;
    assert pool[k].data in blocks;
  }

  function PoolBytes(pool: seq<StructuralChunk>): nat {
    if pool == [] then 0 else PoolBytes(pool[..|pool| - 1]) + |pool[|pool| - 1].data|
  }

  /** Without collisions every byte is either kept or saved. */
  lemma {:induction false} BytesConserved(h: Hash, blocks: seq<seq<byte>>)
    requires NoCollision(h, blocks)
    ensures |Concat(blocks)| == PoolBytes(Pool(h, blocks)) + Saved(h, blocks)
  {
    hide ContentId, Find, Concat;
    if blocks == [] {
      NoPieces(blocks);
    } else {
      var n := |blocks| - 1;
      BytesConserved(h, blocks[..n]);
      assert blocks == blocks[..n] + [blocks[n]];
      ConcatAppend(blocks[..n], [blocks[n]]);
      ConcatOne(blocks[n]);
      var before, id := Pool(h, blocks[..n]), ContentId(h, blocks[n]);
      if Find(before, id).Some? {
        FoundIsBlock(h, blocks[..n], id);
      } else {
        assert (before + [ChunkOf(h, blocks[n])])[..|before|] == before;
      }
    }
  }

  lemma {:induction false} PoolGrows(h: Hash, blocks: seq<seq<byte>>, b: seq<byte>)
    ensures var before, id := Pool(h, blocks), ContentId(h, b);
      && Pool(h, blocks + [b]) == (if Find(before, id).Some? then before else before + [ChunkOf(h, b)])
      && Saved(h, blocks + [b]) == Saved(h, blocks) + (if Find(before, id).Some? then |Find(before, id).value| else 0)
  {
    hide ContentId, Find;
    assert (blocks + [b])[..|blocks|] == blocks;
  }

  // ---- The store -----------------------------------------------------------------------------------

  function IdsOf(h: Hash, blocks: seq<seq<byte>>): (ids: seq<Digest>)
    ensures |ids| == |blocks|
  {
    seq<Digest>(|blocks|, i requires 0 <= i < |blocks| => ContentId(h, blocks[i]))
  }

  /** A file as it was added, with its block size. */
  datatype Added = Added(data: seq<byte>, blockSize: nat) {
    predicate Accepted() {
      data != [] && 0 < blockSize <= 67_108_864
    }
  }

  function BlocksOf(f: Added): seq<seq<byte>> {
    if f.Accepted() then Chunked(f.data, f.blockSize) else []
  }

  /** All blocks of all files, in order. */
  function AllBlocks(files: seq<Added>): seq<seq<byte>> {
    if files == [] then [] else AllBlocks(files[..|files| - 1]) + BlocksOf(files[|files| - 1])
  }

  function AllBytes(files: seq<Added>): nat {
    if files == [] then 0 else AllBytes(files[..|files| - 1]) + |files[|files| - 1].data|
  }

  lemma {:induction false} AllBlocksConcat(files: seq<Added>)
    requires AllAccepted(files)
    ensures |Concat(AllBlocks(files))| == AllBytes(files)
  {
    hide Chunked, Concat;
    if files == [] {
      NoPieces([]);
    } else {
      var n := |files| - 1;
      AllBlocksConcat(files[..n]);
      ConcatAppend(AllBlocks(files[..n]), BlocksOf(files[n]));
      ConcatChunked(files[n].data, files[n].blockSize);
    }
  }

  lemma {:induction false} BlockIsAmongAll(files: seq<Added>, i: nat, k: nat) returns (j: nat)
    requires i < |files| && k < |BlocksOf(files[i])|
    ensures j < |AllBlocks(files)| && AllBlocks(files)[j] == BlocksOf(files[i])[k]
  {
    hide BlocksOf;
    var n := |files| - 1;
    if i < n {
      j := BlockIsAmongAll(files[..n], i, k);
    } else {
      j := |AllBlocks(files[..n])| + k;
    }
  }

  /** Every accepted file is listed by the ids of its blocks. */
  ghost predicate Indexed(h: Hash, files: seq<Added>, fileChunks: seq<seq<Digest>>) {
    && |fileChunks| == |files| && AllAccepted(files)
    && forall i :: 0 <= i < |files| ==> fileChunks[i] == IdsOf(h, BlocksOf(files[i]))
  }

  ghost predicate AllAccepted(files: seq<Added>) {
    forall i :: 0 <= i < |files| ==> files[i].Accepted()
  }

  lemma {:induction false} IndexedAppend(h: Hash, files: seq<Added>, fileChunks: seq<seq<Digest>>, f: Added, ids: seq<Digest>)
    requires Indexed(h, files, fileChunks) && f.Accepted() && |ids| == |BlocksOf(f)|
    requires forall k :: 0 <= k < |ids| ==> ids[k] == ContentId(h, BlocksOf(f)[k])
    ensures Indexed(h, files + [f], fileChunks + [ids])
    ensures AllBlocks(files + [f]) == AllBlocks(files) + BlocksOf(f)
  {
    hide BlocksOf, ContentId;
    assert (files + [f])[..|files|] == files;
    assert ids == IdsOf(h, BlocksOf(f));
  }

  class TenantMultifileStore {
    const hash: Hash
    var chunks: seq<StructuralChunk>
    var fileChunks: seq<seq<Digest>>
    var savedBytes: nat
    /** The accepted files so far. */
    ghost var files: seq<Added>

    ghost predicate Valid()
      reads this
    {
      && chunks == Pool(hash, AllBlocks(files)) && savedBytes == Saved(hash, AllBlocks(files))
      && Indexed(hash, files, fileChunks)
    }

    constructor (h: Hash)
      ensures Valid() && hash == h && files == []
    {
      hash := h;
      chunks, fileChunks, savedBytes, files := [], [], 0, [];
    }

    /** Adds the blocks of a file to the pool; refuses empty files and bad block sizes. */
    method AddFile(data: seq<byte>, blockSize: nat) returns (newChunks: nat, saved: nat)
      requires Valid()
      modifies this
      ensures Valid()
      ensures files == if Added(data, blockSize).Accepted() then old(files) + [Added(data, blockSize)] else old(files)
      ensures old(chunks) <= chunks && |chunks| == |old(chunks)| + newChunks
      ensures savedBytes == old(savedBytes) + saved
    {
      hide Pool, Saved, Chunked, ContentId, Find, Indexed, AllBlocks;
      newChunks, saved := 0, 0;
      if data == [] || blockSize == 0 || blockSize > MAX_CHUNK {
        return;
      }
      var ids: seq<Digest> := [];
      var blocks := Chunked(data, blockSize);
      ghost var before := AllBlocks(files);
      assert before + blocks[..0] == before;
      for i := 0 to |blocks|
        invariant fileChunks == old(fileChunks) && savedBytes == old(savedBytes) && files == old(files)
        invariant chunks == Pool(hash, before + blocks[..i])
        invariant savedBytes + saved == Saved(hash, before + blocks[..i])
        invariant |ids| == i && forall k :: 0 <= k < i ==> ids[k] == ContentId(hash, blocks[k])
        invariant old(chunks) <= chunks && |chunks| == |old(chunks)| + newChunks
      {
        assert before + blocks[..i + 1] == (before + blocks[..i]) + [blocks[i]];
        PoolGrows(hash, before + blocks[..i], blocks[i]);
        var id := ContentId(hash, blocks[i]);
        var existing := FindChunk(chunks, id);
        if existing.Some? {
          saved := saved + |existing.value|;
        } else {
          chunks := chunks + [StructuralChunk(id, blocks[i])];
          newChunks := newChunks + 1;
        }
        ids := ids + [id];
      }
      assert blocks[..|blocks|] == blocks;
      ghost var file := Added(data, blockSize);
      IndexedAppend(hash, files, fileChunks, file, ids);
      fileChunks := fileChunks + [ids];
      savedBytes := savedBytes + saved;
      files := files + [file];
    }

    /** Pool ids are distinct after any run. */
    lemma {:induction false} IdsStayDistinct()
      requires Valid()
      ensures DistinctIds(chunks)
    {
      PoolIdsDistinct(hash, AllBlocks(files));
    }

    /** After any run: accepted bytes are pool bytes and saved bytes. */
    lemma {:induction false} AccountsBalance()
      requires Valid() && NoCollision(hash, AllBlocks(files))
      ensures AllBytes(files) == PoolBytes(chunks) + savedBytes
    {
      BytesConserved(hash, AllBlocks(files));
      AllBlocksConcat(files);
    }

    /** After any run every accepted file restores to its own bytes. */
    method Restore(index: nat) returns (r: Option<seq<byte>>)
      requires Valid()
      ensures r.Some? <==> index < |files|
      ensures index < |files| && NoCollision(hash, AllBlocks(files)) ==> r == Some(files[index].data)
    {
      hide Pool, Saved, Chunked, ContentId, Find, Concat, NoCollision;
      if index >= |fileChunks| {
        return None;
      }
      var ids := fileChunks[index];
      var out: seq<byte> := [];
      ghost var blocks := BlocksOf(files[index]);
      ghost var clean := NoCollision(hash, AllBlocks(files));
      assert Concat(blocks[..0]) == [] by {
        NoPieces(blocks[..0]);
      }
      for i := 0 to |ids|
        invariant clean ==> out == Concat(blocks[..i])
      {
        ghost var j := BlockIsAmongAll(files, index, i);
        PoolFinds(hash, AllBlocks(files), j);
        var chunk := FindChunk(chunks, ids[i]);
        if chunk.None? {
          return None;
        }
        assert blocks[..i + 1] == blocks[..i] + [blocks[i]];
        ConcatAppend(blocks[..i], [blocks[i]]);
        ConcatOne(blocks[i]);
        out := out + chunk.value;
      }
      assert blocks[..|blocks|] == blocks;
      ConcatChunked(files[index].data, files[index].blockSize);
      return Some(out);
    }
  }

  // ---- Deltas ----------------------------------------------------------------------------------------

  ghost predicate Same(prev: seq<seq<byte>>, next: seq<seq<byte>>, i: nat) {
    i < |next| && i < |prev| && prev[i] == next[i]
  }

  /** From block i on: a zero for an unchanged block, a one and the block otherwise. */
  ghost function DeltaFrom(prev: seq<seq<byte>>, next: seq<seq<byte>>, i: nat): seq<byte>
    requires i <= |next|
    decreases |next| - i
  {
    if i == |next| then []
    else (if Same(prev, next, i) then [0] else [1] + next[i]) + DeltaFrom(prev, next, i + 1)
  }

  /** What a delta makes of the old blocks from block i on. */
  ghost function Patched(prev: seq<seq<byte>>, delta: seq<byte>, c: nat, i: nat): Option<seq<byte>>
    decreases |delta|
  {
    if delta == [] then Some([])
    else if delta[0] == 0 then
      if i >= |prev| then None else Before(prev[i], Patched(prev, delta[1..], c, i + 1))
    else if delta[0] == 1 then
      if |delta| < 1 + c then None else Before(delta[1..1 + c], Patched(prev, delta[1 + c..], c, i + 1))
    else None
  }

  function Before(part: seq<byte>, rest: Option<seq<byte>>): Option<seq<byte>> {
    match rest
    case None => None
    case Some(r) => Some(part + r)
  }

  /** The new file ends on a block boundary, or with a short block that has not changed. */
  ghost predicate EndsWell(prev: seq<byte>, next: seq<byte>, c: nat)
    requires c > 0
  {
    |next| % c == 0 || Same(Chunked(prev, c), Chunked(next, c), |Chunked(next, c)| - 1)
  }

  lemma {:induction false} PatchFrom(prev: seq<seq<byte>>, next: seq<seq<byte>>, c: nat, i: nat)
    requires i <= |next| && forall k :: 0 <= k < |next| - 1 ==> |next[k]| == c
    requires next != [] ==> |next[|next| - 1]| <= c
    ensures Patched(prev, DeltaFrom(prev, next, i), c, i) ==
      if i == |next| || |next[|next| - 1]| == c || Same(prev, next, |next| - 1) then Some(Concat(next[i..])) else None
    decreases |next| - i
  {
    hide Concat;
    if i == |next| {
      NoPieces(next[i..]);
    } else {
      PatchFrom(prev, next, c, i + 1);
      var delta, rest := DeltaFrom(prev, next, i), DeltaFrom(prev, next, i + 1);
      assert next[i..] == [next[i]] + next[i + 1..];
      ConcatOne(next[i]);
      ConcatAppend([next[i]], next[i + 1..]);
      if Same(prev, next, i) {
        assert delta[1..] == rest;
      } else if |next[i]| == c {
        assert delta[1..1 + c] == next[i] && delta[1 + c..] == rest;
      } else {
        assert i == |next| - 1 && rest == [];
      }
    }
  }

  lemma {:induction false} LastBlock(next: seq<byte>, c: nat)
    requires c > 0 && next != []
    ensures Chunked(next, c) != []
    ensures |next| % c == 0 <==> |Chunked(next, c)[|Chunked(next, c)| - 1]| == c
  {
    if |next| > c {
      LastBlock(next[c..], c);
      SubtractMod(|next|, c);
    } else if |next| < c {
      SmallMod(|next|, c);
    }
  }

  /** A delta rebuilds the new file exactly when it ends well. */
  lemma {:induction false} DeltaRebuilds(prev: seq<byte>, next: seq<byte>, c: nat)
    requires c > 0
    ensures Patched(Chunked(prev, c), DeltaFrom(Chunked(prev, c), Chunked(next, c), 0), c, 0) ==
      if EndsWell(prev, next, c) then Some(next) else None
  {
    hide Concat, Patched, DeltaFrom;
    var p, q := Chunked(prev, c), Chunked(next, c);
    ChunkedShape(next, c);
    PatchFrom(p, q, c, 0);
    ConcatChunked(next, c);
    assert q[0..] == q;
    if next != [] {
      LastBlock(next, c);
    }
  }

  method AddDelta(prev: seq<byte>, next: seq<byte>, c: nat) returns (delta: seq<byte>)
    requires c > 0
    ensures delta == DeltaFrom(Chunked(prev, c), Chunked(next, c), 0)
  {
    hide Chunked, DeltaFrom;
    delta := [];
    var prevChunks, nextChunks := Chunked(prev, c), Chunked(next, c);
    for i := 0 to |nextChunks|
      invariant delta + DeltaFrom(prevChunks, nextChunks, i) == DeltaFrom(prevChunks, nextChunks, 0)
    {
      DeltaStep(prevChunks, nextChunks, i);
      if i < |prevChunks| && prevChunks[i] == nextChunks[i] {
        delta := delta + [0];
      } else {
        delta := delta + [1] + nextChunks[i];
      }
    }
    DeltaEnd(prevChunks, nextChunks);
  }

  lemma {:induction false} DeltaStep(prev: seq<seq<byte>>, next: seq<seq<byte>>, i: nat)
    requires i < |next|
    ensures DeltaFrom(prev, next, i) ==
            (if Same(prev, next, i) then [0] else [1] + next[i]) + DeltaFrom(prev, next, i + 1)
  {
  }

  lemma {:induction false} DeltaEnd(prev: seq<seq<byte>>, next: seq<seq<byte>>)
    ensures DeltaFrom(prev, next, |next|) == []
  {
  }

  /** The delta of an unchanged file: a zero for every block. */
  lemma {:induction false} DeltaOfSame(blocks: seq<seq<byte>>, i: nat)
    requires i <= |blocks|
    ensures |DeltaFrom(blocks, blocks, i)| == |blocks| - i
    ensures forall k :: 0 <= k < |blocks| - i ==> DeltaFrom(blocks, blocks, i)[k] == 0
    decreases |blocks| - i
  {
    if i < |blocks| {
      DeltaOfSame(blocks, i + 1);
    }
  }

  /** The delta of a new file: a one and the block, for every block. */
  lemma {:induction false} DeltaOfNew(next: seq<seq<byte>>, i: nat)
    requires i <= |next|
    ensures DeltaFrom([], next, i) == Concat(seq(|next| - i, k requires 0 <= k < |next| - i => [1] + next[i + k]))
    decreases |next| - i
  {
    var all := seq(|next| - i, k requires 0 <= k < |next| - i => [1] + next[i + k]);
    if i < |next| {
      DeltaOfNew(next, i + 1);
      assert all[1..] == seq(|next| - (i + 1), k requires 0 <= k < |next| - (i + 1) => [1] + next[i + 1 + k]);
    }
  }

  method ApplyDelta(prev: seq<byte>, delta: seq<byte>, c: nat) returns (r: Option<seq<byte>>)
    requires c > 0
    ensures r == Patched(Chunked(prev, c), delta, c, 0)
  {
    hide Chunked;
    var prevChunks := Chunked(prev, c);
    var out: seq<byte> := [];
    var pos, i := 0, 0;
    ghost var whole := Patched(prevChunks, delta, c, 0);
    assert delta[0..] == delta;
    EmptyBefore(whole);
    while pos < |delta|
      invariant pos <= |delta| && whole == Before(out, Patched(prevChunks, delta[pos..], c, i))
    {
      var flag := delta[pos];
      ghost var rest := delta[pos..];
      pos := pos + 1;
      assert rest[1..] == delta[pos..];
      if flag == 0 {
        if i >= |prevChunks| {
          return None;
        }
        Regroup(out, prevChunks[i], Patched(prevChunks, rest[1..], c, i + 1));
        out := out + prevChunks[i];
      } else if flag == 1 {
        if |delta| < pos + c {
          return None;
        }
        assert rest[1..1 + c] == delta[pos..pos + c] && rest[1 + c..] == delta[pos + c..];
        Regroup(out, delta[pos..pos + c], Patched(prevChunks, rest[1 + c..], c, i + 1));
        out := out + delta[pos..pos + c];
        pos := pos + c;
      } else {
        return None;
      }
      i := i + 1;
    }
    assert out + [] == out;
    return Some(out);
  }

  lemma {:induction false} EmptyBefore(r: Option<seq<byte>>)
    ensures Before([], r) == r
  {
    if r.Some? {
      assert [] + r.value == r.value;
    }
  }

  lemma {:induction false} Regroup(a: seq<byte>, b: seq<byte>, r: Option<seq<byte>>)
    ensures Before(a, Before(b, r)) == Before(a + b, r)
  {
    if r.Some? {
      assert a + (b + r.value) == a + b + r.value;
    }
  }

  /** Making a delta and applying it. */
  method DeltaRoundTrip(prev: seq<byte>, next: seq<byte>, c: nat) returns (r: Option<seq<byte>>)
    requires c > 0
    ensures r == if EndsWell(prev, next, c) then Some(next) else None
  {
    hide Patched, DeltaFrom, EndsWell, Chunked;
    var delta := AddDelta(prev, next, c);
    r := ApplyDelta(prev, delta, c);
    DeltaRebuilds(prev, next, c);
  }

  /** A file that grows by less than a block is lost in its delta. */
  lemma {:induction false} ShortTailIsLost(prev: seq<byte>, more: seq<byte>, c: nat)
    requires 0 < |more| < c && |prev| % c == 0
    ensures !EndsWell(prev, prev + more, c)
  {
    ChunkedAppend(prev, more, c);
    AddMod(|prev|, |more|, c);
  }

  lemma {:induction false} AddMod(n: nat, m: nat, c: nat)
    requires m < c && n % c == 0
    ensures (n + m) % c == m
    decreases n
  {
    if n >= c {
      SubtractMod(n, c);
      SubtractMod(n + m, c);
      AddMod(n - c, m, c);
    } else {
      SmallMod(n, c);
      SmallMod(m, c);
    }
  }

  lemma {:induction false} ChunkedAppend(prev: seq<byte>, more: seq<byte>, c: nat)
    requires 0 < |more| < c && |prev| % c == 0
    ensures Chunked(prev + more, c) == Chunked(prev, c) + [more]
    decreases |prev|
  {
    if prev == [] {
      assert prev + more == more;
    } else {
      if |prev| < c {
        SmallMod(|prev|, c);
      }
      SubtractMod(|prev|, c);
      ChunkedAppend(prev[c..], more, c);
      assert (prev + more)[c..] == prev[c..] + more && (prev + more)[..c] == prev[..c];
    }
  }
}
