/**
`Karusel`: the sender. A message is cut into blocks of 200 bytes; systematic drops carry one
block, repair drops the exclusive or of several. Frames carry drops.
*/
module KaruselSending {
  import opened Bytes
  import opened Sequences
  import opened Wrappers
  import opened LinearAlgebra
  import opened Chunking
  import opened CarouselSystem
  import opened KaruselDecoding
  import Sampling
  import opened PowersOfTwo

  datatype Karusel = Karusel(blocks: seq<Vec>, k: nat) {

    ghost predicate Valid() {
      && 0 < k == |blocks| <= MAX_BLOCKS
      && forall i :: 0 <= i < k ==> 0 < |blocks[i]| <= BLOCK
    }
  }

  ghost function Pad(blocks: seq<Vec>): (t: Blocks)
    ensures IsBlocks(t, |blocks|) && forall i :: 0 <= i < |t| ==> t[i] == Resized(blocks[i])
  {
    seq(|blocks|, i requires 0 <= i < |blocks| => Resized(blocks[i]))
  }

  /** A sender exists exactly for messages of 1 to 65535 blocks. */
  method New(data: Vec) returns (r: Option<Karusel>)
    ensures r.Some? <==> 0 < |data| <= 65_535 * 200
    ensures r.Some? ==> r.value.Valid() && r.value.blocks == Chunked(data, BLOCK)
  {
    if data == [] {
      return None;
    }
    var blocks := Chunked(data, BLOCK);
    ChunkedShape(data, BLOCK);
    if |blocks| == 0 || |blocks| > MAX_BLOCKS {
      return None;
    }
    return Some(Karusel(blocks, |blocks|));
  }

  // ---- The padded blocks are the message ---------------------------------------------------

  lemma {:induction false} JoinedCons(b: Vec, t: Blocks)
    ensures Joined([b] + t) == b + Joined(t)
  {
    var s := [b] + t;
    if t == [] {
      assert s[..0] == [];
    } else {
      var l := |t| - 1;
      assert s[..|s| - 1] == [b] + t[..l];
      JoinedCons(b, t[..l]);
    }
  }

  /** Joined, the padded blocks are the message followed by zeros. */
  lemma {:induction false} PaddedMessage(data: Vec)
    ensures |Joined(Pad(Chunked(data, BLOCK)))| >= |data|
    ensures Joined(Pad(Chunked(data, BLOCK)))[..|data|] == data
    ensures Padded(Pad(Chunked(data, BLOCK)), |data|)
  {
    var c := Chunked(data, BLOCK);
    JoinedLength(Pad(c));
    if |data| > BLOCK {
      var rest := Chunked(data[BLOCK..], BLOCK);
      PaddedMessage(data[BLOCK..]);
      PadCons(data[..BLOCK], rest);
      assert Resized(data[..BLOCK]) == data[..BLOCK];
      JoinedCons(data[..BLOCK], Pad(rest));
    } else if data != [] {
      PadCons(data, []);
      assert Pad([]) == [] && [data] + [] == c;
      JoinedCons(Resized(data), []);
    }
  }

  lemma {:induction false} PadCons(b: Vec, rest: seq<Vec>)
    ensures Pad([b] + rest) == [Resized(b)] + Pad(rest)
  {
    hide Resized;
  }

  /** Zero-padded blocks that the length reaches into are the blocks of their message. */
  lemma {:induction false} BlocksOfMessage(t: Blocks, n: nat)
    requires Padded(t, n) && |t| > 0 && (|t| - 1) * BLOCK < n
    ensures |Message(t, n)| == n
    ensures |Chunked(Message(t, n), BLOCK)| == |t| && Pad(Chunked(Message(t, n), BLOCK)) == t
  {
    hide Joined, Pad, Resized, Chunked;
    var b, rest := t[0], t[1..];
    assert t == [b] + rest;
    JoinedCons(b, rest);
    JoinedLength(t);
    JoinedLength(rest);
    var data := Message(t, n);
    if rest == [] {
      assert Joined(rest) == [];
      assert data == b[..n] && b == Joined(t);
      ResizedFront(b, n);
      ChunkedShort(data);
      PadCons(data, []);
      assert Pad([]) == [] && [data] + [] == [data];
    } else {
      var m := n - BLOCK;
      assert forall i :: m <= i < |Joined(rest)| ==> Joined(rest)[i] == Joined(t)[BLOCK + i];
      BlocksOfMessage(rest, m);
      assert data == b + Message(rest, m);
      ChunkedLong(b, Message(rest, m));
      PadCons(b, Chunked(Message(rest, m), BLOCK));
      ResizedFront(b, BLOCK);
      assert b[..BLOCK] == b;
    }
  }

  lemma {:induction false} ResizedFront(b: Vec, n: nat)
    requires |b| == BLOCK && n <= BLOCK && forall i :: n <= i < BLOCK ==> b[i] == 0
    ensures Resized(b[..n]) == b
  {
  }

  lemma {:induction false} ChunkedShort(data: Vec)
    requires 0 < |data| <= BLOCK
    ensures Chunked(data, BLOCK) == [data]
  {
  }

  lemma {:induction false} ChunkedLong(b: Vec, rest: Vec)
    requires |b| == BLOCK && rest != []
    ensures Chunked(b + rest, BLOCK) == [b] + Chunked(rest, BLOCK)
  {
    assert (b + rest)[..BLOCK] == b && (b + rest)[BLOCK..] == rest;
  }

  // ---- Drops ----------------------------------------------------------------------------------

  /** The block itself, with its index as sequence number. */
  function SystematicDrop(s: Karusel, index: nat): (r: Option<(nat, Vec)>)
    requires s.Valid()
    ensures r.Some? <==> index < s.k
    ensures r.Some? ==> r.value.0 == index && r.value.1 == s.blocks[index]
    ensures r.Some? ==> Faithful(Pad(s.blocks), Drop([index], r.value.1)) && |r.value.1| <= BLOCK
  {
    if index < s.k then
      SingleFaithful(s, index);
      Some((index, s.blocks[index]))
    else None
  }

  lemma {:induction false} SingleFaithful(s: Karusel, index: nat)
    requires s.Valid() && index < s.k
    ensures Faithful(Pad(s.blocks), Drop([index], s.blocks[index]))
  {
    assert Members([index]) == {index};
    XorSingle(Pad(s.blocks), index, s.k);
  }

  /** Blocks are added into the symbol as far as they reach. */
  method XorInto(sym: Vec, block: Vec) returns (r: Vec)
    requires |block| <= |sym| <= BLOCK
    ensures |r| == |sym| && Resized(r) == AddV(Resized(sym), Resized(block))
  {
    hide Add;
    r := sym;
    for p := 0 to |block|
      invariant |r| == |sym|
      invariant forall q :: 0 <= q < p ==> r[q] == Add(sym[q], block[q])
      invariant forall q :: p <= q < |sym| ==> r[q] == sym[q]
    {
      r := r[p := Add(r[p], block[p])];
    }
    forall q | 0 <= q < BLOCK
      ensures Resized(r)[q] == AddV(Resized(sym), Resized(block))[q]
    {
      AddLaws(Resized(sym)[q], 0, 0);
    }
  }

  /** The length of the longest chosen block. */
  ghost predicate IsLongest(n: nat, blocks: seq<Vec>, chosen: seq<nat>)
    requires forall a :: 0 <= a < |chosen| ==> chosen[a] < |blocks|
  {
    && (forall a :: 0 <= a < |chosen| ==> |blocks[chosen[a]]| <= n)
    && (n == 0 || exists a :: 0 <= a < |chosen| && |blocks[chosen[a]]| == n)
  }

  method LongestOf(blocks: seq<Vec>, chosen: seq<nat>) returns (n: nat)
    requires forall a :: 0 <= a < |chosen| ==> chosen[a] < |blocks| && |blocks[chosen[a]]| <= BLOCK
    ensures n <= BLOCK && IsLongest(n, blocks, chosen)
  {
    n := 0;
    for a := 0 to |chosen|
      invariant n == 0 || exists c :: 0 <= c < a && |blocks[chosen[c]]| == n
      invariant n <= BLOCK && forall c :: 0 <= c < a ==> |blocks[chosen[c]]| <= n
    {
      if n < |blocks[chosen[a]]| {
        n := |blocks[chosen[a]]|;
      }
    }
  }

  /** The exclusive or of the chosen blocks, as long as the longest of them. */
  method XorOfBlocks(s: Karusel, chosen: seq<nat>) returns (sym: Vec)
    requires s.Valid() && Distinct(chosen) && forall a :: 0 <= a < |chosen| ==> chosen[a] < s.k
    ensures |sym| <= BLOCK && Faithful(Pad(s.blocks), Drop(chosen, sym)) && IsLongest(|sym|, s.blocks, chosen)
  {
    hide XorOver, AddV, IsLongest;
    ghost var t := Pad(s.blocks);
    var n := LongestOf(s.blocks, chosen);
    sym := Zeros(n);
    assert Resized(sym) == Zeros(BLOCK);
    XorNone(t, {}, s.k);
    assert Members(chosen[..0]) == {};
    for a := 0 to |chosen|
      invariant |sym| == n && Resized(sym) == XorOver(t, Members(chosen[..a]), s.k)
    {
      var i := chosen[a];
      assert chosen[..a + 1] == chosen[..a] + [i];
      MembersAppend(chosen[..a], i);
      XorWith(t, Members(chosen[..a]), i);
      sym := XorInto(sym, s.blocks[i]);
    }
    assert chosen[..|chosen|] == chosen;
  }

  const TWO_32 := 0x1_0000_0000

  /** The exclusive or over the blocks of a repair drop, as long as the longest of them. */
  ghost predicate IsSymbol(sym: Vec, s: Karusel, absSeq: nat)
    requires s.Valid()
  {
    var chosen := Sampling.Composition(s.k, absSeq);
    && Faithful(Pad(s.blocks), Drop(chosen, sym))
    && (forall a :: 0 <= a < |chosen| ==> chosen[a] < s.k) && IsLongest(|sym|, s.blocks, chosen)
  }

  /** A repair drop: its sequence number cut to 32 bits, and the blocks its full number selects. */
  method RepairDrop(s: Karusel, absSeq: nat) returns (seqno: nat, sym: Vec)
    requires s.Valid() && absSeq < TWO_64
    ensures seqno == absSeq % TWO_32 && |sym| <= BLOCK && IsSymbol(sym, s, absSeq)
  {
    hide Faithful, Sampling.Composition, IsLongest;
    var chosen := Sampling.Draw(s.k, absSeq);
    Sampling.CompositionPicks(s.k, absSeq);
    sym := XorOfBlocks(s, chosen);
    seqno := absSeq % TWO_32;
  }

  // ---- Frames --------------------------------------------------------------------------------------

  /** A frame: 20 bytes of header and the payload. */
  function Frame(seqno: nat, block: nat, flags: byte, payload: Vec): Vec {
    Le(seqno, 4) + Le(block, 2) + [flags, 0] + Le(|payload|, 2) + FRAME_MAGIC + payload
  }

  function Pack(seqno: nat, block: nat, flags: byte, payload: Vec): (r: Option<Vec>)
    ensures r.Some? <==> |payload| <= BLOCK
    ensures r.Some? && seqno < TWO_32 ==> Parsed(r.value) == Some((seqno, flags, payload))
  {
    if |payload| > BLOCK then None
    else
      ParsedFrame(seqno, block, flags, payload);
      Some(Frame(seqno, block, flags, payload))
  }

  /** Unpacking a packed frame gives its sequence number, flags and payload back. */
  lemma {:induction false} ParsedFrame(seqno: nat, block: nat, flags: byte, payload: Vec)
    requires |payload| <= BLOCK
    ensures seqno < TWO_32 ==> Parsed(Frame(seqno, block, flags, payload)) == Some((seqno, flags, payload))
  {
    var f := Frame(seqno, block, flags, payload);
    assert f[0..4] == Le(seqno, 4);
    assert f[6] == flags;
    assert f[8..10] == Le(|payload|, 2);
    assert f[10..20] == FRAME_MAGIC;
    assert f[20..] == payload;
    if seqno < TWO_32 {
      FromLeOfLe(seqno, 4);
      FromLeOfLe(|payload|, 2);
    }
  }
}
