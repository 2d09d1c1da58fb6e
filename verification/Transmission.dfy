/**
Whole transmissions: any frames of a sender, in any order, with losses, repetitions and
noise in between, and what the receiver makes of them.
*/
module Transmission {
  import opened Bytes
  import opened Arithmetic
  import opened Sequences
  import opened Wrappers
  import opened PowersOfTwo
  import opened LinearAlgebra
  import opened Chunking
  import opened CarouselSystem
  import opened KaruselDecoding
  import opened KaruselSending
  import Sampling
  import Elimination

  /** A frame of the sender: a block under its index, or a repair drop under its number. */
  ghost predicate IsSystematic(frame: Vec, s: Karusel, i: nat) {
    && s.Valid() && i < s.k
    && exists block: nat, flags: byte :: flags % 2 == 0 && frame == Frame(i, block, flags, s.blocks[i])
  }

  /** A repair drop of any 64-bit number; the frame carries the low 32 bits of the number. */
  ghost predicate IsRepair(frame: Vec, s: Karusel, absSeq: nat) {
    && s.Valid() && absSeq < TWO_64
    && exists block: nat, flags: byte, sym: Vec ::
         && flags % 2 == 1 && |sym| <= BLOCK && frame == Frame(absSeq % TWO_32, block, flags, sym)
         && Faithful(Pad(s.blocks), Drop(Sampling.Composition(s.k, absSeq), sym))
  }

  /** The low 32 bits of the number select the same blocks as the number. */
  ghost predicate EndsAgree(k: nat, absSeq: nat)
    requires 0 < k <= MAX_BLOCKS
  {
    Sampling.Composition(k, absSeq) == Sampling.Composition(k, absSeq % TWO_32)
  }

  /** A frame of the sender whose blocks both ends agree on, or noise that does not parse. */
  ghost predicate Possible(frame: Vec, s: Karusel) {
    || Parsed(frame).None?
    || (exists i: nat :: IsSystematic(frame, s, i))
    || (exists absSeq: nat :: IsRepair(frame, s, absSeq) && EndsAgree(s.k, absSeq))
  }

  lemma {:induction false} SystematicDelivers(frame: Vec, s: Karusel, i: nat)
    requires IsSystematic(frame, s, i)
    ensures Delivered(frame, s.k) == [Drop([i], s.blocks[i])]
    ensures Faithful(Pad(s.blocks), Drop([i], s.blocks[i]))
  {
    SingleFaithful(s, i);
    hide Faithful, Frame, Parsed, Pad;
    var block: nat, flags: byte :| flags % 2 == 0 && frame == Frame(i, block, flags, s.blocks[i]);
    ParsedFrame(i, block, flags, s.blocks[i]);
    NamedBlock(s.k, i, flags);
  }

  lemma {:induction false} NamedBlock(k: nat, i: nat, flags: byte)
    requires i < k <= MAX_BLOCKS && flags % 2 == 0
    ensures Named(k, i, flags) == [i]
  {
    hide Sampling.Composition;
    SmallMod(i, k);
  }

  /** A repair frame delivers the exclusive or of the blocks of its number under the blocks of the
      low 32 bits of that number. */
  lemma {:induction false} RepairDelivers(frame: Vec, s: Karusel, absSeq: nat)
    requires IsRepair(frame, s, absSeq)
    ensures |Delivered(frame, s.k)| == 1
    ensures var d := Delivered(frame, s.k)[0];
      && d.idx == Sampling.Composition(s.k, absSeq % TWO_32)
      && Faithful(Pad(s.blocks), Drop(Sampling.Composition(s.k, absSeq), d.payload))
    ensures EndsAgree(s.k, absSeq) ==> Faithful(Pad(s.blocks), Delivered(frame, s.k)[0])
  {
    hide Faithful, Frame, Sampling.Composition;
    var block: nat, flags: byte, sym: Vec :|
      && flags % 2 == 1 && |sym| <= BLOCK && frame == Frame(absSeq % TWO_32, block, flags, sym)
      && Faithful(Pad(s.blocks), Drop(Sampling.Composition(s.k, absSeq), sym));
    ParsedFrame(absSeq % TWO_32, block, flags, sym);
  }

  // ---- When the two ends agree -----------------------------------------------------------------

  /** Whatever message of k blocks is sent, a repair frame of this number tells the truth about it. */
  ghost predicate AlwaysFaithful(k: nat, absSeq: nat)
    requires 0 < k <= MAX_BLOCKS
  {
    forall data: Vec, frame: Vec :: RepairOf(data, frame, k, absSeq) ==> Truthful(data, frame, k)
  }

  ghost predicate RepairOf(data: Vec, frame: Vec, k: nat, absSeq: nat) {
    IsRepair(frame, Karusel(Chunked(data, BLOCK), k), absSeq)
  }

  /** What the frame delivers is faithful to the message. */
  ghost predicate Truthful(data: Vec, frame: Vec, k: nat)
    requires 0 < k <= MAX_BLOCKS
  {
    forall i :: 0 <= i < |Delivered(frame, k)| ==> Faithful(Pad(Chunked(data, BLOCK)), Delivered(frame, k)[i])
  }

  /** A repair number tells the truth about every message exactly when both ends draw the same blocks. */
  lemma {:induction false} FaithfulIffEndsAgree(k: nat, absSeq: nat)
    requires 0 < k <= MAX_BLOCKS && absSeq < TWO_64
    ensures AlwaysFaithful(k, absSeq) <==> EndsAgree(k, absSeq)
  {
    hide Sampling.Composition, Faithful, IsRepair, Delivered;
    if EndsAgree(k, absSeq) {
      forall data: Vec, frame: Vec | RepairOf(data, frame, k, absSeq)
        ensures Truthful(data, frame, k)
      {
        RepairDelivers(frame, Karusel(Chunked(data, BLOCK), k), absSeq);
      }
    }
    if AlwaysFaithful(k, absSeq) {
      AlwaysFaithfulAgrees(k, absSeq);
    }
  }

  /** Then the exclusive or over both selections is the same for all blocks. */
  lemma {:induction false} SameSelection(k: nat, absSeq: nat, t: Blocks)
    requires 0 < k <= MAX_BLOCKS && absSeq < TWO_64 && AlwaysFaithful(k, absSeq) && IsBlocks(t, k)
    ensures XorOver(t, Members(Sampling.Composition(k, absSeq)), k)
         == XorOver(t, Members(Sampling.Composition(k, absSeq % TWO_32)), k)
  {
    hide Sampling.Composition, XorOver, Pad, Frame, Chunked, Joined, Message;
    var n := k * BLOCK;
    JoinedLength(t);
    BlocksOfMessage(t, n);
    var data := Message(t, n);
    var s := Karusel(Chunked(data, BLOCK), k);
    ChunkedShape(data, BLOCK);
    var sym := XorOver(t, Members(Sampling.Composition(k, absSeq)), k);
    Sampling.CompositionPicks(k, absSeq);
    assert Resized(sym) == sym;
    var frame := Frame(absSeq % TWO_32, 0, 1, sym);
    assert IsRepair(frame, s, absSeq);
    ParsedFrame(absSeq % TWO_32, 0, 1, sym);
    assert RepairOf(data, frame, k, absSeq);
    assert Faithful(t, Delivered(frame, k)[0]);
  }

  lemma {:induction false} AlwaysFaithfulAgrees(k: nat, absSeq: nat)
    requires 0 < k <= MAX_BLOCKS && absSeq < TWO_64 && AlwaysFaithful(k, absSeq)
    ensures EndsAgree(k, absSeq)
  {
    hide Sampling.Composition, AlwaysFaithful;
    var a, b := Members(Sampling.Composition(k, absSeq)), Members(Sampling.Composition(k, absSeq % TWO_32));
    forall j
      ensures j in a <==> j in b
    {
      Sampling.CompositionPicks(k, absSeq);
      Sampling.CompositionPicks(k, absSeq % TWO_32);
      if 0 <= j < k {
        SelectsAlike(k, absSeq, j);
      }
    }
    assert a == b;
    Sampling.CompositionByMembers(k, absSeq, absSeq % TWO_32);
  }

  /** Changing a block shows in one selection iff it shows in the other. */
  lemma {:induction false} SelectsAlike(k: nat, absSeq: nat, j: nat)
    requires j < k <= MAX_BLOCKS && absSeq < TWO_64 && AlwaysFaithful(k, absSeq)
    ensures j in Members(Sampling.Composition(k, absSeq)) <==> j in Members(Sampling.Composition(k, absSeq % TWO_32))
  {
    hide Sampling.Composition, AlwaysFaithful, XorOver, AddV, Elimination.Flip, Elimination.Flipped, Elimination.Flips;
    var a, b := Members(Sampling.Composition(k, absSeq)), Members(Sampling.Composition(k, absSeq % TWO_32));
    var t: Blocks := seq(k, _ => Zeros(BLOCK));
    SameSelection(k, absSeq, t);
    SameSelection(k, absSeq, Elimination.Flipped(t, {j}));
    Elimination.XorFlipped(t, {j}, a, k);
    Elimination.XorFlipped(t, {j}, b, k);
    OneFlip(a, j, k);
    OneFlip(b, j, k);
    var x := XorOver(t, a, k);
    AddVCancel(Elimination.Flip(), x);
    AddVCancel(Zeros(BLOCK), x);
    AddVLaws(x, Elimination.Flip(), x);
    AddVLaws(x, Zeros(BLOCK), x);
    assert Elimination.Flip() != Zeros(BLOCK) by {
      assert Elimination.Flip()[0] == 1;
    }
  }

  lemma {:induction false} OneFlip(s: set<nat>, j: nat, k: nat)
    requires j < k
    ensures XorOver(Elimination.Flips(k), s * {j}, k) == if j in s then Elimination.Flip() else Zeros(BLOCK)
  {
    hide Elimination.Flip, XorOver;
    if j in s {
      assert s * {j} == {j};
      XorSingle(Elimination.Flips(k), j, k);
    } else {
      assert s * {j} == {};
      XorNone(Elimination.Flips(k), {}, k);
    }
  }

  /** The drops that a sequence of frames delivers. */
  ghost function HistoryOf(frames: seq<Vec>, k: nat): seq<Drop>
    requires 0 < k <= MAX_BLOCKS
  {
    if frames == [] then [] else HistoryOf(frames[..|frames| - 1], k) + Delivered(frames[|frames| - 1], k)
  }

  /** The sender's blocks explain whatever its frames deliver. */
  lemma {:induction false} SenderExplains(frames: seq<Vec>, s: Karusel)
    requires s.Valid() && forall i :: 0 <= i < |frames| ==> Possible(frames[i], s)
    ensures Pad(s.blocks) in Explanations(HistoryOf(frames, s.k), s.k)
  {
    hide Faithful, IsSystematic, IsRepair, Delivered;
    if frames != [] {
      var l := |frames| - 1;
      SenderExplains(frames[..l], s);
      FrameIsFaithful(frames[l], s);
    }
  }

  lemma {:induction false} FrameIsFaithful(frame: Vec, s: Karusel)
    requires s.Valid() && Possible(frame, s)
    ensures forall i :: 0 <= i < |Delivered(frame, s.k)| ==> Faithful(Pad(s.blocks), Delivered(frame, s.k)[i])
  {
    hide Faithful, IsSystematic, IsRepair, Sampling.Composition;
    if Parsed(frame).Some? {
      if i: nat :| IsSystematic(frame, s, i) {
        SystematicDelivers(frame, s, i);
      } else {
        var absSeq: nat :| IsRepair(frame, s, absSeq) && EndsAgree(s.k, absSeq);
        RepairDelivers(frame, s, absSeq);
      }
    }
  }

  lemma {:induction false} HistoryMember(frames: seq<Vec>, k: nat, i: nat, d: Drop)
    requires 0 < k <= MAX_BLOCKS && i < |frames| && d in Delivered(frames[i], k)
    ensures d in HistoryOf(frames, k)
  {
    hide Delivered;
    var l := |frames| - 1;
    if i < l {
      HistoryMember(frames[..l], k, i, d);
    }
  }

  ghost predicate Arrived(frames: seq<Vec>, s: Karusel, i: nat) {
    exists f :: 0 <= f < |frames| && IsSystematic(frames[f], s, i)
  }

  /** Once every block has arrived in a systematic frame, nothing else is needed. */
  lemma {:induction false} SystematicSuffices(frames: seq<Vec>, s: Karusel)
    requires s.Valid() && forall i :: 0 <= i < s.k ==> Arrived(frames, s, i)
    ensures Determined(HistoryOf(frames, s.k), s.k)
  {
    hide IsSystematic, HistoryOf;
    var h := HistoryOf(frames, s.k);
    forall t | t in Explanations(h, s.k)
      ensures t == Pad(s.blocks)
    {
      forall i | 0 <= i < s.k
        ensures t[i] == Pad(s.blocks)[i]
      {
        assert Arrived(frames, s, i);
        var f :| 0 <= f < |frames| && IsSystematic(frames[f], s, i);
        SystematicBlock(frames, s, f, i, t);
      }
    }
  }

  lemma {:induction false} SystematicBlock(frames: seq<Vec>, s: Karusel, f: nat, i: nat, t: Blocks)
    requires s.Valid() && i < s.k && f < |frames| && IsSystematic(frames[f], s, i)
    requires t in Explanations(HistoryOf(frames, s.k), s.k)
    ensures t[i] == Resized(s.blocks[i])
  {
    hide IsSystematic, XorOver, HistoryOf, Delivered;
    var d := Drop([i], s.blocks[i]);
    SystematicDelivers(frames[f], s, i);
    HistoryMember(frames, s.k, f, d);
    var h := HistoryOf(frames, s.k);
    var j :| 0 <= j < |h| && h[j] == d;
    assert Faithful(t, d);
    assert Members([i]) == {i};
    XorSingle(t, i, s.k);
  }

  /** Blocks that explain all that the frames deliver. */
  ghost predicate Explains(t: Blocks, frames: seq<Vec>, k: nat, n: nat) {
    0 < k <= MAX_BLOCKS && 0 < n <= k * BLOCK && t in Explanations(HistoryOf(frames, k), k)
  }

  /** Another message of the same length that the frames could as well have been sent for. */
  ghost predicate Rival(other: Vec, data: Vec, frames: seq<Vec>, k: nat) {
    && |other| == |data| && other != data
    && Explains(Pad(Chunked(other, BLOCK)), frames, k, |other|)
  }

  /** The receiver: k and the length are known, the frames arrive one after the other. Whatever
      message they were sent for, the result is that message or nothing; it is the message exactly
      when the delivered drops determine it, and if it is nothing there is a rival message. */
  method Receive(frames: seq<Vec>, k: nat, n: nat) returns (r: Option<Vec>)
    ensures forall t: Blocks :: Explains(t, frames, k, n) ==>
      r == if Determined(HistoryOf(frames, k), k) then Some(Message(t, n)) else None
    ensures forall data: Vec :: Sent(data, frames, k, n) ==>
      && 0 < k <= MAX_BLOCKS
      && r == if Determined(HistoryOf(frames, k), k) then Some(data) else None
    ensures forall data: Vec :: Sent(data, frames, k, n) && r.None? ==> exists other :: Rival(other, data, frames, k)
  {
    hide Explanations, Determined, Delivered, Message, HaveTwins, Sent;
    forall data: Vec | Sent(data, frames, k, n)
      ensures 0 < k <= MAX_BLOCKS && 0 < n <= k * BLOCK
    {
      SentFits(data, frames, k, n);
    }
    var made := KaruselDecoder.New(k, n);
    if made.None? {
      return None;
    }
    var dec := made.value;
    for i := 0 to |frames|
      invariant dec.Valid() && dec.k == k && dec.totalLen == n && fresh(dec)
      invariant dec.history == HistoryOf(frames[..i], k)
    {
      assert frames[..i + 1][..i] == frames[..i];
      var _ := dec.AddFrame(frames[i]);
    }
    assert frames[..|frames|] == frames;
    r := dec.Assemble();
    forall data: Vec | Sent(data, frames, k, n)
      ensures r == if Determined(HistoryOf(frames, k), k) then Some(data) else None
      ensures r.None? ==> exists other :: Rival(other, data, frames, k)
    {
      SentExplains(data, frames, k, n);
      if r.None? {
        var other := RivalOf(data, frames, k, n, dec.Unsolved());
      }
    }
  }

  /** The blocks of a twin are those of another message of the same length. */
  lemma {:induction false} TwinIsAnotherMessage(data: Vec, u: Blocks, unknowns: set<nat>) returns (other: Vec)
    requires data != [] && Elimination.Twin(Pad(Chunked(data, BLOCK)), u, unknowns)
    ensures |other| == |data| && other != data && Pad(Chunked(other, BLOCK)) == u
  {
    hide Elimination.Twin, Joined, Chunked;
    var t, n := Pad(Chunked(data, BLOCK)), |data|;
    ChunkedShape(data, BLOCK);
    PaddedMessage(data);
    TwinMessages(t, u, unknowns, n);
    TwinSize(t, u, unknowns);
    BlocksOfMessage(u, n);
    other := Message(u, n);
  }

  lemma {:induction false} TwinSize(t: Blocks, u: Blocks, unknowns: set<nat>)
    requires Elimination.Twin(t, u, unknowns)
    ensures |t| == |u|
  {
  }

  /** The message of a twin is a rival. */
  lemma {:induction false} RivalOf(data: Vec, frames: seq<Vec>, k: nat, n: nat, unknowns: set<nat>) returns (other: Vec)
    requires 0 < k <= MAX_BLOCKS && 0 < n <= k * BLOCK && Sent(data, frames, k, n)
    requires HaveTwins(Explanations(HistoryOf(frames, k), k), unknowns)
    ensures Rival(other, data, frames, k)
  {
    hide Explanations, Elimination.Twin, Chunked, HistoryOf, Sent, Pad, Message, HaveTwins;
    SentExplains(data, frames, k, n);
    SentLength(data, frames, k, n);
    var u := TwinIn(Explanations(HistoryOf(frames, k), k), Pad(Chunked(data, BLOCK)), unknowns);
    other := TwinIsAnotherMessage(data, u, unknowns);
  }

  lemma {:induction false} TwinIn(s: iset<Blocks>, t: Blocks, unknowns: set<nat>) returns (u: Blocks)
    requires HaveTwins(s, unknowns) && t in s
    ensures u in s && Elimination.Twin(t, u, unknowns)
  {
    hide Elimination.Twin;
    u :| u in s && Elimination.Twin(t, u, unknowns);
  }

  lemma {:induction false} SentLength(data: Vec, frames: seq<Vec>, k: nat, n: nat)
    requires Sent(data, frames, k, n)
    ensures |data| == n
  {
  }

  /** Frames of a sender for this message, and the parameters it announces. */
  ghost predicate Sent(data: Vec, frames: seq<Vec>, k: nat, n: nat) {
    var s := Karusel(Chunked(data, BLOCK), k);
    && n == |data| && s.Valid()
    && forall i :: 0 <= i < |frames| ==> Possible(frames[i], s)
  }

  lemma {:induction false} SentFits(data: Vec, frames: seq<Vec>, k: nat, n: nat)
    requires Sent(data, frames, k, n)
    ensures 0 < k <= MAX_BLOCKS && 0 < n <= k * BLOCK
  {
    hide Possible;
    ChunkedShape(data, BLOCK);
  }

  lemma {:induction false} SentExplains(data: Vec, frames: seq<Vec>, k: nat, n: nat)
    requires 0 < k <= MAX_BLOCKS && n <= k * BLOCK && Sent(data, frames, k, n)
    ensures Pad(Chunked(data, BLOCK)) in Explanations(HistoryOf(frames, k), k)
    ensures Message(Pad(Chunked(data, BLOCK)), n) == data
  {
    hide Explanations, Possible;
    SenderExplains(frames, Karusel(Chunked(data, BLOCK), k));
    PaddedMessage(data);
  }

  /** A first turn without loss: the k blocks as they are bring the message over. */
  method SendThenReceive(data: Vec) returns (r: Option<Vec>)
    requires 0 < |data| <= MAX_BLOCKS * BLOCK
    ensures r == Some(data)
  {
    hide Frame, Determined, HistoryOf, Chunked, Pad, Faithful;
    var made := KaruselSending.New(data);
    var s := made.value;
    var frames: seq<Vec> := [];
    for i := 0 to s.k
      invariant |frames| == i && forall j :: 0 <= j < i ==> IsSystematic(frames[j], s, j)
    {
      var drop := SystematicDrop(s, i);
      var frame := Pack(drop.value.0, 0, 0, drop.value.1);
      assert frame.value == Frame(i, 0, 0, s.blocks[i]);
      frames := frames + [frame.value];
    }
    r := Receive(frames, s.k, |data|);
    forall i | 0 <= i < s.k
      ensures Arrived(frames, s, i)
    {
      assert IsSystematic(frames[i], s, i);
    }
    SystematicSuffices(frames, s);
    assert Sent(data, frames, s.k, |data|);
  }

  // ---- Turns ------------------------------------------------------------------------------------

  /** The number of repair drop i of a turn, in 64-bit arithmetic. */
  function RepairNumber(turn: nat, k: nat, i: nat): nat {
    (turn * k % TWO_64 + i) % TWO_64
  }

  /** One turn of the carousel: all blocks, starting at the turn, and as many repair drops. */
  method TurnFrames(s: Karusel, turn: nat) returns (frames: seq<Vec>)
    requires s.Valid()
    ensures |frames| == 2 * s.k
    ensures forall i :: 0 <= i < s.k ==> BlockFrame(frames[i], s, turn, (turn + i) % s.k)
    ensures forall i :: 0 <= i < s.k ==> RepairFrame(frames[s.k + i], s, turn, RepairNumber(turn, s.k, i))
  {
    hide Frame, Faithful, Sampling.Composition, Pad, RepairNumber, RepairFrame, BlockFrame, IsSymbol;
    frames := [];
    for i := 0 to s.k
      invariant |frames| == i && forall j :: 0 <= j < i ==> BlockFrame(frames[j], s, turn, (turn + j) % s.k)
    {
      var drop := SystematicDrop(s, (turn + i) % s.k);
      var frame := Pack(drop.value.0, turn % 2, 0, drop.value.1);
      PackedBlock(s, turn, drop.value.0, frame.value);
      frames := frames + [frame.value];
    }
    for i := 0 to s.k
      invariant |frames| == s.k + i
      invariant forall j :: 0 <= j < s.k ==> BlockFrame(frames[j], s, turn, (turn + j) % s.k)
      invariant forall j :: 0 <= j < i ==> RepairFrame(frames[s.k + j], s, turn, RepairNumber(turn, s.k, j))
    {
      var number := RepairNumber(turn, s.k, i);
      RepairNumberBound(turn, s.k, i);
      var seqno, sym := RepairDrop(s, number);
      var frame := Pack(seqno, turn % 2, 1, sym);
      PackedSymbol(s, turn, number, sym, frame.value);
      frames := frames + [frame.value];
    }
  }

  /** The frame of a block in a turn, and of a repair drop. */
  ghost predicate BlockFrame(frame: Vec, s: Karusel, turn: nat, i: nat) {
    s.Valid() && i < s.k && frame == Frame(i, turn % 2, 0, s.blocks[i])
  }

  ghost predicate RepairFrame(frame: Vec, s: Karusel, turn: nat, absSeq: nat) {
    && s.Valid() && absSeq < TWO_64
    && exists sym :: IsSymbol(sym, s, absSeq) && |sym| <= BLOCK && frame == Frame(absSeq % TWO_32, turn % 2, 1, sym)
  }

  lemma {:induction false} PackedBlock(s: Karusel, turn: nat, i: nat, frame: Vec)
    requires s.Valid() && i < s.k && Pack(i, turn % 2, 0, s.blocks[i]) == Some(frame)
    ensures BlockFrame(frame, s, turn, i)
  {
    hide Frame;
  }

  lemma {:induction false} PackedSymbol(s: Karusel, turn: nat, absSeq: nat, sym: Vec, frame: Vec)
    requires s.Valid() && absSeq < TWO_64 && |sym| <= BLOCK && IsSymbol(sym, s, absSeq)
    requires Pack(absSeq % TWO_32, turn % 2, 1, sym) == Some(frame)
    ensures RepairFrame(frame, s, turn, absSeq)
  {
    hide Frame, IsSymbol;
  }

  lemma {:induction false} TurnFramesMean(frame: Vec, s: Karusel, turn: nat, i: nat)
    ensures BlockFrame(frame, s, turn, i) ==> IsSystematic(frame, s, i)
    ensures RepairFrame(frame, s, turn, i) ==> IsRepair(frame, s, i)
  {
    hide Frame, Faithful, Sampling.Composition, Pad, IsLongest;
    var zero: byte, one: byte := 0, 1;
    if BlockFrame(frame, s, turn, i) {
      assert frame == Frame(i, turn % 2, zero, s.blocks[i]);
    }
    if RepairFrame(frame, s, turn, i) {
      var sym :| IsSymbol(sym, s, i) && |sym| <= BLOCK && frame == Frame(i % TWO_32, turn % 2, 1, sym);
      assert frame == Frame(i % TWO_32, turn % 2, one, sym);
    }
  }

  lemma {:induction false} RepairNumberBound(turn: nat, k: nat, i: nat)
    ensures RepairNumber(turn, k, i) < TWO_64
  {
  }

  lemma {:induction false} PackedSystematic(s: Karusel, i: nat, block: nat, frame: Vec)
    requires s.Valid() && i < s.k && Pack(i, block, 0, s.blocks[i]) == Some(frame)
    ensures IsSystematic(frame, s, i)
  {
    hide Frame;
    var flags: byte := 0;
    assert frame == Frame(i, block, flags, s.blocks[i]);
  }

  lemma {:induction false} PackedRepair(s: Karusel, absSeq: nat, block: nat, sym: Vec, frame: Vec)
    requires s.Valid() && absSeq < TWO_64 && |sym| <= BLOCK
    requires Faithful(Pad(s.blocks), Drop(Sampling.Composition(s.k, absSeq), sym))
    requires Pack(absSeq % TWO_32, block, 1, sym) == Some(frame)
    ensures IsRepair(frame, s, absSeq)
  {
    hide Frame, Faithful, Sampling.Composition, Pad;
    var flags: byte := 1;
    assert frame == Frame(absSeq % TWO_32, block, flags, sym);
  }

  /** The frames of a turn that arrive, by their places in the turn. */
  ghost predicate FromTurn(received: seq<Vec>, s: Karusel, turn: nat, arriving: seq<nat>) {
    && s.Valid() && |received| == |arriving|
    && forall a :: 0 <= a < |arriving| ==>
      if arriving[a] < s.k then BlockFrame(received[a], s, turn, (turn + arriving[a]) % s.k)
      else RepairFrame(received[a], s, turn, RepairNumber(turn, s.k, arriving[a] - s.k))
  }

  /** A turn over a channel that loses, repeats and reorders frames at will. If the two ends agree on
      the repair drops that arrive, the result is the message exactly when what arrives determines it. */
  method TransmitTurn(data: Vec, turn: nat, arriving: seq<nat>) returns (received: seq<Vec>, r: Option<Vec>)
    requires 0 < |data| <= MAX_BLOCKS * BLOCK
    requires forall a :: 0 <= a < |arriving| ==> arriving[a] < 2 * |Chunked(data, BLOCK)|
    ensures 0 < |Chunked(data, BLOCK)| <= MAX_BLOCKS
    ensures FromTurn(received, Karusel(Chunked(data, BLOCK), |Chunked(data, BLOCK)|), turn, arriving)
    ensures var k := |Chunked(data, BLOCK)|;
      RepairsAgree(turn, k, arriving) ==>
        && r == (if Determined(HistoryOf(received, k), k) then Some(data) else None)
        && ((forall i :: 0 <= i < k ==> i in arriving) ==> r == Some(data))
  {
    hide Determined, HistoryOf, Chunked, IsSystematic, IsRepair, Sampling.Composition, RepairNumber, BlockFrame, RepairFrame;
    var made := KaruselSending.New(data);
    var s := made.value;
    var frames := TurnFrames(s, turn);
    forall i | 0 <= i < s.k
      ensures IsSystematic(frames[i], s, (turn + i) % s.k)
      ensures IsRepair(frames[s.k + i], s, RepairNumber(turn, s.k, i))
    {
      TurnFramesMean(frames[i], s, turn, (turn + i) % s.k);
      TurnFramesMean(frames[s.k + i], s, turn, RepairNumber(turn, s.k, i));
    }
    received := seq(|arriving|, a requires 0 <= a < |arriving| => frames[arriving[a]]);
    r := Receive(received, s.k, |data|);
    if RepairsAgree(turn, s.k, arriving) {
      ArrivingPossible(s, turn, frames, arriving, received);
      assert Sent(data, received, s.k, |data|);
      if forall i :: 0 <= i < s.k ==> i in arriving {
        AllBlocksArrive(s, turn, frames, arriving, received);
        SystematicSuffices(received, s);
      }
    }
  }

  /** Both ends draw the same blocks for every repair drop that arrives. */
  ghost predicate RepairsAgree(turn: nat, k: nat, arriving: seq<nat>)
    requires 0 < k <= MAX_BLOCKS
  {
    forall a :: 0 <= a < |arriving| && arriving[a] >= k ==> EndsAgree(k, RepairNumber(turn, k, arriving[a] - k))
  }

  /** They do in all turns whose numbers stay below 2^32. */
  lemma {:induction false} EarlyTurnsAgree(turn: nat, k: nat, arriving: seq<nat>)
    requires 0 < k <= MAX_BLOCKS && (turn + 1) * k <= TWO_32
    requires forall a :: 0 <= a < |arriving| ==> arriving[a] < 2 * k
    ensures RepairsAgree(turn, k, arriving)
  {
    hide Sampling.Composition, RepairNumber;
    forall a | 0 <= a < |arriving| && arriving[a] >= k
      ensures EndsAgree(k, RepairNumber(turn, k, arriving[a] - k))
    {
      EarlyNumber(turn, k, arriving[a] - k);
    }
  }

  lemma {:induction false} EarlyNumber(turn: nat, k: nat, i: nat)
    requires i < k && (turn + 1) * k <= TWO_32
    ensures RepairNumber(turn, k, i) % TWO_32 == RepairNumber(turn, k, i) == turn * k + i
  {
    OneMore(turn, k);
    var start := turn * k;
    SmallMod(start, TWO_64);
    SmallMod(start + i, TWO_64);
    SmallMod(start + i, TWO_32);
  }

  lemma {:induction false} ArrivingPossible(s: Karusel, turn: nat, frames: seq<Vec>, arriving: seq<nat>, received: seq<Vec>)
    requires s.Valid() && |frames| == 2 * s.k && |received| == |arriving| && RepairsAgree(turn, s.k, arriving)
    requires forall a :: 0 <= a < |arriving| ==> arriving[a] < 2 * s.k && received[a] == frames[arriving[a]]
    requires forall i :: 0 <= i < s.k ==> IsSystematic(frames[i], s, (turn + i) % s.k)
    requires forall i :: 0 <= i < s.k ==> IsRepair(frames[s.k + i], s, RepairNumber(turn, s.k, i))
    ensures forall a :: 0 <= a < |received| ==> Possible(received[a], s)
  {
    hide IsSystematic, IsRepair, EndsAgree, RepairNumber;
    forall a | 0 <= a < |received|
      ensures Possible(received[a], s)
    {
      var f := arriving[a];
      if f < s.k {
        assert IsSystematic(received[a], s, (turn + f) % s.k);
      } else {
        assert frames[s.k + (f - s.k)] == received[a];
        assert IsRepair(received[a], s, RepairNumber(turn, s.k, f - s.k));
      }
    }
  }

  lemma {:induction false} AllBlocksArrive(s: Karusel, turn: nat, frames: seq<Vec>, arriving: seq<nat>, received: seq<Vec>)
    requires s.Valid() && |frames| == 2 * s.k && |received| == |arriving|
    requires forall a :: 0 <= a < |arriving| ==> arriving[a] < 2 * s.k && received[a] == frames[arriving[a]]
    requires forall i :: 0 <= i < s.k ==> IsSystematic(frames[i], s, (turn + i) % s.k)
    requires forall i :: 0 <= i < s.k ==> i in arriving
    ensures forall i :: 0 <= i < s.k ==> Arrived(received, s, i)
  {
    hide IsSystematic;
    forall i | 0 <= i < s.k
      ensures Arrived(received, s, i)
    {
      var j := StartOf(turn, s.k, i);
      assert IsSystematic(frames[j], s, i);
      assert j in arriving;
      var a :| 0 <= a < |arriving| && arriving[a] == j;
      assert received[a] == frames[j];
    }
  }

  /** Every block has its place in a turn. */
  lemma {:induction false} StartOf(turn: nat, k: nat, i: nat) returns (j: nat)
    requires i < k
    ensures j < k && (turn + j) % k == i
  {
    var q, r := turn / k, turn % k;
    assert turn == k * q + r;
    if i >= r {
      j := i - r;
      QuotientIs(turn + j, k, q, i);
    } else {
      j := k + i - r;
      assert turn + j == k * (q + 1) + i;
      QuotientIs(turn + j, k, q + 1, i);
    }
  }

  // ---- When the announced length leaves a block unused ---------------------------------------

  /** All blocks but the last, each in its own drop. */
  ghost function AllButLast(t: Blocks): (h: seq<Drop>)
    requires |t| > 0
    ensures |h| == |t| - 1 && forall i :: 0 <= i < |h| ==> h[i] == Drop([i], t[i])
  {
    seq(|t| - 1, i requires 0 <= i < |t| - 1 => Drop([i], t[i]))
  }

  lemma {:induction false} ExplainsAllButLast(t: Blocks, u: Blocks)
    requires IsMatrix(t, BLOCK) && |t| > 0 && IsBlocks(u, |t|)
    ensures u in Explanations(AllButLast(t), |t|) <==> u[..|t| - 1] == t[..|t| - 1]
  {
    hide XorOver;
    var h := AllButLast(t);
    forall i | 0 <= i < |h|
      ensures Faithful(u, h[i]) <==> u[i] == t[i]
    {
      assert Members([i]) == {i};
      XorSingle(u, i, |u|);
    }
  }

  /** If the announced length fits into k - 1 blocks, the first k - 1 blocks fix the message, yet
      the drops that carry them do not determine all k blocks: `Assemble` returns nothing. */
  lemma {:induction false} ShortLength(t: Blocks, n: nat)
    requires IsMatrix(t, BLOCK) && |t| > 0 && n <= (|t| - 1) * BLOCK
    ensures t in Explanations(AllButLast(t), |t|) && !Determined(AllButLast(t), |t|)
    ensures forall u :: u in Explanations(AllButLast(t), |t|) ==> Message(u, n) == Message(t, n)
  {
    hide Explanations, AllButLast, Message, Joined;
    ExplainsAllButLast(t, t);
    LastIsOpen(t);
    forall u | u in Explanations(AllButLast(t), |t|)
      ensures IsBlocks(u, |t|)
    {
      ExplanationsAreBlocks(AllButLast(t), |t|, u);
    }
    forall u | u in Explanations(AllButLast(t), |t|)
      ensures Message(u, n) == Message(t, n)
    {
      ExplainsAllButLast(t, u);
      SameMessage(t, u, n);
    }
  }

  lemma {:induction false} ExplanationsAreBlocks(h: seq<Drop>, k: nat, u: Blocks)
    requires u in Explanations(h, k)
    ensures IsBlocks(u, k)
  {
  }

  /** Changing the last block gives another explanation. */
  lemma {:induction false} LastIsOpen(t: Blocks)
    requires IsMatrix(t, BLOCK) && |t| > 0
    ensures !Determined(AllButLast(t), |t|)
  {
    hide Explanations, AllButLast;
    var k := |t|;
    var other := Elimination.Flipped(t, {k - 1});
    Elimination.FlippedTwin(t, {k - 1}, k - 1, {k - 1});
    assert other[..k - 1] == t[..k - 1];
    ExplainsAllButLast(t, t);
    ExplainsAllButLast(t, other);
  }

  lemma {:induction false} SameMessage(t: Blocks, u: Blocks, n: nat)
    requires IsMatrix(t, BLOCK) && |t| > 0 && IsBlocks(u, |t|) && n <= (|t| - 1) * BLOCK
    requires u[..|t| - 1] == t[..|t| - 1]
    ensures Message(u, n) == Message(t, n)
  {
    JoinedPrefix(t, |t| - 1);
    JoinedPrefix(u, |t| - 1);
  }
}
