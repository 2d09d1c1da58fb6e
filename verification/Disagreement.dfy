/**
Where sender and receiver part ways: the sender draws the blocks of a repair drop from all 64 bits
of its number, the receiver from the 32 bits in the frame. With three blocks the two differ at number
2^32 + 1, and the receiver returns data that was never sent.
*/
module Disagreement {
  import opened Bytes
  import opened Sequences
  import opened Wrappers
  import opened PowersOfTwo
  import opened LinearAlgebra
  import opened Chunking
  import opened Gf256
  import opened LcRng
  import opened Sampling
  import opened KnownAnswers
  import opened CarouselSystem
  import opened KaruselDecoding
  import opened KaruselSending
  import opened Transmission

  const FAR := TWO_32 + 1

  // ---- Four draws --------------------------------------------------------------------------------

  lemma {:induction false} FarFirst()
    ensures Output(12123740826420001592) == 9742545224062555558
  {
    hide Xor, Output;
    XorHex(757733801651250099, 1, 0, 0, 0, 88211824, 0, 1, 1, 0);
    XorHex(47358362603203131, 0, 0, 1, 1, 5513239, 0, 0, 0, 0);
    XorHex(2959897662700195, 1, 0, 1, 1, 344577, 0, 1, 1, 1);
    XorHex(184993603918762, 0, 0, 1, 1, 21536, 0, 0, 0, 1);
    XorHex(11562100244922, 1, 0, 1, 0, 1346, 0, 0, 0, 0);
    XorHex(722631265307, 1, 0, 1, 0, 84, 0, 0, 1, 0);
    XorHex(45164454081, 1, 0, 1, 1, 5, 0, 1, 0, 0);
    XorHex(2822778380, 0, 0, 0, 1, 0, 0, 1, 0, 1);
    XorZero(2822778380);
    OutputIs(12123740826420001592, 1411389190, 12123740827290315838, 9742545224062555558, 12091494016587958266);
  }

  lemma {:induction false} FarSecond()
    ensures Output(18266039176074670631) == 6382698344644256706
  {
    hide Xor, Output;
    XorHex(1141627448504666914, 0, 1, 1, 1, 132902926, 1, 1, 0, 1);
    XorHex(71351715531541682, 0, 0, 1, 0, 8306432, 1, 1, 1, 0);
    XorHex(4459482220721355, 0, 0, 1, 0, 519152, 0, 0, 0, 0);
    XorHex(278717638795084, 1, 0, 1, 1, 32447, 0, 0, 0, 0);
    XorHex(17419852424692, 1, 1, 0, 0, 2027, 1, 1, 1, 1);
    XorHex(1088740776543, 0, 1, 0, 0, 126, 1, 0, 1, 1);
    XorHex(68046298533, 1, 1, 1, 1, 7, 1, 1, 1, 0);
    XorHex(4252893658, 0, 1, 0, 1, 0, 0, 1, 1, 1);
    XorZero(4252893658);
    OutputIs(18266039176074670631, 2126446829, 18266039175045427914, 6382698344644256706, 18217455036209858196);
  }

  lemma {:induction false} NearFirst()
    ensures Output(1360102408078375736) == 6838890073137328835
  {
    hide Xor, Output;
    XorHex(85006400504898483, 1, 0, 0, 0, 9896047, 0, 1, 1, 1);
    XorHex(5312900031556155, 0, 0, 1, 1, 618502, 1, 1, 1, 1);
    XorHex(332056251972259, 1, 0, 1, 1, 38656, 0, 1, 1, 0);
    XorHex(20753515748266, 0, 0, 1, 1, 2416, 0, 0, 0, 0);
    XorHex(1297094734266, 1, 0, 1, 0, 151, 0, 0, 0, 0);
    XorHex(81068420891, 1, 0, 1, 0, 9, 0, 1, 1, 1);
    XorHex(5066776305, 1, 0, 1, 1, 0, 1, 0, 0, 1);
    XorHex(316673519, 0, 0, 0, 1, 0, 0, 0, 0, 0);
    XorZero(316673519);
    OutputIs(1360102408078375736, 158336759, 1360102407930527183, 6838890073137328835, 1356484798027020279);
  }

  lemma {:induction false} NearSecond()
    ensures Output(13747512471471305255) == 17822734663313353051
  {
    hide Xor, Output;
    XorHex(859219529466956578, 0, 1, 1, 1, 100026318, 0, 0, 0, 0);
    XorHex(53701220591684786, 0, 0, 1, 0, 6251644, 1, 1, 1, 0);
    XorHex(3356326286980299, 0, 0, 1, 0, 390727, 1, 1, 0, 0);
    XorHex(209770392936268, 1, 0, 1, 1, 24420, 0, 1, 1, 1);
    XorHex(13110649558516, 1, 1, 0, 0, 1526, 0, 1, 0, 0);
    XorHex(819415597407, 0, 1, 0, 0, 95, 0, 1, 1, 0);
    XorHex(51213474837, 1, 1, 1, 1, 5, 1, 1, 1, 1);
    XorHex(3200842177, 0, 1, 0, 1, 0, 0, 1, 0, 1);
    XorZero(3200842177);
    OutputIs(13747512471471305255, 1600421088, 13747512469875117767, 17822734663313353051, 13710946739993588725);
  }

  /** Two different draws make a sample of two. */
  lemma {:induction false} SampleOfTwo(s: nat, k: nat, i: nat, j: nat)
    requires s < TWO_64 && 2 <= k <= TWO_64
    requires Output(Next(s)) % k == i && Output(Next(Next(s))) % k == j && i != j
    ensures Sample(s, k, 2, []) == [i, j]
  {
    hide Output, Next, Wait;
    NextBound(s);
    NextBound(Next(s));
    var one: seq<nat> := [i];
    var two: seq<nat> := [i, j];
    assert [] + [i] == one && one + [j] == two;
    assert Sample(Next(Next(s)), k, 2, two) == two;
    assert Sample(Next(s), k, 2, one) == Sample(Next(Next(s)), k, 2, two);
    assert Sample(s, k, 2, []) == Sample(Next(s), k, 2, one);
  }

  /** The sender combines blocks 0 and 1 ... */
  lemma {:induction false} FarComposition()
    ensures Composition(3, FAR) == [0, 1]
  {
    hide Output, Sample;
    FarFirst();
    FarSecond();
    assert Seed(FAR) == 2126250766343240726 && Next(2126250766343240726) == 5556347926304537389;
    assert Next(5556347926304537389) == 12123740826420001592 && Next(12123740826420001592) == 18266039176074670631;
    SampleOfTwo(5556347926304537389, 3, 1, 0);
    DegreeOfThree(5556347926304537389);
    InOrder([1, 0], 0, 1);
  }

  /** ... and the receiver reads blocks 1 and 2. */
  lemma {:induction false} NearComposition()
    ensures Composition(3, FAR % TWO_32) == [1, 2]
  {
    hide Output, Sample;
    NearFirst();
    NearSecond();
    assert FAR % TWO_32 == 1;
    assert Seed(1) == 11400714819323198486 && Next(11400714819323198486) == 9600797334776331053;
    assert Next(9600797334776331053) == 1360102408078375736 && Next(1360102408078375736) == 13747512471471305255;
    SampleOfTwo(9600797334776331053, 3, 2, 1);
    DegreeOfThree(9600797334776331053);
    InOrder([2, 1], 1, 2);
  }

  lemma {:induction false} DegreeOfThree(s: nat)
    ensures Degree(3, s) == 2
  {
    hide Output;
  }

  lemma {:induction false} InOrder(drawn: seq<nat>, i: nat, j: nat)
    requires drawn == [j, i] && i < j < 3
    ensures Ascending(Members(drawn), 3) == [i, j]
  {
    assert forall x :: x in Members(drawn) <==> x == i || x == j;
    var s := Members(drawn);
    assert Ascending(s, 1) == if 0 in s then [0] else [];
    assert Ascending(s, 2) == Ascending(s, 1) + if 1 in s then [1] else [];
    assert Ascending(s, 3) == Ascending(s, 2) + if 2 in s then [2] else [];
  }

  /** At this number a repair frame does not tell the truth about every message of three blocks. */
  lemma {:induction false} FarNumberDisagrees()
    ensures !EndsAgree(3, FAR) && !AlwaysFaithful(3, FAR)
  {
    hide Composition, AlwaysFaithful;
    FarComposition();
    NearComposition();
    FaithfulIffEndsAgree(3, FAR);
  }

  /** With one or two blocks every drop takes all of them, so all numbers agree. */
  lemma {:induction false} TwoBlocksAgree(k: nat, absSeq: nat)
    requires 0 < k <= 2
    ensures EndsAgree(k, absSeq)
  {
    hide Composition;
    TakesAll(k, absSeq);
    TakesAll(k, absSeq % TWO_32);
    CompositionByMembers(k, absSeq, absSeq % TWO_32);
  }

  lemma {:induction false} TakesAll(k: nat, n: nat)
    requires 0 < k <= 2
    ensures Members(Composition(k, n)) == Range(k)
  {
    hide Output, Next, Sample, Ascending;
    var s := Next(Seed(n));
    NextBound(Seed(n));
    SamplePicks(s, k, k, []);
    var drawn := Sample(s, k, k, []);
    AscendingPicks(Members(drawn), k);
    DistinctSize(drawn);
    assert Members(drawn) <= Range(k);
    SubsetOfSameSize(Members(drawn), Range(k));
    assert Members(Ascending(Members(drawn), k)) == Members(drawn);
  }

  lemma {:induction false} DistinctSize(s: seq<nat>)
    requires Distinct(s)
    ensures |Members(s)| == |s|
  {
    if s != [] {
      var l := |s| - 1;
      DistinctSize(s[..l]);
      assert Members(s) == Members(s[..l]) + {s[l]};
    }
  }

  // ---- Data that was never sent ------------------------------------------------------------------

  lemma {:induction false} XorOfTwo(t: Blocks, i: nat, j: nat)
    requires IsMatrix(t, BLOCK) && i < |t| && j < |t| && i != j
    ensures XorOver(t, Members([i, j]), |t|) == AddV(t[i], t[j])
  {
    hide XorOver;
    assert Members([i, j]) == SymmetricDifference({i}, {j});
    XorDifference(t, {i}, {j}, |t|);
    XorSingle(t, i, |t|);
    XorSingle(t, j, |t|);
  }

  /** Blocks 0 and 1 as they are, and their exclusive or under the names of blocks 1 and 2. */
  ghost predicate Misnamed(h: seq<Drop>, t: Blocks)
    requires IsBlocks(t, 3)
  {
    && |h| == 3
    && h[0].idx == [0] && Resized(h[0].payload) == t[0]
    && h[1].idx == [1] && Resized(h[1].payload) == t[1]
    && h[2].idx == [1, 2] && Resized(h[2].payload) == AddV(t[0], t[1])
  }

  /** Such drops have a single explanation: block 0 once more in place of block 2. */
  lemma {:induction false} MisnamedExplanation(h: seq<Drop>, t: Blocks, v: Blocks)
    requires IsBlocks(t, 3) && Misnamed(h, t) && IsBlocks(v, 3)
    ensures v in Explanations(h, 3) <==> v == [t[0], t[1], t[0]]
  {
    hide XorOver, AddV, Resized;
    assert Members([0]) == {0} && Members([1]) == {1};
    XorSingle(v, 0, 3);
    XorSingle(v, 1, 3);
    XorOfTwo(v, 1, 2);
    AddVLaws(t[0], t[1], t[1]);
    if v[1] == t[1] && AddV(v[1], v[2]) == AddV(t[0], t[1]) {
      AddVLaws(v[2], v[1], v[1]);
      AddVCancel(v[2], v[1]);
      AddVCancel(t[0], t[1]);
    }
    assert Faithful(v, h[0]) <==> v[0] == t[0];
    assert Faithful(v, h[1]) <==> v[1] == t[1];
    assert Faithful(v, h[2]) <==> AddV(v[1], v[2]) == AddV(t[0], t[1]);
  }

  lemma {:induction false} MisnamedDetermines(h: seq<Drop>, t: Blocks)
    requires IsBlocks(t, 3) && Misnamed(h, t)
    ensures Determined(h, 3) && [t[0], t[1], t[0]] in Explanations(h, 3)
  {
    hide Misnamed, Explanations;
    MisnamedExplanation(h, t, [t[0], t[1], t[0]]);
    forall u, v | u in Explanations(h, 3) && v in Explanations(h, 3)
      ensures u == v
    {
      ExplanationsAreBlocks(h, 3, u);
      ExplanationsAreBlocks(h, 3, v);
      MisnamedExplanation(h, t, u);
      MisnamedExplanation(h, t, v);
    }
  }

  lemma {:induction false} ThreeFrames(a: Vec, b: Vec, c: Vec, k: nat)
    requires 0 < k <= MAX_BLOCKS
    ensures HistoryOf([a, b, c], k) == Delivered(a, k) + Delivered(b, k) + Delivered(c, k)
  {
    hide Delivered;
    assert [a, b, c][..2] == [a, b] && [a, b][..1] == [a] && [a][..0] == [];
    assert HistoryOf([], k) == [];
    assert HistoryOf([a], k) == Delivered(a, k);
    assert HistoryOf([a, b], k) == Delivered(a, k) + Delivered(b, k);
  }

  lemma {:induction false} FramesMisname(s: Karusel, a: Vec, b: Vec, c: Vec)
    requires s.Valid() && s.k == 3 && IsSystematic(a, s, 0) && IsSystematic(b, s, 1) && IsRepair(c, s, FAR)
    ensures Misnamed(HistoryOf([a, b, c], 3), Pad(s.blocks))
  {
    hide IsSystematic, IsRepair, Composition, Delivered, XorOver, AddV, Resized, HistoryOf;
    SystematicDelivers(a, s, 0);
    SystematicDelivers(b, s, 1);
    RepairDelivers(c, s, FAR);
    FarComposition();
    NearComposition();
    XorOfTwo(Pad(s.blocks), 0, 1);
    ThreeFrames(a, b, c, 3);
  }

  /** Three joined blocks. */
  lemma {:induction false} ThreeJoined(t: Blocks)
    requires IsBlocks(t, 3)
    ensures Joined(t) == t[0] + t[1] + t[2]
  {
    assert t == [t[0]] + ([t[1]] + [t[2]]);
    JoinedCons(t[0], [t[1]] + [t[2]]);
    JoinedCons(t[1], [t[2]]);
    JoinedCons(t[2], []);
    assert [t[2]] + [] == [t[2]];
  }

  lemma {:induction false} WrongMessage(data: Vec)
    requires 400 < |data| <= 600
    ensures |Chunked(data, BLOCK)| == 3
    ensures var t := Pad(Chunked(data, BLOCK));
      Message([t[0], t[1], t[0]], |data|) == data[..400] + data[..|data| - 400]
  {
    hide Joined, Pad, Chunked;
    ChunkedShape(data, BLOCK);
    PaddedMessage(data);
    var t := Pad(Chunked(data, BLOCK));
    ThreeJoined(t);
    ThreeJoined([t[0], t[1], t[0]]);
    assert t[0] + t[1] == data[..400] by {
      assert (t[0] + t[1] + t[2])[..|data|][..400] == t[0] + t[1];
    }
    assert t[0] == data[..200];
  }

  /** Blocks 0 and 1 of any message of three blocks and repair drop 2^32 + 1: the receiver returns the
      first block, cut to length, in place of the last. */
  method ReceivesWrongData(data: Vec) returns (r: Option<Vec>)
    requires 400 < |data| <= 600
    ensures r == Some(data[..400] + data[..|data| - 400])
    ensures data[400..] != data[..|data| - 400] ==> r != Some(data)
  {
    hide Frame, Chunked, HistoryOf, Explanations, Determined, Faithful, Composition, Pad, Message, IsSystematic, IsRepair, Misnamed;
    WrongMessage(data);
    var made := KaruselSending.New(data);
    var s := made.value;
    var first, second := SystematicDrop(s, 0), SystematicDrop(s, 1);
    var a, b := Pack(first.value.0, 0, 0, first.value.1), Pack(second.value.0, 0, 0, second.value.1);
    PackedSystematic(s, 0, 0, a.value);
    PackedSystematic(s, 1, 0, b.value);
    var seqno, sym := RepairDrop(s, FAR);
    var c := Pack(seqno, 0, 1, sym);
    PackedRepair(s, FAR, 0, sym, c.value);
    var frames := [a.value, b.value, c.value];
    r := Receive(frames, 3, |data|);
    FramesMisname(s, a.value, b.value, c.value);
    ghost var t := Pad(s.blocks);
    MisnamedDetermines(HistoryOf(frames, 3), t);
    assert Explains([t[0], t[1], t[0]], frames, 3, |data|);
  }
}
