/**
The Merkle tree over a list of chunks, its inclusion proofs, and what a proof that verifies
means. The hash is any function to 32 bytes: nothing is assumed of it, and soundness names
the collision that a wrong proof would have to contain.
*/
module Das {
  import opened Bytes
  import opened Wrappers
  import opened BitStrings
  import opened PowersOfTwo
  import opened Hashing

  /** The domain tags "BDLM_BUD_DAS_LEAF_V1" and "BDLM_BUD_DAS_NODE_V1". */
  const LEAF_TAG: seq<byte> := TAG_HEAD + [0x4C, 0x45, 0x41, 0x46] + TAG_TAIL
  const NODE_TAG: seq<byte> := TAG_HEAD + [0x4E, 0x4F, 0x44, 0x45] + TAG_TAIL
  const TAG_HEAD: seq<byte> := [0x42, 0x44, 0x4C, 0x4D, 0x5F, 0x42, 0x55, 0x44, 0x5F, 0x44, 0x41, 0x53, 0x5F]
  const TAG_TAIL: seq<byte> := [0x5F, 0x56, 0x31]

  function LeafInput(chunk: seq<byte>): seq<byte> {
    LEAF_TAG + Le(|chunk|, 8) + chunk
  }

  function NodeInput(l: Digest, r: Digest): seq<byte> {
    NODE_TAG + l + r
  }

  lemma {:induction false} InputsDiffer(chunk: seq<byte>, l: Digest, r: Digest)
    ensures LeafInput(chunk) != NodeInput(l, r)
  {
    assert LeafInput(chunk)[13] == 0x4C && NodeInput(l, r)[13] == 0x4E;
  }

  lemma {:induction false} LeafInputInjective(a: seq<byte>, b: seq<byte>)
    requires LeafInput(a) == LeafInput(b)
    ensures a == b
  {
    assert a == LeafInput(a)[28..] && b == LeafInput(b)[28..];
  }

  lemma {:induction false} NodeInputInjective(a: Digest, b: Digest, c: Digest, d: Digest)
    requires NodeInput(a, b) == NodeInput(c, d)
    ensures a == c && b == d
  {
    assert a == NodeInput(a, b)[20..52] && b == NodeInput(a, b)[52..];
    assert c == NodeInput(c, d)[20..52] && d == NodeInput(c, d)[52..];
  }

  // ---- Levels of the tree -------------------------------------------------------------------

  function Leaves(h: Hash, chunks: seq<seq<byte>>): (l: seq<Digest>)
    ensures |l| == |chunks|
  {
    seq<Digest>(|chunks|, i requires 0 <= i < |chunks| => h(LeafInput(chunks[i])))
  }

  function RightOf(level: seq<Digest>, q: nat): Digest
    requires 2 * q < |level|
  {
    if 2 * q + 1 < |level| then level[2 * q + 1] else level[2 * q]
  }

  /** Pairs are hashed together; a last one without partner is paired with itself. */
  function Up(h: Hash, level: seq<Digest>): (next: seq<Digest>)
    ensures |next| == (|level| + 1) / 2
  {
    seq<Digest>((|level| + 1) / 2, q requires 0 <= q < (|level| + 1) / 2 =>
      h(NodeInput(level[2 * q], RightOf(level, q))))
  }

  function LevelAt(h: Hash, leaves: seq<Digest>, j: nat): (level: seq<Digest>)
    ensures leaves != [] ==> level != []
  {
    if j == 0 then leaves else Up(h, LevelAt(h, leaves, j - 1))
  }

  /** How often n nodes are halved, rounding up, until one is left. */
  function Height(n: nat): nat {
    if n <= 1 then 0 else 1 + Height((n + 1) / 2)
  }

  function Root(h: Hash, chunks: seq<seq<byte>>): Digest
    requires chunks != []
  {
    LevelAt(h, Leaves(h, chunks), Height(|chunks|))[0]
  }

  lemma {:induction false} LevelAtUp(h: Hash, leaves: seq<Digest>, j: nat)
    ensures LevelAt(h, Up(h, leaves), j) == LevelAt(h, leaves, j + 1)
  {
    if j > 0 {
      LevelAtUp(h, leaves, j - 1);
    }
  }

  /** The level at the height is the root alone. */
  lemma {:induction false} TopLevel(h: Hash, leaves: seq<Digest>)
    requires leaves != []
    ensures |LevelAt(h, leaves, Height(|leaves|))| == 1
    decreases |leaves|
  {
    if |leaves| > 1 {
      TopLevel(h, Up(h, leaves));
      LevelAtUp(h, leaves, Height(|leaves|) - 1);
    }
  }

  lemma {:induction false} IndexInLevel(h: Hash, leaves: seq<Digest>, i: nat, j: nat)
    requires i < |leaves|
    ensures Shr(i, j) < |LevelAt(h, leaves, j)|
  {
    if j > 0 {
      IndexInLevel(h, leaves, i, j - 1);
      ShrNext(i, j - 1);
    }
  }

  lemma {:induction false} ShrNext(i: nat, j: nat)
    ensures Shr(i, j + 1) == Shr(i, j) / 2
  {
    if j > 0 {
      ShrNext(i / 2, j - 1);
    }
  }

  // ---- Proofs ----------------------------------------------------------------------------------

  datatype DasProof = DasProof(leafIndex: nat, path: seq<Digest>)

  function Joined(cur: Digest, sibling: Digest, idx: nat): seq<byte> {
    if idx % 2 == 0 then NodeInput(cur, sibling) else NodeInput(sibling, cur)
  }

  /** The digest after the first j steps of a path. */
  function ClimbTo(h: Hash, leaf: seq<byte>, p: DasProof, j: nat): Digest
    requires j <= |p.path|
  {
    if j == 0 then h(LeafInput(leaf))
    else h(Joined(ClimbTo(h, leaf, p, j - 1), p.path[j - 1], Shr(p.leafIndex, j - 1)))
  }

  predicate Verifies(h: Hash, p: DasProof, leaf: seq<byte>, root: Digest) {
    ClimbTo(h, leaf, p, |p.path|) == root
  }

  function SiblingAt(level: seq<Digest>, i: nat): Digest
    requires i < |level|
  {
    var s := if i % 2 == 0 then i + 1 else i - 1;
    if s < |level| then level[s] else level[i]
  }

  /** `path` holds the siblings met on the way up from leaf i. */
  ghost predicate IsPathOf(h: Hash, chunks: seq<seq<byte>>, i: nat, path: seq<Digest>)
    requires i < |chunks|
  {
    var leaves := Leaves(h, chunks);
    forall j :: 0 <= j < |path| ==>
      Shr(i, j) < |LevelAt(h, leaves, j)| && path[j] == SiblingAt(LevelAt(h, leaves, j), Shr(i, j))
  }

  /** The siblings of a chunk lead from it up through the levels, whatever the hash. */
  lemma {:induction false} ClimbsLevels(h: Hash, chunks: seq<seq<byte>>, p: DasProof, j: nat)
    requires p.leafIndex < |chunks| && IsPathOf(h, chunks, p.leafIndex, p.path) && j <= |p.path|
    ensures Shr(p.leafIndex, j) < |LevelAt(h, Leaves(h, chunks), j)|
    ensures ClimbTo(h, chunks[p.leafIndex], p, j) == LevelAt(h, Leaves(h, chunks), j)[Shr(p.leafIndex, j)]
  {
    hide NodeInput, LeafInput, Shr, Joined, Up, SiblingAt;
    var leaves, i := Leaves(h, chunks), p.leafIndex;
    IndexInLevel(h, leaves, i, j);
    if j == 0 {
      ShrNone(i);
    } else {
      ClimbsLevels(h, chunks, p, j - 1);
      ShrNext(i, j - 1);
      var level, k := LevelAt(h, leaves, j - 1), Shr(i, j - 1);
      assert p.path[j - 1] == SiblingAt(level, k);
      JoinsSibling(h, level, k);
    }
  }

  lemma {:induction false} JoinsSibling(h: Hash, level: seq<Digest>, k: nat)
    requires k < |level|
    ensures Up(h, level)[k / 2] == h(Joined(level[k], SiblingAt(level, k), k))
  {
    hide NodeInput;
    var q := k / 2;
    assert Up(h, level)[q] == h(NodeInput(level[2 * q], RightOf(level, q)));
    if k % 2 == 0 {
      assert k == 2 * q && RightOf(level, q) == SiblingAt(level, k);
    } else {
      assert k == 2 * q + 1 && level[2 * q] == SiblingAt(level, k);
    }
  }

  /** Above the lowest bit an odd number and the even one below it agree. */
  lemma {:induction false} SameHigher(n: nat, j: nat)
    requires n % 2 == 1 && j > 0
    ensures Shr(n, j) == Shr(n - 1, j)
  {
    assert n / 2 == (n - 1) / 2;
  }

  lemma {:induction false} ShrNone(i: nat)
    ensures Shr(i, 0) == i
  {
  }

  lemma {:induction false} ProofsVerify(h: Hash, chunks: seq<seq<byte>>, p: DasProof)
    requires p.leafIndex < |chunks| && IsPathOf(h, chunks, p.leafIndex, p.path)
    requires |p.path| == Height(|chunks|)
    ensures Verifies(h, p, chunks[p.leafIndex], Root(h, chunks))
  {
    hide ClimbTo, LevelAt, Leaves, Height, Shr, IsPathOf;
    ClimbsLevels(h, chunks, p, |p.path|);
    TopLevel(h, Leaves(h, chunks));
  }

  // ---- Soundness ----------------------------------------------------------------------------------

  /** What is hashed for the root. */
  ghost predicate HashedForRoot(h: Hash, chunks: seq<seq<byte>>, x: seq<byte>) {
    || (exists i :: 0 <= i < |chunks| && x == LeafInput(chunks[i]))
    || (exists j: nat, q: nat :: HashedAt(h, chunks, j, q, x))
  }

  ghost predicate HashedAt(h: Hash, chunks: seq<seq<byte>>, j: nat, q: nat, x: seq<byte>) {
    var level := LevelAt(h, Leaves(h, chunks), j);
    j < Height(|chunks|) && 2 * q < |level| && x == NodeInput(level[2 * q], RightOf(level, q))
  }

  /** What is hashed when the proof is checked. */
  ghost predicate HashedForProof(h: Hash, leaf: seq<byte>, p: DasProof, x: seq<byte>) {
    || x == LeafInput(leaf)
    || (exists j :: 0 <= j < |p.path| &&
          x == Joined(ClimbTo(h, leaf, p, j), p.path[j], Shr(p.leafIndex, j)))
  }

  /** Two different inputs, one hashed for the root and one for the proof, with the same digest. */
  ghost predicate Collision(h: Hash, chunks: seq<seq<byte>>, leaf: seq<byte>, p: DasProof) {
    exists x, y :: HashedForRoot(h, chunks, x) && HashedForProof(h, leaf, p, y) && x != y && h(x) == h(y)
  }

  lemma {:induction false} SameOrCollision(h: Hash, chunks: seq<seq<byte>>, leaf: seq<byte>, p: DasProof,
                                           x: seq<byte>, y: seq<byte>)
    requires HashedForRoot(h, chunks, x) && HashedForProof(h, leaf, p, y) && h(x) == h(y)
    ensures x == y || Collision(h, chunks, leaf, p)
  {
  }

  lemma {:induction false} NodeIsHashed(h: Hash, chunks: seq<seq<byte>>, j: nat, q: nat)
    requires chunks != [] && j < Height(|chunks|) && q < |LevelAt(h, Leaves(h, chunks), j + 1)|
    ensures var level := LevelAt(h, Leaves(h, chunks), j);
      && 2 * q < |level| && HashedForRoot(h, chunks, NodeInput(level[2 * q], RightOf(level, q)))
      && LevelAt(h, Leaves(h, chunks), j + 1)[q] == h(NodeInput(level[2 * q], RightOf(level, q)))
  {
    var level := LevelAt(h, Leaves(h, chunks), j);
    assert LevelAt(h, Leaves(h, chunks), j + 1) == Up(h, level);
    assert HashedAt(h, chunks, j, q, NodeInput(level[2 * q], RightOf(level, q)));
  }

  lemma {:induction false} StepIsHashed(h: Hash, leaf: seq<byte>, p: DasProof, j: nat)
    requires j < |p.path|
    ensures var y := Joined(ClimbTo(h, leaf, p, j), p.path[j], Shr(p.leafIndex, j));
      HashedForProof(h, leaf, p, y) && ClimbTo(h, leaf, p, j + 1) == h(y)
  {
  }

  /** One step down from the root: if the digests agree above, they agree below. */
  lemma {:induction false} StepDown(h: Hash, chunks: seq<seq<byte>>, leaf: seq<byte>, p: DasProof,
                                    i: nat, j: nat, q: nat) returns (r: nat)
    requires chunks != [] && i < |p.path| && j < Height(|chunks|)
    requires q < |LevelAt(h, Leaves(h, chunks), j + 1)|
    requires ClimbTo(h, leaf, p, i + 1) == LevelAt(h, Leaves(h, chunks), j + 1)[q]
    requires !Collision(h, chunks, leaf, p)
    ensures r < |LevelAt(h, Leaves(h, chunks), j)|
    ensures ClimbTo(h, leaf, p, i) == LevelAt(h, Leaves(h, chunks), j)[r]
    ensures var k := 2 * q + Shr(p.leafIndex, i) % 2; k < |LevelAt(h, Leaves(h, chunks), j)| ==> r == k
  {
    hide NodeInput, LeafInput, Shr, LevelAt, ClimbTo, Collision, HashedForRoot, HashedForProof;
    var level := LevelAt(h, Leaves(h, chunks), j);
    NodeIsHashed(h, chunks, j, q);
    StepIsHashed(h, leaf, p, i);
    var cur, sib, idx := ClimbTo(h, leaf, p, i), p.path[i], Shr(p.leafIndex, i);
    SameOrCollision(h, chunks, leaf, p, NodeInput(level[2 * q], RightOf(level, q)), Joined(cur, sib, idx));
    if idx % 2 == 0 {
      NodeInputInjective(level[2 * q], RightOf(level, q), cur, sib);
      r := 2 * q;
    } else {
      NodeInputInjective(level[2 * q], RightOf(level, q), sib, cur);
      r := if 2 * q + 1 < |level| then 2 * q + 1 else 2 * q;
    }
  }

  /** Going down t steps from the root, in step with the bits of a leaf index in range. */
  lemma {:induction false} Descend(h: Hash, chunks: seq<seq<byte>>, leaf: seq<byte>, p: DasProof, t: nat) returns (q: nat)
    requires chunks != [] && Verifies(h, p, leaf, Root(h, chunks)) && !Collision(h, chunks, leaf, p)
    requires t <= |p.path| && t <= Height(|chunks|)
    ensures q < |LevelAt(h, Leaves(h, chunks), Height(|chunks|) - t)|
    ensures ClimbTo(h, leaf, p, |p.path| - t) == LevelAt(h, Leaves(h, chunks), Height(|chunks|) - t)[q]
    ensures |p.path| == Height(|chunks|) && p.leafIndex < |chunks| ==> q == Shr(p.leafIndex, |p.path| - t)
  {
    hide Shr, ClimbTo, LevelAt, Collision, Height;
    var leaves, top := Leaves(h, chunks), Height(|chunks|);
    if p.leafIndex < |chunks| {
      IndexInLevel(h, leaves, p.leafIndex, top - t);
    }
    if t == 0 {
      TopLevel(h, leaves);
      q := 0;
    } else {
      var above := Descend(h, chunks, leaf, p, t - 1);
      ShrNext(p.leafIndex, |p.path| - t);
      q := StepDown(h, chunks, leaf, p, |p.path| - t, top - t, above);
    }
  }

  /** A proof that verifies has as many steps as the tree has levels, and for an index in range it
      carries the very chunk, unless root and proof between them hold a hash collision. */
  lemma {:induction false} VerifiedMeansIncluded(h: Hash, chunks: seq<seq<byte>>, leaf: seq<byte>, p: DasProof)
    requires chunks != [] && Verifies(h, p, leaf, Root(h, chunks))
    ensures Collision(h, chunks, leaf, p) ||
            (|p.path| == Height(|chunks|) && leaf in chunks
             && (p.leafIndex < |chunks| ==> leaf == chunks[p.leafIndex]))
  {
    hide Shr, ClimbTo, LevelAt, Collision, LeafInput, HashedForRoot, HashedForProof;
    if !Collision(h, chunks, leaf, p) {
      var top := Height(|chunks|);
      var t := if |p.path| < top then |p.path| else top;
      var q := Descend(h, chunks, leaf, p, t);
      AtTheBottom(h, chunks, leaf, p, |p.path| - t, top - t, q);
      ShrNone(p.leafIndex);
    }
  }

  /** Both ends of the descent are leaves, and the same one. */
  lemma {:induction false} AtTheBottom(h: Hash, chunks: seq<seq<byte>>, leaf: seq<byte>, p: DasProof, i: nat, j: nat, q: nat)
    requires chunks != [] && i <= |p.path| && j <= Height(|chunks|) && (i == 0 || j == 0)
    requires q < |LevelAt(h, Leaves(h, chunks), j)|
    requires ClimbTo(h, leaf, p, i) == LevelAt(h, Leaves(h, chunks), j)[q]
    requires !Collision(h, chunks, leaf, p)
    ensures i == j == 0 && q < |chunks| && leaf == chunks[q]
  {
    hide Shr, Collision, LeafInput, NodeInput;
    if i == 0 && j == 0 {
      var x, y := LeafInput(chunks[q]), LeafInput(leaf);
      SameOrCollision(h, chunks, leaf, p, x, y);
      LeafInputInjective(chunks[q], leaf);
    } else if i == 0 {
      NodeIsHashed(h, chunks, j - 1, q);
      var level := LevelAt(h, Leaves(h, chunks), j - 1);
      SameOrCollision(h, chunks, leaf, p, NodeInput(level[2 * q], RightOf(level, q)), LeafInput(leaf));
      InputsDiffer(leaf, level[2 * q], RightOf(level, q));
    } else {
      StepIsHashed(h, leaf, p, i - 1);
      var cur, sib, idx := ClimbTo(h, leaf, p, i - 1), p.path[i - 1], Shr(p.leafIndex, i - 1);
      SameOrCollision(h, chunks, leaf, p, LeafInput(chunks[q]), Joined(cur, sib, idx));
      InputsDiffer(chunks[q], cur, sib);
      InputsDiffer(chunks[q], sib, cur);
    }
  }

  /** Why the index must be in range: with an odd number of chunks the last one also verifies under
      the index one past the end. */
  lemma {:induction false} LastChunkVerifiesTwice(h: Hash, chunks: seq<seq<byte>>, path: seq<Digest>)
    requires |chunks| > 1 && |chunks| % 2 == 1
    requires IsPathOf(h, chunks, |chunks| - 1, path) && |path| == Height(|chunks|)
    ensures Verifies(h, DasProof(|chunks|, path), chunks[|chunks| - 1], Root(h, chunks))
  {
    hide LevelAt;
    var n := |chunks|;
    var p, q := DasProof(n - 1, path), DasProof(n, path);
    ProofsVerify(h, chunks, p);
    SameClimb(h, chunks, path, |path|);
  }

  lemma {:induction false} SameClimb(h: Hash, chunks: seq<seq<byte>>, path: seq<Digest>, j: nat)
    requires |chunks| > 1 && |chunks| % 2 == 1
    requires IsPathOf(h, chunks, |chunks| - 1, path) && 1 <= j <= |path|
    ensures var n := |chunks|;
      ClimbTo(h, chunks[n - 1], DasProof(n - 1, path), j) == ClimbTo(h, chunks[n - 1], DasProof(n, path), j)
  {
    hide LeafInput, NodeInput, Shr;
    var n := |chunks|;
    ShrNone(n);
    ShrNone(n - 1);
    if j == 1 {
      assert path[0] == SiblingAt(LevelAt(h, Leaves(h, chunks), 0), Shr(n - 1, 0));
      assert path[0] == h(LeafInput(chunks[n - 1]));
    } else {
      hide IsPathOf, LevelAt, Joined;
      SameClimb(h, chunks, path, j - 1);
      SameHigher(n, j - 1);
    }
  }

  // ---- The root by halves --------------------------------------------------------------------

  /** A tree over n chunks has m levels of nodes: 2^m places are enough, and half of them are not. */
  predicate Levels(n: nat, m: nat) {
    n <= Pow2(m) && (m > 0 ==> Pow2(m - 1) < n)
  }

  /** The digest of a tree over up to 2^m chunks: a chunk is hashed behind its tag and length, and two
      halves left before right; a right half without chunks repeats the left one. */
  ghost function TreeDigest(h: Hash, chunks: seq<seq<byte>>, m: nat): Digest
    requires 0 < |chunks| <= Pow2(m)
  {
    if m == 0 then h(Ascii("BDLM_BUD_DAS_LEAF_V1") + Bytes8(|chunks[0]|) + chunks[0])
    else
      var half := Pow2(m - 1);
      if |chunks| <= half then
        var d := TreeDigest(h, chunks, m - 1);
        h(Ascii("BDLM_BUD_DAS_NODE_V1") + d + d)
      else
        h(Ascii("BDLM_BUD_DAS_NODE_V1") + TreeDigest(h, chunks[..half], m - 1) + TreeDigest(h, chunks[half..], m - 1))
  }

  lemma {:induction false} LeafTagSpelled()
    ensures LEAF_TAG == Ascii("BDLM_BUD_DAS_LEAF_V1")
  {
  }

  lemma {:induction false} NodeTagSpelled()
    ensures NODE_TAG == Ascii("BDLM_BUD_DAS_NODE_V1")
  {
  }

  lemma {:induction false} LeafSpelled(chunk: seq<byte>)
    ensures LeafInput(chunk) == Ascii("BDLM_BUD_DAS_LEAF_V1") + Bytes8(|chunk|) + chunk
  {
    hide Ascii, Bytes8, Le;
    LeafTagSpelled();
    LeEight(|chunk|, 8);
  }

  lemma {:induction false} UpAppend(h: Hash, x: seq<Digest>, y: seq<Digest>)
    requires |x| % 2 == 0
    ensures Up(h, x + y) == Up(h, x) + Up(h, y)
  {
    hide NodeInput;
    var z, u := Up(h, x + y), Up(h, x) + Up(h, y);
    assert |z| == |u|;
    forall q | 0 <= q < |z|
      ensures z[q] == u[q]
    {
      if q < |x| / 2 {
        assert (x + y)[2 * q] == x[2 * q] && RightOf(x + y, q) == RightOf(x, q);
      } else {
        var r := q - |x| / 2;
        assert (x + y)[2 * q] == y[2 * r] && RightOf(x + y, q) == RightOf(y, r);
      }
    }
  }

  lemma {:induction false} LevelSteps(h: Hash, x: seq<Digest>, j: nat)
    ensures LevelAt(h, x, j) == if j == 0 then x else Up(h, LevelAt(h, x, j - 1))
  {
  }

  lemma {:induction false} TwiceOver(q: nat, p: nat)
    ensures q * (2 * p) == (2 * q) * p
  {
  }

  /** Levels over a full left part and the rest lie side by side. */
  lemma {:induction false} LevelAppend(h: Hash, x: seq<Digest>, y: seq<Digest>, j: nat, q: nat)
    requires |x| == q * Pow2(j)
    ensures LevelAt(h, x + y, j) == LevelAt(h, x, j) + LevelAt(h, y, j) && |LevelAt(h, x, j)| == q
  {
    hide Up, Pow2, LevelAt;
    Pow2Zero();
    LevelSteps(h, x, j);
    LevelSteps(h, y, j);
    LevelSteps(h, x + y, j);
    if j > 0 {
      Pow2Next(j - 1);
      TwiceOver(q, Pow2(j - 1));
      LevelAppend(h, x, y, j - 1, 2 * q);
      UpAppend(h, LevelAt(h, x, j - 1), LevelAt(h, y, j - 1));
    }
  }

  lemma {:induction false} UpOne(h: Hash, d: Digest)
    ensures Up(h, [d]) == [h(Ascii("BDLM_BUD_DAS_NODE_V1") + d + d)]
  {
    hide Ascii;
    NodeTagSpelled();
    var level: seq<Digest> := [d];
    assert RightOf(level, 0) == d && Up(h, level)[0] == h(NodeInput(level[2 * 0], RightOf(level, 0)));
  }

  lemma {:induction false} UpTwo(h: Hash, l: Digest, r: Digest)
    ensures Up(h, [l, r]) == [h(Ascii("BDLM_BUD_DAS_NODE_V1") + l + r)]
  {
    hide Ascii;
    NodeTagSpelled();
    var level: seq<Digest> := [l, r];
    assert RightOf(level, 0) == r && Up(h, level)[0] == h(NodeInput(level[2 * 0], RightOf(level, 0)));
  }

  lemma {:induction false} LevelOfHalves(h: Hash, a: seq<seq<byte>>, b: seq<seq<byte>>, m: nat)
    requires |a| == Pow2(m) && |LevelAt(h, Leaves(h, a), m)| == |LevelAt(h, Leaves(h, b), m)| == 1
    ensures var l, r := LevelAt(h, Leaves(h, a), m)[0], LevelAt(h, Leaves(h, b), m)[0];
      LevelAt(h, Leaves(h, a + b), m + 1) == [h(Ascii("BDLM_BUD_DAS_NODE_V1") + l + r)]
  {
    hide Ascii, Up, Pow2;
    var x, y := LevelAt(h, Leaves(h, a), m), LevelAt(h, Leaves(h, b), m);
    assert Leaves(h, a + b) == Leaves(h, a) + Leaves(h, b);
    LevelAppend(h, Leaves(h, a), Leaves(h, b), m, 1);
    assert x + y == [x[0], y[0]];
    UpTwo(h, x[0], y[0]);
  }

  lemma {:induction false} TreeSplits(h: Hash, chunks: seq<seq<byte>>, m: nat)
    requires 0 < |chunks| <= Pow2(m + 1)
    ensures |chunks| <= Pow2(m) ==>
      var d := TreeDigest(h, chunks, m);
      TreeDigest(h, chunks, m + 1) == h(Ascii("BDLM_BUD_DAS_NODE_V1") + d + d)
    ensures |chunks| > Pow2(m) ==>
      var a, b := chunks[..Pow2(m)], chunks[Pow2(m)..];
      && 0 < |a| && |b| <= Pow2(m)
      && TreeDigest(h, chunks, m + 1) == h(Ascii("BDLM_BUD_DAS_NODE_V1") + TreeDigest(h, a, m) + TreeDigest(h, b, m))
  {
    hide Ascii;
    Pow2Positive(m);
  }

  lemma {:induction false} LevelIsTree(h: Hash, chunks: seq<seq<byte>>, m: nat)
    requires 0 < |chunks| <= Pow2(m)
    ensures LevelAt(h, Leaves(h, chunks), m) == [TreeDigest(h, chunks, m)]
  {
    hide Ascii, Pow2, TreeDigest, Leaves, LevelAt;
    if m == 0 {
      Pow2Zero();
      OneLeaf(h, chunks);
      LevelSteps(h, Leaves(h, chunks), 0);
    } else {
      TreeSplits(h, chunks, m - 1);
      if |chunks| <= Pow2(m - 1) {
        LevelIsTree(h, chunks, m - 1);
        LevelAlone(h, chunks, TreeDigest(h, chunks, m - 1), m - 1);
      } else {
        var a, b := chunks[..Pow2(m - 1)], chunks[Pow2(m - 1)..];
        LevelIsTree(h, a, m - 1);
        LevelIsTree(h, b, m - 1);
        LevelOfHalves(h, a, b, m - 1);
        assert a + b == chunks;
      }
    }
  }

  lemma {:induction false} LevelAlone(h: Hash, chunks: seq<seq<byte>>, d: Digest, m: nat)
    requires LevelAt(h, Leaves(h, chunks), m) == [d]
    ensures LevelAt(h, Leaves(h, chunks), m + 1) == [h(Ascii("BDLM_BUD_DAS_NODE_V1") + d + d)]
  {
    hide Ascii, Up, LevelAt, Leaves;
    LevelSteps(h, Leaves(h, chunks), m + 1);
    UpOne(h, d);
  }

  lemma {:induction false} OneLeaf(h: Hash, chunks: seq<seq<byte>>)
    requires |chunks| == 1
    ensures Leaves(h, chunks) == [TreeDigest(h, chunks, 0)]
  {
    hide LeafInput, Ascii, Bytes8;
    LeafSpelled(chunks[0]);
  }

  lemma {:induction false} HeightIsLevels(n: nat)
    requires n > 0
    ensures Levels(n, Height(n))
  {
    if n > 1 {
      HeightIsLevels((n + 1) / 2);
    }
  }

  /** The root is the digest of the tree of the least height that has room for all chunks. */
  lemma {:induction false} RootByHalves(h: Hash, chunks: seq<seq<byte>>)
    requires chunks != []
    ensures Levels(|chunks|, Height(|chunks|)) && Root(h, chunks) == TreeDigest(h, chunks, Height(|chunks|))
  {
    hide LevelAt, TreeDigest, Leaves;
    HeightIsLevels(|chunks|);
    LevelIsTree(h, chunks, Height(|chunks|));
  }

  /** The root over two full halves. */
  lemma {:induction false} RootOfHalves(h: Hash, a: seq<seq<byte>>, b: seq<seq<byte>>, m: nat)
    requires |a| == |b| == Pow2(m)
    ensures a != [] && b != []
    ensures Root(h, a + b) == h(Ascii("BDLM_BUD_DAS_NODE_V1") + Root(h, a) + Root(h, b))
  {
    hide Root, Ascii, Pow2, Height, Levels, TreeDigest;
    Pow2Positive(m);
    Pow2Next(m);
    TreeSplits(h, a + b, m);
    HeightOfPower(m);
    HeightOfPower(m + 1);
    RootByHalves(h, a);
    RootByHalves(h, b);
    RootByHalves(h, a + b);
    assert (a + b)[..Pow2(m)] == a && (a + b)[Pow2(m)..] == b;
  }

  lemma {:induction false} HeightOfPower(m: nat)
    ensures Height(Pow2(m)) == m
  {
    if m > 0 {
      HeightOfPower(m - 1);
      Pow2Positive(m - 1);
    }
  }

  // ---- The methods -----------------------------------------------------------------------------------

  method HashLeaves(h: Hash, chunks: seq<seq<byte>>) returns (leaves: seq<Digest>)
    ensures leaves == Leaves(h, chunks)
  {
    leaves := [];
    for i := 0 to |chunks|
      invariant |leaves| == i && forall k :: 0 <= k < i ==> leaves[k] == h(LeafInput(chunks[k]))
    {
      leaves := leaves + [h(LEAF_TAG + Le(|chunks[i]|, 8) + chunks[i])];
    }
  }

  method NextLevel(h: Hash, level: seq<Digest>) returns (next: seq<Digest>)
    ensures next == Up(h, level)
  {
    hide NodeInput;
    next := [];
    var pos := 0;
    while pos < |level|
      invariant pos == 2 * |next| && |next| <= (|level| + 1) / 2
      invariant forall q :: 0 <= q < |next| ==> next[q] == h(NodeInput(level[2 * q], RightOf(level, q)))
    {
      var right := if pos + 1 < |level| then level[pos + 1] else level[pos];
      next := next + [h(NodeInput(level[pos], right))];
      pos := pos + 2;
    }
  }

  method DasRoot(h: Hash, chunks: seq<seq<byte>>) returns (root: Digest)
    requires chunks != []
    ensures root == Root(h, chunks)
    ensures Levels(|chunks|, Height(|chunks|)) && root == TreeDigest(h, chunks, Height(|chunks|))
  {
    hide Up, Leaves, TreeDigest, Levels;
    RootByHalves(h, chunks);
    var level := HashLeaves(h, chunks);
    ghost var leaves, j := level, 0;
    while |level| > 1
      invariant level != [] && level == LevelAt(h, leaves, j)
      invariant j + Height(|level|) == Height(|chunks|)
      decreases |level|
    {
      level := NextLevel(h, level);
      j := j + 1;
    }
    root := level[0];
  }

  /** A proof for every index in range, and for no other; it verifies against the root. */
  method Prove(h: Hash, chunks: seq<seq<byte>>, leafIndex: nat) returns (r: Option<DasProof>)
    ensures r.Some? <==> leafIndex < |chunks|
    ensures r.Some? ==>
      && r.value.leafIndex == leafIndex && |r.value.path| == Height(|chunks|)
      && IsPathOf(h, chunks, leafIndex, r.value.path)
      && Verifies(h, r.value, chunks[leafIndex], Root(h, chunks))
  {
    hide Up, Leaves, SiblingAt, Shr, Verifies, Root;
    if chunks == [] || leafIndex >= |chunks| {
      return None;
    }
    var level := HashLeaves(h, chunks);
    ghost var leaves := level;
    var idx := leafIndex;
    var path: seq<Digest> := [];
    ShrNone(leafIndex);
    while |level| > 1
      invariant level != [] && level == LevelAt(h, leaves, |path|)
      invariant |path| + Height(|level|) == Height(|chunks|)
      invariant idx == Shr(leafIndex, |path|) < |level|
      invariant IsPathOf(h, chunks, leafIndex, path)
      decreases |level|
    {
      var sibling := if idx % 2 == 0 then idx + 1 else idx - 1;
      var next := if sibling < |level| then level[sibling] else level[idx];
      assert next == SiblingAt(level, idx) by {
        SiblingMeans(level, idx);
      }
      ShrNext(leafIndex, |path|);
      path := path + [next];
      level := NextLevel(h, level);
      idx := idx / 2;
    }
    var p := DasProof(leafIndex, path);
    ProofsVerify(h, chunks, p);
    return Some(p);
  }

  lemma {:induction false} SiblingMeans(level: seq<Digest>, i: nat)
    requires i < |level|
    ensures var s := if i % 2 == 0 then i + 1 else i - 1;
      SiblingAt(level, i) == if s < |level| then level[s] else level[i]
  {
  }

  method Verify(h: Hash, p: DasProof, leaf: seq<byte>, root: Digest) returns (ok: bool)
    ensures ok <==> Verifies(h, p, leaf, root)
  {
    hide Shr, NodeInput;
    var cur := h(LEAF_TAG + Le(|leaf|, 8) + leaf);
    var idx := p.leafIndex;
    ShrNone(idx);
    for j := 0 to |p.path|
      invariant cur == ClimbTo(h, leaf, p, j) && idx == Shr(p.leafIndex, j)
    {
      ShrNext(p.leafIndex, j);
      cur := if idx % 2 == 0 then h(NodeInput(cur, p.path[j])) else h(NodeInput(p.path[j], cur));
      idx := idx / 2;
    }
    ok := cur == root;
  }
}
