/**
The Huffman tree as it is built: a growing vector of nodes that name their children by index,
with a flag on those already joined.
*/
module HuffmanBuilding {
  import opened Bytes
  import opened Wrappers
  import opened Sequences
  import opened HuffmanTree
  import opened HuffmanLengths

  datatype FsNode = FsNode(weight: nat, left: Option<nat>, right: Option<nat>, sym: Option<nat>)

  ghost predicate Represents(nodes: seq<FsNode>, trees: seq<Tree>, i: nat)
    requires i < |nodes| == |trees|
  {
    && nodes[i].weight == Weight(trees[i])
    && match trees[i]
       case Leaf(s, _) => nodes[i].sym == Some(s)
       case Node(a, b) =>
         && nodes[i].sym == None && nodes[i].left.Some? && nodes[i].right.Some?
         && nodes[i].left.value < i && nodes[i].right.value < i
         && trees[nodes[i].left.value] == a && trees[nodes[i].right.value] == b
  }

  ghost predicate Vector(nodes: seq<FsNode>, trees: seq<Tree>) {
    |nodes| == |trees| && forall i :: 0 <= i < |nodes| ==> Represents(nodes, trees, i)
  }

  lemma {:induction false} VectorAppend(nodes: seq<FsNode>, trees: seq<Tree>, node: FsNode, t: Tree)
    requires Vector(nodes, trees)
    requires Represents(nodes + [node], trees + [t], |nodes|)
    ensures Vector(nodes + [node], trees + [t])
  {
    var m, u := nodes + [node], trees + [t];
    forall i | 0 <= i < |m|
      ensures Represents(m, u, i)
    {
      if i < |nodes| {
        assert Represents(nodes, trees, i);
        assert m[i] == nodes[i] && u[i] == trees[i];
      }
    }
  }

  // ---- The trees not yet joined ---------------------------------------------------------------

  function Alive(trees: seq<Tree>, used: seq<bool>): Forest
    requires |trees| == |used|
  {
    if trees == [] then []
    else
      var n := |trees| - 1;
      Alive(trees[..n], used[..n]) + (if used[n] then [] else [trees[n]])
  }

  /** How many before i are not yet joined. */
  function Place(used: seq<bool>, i: nat): (p: nat)
    requires i <= |used|
    ensures p <= i
  {
    if i == 0 then 0 else Place(used, i - 1) + (if used[i - 1] then 0 else 1)
  }

  lemma {:induction false} PlacePrefix(used: seq<bool>, n: nat, i: nat)
    requires i <= n <= |used|
    ensures Place(used[..n], i) == Place(used, i)
  {
    if i > 0 {
      PlacePrefix(used, n, i - 1);
    }
  }

  lemma {:induction false} PlaceGrows(used: seq<bool>, i: nat, j: nat)
    requires i <= j <= |used|
    ensures Place(used, i) <= Place(used, j)
    ensures i < j && !used[i] ==> Place(used, i) < Place(used, j)
  {
    if i < j {
      PlaceGrows(used, i, j - 1);
    }
  }

  lemma {:induction false} AliveSize(trees: seq<Tree>, used: seq<bool>)
    requires |trees| == |used|
    ensures |Alive(trees, used)| == Place(used, |used|)
  {
    if trees != [] {
      var n := |trees| - 1;
      AliveSize(trees[..n], used[..n]);
      PlacePrefix(used, n, n);
    }
  }

  lemma {:induction false} AliveAt(trees: seq<Tree>, used: seq<bool>, i: nat)
    requires i < |trees| == |used| && !used[i]
    ensures Place(used, i) < |Alive(trees, used)| && Alive(trees, used)[Place(used, i)] == trees[i]
  {
    var n := |trees| - 1;
    AliveSize(trees[..n], used[..n]);
    PlacePrefix(used, n, n);
    PlacePrefix(used, n, i);
    if i < n {
      AliveAt(trees[..n], used[..n], i);
    }
  }

  /** Which tree stands at place k. */
  lemma {:induction false} AliveFrom(trees: seq<Tree>, used: seq<bool>, k: nat) returns (i: nat)
    requires |trees| == |used| && k < |Alive(trees, used)|
    ensures i < |trees| && !used[i] && Place(used, i) == k && Alive(trees, used)[k] == trees[i]
  {
    var n := |trees| - 1;
    AliveSize(trees[..n], used[..n]);
    PlacePrefix(used, n, n);
    if k < |Alive(trees[..n], used[..n])| {
      i := AliveFrom(trees[..n], used[..n], k);
      PlacePrefix(used, n, i);
    } else {
      i := n;
    }
  }

  lemma {:induction false} AliveWithout(trees: seq<Tree>, used: seq<bool>, i: nat)
    requires i < |trees| == |used| && !used[i]
    ensures Place(used, i) < |Alive(trees, used)|
    ensures Alive(trees, used[i := true]) == Remove(Alive(trees, used), Place(used, i))
  {
    hide Place, Alive;
    var n := |trees| - 1;
    var before, tail := Alive(trees[..n], used[..n]), if used[n] then [] else [trees[n]];
    AliveAt(trees, used, i);
    AliveSize(trees[..n], used[..n]);
    PlacePrefix(used, n, n);
    PlacePrefix(used, n, i);
    AliveStep(trees, used);
    AliveStep(trees, used[i := true]);
    if i < n {
      AliveWithout(trees[..n], used[..n], i);
      assert used[i := true][..n] == used[..n][i := true];
      RemoveFront(before, tail, Place(used, i));
    } else {
      assert used[i := true][..n] == used[..n];
    }
  }

  lemma {:induction false} AliveStep(trees: seq<Tree>, used: seq<bool>)
    requires |trees| == |used| > 0
    ensures var n := |trees| - 1;
      Alive(trees, used) == Alive(trees[..n], used[..n]) + (if used[n] then [] else [trees[n]])
  {
  }

  lemma {:induction false} RemoveFront<T>(a: seq<T>, b: seq<T>, r: nat)
    requires r < |a|
    ensures Remove(a + b, r) == Remove(a, r) + b
  {
  }

  // ---- The two lightest --------------------------------------------------------------------------

  /** `b` is the first lightest among the nodes below n neither joined nor `skip`, if any. */
  ghost predicate Lightest(nodes: seq<FsNode>, used: seq<bool>, n: nat, skip: Option<nat>, b: Option<nat>)
    requires n <= |nodes| == |used|
  {
    match b
    case None => forall j: nat :: j < n && !used[j] ==> Some(j) == skip
    case Some(i) =>
      && i < n && !used[i] && b != skip
      && (forall j: nat :: j < n && !used[j] && Some(j) != skip ==> nodes[i].weight <= nodes[j].weight)
      && (forall j: nat :: j < i && !used[j] && Some(j) != skip ==> nodes[i].weight < nodes[j].weight)
  }

  method TwoLightest(nodes: seq<FsNode>, used: seq<bool>) returns (best1: Option<nat>, best2: Option<nat>)
    requires |nodes| == |used|
    ensures Lightest(nodes, used, |nodes|, None, best1)
    ensures Lightest(nodes, used, |nodes|, best1, best2)
  {
    best1, best2 := None, None;
    for i := 0 to |nodes|
      invariant Lightest(nodes, used, i, None, best1)
      invariant Lightest(nodes, used, i, best1, best2)
    {
      if !used[i] {
        if best1.None? || nodes[i].weight < nodes[best1.value].weight
           || (nodes[i].weight == nodes[best1.value].weight && i < best1.value)
        {
          best2 := best1;
          best1 := Some(i);
        } else if best2.None? || nodes[i].weight < nodes[best2.value].weight
                  || (nodes[i].weight == nodes[best2.value].weight && i < best2.value)
        {
          best2 := Some(i);
        }
      }
    }
  }

  lemma {:induction false} LightestIsFirst(nodes: seq<FsNode>, trees: seq<Tree>, used: seq<bool>, i: nat)
    requires Vector(nodes, trees) && |used| == |nodes| && Lightest(nodes, used, |nodes|, None, Some(i))
    ensures Alive(trees, used) != [] && Place(used, i) == MinIndex(Alive(trees, used))
    ensures trees[i] == Alive(trees, used)[Place(used, i)]
  {
    hide Alive, Place, Weight, MinIndex;
    var f, p := Alive(trees, used), Place(used, i);
    AliveAt(trees, used, i);
    forall k | 0 <= k < |f|
      ensures Weight(f[p]) <= Weight(f[k]) && (k < p ==> Weight(f[p]) < Weight(f[k]))
    {
      var j := AliveFrom(trees, used, k);
      assert Represents(nodes, trees, i) && Represents(nodes, trees, j);
      if j >= i {
        PlaceGrows(used, i, j);
      }
    }
    FirstMinIsUnique(f, p);
  }

  /** Joining the two lightest nodes of the vector merges the forest. */
  lemma {:induction false} JoinMerges(nodes: seq<FsNode>, trees: seq<Tree>, used: seq<bool>, i: nat, j: nat)
    requires Vector(nodes, trees) && |used| == |nodes| && |Alive(trees, used)| >= 2
    requires Lightest(nodes, used, |nodes|, None, Some(i)) && Lightest(nodes, used, |nodes|, Some(i), Some(j))
    ensures Merge(Alive(trees, used)) ==
            Alive(trees + [Node(trees[i], trees[j])], used[i := true][j := true] + [false])
  {
    hide Alive, Place, Weight, MinIndex;
    var f := Alive(trees, used);
    LightestIsFirst(nodes, trees, used, i);
    AliveWithout(trees, used, i);
    var once := used[i := true];
    assert Lightest(nodes, once, |nodes|, None, Some(j));
    LightestIsFirst(nodes, trees, once, j);
    AliveWithout(trees, once, j);
    assert Others(f) == Alive(trees, once);
    AliveAppend(trees, once[j := true], Node(trees[i], trees[j]));
  }

  lemma {:induction false} AliveAppend(trees: seq<Tree>, used: seq<bool>, t: Tree)
    requires |trees| == |used|
    ensures Alive(trees + [t], used + [false]) == Alive(trees, used) + [t]
  {
    assert (trees + [t])[..|trees|] == trees && (used + [false])[..|used|] == used;
  }

  // ---- Building ------------------------------------------------------------------------------------

  /** One leaf for every used symbol. */
  method Vectorize(freq: seq<nat>) returns (nodes: seq<FsNode>, used: seq<bool>)
    requires |freq| == 256
    ensures Vector(nodes, Leaves(freq, 256))
    ensures |used| == |nodes| && forall i :: 0 <= i < |used| ==> !used[i]
  {
    nodes, used := [], [];
    for s := 0 to 256
      invariant Vector(nodes, Leaves(freq, s))
      invariant |used| == |nodes| && forall i :: 0 <= i < |used| ==> !used[i]
    {
      if freq[s] > 0 {
        VectorAppend(nodes, Leaves(freq, s), FsNode(freq[s], None, None, Some(s)), Leaf(s, freq[s]));
        nodes := nodes + [FsNode(freq[s], None, None, Some(s))];
        used := used + [false];
      } else {
        assert Leaves(freq, s + 1) == Leaves(freq, s);
      }
    }
  }

  lemma {:induction false} AllAlive(trees: seq<Tree>, used: seq<bool>)
    requires |trees| == |used| && forall i :: 0 <= i < |used| ==> !used[i]
    ensures Alive(trees, used) == trees
  {
    if trees != [] {
      AllAlive(trees[..|trees| - 1], used[..|used| - 1]);
    }
  }

  lemma {:induction false} TwoAlive(nodes: seq<FsNode>, trees: seq<Tree>, used: seq<bool>,
                                    best1: Option<nat>, best2: Option<nat>)
    requires |nodes| == |trees| == |used| && |Alive(trees, used)| >= 2
    requires Lightest(nodes, used, |nodes|, None, best1) && Lightest(nodes, used, |nodes|, best1, best2)
    ensures best1.Some? && best2.Some?
  {
    hide Alive, Place;
    var i := AliveFrom(trees, used, 0);
    var j := AliveFrom(trees, used, 1);
  }

  /** One round of joining. */
  method JoinLightest(nodes: seq<FsNode>, used: seq<bool>, ghost trees: seq<Tree>)
    returns (nodes': seq<FsNode>, used': seq<bool>, ghost trees': seq<Tree>)
    requires Vector(nodes, trees) && |used| == |nodes| && |Alive(trees, used)| >= 2
    ensures Vector(nodes', trees') && |used'| == |nodes'|
    ensures Alive(trees', used') == Merge(Alive(trees, used))
  {
    hide Alive, Merge;
    var best1, best2 := TwoLightest(nodes, used);
    TwoAlive(nodes, trees, used, best1, best2);
    var i, j := best1.value, best2.value;
    JoinMerges(nodes, trees, used, i, j);
    var joined := FsNode(nodes[i].weight + nodes[j].weight, Some(i), Some(j), None);
    trees' := trees + [Node(trees[i], trees[j])];
    assert Represents(nodes, trees, i) && Represents(nodes, trees, j);
    VectorAppend(nodes, trees, joined, Node(trees[i], trees[j]));
    nodes' := nodes + [joined];
    used' := (used + [false])[i := true][j := true];
    assert used' == used[i := true][j := true] + [false];
  }

  method FirstUnused(used: seq<bool>, ghost trees: seq<Tree>) returns (root: nat)
    requires |trees| == |used| && |Alive(trees, used)| == 1
    ensures root < |used| && Alive(trees, used) == [trees[root]]
  {
    hide Alive, Place;
    ghost var i := AliveFrom(trees, used, 0);
    root := 0;
    while used[root]
      invariant root <= i && forall j :: 0 <= j < root ==> used[j]
      decreases |used| - root
    {
      root := root + 1;
    }
    PlaceGrows(used, root, i);
  }

  // ---- Reading off the depths -----------------------------------------------------------------------

  lemma {:induction false} HeightBelowSymbols(t: Tree, freq: seq<nat>)
    requires Proper(t, freq)
    ensures Height(t) < |Symbols(t)|
  {
    if t.Node? {
      HeightBelowSymbols(t.left, freq);
      HeightBelowSymbols(t.right, freq);
    }
  }

  /** With 256 symbols no depth overflows a byte. */
  lemma {:induction false} HeightFitsByte(t: Tree, freq: seq<nat>)
    requires Proper(t, freq) && |freq| == 256
    ensures Height(t) <= 255
  {
    HeightBelowSymbols(t, freq);
    ProperBelow(t, freq);
    SubsetSize(Symbols(t), Range(256));
  }

  method DfsLengths(nodes: seq<FsNode>, ghost trees: seq<Tree>, idx: nat, depth: nat, lens: array<byte>)
    requires Vector(nodes, trees) && idx < |nodes| && lens.Length == 256
    requires SymbolsBelow(trees[idx], 256) && depth + Height(trees[idx]) <= 255
    modifies lens
    ensures lens[..] == Depths(trees[idx], depth, old(lens[..]))
    decreases idx
  {
    assert Represents(nodes, trees, idx);
    if nodes[idx].sym.Some? {
      lens[nodes[idx].sym.value] := AtLeastOne(depth) % 256;
      return;
    }
    if nodes[idx].left.Some? {
      DfsLengths(nodes, trees, nodes[idx].left.value, depth + 1, lens);
    }
    if nodes[idx].right.Some? {
      DfsLengths(nodes, trees, nodes[idx].right.value, depth + 1, lens);
    }
  }

  /** The depths of the symbols in the Huffman tree, with one bit for a lone symbol. */
  method LengthsByFreq(freq: seq<nat>) returns (lens: seq<byte>)
    requires |freq| == 256
    ensures lens == CodeLengths(freq)
  {
    hide Alive, Merge, Vector, Represents;
    var nodes, used := Vectorize(freq);
    ghost var trees := Leaves(freq, 256);
    VectorSize(nodes, trees);
    var table := new byte[256](_ => 0);
    assert table[..] == Zeros(256);
    if |nodes| == 0 {
      return table[..];
    }
    ghost var tree := HuffmanTreeOf(freq);
    HeightFitsByte(tree, freq);
    AllAlive(trees, used);
    if |nodes| == 1 {
      LeavesWellFormed(freq, 256);
      LeafOf(nodes, trees);
      table[nodes[0].sym.value] := 1;
      return table[..];
    }
    var internal := |nodes|;
    while internal > 1
      invariant Vector(nodes, trees) && |used| == |nodes| == |trees|
      invariant |Alive(trees, used)| == internal >= 1
      invariant Build(Alive(trees, used)) == tree
      invariant table[..] == Zeros(256)
    {
      nodes, used, trees := JoinLightest(nodes, used, trees);
      VectorSize(nodes, trees);
      internal := internal - 1;
    }
    var root := FirstUnused(used, trees);
    BuildLone(Alive(trees, used));
    DfsLengths(nodes, trees, root, 0, table);
    return table[..];
  }

  lemma {:induction false} VectorSize(nodes: seq<FsNode>, trees: seq<Tree>)
    requires Vector(nodes, trees)
    ensures |nodes| == |trees|
  {
  }

  lemma {:induction false} LeafOf(nodes: seq<FsNode>, trees: seq<Tree>)
    requires Vector(nodes, trees) && |trees| > 0 && trees[0].Leaf?
    ensures nodes[0].sym == Some(trees[0].sym)
  {
    assert Represents(nodes, trees, 0);
  }
}
