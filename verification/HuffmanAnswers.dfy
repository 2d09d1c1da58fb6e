/**
Where weights are equal the tree is still determined: the first lightest tree is joined first, and joined
trees stand last. Small cases worked out, down to the bits.
*/
module HuffmanAnswers {
  import opened Bytes
  import opened BitStrings
  import opened Sequences
  import opened HuffmanTree
  import opened HuffmanLengths
  import opened CanonicalCode

  /** If the first two trees are the lightest, they are joined and put last. */
  lemma {:induction false} JoinsFirstTwo(f: Forest)
    requires |f| >= 2 && (forall j :: 0 <= j < |f| ==> Weight(f[0]) <= Weight(f[j]))
    requires forall j :: 1 <= j < |f| ==> Weight(f[1]) <= Weight(f[j])
    ensures Merge(f) == f[2..] + [Node(f[0], f[1])]
  {
    hide Weight, MinIndex;
    var g := f[1..];
    MinIndexIsFirstMin(f);
    assert Weight(f[0]) <= Weight(f[MinIndex(f)]);
    assert MinIndex(f) == 0;
    assert Remove(f, 0) == g;
    MinIndexIsFirstMin(g);
    assert g[MinIndex(g)] == f[MinIndex(g) + 1] && g[0] == f[1];
    assert Weight(g[0]) <= Weight(g[MinIndex(g)]);
    assert MinIndex(g) == 0;
    assert Remove(g, 0) == f[2..];
  }

  lemma {:induction false} TreeOfThree(a: Tree, b: Tree, c: Tree)
    requires Weight(a) <= Weight(b) <= Weight(c) <= Weight(Node(a, b))
    ensures Build([a, b, c]) == Node(c, Node(a, b))
  {
    hide Weight, Merge, Build;
    var ab := Node(a, b);
    JoinsFirstTwo([a, b, c]);
    assert [a, b, c][2..] + [ab] == [c, ab];
    JoinsFirstTwo([c, ab]);
    assert [c, ab][2..] + [Node(c, ab)] == [Node(c, ab)];
    BuildSteps([a, b, c], [c, ab]);
    BuildSteps([c, ab], [Node(c, ab)]);
    BuildSteps([Node(c, ab)], []);
  }

  /** Three equal weights: the last symbol has the short code. */
  lemma {:induction false} ThreeEqual()
    ensures CodeLengths([1, 1, 1]) == [2, 2, 1]
  {
    hide Build, Leaves;
    var a, b, c := Leaf(0, 1), Leaf(1, 1), Leaf(2, 1);
    LeavesAre([1, 1, 1], [a, b, c]);
    TreeOfThree(a, b, c);
    var z := Zeros(3);
    assert Depths(c, 1, z) == [0, 0, 1];
    assert Depths(Node(a, b), 1, [0, 0, 1]) == [2, 2, 1];
  }

  lemma {:induction false} TreeOfFour(a: Tree, b: Tree, c: Tree, d: Tree)
    requires Weight(a) <= Weight(b) <= Weight(c) <= Weight(d) <= Weight(Node(a, b)) <= Weight(Node(c, d))
    ensures Build([a, b, c, d]) == Node(Node(a, b), Node(c, d))
  {
    hide Weight, Merge, Build;
    var ab, cd := Node(a, b), Node(c, d);
    JoinsFirstTwo([a, b, c, d]);
    assert [a, b, c, d][2..] + [ab] == [c, d, ab];
    JoinsFirstTwo([c, d, ab]);
    assert [c, d, ab][2..] + [cd] == [ab, cd];
    JoinsFirstTwo([ab, cd]);
    assert [ab, cd][2..] + [Node(ab, cd)] == [Node(ab, cd)];
    BuildSteps([a, b, c, d], [c, d, ab]);
    BuildSteps([c, d, ab], [ab, cd]);
    BuildSteps([ab, cd], [Node(ab, cd)]);
    BuildSteps([Node(ab, cd)], []);
  }

  /** A joined tree is taken behind older ones of its weight. */
  lemma {:induction false} JoinedComesLast()
    ensures CodeLengths([1, 1, 2, 2]) == [2, 2, 2, 2]
  {
    hide Build, Leaves;
    var a, b, c, d := Leaf(0, 1), Leaf(1, 1), Leaf(2, 2), Leaf(3, 2);
    LeavesAre([1, 1, 2, 2], [a, b, c, d]);
    TreeOfFour(a, b, c, d);
    var z := Zeros(4);
    assert Depths(Node(a, b), 1, z) == [2, 2, 0, 0];
    assert Depths(Node(c, d), 1, [2, 2, 0, 0]) == [2, 2, 2, 2];
    assert Depths(Node(Node(a, b), Node(c, d)), 0, z) == [2, 2, 2, 2];
  }

  lemma {:induction false} BuildSteps(f: Forest, g: Forest)
    requires f != [] && (|f| >= 2 ==> Merge(f) == g)
    ensures |f| == 1 ==> Build(f) == f[0]
    ensures |f| >= 2 ==> g != [] && Build(f) == Build(g)
  {
  }

  lemma {:induction false} LeavesAre(freq: seq<nat>, f: Forest)
    requires |freq| == |f| <= 4
    requires forall i :: 0 <= i < |f| ==> freq[i] > 0 && f[i] == Leaf(i, freq[i])
    ensures Leaves(freq, |freq|) == f
  {
    LeavesUpTo(freq, f, |freq|);
    assert f[..|freq|] == f;
  }

  lemma {:induction false} LeavesUpTo(freq: seq<nat>, f: Forest, n: nat)
    requires |freq| == |f| && n <= |f|
    requires forall i :: 0 <= i < |f| ==> freq[i] > 0 && f[i] == Leaf(i, freq[i])
    ensures Leaves(freq, n) == f[..n]
  {
    if n > 0 {
      LeavesUpTo(freq, f, n - 1);
    }
  }

  /** The codes of the three symbols: 10, 11 and 0. */
  lemma {:induction false} CodesOfThree()
    ensures CodeBits([2, 2, 1], 0) == [1, 0] && CodeBits([2, 2, 1], 1) == [1, 1] && CodeBits([2, 2, 1], 2) == [0]
  {
    var lens: seq<nat> := [2, 2, 1];
    var z: nat := 0;
    assert Count(lens, 1) == 1 by {
      CountOfThree(lens, 1);
    }
    RanksOfThree(lens);
    EndStep(lens, z);
    EndStep(lens, z + 1);
    EndStep(lens, z + 2);
    assert Code(lens, 0) == 2 && Code(lens, 1) == 3 && Code(lens, 2) == 0;
    TwoBits(2);
    TwoBits(3);
    assert Bits(0, 1) == [0];
  }

  lemma {:induction false} CountOfThree(lens: seq<nat>, l: nat)
    requires |lens| == 3
    ensures Count(lens, l) == (if lens[0] == l then 1 else 0) + (if lens[1] == l then 1 else 0) + (if lens[2] == l then 1 else 0)
  {
    assert lens[..2][..1] == lens[..1] && lens[..1][..0] == [];
    assert Count(lens[..1], l) == Count([], l) + if lens[0] == l then 1 else 0;
  }

  lemma {:induction false} RanksOfThree(lens: seq<nat>)
    requires lens == [2, 2, 1]
    ensures Rank(lens, 0) == 0 && Rank(lens, 1) == 1 && Rank(lens, 2) == 0
  {
    assert lens[..0] == [] && lens[..1] == [2] && lens[..2] == [2, 2];
    assert [2][..0] == [] && [2, 2][..1] == [2];
  }

  lemma {:induction false} TwoBits(v: nat)
    ensures Bits(v, 2) == [v / 2 % 2, v % 2]
  {
    assert Bits(v / 2, 1) == [v / 2 % 2];
  }

  /** The bits of a byte, the highest first. */
  lemma {:induction false} BitsOfOneByte(b: byte)
    ensures BitsOf([b]) ==
      [b / 128 % 2, b / 64 % 2, b / 32 % 2, b / 16 % 2, b / 8 % 2, b / 4 % 2, b / 2 % 2, b % 2]
  {
    assert [b][..0] == [] && BitsOf([b][..0]) == [];
    var z: nat := 8;
    assert Bits(b / 256, z - 8) == [];
    hide Bits, BitsOf;
    OneByte(b);
    FourBits(b, z);
    FourBits(b / 16, z - 4);
    assert b / 16 / 2 == b / 32 && b / 16 / 4 == b / 64 && b / 16 / 8 == b / 128 && b / 16 / 16 == b / 256;
  }

  lemma {:induction false} OneByte(b: byte)
    ensures BitsOf([b]) == Bits(b, 8)
  {
    hide Bits;
    assert [b][..0] == [];
  }

  lemma {:induction false} FourBits(v: nat, n: nat)
    requires n >= 4
    ensures Bits(v, n) == Bits(v / 16, n - 4) + [v / 8 % 2, v / 4 % 2, v / 2 % 2, v % 2]
  {
    hide Bits;
    BitsStep(v, n);
    BitsStep(v / 2, n - 1);
    BitsStep(v / 4, n - 2);
    BitsStep(v / 8, n - 3);
    assert v / 2 / 2 == v / 4 && v / 4 / 2 == v / 8 && v / 8 / 2 == v / 16;
  }

  lemma {:induction false} BitsStep(v: nat, n: nat)
    requires n > 0
    ensures Bits(v, n) == Bits(v / 2, n - 1) + [v % 2] && Bits(v, 0) == []
  {
  }
}
