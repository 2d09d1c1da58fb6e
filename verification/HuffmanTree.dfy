/**
Huffman trees, and how they are built: again and again the two lightest trees of a forest are
joined, ties going to the tree that stands first; the joined tree goes to the end.
*/
module HuffmanTree {
  import opened Sequences

  datatype Tree =
    | Leaf(sym: nat, w: nat)
    | Node(left: Tree, right: Tree)

  type Forest = seq<Tree>

  function Weight(t: Tree): nat {
    match t
    case Leaf(_, w) => w
    case Node(l, r) => Weight(l) + Weight(r)
  }

  function Height(t: Tree): nat {
    match t
    case Leaf(_, _) => 0
    case Node(l, r) => 1 + (if Height(l) < Height(r) then Height(r) else Height(l))
  }

  // ---- The first lightest tree -------------------------------------------------------------

  function MinIndex(f: Forest): (i: nat)
    requires f != []
    ensures i < |f|
  {
    if |f| == 1 then 0
    else
      var l := |f| - 1;
      var i := MinIndex(f[..l]);
      if Weight(f[l]) < Weight(f[i]) then l else i
  }

  /** No tree is lighter, and none that stands before is as light. */
  ghost predicate IsFirstMin(f: Forest, i: nat) {
    && i < |f|
    && (forall j :: 0 <= j < |f| ==> Weight(f[i]) <= Weight(f[j]))
    && (forall j :: 0 <= j < i ==> Weight(f[i]) < Weight(f[j]))
  }

  lemma {:induction false} MinIndexIsFirstMin(f: Forest)
    requires f != []
    ensures IsFirstMin(f, MinIndex(f))
  {
    if |f| > 1 {
      var l := |f| - 1;
      MinIndexIsFirstMin(f[..l]);
      var i := MinIndex(f[..l]);
      forall j | 0 <= j < l
        ensures Weight(f[i]) <= Weight(f[j]) && (j < i ==> Weight(f[i]) < Weight(f[j]))
      {
        assert f[..l][j] == f[j];
      }
    }
  }

  lemma {:induction false} FirstMinIsUnique(f: Forest, i: nat)
    requires IsFirstMin(f, i)
    ensures i == MinIndex(f)
  {
    MinIndexIsFirstMin(f);
  }

  // ---- Merging ---------------------------------------------------------------------------------

  /** The two lightest trees. */
  function First(f: Forest): Tree
    requires |f| >= 2
  {
    f[MinIndex(f)]
  }

  function Others(f: Forest): (g: Forest)
    requires |f| >= 2
    ensures |g| == |f| - 1
  {
    Remove(f, MinIndex(f))
  }

  function Second(f: Forest): Tree
    requires |f| >= 2
  {
    Others(f)[MinIndex(Others(f))]
  }

  function Rest(f: Forest): (g: Forest)
    requires |f| >= 2
    ensures |g| == |f| - 2
  {
    Remove(Others(f), MinIndex(Others(f)))
  }

  function Merge(f: Forest): (g: Forest)
    requires |f| >= 2
    ensures |g| == |f| - 1
  {
    Rest(f) + [Node(First(f), Second(f))]
  }

  function Build(f: Forest): Tree
    requires f != []
    decreases |f|
  {
    if |f| == 1 then f[0] else Build(Merge(f))
  }

  lemma {:induction false} RemoveMember<T>(s: seq<T>, r: nat, x: T)
    requires r < |s|
    ensures x in s <==> x == s[r] || x in Remove(s, r)
  {
    if x in s {
      var i :| 0 <= i < |s| && s[i] == x;
      if i < r {
        assert Remove(s, r)[i] == x;
      } else if i > r {
        assert Remove(s, r)[i - 1] == x;
      }
    }
    if x in Remove(s, r) {
      var i :| 0 <= i < |s| - 1 && Remove(s, r)[i] == x;
      assert x == s[if i < r then i else i + 1];
    }
  }

  /** What the two lightest are: no heavier than the rest, in this order. */
  lemma {:induction false} Lightest(f: Forest)
    requires |f| >= 2
    ensures Weight(First(f)) <= Weight(Second(f))
    ensures forall t :: t in Rest(f) ==> Weight(Second(f)) <= Weight(t)
    ensures First(f) in f && Second(f) in f && forall t :: t in Rest(f) ==> t in f
  {
    MinIndexIsFirstMin(f);
    MinIndexIsFirstMin(Others(f));
    var i, j := MinIndex(f), MinIndex(Others(f));
    var g := Others(f);
    RemoveMember(f, i, Second(f));
    assert Second(f) in g;
    forall t | t in Rest(f)
      ensures Weight(Second(f)) <= Weight(t) && t in f
    {
      RemoveMember(g, j, t);
      RemoveMember(f, i, t);
      var a :| 0 <= a < |g| && g[a] == t;
    }
    assert exists a :: 0 <= a < |f| && f[a] == Second(f);
  }

  // ---- Sums over forests -----------------------------------------------------------------------

  function Sum(s: seq<int>): int {
    if s == [] then 0 else Sum(s[..|s| - 1]) + s[|s| - 1]
  }

  lemma {:induction false} SumRemove(s: seq<int>, r: nat)
    requires r < |s|
    ensures Sum(s) == s[r] + Sum(Remove(s, r))
  {
    var n := |s| - 1;
    var t := Remove(s, r);
    if r == n {
      assert t == s[..n];
    } else {
      SumRemove(s[..n], r);
      assert t[..|t| - 1] == Remove(s[..n], r);
    }
  }

  lemma {:induction false} SumUpdate(s: seq<int>, i: nat, v: int)
    requires i < |s|
    ensures Sum(s[i := v]) == Sum(s) - s[i] + v
  {
    var n := |s| - 1;
    if i < n {
      SumUpdate(s[..n], i, v);
      assert s[i := v][..n] == s[..n][i := v];
    } else {
      assert s[i := v][..n] == s[..n];
    }
  }
}
