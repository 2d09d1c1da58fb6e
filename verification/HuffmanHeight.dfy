/**
How long a Huffman code can get. In a tree that grew by joining lightest trees no child of a
node outweighs the node's sibling, so weights grow at least like Fibonacci numbers upwards.
*/
module HuffmanHeight {
  import opened HuffmanTree
  import opened Sequences

  function Fib(n: nat): nat {
    if n < 2 then n else Fib(n - 1) + Fib(n - 2)
  }

  lemma {:induction false} FibSteps(n: nat)
    ensures Fib(n + 2) == Fib(n + 1) + Fib(n)
    ensures Fib(1) == Fib(2) == 1
  {
  }

  lemma {:induction false} FibZero(z: nat)
    requires z == 0
    ensures Fib(z) == 0 && Fib(z + 1) == 1
  {
  }

  lemma {:induction false} FibGrows(m: nat, n: nat)
    requires m <= n
    ensures Fib(m) <= Fib(n)
    decreases n
  {
    if m < n && n >= 2 {
      FibGrows(if m < n - 1 then m else n - 1, n - 1);
    }
  }

  /** Neither child of `t`, if it has any, weighs more than `w`. */
  ghost predicate ChildrenAtMost(t: Tree, w: nat) {
    t.Node? ==> Weight(t.left) <= w && Weight(t.right) <= w
  }

  /** Throughout the tree, leaves have weight and no child outweighs its parent's sibling. */
  ghost predicate Balanced(t: Tree) {
    match t
    case Leaf(_, w) => w > 0
    case Node(l, r) =>
      Balanced(l) && Balanced(r) && ChildrenAtMost(l, Weight(r)) && ChildrenAtMost(r, Weight(l))
  }

  /** What merging keeps: balanced trees, none with a child that outweighs another tree. */
  ghost predicate BalancedForest(f: Forest) {
    && (forall i :: 0 <= i < |f| ==> Balanced(f[i]))
    && (forall i, j :: 0 <= i < |f| && 0 <= j < |f| && i != j ==> ChildrenAtMost(f[i], Weight(f[j])))
  }

  lemma {:induction false} RemoveKeepsBalance(f: Forest, r: nat)
    requires BalancedForest(f) && r < |f|
    ensures BalancedForest(Remove(f, r))
    ensures Balanced(f[r])
    ensures forall i :: 0 <= i < |f| - 1 ==>
      ChildrenAtMost(f[r], Weight(Remove(f, r)[i])) && ChildrenAtMost(Remove(f, r)[i], Weight(f[r]))
  {
    hide Balanced, Weight;
    var g := Remove(f, r);
    forall i | 0 <= i < |g|
      ensures Balanced(g[i])
      ensures ChildrenAtMost(f[r], Weight(g[i])) && ChildrenAtMost(g[i], Weight(f[r]))
    {
      assert g[i] == f[if i < r then i else i + 1];
    }
    forall i, j | 0 <= i < |g| && 0 <= j < |g| && i != j
      ensures ChildrenAtMost(g[i], Weight(g[j]))
    {
      assert g[i] == f[if i < r then i else i + 1] && g[j] == f[if j < r then j else j + 1];
    }
  }

  lemma {:induction false} MergeKeepsBalance(f: Forest)
    requires BalancedForest(f) && |f| >= 2
    ensures BalancedForest(Merge(f))
  {
    hide MinIndex;
    var a, b, rest := First(f), Second(f), Rest(f);
    Lightest(f);
    RemoveKeepsBalance(f, MinIndex(f));
    RemoveKeepsBalance(Others(f), MinIndex(Others(f)));
    var joined := Node(a, b);
    assert Balanced(joined);
    var g := Merge(f);
    forall i | 0 <= i < |rest|
      ensures ChildrenAtMost(rest[i], Weight(joined)) && ChildrenAtMost(joined, Weight(rest[i]))
    {
      assert ChildrenAtMost(rest[i], Weight(b));
      assert rest[i] in rest;
    }
    forall i, j | 0 <= i < |g| && 0 <= j < |g| && i != j
      ensures ChildrenAtMost(g[i], Weight(g[j]))
    {
      assert g[i] == (if i < |rest| then rest[i] else joined);
      assert g[j] == (if j < |rest| then rest[j] else joined);
    }
  }

  lemma {:induction false} BuildIsBalanced(f: Forest)
    requires BalancedForest(f) && f != []
    ensures Balanced(Build(f))
    decreases |f|
  {
    if |f| > 1 {
      MergeKeepsBalance(f);
      BuildIsBalanced(Merge(f));
    }
  }

  /** A balanced tree of height h weighs at least the Fibonacci number h + 2. */
  lemma {:induction false} WeightOfHeight(t: Tree)
    requires Balanced(t)
    ensures Weight(t) >= Fib(Height(t) + 2) >= 1
    decreases t
  {
    hide Fib;
    if t.Leaf? {
      FibSteps(0);
    } else {
      var high, low := Higher(t), Lower(t);
      Siblings(t);
      hide Balanced, Height, Weight, ChildrenAtMost;
      WeightOfHeight(high);
      WeightOfHeight(low);
      WeightOfSibling(high, Weight(low));
      FibSteps(Height(high) + 1);
    }
  }

  /** The sibling of a tree of height h weighs at least the Fibonacci number h + 1. */
  lemma {:induction false} WeightOfSibling(t: Tree, w: nat)
    requires Balanced(t) && ChildrenAtMost(t, w) && w >= 1
    ensures w >= Fib(Height(t) + 1)
    decreases t
  {
    hide Fib, Balanced, Height, Weight, ChildrenAtMost;
    if t.Leaf? {
      FibSteps(0);
      LeafHeight(t);
    } else {
      Grandchild(t, w);
      WeightOfHeight(Higher(t));
    }
  }

  lemma {:induction false} LeafHeight(t: Tree)
    requires t.Leaf?
    ensures Height(t) == 0
  {
  }

  lemma {:induction false} Siblings(t: Tree)
    requires t.Node? && Balanced(t)
    ensures Balanced(Higher(t)) && Balanced(Lower(t)) && ChildrenAtMost(Higher(t), Weight(Lower(t)))
    ensures Weight(t) == Weight(Higher(t)) + Weight(Lower(t)) && Height(t) == Height(Higher(t)) + 1
  {
  }

  lemma {:induction false} Grandchild(t: Tree, w: nat)
    requires t.Node? && Balanced(t) && ChildrenAtMost(t, w)
    ensures Balanced(Higher(t)) && Weight(Higher(t)) <= w
  {
  }

  ghost function Lower(t: Tree): (c: Tree)
    requires t.Node?
    ensures c < t
  {
    if Height(t.left) < Height(t.right) then t.left else t.right
  }

  ghost function Higher(t: Tree): (c: Tree)
    requires t.Node?
    ensures c < t && Height(c) == Height(t) - 1
  {
    if Height(t.left) < Height(t.right) then t.right else t.left
  }
}
