/**
Where the bound on code lengths is exceeded: frequencies that are the first n Fibonacci numbers
give a tree in which every joined tree hangs beside a single leaf.
*/
module HuffmanWorstCase {
  import opened HuffmanTree
  import opened HuffmanHeight
  import opened HuffmanLengths

  function LeafAt(d: nat, j: nat): Tree {
    Leaf(d + j, Fib(j + 1))
  }

  /** The tree that has taken in the first j leaves one by one. */
  function Spine(d: nat, j: nat): Tree
    requires j >= 2
  {
    if j == 2 then Node(LeafAt(d, 0), LeafAt(d, 1)) else Node(LeafAt(d, j - 1), Spine(d, j - 1))
  }

  lemma {:induction false} SpineShape(d: nat, j: nat)
    requires j >= 2
    ensures Weight(Spine(d, j)) == Fib(j + 2) - 1 && Height(Spine(d, j)) == j - 1
  {
    hide Fib;
    if j == 2 {
      FibZero(0);
      FibSteps(0);
      FibSteps(1);
      FibSteps(2);
    } else {
      SpineShape(d, j - 1);
      FibSteps(j);
    }
  }

  function LeavesFrom(d: nat, j: nat, n: nat): (f: Forest)
    requires j <= n
    ensures |f| == n - j
  {
    seq(n - j, i requires 0 <= i < n - j => LeafAt(d, j + i))
  }

  function Stage(d: nat, j: nat, n: nat): Forest
    requires 2 <= j <= n
  {
    LeavesFrom(d, j, n) + [Spine(d, j)]
  }

  lemma {:induction false} LeafWeights(d: nat, j: nat, i: nat)
    ensures Weight(LeafAt(d, j)) == Fib(j + 1) <= Weight(LeafAt(d, j + i)) == Fib(j + i + 1)
  {
    FibGrows(j + 1, j + i + 1);
  }

  lemma {:induction false} StageMerges(d: nat, j: nat, n: nat)
    requires 2 <= j < n
    ensures Merge(Stage(d, j, n)) == Stage(d, j + 1, n)
  {
    hide Fib, Spine, MinIndex;
    var f := Stage(d, j, n);
    SpineShape(d, j);
    FibSteps(j);
    FibGrows(1, j);
    FibZero(0);
    LeafWeights(d, j, 0);
    forall i | 0 <= i < |f|
      ensures Weight(f[0]) <= Weight(f[i])
      ensures 0 < i < |f| - 1 ==> Weight(f[i]) > Weight(Spine(d, j))
    {
      if i < n - j {
        LeafWeights(d, j, i);
        if i > 0 {
          LeafWeights(d, j + 1, i - 1);
        }
      }
    }
    FirstMinIsUnique(f, 0);
    var g := Others(f);
    assert g == LeavesFrom(d, j + 1, n) + [Spine(d, j)];
    forall i | 0 <= i < |g| - 1
      ensures Weight(g[i]) > Weight(Spine(d, j))
    {
      assert g[i] == f[i + 1];
    }
    FirstMinIsUnique(g, n - j - 1);
    assert Rest(f) == LeavesFrom(d, j + 1, n);
    SpineNext(d, j);
  }

  lemma {:induction false} SpineNext(d: nat, j: nat)
    requires j >= 2
    ensures Spine(d, j + 1) == Node(LeafAt(d, j), Spine(d, j))
  {
  }

  lemma {:induction false} StageBuilds(d: nat, j: nat, n: nat)
    requires 2 <= j <= n
    ensures Build(Stage(d, j, n)) == Spine(d, n)
    decreases n - j
  {
    if j < n {
      StageMerges(d, j, n);
      StageBuilds(d, j + 1, n);
    }
  }

  /** Leaves in order of weight: the first is a first lightest. */
  lemma {:induction false} LeavesInOrder(d: nat, j: nat, n: nat)
    requires j < n
    ensures IsFirstMin(LeavesFrom(d, j, n), 0)
  {
    hide Fib;
    var f := LeavesFrom(d, j, n);
    forall i | 0 <= i < |f|
      ensures Weight(f[0]) <= Weight(f[i])
    {
      LeafWeights(d, j, i);
    }
  }

  lemma {:induction false} FirstMerge(d: nat, n: nat)
    requires n >= 2
    ensures Merge(LeavesFrom(d, 0, n)) == Stage(d, 2, n)
  {
    hide MinIndex, LeafAt, Weight, IsFirstMin;
    var f := LeavesFrom(d, 0, n);
    LeavesInOrder(d, 0, n);
    FirstMinIsUnique(f, 0);
    assert Others(f) == LeavesFrom(d, 1, n);
    LeavesInOrder(d, 1, n);
    FirstMinIsUnique(LeavesFrom(d, 1, n), 0);
    assert Rest(f) == LeavesFrom(d, 2, n);
  }

  lemma {:induction false} FirstStage(d: nat, n: nat)
    requires n >= 2
    ensures Build(LeavesFrom(d, 0, n)) == Spine(d, n)
  {
    hide Merge, Stage, Spine;
    FirstMerge(d, n);
    StageBuilds(d, 2, n);
  }

  /** The frequencies 1, 1, 2, 3, 5, ... of n symbols from d on. */
  function Fibonacci(d: nat, n: nat, size: nat): (freq: seq<nat>)
    requires d + n <= size
    ensures |freq| == size
  {
    seq(size, s requires 0 <= s < size => FrequencyAt(d, n, s))
  }

  function FrequencyAt(d: nat, n: nat, s: nat): nat {
    if d <= s < d + n then Fib(s - d + 1) else 0
  }

  /** How many of the n symbols from d on lie below k. */
  function Below(d: nat, n: nat, k: nat): nat {
    if k <= d then 0 else if k < d + n then k - d else n
  }

  lemma {:induction false} FibonacciLeaves(d: nat, n: nat, size: nat, k: nat)
    requires d + n <= size && k <= size
    ensures Leaves(Fibonacci(d, n, size), k) == LeavesFrom(d, 0, Below(d, n, k))
  {
    hide Fib;
    if k > 0 {
      FibonacciLeaves(d, n, size, k - 1);
      if d < k <= d + n {
        var j := k - d;
        FibZero(0);
        FibGrows(1, j);
        assert LeavesFrom(d, 0, j) == LeavesFrom(d, 0, j - 1) + [LeafAt(d, j - 1)];
      }
    }
  }

  /** n symbols with Fibonacci frequencies need codes of n - 1 bits. */
  lemma {:induction false} FibonacciNeedsLongCodes(d: nat, n: nat, size: nat)
    requires 2 <= n && d + n <= size
    ensures LongestCode(Fibonacci(d, n, size)) == n - 1
  {
    FibonacciLeaves(d, n, size, size);
    FirstStage(d, n);
    SpineShape(d, n);
  }
}
