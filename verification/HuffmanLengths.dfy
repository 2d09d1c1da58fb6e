/**
From byte frequencies to code lengths: the lengths are the depths of the symbols in the
Huffman tree. They fill the code space exactly and no other lengths cost less.
*/
module HuffmanLengths {
  import opened Sequences
  import opened PowersOfTwo
  import opened HuffmanTree
  import opened HuffmanHeight
  import opened HuffmanOptimality

  /** The leaves of the used symbols below n, in order. */
  function Leaves(freq: seq<nat>, n: nat): Forest
    requires n <= |freq|
  {
    if n == 0 then []
    else Leaves(freq, n - 1) + (if freq[n - 1] > 0 then [Leaf(n - 1, freq[n - 1])] else [])
  }

  function Zeros(n: nat): (z: seq<nat>)
    ensures |z| == n && forall s :: 0 <= s < n ==> z[s] == 0
  {
    seq(n, _ => 0)
  }

  function AtLeastOne(d: nat): nat {
    if d == 0 then 1 else d
  }

  /** Enters the depth of every leaf of a tree that hangs at depth d. */
  function Depths(t: Tree, d: nat, lens: seq<nat>): (r: seq<nat>)
    requires SymbolsBelow(t, |lens|)
    ensures |r| == |lens|
  {
    match t
    case Leaf(s, _) => lens[s := AtLeastOne(d)]
    case Node(a, b) => Depths(b, d + 1, Depths(a, d + 1, lens))
  }

  predicate SymbolsBelow(t: Tree, n: nat) {
    match t
    case Leaf(s, _) => s < n
    case Node(a, b) => SymbolsBelow(a, n) && SymbolsBelow(b, n)
  }

  function CodeLengths(freq: seq<nat>): (lens: seq<nat>)
    ensures |lens| == |freq|
  {
    var f := Leaves(freq, |freq|);
    if f == [] then Zeros(|freq|)
    else
      LeavesWellFormed(freq, |freq|);
      BuildKeeps(freq, f);
      Depths(Build(f), 0, Zeros(|freq|))
  }

  // ---- What the forest keeps ---------------------------------------------------------------

  ghost function Symbols(t: Tree): set<nat> {
    match t
    case Leaf(s, _) => {s}
    case Node(a, b) => Symbols(a) + Symbols(b)
  }

  /** Every leaf is a used symbol with its frequency, and no symbol occurs twice. */
  ghost predicate Proper(t: Tree, freq: seq<nat>) {
    match t
    case Leaf(s, w) => s < |freq| && w == freq[s] && w > 0
    case Node(a, b) => Proper(a, freq) && Proper(b, freq) && Symbols(a) !! Symbols(b)
  }

  ghost predicate ProperForest(f: Forest, freq: seq<nat>) {
    && (forall i :: 0 <= i < |f| ==> Proper(f[i], freq))
    && (forall i, j :: 0 <= i < |f| && 0 <= j < |f| && i != j ==> Symbols(f[i]) !! Symbols(f[j]))
  }

  ghost function AllSymbols(f: Forest): set<nat> {
    set i, s | 0 <= i < |f| && s in Symbols(f[i]) :: s
  }

  lemma {:induction false} ProperBelow(t: Tree, freq: seq<nat>)
    requires Proper(t, freq)
    ensures SymbolsBelow(t, |freq|)
    ensures forall s :: s in Symbols(t) ==> s < |freq| && freq[s] > 0
  {
    match t
    case Leaf(_, _) =>
    case Node(a, b) =>
      ProperBelow(a, freq);
      ProperBelow(b, freq);
  }

  ghost function UsedBelow(freq: seq<nat>, n: nat): set<nat>
    requires n <= |freq|
  {
    set s: nat | s < n && freq[s] > 0
  }

  lemma {:induction false} LeavesWellFormed(freq: seq<nat>, n: nat)
    requires n <= |freq|
    ensures |Leaves(freq, n)| <= n
    ensures ProperForest(Leaves(freq, n), freq)
    ensures forall i :: 0 <= i < |Leaves(freq, n)| ==> Leaves(freq, n)[i].Leaf? && Leaves(freq, n)[i].sym < n
    ensures AllSymbols(Leaves(freq, n)) == UsedBelow(freq, n)
  {
    if n > 0 {
      LeavesWellFormed(freq, n - 1);
      var f, g := Leaves(freq, n), Leaves(freq, n - 1);
      if freq[n - 1] == 0 {
        assert f == g;
        assert UsedBelow(freq, n) == UsedBelow(freq, n - 1);
      } else {
        assert UsedBelow(freq, n) == UsedBelow(freq, n - 1) + {n - 1};
        assert f[|g|] == Leaf(n - 1, freq[n - 1]);
        assert forall i :: 0 <= i < |g| ==> f[i] == g[i];
        AllSymbolsAppend(g, f[|g|]);
        assert Symbols(f[|g|]) == {n - 1};
      }
    }
  }

  lemma {:induction false} AllSymbolsAppend(f: Forest, t: Tree)
    ensures AllSymbols(f + [t]) == AllSymbols(f) + Symbols(t)
  {
    hide Symbols;
    var g := f + [t];
    assert g[|f|] == t && forall i :: 0 <= i < |f| ==> g[i] == f[i];
  }

  lemma {:induction false} AllSymbolsRemove(f: Forest, r: nat)
    requires r < |f|
    ensures AllSymbols(f) == AllSymbols(Remove(f, r)) + Symbols(f[r])
  {
    hide Symbols;
    var g := Remove(f, r);
    forall i | 0 <= i < |f| && i != r
      ensures f[i] == g[if i < r then i else i - 1]
    {
    }
    forall s | s in AllSymbols(f)
      ensures s in AllSymbols(g) + Symbols(f[r])
    {
      var i :| 0 <= i < |f| && s in Symbols(f[i]);
      assert i != r ==> s in Symbols(g[if i < r then i else i - 1]);
    }
    forall s | s in AllSymbols(g)
      ensures s in AllSymbols(f)
    {
      var i :| 0 <= i < |g| && s in Symbols(g[i]);
      assert g[i] == f[if i < r then i else i + 1];
    }
  }

  lemma {:induction false} RemoveKeepsProper(f: Forest, freq: seq<nat>, r: nat)
    requires ProperForest(f, freq) && r < |f|
    ensures ProperForest(Remove(f, r), freq) && Proper(f[r], freq)
    ensures forall i :: 0 <= i < |f| - 1 ==> Symbols(f[r]) !! Symbols(Remove(f, r)[i])
  {
    hide Proper, Symbols;
    var g := Remove(f, r);
    forall i | 0 <= i < |g|
      ensures Proper(g[i], freq) && Symbols(f[r]) !! Symbols(g[i])
    {
      assert g[i] == f[if i < r then i else i + 1];
    }
    forall i, j | 0 <= i < |g| && 0 <= j < |g| && i != j
      ensures Symbols(g[i]) !! Symbols(g[j])
    {
      assert g[i] == f[if i < r then i else i + 1] && g[j] == f[if j < r then j else j + 1];
    }
  }

  lemma {:induction false} MergeKeepsProper(f: Forest, freq: seq<nat>)
    requires ProperForest(f, freq) && |f| >= 2
    ensures ProperForest(Merge(f), freq) && AllSymbols(Merge(f)) == AllSymbols(f)
  {
    hide MinIndex, Proper, ProperForest, AllSymbols;
    var i, j := MinIndex(f), MinIndex(Others(f));
    var a, b, rest, g := First(f), Second(f), Rest(f), Others(f);
    RemoveKeepsProper(f, freq, i);
    RemoveKeepsProper(g, freq, j);
    AllSymbolsRemove(f, i);
    AllSymbolsRemove(g, j);
    AllSymbolsAppend(rest, Node(a, b));
    assert b == g[j];
    forall k | 0 <= k < |rest|
      ensures Symbols(rest[k]) !! Symbols(a)
    {
      assert rest[k] == g[if k < j then k else k + 1];
    }
    JoinKeepsProper(rest, a, b, freq);
  }

  lemma {:induction false} JoinKeepsProper(rest: Forest, a: Tree, b: Tree, freq: seq<nat>)
    requires ProperForest(rest, freq) && Proper(a, freq) && Proper(b, freq) && Symbols(a) !! Symbols(b)
    requires forall k :: 0 <= k < |rest| ==> Symbols(rest[k]) !! Symbols(a) && Symbols(rest[k]) !! Symbols(b)
    ensures ProperForest(rest + [Node(a, b)], freq)
  {
    var joined := Node(a, b);
    assert Proper(joined, freq) && Symbols(joined) == Symbols(a) + Symbols(b);
    hide Proper, Symbols;
    var h := rest + [joined];
    assert forall k :: 0 <= k < |h| ==> h[k] == if k < |rest| then rest[k] else joined;
  }

  lemma {:induction false} BuildKeeps(freq: seq<nat>, f: Forest)
    requires ProperForest(f, freq) && f != []
    ensures Proper(Build(f), freq) && Symbols(Build(f)) == AllSymbols(f)
    ensures SymbolsBelow(Build(f), |freq|)
    decreases |f|
  {
    if |f| > 1 {
      MergeKeepsProper(f, freq);
      BuildKeeps(freq, Merge(f));
    } else {
      AllSymbolsRemove(f, 0);
      assert Remove(f, 0) == [];
      assert AllSymbols([]) == {};
      ProperBelow(f[0], freq);
    }
  }

  // ---- Sums over the code lengths -------------------------------------------------------------

  /** What the used symbols contribute, one entry a symbol. */
  function Terms(lens: seq<nat>, g: (nat, nat) -> int): (t: seq<int>)
    ensures |t| == |lens|
  {
    seq(|lens|, s requires 0 <= s < |lens| => if lens[s] > 0 then g(s, lens[s]) else 0)
  }

  function TreeSum(t: Tree, d: nat, g: (nat, nat) -> int): int {
    match t
    case Leaf(s, _) => g(s, AtLeastOne(d))
    case Node(a, b) => TreeSum(a, d + 1, g) + TreeSum(b, d + 1, g)
  }

  ghost predicate Untouched(t: Tree, lens: seq<nat>) {
    forall s :: s in Symbols(t) ==> s < |lens| && lens[s] == 0
  }

  lemma {:induction false} DepthsElsewhere(t: Tree, freq: seq<nat>, d: nat, lens: seq<nat>)
    requires Proper(t, freq) && |lens| == |freq| && SymbolsBelow(t, |lens|)
    ensures forall s :: 0 <= s < |lens| && s !in Symbols(t) ==> Depths(t, d, lens)[s] == lens[s]
    ensures forall s :: 0 <= s < |lens| && s in Symbols(t) ==>
      0 < Depths(t, d, lens)[s] <= AtLeastOne(d + Height(t))
  {
    if t.Node? {
      var inner := Depths(t.left, d + 1, lens);
      DepthsElsewhere(t.left, freq, d + 1, lens);
      DepthsElsewhere(t.right, freq, d + 1, inner);
      assert Depths(t, d, lens) == Depths(t.right, d + 1, inner);
    }
  }

  lemma {:induction false} DepthsSum(t: Tree, freq: seq<nat>, d: nat, lens: seq<nat>, g: (nat, nat) -> int)
    requires Proper(t, freq) && |lens| == |freq| && SymbolsBelow(t, |lens|) && Untouched(t, lens)
    ensures Sum(Terms(Depths(t, d, lens), g)) == Sum(Terms(lens, g)) + TreeSum(t, d, g)
  {
    hide Sum;
    match t
    case Leaf(s, _) =>
      assert s in Symbols(t);
      var terms := Terms(lens, g);
      SumUpdate(terms, s, g(s, AtLeastOne(d)));
      assert Terms(Depths(t, d, lens), g) == terms[s := g(s, AtLeastOne(d))];
    case Node(a, b) =>
      var inner := Depths(a, d + 1, lens);
      DepthsElsewhere(a, freq, d + 1, lens);
      DepthsSum(a, freq, d + 1, lens, g);
      DepthsSum(b, freq, d + 1, inner, g);
  }

  /** The deepest leaf. */
  lemma {:induction false} DeepestLeaf(t: Tree, freq: seq<nat>, d: nat, lens: seq<nat>) returns (s: nat)
    requires Proper(t, freq) && |lens| == |freq| && SymbolsBelow(t, |lens|)
    ensures s < |lens| && s in Symbols(t) && Depths(t, d, lens)[s] == AtLeastOne(d + Height(t))
  {
    match t
    case Leaf(x, _) =>
      s := x;
    case Node(a, b) =>
      var inner := Depths(a, d + 1, lens);
      if Height(a) < Height(b) {
        s := DeepestLeaf(b, freq, d + 1, inner);
      } else {
        s := DeepestLeaf(a, freq, d + 1, lens);
        DepthsElsewhere(b, freq, d + 1, inner);
      }
  }

  ghost function Share(m: nat): (nat, nat) -> int {
    (s: nat, l: nat) => if l <= m then Pow2(m - l) else 0
  }

  ghost function Cost(freq: seq<nat>): (nat, nat) -> int {
    (s: nat, l: nat) => if s < |freq| then freq[s] * l else 0
  }

  lemma {:induction false} TreeShare(t: Tree, d: nat, m: nat)
    requires d + Height(t) <= m && (d > 0 || t.Node?)
    ensures TreeSum(t, d, Share(m)) == Pow2(m - d)
  {
    hide Pow2;
    match t
    case Leaf(_, _) =>
    case Node(a, b) =>
      TreeShare(a, d + 1, m);
      TreeShare(b, d + 1, m);
      Pow2Next(m - d - 1);
  }

  lemma {:induction false} TreeCost(t: Tree, freq: seq<nat>, d: nat)
    requires Proper(t, freq) && (d > 0 || t.Node?)
    ensures TreeSum(t, d, Cost(freq)) == PathLength(t) + Weight(t) * d
  {
    match t
    case Leaf(_, _) =>
    case Node(a, b) =>
      TreeCost(a, freq, d + 1);
      TreeCost(b, freq, d + 1);
      Deeper(Weight(a), Weight(b), d);
  }

  lemma {:induction false} Deeper(u: nat, v: nat, d: nat)
    ensures u * (d + 1) + v * (d + 1) == u + v + (u + v) * d
  {
  }

  // ---- The code lengths ----------------------------------------------------------------------

  ghost function Used(freq: seq<nat>): set<nat> {
    UsedBelow(freq, |freq|)
  }

  function HuffmanTreeOf(freq: seq<nat>): (t: Tree)
    requires Leaves(freq, |freq|) != []
    ensures Proper(t, freq) && SymbolsBelow(t, |freq|) && Symbols(t) == Used(freq)
  {
    var f := Leaves(freq, |freq|);
    LeavesWellFormed(freq, |freq|);
    BuildKeeps(freq, f);
    Build(f)
  }

  ghost predicate HasUsed(freq: seq<nat>) {
    exists s: nat :: s < |freq| && freq[s] > 0
  }

  lemma {:induction false} LeavesUsed(freq: seq<nat>)
    ensures Leaves(freq, |freq|) == [] <==> !HasUsed(freq)
  {
    var f := Leaves(freq, |freq|);
    LeavesWellFormed(freq, |freq|);
    if f != [] {
      assert Symbols(f[0]) == {f[0].sym};
      assert f[0].sym in AllSymbols(f);
    }
    if s: nat :| s < |freq| && freq[s] > 0 {
      assert s in UsedBelow(freq, |freq|);
    }
  }

  /** The longest code, which is what the lengths are checked against when unpacking. */
  function LongestCode(freq: seq<nat>): nat {
    if Leaves(freq, |freq|) == [] then 0 else AtLeastOne(Height(HuffmanTreeOf(freq)))
  }

  /** Exactly the used symbols get codes; LongestCode is the maximum. */
  lemma {:induction false} LengthsOfUsed(freq: seq<nat>)
    ensures forall s :: 0 <= s < |freq| ==> (CodeLengths(freq)[s] > 0 <==> freq[s] > 0)
    ensures forall s :: 0 <= s < |freq| ==> CodeLengths(freq)[s] <= LongestCode(freq)
    ensures HasUsed(freq) ==> exists s :: 0 <= s < |freq| && CodeLengths(freq)[s] == LongestCode(freq)
  {
    hide Leaves, Build, Depths, Symbols, Proper, SymbolsBelow, Height;
    LeavesUsed(freq);
    if HasUsed(freq) {
      var t := HuffmanTreeOf(freq);
      var lens := CodeLengths(freq);
      DepthsElsewhere(t, freq, 0, Zeros(|freq|));
      var s := DeepestLeaf(t, freq, 0, Zeros(|freq|));
      assert lens[s] == LongestCode(freq);
      assert forall s: nat :: s < |freq| ==> (s in Used(freq) <==> freq[s] > 0);
    }
  }

  lemma {:induction false} TermsOfZeros(n: nat, g: (nat, nat) -> int)
    ensures Sum(Terms(Zeros(n), g)) == 0
  {
    if n > 0 {
      TermsOfZeros(n - 1, g);
      assert Terms(Zeros(n), g)[..n - 1] == Terms(Zeros(n - 1), g);
    }
  }

  lemma {:induction false} LengthsSum(freq: seq<nat>, g: (nat, nat) -> int)
    requires Leaves(freq, |freq|) != []
    ensures Sum(Terms(CodeLengths(freq), g)) == TreeSum(HuffmanTreeOf(freq), 0, g)
  {
    TermsOfZeros(|freq|, g);
    var t := HuffmanTreeOf(freq);
    ProperBelow(t, freq);
    DepthsSum(t, freq, 0, Zeros(|freq|), g);
  }

  /** The code space is filled, save that a lone symbol takes only half of it. */
  lemma {:induction false} KraftSum(freq: seq<nat>, m: nat)
    requires HasUsed(freq) && LongestCode(freq) <= m
    ensures Sum(Terms(CodeLengths(freq), Share(m))) ==
            if |Leaves(freq, |freq|)| == 1 then Pow2(m - 1) else Pow2(m)
  {
    hide Sum, Build, Pow2, Terms, Proper, CodeLengths;
    LeavesUsed(freq);
    var f := Leaves(freq, |freq|);
    var t := HuffmanTreeOf(freq);
    LengthsSum(freq, Share(m));
    LeavesWellFormed(freq, |freq|);
    if |f| > 1 {
      BuildIsNode(f);
      TreeShare(t, 0, m);
    } else {
      BuildLone(f);
    }
  }

  lemma {:induction false} BuildLone(f: Forest)
    requires |f| == 1
    ensures Build(f) == f[0]
  {
  }

  lemma {:induction false} BuildIsNode(f: Forest)
    requires |f| > 1
    ensures Build(f).Node?
    decreases |f|
  {
    if |f| > 2 {
      BuildIsNode(Merge(f));
    }
  }

  lemma {:induction false} KraftHolds(freq: seq<nat>, m: nat)
    requires LongestCode(freq) <= m
    ensures Sum(Terms(CodeLengths(freq), Share(m))) <= Pow2(m)
  {
    LeavesUsed(freq);
    if HasUsed(freq) {
      KraftSum(freq, m);
      Pow2Grows(m - 1, m);
    } else {
      TermsOfZeros(|freq|, Share(m));
      Pow2Positive(m);
    }
  }

  // ---- Optimality ------------------------------------------------------------------------------

  function LengthsFor(freq: seq<nat>, alt: seq<nat>, n: nat): (ls: Lengths)
    requires n <= |freq| == |alt|
    ensures |ls| == |Leaves(freq, n)|
  {
    if n == 0 then []
    else LengthsFor(freq, alt, n - 1) + (if freq[n - 1] > 0 then [alt[n - 1]] else [])
  }

  ghost predicate Admissible(freq: seq<nat>, alt: seq<nat>, m: nat) {
    && |alt| == |freq|
    && (forall s :: 0 <= s < |freq| ==> alt[s] <= m && (freq[s] > 0 ==> alt[s] > 0))
    && Sum(Terms(alt, Share(m))) <= Pow2(m)
  }

  lemma {:induction false} TermsPrefix(alt: seq<nat>, g: (nat, nat) -> int, n: nat)
    requires n < |alt|
    ensures Terms(alt, g)[..n + 1] == Terms(alt, g)[..n] + [Terms(alt, g)[n]]
    ensures Sum(Terms(alt, g)[..n + 1]) == Sum(Terms(alt, g)[..n]) + (if alt[n] > 0 then g(n, alt[n]) else 0)
  {
    SumAppend(Terms(alt, g)[..n], Terms(alt, g)[n]);
  }

  lemma {:induction false} EmptySum(s: seq<int>)
    requires s == []
    ensures Sum(s) == 0
  {
  }

  lemma {:induction false} ShareOf(m: nat, s: nat, l: nat)
    requires l <= m
    ensures Share(m)(s, l) == Pow2(m - l)
  {
  }

  /** A leaf more, or not. */
  lemma {:induction false} LengthsForStep(freq: seq<nat>, alt: seq<nat>, n: nat)
    requires 0 < n <= |freq| == |alt|
    ensures var f, ls := Leaves(freq, n - 1), LengthsFor(freq, alt, n - 1);
      if freq[n - 1] > 0
      then Leaves(freq, n) == f + [Leaf(n - 1, freq[n - 1])] && LengthsFor(freq, alt, n) == ls + [alt[n - 1]]
      else Leaves(freq, n) == f && LengthsFor(freq, alt, n) == ls
  {
  }

  lemma {:induction false} LengthsForShares(freq: seq<nat>, alt: seq<nat>, m: nat, n: nat)
    requires n <= |freq| == |alt|
    requires forall s :: 0 <= s < |freq| ==> alt[s] <= m && (freq[s] > 0 ==> alt[s] > 0)
    ensures Within(LengthsFor(freq, alt, n), m)
    ensures Sum(Shares(LengthsFor(freq, alt, n), m)) <= Sum(Terms(alt, Share(m))[..n])
  {
    hide Pow2, Terms, Sum;
    if n == 0 {
      EmptySum(Shares(LengthsFor(freq, alt, n), m));
      EmptySum(Terms(alt, Share(m))[..n]);
    } else {
      hide Shares, Leaves, LengthsFor, Share;
      ShareOf(m, n - 1, alt[n - 1]);
      LengthsForShares(freq, alt, m, n - 1);
      TermsPrefix(alt, Share(m), n - 1);
      Pow2Positive(m - alt[n - 1]);
      LengthsForStep(freq, alt, n);
      if freq[n - 1] > 0 {
        AppendLength(Leaves(freq, n - 1), LengthsFor(freq, alt, n - 1), m, Leaf(n - 1, freq[n - 1]), alt[n - 1]);
      }
    }
  }

  lemma {:induction false} LengthsForCosts(freq: seq<nat>, alt: seq<nat>, m: nat, n: nat)
    requires n <= |freq| == |alt|
    requires forall s :: 0 <= s < |freq| ==> alt[s] <= m && (freq[s] > 0 ==> alt[s] > 0)
    ensures Sum(Costs(Leaves(freq, n), LengthsFor(freq, alt, n))) == Sum(Terms(alt, Cost(freq))[..n])
  {
    hide Pow2, Terms, Sum;
    if n == 0 {
      EmptySum(Costs(Leaves(freq, n), LengthsFor(freq, alt, n)));
      EmptySum(Terms(alt, Cost(freq))[..n]);
    } else {
      hide Costs, Weight, Leaves, LengthsFor, Shares;
      LengthsForCosts(freq, alt, m, n - 1);
      LengthsForShares(freq, alt, m, n - 1);
      TermsPrefix(alt, Cost(freq), n - 1);
      LengthsForStep(freq, alt, n);
      if freq[n - 1] > 0 {
        AppendLength(Leaves(freq, n - 1), LengthsFor(freq, alt, n - 1), m, Leaf(n - 1, freq[n - 1]), alt[n - 1]);
        LeafWeight(n - 1, freq[n - 1]);
      }
    }
  }

  lemma {:induction false} LeafWeight(s: nat, w: nat)
    ensures Weight(Leaf(s, w)) == w
  {
  }

  /** No other lengths that leave room for all codes make the encoded body shorter. */
  lemma {:induction false} CodeLengthsAreOptimal(freq: seq<nat>, alt: seq<nat>, m: nat)
    requires Admissible(freq, alt, m)
    ensures Sum(Terms(CodeLengths(freq), Cost(freq))) <= Sum(Terms(alt, Cost(freq)))
  {
    var n := |freq|;
    var f, ls := Leaves(freq, n), LengthsFor(freq, alt, n);
    LengthsForShares(freq, alt, m, n);
    LengthsForCosts(freq, alt, m, n);
    assert Terms(alt, Cost(freq))[..n] == Terms(alt, Cost(freq));
    assert Terms(alt, Share(m))[..n] == Terms(alt, Share(m));
    LeavesWellFormed(freq, n);
    if f == [] {
      TermsOfZeros(n, Cost(freq));
      assert Costs(f, ls) == [];
    } else {
      LengthsSum(freq, Cost(freq));
      if |f| == 1 {
        LoneLength(freq, alt, m);
      } else {
        BuildIsNode(f);
        TreeCost(HuffmanTreeOf(freq), freq, 0);
        BuildIsOptimal(f, ls, m);
        LeafPaths(f);
      }
    }
  }

  lemma {:induction false} LoneLength(freq: seq<nat>, alt: seq<nat>, m: nat)
    requires Admissible(freq, alt, m) && |Leaves(freq, |freq|)| == 1
    ensures TreeSum(HuffmanTreeOf(freq), 0, Cost(freq)) <= Sum(Costs(Leaves(freq, |freq|), LengthsFor(freq, alt, |freq|)))
  {
    var n := |freq|;
    var f, ls := Leaves(freq, n), LengthsFor(freq, alt, n);
    LeavesWellFormed(freq, n);
    LengthsForMember(freq, alt, n);
    assert Costs(f, ls)[..0] == [];
    assert Sum(Costs(f, ls)) == f[0].w * ls[0];
    assert f[0].w * ls[0] >= f[0].w;
    assert Proper(f[0], freq);
  }

  lemma {:induction false} LengthsForMember(freq: seq<nat>, alt: seq<nat>, n: nat)
    requires n <= |freq| == |alt|
    requires forall s :: 0 <= s < |freq| && freq[s] > 0 ==> alt[s] > 0
    ensures forall i :: 0 <= i < |LengthsFor(freq, alt, n)| ==> LengthsFor(freq, alt, n)[i] > 0
  {
    if n > 0 {
      LengthsForMember(freq, alt, n - 1);
    }
  }

  lemma {:induction false} LeafPaths(f: Forest)
    requires forall i :: 0 <= i < |f| ==> f[i].Leaf?
    ensures Sum(PathLengths(f)) == 0
  {
    if f != [] {
      var n := |f| - 1;
      LeafPaths(f[..n]);
      assert PathLengths(f)[..n] == PathLengths(f[..n]);
    }
  }

  // ---- How long codes get ------------------------------------------------------------------------

  ghost function Frequency(freq: seq<nat>): (nat, nat) -> int {
    (s: nat, l: nat) => if s < |freq| then freq[s] else 0
  }

  lemma {:induction false} TreeFrequency(t: Tree, freq: seq<nat>, d: nat)
    requires Proper(t, freq)
    ensures TreeSum(t, d, Frequency(freq)) == Weight(t)
  {
    if t.Node? {
      TreeFrequency(t.left, freq, d + 1);
      TreeFrequency(t.right, freq, d + 1);
    }
  }

  lemma {:induction false} TotalWeight(freq: seq<nat>)
    requires Leaves(freq, |freq|) != []
    ensures Weight(HuffmanTreeOf(freq)) == Sum(freq)
  {
    LengthsSum(freq, Frequency(freq));
    TreeFrequency(HuffmanTreeOf(freq), freq, 0);
    LengthsOfUsed(freq);
    assert Terms(CodeLengths(freq), Frequency(freq)) == freq;
  }

  /** A code of length n >= 2 needs at least the Fibonacci number n + 2 of input bytes. */
  lemma {:induction false} LongCodeNeedsInput(freq: seq<nat>)
    requires LongestCode(freq) >= 2
    ensures Sum(freq) >= Fib(LongestCode(freq) + 2)
  {
    hide Sum, Build, Fib, Weight;
    var f := Leaves(freq, |freq|);
    LeavesWellFormed(freq, |freq|);
    assert BalancedForest(f) by {
      forall i | 0 <= i < |f|
        ensures Balanced(f[i])
      {
        assert Proper(f[i], freq);
      }
    }
    BuildIsBalanced(f);
    WeightOfHeight(Build(f));
    TotalWeight(freq);
  }

  const TOO_SHORT_FOR_33_BITS := 9_227_465

  lemma {:induction false} FibDozen(n: nat)
    ensures Fib(n + 12) == 89 * Fib(n) + 144 * Fib(n + 1)
    ensures Fib(n + 13) == 144 * Fib(n) + 233 * Fib(n + 1)
  {
    hide Fib;
    FibSteps(n); FibSteps(n + 1); FibSteps(n + 2); FibSteps(n + 3);
    FibSteps(n + 4); FibSteps(n + 5); FibSteps(n + 6); FibSteps(n + 7);
    FibSteps(n + 8); FibSteps(n + 9); FibSteps(n + 10); FibSteps(n + 11);
  }

  lemma {:induction false} Fib35(z: nat)
    requires z == 0
    ensures Fib(z + 35) == TOO_SHORT_FOR_33_BITS
  {
    hide Fib;
    FibZero(z);
    FibDozen(z);
    FibDozen(z + 12);
    FibDozen(z + 24);
    FibSteps(z + 35);
  }

  /** Inputs of fewer than 9227465 bytes get codes of at most 32 bits, whatever the bytes. */
  lemma {:induction false} ShortInputsHaveShortCodes(freq: seq<nat>)
    requires Sum(freq) < TOO_SHORT_FOR_33_BITS
    ensures LongestCode(freq) <= 32
  {
    hide Fib, Sum, LongestCode;
    if LongestCode(freq) > 32 {
      LongCodeNeedsInput(freq);
      var z: nat := 0;
      FibGrows(z + 35, LongestCode(freq) + 2);
      Fib35(z);
    }
  }
}
