/**
Why joining the two lightest trees is right: whatever lengths one gives the trees of a forest,
if a prefix code with those lengths exists, the Huffman tree costs no more.
*/
module HuffmanOptimality {
  import opened Sequences
  import opened PowersOfTwo
  import opened HuffmanTree

  type Lengths = seq<nat>

  /** Total length: every tree's weight times its length. */
  function Costs(f: Forest, ls: Lengths): (c: seq<int>)
    requires |f| == |ls|
    ensures |c| == |f|
  {
    seq(|f|, i requires 0 <= i < |f| => Weight(f[i]) * ls[i])
  }

  /** What each length takes of the code space 2^m. */
  function Shares(ls: Lengths, m: nat): (s: seq<int>)
    requires Within(ls, m)
    ensures |s| == |ls|
  {
    seq(|ls|, i requires 0 <= i < |ls| => Pow2(m - ls[i]))
  }

  ghost predicate Within(ls: Lengths, m: nat) {
    forall i :: 0 <= i < |ls| ==> ls[i] <= m
  }

  /** The lengths obey the Kraft inequality. */
  ghost predicate Kraft(ls: Lengths, m: nat) {
    Within(ls, m) && Sum(Shares(ls, m)) <= Pow2(m)
  }

  // ---- Exchanging lengths ------------------------------------------------------------------

  function Swapped(ls: Lengths, i: nat, j: nat): (r: Lengths)
    requires i < |ls| && j < |ls|
    ensures |r| == |ls|
  {
    ls[i := ls[j]][j := ls[i]]
  }

  lemma {:induction false} SwapSum(s: seq<int>, i: nat, j: nat)
    requires i < |s| && j < |s|
    ensures Sum(s[i := s[j]][j := s[i]]) == Sum(s)
  {
    SumUpdate(s, i, s[j]);
    SumUpdate(s[i := s[j]], j, s[i]);
  }

  lemma {:induction false} SwapKeepsKraft(ls: Lengths, m: nat, i: nat, j: nat)
    requires Kraft(ls, m) && i < |ls| && j < |ls|
    ensures Kraft(Swapped(ls, i, j), m)
    ensures Sum(Shares(Swapped(ls, i, j), m)) == Sum(Shares(ls, m))
  {
    hide Sum, Pow2;
    var s := Shares(ls, m);
    SwapSum(s, i, j);
    assert Shares(Swapped(ls, i, j), m) == s[i := s[j]][j := s[i]];
  }

  /** Giving the lighter tree the longer code does not cost more. */
  lemma {:induction false} SwapCost(f: Forest, ls: Lengths, i: nat, j: nat)
    requires |f| == |ls| && i < |f| && j < |f|
    requires Weight(f[i]) <= Weight(f[j]) && ls[i] <= ls[j]
    ensures Sum(Costs(f, Swapped(ls, i, j))) <= Sum(Costs(f, ls))
  {
    hide Sum, Weight, Costs;
    if i == j {
      assert Swapped(ls, i, j) == ls;
    } else {
      var c, a, b := Costs(f, ls), Weight(f[i]) * ls[j], Weight(f[j]) * ls[i];
      SwappedCosts(f, ls, i, j);
      SumUpdate(c, i, a);
      SumUpdate(c[i := a], j, b);
      Crossed(Weight(f[i]), Weight(f[j]), ls[i], ls[j]);
    }
  }

  lemma {:induction false} SwappedCosts(f: Forest, ls: Lengths, i: nat, j: nat)
    requires |f| == |ls| && i < |f| && j < |f| && i != j
    ensures Costs(f, ls)[i] == Weight(f[i]) * ls[i] && Costs(f, ls)[j] == Weight(f[j]) * ls[j]
    ensures Costs(f, Swapped(ls, i, j)) == Costs(f, ls)[i := Weight(f[i]) * ls[j]][j := Weight(f[j]) * ls[i]]
  {
    hide Weight;
  }

  lemma {:induction false} Crossed(v: nat, w: nat, k: nat, l: nat)
    requires v <= w && k <= l
    ensures v * l + w * k <= v * k + w * l
  {
    assert v * k + w * l - v * l - w * k == (w - v) * (l - k);
    Product(w - v, l - k);
  }

  lemma {:induction false} Product(a: int, b: int)
    requires a >= 0 && b >= 0
    ensures a * b >= 0
  {
  }

  function MaxIndex(ls: Lengths): (p: nat)
    requires ls != []
    ensures p < |ls| && forall i :: 0 <= i < |ls| ==> ls[i] <= ls[p]
  {
    if |ls| == 1 then 0
    else
      var n := |ls| - 1;
      var p := MaxIndex(ls[..n]);
      assert forall i :: 0 <= i < n ==> ls[i] == ls[..n][i];
      if ls[n] > ls[p] then n else p
  }

  /** The first lightest tree may as well have the longest code. */
  lemma {:induction false} LongestToLightest(f: Forest, ls: Lengths, m: nat) returns (r: Lengths)
    requires |f| == |ls| >= 1 && Kraft(ls, m)
    ensures |r| == |f| && Kraft(r, m) && Sum(Costs(f, r)) <= Sum(Costs(f, ls))
    ensures forall i :: 0 <= i < |r| ==> r[i] <= r[MinIndex(f)]
    ensures forall c: nat | Within(ls, c) :: Within(r, c)
    ensures Sum(Shares(r, m)) == Sum(Shares(ls, m))
  {
    hide Sum, Weight, MinIndex, Costs, Shares;
    var i, p := MinIndex(f), MaxIndex(ls);
    MinIndexIsFirstMin(f);
    r := Swapped(ls, i, p);
    SwapKeepsKraft(ls, m, i, p);
    SwapCost(f, ls, i, p);
  }

  // ---- Joining ------------------------------------------------------------------------------

  /** Codes no longer than l take the code space in units of 2^(m - l). */
  lemma {:induction false} SharesInUnits(ls: Lengths, m: nat, l: nat) returns (q: nat)
    requires Within(ls, l) && l <= m
    ensures Sum(Shares(ls, m)) == Pow2(m - l) * q
  {
    q := 0;
    if ls != [] {
      var n := |ls| - 1;
      var rest := SharesInUnits(ls[..n], m, l);
      assert Shares(ls, m)[..n] == Shares(ls[..n], m);
      q := rest + Pow2(l - ls[n]);
      assert Shares(ls, m)[n] == Pow2(m - l) * Pow2(l - ls[n]) by {
        Pow2Add(m - l, l - ls[n]);
      }
      Distribute(Pow2(m - l), rest, Pow2(l - ls[n]));
    }
  }

  lemma {:induction false} Distribute(u: nat, a: nat, b: nat)
    ensures u * (a + b) == u * a + u * b
  {
  }

  /** Beside a longest code there is room for another of the second longest length. */
  lemma {:induction false} RoomBesideLongest(ls: Lengths, m: nat, j: nat, longest: nat)
    requires j < |ls| && ls[j] <= longest <= m
    requires forall i :: 0 <= i < |ls| ==> ls[i] <= ls[j]
    requires Within(ls, m)
    requires Pow2(m - longest) + Sum(Shares(ls, m)) <= Pow2(m)
    ensures ls[j] >= 1 && Pow2(m - ls[j]) + Sum(Shares(ls, m)) <= Pow2(m)
  {
    hide Sum, Shares, Pow2;
    var l := ls[j];
    var q := SharesInUnits(ls, m, l);
    var u, space := Pow2(m - l), Pow2(l);
    Pow2Add(m - l, l);
    Pow2Positive(m - longest);
    Pow2Positive(m - l);
    Units(u, q, space, Pow2(m - longest));
    SharesHold(ls, m, j);
    Pow2Zero();
  }

  lemma {:induction false} Units(u: nat, q: nat, space: nat, some: nat)
    requires u > 0 && some > 0 && some + u * q <= u * space
    ensures u + u * q <= u * space
  {
    assert q >= space ==> u * q >= u * space;
    assert u * (q + 1) <= u * space;
  }

  lemma {:induction false} SharesHold(ls: Lengths, m: nat, j: nat)
    requires Within(ls, m) && j < |ls|
    ensures Sum(Shares(ls, m)) >= Pow2(m - ls[j])
    decreases |ls|
  {
    hide Pow2;
    var n := |ls| - 1;
    assert Shares(ls, m)[..n] == Shares(ls[..n], m);
    if j < n {
      SharesHold(ls[..n], m, j);
      Pow2Positive(m - ls[n]);
    } else {
      SharesPositive(ls[..n], m);
    }
  }

  lemma {:induction false} SharesPositive(ls: Lengths, m: nat)
    requires Within(ls, m)
    ensures Sum(Shares(ls, m)) >= 0
  {
    hide Pow2;
    if ls != [] {
      var n := |ls| - 1;
      assert Shares(ls, m)[..n] == Shares(ls[..n], m);
      SharesPositive(ls[..n], m);
      Pow2Positive(m - ls[n]);
    }
  }

  lemma {:induction false} RemoveLength(f: Forest, ls: Lengths, m: nat, r: nat)
    requires |f| == |ls| && r < |ls| && Within(ls, m)
    ensures Within(Remove(ls, r), m)
    ensures Sum(Shares(ls, m)) == Pow2(m - ls[r]) + Sum(Shares(Remove(ls, r), m))
    ensures Sum(Costs(f, ls)) == Weight(f[r]) * ls[r] + Sum(Costs(Remove(f, r), Remove(ls, r)))
  {
    hide Sum, Pow2, Weight;
    SumRemove(Shares(ls, m), r);
    assert Shares(Remove(ls, r), m) == Remove(Shares(ls, m), r);
    SumRemove(Costs(f, ls), r);
    assert Costs(Remove(f, r), Remove(ls, r)) == Remove(Costs(f, ls), r);
  }

  lemma {:induction false} AppendLength(f: Forest, ls: Lengths, m: nat, t: Tree, l: nat)
    requires |f| == |ls| && Within(ls, m) && l <= m
    ensures Within(ls + [l], m)
    ensures Sum(Shares(ls + [l], m)) == Sum(Shares(ls, m)) + Pow2(m - l)
    ensures Sum(Costs(f + [t], ls + [l])) == Sum(Costs(f, ls)) + Weight(t) * l
  {
    hide Pow2, Weight;
    assert Shares(ls + [l], m)[..|ls|] == Shares(ls, m);
    assert Costs(f + [t], ls + [l])[..|ls|] == Costs(f, ls);
  }

  /** Lengths for a forest give lengths for the merged one that save the joined weight. */
  lemma {:induction false} MergedLengths(f: Forest, ls: Lengths, m: nat) returns (r: Lengths)
    requires |f| == |ls| >= 2 && Kraft(ls, m)
    ensures |r| == |f| - 1 && Kraft(r, m)
    ensures Sum(Costs(Merge(f), r)) + Weight(Node(First(f), Second(f))) <= Sum(Costs(f, ls))
  {
    hide Sum, Weight, MinIndex, Costs, Shares, Pow2;
    var i, g := MinIndex(f), Others(f);
    var a := LongestToLightest(f, ls, m);
    RemoveLength(f, a, m, i);
    Pow2Positive(m - a[i]);
    var b := LongestToLightest(g, Remove(a, i), m);
    var j := MinIndex(g);
    assert Within(Remove(a, i), a[i]);
    RoomBesideLongest(b, m, j, a[i]);
    RemoveLength(g, b, m, j);
    var l := b[j] - 1;
    AppendLength(Rest(f), Remove(b, j), m, Node(First(f), Second(f)), l);
    r := Remove(b, j) + [l];
    assert Pow2(m - l) == 2 * Pow2(m - b[j]) by {
      Pow2Next(m - b[j]);
    }
    Saves(Weight(First(f)), Weight(Second(f)), a[i], b[j]);
    JoinedWeight(First(f), Second(f));
  }

  lemma {:induction false} JoinedWeight(a: Tree, b: Tree)
    ensures Weight(Node(a, b)) == Weight(a) + Weight(b)
  {
  }

  lemma {:induction false} Saves(u: nat, v: nat, long: nat, l: nat)
    requires 1 <= l <= long
    ensures (u + v) * (l - 1) + u + v <= u * long + v * l
  {
    assert u * l <= u * long;
    assert (u + v) * (l - 1) == u * l + v * l - u - v;
  }

  // ---- The cost of the Huffman tree -----------------------------------------------------------

  /** The sum over the leaves of weight times depth. */
  function PathLength(t: Tree): nat {
    match t
    case Leaf(_, _) => 0
    case Node(l, r) => PathLength(l) + PathLength(r) + Weight(l) + Weight(r)
  }

  function PathLengths(f: Forest): (p: seq<int>)
    ensures |p| == |f|
  {
    seq(|f|, i requires 0 <= i < |f| => PathLength(f[i]))
  }

  /** No lengths that obey the Kraft inequality cost less than the Huffman tree. */
  lemma {:induction false} BuildIsOptimal(f: Forest, ls: Lengths, m: nat)
    requires |f| == |ls| >= 1 && Kraft(ls, m)
    ensures PathLength(Build(f)) <= Sum(PathLengths(f)) + Sum(Costs(f, ls))
    decreases |f|
  {
    hide Weight, MinIndex, PathLength, Pow2;
    if |f| == 1 {
      SingleTree(f, ls);
    } else {
      hide Sum;
      var r := MergedLengths(f, ls, m);
      BuildIsOptimal(Merge(f), r, m);
      MergedPaths(f);
    }
  }

  lemma {:induction false} SingleTree(f: Forest, ls: Lengths)
    requires |f| == |ls| == 1
    ensures Sum(PathLengths(f)) == PathLength(f[0])
    ensures Sum(Costs(f, ls)) >= 0
  {
    assert PathLengths(f)[..0] == [] && Costs(f, ls)[..0] == [];
  }

  lemma {:induction false} MergedPaths(f: Forest)
    requires |f| >= 2
    ensures Sum(PathLengths(Merge(f))) == Sum(PathLengths(f)) + Weight(Node(First(f), Second(f)))
  {
    hide Sum, MinIndex;
    var i, g := MinIndex(f), Others(f);
    var j := MinIndex(g);
    var p := PathLengths(f);
    SumRemove(p, i);
    assert PathLengths(g) == Remove(p, i);
    SumRemove(PathLengths(g), j);
    assert PathLengths(Rest(f)) == Remove(PathLengths(g), j);
    SumAppend(PathLengths(Rest(f)), PathLength(Node(First(f), Second(f))));
    assert PathLengths(Merge(f)) == PathLengths(Rest(f)) + [PathLength(Node(First(f), Second(f)))];
  }

  lemma {:induction false} SumAppend(s: seq<int>, x: int)
    ensures Sum(s + [x]) == Sum(s) + x
  {
    assert (s + [x])[..|s|] == s;
  }
}
