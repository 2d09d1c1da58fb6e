/**
The rule by which sender and receiver derive the blocks of a repair drop from its sequence
number (`Karusel::composition`), including the rejection sampling, which always ends.
*/
module Sampling {
  import opened Sequences
  import opened LcRng
  import opened PowersOfTwo
  import opened Arithmetic

  // ---- The wait for a fresh index ---------------------------------------------------------

  ghost predicate Fresh(s: nat, k: nat, chosen: seq<nat>, n: nat)
    requires k > 0
  {
    n >= 1 && Output(Run(s, n)) % k !in chosen
  }

  lemma {:induction false} SomeIndexIsUnused(chosen: seq<nat>, k: nat) returns (i: nat)
    requires |chosen| < k
    ensures i < k && i !in chosen
  {
    MembersSize(chosen);
    if Range(k) <= Members(chosen) {
      SubsetSize(Range(k), Members(chosen));
    }
    i :| i in Range(k) && i !in Members(chosen);
  }

  lemma {:induction false} SomeDrawIsFresh(s: nat, k: nat, chosen: seq<nat>) returns (n: nat)
    requires s < TWO_64 && |chosen| < k <= TWO_64
    ensures Fresh(s, k, chosen, n)
  {
    hide Output, Run;
    var i := SomeIndexIsUnused(chosen, k);
    n := EveryOutputIsDrawn(s, i);
    QuotientIs(i, k, 0, i);
  }

  ghost function FirstFresh(s: nat, k: nat, chosen: seq<nat>, m: nat, bound: nat): (n: nat)
    requires k > 0 && 1 <= m <= bound && Fresh(s, k, chosen, bound)
    ensures m <= n <= bound && Fresh(s, k, chosen, n)
    ensures forall i :: m <= i < n ==> !Fresh(s, k, chosen, i)
    decreases bound - m
  {
    if Fresh(s, k, chosen, m) then m else FirstFresh(s, k, chosen, m + 1, bound)
  }

  ghost predicate CanSample(s: nat, k: nat, chosen: seq<nat>) {
    s < TWO_64 && |chosen| < k <= TWO_64
  }

  /** How many draws until the next fresh index. */
  ghost function Wait(s: nat, k: nat, chosen: seq<nat>): (n: nat)
    requires CanSample(s, k, chosen)
    ensures Fresh(s, k, chosen, n)
    ensures forall i :: 1 <= i < n ==> !Fresh(s, k, chosen, i)
  {
    assert exists n :: Fresh(s, k, chosen, n) by {
      var n := SomeDrawIsFresh(s, k, chosen);
    }
    var bound :| Fresh(s, k, chosen, bound);
    FirstFresh(s, k, chosen, 1, bound)
  }

  /** A stale draw brings the next fresh index one draw closer. */
  lemma {:induction false} WaitShrinks(s: nat, k: nat, chosen: seq<nat>)
    requires CanSample(s, k, chosen) && Output(Next(s)) % k in chosen
    ensures CanSample(Next(s), k, chosen) && Wait(Next(s), k, chosen) < Wait(s, k, chosen)
  {
    hide Output;
    var n := Wait(s, k, chosen);
    assert Run(s, 1) == Next(s) by { assert Run(s, 0) == s; }
    assert n != 1;
    RunFromNext(s, n - 1);
    assert Fresh(Next(s), k, chosen, n - 1);
  }

  // ---- Sampling ----------------------------------------------------------------------------------

  /** The indices drawn until there are d of them, repeats rejected. */
  ghost function Sample(s: nat, k: nat, d: nat, chosen: seq<nat>): seq<nat>
    requires s < TWO_64 && |chosen| <= d <= k <= TWO_64
    decreases d - |chosen|, if |chosen| < d then Wait(s, k, chosen) else 0
  {
    if |chosen| == d then chosen
    else
      var i := Output(Next(s)) % k;
      if i in chosen then
        WaitShrinks(s, k, chosen);
        Sample(Next(s), k, d, chosen)
      else Sample(Next(s), k, d, chosen + [i])
  }

  ghost predicate Picks(chosen: seq<nat>, k: nat) {
    Distinct(chosen) && forall a :: 0 <= a < |chosen| ==> chosen[a] < k
  }

  lemma {:induction false} SamplePicks(s: nat, k: nat, d: nat, chosen: seq<nat>)
    requires s < TWO_64 && |chosen| <= d <= k <= TWO_64 && Picks(chosen, k)
    ensures Picks(Sample(s, k, d, chosen), k) && |Sample(s, k, d, chosen)| == d
    decreases d - |chosen|, if |chosen| < d then Wait(s, k, chosen) else 0
  {
    hide Output, Next, Wait;
    if |chosen| < d {
      NextBound(s);
      var i := Output(Next(s)) % k;
      if i in chosen {
        WaitShrinks(s, k, chosen);
        SamplePicks(Next(s), k, d, chosen);
      } else {
        SamplePicks(Next(s), k, d, chosen + [i]);
      }
    }
  }

  // ---- The composition rule -------------------------------------------------------------------------

  const GOLDEN := 0x9E37_79B9_7F4A_7C15

  function Seed(seqno: nat): nat {
    (GOLDEN * seqno + 1) % TWO_64
  }

  function Min(a: nat, b: nat): nat { if a < b then a else b }

  function Max(a: nat, b: nat): nat { if a < b then b else a }

  function MinDegree(k: nat): nat { Min(2, k) }

  /** k - 1 clamped between the least degree and 24. */
  function MaxDegree(k: nat): nat {
    Max(Min(Max(if k == 0 then 0 else k - 1, MinDegree(k)), 24), MinDegree(k))
  }

  function Degree(k: nat, s: nat): (d: nat)
    ensures d <= k && (k > 0 ==> d > 0)
  {
    MinDegree(k) + Output(s) % (MaxDegree(k) - MinDegree(k) + 1)
  }

  /** The indices of a set below n, ascending. */
  function Ascending(s: set<nat>, n: nat): seq<nat> {
    if n == 0 then [] else Ascending(s, n - 1) + if n - 1 in s then [n - 1] else []
  }

  lemma {:induction false} AscendingPicks(s: set<nat>, n: nat)
    ensures Picks(Ascending(s, n), n)
    ensures forall a, b :: 0 <= a < b < |Ascending(s, n)| ==> Ascending(s, n)[a] < Ascending(s, n)[b]
    ensures forall i: nat :: i in Ascending(s, n) <==> i in s && i < n
  {
    if n > 0 {
      AscendingPicks(s, n - 1);
    }
  }

  /** The blocks of repair drop `seqno`, in ascending order. */
  ghost function Composition(k: nat, seqno: nat): seq<nat>
    requires k <= TWO_64
  {
    var s := Next(Seed(seqno));
    Ascending(Members(Sample(s, k, Degree(k, s), [])), k)
  }

  lemma {:induction false} CompositionPicks(k: nat, seqno: nat)
    requires k <= TWO_64
    ensures Picks(Composition(k, seqno), k)
    ensures k > 0 ==> Composition(k, seqno) != []
  {
    hide Output, Next, Degree, Sample;
    var s := Next(Seed(seqno));
    NextBound(Seed(seqno));
    var d := Degree(k, s);
    SamplePicks(s, k, d, []);
    var drawn := Sample(s, k, d, []);
    MembersSize(drawn);
    AscendingPicks(Members(drawn), k);
    if k > 0 {
      assert drawn[0] in drawn;
      assert drawn[0] in Ascending(Members(drawn), k);
    }
  }

  /** Compositions with the same blocks are the same list. */
  lemma {:induction false} CompositionByMembers(k: nat, m: nat, n: nat)
    requires k <= TWO_64 && Members(Composition(k, m)) == Members(Composition(k, n))
    ensures Composition(k, m) == Composition(k, n)
  {
    hide Composition;
    CompositionIsAscending(k, m);
    CompositionIsAscending(k, n);
  }

  lemma {:induction false} CompositionIsAscending(k: nat, n: nat)
    requires k <= TWO_64
    ensures Composition(k, n) == Ascending(Members(Composition(k, n)), k)
  {
    hide Output, Next, Degree, Sample, Ascending;
    var s := Next(Seed(n));
    NextBound(Seed(n));
    var drawn := Members(Sample(s, k, Degree(k, s), []));
    SamplePicks(s, k, Degree(k, s), []);
    AscendingPicks(drawn, k);
    assert Members(Ascending(drawn, k)) == drawn;
  }

  // ---- How many blocks a drop combines ---------------------------------------------------------

  lemma {:induction false} DistinctMembers(s: seq<nat>)
    requires Distinct(s)
    ensures |Members(s)| == |s|
  {
    if s != [] {
      var l := |s| - 1;
      DistinctMembers(s[..l]);
      assert Members(s) == Members(s[..l]) + {s[l]};
      assert s[l] !in s[..l];
    }
  }

  lemma {:induction false} CompositionHasDegree(k: nat, seqno: nat)
    requires k <= TWO_64
    ensures |Composition(k, seqno)| == Degree(k, Next(Seed(seqno)))
  {
    hide Output, Next, Degree, Sample, Ascending;
    var s := Next(Seed(seqno));
    NextBound(Seed(seqno));
    SamplePicks(s, k, Degree(k, s), []);
    var drawn := Sample(s, k, Degree(k, s), []);
    AscendingPicks(Members(drawn), k);
    DistinctMembers(drawn);
    DistinctMembers(Ascending(Members(drawn), k));
    assert Members(Ascending(Members(drawn), k)) == Members(drawn);
  }

  /** One or two blocks are all combined; of more, at least two, at most 24 and never all. */
  lemma {:induction false} CompositionSize(k: nat, seqno: nat)
    requires k <= TWO_64
    ensures k <= 2 ==> |Composition(k, seqno)| == k
    ensures k > 2 ==> 2 <= |Composition(k, seqno)| <= k - 1 && |Composition(k, seqno)| <= 24
  {
    hide Output, Next, Composition;
    CompositionHasDegree(k, seqno);
  }

  /** The inverse of the golden factor modulo 2^64. */
  const UNGOLDEN := 17428512612931826493

  lemma {:induction false} SeedOf(t: nat) returns (n: nat)
    requires t < TWO_64
    ensures n < TWO_64 && Seed(n) == t
  {
    var i := if t == 0 then TWO_64 - 1 else t - 1;
    n := i * UNGOLDEN % TWO_64;
    var q := i * UNGOLDEN / TWO_64;
    assert UNGOLDEN * GOLDEN == 1 + TWO_64 * 10771413168148108919;
    var m := i * 10771413168148108919 - q * GOLDEN;
    calc {
      GOLDEN * n;
      (i * UNGOLDEN - TWO_64 * q) * GOLDEN;
      i * (UNGOLDEN * GOLDEN) - TWO_64 * (q * GOLDEN);
      i + TWO_64 * m;
    }
    RemainderIs(GOLDEN * n + 1, t, if t == 0 then m + 1 else m);
  }

  /** Each of these sizes is drawn for some 64-bit number. */
  lemma {:induction false} EverySizeIsDrawn(k: nat, d: nat) returns (n: nat)
    requires 2 < k <= TWO_64 && 2 <= d <= k - 1 && d <= 24
    ensures n < TWO_64 && |Composition(k, n)| == d
  {
    hide Output, Next, Composition, Seed;
    var u := StateOf(d - 2);
    var t := StateBefore(u);
    n := SeedOf(t);
    CompositionHasDegree(k, n);
    QuotientIs(d - 2, MaxDegree(k) - 1, 0, d - 2);
  }

  lemma {:induction false} NextBound(s: nat)
    ensures Next(s) < TWO_64
  {
  }

  /** The sampling loop, as both ends run it. */
  method Draw(k: nat, seqno: nat) returns (r: seq<nat>)
    requires k < TWO_64
    ensures r == Composition(k, seqno)
  {
    hide Output, Next, Wait, Degree;
    var s: nat := Next(Seed(seqno));
    NextBound(Seed(seqno));
    var d: nat := Degree(k, s);
    ghost var drawn := Sample(s, k, d, []);
    var chosen: seq<nat> := [];
    while |chosen| < d
      invariant s < TWO_64 && |chosen| <= d
      invariant Sample(s, k, d, chosen) == drawn
      decreases d - |chosen|, if |chosen| < d then Wait(s, k, chosen) else 0
    {
      var i := Output(Next(s)) % k;
      if i in chosen {
        WaitShrinks(s, k, chosen);
      }
      NextBound(s);
      s := Next(s);
      if i !in chosen {
        chosen := chosen + [i];
      }
    }
    MembersSize(chosen);
    var found := set i | i in chosen;
    assert found == Members(chosen);
    r := Ascending(found, k);
  }
}
