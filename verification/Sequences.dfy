/** Sequences and finite sets. */
module Sequences {

  ghost predicate Distinct<T>(s: seq<T>) {
    forall i, j :: 0 <= i < j < |s| ==> s[i] != s[j]
  }

  ghost function Members(s: seq<nat>): set<nat> {
    set i | i in s
  }

  lemma {:induction false} MembersSize(s: seq<nat>)
    ensures |Members(s)| <= |s|
  {
    if s != [] {
      var l := |s| - 1;
      MembersSize(s[..l]);
      assert Members(s) == Members(s[..l]) + {s[l]};
    }
  }

  function Remove<T>(s: seq<T>, r: nat): seq<T>
    requires r < |s|
  {
    s[..r] + s[r + 1..]
  }

  /** Removes an element by moving the last one into its place. */
  function SwapRemove<T>(s: seq<T>, r: nat): (t: seq<T>)
    requires r < |s|
    ensures |t| == |s| - 1
  {
    s[r := s[|s| - 1]][..|s| - 1]
  }

  lemma {:induction false} SwapRemoveDistinct<T>(s: seq<T>, r: nat)
    requires r < |s| && Distinct(s)
    ensures Distinct(SwapRemove(s, r))
  {
  }

  lemma {:induction false} SwapRemoveMembers<T>(s: seq<T>, r: nat)
    requires r < |s| && Distinct(s)
    ensures (set x | x in SwapRemove(s, r)) == (set x | x in s) - {s[r]}
  {
    var t, l := SwapRemove(s, r), |s| - 1;
    forall x | x in s && x != s[r]
      ensures x in t
    {
      var i :| 0 <= i < |s| && s[i] == x;
      assert x == t[if i == l then r else i];
    }
    forall x | x in t
      ensures x in s && x != s[r]
    {
      var i :| 0 <= i < |t| && t[i] == x;
      assert x == s[if i == r then l else i];
    }
  }

  lemma {:induction false} SubsetOfSameSize<T>(a: set<T>, b: set<T>)
    requires a <= b && |a| == |b|
    ensures a == b
  {
    if b - a != {} {
      var x :| x in b - a;
      assert a <= b - {x};
      SubsetSize(a, b - {x});
    } else {
      assert b <= a;
    }
  }

  lemma {:induction false} SubsetSize<T>(a: set<T>, b: set<T>)
    requires a <= b
    ensures |a| <= |b|
  {
    if a != {} {
      var x :| x in a;
      SubsetSize(a - {x}, b - {x});
    }
  }

  ghost function Range(n: nat): (r: set<nat>)
    ensures |r| == n && forall s: nat :: s in r <==> s < n
  {
    if n == 0 then {} else Range(n - 1) + {n - 1}
  }
}
