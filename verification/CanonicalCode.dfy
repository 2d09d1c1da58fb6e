/**
The canonical prefix code of given code lengths: codes are numbered by (length, symbol), as in
DEFLATE. The codes of one length follow on from those of all shorter lengths.
*/
module CanonicalCode {
  import opened PowersOfTwo
  import opened BitStrings
  import opened HuffmanTree
  import opened HuffmanLengths

  /** How many symbols have length l. */
  function Count(lens: seq<nat>, l: nat): (c: nat)
    ensures c <= |lens|
  {
    if lens == [] then 0
    else Count(lens[..|lens| - 1], l) + (if lens[|lens| - 1] == l then 1 else 0)
  }

  /** How many smaller symbols have the length of s. */
  function Rank(lens: seq<nat>, s: nat): nat
    requires s < |lens|
  {
    Count(lens[..s], lens[s])
  }

  /** The first number of l bits beyond all codes of up to l bits. */
  function End(lens: seq<nat>, l: nat): nat {
    if l == 0 then 0 else 2 * End(lens, l - 1) + Count(lens, l)
  }

  function FirstCode(lens: seq<nat>, l: nat): nat
    requires l > 0
  {
    2 * End(lens, l - 1)
  }

  function Code(lens: seq<nat>, s: nat): nat
    requires s < |lens| && lens[s] > 0
  {
    FirstCode(lens, lens[s]) + Rank(lens, s)
  }

  function CodeBits(lens: seq<nat>, s: nat): (b: seq<bit>)
    requires s < |lens| && lens[s] > 0
    ensures |b| == lens[s]
  {
    Bits(Code(lens, s), lens[s])
  }

  // ---- Symbols of one length -----------------------------------------------------------------

  function OfLength(lens: seq<nat>, l: nat): (syms: seq<nat>)
    ensures |syms| == Count(lens, l)
    ensures forall k :: 0 <= k < |syms| ==> syms[k] < |lens| && lens[syms[k]] == l
  {
    if lens == [] then []
    else
      var n := |lens| - 1;
      OfLength(lens[..n], l) + (if lens[n] == l then [n] else [])
  }

  lemma {:induction false} CountPrefix(lens: seq<nat>, l: nat, n: nat)
    requires n <= |lens|
    ensures Count(lens[..n], l) <= Count(lens, l)
    ensures n < |lens| && lens[n] == l ==> Count(lens[..n], l) < Count(lens, l)
  {
    if n < |lens| {
      var m := |lens| - 1;
      if n < m {
        CountPrefix(lens[..m], l, n);
        assert lens[..m][..n] == lens[..n];
      }
    } else {
      assert lens[..n] == lens;
    }
  }

  /** The symbols of a length are listed by rank. */
  lemma {:induction false} OfLengthByRank(lens: seq<nat>, l: nat)
    ensures forall k :: 0 <= k < |OfLength(lens, l)| ==> Rank(lens, OfLength(lens, l)[k]) == k
    ensures forall s :: 0 <= s < |lens| && lens[s] == l ==>
      Rank(lens, s) < |OfLength(lens, l)| && OfLength(lens, l)[Rank(lens, s)] == s
  {
    if lens != [] {
      var n := |lens| - 1;
      OfLengthByRank(lens[..n], l);
      forall s | 0 <= s < n
        ensures lens[..n][..s] == lens[..s] && lens[..n][s] == lens[s]
      {
      }
      var before, syms := OfLength(lens[..n], l), OfLength(lens, l);
      forall k | 0 <= k < |syms|
        ensures Rank(lens, syms[k]) == k
      {
        if k < |before| {
          assert syms[k] == before[k];
          assert Rank(lens[..n], before[k]) == k;
        }
      }
      forall s | 0 <= s < |lens| && lens[s] == l
        ensures Rank(lens, s) < |syms| && syms[Rank(lens, s)] == s
      {
        if s < n {
          assert lens[..n][s] == l;
          assert Rank(lens[..n], s) == Rank(lens, s);
        }
      }
    }
  }

  // ---- The Kraft inequality gives every code its room ------------------------------------------

  ghost predicate Fits(lens: seq<nat>, m: nat) {
    && (forall s :: 0 <= s < |lens| ==> lens[s] <= m)
    && Sum(Terms(lens, Share(m))) <= Pow2(m)
  }

  lemma {:induction false} EndAppend(lens: seq<nat>, l: nat, m: nat)
    ensures End(lens + [l], m) == End(lens, m) + (if 0 < l <= m then Pow2(m - l) else 0)
  {
    if m > 0 {
      EndAppend(lens, l, m - 1);
      assert (lens + [l])[..|lens|] == lens;
    }
  }

  lemma {:induction false} EndIsKraftSum(lens: seq<nat>, m: nat)
    requires forall s :: 0 <= s < |lens| ==> lens[s] <= m
    ensures End(lens, m) == Sum(Terms(lens, Share(m)))
  {
    hide Pow2;
    if lens == [] {
      EndOfNothing(m);
    } else {
      var n := |lens| - 1;
      EndIsKraftSum(lens[..n], m);
      assert lens == lens[..n] + [lens[n]];
      EndAppend(lens[..n], lens[n], m);
      assert Terms(lens, Share(m))[..n] == Terms(lens[..n], Share(m));
    }
  }

  lemma {:induction false} EndOfNothing(m: nat)
    ensures End([], m) == 0
  {
    if m > 0 {
      EndOfNothing(m - 1);
    }
  }

  lemma {:induction false} EndFits(lens: seq<nat>, l: nat, m: nat)
    requires Fits(lens, m) && l <= m
    ensures End(lens, l) <= Pow2(l)
    decreases m - l
  {
    EndGrows(lens, l, m);
    EndIsKraftSum(lens, m);
    Pow2Add(l, m - l);
    Pow2Positive(m - l);
    AtMost(End(lens, l), Pow2(l), Pow2(m - l));
  }

  lemma {:induction false} AtMost(x: nat, y: nat, u: nat)
    requires u > 0 && x * u <= y * u
    ensures x <= y
  {
    assert x > y ==> x * u >= (y + 1) * u;
  }

  lemma {:induction false} EndGrows(lens: seq<nat>, l: nat, m: nat)
    requires l <= m
    ensures End(lens, l) * Pow2(m - l) <= End(lens, m)
    decreases m - l
  {
    hide Count, Pow2, End;
    if l < m {
      EndGrows(lens, l, m - 1);
      Doubled(End(lens, l), Pow2(m - 1 - l));
      Pow2Next(m - 1 - l);
      EndStep(lens, m);
    } else {
      Pow2Zero();
    }
  }

  lemma {:induction false} CodeRange(lens: seq<nat>, s: nat)
    requires s < |lens| && lens[s] > 0
    ensures FirstCode(lens, lens[s]) <= Code(lens, s) < End(lens, lens[s])
  {
    CountPrefix(lens, lens[s], s);
  }

  /** Every code is a number of as many bits as its length. */
  lemma {:induction false} CodeValue(lens: seq<nat>, s: nat, m: nat)
    requires Fits(lens, m) && s < |lens| && lens[s] > 0
    ensures Value(CodeBits(lens, s)) == Code(lens, s)
  {
    CodeRange(lens, s);
    EndFits(lens, lens[s], m);
    ValueOfBits(Code(lens, s), lens[s]);
  }

  // ---- No code begins another --------------------------------------------------------------------

  /** A proper beginning of a code lies beyond all codes of its own length. */
  lemma {:induction false} BeginningIsNoCode(lens: seq<nat>, s: nat, m: nat, j: nat)
    requires Fits(lens, m) && s < |lens| && j < lens[s]
    ensures Value(CodeBits(lens, s)[..j]) >= End(lens, j)
    decreases lens[s] - j
  {
    var b := CodeBits(lens, s);
    assert b[..j + 1][..j] == b[..j];
    if j + 1 == lens[s] {
      CodeValue(lens, s, m);
      CodeRange(lens, s);
      assert b[..j + 1] == b;
    } else {
      BeginningIsNoCode(lens, s, m, j + 1);
    }
  }

  lemma {:induction false} PrefixFree(lens: seq<nat>, m: nat, s: nat, t: nat)
    requires Fits(lens, m) && s < |lens| && t < |lens| && lens[s] > 0 && lens[t] > 0
    requires CodeBits(lens, s) <= CodeBits(lens, t)
    ensures s == t
  {
    hide Bits, Value, Code, Fits, End, Rank;
    CodeValue(lens, s, m);
    CodeRange(lens, s);
    assert lens[s] < lens[t] ==> CodeBits(lens, t)[..lens[s]] == CodeBits(lens, s);
    if lens[s] < lens[t] {
      BeginningIsNoCode(lens, t, m, lens[s]);
    } else {
      assert CodeBits(lens, t) == CodeBits(lens, s);
      CodeValue(lens, t, m);
      SameCode(lens, s, t);
    }
  }

  lemma {:induction false} SameCode(lens: seq<nat>, s: nat, t: nat)
    requires s < |lens| && t < |lens| && lens[s] == lens[t] > 0 && Code(lens, s) == Code(lens, t)
    ensures s == t
  {
    OfLengthByRank(lens, lens[s]);
  }

  // ---- Numbering the codes in order ----------------------------------------------------------------

  /** The symbols of lengths 1 to l, by (length, symbol). */
  function ByLength(lens: seq<nat>, l: nat): (order: seq<nat>)
    ensures forall k :: 0 <= k < |order| ==> order[k] < |lens| && 0 < lens[order[k]] <= l
  {
    if l == 0 then [] else ByLength(lens, l - 1) + OfLength(lens, l)
  }

  lemma {:induction false} ByLengthComplete(lens: seq<nat>, l: nat, s: nat)
    requires s < |lens| && 0 < lens[s] <= l
    ensures s in ByLength(lens, l)
  {
    hide OfLength, Count, Rank;
    if lens[s] == l {
      OfLengthByRank(lens, l);
      assert OfLength(lens, l)[Rank(lens, s)] in OfLength(lens, l);
    } else {
      ByLengthComplete(lens, l - 1, s);
    }
  }

  ghost predicate EndsAfterLast(lens: seq<nat>, l: nat) {
    var syms := ByLength(lens, l);
    if syms == [] then End(lens, l) == 0
    else var last := syms[|syms| - 1]; (Code(lens, last) + 1) * Pow2(l - lens[last]) == End(lens, l)
  }

  /** One more than the last code so far, filled up to l bits, is where the next codes begin. */
  lemma {:induction false} LastCode(lens: seq<nat>, l: nat)
    ensures EndsAfterLast(lens, l)
  {
    hide Count, OfLength, Pow2, Rank, End, FirstCode, Code;
    EndStep(lens, l);
    if l > 0 {
      if OfLength(lens, l) == [] {
        LastCode(lens, l - 1);
        LastCodeShorter(lens, l);
      } else {
        LastCodeHere(lens, l);
      }
    }
  }

  /** The case without a code of l bits. */
  lemma {:induction false} LastCodeShorter(lens: seq<nat>, l: nat)
    requires l > 0 && OfLength(lens, l) == [] && EndsAfterLast(lens, l - 1)
    ensures EndsAfterLast(lens, l)
  {
    hide Count, OfLength, Pow2, End, Code, ByLength;
    NoneOfLength(lens, l);
    var syms := ByLength(lens, l - 1);
    if syms != [] {
      var last := syms[|syms| - 1];
      var d := l - 1 - lens[last];
      Pow2Next(d);
      Doubled(Code(lens, last) + 1, Pow2(d));
    }
  }

  lemma {:induction false} NoneOfLength(lens: seq<nat>, l: nat)
    requires l > 0 && OfLength(lens, l) == []
    ensures ByLength(lens, l) == ByLength(lens, l - 1) && End(lens, l) == 2 * End(lens, l - 1)
  {
    hide Count, OfLength, End, FirstCode;
    EndStep(lens, l);
    assert |OfLength(lens, l)| == Count(lens, l);
  }

  /** The case with one: the last of them is the last of all. */
  lemma {:induction false} LastCodeHere(lens: seq<nat>, l: nat)
    requires l > 0 && OfLength(lens, l) != []
    ensures EndsAfterLast(lens, l)
  {
    hide Count, OfLength, Pow2, Rank, End, FirstCode;
    var syms := OfLength(lens, l);
    EndStep(lens, l);
    OfLengthByRank(lens, l);
    assert Rank(lens, syms[|syms| - 1]) == |syms| - 1;
    assert ByLength(lens, l)[|ByLength(lens, l)| - 1] == syms[|syms| - 1];
    Pow2Zero();
  }

  lemma {:induction false} EndStep(lens: seq<nat>, l: nat)
    ensures l > 0 ==> FirstCode(lens, l) == 2 * End(lens, l - 1)
    ensures End(lens, l) == if l == 0 then 0 else FirstCode(lens, l) + Count(lens, l)
  {
  }

  ghost predicate Follows(lens: seq<nat>, s: nat, t: nat) {
    && s < |lens| && t < |lens| && 0 < lens[s] <= lens[t]
    && Code(lens, t) == (Code(lens, s) + 1) * Pow2(lens[t] - lens[s])
  }

  lemma {:induction false} FollowsInLength(lens: seq<nat>, l: nat, r: nat)
    requires l > 0 && 0 < r < Count(lens, l)
    ensures Follows(lens, OfLength(lens, l)[r - 1], OfLength(lens, l)[r])
  {
    hide Count, OfLength, Pow2, Rank, End, FirstCode;
    OfLengthByRank(lens, l);
    Pow2Zero();
    var s, t := OfLength(lens, l)[r - 1], OfLength(lens, l)[r];
    assert Rank(lens, s) == r - 1 && Rank(lens, t) == r;
  }

  lemma {:induction false} FollowsShorter(lens: seq<nat>, l: nat, t: nat)
    requires l > 0 && t < |lens| && lens[t] == l && Rank(lens, t) == 0
    ensures var before := ByLength(lens, l - 1);
      if before == [] then Code(lens, t) == 0 else Follows(lens, before[|before| - 1], t)
  {
    hide Count, OfLength, Pow2, Rank, End, ByLength;
    LastCode(lens, l - 1);
    var before := ByLength(lens, l - 1);
    if before != [] {
      var s := before[|before| - 1];
      Doubled(Code(lens, s) + 1, Pow2(l - 1 - lens[s]));
      Pow2Next(l - 1 - lens[s]);
    }
  }

  /** Each code is the one before, plus one, shifted by the difference of the lengths. */
  lemma {:induction false} NextCode(lens: seq<nat>, m: nat, k: nat)
    requires k < |ByLength(lens, m)|
    ensures k == 0 ==> Code(lens, ByLength(lens, m)[0]) == 0
    ensures k > 0 ==> Follows(lens, ByLength(lens, m)[k - 1], ByLength(lens, m)[k])
  {
    hide Count, OfLength, Follows, Rank, Code;
    var before, syms := ByLength(lens, m - 1), OfLength(lens, m);
    assert ByLength(lens, m) == before + syms;
    hide ByLength;
    if k < |before| {
      NextCode(lens, m - 1, k);
    } else {
      var r := k - |before|;
      OfLengthByRank(lens, m);
      assert Rank(lens, syms[r]) == r;
      if r > 0 {
        FollowsInLength(lens, m, r);
      } else {
        FollowsShorter(lens, m, syms[r]);
      }
    }
  }
}
