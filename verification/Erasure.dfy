/**
`CauchyMds`: a systematic erasure code with k data and p parity shards. Any k shards
restore the data.
*/
module Erasure {
  import opened Bytes
  import opened Sequences
  import opened Wrappers
  import opened Gf256
  import opened Gf256Log
  import opened Gf8Tables
  import opened LinearAlgebra
  import opened Cauchy
  import GaussJordan

  const MAX_SHARDS := 256
  const MAX_SHARD_BYTES := 64 * 1024 * 1024

  // ---- Coefficients --------------------------------------------------------------

  /** The nodes x_i = i and y_j = k + j, cut to a byte. */
  function X(i: nat): byte { i % 256 }

  function Y(k: nat, j: nat): byte { (k + j) % 256 }

  ghost function Coefficient(k: nat, i: nat, j: nat): byte {
    if X(i) == Y(k, j) then 0 else Recip(X(i), Y(k, j))
  }

  /** What shard `index` is made of: a data shard of itself, a parity shard of all
      data shards weighted by a row of the Cauchy matrix. */
  ghost function Row(k: nat, index: nat): (r: Vec)
    ensures |r| == k
  {
    if index < k then Unit(k, index)
    else seq(k, j requires 0 <= j < k => Coefficient(k, index - k, j))
  }

  ghost predicate IsData(data: seq<Vec>, k: nat, n: nat) {
    |data| == k && IsMatrix(data, n)
  }

  ghost function Shard(k: nat, index: nat, data: seq<Vec>, n: nat): (s: Vec)
    requires IsData(data, k, n)
    ensures |s| == n
  {
    Comb(Row(k, index), data, n)
  }

  /** A parity node, and all parity nodes, meet no data node. */
  ghost predicate RowApart(k: nat, i: nat) {
    forall j :: 0 <= j < k ==> X(i) != Y(k, j)
  }

  ghost predicate NodesApart(k: nat, p: nat) {
    forall i :: 0 <= i < p ==> RowApart(k, i)
  }

  /** The nodes stay apart exactly when there are no more parity than data shards and
      k + j does not wrap around for any j < k. */
  lemma {:induction false} NodesApartIff(k: nat, p: nat)
    requires 0 < k && 0 < p && k + p < MAX_SHARDS
    ensures NodesApart(k, p) <==> p <= k <= 128
  {
    if k > 128 {
      assert Y(k, 256 - k) == 0 == X(0);
      assert !RowApart(k, 0);
    } else if p > k {
      assert X(k) == k == Y(k, 0);
      assert !RowApart(k, k);
    } else {
      forall i | 0 <= i < p
        ensures RowApart(k, i)
      {
        assert X(i) == i;
        assert forall j :: 0 <= j < k ==> Y(k, j) == k + j;
      }
    }
  }

  // ---- Any k rows are independent --------------------------------------------------

  /** The parity rows among the chosen ones. */
  ghost function Parities(chosen: seq<nat>, k: nat): seq<nat> {
    if chosen == [] then []
    else
      var l := |chosen| - 1;
      Parities(chosen[..l], k) + if chosen[l] < k then [] else [chosen[l] - k]
  }

  ghost function DataRows(chosen: seq<nat>, k: nat): set<nat> {
    set i | i in chosen && i < k
  }

  lemma {:induction false} ParitiesCount(chosen: seq<nat>, k: nat)
    requires Distinct(chosen)
    ensures |Parities(chosen, k)| + |DataRows(chosen, k)| == |chosen|
  {
    if chosen != [] {
      var l := |chosen| - 1;
      var rest := chosen[..l];
      ParitiesCount(rest, k);
      assert chosen == rest + [chosen[l]];
      if chosen[l] < k {
        assert DataRows(chosen, k) == DataRows(rest, k) + {chosen[l]};
      } else {
        assert DataRows(chosen, k) == DataRows(rest, k);
      }
    }
  }

  /** Where the a-th parity row stands among the chosen rows; later rows stand later. */
  lemma {:induction false} ParityAt(chosen: seq<nat>, k: nat, a: nat, b: nat) returns (r: nat, t: nat)
    requires a <= b < |Parities(chosen, k)|
    ensures r <= t < |chosen| && (a < b ==> r < t)
    ensures chosen[r] == Parities(chosen, k)[a] + k
    ensures chosen[t] == Parities(chosen, k)[b] + k
  {
    var l := |chosen| - 1;
    var rest := Parities(chosen[..l], k);
    if b < |rest| {
      r, t := ParityAt(chosen[..l], k, a, b);
    } else if a < |rest| {
      r, t := ParityAt(chosen[..l], k, a, a);
      t := l;
    } else {
      r, t := l, l;
    }
  }

  ghost predicate Below(s: seq<nat>, n: nat) {
    forall a :: 0 <= a < |s| ==> s[a] < n
  }

  /** Parity rows of a selection are distinct and in range. */
  lemma {:induction false} ParitiesOf(chosen: seq<nat>, k: nat, p: nat)
    requires Distinct(chosen) && Below(chosen, k + p)
    ensures Distinct(Parities(chosen, k)) && Below(Parities(chosen, k), p)
  {
    var qs := Parities(chosen, k);
    forall a | 0 <= a < |qs|
      ensures qs[a] < p
    {
      var r, t := ParityAt(chosen, k, a, a);
    }
    forall a, b | 0 <= a < b < |qs|
      ensures qs[a] != qs[b]
    {
      var r, t := ParityAt(chosen, k, a, b);
    }
  }

  /** The numbers below k that are not in d, in order. */
  ghost function Missing(k: nat, d: set<nat>): (s: seq<nat>)
    ensures Below(s, k) && Distinct(s)
  {
    if k == 0 then []
    else Missing(k - 1, d) + if k - 1 in d then [] else [k - 1]
  }

  lemma {:induction false} MissingCount(k: nat, d: set<nat>)
    requires forall i :: i in d ==> i < k
    ensures |Missing(k, d)| + |d| == k
    decreases k
  {
    if k > 0 {
      var e := d - {k - 1};
      MissingCount(k - 1, e);
      MissingSame(k - 1, d, e);
    } else {
      assert d == {};
    }
  }

  lemma {:induction false} MissingSame(k: nat, d: set<nat>, e: set<nat>)
    requires forall i :: i < k ==> (i in d <==> i in e)
    ensures Missing(k, d) == Missing(k, e)
  {
    if k > 0 {
      MissingSame(k - 1, d, e);
    }
  }

  lemma {:induction false} MissingAt(k: nat, d: set<nat>, j: nat) returns (a: nat)
    requires j < k && j !in d
    ensures a < |Missing(k, d)| && Missing(k, d)[a] == j
  {
    if j == k - 1 {
      a := |Missing(k - 1, d)|;
    } else {
      a := MissingAt(k - 1, d, j);
    }
  }

  ghost function Pick(v: Vec, js: seq<nat>): (w: Vec)
    requires Below(js, |v|)
    ensures |w| == |js| && forall a :: 0 <= a < |js| ==> w[a] == v[js[a]]
  {
    seq(|js|, a requires 0 <= a < |js| => v[js[a]])
  }

  /** Summands outside the missing columns are zero and can be left out. */
  lemma {:induction false} SumPick(s: Vec, d: set<nat>)
    requires forall j :: 0 <= j < |s| && j in d ==> s[j] == 0
    ensures Sum(Pick(s, Missing(|s|, d))) == Sum(s)
  {
    hide Add, Sum, Missing, Pick;
    if s == [] {
      PickNone(s, d);
    } else {
      var l := |s| - 1;
      SumPick(s[..l], d);
      PickStep(s, d);
      SumLast(s[..l], s[l]);
      assert s[..l] + [s[l]] == s;
      if l in d {
        AddLaws(Sum(s[..l]), 0, 0);
      } else {
        SumLast(Pick(s[..l], Missing(l, d)), s[l]);
      }
    }
  }

  lemma {:induction false} PickNone(s: Vec, d: set<nat>)
    requires s == []
    ensures Pick(s, Missing(|s|, d)) == s
  {
  }

  lemma {:induction false} PickStep(s: Vec, d: set<nat>)
    requires s != []
    ensures var l := |s| - 1;
      Pick(s, Missing(|s|, d)) ==
      if l in d then Pick(s[..l], Missing(l, d)) else Pick(s[..l], Missing(l, d)) + [s[l]]
  {
    var l := |s| - 1;
    assert Missing(|s|, d) == Missing(l, d) + if l in d then [] else [l];
    hide Missing;
  }

  lemma {:induction false} SumLast(s: Vec, x: byte)
    ensures Sum(s + [x]) == Add(Sum(s), x)
  {
    hide Add;
    assert (s + [x])[..|s|] == s;
  }

  lemma {:induction false} DotUnit(k: nat, i: nat, v: Vec)
    requires i < k == |v|
    ensures Dot(Unit(k, i), v) == v[i]
  {
    var p := Products(Unit(k, i), v);
    SumRemove(p, i);
    MulOne(v[i]);
    forall j | 0 <= j < |p| && j != i
      ensures p[j] == 0
    {
      MulZero(v[j]);
    }
    SumOfZeros(Remove(p, i));
    AddLaws(v[i], 0, 0);
  }

  ghost predicate Selection(chosen: seq<nat>, k: nat, p: nat) {
    |chosen| == k && Distinct(chosen) && Below(chosen, k + p)
  }

  ghost predicate InRows(chosen: seq<nat>, k: nat, v: Vec) {
    |v| == k && forall r :: 0 <= r < |chosen| ==> Dot(Row(k, chosen[r]), v) == 0
  }

  ghost function ColumnNodes(k: nat, js: seq<nat>): (ys: Vec)
    ensures |ys| == |js| && forall a :: 0 <= a < |js| ==> ys[a] == Y(k, js[a])
  {
    seq(|js|, a requires 0 <= a < |js| => Y(k, js[a]))
  }

  ghost function RowNodes(qs: seq<nat>): (xs: Vec)
    ensures |xs| == |qs| && forall a :: 0 <= a < |qs| ==> xs[a] == X(qs[a])
  {
    seq(|qs|, a requires 0 <= a < |qs| => X(qs[a]))
  }

  lemma {:induction false} SelectedNodes(k: nat, p: nat, qs: seq<nat>, js: seq<nat>)
    requires p <= k <= 128 && |qs| == |js| && Distinct(qs) && Distinct(js)
    requires Below(qs, p) && Below(js, k)
    ensures Nodes(RowNodes(qs), ColumnNodes(k, js))
  {
    var xs, ys := RowNodes(qs), ColumnNodes(k, js);
    assert forall a :: 0 <= a < |qs| ==> xs[a] == qs[a];
    assert forall a :: 0 <= a < |js| ==> ys[a] == k + js[a];
  }

  /** A parity row on a vector that vanishes on d is a Cauchy row on the other columns. */
  lemma {:induction false} ParityRow(k: nat, q: nat, d: set<nat>, v: Vec)
    requires |v| == k && Apart(X(q), ColumnNodes(k, Missing(k, d)))
    requires forall j :: 0 <= j < k && j in d ==> v[j] == 0
    ensures Dot(CauchyRow(X(q), ColumnNodes(k, Missing(k, d))), Pick(v, Missing(k, d))) == Dot(Row(k, k + q), v)
  {
    var js := Missing(k, d);
    var ys := ColumnNodes(k, js);
    var row := Row(k, k + q);
    var s := Products(row, v);
    forall j | 0 <= j < k && j in d
      ensures s[j] == 0
    {
      MulZero(row[j]);
    }
    SumPick(s, d);
    var t := Products(CauchyRow(X(q), ys), Pick(v, js));
    forall a | 0 <= a < |js|
      ensures t[a] == Pick(s, js)[a]
    {
      assert X(q) != ys[a];
      assert row[js[a]] == Recip(X(q), Y(k, js[a]));
    }
    assert t == Pick(s, js);
  }

  /** Any k rows of the code annihilate only the zero vector. */
  lemma {:induction false} AnyRowsIndependent(k: nat, p: nat, chosen: seq<nat>, v: Vec)
    requires p <= k <= 128 && Selection(chosen, k, p) && InRows(chosen, k, v)
    ensures AllZero(v)
  {
    var d := DataRows(chosen, k);
    forall j | j in d
      ensures v[j] == 0
    {
      var r :| 0 <= r < k && chosen[r] == j;
      DotUnit(k, j, v);
    }
    ParitySystem(k, p, chosen, v, d);
    var js := Missing(k, d);
    CauchyKernel(RowNodes(Parities(chosen, k)), ColumnNodes(k, js), Pick(v, js));
    forall j | 0 <= j < k
      ensures v[j] == 0
    {
      if j !in d {
        var a := MissingAt(k, d, j);
        assert Pick(v, js)[a] == 0;
      }
    }
  }

  lemma {:induction false} ParitySystem(k: nat, p: nat, chosen: seq<nat>, v: Vec, d: set<nat>)
    requires p <= k <= 128 && Selection(chosen, k, p) && InRows(chosen, k, v)
    requires d == DataRows(chosen, k) && forall j :: j in d ==> v[j] == 0
    ensures Solves(RowNodes(Parities(chosen, k)), ColumnNodes(k, Missing(k, d)), Pick(v, Missing(k, d)))
  {
    var qs, js := Parities(chosen, k), Missing(k, d);
    ParitiesCount(chosen, k);
    MissingCount(k, d);
    ParitiesOf(chosen, k, p);
    SelectedNodes(k, p, qs, js);
    var xs, ys := RowNodes(qs), ColumnNodes(k, js);
    forall a | 0 <= a < |xs|
      ensures Dot(CauchyRow(xs[a], ys), Pick(v, js)) == 0
    {
      assert Apart(xs[a], ys);
      ParitySystemRow(k, chosen, v, d, a);
    }
  }

  lemma {:induction false} ParitySystemRow(k: nat, chosen: seq<nat>, v: Vec, d: set<nat>, a: nat)
    requires InRows(chosen, k, v) && forall j :: j in d ==> j < k && v[j] == 0
    requires a < |Parities(chosen, k)|
    requires Apart(X(Parities(chosen, k)[a]), ColumnNodes(k, Missing(k, d)))
    ensures Dot(CauchyRow(X(Parities(chosen, k)[a]), ColumnNodes(k, Missing(k, d))), Pick(v, Missing(k, d))) == 0
  {
    var r, _ := ParityAt(chosen, k, a, a);
    ParityRow(k, Parities(chosen, k)[a], d, v);
  }

  // ---- Encoding and decoding ----------------------------------------------------------

  /** k shards of one size, neither empty nor over the limit. */
  predicate Encodable(data: seq<Vec>, k: nat) {
    && |data| == k > 0
    && 0 < |data[0]| <= 67_108_864
    && forall i :: 0 <= i < |data| ==> |data[i]| == |data[0]|
  }

  /** The first p parity shards. */
  ghost function ParityPart(k: nat, p: nat, data: seq<Vec>, n: nat): (s: seq<Vec>)
    requires IsData(data, k, n)
    ensures |s| == p
  {
    if p == 0 then [] else ParityPart(k, p - 1, data, n) + [Shard(k, k + p - 1, data, n)]
  }

  lemma {:induction false} ParityPartAt(k: nat, p: nat, data: seq<Vec>, n: nat, i: nat)
    requires IsData(data, k, n) && i < p
    ensures ParityPart(k, p, data, n)[i] == Shard(k, k + i, data, n)
  {
    hide Shard;
    if i < p - 1 {
      ParityPartAt(k, p - 1, data, n, i);
    }
  }

  /** Data and parity part together list the shards in order. */
  lemma {:induction false} EncodedAt(k: nat, p: nat, data: seq<Vec>, n: nat, s: nat)
    requires IsData(data, k, n) && s < k + p
    ensures (data + ParityPart(k, p, data, n))[s] == Shard(k, s, data, n)
  {
    if s < k {
      CombUnit(s, data, n);
    } else {
      hide Shard;
      ParityPartAt(k, p, data, n, s - k);
    }
  }

  // ---- Shards written out --------------------------------------------------------------

  /** The weights of parity shard i: w[j] times (i xor (k + j)) is one. */
  ghost predicate CauchyWeights(w: Vec, i: nat, k: nat)
    requires i < 256 && k <= 128
  {
    |w| == k && forall j :: 0 <= j < k ==> Mul(w[j], Add(i, k + j)) == 1
  }

  /** Byte b of the data shards, weighted and added up. */
  function WeightedByte(w: Vec, data: seq<Vec>, b: nat): byte
    requires |w| == |data| && forall j :: 0 <= j < |data| ==> b < |data[j]|
  {
    if w == [] then 0
    else
      var l := |w| - 1;
      Add(WeightedByte(w[..l], data[..l], b), Mul(w[l], data[l][b]))
  }

  ghost predicate IsWeighted(s: Vec, w: Vec, data: seq<Vec>, n: nat)
    requires IsMatrix(data, n)
  {
    |w| == |data| && |s| == n && forall b :: 0 <= b < n ==> s[b] == WeightedByte(w, data, b)
  }

  /** Shard `index` of the data: a data shard itself, or the weighted sum of all of them. */
  ghost predicate IsShard(s: Vec, index: nat, k: nat, data: seq<Vec>, n: nat)
    requires IsData(data, k, n)
  {
    if index < k then s == data[index]
    else
      k <= 128 && index < 2 * k && exists w :: IsWeighted(s, w, data, n) && CauchyWeights(w, index - k, k)
  }

  lemma {:induction false} CombAt(w: Vec, data: seq<Vec>, n: nat, b: nat)
    requires |w| == |data| && IsMatrix(data, n) && b < n
    ensures Comb(w, data, n)[b] == WeightedByte(w, data, b)
  {
    hide Mul, Add;
    if w != [] {
      var l := |w| - 1;
      CombAt(w[..l], data[..l], n, b);
    }
  }

  lemma {:induction false} RowIsWeights(k: nat, i: nat)
    requires i < k <= 128
    ensures CauchyWeights(Row(k, k + i), i, k)
  {
    hide Mul, Add, Row;
    var w := Row(k, k + i);
    forall j | 0 <= j < k
      ensures Mul(w[j], Add(i, k + j)) == 1
    {
      RowEntry(k, i, j);
      MulCommutes(w[j], Add(i, k + j));
    }
  }

  lemma {:induction false} RowEntry(k: nat, i: nat, j: nat)
    requires i < k <= 128 && j < k
    ensures Mul(Add(i, k + j), Row(k, k + i)[j]) == 1
  {
    hide Mul, Add, Recip;
    SmallMod(i, 256);
    SmallMod(k + j, 256);
    assert X(i) == i && Y(k, j) == k + j;
    assert Row(k, k + i)[j] == Recip(i, k + j);
  }

  lemma {:induction false} WeightsUnique(v: Vec, w: Vec, i: nat, k: nat)
    requires i < k <= 128 && CauchyWeights(v, i, k) && CauchyWeights(w, i, k)
    ensures v == w
  {
    hide Mul, Add;
    forall j | 0 <= j < k
      ensures v[j] == w[j]
    {
      var x := Add(i, k + j);
      AddCancel(i, k + j);
      MulCommutes(v[j], x);
      MulCommutes(w[j], x);
      MulCancel(x, v[j], w[j]);
    }
  }

  /** The shards of the model are these, and no others are. */
  lemma {:induction false} ShardSpelled(s: Vec, index: nat, k: nat, data: seq<Vec>, n: nat)
    requires IsData(data, k, n)
    ensures IsShard(s, index, k, data, n) ==> s == Shard(k, index, data, n)
    ensures k <= 128 && index < 2 * k && s == Shard(k, index, data, n) ==> IsShard(s, index, k, data, n)
  {
    hide Mul, Add, Comb, Row, CauchyWeights, IsWeighted;
    if index < k {
      UnitRow(k, index);
      CombUnit(index, data, n);
    } else if k <= 128 && index < 2 * k {
      var row := Row(k, index);
      RowIsWeights(k, index - k);
      WeightedIs(s, row, data, n);
      if IsShard(s, index, k, data, n) {
        var w :| IsWeighted(s, w, data, n) && CauchyWeights(w, index - k, k);
        WeightsUnique(w, row, index - k, k);
      }
    }
  }

  lemma {:induction false} WeightedIs(s: Vec, w: Vec, data: seq<Vec>, n: nat)
    requires |w| == |data| && IsMatrix(data, n)
    ensures IsWeighted(s, w, data, n) <==> s == Comb(w, data, n)
  {
    hide Comb, WeightedByte;
    forall b | 0 <= b < n
      ensures Comb(w, data, n)[b] == WeightedByte(w, data, b)
    {
      CombAt(w, data, n, b);
    }
  }

  lemma {:induction false} ShardSize(s: Vec, index: nat, k: nat, data: seq<Vec>, n: nat)
    requires IsData(data, k, n) && IsShard(s, index, k, data, n)
    ensures |s| == n
  {
  }

  lemma {:induction false} UnitRow(k: nat, index: nat)
    requires index < k
    ensures Row(k, index) == Unit(k, index)
  {
  }

  /** The first k survivors are shards of the data, and all survivors have their size. */
  ghost predicate Genuine(survivors: seq<(nat, Vec)>, k: nat, p: nat, data: seq<Vec>, n: nat) {
    && IsData(data, k, n)
    && |survivors| >= k
    && (forall r :: 0 <= r < |survivors| ==> |survivors[r].1| == n)
    && Selection(Indices(survivors, k), k, p)
    && (forall r :: 0 <= r < k ==> IsShard(survivors[r].1, survivors[r].0, k, data, n))
  }

  ghost function Indices(survivors: seq<(nat, Vec)>, k: nat): (s: seq<nat>)
    requires k <= |survivors|
    ensures |s| == k && forall r :: 0 <= r < k ==> s[r] == survivors[r].0
  {
    seq(k, r requires 0 <= r < k => survivors[r].0)
  }

  /** The matrix of the chosen rows. */
  ghost predicate IsRowMatrix(a: seq<Vec>, k: nat, survivors: seq<(nat, Vec)>) {
    |a| == k <= |survivors| && IsMatrix(a, k) && forall r :: 0 <= r < k ==> a[r] == Row(k, survivors[r].0)
  }

  lemma {:induction false} RepeatedIndexRepeatsRow(a: seq<Vec>, k: nat, survivors: seq<(nat, Vec)>)
    requires IsRowMatrix(a, k, survivors)
    ensures !Distinct(Indices(survivors, k)) ==> GaussJordan.RepeatsRow(a)
  {
    if !Distinct(Indices(survivors, k)) {
      var i, j :| 0 <= i < j < k && Indices(survivors, k)[i] == Indices(survivors, k)[j];
      assert a[i] == a[j];
    }
  }

  /** The matrix of genuine survivors annihilates no vector but zero. */
  lemma {:induction false} GenuineIsInvertible(survivors: seq<(nat, Vec)>, k: nat, p: nat, data: seq<Vec>, n: nat, a: seq<Vec>)
    requires p <= k <= 128 && Genuine(survivors, k, p, data, n) && IsRowMatrix(a, k, survivors)
    ensures !exists v: Vec :: |v| == k && v != Zeros(k) && InKernel(a, v)
  {
    forall v: Vec | |v| == k && InKernel(a, v)
      ensures v == Zeros(k)
    {
      AnyRowsIndependent(k, p, Indices(survivors, k), v);
    }
  }

  /** The inverse of the row matrix turns genuine survivors into the data. */
  lemma {:induction false} GenuineIsRestored(survivors: seq<(nat, Vec)>, k: nat, p: nat, data: seq<Vec>, n: nat,
                          a: seq<Vec>, inv: seq<Vec>, shards: seq<Vec>, out: seq<Vec>)
    requires Genuine(survivors, k, p, data, n) && IsRowMatrix(a, k, survivors)
    requires |inv| == k && IsMatrix(inv, k) && forall c :: 0 <= c < k ==> Comb(inv[c], a, k) == Unit(k, c)
    requires |shards| == k && IsMatrix(shards, n) && forall r :: 0 <= r < k ==> shards[r] == survivors[r].1
    requires |out| == k && forall c :: 0 <= c < k ==> out[c] == Comb(inv[c], shards, n)
    ensures out == data
  {
    forall r | 0 <= r < k
      ensures shards[r] == Comb(a[r], data, n)
    {
      ShardSpelled(survivors[r].1, survivors[r].0, k, data, n);
    }
    forall c | 0 <= c < k
      ensures out[c] == data[c]
    {
      RestoredAt(inv[c], a, data, n, shards, c);
    }
  }

  lemma {:induction false} RestoredAt(u: Vec, a: seq<Vec>, data: seq<Vec>, n: nat, shards: seq<Vec>, c: nat)
    requires |u| == |a| == |shards| == |data| && c < |data|
    requires IsMatrix(a, |data|) && IsMatrix(data, n) && IsMatrix(shards, n)
    requires forall r :: 0 <= r < |a| ==> shards[r] == Comb(a[r], data, n)
    requires Comb(u, a, |data|) == Unit(|data|, c)
    ensures Comb(u, shards, n) == data[c]
  {
    CombComb(u, a, data, n, shards);
    CombUnit(c, data, n);
  }

  lemma {:induction false} CombNone(u: Vec, rows: seq<Vec>, n: nat)
    requires |u| == |rows| && IsMatrix(rows, n)
    ensures Comb(u[..0], rows[..0], n) == Zeros(n)
  {
  }

  lemma {:induction false} CombNext(u: Vec, rows: seq<Vec>, n: nat, j: nat)
    requires |u| == |rows| && IsMatrix(rows, n) && j < |u|
    ensures Comb(u[..j + 1], rows[..j + 1], n) == AddV(Comb(u[..j], rows[..j], n), ScaleV(u[j], rows[j]))
  {
    hide AddV, ScaleV;
    assert u[..j + 1][..j] == u[..j] && rows[..j + 1][..j] == rows[..j];
  }

  class CauchyMds {
    const k: nat
    const p: nat
    const gf: Gf8

    ghost predicate Valid()
      reads this, gf, gf.log, gf.exp
    {
      0 < k && 0 < p && k + p < MAX_SHARDS && gf.Valid()
    }

    constructor (k: nat, p: nat)
      requires 0 < k && 0 < p && k + p < MAX_SHARDS
      ensures Valid() && this.k == k && this.p == p
    {
      this.k := k;
      this.p := p;
      this.gf := new Gf8();
    }

    static method New(k: nat, p: nat) returns (r: Option<CauchyMds>)
      ensures r.Some? <==> 0 < k && 0 < p && k + p < 256
      ensures r.Some? ==> r.value.Valid() && r.value.k == k && r.value.p == p
    {
      if k == 0 || p == 0 || k + p >= MAX_SHARDS {
        return None;
      }
      var mds := new CauchyMds(k, p);
      return Some(mds);
    }

    function Cauchy(i: nat, j: nat): (r: Option<byte>)
      requires Valid()
      reads this, gf, gf.log, gf.exp
      ensures r.Some? <==> X(i) != Y(k, j)
      ensures r.Some? ==> r.value == Coefficient(k, i, j) && r.value != 0
    {
      AddCancel(X(i), Y(k, j));
      gf.Inv(Add(X(i), Y(k, j)))
    }

    /** One parity shard, or nothing when a node of its row meets a data node. */
    method Parity(i: nat, data: seq<Vec>, n: nat) returns (r: Option<Vec>)
      requires Valid() && IsData(data, k, n)
      ensures r.Some? <==> RowApart(k, i)
      ensures r.Some? ==> r.value == Shard(k, k + i, data, n)
    {
      hide Mul, Add, Comb, AddV, ScaleV;
      ghost var row := Row(k, k + i);
      var parity := Zeros(n);
      CombNone(row, data, n);
      for j := 0 to k
        invariant forall l :: 0 <= l < j ==> X(i) != Y(k, l)
        invariant |row[..j]| == |data[..j]| && parity == Comb(row[..j], data[..j], n)
      {
        var c := Cauchy(i, j);
        if c.None? {
          return None;
        }
        CombNext(row, data, n, j);
        if c.value != 0 {
          parity := GaussJordan.AddScaledRow(gf, parity, c.value, data[j]);
        }
      }
      assert row[..k] == row && data[..k] == data;
      return Some(parity);
    }

    /** All parity shards, or nothing when nodes meet. */
    method ParityShards(data: seq<Vec>, n: nat) returns (r: Option<seq<Vec>>)
      requires Valid() && IsData(data, k, n)
      ensures r.Some? <==> NodesApart(k, p)
      ensures r.Some? ==> r.value == ParityPart(k, p, data, n)
    {
      hide Shard;
      var out: seq<Vec> := [];
      for i := 0 to p
        invariant out == ParityPart(k, i, data, n)
        invariant NodesApart(k, i)
      {
        var parity := Parity(i, data, n);
        if parity.None? {
          return None;
        }
        out := out + [parity.value];
      }
      return Some(out);
    }

    /** Encoding succeeds exactly for well-shaped data and p <= k <= 128. It keeps the data
        shards and appends the parity shards. */
    method Encode(data: seq<Vec>) returns (r: Option<seq<Vec>>)
      requires Valid()
      ensures r.Some? <==> Encodable(data, k) && p <= k <= 128
      ensures r.Some? ==> |r.value| == k + p && r.value[..k] == data
      ensures r.Some? ==> forall s :: 0 <= s < k + p ==> IsShard(r.value[s], s, k, data, |data[0]|)
    {
      if |data| != k {
        return None;
      }
      var n := |data[0]|;
      if n == 0 || n > MAX_SHARD_BYTES || exists i :: 0 <= i < |data| && |data[i]| != n {
        return None;
      }
      hide Shard, ParityPart, NodesApart, IsShard;
      NodesApartIff(k, p);
      var parity := ParityShards(data, n);
      if parity.None? {
        return None;
      }
      forall s | 0 <= s < k + p
        ensures IsShard((data + parity.value)[s], s, k, data, n)
      {
        EncodedAt(k, p, data, n, s);
        ShardSpelled((data + parity.value)[s], s, k, data, n);
      }
      return Some(data + parity.value);
    }

    /** The coefficients of the chosen rows; a missing coefficient counts as zero. */
    method RowMatrix(survivors: seq<(nat, Vec)>) returns (a: seq<Vec>)
      requires Valid() && |survivors| >= k
      ensures IsRowMatrix(a, k, survivors)
    {
      hide Row, Recip, Mul, Add;
      a := [];
      for r := 0 to k
        invariant |a| == r
        invariant forall l :: 0 <= l < r ==> a[l] == Row(k, survivors[l].0)
      {
        var row := RowOf(survivors[r].0);
        a := a + [row];
      }
    }

    /** The row of one survivor: a unit row for a data shard, a Cauchy row for a parity shard. */
    method RowOf(si: nat) returns (row: Vec)
      requires Valid()
      ensures row == Row(k, si)
    {
      hide Recip, Mul, Add;
      row := [];
      for c := 0 to k
        invariant row == Row(k, si)[..c]
      {
        if si < k {
          row := row + [if si == c then 1 else 0];
        } else {
          var e := Cauchy(si - k, c);
          row := row + [if e.Some? then e.value else 0];
        }
      }
    }

    method Combine(u: Vec, shards: seq<Vec>, n: nat) returns (v: Vec)
      requires Valid() && |u| == |shards| && IsMatrix(shards, n)
      ensures v == Comb(u, shards, n)
    {
      v := Zeros(n);
      for r := 0 to |u|
        invariant v == Comb(u[..r], shards[..r], n)
      {
        assert u[..r + 1][..r] == u[..r] && shards[..r + 1][..r] == shards[..r];
        if u[r] != 0 {
          v := GaussJordan.AddScaledRow(gf, v, u[r], shards[r]);
        } else {
          ScaleVLaws(0, 0, shards[r], shards[r]);
          AddVLaws(v, v, v);
        }
      }
      assert u[..|u|] == u && shards[..|u|] == shards;
    }

    /** All rows of a matrix combined with the shards. */
    method Product(inv: seq<Vec>, shards: seq<Vec>, n: nat) returns (out: seq<Vec>)
      requires Valid() && IsMatrix(inv, |shards|) && IsMatrix(shards, n)
      ensures |out| == |inv|
      ensures forall c :: 0 <= c < |inv| ==> out[c] == Comb(inv[c], shards, n)
    {
      out := [];
      for c := 0 to |inv|
        invariant |out| == c
        invariant forall l :: 0 <= l < c ==> out[l] == Comb(inv[l], shards, n)
      {
        var shard := Combine(inv[c], shards, n);
        out := out + [shard];
      }
    }

    /** Whatever data the first k survivors are shards of, decoding returns exactly that data. */
    method Decode(survivors: seq<(nat, Vec)>) returns (r: Option<seq<Vec>>)
      requires Valid()
      ensures |survivors| < k ==> r.None?
      ensures (exists i :: 0 <= i < |survivors| && |survivors[i].1| != |survivors[0].1|) ==> r.None?
      ensures |survivors| >= k && !Distinct(Indices(survivors, k)) ==> r.None?
      ensures p <= k <= 128 ==> forall data, n: nat :: Genuine(survivors, k, p, data, n) ==> r == Some(data)
    {
      if |survivors| < k {
        return None;
      }
      var n := |survivors[0].1|;
      if exists i :: 0 <= i < |survivors| && |survivors[i].1| != n {
        return None;
      }
      var a := RowMatrix(survivors);
      RepeatedIndexRepeatsRow(a, k, survivors);
      var inv := GaussJordan.InvertMatrix(gf, a);
      if inv.None? {
        forall data, n': nat | p <= k <= 128 && Genuine(survivors, k, p, data, n')
          ensures false
        {
          GenuineIsInvertible(survivors, k, p, data, n', a);
        }
        return None;
      }
      var shards: seq<Vec> := seq(k, i requires 0 <= i < k => survivors[i].1);
      var out := Product(inv.value, shards, n);
      forall data, n': nat | Genuine(survivors, k, p, data, n')
        ensures out == data
      {
        assert n' == n by { assert |survivors[0].1| == n'; }
        GenuineIsRestored(survivors, k, p, data, n, a, inv.value, shards, out);
      }
      return Some(out);
    }

    /** Whatever data is encoded, any k different shards give it back; a shard handed in twice
        among the first k does not. */
    method EncodeThenDecode(data: seq<Vec>, picked: seq<nat>) returns (r: Option<seq<Vec>>)
      requires Valid() && Encodable(data, k) && p <= k <= 128
      requires |picked| >= k && Below(picked, k + p)
      ensures r == if Distinct(picked[..k]) then Some(data) else None
    {
      hide IsShard;
      var shards := Encode(data);
      ghost var n := |data[0]|;
      var survivors: seq<(nat, Vec)> :=
        seq(|picked|, i requires 0 <= i < |picked| => (picked[i], shards.value[picked[i]]));
      r := Decode(survivors);
      assert Indices(survivors, k) == picked[..k];
      if Distinct(picked[..k]) {
        forall i | 0 <= i < |picked|
          ensures |survivors[i].1| == n
        {
          ShardSize(survivors[i].1, picked[i], k, data, n);
        }
        assert Genuine(survivors, k, p, data, n);
      }
    }
  }
}
