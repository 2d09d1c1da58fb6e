/** Consecutive pieces of equal size, and joining pieces. */
module Chunking {

  /** Consecutive pieces of n elements, the last possibly shorter. */
  function Chunked<T>(data: seq<T>, n: nat): seq<seq<T>>
    requires n > 0
  {
    if data == [] then []
    else if |data| <= n then [data]
    else [data[..n]] + Chunked(data[n..], n)
  }

  function Concat<T>(parts: seq<seq<T>>): seq<T> {
    if parts == [] then [] else parts[0] + Concat(parts[1..])
  }

  lemma {:induction false} ConcatChunked<T>(data: seq<T>, n: nat)
    requires n > 0
    ensures Concat(Chunked(data, n)) == data
  {
    var parts := Chunked(data, n);
    ConcatStep(parts);
    if |data| > n {
      ConcatChunked(data[n..], n);
      hide Concat;
      assert parts[0] == data[..n] && parts[1..] == Chunked(data[n..], n);
    } else if data != [] {
      ConcatStep(parts[1..]);
    }
  }

  lemma {:induction false} ChunkedShape<T>(data: seq<T>, n: nat)
    requires n > 0
    ensures forall i :: 0 <= i < |Chunked(data, n)| ==> 0 < |Chunked(data, n)[i]| <= n
    ensures forall i :: 0 <= i < |Chunked(data, n)| - 1 ==> |Chunked(data, n)[i]| == n
    ensures data != [] ==> (|Chunked(data, n)| - 1) * n < |data| <= |Chunked(data, n)| * n
  {
    if |data| > n {
      ChunkedShape(data[n..], n);
      var c := |Chunked(data[n..], n)|;
      assert |Chunked(data, n)| == c + 1 && (c + 1) * n == c * n + n && c * n == (c - 1) * n + n;
    }
  }

  lemma {:induction false} ConcatAppend<T>(a: seq<seq<T>>, b: seq<seq<T>>)
    ensures Concat(a + b) == Concat(a) + Concat(b)
  {
    ConcatStep(a);
    ConcatStep(a + b);
    hide Concat;
    if a == [] {
      assert a + b == b;
    } else {
      ConcatAppend(a[1..], b);
      assert (a + b)[1..] == a[1..] + b;
    }
  }

  lemma {:induction false} ConcatStep<T>(a: seq<seq<T>>)
    ensures Concat(a) == if a == [] then [] else a[0] + Concat(a[1..])
  {
  }
}
