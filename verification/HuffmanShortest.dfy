/**
Two facts about whole inputs: no prefix code packs an input into fewer bits, and there are
inputs of fewer than fifteen million bytes that do not survive packing and unpacking.
*/
module HuffmanShortest {
  import opened Bytes
  import opened Arithmetic
  import opened PowersOfTwo
  import opened BitStrings
  import opened HuffmanTree
  import opened HuffmanHeight
  import opened HuffmanLengths
  import opened HuffmanWorstCase
  import opened CanonicalCode
  import opened HuffmanPacking
  import opened Huffman

  // ---- The Kraft inequality of prefix codes --------------------------------------------------

  /** One code word a symbol; words of unused symbols do not matter. */
  type Words = seq<seq<bit>>

  /** No used word is empty, and none begins another. */
  ghost predicate PrefixCode(words: Words, freq: seq<nat>) {
    && |words| == |freq|
    && (forall s :: 0 <= s < |freq| && freq[s] > 0 ==> words[s] != [])
    && (forall s, t :: 0 <= s < |freq| && 0 <= t < |freq| && freq[s] > 0 && freq[t] > 0 && s != t ==>
          !(words[s] <= words[t]))
  }

  function WordLengths(words: Words, freq: seq<nat>): (lens: seq<nat>)
    requires |words| == |freq|
    ensures |lens| == |freq|
  {
    seq(|freq|, s requires 0 <= s < |freq| => if freq[s] > 0 then |words[s]| else 0)
  }

  /** What the first n words take of the code space below the prefix p. */
  ghost function Below(words: Words, freq: seq<nat>, m: nat, p: seq<bit>, n: nat): nat
    requires n <= |words| == |freq|
  {
    if n == 0 then 0
    else
      var rest := Below(words, freq, m, p, n - 1);
      if freq[n - 1] > 0 && p <= words[n - 1] && |words[n - 1]| <= m
      then rest + Pow2(m - |words[n - 1]|)
      else rest
  }

  ghost predicate IsWord(words: Words, freq: seq<nat>, p: seq<bit>, n: nat)
    requires n <= |words| == |freq|
  {
    exists s :: 0 <= s < n && freq[s] > 0 && words[s] == p
  }

  /** What is not itself a word is split by the next bit. */
  lemma {:induction false} BelowSplits(words: Words, freq: seq<nat>, m: nat, p: seq<bit>, n: nat)
    requires n <= |words| == |freq| && !IsWord(words, freq, p, n)
    ensures Below(words, freq, m, p, n) ==
            Below(words, freq, m, p + [0], n) + Below(words, freq, m, p + [1], n)
  {
    if n > 0 {
      BelowSplits(words, freq, m, p, n - 1);
      if freq[n - 1] > 0 {
        NextBit(p, words[n - 1]);
      }
    }
  }

  lemma {:induction false} NextBit(p: seq<bit>, w: seq<bit>)
    requires p != w
    ensures p <= w <==> p + [0] <= w || p + [1] <= w
    ensures !(p + [0] <= w && p + [1] <= w)
  {
    if p <= w {
      assert w[..|p| + 1] == p + [w[|p|]];
    }
    if p + [0] <= w || p + [1] <= w {
      assert w[..|p|] == p;
    }
  }

  /** A word has the space below it for itself. */
  lemma {:induction false} BelowWord(words: Words, freq: seq<nat>, m: nat, s: nat, n: nat)
    requires PrefixCode(words, freq) && n <= |words| && s < |words| && freq[s] > 0 && |words[s]| <= m
    ensures Below(words, freq, m, words[s], n) == if s < n then Pow2(m - |words[s]|) else 0
  {
    hide Pow2;
    if n > 0 {
      BelowWord(words, freq, m, s, n - 1);
    }
  }

  lemma {:induction false} BelowDeep(words: Words, freq: seq<nat>, m: nat, p: seq<bit>, n: nat)
    requires n <= |words| == |freq| && |p| == m && !IsWord(words, freq, p, n)
    ensures Below(words, freq, m, p, n) == 0
  {
    if n > 0 {
      BelowDeep(words, freq, m, p, n - 1);
    }
  }

  lemma {:induction false} BelowFits(words: Words, freq: seq<nat>, m: nat, p: seq<bit>)
    requires |words| == |freq| && PrefixCode(words, freq) && |p| <= m
    ensures Below(words, freq, m, p, |words|) <= Pow2(m - |p|)
    decreases m - |p|
  {
    hide Pow2, Below, PrefixCode;
    var n := |words|;
    if IsWord(words, freq, p, n) {
      var s :| 0 <= s < n && freq[s] > 0 && words[s] == p;
      BelowWord(words, freq, m, s, n);
    } else if |p| == m {
      BelowDeep(words, freq, m, p, n);
    } else {
      BelowSplits(words, freq, m, p, n);
      BelowFits(words, freq, m, p + [0]);
      BelowFits(words, freq, m, p + [1]);
      Pow2Next(m - |p| - 1);
    }
  }

  lemma {:induction false} BelowIsKraftSum(words: Words, freq: seq<nat>, m: nat, n: nat)
    requires PrefixCode(words, freq) && n <= |words|
    requires forall s :: 0 <= s < |freq| && freq[s] > 0 ==> |words[s]| <= m
    ensures Below(words, freq, m, [], n) == Sum(Terms(WordLengths(words, freq), Share(m))[..n])
  {
    hide Pow2, Terms;
    if n > 0 {
      BelowIsKraftSum(words, freq, m, n - 1);
      TermsPrefix(WordLengths(words, freq), Share(m), n - 1);
    }
  }

  function LongestWord(words: Words, freq: seq<nat>, n: nat): (m: nat)
    requires n <= |words| == |freq|
    ensures forall s :: 0 <= s < n && freq[s] > 0 ==> |words[s]| <= m
  {
    if n == 0 then 0
    else
      var m := LongestWord(words, freq, n - 1);
      if freq[n - 1] > 0 && |words[n - 1]| > m then |words[n - 1]| else m
  }

  /** The word lengths of a prefix code are admissible, that is, they obey the Kraft inequality. */
  lemma {:induction false} PrefixCodesAreAdmissible(words: Words, freq: seq<nat>)
    requires PrefixCode(words, freq)
    ensures Admissible(freq, WordLengths(words, freq), LongestWord(words, freq, |freq|))
  {
    var m := LongestWord(words, freq, |freq|);
    var lens := WordLengths(words, freq);
    BelowFits(words, freq, m, []);
    BelowIsKraftSum(words, freq, m, |words|);
    assert Terms(lens, Share(m))[..|words|] == Terms(lens, Share(m));
  }

  // ---- No prefix code is shorter -----------------------------------------------------------------

  /** An input spelled out in the words of a code. */
  function Spelled(words: Words, data: seq<byte>): seq<bit>
    requires |words| == 256
  {
    if data == [] then [] else Spelled(words, data[..|data| - 1]) + words[data[|data| - 1]]
  }

  lemma {:induction false} CostOfNext(lens: seq<nat>, freq: seq<nat>, b: nat)
    requires |lens| == |freq| && b < |freq|
    ensures Sum(Terms(lens, Cost(freq[b := freq[b] + 1]))) == Sum(Terms(lens, Cost(freq))) + lens[b]
  {
    hide Sum;
    var terms := Terms(lens, Cost(freq));
    SumUpdate(terms, b, terms[b] + lens[b]);
    var more := Terms(lens, Cost(freq[b := freq[b] + 1]));
    assert more[b] == terms[b] + lens[b] by {
      OneMore(freq[b], lens[b]);
    }
    assert more == terms[b := terms[b] + lens[b]];
  }

  lemma {:induction false} NoCost(lens: seq<nat>, n: nat)
    requires |lens| == n
    ensures Sum(Terms(lens, Cost(Zeros(n)))) == 0
  {
    var terms := Terms(lens, Cost(Zeros(n)));
    assert forall s :: 0 <= s < n ==> terms[s] == 0;
    ZeroSum(terms);
  }

  lemma {:induction false} ZeroSum(s: seq<int>)
    requires forall i :: 0 <= i < |s| ==> s[i] == 0
    ensures Sum(s) == 0
  {
    if s != [] {
      ZeroSum(s[..|s| - 1]);
    }
  }

  lemma {:induction false} NoFrequencies(data: seq<byte>)
    requires data == []
    ensures Frequencies(data) == Zeros(256)
  {
  }

  lemma {:induction false} EncodedSize(lens: seq<nat>, data: seq<byte>)
    requires Coded(lens, data)
    ensures |Encoded(lens, data)| == Sum(Terms(lens, Cost(Frequencies(data))))
  {
    hide Frequencies, Terms, Sum, CodeBits, Zeros;
    if data == [] {
      NoCost(lens, 256);
      NoFrequencies(data);
    } else {
      var n := |data| - 1;
      EncodedSize(lens, data[..n]);
      assert data[..n + 1] == data;
      NextFrequency(data, n);
      CostOfNext(lens, Frequencies(data[..n]), data[n]);
    }
  }

  lemma {:induction false} SpelledSize(words: Words, data: seq<byte>, lens: seq<nat>)
    requires |words| == |lens| == 256 && forall i :: 0 <= i < |data| ==> lens[data[i]] == |words[data[i]]|
    ensures |Spelled(words, data)| == Sum(Terms(lens, Cost(Frequencies(data))))
  {
    hide Frequencies, Terms, Sum, Zeros;
    if data == [] {
      NoCost(lens, 256);
      NoFrequencies(data);
    } else {
      var n := |data| - 1;
      SpelledSize(words, data[..n], lens);
      assert data[..n + 1] == data;
      NextFrequency(data, n);
      CostOfNext(lens, Frequencies(data[..n]), data[n]);
    }
  }

  /** Whatever prefix code one chooses for an input, the codec's body has no more code bits. */
  lemma {:induction false} NoPrefixCodeIsShorter(data: seq<byte>, words: Words)
    requires |words| == 256 && PrefixCode(words, Frequencies(data))
    ensures Coded(LengthsOf(data), data)
    ensures |Encoded(LengthsOf(data), data)| <= |Spelled(words, data)|
  {
    hide Frequencies, Terms, Sum, CodeLengths, Encoded, Spelled, PrefixCode;
    var freq := Frequencies(data);
    LengthsOfData(data);
    EncodedSize(LengthsOf(data), data);
    var alt := WordLengths(words, freq);
    UsedBytes(data);
    SpelledSize(words, data, alt);
    PrefixCodesAreAdmissible(words, freq);
    CodeLengthsAreOptimal(freq, alt, LongestWord(words, freq, |freq|));
  }

  // ---- An input that does not survive ---------------------------------------------------------------

  function Repeat(b: byte, n: nat): (s: seq<byte>)
    ensures |s| == n && multiset(s)[b] == n && forall c: byte :: c != b ==> multiset(s)[c] == 0
  {
    if n == 0 then []
    else
      var s := Repeat(b, n - 1);
      assert multiset(s + [b]) == multiset(s) + multiset{b};
      s + [b]
  }

  /** n bytes from d on, the i-th of them as often as the Fibonacci number i. */
  function FibonacciText(d: nat, n: nat): seq<byte>
    requires d + n <= 256
  {
    if n == 0 then [] else FibonacciText(d, n - 1) + Repeat(d + n - 1, Fib(n))
  }

  lemma {:induction false} FibonacciTextShape(d: nat, n: nat)
    requires d + n <= 256
    ensures |FibonacciText(d, n)| == Fib(n + 2) - 1
    ensures forall b: byte :: multiset(FibonacciText(d, n))[b] == if d <= b < d + n then Fib(b - d + 1) else 0
  {
    hide FibonacciText, Fib;
    FibonacciTextLength(d, n);
    forall b: byte
      ensures multiset(FibonacciText(d, n))[b] == if d <= b < d + n then Fib(b - d + 1) else 0
    {
      FibonacciTextCount(d, n, b);
    }
  }

  lemma {:induction false} FibonacciTextLength(d: nat, n: nat)
    requires d + n <= 256
    ensures |FibonacciText(d, n)| == Fib(n + 2) - 1
  {
    hide Fib, Repeat;
    FibSteps(n);
    if n == 0 {
      FibZero(0);
    } else {
      FibonacciTextLength(d, n - 1);
    }
  }

  lemma {:induction false} FibonacciTextCount(d: nat, n: nat, b: byte)
    requires d + n <= 256
    ensures multiset(FibonacciText(d, n))[b] == if d <= b < d + n then Fib(b - d + 1) else 0
  {
    hide Fib, Repeat;
    if n > 0 {
      FibonacciTextCount(d, n - 1, b);
      var before, more := FibonacciText(d, n - 1), Repeat(d + n - 1, Fib(n));
      assert FibonacciText(d, n) == before + more;
      hide FibonacciText;
      assert multiset(before + more) == multiset(before) + multiset(more);
    }
  }

  /** n bytes with Fibonacci frequencies need codes of n - 1 bits. */
  lemma {:induction false} FibonacciTextNeedsLongCodes(d: nat, n: nat)
    requires 2 <= n && d + n <= 256
    ensures LongestCodeOf(FibonacciText(d, n)) == n - 1
  {
    hide Fib, FibonacciText, LongestCode;
    FibonacciTextShape(d, n);
    assert Frequencies(FibonacciText(d, n)) == Fibonacci(d, n, 256);
    FibonacciNeedsLongCodes(d, n, 256);
  }

  lemma {:induction false} LostTextSize(d: nat)
    requires d + 34 <= 256
    ensures |FibonacciText(d, 34)| == 14_930_351
  {
    hide Fib, FibonacciText;
    var z: nat := 0;
    FibonacciTextShape(d, z + 34);
    FibZero(z);
    FibDozen(z);
    FibDozen(z + 12);
    FibDozen(z + 24);
  }

  /** 14930351 bytes, far below the size limit, that pack into something that does not unpack. */
  lemma {:induction false} DoesNotSurvive(d: nat, out: seq<byte>)
    requires d + 34 <= 256 && IsCompressed(FibonacciText(d, 34), out)
    ensures |FibonacciText(d, 34)| == 14_930_351
    ensures forall text :: !Parses(out, text)
  {
    hide FibonacciText, LongestCodeOf, IsCompressed, Parses;
    LostTextSize(d);
    FibonacciTextNeedsLongCodes(d, 34);
    CompressedParses(FibonacciText(d, 34), out);
  }

  /** All bytes of the text lie between d and d + n. */
  lemma {:induction false} FibonacciTextBytes(d: nat, n: nat, i: nat)
    requires d + n <= 256 && i < |FibonacciText(d, n)|
    ensures d <= FibonacciText(d, n)[i] < d + n
  {
    hide Fib, FibonacciText;
    FibonacciTextShape(d, n);
    assert FibonacciText(d, n)[i] in multiset(FibonacciText(d, n));
  }

  /** A byte costs at least one bit and at most the longest code. */
  lemma {:induction false} EncodedBounds(lens: seq<nat>, data: seq<byte>, longest: nat)
    requires Coded(lens, data) && forall s :: 0 <= s < 256 ==> lens[s] <= longest
    ensures |data| <= |Encoded(lens, data)| <= longest * |data|
  {
    hide CodeBits;
    if data != [] {
      var n := |data| - 1;
      EncodedBounds(lens, data[..n], longest);
      OneMore(n, longest);
    }
  }

  /** Packing never gains more than a factor of eight. */
  lemma {:induction false} PackedBounds(data: seq<byte>)
    ensures |data| <= 8 * PackedSize(data)
    ensures 8 * PackedSize(data) <= LongestCodeOf(data) * |data| + 8 * 532
  {
    hide Encoded, LengthsOf, LongestCodeOf;
    LengthsOfData(data);
    EncodedBounds(LengthsOf(data), data, LongestCodeOf(data));
  }
}
