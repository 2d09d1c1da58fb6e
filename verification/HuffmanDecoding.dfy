/** Walking through the bits of a body and recognising codes by length. */
module HuffmanDecoding {
  import opened Bytes
  import opened Wrappers
  import opened PowersOfTwo
  import opened BitStrings
  import opened HuffmanTree
  import opened HuffmanLengths
  import opened CanonicalCode
  import opened HuffmanPacking

  // ---- Encodings are uniquely decodable --------------------------------------------------------

  lemma {:induction false} EncodedPrefix(lens: seq<nat>, data: seq<byte>, k: nat)
    requires Coded(lens, data) && k <= |data|
    ensures Encoded(lens, data[..k]) <= Encoded(lens, data)
  {
    hide CodeBits;
    if k < |data| {
      var n := |data| - 1;
      EncodedPrefix(lens, data[..n], k);
      assert data[..n][..k] == data[..k];
    } else {
      assert data[..k] == data;
    }
  }

  lemma {:induction false} EncodedAppend(lens: seq<nat>, data: seq<byte>, b: byte)
    requires Coded(lens, data + [b])
    ensures Coded(lens, data) && lens[b] > 0
    ensures Encoded(lens, data + [b]) == Encoded(lens, data) + CodeBits(lens, b)
  {
    hide CodeBits;
    assert (data + [b])[..|data|] == data && (data + [b])[|data|] == b;
    forall i | 0 <= i < |data|
      ensures lens[data[i]] > 0
    {
      assert (data + [b])[i] == data[i];
    }
  }

  /** The code of the next symbol follows the encoding of those before it. */
  lemma {:induction false} NextSymbol(lens: seq<nat>, data: seq<byte>, bits: seq<bit>, k: nat)
    requires Coded(lens, data) && k < |data| && Encoded(lens, data) <= bits
    ensures Encoded(lens, data[..k]) <= bits
    ensures CodeBits(lens, data[k]) <= bits[|Encoded(lens, data[..k])|..]
  {
    hide CodeBits, Encoded;
    EncodedPrefix(lens, data, k + 1);
    assert data[..k + 1] == data[..k] + [data[k]];
    EncodedAppend(lens, data[..k], data[k]);
  }

  /** Of two encodings that begin the same bits, the shorter text begins the longer. */
  lemma {:induction false} Determined(lens: seq<nat>, m: nat, bits: seq<bit>, a: seq<byte>, b: seq<byte>)
    requires Fits(lens, m) && Coded(lens, a) && Coded(lens, b) && |a| <= |b|
    requires Encoded(lens, a) <= bits && Encoded(lens, b) <= bits
    ensures a <= b
  {
    hide CodeBits, Encoded, Fits;
    if a != [] {
      var n := |a| - 1;
      EncodedPrefix(lens, a, n);
      Determined(lens, m, bits, a[..n], b);
      NextSymbol(lens, a, bits, n);
      NextSymbol(lens, b, bits, n);
      assert a[..n] == b[..n];
      var s, t := a[n], b[n];
      if lens[s] <= lens[t] {
        PrefixFree(lens, m, s, t);
      } else {
        PrefixFree(lens, m, t, s);
      }
    }
  }

  // ---- The walk -----------------------------------------------------------------------------------

  /** No code begins these bits. */
  ghost predicate NoCode(lens: seq<nat>, pending: seq<bit>) {
    forall s: nat :: s < |lens| && lens[s] > 0 ==> !(CodeBits(lens, s) <= pending)
  }

  /** The output so far is what the bits up to e encode; from e to p no code has been seen. */
  ghost predicate Walked(lens: seq<nat>, bits: seq<bit>, out: seq<byte>, e: nat, p: nat) {
    && Coded(lens, out) && e <= p <= |bits|
    && bits[..e] == Encoded(lens, out) && NoCode(lens, bits[e..p])
  }

  /** A walk that cannot go on shows that the bits encode no text of the wanted length. */
  lemma {:induction false} Stuck(lens: seq<nat>, m: nat, bits: seq<bit>, out: seq<byte>, e: nat, p: nat, text: seq<byte>)
    requires Fits(lens, m) && Walked(lens, bits, out, e, p)
    requires p == |bits| || forall s :: 0 <= s < |lens| ==> lens[s] <= p - e
    requires |out| < |text| && Coded(lens, text)
    ensures !(Encoded(lens, text) <= bits)
  {
    hide CodeBits, Encoded, Fits, NoCode;
    if Encoded(lens, text) <= bits {
      Determined(lens, m, bits, out, text);
      NextSymbol(lens, text, bits, |out|);
      assert text[..|out|] == out;
      var s := text[|out|];
      assert CodeBits(lens, s) <= bits[e..p] by {
        assert CodeBits(lens, s) <= bits[e..];
        assert bits[e..][..lens[s]] == bits[e..p][..lens[s]];
      }
      NoCodeAt(lens, bits[e..p], s);
    }
  }

  lemma {:induction false} NoCodeAt(lens: seq<nat>, pending: seq<bit>, s: nat)
    requires NoCode(lens, pending) && s < |lens| && lens[s] > 0
    ensures !(CodeBits(lens, s) <= pending)
  {
  }

  /** The test of the walk: some code of this length has this value. */
  predicate Recognised(lens: seq<nat>, pending: seq<bit>) {
    && pending != []
    && Count(lens, |pending|) > 0
    && FirstCode(lens, |pending|) <= Value(pending) < FirstCode(lens, |pending|) + Count(lens, |pending|)
  }

  lemma {:induction false} RecognisedIsCode(lens: seq<nat>, pending: seq<bit>)
    requires Recognised(lens, pending)
    ensures var r := Value(pending) - FirstCode(lens, |pending|);
      var s := OfLength(lens, |pending|)[r];
      CodeBits(lens, s) == pending
  {
    hide Value, Bits, OfLength, Count, End;
    var l := |pending|;
    var r := Value(pending) - FirstCode(lens, l);
    OfLengthByRank(lens, l);
    assert Rank(lens, OfLength(lens, l)[r]) == r;
    BitsOfValue(pending);
  }

  lemma {:induction false} CodeIsRecognised(lens: seq<nat>, m: nat, s: nat)
    requires Fits(lens, m) && s < |lens| && lens[s] > 0
    ensures Recognised(lens, CodeBits(lens, s))
  {
    CodeValue(lens, s, m);
    CodeRange(lens, s);
    CountPrefix(lens, lens[s], s);
  }

  lemma {:induction false} NotRecognised(lens: seq<nat>, m: nat, pending: seq<bit>, b: bit)
    requires Fits(lens, m) && NoCode(lens, pending) && !Recognised(lens, pending + [b])
    ensures NoCode(lens, pending + [b])
  {
    hide CodeBits, Recognised, Fits;
    forall s: nat | s < |lens| && lens[s] > 0
      ensures !(CodeBits(lens, s) <= pending + [b])
    {
      CodeIsRecognised(lens, m, s);
      var c := CodeBits(lens, s);
      assert c <= pending + [b] && |c| == |pending| + 1 ==> c == pending + [b];
      assert c <= pending + [b] && |c| <= |pending| ==> c <= pending;
    }
  }

  /** A bit is read by dividing its position by eight. */
  lemma {:induction false} BitAt(body: seq<byte>, p: nat)
    requires p < 8 * |body|
    ensures BitsOf(body)[p] == Shr(body[p / 8], 7 - p % 8) % 2
  {
    hide Bits, Shr;
    var n := |body| - 1;
    if p < 8 * n {
      BitAt(body[..n], p);
    } else {
      var i := p - 8 * n;
      assert p / 8 == n && p % 8 == i;
      BitInByte(body[n], 8, i);
    }
  }

  lemma {:induction false} BitInByte(v: nat, n: nat, i: nat)
    requires i < n
    ensures Bits(v, n)[i] == Shr(v, n - 1 - i) % 2
  {
    if i < n - 1 {
      BitInByte(v / 2, n - 1, i);
    }
  }

  // ---- The decoder's tables ---------------------------------------------------------------------

  datatype Decoder = Decoder(count: seq<nat>, first: seq<nat>, syms: seq<seq<nat>>)

  ghost predicate DecoderFor(lens: seq<nat>, d: Decoder) {
    && |d.count| == |d.first| == |d.syms| == 33
    && forall l :: 1 <= l <= 32 ==>
         d.count[l] == Count(lens, l) && d.first[l] == FirstCode(lens, l) && d.syms[l] == OfLength(lens, l)
  }

  method BuildDecoder(lens: seq<nat>) returns (d: Decoder)
    requires |lens| == 256
    ensures DecoderFor(lens, d)
  {
    hide End;
    var count: seq<nat> := seq(33, _ => 0);
    var syms: seq<seq<nat>> := seq(33, _ => []);
    for s := 0 to 256
      invariant |count| == |syms| == 33
      invariant forall l :: 1 <= l <= 32 ==> count[l] == Count(lens[..s], l) && syms[l] == OfLength(lens[..s], l)
    {
      var l := lens[s];
      assert lens[..s + 1][..s] == lens[..s];
      if 0 < l <= 32 {
        count := count[l := count[l] + 1];
        syms := syms[l := syms[l] + [s]];
      }
    }
    assert lens[..256] == lens;
    var first: seq<nat> := seq(33, _ => 0);
    var c := 0;
    NoEnd(lens);
    for l := 1 to 33
      invariant |first| == 33 && c == 2 * End(lens, l - 1)
      invariant forall k :: 1 <= k < l ==> first[k] == FirstCode(lens, k)
    {
      EndStep(lens, l);
      first := first[l := c];
      c := (c + count[l]) * 2;
    }
    d := Decoder(count, first, syms);
  }

  lemma {:induction false} NoEnd(lens: seq<nat>)
    ensures End(lens, 0) == 0
  {
  }

  method Longest(lens: seq<nat>) returns (longest: nat)
    ensures forall s :: 0 <= s < |lens| ==> lens[s] <= longest
    ensures longest > 0 ==> exists s :: 0 <= s < |lens| && lens[s] == longest
  {
    longest := 0;
    for i := 0 to |lens|
      invariant forall s :: 0 <= s < i ==> lens[s] <= longest
      invariant longest > 0 ==> exists s :: 0 <= s < i && lens[s] == longest
    {
      if lens[i] > longest {
        longest := lens[i];
      }
    }
  }

  method KraftSum(lens: seq<nat>) returns (acc: nat)
    requires forall s :: 0 <= s < |lens| ==> lens[s] <= 32
    ensures acc == Sum(Terms(lens, Share(32)))
  {
    hide Pow2, Sum, Terms;
    acc := 0;
    NoTerms(lens, Share(32));
    for i := 0 to |lens|
      invariant acc == Sum(Terms(lens, Share(32))[..i])
    {
      TermsPrefix(lens, Share(32), i);
      if lens[i] > 0 {
        acc := acc + Pow2(32 - lens[i]);
      }
    }
    assert Terms(lens, Share(32))[..|lens|] == Terms(lens, Share(32));
  }

  lemma {:induction false} NoTerms(lens: seq<nat>, g: (nat, nat) -> int)
    ensures Sum(Terms(lens, g)[..0]) == 0
  {
  }

  /** The Kraft inequality in whole numbers; lengths above 32 are refused. */
  method KraftOk(lens: seq<nat>) returns (ok: bool)
    ensures ok <==> Fits(lens, 32)
  {
    hide Pow2, Sum, Terms;
    var longest := Longest(lens);
    if longest > 32 {
      return false;
    }
    var acc := KraftSum(lens);
    return acc <= Pow2(32);
  }

  /** Decoding gives the text of n symbols that the body's bits encode, if there is one. */
  method DecodeBody(body: seq<byte>, n: nat, lens: seq<nat>, longest: nat, d: Decoder)
    returns (r: Option<seq<byte>>)
    requires |lens| == 256 && Fits(lens, 32) && DecoderFor(lens, d)
    requires longest <= 32 && forall s :: 0 <= s < 256 ==> lens[s] <= longest
    ensures r.Some? ==> |r.value| == n && Coded(lens, r.value) && Encoded(lens, r.value) <= BitsOf(body)
    ensures r.None? ==> forall text :: |text| == n && Coded(lens, text) ==> !(Encoded(lens, text) <= BitsOf(body))
  {
    hide Fits, Encoded, BitsOf, Walked, Value, Recognised, FirstCode, Shr, Coded, DecoderFor, OfLength, Count;
    ghost var bits, e := BitsOf(body), 0;
    var out: seq<byte> := [];
    var pos, code, len := 0, 0, 0;
    WalkStart(lens, bits);
    while |out| < n
      invariant |out| <= n && e + len == pos <= |bits| && len <= longest
      invariant Walked(lens, bits, out, e, pos) && code == Value(bits[e..pos])
      decreases |bits| - pos
    {
      if pos >= 8 * |body| {
        StuckForAll(lens, longest, bits, out, e, pos, n);
        return None;
      }
      BitAt(body, pos);
      WalkStep(bits, e, pos);
      code := 2 * code + Shr(body[pos / 8], 7 - pos % 8) % 2;
      if len + 1 > longest {
        StuckForAll(lens, longest, bits, out, e, pos, n);
        return None;
      }
      pos, len := pos + 1, len + 1;
      var sym := Recognise(lens, d, len, code, bits[e..pos]);
      if sym.Some? {
        WalkFound(lens, bits, out, e, pos - 1);
        out := out + [sym.value];
        code, len, e := 0, 0, pos;
      } else {
        WalkOn(lens, bits, out, e, pos - 1);
      }
    }
    WalkDone(lens, bits, out, e, pos);
    return Some(out);
  }

  /** The table lookup: the symbol whose code these bits are, if they are a code. */
  method Recognise(lens: seq<nat>, d: Decoder, len: nat, code: nat, ghost pending: seq<bit>) returns (sym: Option<byte>)
    requires |lens| == 256 && DecoderFor(lens, d) && 1 <= len <= 32 && |pending| == len && code == Value(pending)
    ensures sym.Some? <==> Recognised(lens, pending)
    ensures sym.Some? ==>
      && FirstCode(lens, len) <= code < FirstCode(lens, len) + Count(lens, len)
      && sym.value == OfLength(lens, len)[code - FirstCode(lens, len)]
  {
    hide Value, FirstCode, OfLength, Count;
    if d.count[len] > 0 && d.first[len] <= code < d.first[len] + d.count[len] {
      sym := Some(d.syms[len][code - d.first[len]]);
    } else {
      sym := None;
    }
  }

  lemma {:induction false} StuckForAll(lens: seq<nat>, longest: nat, bits: seq<bit>, out: seq<byte>, e: nat, p: nat, n: nat)
    requires Fits(lens, 32) && Walked(lens, bits, out, e, p) && |out| < n
    requires forall s :: 0 <= s < |lens| ==> lens[s] <= longest
    requires p == |bits| || p - e >= longest
    ensures forall text :: |text| == n && Coded(lens, text) ==> !(Encoded(lens, text) <= bits)
  {
    hide Fits, Walked, Encoded, Coded;
    WalkBounds(lens, bits, out, e, p);
    forall text | |text| == n && Coded(lens, text)
      ensures !(Encoded(lens, text) <= bits)
    {
      Stuck(lens, 32, bits, out, e, p, text);
    }
  }

  lemma {:induction false} WalkBounds(lens: seq<nat>, bits: seq<bit>, out: seq<byte>, e: nat, p: nat)
    requires Walked(lens, bits, out, e, p)
    ensures e <= p <= |bits|
  {
  }

  lemma {:induction false} WalkStart(lens: seq<nat>, bits: seq<bit>)
    requires |lens| == 256
    ensures Walked(lens, bits, [], 0, 0) && Value([]) == 0
  {
    assert bits[..0] == [];
  }

  lemma {:induction false} WalkStep(bits: seq<bit>, e: nat, p: nat)
    requires e <= p < |bits|
    ensures Value(bits[e..p + 1]) == 2 * Value(bits[e..p]) + bits[p]
  {
    assert bits[e..p + 1][..p - e] == bits[e..p];
  }

  /** The walk ends in a symbol and starts anew. */
  lemma {:induction false} WalkFound(lens: seq<nat>, bits: seq<bit>, out: seq<byte>, e: nat, p: nat)
    requires |lens| == 256 && e <= p < |bits| && Walked(lens, bits, out, e, p)
    requires Recognised(lens, bits[e..p + 1])
    ensures var l, v := p + 1 - e, Value(bits[e..p + 1]);
      && FirstCode(lens, l) <= v < FirstCode(lens, l) + Count(lens, l)
      && Walked(lens, bits, out + [OfLength(lens, l)[v - FirstCode(lens, l)]], p + 1, p + 1)
    ensures bits[p + 1..p + 1] == [] && Value([]) == 0
  {
    hide Encoded, CodeBits, OfLength, Count, FirstCode;
    var l, pending := p + 1 - e, bits[e..p + 1];
    var s := OfLength(lens, l)[Value(pending) - FirstCode(lens, l)];
    RecognisedIsCode(lens, pending);
    EncodedAppend(lens, out, s);
    assert bits[..p + 1] == bits[..e] + pending;
    assert bits[p + 1..p + 1] == [];
  }

  /** The walk goes on by a bit. */
  lemma {:induction false} WalkOn(lens: seq<nat>, bits: seq<bit>, out: seq<byte>, e: nat, p: nat)
    requires Fits(lens, 32) && e <= p < |bits| && Walked(lens, bits, out, e, p)
    requires !Recognised(lens, bits[e..p + 1])
    ensures Walked(lens, bits, out, e, p + 1)
  {
    hide Encoded, Fits, Recognised, NoCode;
    assert bits[e..p + 1] == bits[e..p] + [bits[p]];
    NotRecognised(lens, 32, bits[e..p], bits[p]);
  }

  lemma {:induction false} WalkDone(lens: seq<nat>, bits: seq<bit>, out: seq<byte>, e: nat, p: nat)
    requires Walked(lens, bits, out, e, p)
    ensures Coded(lens, out) && Encoded(lens, out) <= bits
  {
    hide Encoded, NoCode;
  }
}
