/** Packing the codes of the input into bytes, most significant bit first. */
module HuffmanPacking {
  import opened Bytes
  import opened PowersOfTwo
  import opened BitStrings
  import opened CanonicalCode

  /** Every byte of the input has a code. */
  ghost predicate Coded(lens: seq<nat>, data: seq<byte>) {
    |lens| == 256 && forall i :: 0 <= i < |data| ==> lens[data[i]] > 0
  }

  function Encoded(lens: seq<nat>, data: seq<byte>): seq<bit>
    requires Coded(lens, data)
  {
    if data == [] then []
    else
      var n := |data| - 1;
      Encoded(lens, data[..n]) + CodeBits(lens, data[n])
  }

  /** At most 57 bits, so that a code and seven waiting bits fit a 64-bit word. */
  ghost predicate Short(lens: seq<nat>) {
    forall s :: 0 <= s < |lens| ==> lens[s] <= 57
  }

  lemma {:induction false} ShortAt(lens: seq<nat>, s: nat)
    requires s < |lens|
    ensures Short(lens) ==> lens[s] <= 57
  {
  }

  ghost predicate CodesFor(lens: seq<nat>, codes: seq<nat>) {
    |lens| == |codes| && forall s :: 0 <= s < |lens| && lens[s] > 0 ==> codes[s] == Code(lens, s) < Pow2(lens[s])
  }

  /** The bytes so far and the low bits of the word are the codes so far. */
  ghost predicate Packed(out: seq<byte>, buf: nat, cnt: nat, lens: seq<nat>, data: seq<byte>) {
    Coded(lens, data) && BitsOf(out) + Bits(buf, cnt) == Encoded(lens, data)
  }

  lemma {:induction false} NothingPacked(lens: seq<nat>, data: seq<byte>)
    requires data == [] && |lens| == 256
    ensures Packed([], 0, 0, lens, data)
  {
  }

  lemma {:induction false} PushCode(out: seq<byte>, buf: nat, cnt: nat, lens: seq<nat>, codes: seq<nat>,
                                    data: seq<byte>, i: nat)
    requires i < |data| && Coded(lens, data) && Packed(out, buf, cnt, lens, data[..i]) && cnt < 8
    requires Short(lens) && CodesFor(lens, codes)
    ensures Packed(out, Or(Shl(buf, lens[data[i]]), codes[data[i]]), cnt + lens[data[i]], lens, data[..i + 1])
  {
    hide Bits, Low, Or, Code, Pow2;
    var n, c := lens[data[i]], codes[data[i]];
    assert n <= 57;
    LowOfShifted(buf, n, 64);
    var high := Low(buf, 64 - n);
    OrOfApart(high, c, n);
    ShiftBits(high, c, cnt, n);
    LowBits(buf, 64 - n, cnt);
    assert data[..i + 1][..i] == data[..i];
  }

  lemma {:induction false} PopByte(out: seq<byte>, buf: nat, cnt: nat, lens: seq<nat>, data: seq<byte>)
    requires Packed(out, buf, cnt, lens, data) && 8 <= cnt <= 64
    ensures Low(Shr(buf, cnt - 8), 8) < 256
    ensures Packed(out + [Low(Shr(buf, cnt - 8), 8)], buf, cnt - 8, lens, data)
  {
    hide Bits, Low, Shr, Encoded;
    var high := Shr(buf, cnt - 8);
    SplitBits(buf, 8, cnt - 8);
    LowBits(high, 8, 8);
    Pow2Of8(8);
    var next := Low(high, 8);
    assert (out + [next])[..|out|] == out;
    assert BitsOf(out + [next]) == BitsOf(out) + Bits(next, 8);
  }

  /** The last byte is filled up with zero bits. */
  lemma {:induction false} Flush(out: seq<byte>, buf: nat, cnt: nat, lens: seq<nat>, data: seq<byte>)
    requires Packed(out, buf, cnt, lens, data) && 0 < cnt < 8
    ensures Low(Shl(buf, 8 - cnt), 8) < 256
    ensures BitsOf(out + [Low(Shl(buf, 8 - cnt), 8)]) == Encoded(lens, data) + Bits(0, 8 - cnt)
  {
    hide Bits, Low, Encoded, Pow2;
    var n := 8 - cnt;
    var shifted := Shl(buf, n);
    Pow2Positive(n);
    ShiftBits(buf, 0, cnt, n);
    LowBits(buf * Pow2(n), 64, 8);
    LowBits(shifted, 8, 8);
    Pow2Of8(8);
    var next := Low(shifted, 8);
    assert (out + [next])[..|out|] == out;
    assert BitsOf(out + [next]) == BitsOf(out) + Bits(next, 8);
  }

  lemma {:induction false} EncodedGrows(lens: seq<nat>, data: seq<byte>, i: nat)
    requires Coded(lens, data) && i < |data|
    ensures |Encoded(lens, data[..i + 1])| == |Encoded(lens, data[..i])| + lens[data[i]]
  {
    assert data[..i + 1][..i] == data[..i];
  }

  /** The body: all codes in order, then fewer than eight zero bits. Its size is right for codes of
      any length. */
  method PackBody(data: seq<byte>, lens: seq<nat>, codes: seq<nat>) returns (body: seq<byte>)
    requires Coded(lens, data) && |codes| == 256
    ensures |body| == (|Encoded(lens, data)| + 7) / 8
    ensures Short(lens) && CodesFor(lens, codes) ==>
      exists pad: nat :: pad < 8 && BitsOf(body) == Encoded(lens, data) + Bits(0, pad)
  {
    hide Bits, BitsOf, Encoded, Or, Shl, Shr, Low, Pow2, CodesFor, Short;
    ghost var short := Short(lens) && CodesFor(lens, codes);
    body := [];
    var buf, cnt := 0, 0;
    NothingPacked(lens, data[..0]);
    assert Encoded(lens, data[..0]) == [];
    for i := 0 to |data|
      invariant cnt < 8 && 8 * |body| + cnt == |Encoded(lens, data[..i])|
      invariant short ==> Packed(body, buf, cnt, lens, data[..i])
    {
      EncodedGrows(lens, data, i);
      if short {
        PushCode(body, buf, cnt, lens, codes, data, i);
      }
      assert short ==> lens[data[i]] <= 57 by {
        ShortAt(lens, data[i]);
      }
      buf := Or(Shl(buf, lens[data[i]]), codes[data[i]]);
      cnt := cnt + lens[data[i]];
      while cnt >= 8
        invariant 8 * |body| + cnt == |Encoded(lens, data[..i + 1])|
        invariant short ==> cnt <= 64 && Packed(body, buf, cnt, lens, data[..i + 1])
      {
        if short {
          PopByte(body, buf, cnt, lens, data[..i + 1]);
        }
        var next := Low(Shr(buf, (cnt - 8) % 64), 8);
        Pow2Of8(8);
        body := body + [next];
        cnt := cnt - 8;
      }
    }
    assert data[..|data|] == data;
    if cnt > 0 {
      if short {
        Flush(body, buf, cnt, lens, data);
      }
      Pow2Of8(8);
      body := body + [Low(Shl(buf, 8 - cnt), 8)];
    } else {
      assert Bits(buf, 0) == [] == Bits(0, 0);
      assert short ==> BitsOf(body) == Encoded(lens, data) + Bits(0, 0);
    }
  }
}
