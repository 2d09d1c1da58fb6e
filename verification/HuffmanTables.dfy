/** The encoder's tables: frequencies, code lengths and canonical codes. */
module HuffmanTables {
  import opened PowersOfTwo
  import opened BitStrings
  import opened HuffmanLengths
  import opened CanonicalCode
  import opened HuffmanPacking

  // ---- Codes -----------------------------------------------------------------------------------

  lemma {:induction false} ShiftedCode(lens: seq<nat>, s: nat, t: nat)
    requires Follows(lens, s, t) && lens[t] <= 63 && Fits(lens, 63)
    ensures Shl(Code(lens, s) + 1, lens[t] - lens[s]) == Code(lens, t)
  {
    hide Low, Pow2, Code, Fits;
    CodeSmall(lens, t, 63);
    Pow2Grows(lens[t], 64);
    LowOfSmall(Code(lens, t), 64);
  }

  lemma {:induction false} CodeSmall(lens: seq<nat>, s: nat, m: nat)
    requires Fits(lens, m) && s < |lens| && lens[s] > 0
    ensures Code(lens, s) < Pow2(lens[s])
  {
    CodeRange(lens, s);
    EndFits(lens, lens[s], m);
  }

  /** Codes in order of (length, symbol), each the one before plus one, shifted. */
  method AssignCodes(lens: seq<nat>) returns (codes: seq<nat>)
    requires |lens| == 256 && forall s :: 0 <= s < 256 ==> lens[s] < 256
    ensures |codes| == 256
    ensures Fits(lens, 63) ==> CodesFor(lens, codes)
  {
    hide Shl, Code, Fits, ByLength, Follows;
    codes := Zeros(256);
    var order := ByLength(lens, 255);
    var code, prev := 0, 0;
    ghost var short := Fits(lens, 63);
    for k := 0 to |order|
      invariant |codes| == 256
      invariant prev == (if k == 0 then 0 else lens[order[k - 1]])
      invariant short ==> code == (if k == 0 then 0 else Code(lens, order[k - 1]))
      invariant short ==> forall i :: 0 <= i < k ==> codes[order[i]] == Code(lens, order[i])
    {
      var s := order[k];
      NextCode(lens, 255, k);
      if prev > 0 {
        assert Follows(lens, order[k - 1], s);
        FollowsLonger(lens, order[k - 1], s);
        if short {
          FitsWithin(lens, s, 63);
          ShiftedCode(lens, order[k - 1], s);
        }
        code := Shl(code + 1, lens[s] - prev);
      }
      codes := codes[s := code];
      prev := lens[s];
    }
    if short {
      forall s | 0 <= s < 256 && lens[s] > 0
        ensures codes[s] == Code(lens, s) < Pow2(lens[s])
      {
        ByLengthComplete(lens, 255, s);
        CodeSmall(lens, s, 63);
      }
    }
  }

  lemma {:induction false} FitsWithin(lens: seq<nat>, s: nat, m: nat)
    requires Fits(lens, m) && s < |lens|
    ensures lens[s] <= m
  {
  }

  lemma {:induction false} FollowsLonger(lens: seq<nat>, s: nat, t: nat)
    requires Follows(lens, s, t)
    ensures s < |lens| && t < |lens| && 0 < lens[s] <= lens[t]
  {
  }
}
