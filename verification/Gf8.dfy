/**
The table-driven arithmetic of the program: `Gf8::new`, `mul` and `inv`.
*/
module Gf8Tables {
  import opened Bytes
  import opened Wrappers
  import Gf256
  import opened Gf256Log

  lemma {:induction false} ReducedBy11D(x: byte)
    requires x >= 128
    ensures Xor(2 * x, 0x11D) == Gf256.Xtime(x)
  {
    hide Xor, Gf256.Xtime;
    Gf256.TopBitTwice(2 * x - 256, 0x1D, 256);
    Gf256.XtimeReduces(x);
  }

  /** One turn of the table loop on a 16-bit register: shift, reduce by 0x11D, keep 8 bits. */
  method Turn(x: byte) returns (y: byte)
    ensures y == Gf256.Xtime(x)
  {
    hide Xor;
    if x >= 128 {
      ReducedBy11D(x);
      y := Xor(2 * x, 0x11D) % 256;
    } else {
      y := 2 * x;
    }
  }

  lemma {:induction false} PowerNext(n: nat)
    ensures Gf256.Power(n + 1) == Gf256.Xtime(Gf256.Power(n)) && Gf256.Power(0) == 1
  {
  }

  /** The first loop: powers of x going up, logarithms alongside. */
  method FillPowers(logs: array<nat>, exps: array<byte>)
    requires logs.Length == 256 && exps.Length == 512
    modifies logs, exps
    ensures forall j :: 0 <= j < 255 ==> exps[j] == Gf256.Power(j)
    ensures forall j :: 0 <= j < 255 ==> logs[Gf256.Power(j)] == j
  {
    hide Gf256.Power, Gf256.Xtime;
    var x: byte := 1;
    var i := 0;
    PowerNext(0);
    while i < 255
      invariant 0 <= i <= 255
      invariant x == Gf256.Power(i)
      invariant forall j :: 0 <= j < i ==> exps[j] == Gf256.Power(j)
      invariant forall j :: 0 <= j < i ==> logs[Gf256.Power(j)] == j
    {
      forall j: nat | j < i
        ensures Gf256.Power(j) != x
      {
        PowerInjective(j, i);
      }
      exps[i] := x;
      logs[x] := i;
      x := Turn(x);
      PowerNext(i);
      i := i + 1;
    }
  }

  /** The second loop: the run of 255 powers once more. */
  method RepeatPowers(exps: array<byte>)
    requires exps.Length == 512
    requires forall j :: 0 <= j < 255 ==> exps[j] == Gf256.Power(j)
    modifies exps
    ensures forall j :: 0 <= j < 510 ==> exps[j] == Gf256.Power(j)
  {
    var j := 255;
    while j < 510
      invariant 255 <= j <= 510
      invariant forall l :: 0 <= l < j ==> exps[l] == Gf256.Power(l)
    {
      PowerWraps(j - 255, 255);
      exps[j] := exps[j - 255];
      j := j + 1;
    }
  }

  class Gf8 {
    const log: array<nat>
    const exp: array<byte>

    /** Each table is the mathematical function it tabulates. */
    ghost predicate Valid()
      reads this, log, exp
    {
      && log.Length == 256
      && exp.Length == 512
      && (forall a: byte :: a != 0 ==> log[a] == Log(a))
      && (forall i :: 0 <= i < 510 ==> exp[i] == Gf256.Power(i))
    }

    constructor ()
      ensures Valid()
      ensures fresh(log) && fresh(exp)
    {
      var logs := new nat[256](_ => 0);
      var exps := new byte[512](_ => 0);
      FillPowers(logs, exps);
      RepeatPowers(exps);
      log := logs;
      exp := exps;
      assert forall a: byte :: a != 0 ==> logs[Gf256.Power(Log(a))] == Log(a);
    }

    /** The table product is the product of the field. */
    function Mul(a: byte, b: byte): (r: byte)
      requires Valid()
      reads this, log, exp
      ensures r == Gf256.Mul(a, b)
    {
      if a == 0 || b == 0 then
        Gf256.MulZero(a);
        Gf256.MulZero(b);
        0
      else
        Gf256.PowerAdd(Log(a), Log(b));
        exp[log[a] + log[b]]
    }

    /** The table inverse exists exactly for nonzero bytes, and inverts. */
    function Inv(a: byte): (r: Option<byte>)
      requires Valid()
      reads this, log, exp
      ensures r == if a == 0 then None else Some(Inverse(a))
      ensures r.Some? ==> Gf256.Mul(a, r.value) == 1
    {
      if a == 0 then None else Some(exp[255 - log[a]])
    }
  }
}
