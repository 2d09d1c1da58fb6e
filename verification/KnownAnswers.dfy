/**
Values of the generator worked out: the composition of one repair drop, with the draws it rejects.
*/
module KnownAnswers {
  import opened Bytes
  import opened PowersOfTwo
  import opened Arithmetic
  import opened Sequences
  import opened Gf256
  import opened LcRng
  import opened Sampling

  function Differ(x: nat, y: nat): nat {
    if x == y then 0 else 1
  }

  /** The last hexadecimal digit of an exclusive or, by its bits. */
  lemma {:induction false} XorHex(a: nat, x: nat, y: nat, z: nat, e: nat, b: nat, x': nat, y': nat, z': nat, e': nat)
    requires x < 2 && y < 2 && z < 2 && e < 2 && x' < 2 && y' < 2 && z' < 2 && e' < 2
    ensures Xor(16 * a + 8 * x + 4 * y + 2 * z + e, 16 * b + 8 * x' + 4 * y' + 2 * z' + e')
         == 16 * Xor(a, b) + 8 * Differ(x, x') + 4 * Differ(y, y') + 2 * Differ(z, z') + Differ(e, e')
  {
    hide Xor;
    XorBit(8 * a + 4 * x + 2 * y + z, e, 8 * b + 4 * x' + 2 * y' + z', e');
    XorBit(4 * a + 2 * x + y, z, 4 * b + 2 * x' + y', z');
    XorBit(2 * a + x, y, 2 * b + x', y');
    XorBit(a, x, b, x');
  }

  lemma {:induction false} OutputIs(s: nat, z: nat, x: nat, o: nat, q: nat)
    requires z == s / 0x2_0000_0000 && Xor(s, z) == x && x * MIX == q * TWO_64 + o && o < TWO_64
    ensures Output(s) == o
  {
    hide Xor;
    QuotientIs(x * MIX, TWO_64, q, o);
  }

  lemma {:induction false} DegreeOutput()
    ensures Output(13188729474857480335) == 9629117795761023553
  {
    hide Xor, Output;
    XorHex(824295592178592520, 1, 1, 1, 1, 95960636, 1, 0, 1, 0);
    XorHex(51518474511162032, 1, 0, 0, 0, 5997539, 1, 1, 0, 0);
    XorHex(3219904656947627, 0, 0, 0, 0, 374846, 0, 0, 1, 1);
    XorHex(201244041059226, 1, 0, 1, 1, 23427, 1, 1, 1, 0);
    XorHex(12577752566201, 1, 0, 1, 0, 1464, 0, 0, 1, 1);
    XorHex(786109535387, 1, 0, 0, 1, 91, 1, 0, 0, 0);
    XorHex(49131845961, 1, 0, 1, 1, 5, 1, 0, 1, 1);
    XorHex(3070740372, 1, 0, 0, 1, 0, 0, 1, 0, 1);
    XorZero(3070740372);
    OutputIs(13188729474857480335, 1535370186, 13188729475469759301, 9629117795761023553, 13153650000507481400);
  }

  lemma {:induction false} FirstOutput()
    ensures Output(3733233841707055986) == 10972819293311463693
  {
    hide Xor, Output;
    XorHex(233327115106690999, 0, 0, 1, 0, 27162851, 0, 0, 1, 1);
    XorHex(14582944694168187, 0, 1, 1, 1, 1697678, 0, 0, 1, 1);
    XorHex(911434043385511, 1, 0, 1, 1, 106104, 1, 1, 1, 0);
    XorHex(56964627711594, 0, 1, 1, 1, 6631, 1, 0, 0, 0);
    XorHex(3560289231974, 1, 0, 1, 0, 414, 0, 1, 1, 1);
    XorHex(222518076998, 0, 1, 1, 0, 25, 1, 1, 1, 0);
    XorHex(13907379812, 0, 1, 1, 0, 1, 1, 0, 0, 1);
    XorHex(869211238, 0, 1, 0, 0, 0, 0, 0, 0, 1);
    XorZero(869211238);
    OutputIs(3733233841707055986, 434605619, 3733233842128811329, 10972819293311463693, 3723304160627885584);
  }

  lemma {:induction false} SecondOutput()
    ensures Output(17322297797956256345) == 1415589227963299805
  {
    hide Xor, Output;
    XorHex(1082643612372266021, 1, 0, 0, 1, 126036304, 1, 0, 0, 0);
    XorHex(67665225773266626, 0, 1, 0, 1, 7877269, 0, 0, 0, 0);
    XorHex(4229076610829164, 0, 0, 1, 0, 492329, 0, 1, 0, 1);
    XorHex(264317288176822, 1, 1, 0, 0, 30770, 1, 0, 0, 1);
    XorHex(16519830511051, 0, 1, 1, 0, 1923, 0, 0, 1, 0);
    XorHex(1032489406940, 1, 0, 1, 1, 120, 0, 0, 1, 1);
    XorHex(64530587933, 1, 1, 0, 0, 7, 1, 0, 0, 0);
    XorHex(4033161745, 1, 1, 0, 1, 0, 0, 1, 1, 1);
    XorZero(4033161745);
    OutputIs(17322297797956256345, 2016580872, 17322297797013428049, 1415589227963299805, 17276223828100072162);
  }

  lemma {:induction false} ThirdOutput()
    ensures Output(7142272330956198388) == 8615114110251121491
  {
    hide Xor, Output;
    XorHex(446392020684762399, 0, 1, 0, 0, 51966870, 1, 0, 1, 1);
    XorHex(27899501292797649, 1, 1, 1, 1, 3247929, 0, 1, 1, 0);
    XorHex(1743718830799853, 0, 0, 0, 1, 202995, 1, 0, 0, 1);
    XorHex(108982426924990, 1, 1, 0, 1, 12687, 0, 0, 1, 1);
    XorHex(6811401682811, 1, 1, 1, 0, 792, 1, 1, 1, 1);
    XorHex(425712605175, 1, 0, 1, 1, 49, 1, 0, 0, 0);
    XorHex(26607037823, 0, 1, 1, 1, 3, 0, 0, 0, 1);
    XorHex(1662939863, 1, 1, 1, 1, 0, 0, 0, 1, 1);
    XorZero(1662939863);
    OutputIs(7142272330956198388, 831469931, 7142272330124880031, 8615114110251121491, 7123275264194883622);
  }

  lemma {:induction false} FourthOutput()
    ensures Output(5437005447181530419) == 17957712109284258349
  {
    hide Xor, Output;
    XorHex(339812840448845651, 0, 0, 1, 1, 39559421, 0, 0, 1, 0);
    XorHex(21238302528052853, 0, 0, 1, 1, 2472463, 1, 1, 0, 1);
    XorHex(1327393908003303, 0, 1, 0, 1, 154528, 1, 1, 1, 1);
    XorHex(82962119250206, 0, 1, 1, 1, 9658, 0, 0, 0, 0);
    XorHex(5185132453137, 1, 1, 1, 0, 603, 1, 0, 1, 0);
    XorHex(324070778321, 0, 0, 0, 1, 37, 1, 0, 1, 1);
    XorHex(20254423645, 0, 0, 0, 1, 2, 0, 1, 0, 1);
    XorHex(1265901477, 1, 1, 0, 1, 0, 0, 0, 1, 0);
    XorZero(1265901477);
    OutputIs(5437005447181530419, 632950738, 5437005447777516257, 17957712109284258349, 5422544062635769192);
  }

  lemma {:induction false} FifthOutput()
    ensures Output(18441191399070459974) == 11021599398805386581
  {
    hide Xor, Output;
    XorHex(1152574462441903748, 0, 1, 1, 0, 134177326, 1, 1, 1, 1);
    XorHex(72035903902618984, 0, 1, 0, 0, 8386082, 1, 1, 1, 0);
    XorHex(4502243993913686, 1, 0, 0, 0, 524130, 0, 0, 1, 0);
    XorHex(281390249619605, 0, 1, 1, 0, 32758, 0, 0, 1, 0);
    XorHex(17586890601225, 0, 1, 0, 1, 2047, 0, 1, 1, 0);
    XorHex(1099180662576, 1, 0, 0, 1, 127, 1, 1, 1, 1);
    XorHex(68698791411, 0, 0, 0, 0, 7, 1, 1, 1, 1);
    XorHex(4293674463, 0, 0, 1, 1, 0, 0, 1, 1, 1);
    XorZero(4293674463);
    OutputIs(18441191399070459974, 2146837231, 18441191399587269289, 11021599398805386581, 18392141389639032446);
  }

  lemma {:induction false} SixthOutput()
    ensures Output(3771530548202409885) == 3002346914272947103
  {
    hide Xor, Output;
    XorHex(235720659262650617, 1, 1, 0, 1, 27441496, 0, 1, 1, 0);
    XorHex(14732541203915663, 1, 0, 0, 1, 1715093, 1, 0, 0, 0);
    XorHex(920783825244728, 1, 1, 1, 1, 107193, 0, 1, 0, 1);
    XorHex(57548989077795, 1, 0, 0, 0, 6699, 1, 0, 0, 1);
    XorHex(3596811817362, 0, 0, 1, 1, 418, 1, 0, 1, 1);
    XorHex(224800738585, 0, 0, 1, 0, 26, 0, 0, 1, 0);
    XorHex(14050046161, 1, 0, 0, 1, 1, 1, 0, 1, 0);
    XorHex(878127885, 0, 0, 0, 1, 0, 0, 0, 0, 1);
    XorZero(878127885);
    OutputIs(3771530548202409885, 439063942, 3771530547831511579, 3002346914272947103, 3761499004484732199);
  }

  lemma {:induction false} SeventhOutput()
    ensures Output(3501723752633705192) == 3093725220757565309
  {
    hide Xor, Output;
    XorHex(218857734539606574, 1, 0, 0, 0, 25478393, 1, 0, 0, 1);
    XorHex(13678608408725410, 1, 1, 1, 0, 1592399, 1, 0, 0, 1);
    XorHex(854913025545338, 0, 0, 1, 0, 99524, 1, 1, 1, 1);
    XorHex(53432064096583, 1, 0, 1, 0, 6220, 0, 1, 0, 0);
    XorHex(3339504006036, 0, 1, 1, 1, 388, 1, 1, 0, 0);
    XorHex(208719000377, 0, 1, 0, 0, 24, 0, 1, 0, 0);
    XorHex(13044937523, 1, 0, 0, 1, 1, 1, 0, 0, 0);
    XorHex(815308595, 0, 0, 1, 1, 0, 0, 0, 0, 1);
    XorZero(815308595);
    OutputIs(3501723752633705192, 407654297, 3501723752227138929, 3093725220757565309, 3492409842883593883);
  }

  lemma {:induction false} EighthOutput()
    ensures Output(15558316862492654615) == 290523308012436043
  {
    hide Xor, Output;
    XorHex(972394803905790913, 0, 1, 1, 1, 113201654, 0, 0, 0, 0);
    XorHex(60774675244111932, 0, 0, 0, 1, 7075103, 0, 1, 1, 0);
    XorHex(3798417202756995, 1, 1, 0, 0, 442193, 1, 1, 1, 1);
    XorHex(237401075172312, 0, 0, 1, 1, 27637, 0, 0, 0, 1);
    XorHex(14837567198269, 1, 0, 0, 0, 1727, 0, 1, 0, 1);
    XorHex(927347949891, 1, 1, 0, 1, 107, 1, 1, 1, 1);
    XorHex(57959246868, 0, 0, 1, 1, 6, 1, 0, 1, 1);
    XorHex(3622452929, 0, 1, 0, 0, 0, 0, 1, 1, 0);
    XorZero(3622452929);
    OutputIs(15558316862492654615, 1811226464, 15558316862028456823, 290523308012436043, 15516934741951475436);
  }

  lemma {:induction false} NinthOutput()
    ensures Output(1550521251420469850) == 2208895933200167588
  {
    hide Xor, Output;
    XorHex(96907578213779365, 1, 0, 1, 0, 11281526, 1, 1, 1, 0);
    XorHex(6056723638361210, 0, 1, 0, 1, 705095, 0, 1, 1, 0);
    XorHex(378545227397575, 1, 0, 1, 0, 44068, 0, 1, 1, 1);
    XorHex(23659076712348, 0, 1, 1, 1, 2754, 0, 1, 0, 0);
    XorHex(1478692294521, 1, 1, 0, 0, 172, 0, 0, 1, 0);
    XorHex(92418268407, 1, 0, 0, 1, 10, 1, 1, 0, 0);
    XorHex(5776141775, 0, 1, 1, 1, 0, 1, 0, 1, 0);
    XorZero(5776141775);
    OutputIs(1550521251420469850, 180504430, 1550521251517054260, 2208895933200167588, 1546397164240699312);
  }

  /** One draw: a repeated index is rejected, a new one kept. */
  lemma {:induction false} OneDraw(s: nat, t: nat, k: nat, d: nat, chosen: seq<nat>, i: nat,
                                   next: seq<nat>)
    requires s < TWO_64 && |chosen| < d <= k <= TWO_64 && t == Next(s) && i == Output(t) % k
    requires next == if i in chosen then chosen else chosen + [i]
    ensures t < TWO_64 && |next| <= d && Sample(s, k, d, chosen) == Sample(t, k, d, next)
  {
    hide Output, Next, Wait;
    NextBound(s);
  }

  /** Drop 3 of four blocks: nine draws, of which three are kept. */
  lemma {:induction false} DrawsOfFour()
    ensures Sample(13188729474857480335, 4, 3, []) == [1, 3, 0]
  {
    hide Output, Sample;
    FirstOutput();
    SecondOutput();
    ThirdOutput();
    FourthOutput();
    FifthOutput();
    SixthOutput();
    SeventhOutput();
    EighthOutput();
    NinthOutput();
    StatesOfFour();
    hide Next;
    OneDraw(13188729474857480335, 3733233841707055986, 4, 3, [], 1, [1]);
    OneDraw(3733233841707055986, 17322297797956256345, 4, 3, [1], 1, [1]);
    OneDraw(17322297797956256345, 7142272330956198388, 4, 3, [1], 3, [1, 3]);
    OneDraw(7142272330956198388, 5437005447181530419, 4, 3, [1, 3], 1, [1, 3]);
    OneDraw(5437005447181530419, 18441191399070459974, 4, 3, [1, 3], 1, [1, 3]);
    OneDraw(18441191399070459974, 3771530548202409885, 4, 3, [1, 3], 3, [1, 3]);
    OneDraw(3771530548202409885, 3501723752633705192, 4, 3, [1, 3], 1, [1, 3]);
    OneDraw(3501723752633705192, 15558316862492654615, 4, 3, [1, 3], 3, [1, 3]);
    OneDraw(15558316862492654615, 1550521251420469850, 4, 3, [1, 3], 0, [1, 3, 0]);
    SampleDone(1550521251420469850, 4, [1, 3, 0]);
  }

  lemma {:induction false} SampleDone(s: nat, k: nat, chosen: seq<nat>)
    requires s < TWO_64 && |chosen| <= k <= TWO_64
    ensures Sample(s, k, |chosen|, chosen) == chosen
  {
  }

  lemma {:induction false} StatesOfFour()
    ensures Next(Seed(3)) == 13188729474857480335
    ensures Next(13188729474857480335) == 3733233841707055986
    ensures Next(3733233841707055986) == 17322297797956256345
    ensures Next(17322297797956256345) == 7142272330956198388
    ensures Next(7142272330956198388) == 5437005447181530419
    ensures Next(5437005447181530419) == 18441191399070459974
    ensures Next(18441191399070459974) == 3771530548202409885
    ensures Next(3771530548202409885) == 3501723752633705192
    ensures Next(3501723752633705192) == 15558316862492654615
    ensures Next(15558316862492654615) == 1550521251420469850
  {
    hide Next;
    assert Seed(3) == 15755400384260043840;
    NextIs(15755400384260043840, 13188729474857480335, 5435621262268388442);
    NextIs(13188729474857480335, 3733233841707055986, 4550118474136638406);
    NextIs(3733233841707055986, 17322297797956256345, 1287967601716762862);
    NextIs(17322297797956256345, 7142272330956198388, 5976201678503902959);
    NextIs(7142272330956198388, 5437005447181530419, 2464087639552552883);
    NextIs(5437005447181530419, 18441191399070459974, 1875769684742096858);
    NextIs(18441191399070459974, 3771530548202409885, 6362220548231157262);
    NextIs(3771530548202409885, 3501723752633705192, 1301179985218546790);
    NextIs(3501723752633705192, 15558316862492654615, 1208096501528542847);
    NextIs(15558316862492654615, 1550521251420469850, 5367627345564641777);
  }

  lemma {:induction false} NextIs(s: nat, t: nat, q: nat)
    requires s * MULTIPLIER + INCREMENT == q * TWO_64 + t && t < TWO_64
    ensures Next(s) == t
  {
    QuotientIs(s * MULTIPLIER + INCREMENT, TWO_64, q, t);
  }

  lemma {:induction false} CompositionOfFour()
    ensures Composition(4, 3) == [0, 1, 3]
  {
    hide Output, Sample, Next, Seed;
    StatesOfFour();
    DegreeOutput();
    DrawsOfFour();
    assert Degree(4, 13188729474857480335) == 3;
    var drawn := Members([1, 3, 0]);
    assert forall x: nat :: x in drawn <==> x == 0 || x == 1 || x == 3;
    assert Ascending(drawn, 1) == [0];
    assert Ascending(drawn, 2) == [0, 1];
    assert Ascending(drawn, 3) == [0, 1];
    assert Ascending(drawn, 4) == [0, 1, 3];
  }
}
