/**
 The period of the checksum register. Registers are polynomials modulo the generator, the top bit
 being the constant term, and a bit step multiplies by x; x has order 32767.
 */
module CrcPeriod {
  import opened Crc

  const UNIT: bv16 := 0x8000

  // -- Multiplication -------------------------------------------------------------------------

  function Pick(b: bool, y: bv16): bv16 {
    if b then y else 0
  }

  function Xor(a: bv16, b: bv16): bv16 {
    a ^ b
  }

  /** Horner's rule over the low `n` bits of `p`, the coefficients of highest degree first. */
  function Horner(n: nat, p: bv16, acc: bv16, y: bv16): bv16
    decreases n
  {
    if n == 0 then acc else Horner(n - 1, Half(p), Xor(BitStep(acc), Pick(LowBit(p), y)), y)
  }

  function Times(p: bv16, y: bv16): bv16 {
    Horner(16, p, 0, y)
  }

  lemma StepOfXor(a: bv16, b: bv16)
    ensures BitStep(Xor(a, b)) == Xor(BitStep(a), BitStep(b))
  {
    hide BitStep;
    BitStepXor(a, b);
  }

  lemma XorGroups(a: bv16, b: bv16, c: bv16)
    ensures Xor(Xor(a, b), c) == Xor(a, Xor(b, c))
  {
  }

  lemma Zeros(a: bv16)
    ensures BitStep(0) == 0 && Xor(a, 0) == a && Xor(0, a) == a && Xor(a, a) == 0
  {
  }

  lemma {:induction false} StepsAdd(n: nat, m: nat, c: bv16)
    ensures Steps(n + m, c) == Steps(m, Steps(n, c))
    decreases n
  {
    hide BitStep;
    if n > 0 {
      StepsAdd(n - 1, m, BitStep(c));
    }
  }

  lemma StepsNext(n: nat, c: bv16)
    ensures Steps(n + 1, c) == BitStep(Steps(n, c))
  {
    hide BitStep;
    StepsAdd(n, 1, c);
    assert Steps(1, Steps(n, c)) == Steps(0, BitStep(Steps(n, c)));
  }

  lemma {:induction false} StepsOfZero(n: nat)
    ensures Steps(n, 0) == 0
  {
    if n > 0 {
      Zeros(0);
      StepsOfZero(n - 1);
    }
  }

  lemma XorCommutes(a: bv16, b: bv16)
    ensures Xor(a, b) == Xor(b, a)
  {
  }

  lemma XorShuffle(a: bv16, b: bv16, c: bv16, d: bv16)
    ensures Xor(Xor(a, b), Xor(c, d)) == Xor(Xor(a, c), Xor(b, d))
  {
    hide Xor;
    XorGroups(a, b, Xor(c, d));
    XorGroups(b, c, d);
    XorCommutes(b, c);
    XorGroups(c, b, d);
    XorGroups(a, c, Xor(b, d));
  }

  /** What is accumulated already is carried along, next to what the bits of `p` contribute. */
  lemma {:induction false} Carried(n: nat, p: bv16, acc: bv16, y: bv16)
    ensures Horner(n, p, acc, y) == Xor(Steps(n, acc), Horner(n, p, 0, y))
    decreases n
  {
    hide BitStep, Xor, Pick, LowBit, Half;
    Zeros(acc);
    if n > 0 {
      var c := Pick(LowBit(p), y);
      Zeros(c);
      Carried(n - 1, Half(p), Xor(BitStep(acc), c), y);
      Carried(n - 1, Half(p), Xor(BitStep(0), c), y);
      StepsOfXor(n - 1, BitStep(acc), c);
      XorGroups(Steps(n - 1, BitStep(acc)), Steps(n - 1, c), Horner(n - 1, Half(p), 0, y));
    }
  }

  lemma {:induction false} StepsOfXor(n: nat, a: bv16, b: bv16)
    ensures Steps(n, Xor(a, b)) == Xor(Steps(n, a), Steps(n, b))
    decreases n
  {
    hide BitStep, Xor;
    if n > 0 {
      StepOfXor(a, b);
      StepsOfXor(n - 1, BitStep(a), BitStep(b));
    }
  }

  lemma HornerShift(n: nat, p: bv16, y: bv16)
    ensures Horner(n + 1, p, 0, y) == Xor(Steps(n, Pick(LowBit(p), y)), Horner(n, Half(p), 0, y))
  {
    hide BitStep, Xor, Pick, LowBit, Half;
    Zeros(Pick(LowBit(p), y));
    Carried(n, Half(p), Pick(LowBit(p), y), y);
  }

  /** The last bit processed is added to a step of everything before it. */
  lemma {:induction false} HornerLast(n: nat, p: bv16, acc: bv16, y: bv16)
    ensures Horner(n + 1, p, acc, y) == Xor(BitStep(Horner(n, p, acc, y)), Pick(BitOf(p, n), y))
    decreases n
  {
    hide BitStep, Xor, Pick, LowBit, Half;
    if n > 0 {
      HornerLast(n - 1, Half(p), Xor(BitStep(acc), Pick(LowBit(p), y)), y);
    }
  }

  lemma PickXor(a: bool, b: bool, y: bv16)
    ensures Pick(a != b, y) == Xor(Pick(a, y), Pick(b, y))
  {
    hide Xor;
    Zeros(y);
    Zeros(0);
  }

  lemma HalfOfXor(a: bv16, b: bv16)
    ensures Half(Xor(a, b)) == Xor(Half(a), Half(b)) && LowBit(Xor(a, b)) == (LowBit(a) != LowBit(b))
  {
  }

  lemma {:induction false} HornerLinear(n: nat, a: bv16, b: bv16, y: bv16)
    ensures Horner(n, Xor(a, b), 0, y) == Xor(Horner(n, a, 0, y), Horner(n, b, 0, y))
    decreases n
  {
    hide BitStep, Xor, Pick, LowBit, Half;
    if n == 0 {
      Zeros(0);
    } else {
      HalfOfXor(a, b);
      HornerLinear(n - 1, Half(a), Half(b), y);
      HornerShift(n - 1, Xor(a, b), y);
      HornerShift(n - 1, a, y);
      HornerShift(n - 1, b, y);
      PickXor(LowBit(a), LowBit(b), y);
      StepsOfXor(n - 1, Pick(LowBit(a), y), Pick(LowBit(b), y));
      XorShuffle(Steps(n - 1, Pick(LowBit(a), y)), Steps(n - 1, Pick(LowBit(b), y)),
                 Horner(n - 1, Half(a), 0, y), Horner(n - 1, Half(b), 0, y));
    }
  }

  lemma TopContribution(p: bv16, y: bv16)
    ensures Times(Half(p), y) == BitStep(Horner(15, Half(p), 0, y))
  {
    HalfBelow(p);
    hide BitStep, Xor, Half, BitOf;
    TopBitClear(Half(p));
    HornerLast(15, Half(p), 0, y);
    Zeros(BitStep(Horner(15, Half(p), 0, y)));
  }

  lemma StepOfTimes(p: bv16, y: bv16)
    ensures BitStep(Times(p, y)) == Xor(Steps(16, Pick(LowBit(p), y)), Times(Half(p), y))
  {
    hide BitStep, Xor, Pick, LowBit, Half;
    var c := Pick(LowBit(p), y);
    HornerShift(15, p, y);
    StepOfXor(Steps(15, c), Horner(15, Half(p), 0, y));
    StepsNext(15, c);
    TopContribution(p, y);
  }

  // -- The multiplication written out, for particular values ------------------------------------

  function OneBit(p: bv16, acc: bv16, y: bv16): bv16 {
    Xor(BitStep(acc), Pick(LowBit(p), y))
  }

  function FourBits(p: bv16, acc: bv16, y: bv16): bv16 {
    OneBit(Half(Half(Half(p))), OneBit(Half(Half(p)), OneBit(Half(p), OneBit(p, acc, y), y), y), y)
  }

  function Product(p: bv16, y: bv16): bv16 {
    var q, r, s := FourHalves(p), FourHalves(FourHalves(p)), FourHalves(FourHalves(FourHalves(p)));
    FourBits(s, FourBits(r, FourBits(q, FourBits(p, 0, y), y), y), y)
  }

  lemma HornerFour(n: nat, p: bv16, acc: bv16, y: bv16)
    ensures Horner(n + 4, p, acc, y) == Horner(n, FourHalves(p), FourBits(p, acc, y), y)
  {
    hide BitStep, Xor, Pick, LowBit, Half;
    var a := OneBit(p, acc, y);
    var b := OneBit(Half(p), a, y);
    var c := OneBit(Half(Half(p)), b, y);
    assert Horner(n + 4, p, acc, y) == Horner(n + 3, Half(p), a, y) == Horner(n + 2, Half(Half(p)), b, y);
    assert Horner(n + 2, Half(Half(p)), b, y) == Horner(n + 1, Half(Half(Half(p))), c, y);
  }

  lemma HornerDone(p: bv16, acc: bv16, y: bv16)
    ensures Horner(0, p, acc, y) == acc
  {
  }

  lemma TimesIsProduct(p: bv16, y: bv16)
    ensures Times(p, y) == Product(p, y)
  {
    hide FourBits, FourHalves, Horner;
    var q, r, s := FourHalves(p), FourHalves(FourHalves(p)), FourHalves(FourHalves(FourHalves(p)));
    var a := FourBits(p, 0, y);
    var b := FourBits(q, a, y);
    var c := FourBits(r, b, y);
    HornerFour(12, p, 0, y);
    HornerFour(8, q, a, y);
    HornerFour(4, r, b, y);
    HornerFour(0, s, c, y);
    HornerDone(FourHalves(s), FourBits(s, c, y), y);
  }

  // -- A step of the register is multiplication by x --------------------------------------------

  function FourSteps(y: bv16): bv16 {
    BitStep(BitStep(BitStep(BitStep(y))))
  }

  /** Sixteen steps are the sum of twelve, five and none: the generator vanishes. */
  predicate Vanishes(y: bv16) {
    EightSteps(EightSteps(y)) == Xor(Xor(EightSteps(FourSteps(y)), FourSteps(BitStep(y))), y)
  }

  lemma VanishesTop(y: bv16)
    requires y & 0x0fff == 0
    ensures Vanishes(y)
  {
  }

  lemma VanishesUpper(y: bv16)
    requires y & 0xf0ff == 0
    ensures Vanishes(y)
  {
  }

  lemma VanishesLower(y: bv16)
    requires y & 0xff0f == 0
    ensures Vanishes(y)
  {
  }

  lemma VanishesBottom(y: bv16)
    requires y & 0xfff0 == 0
    ensures Vanishes(y)
  {
  }

  lemma Nibbles(y: bv16)
    ensures y == Xor(Xor(y & 0xf000, y & 0x0f00), Xor(y & 0x00f0, y & 0x000f))
    ensures (y & 0xf000) & 0x0fff == 0 && (y & 0x0f00) & 0xf0ff == 0
    ensures (y & 0x00f0) & 0xff0f == 0 && (y & 0x000f) & 0xfff0 == 0
  {
  }

  lemma FourStepsSum(y: bv16, z: bv16)
    ensures FourSteps(Xor(y, z)) == Xor(FourSteps(y), FourSteps(z))
  {
    hide BitStep, Xor;
    StepOfXor(y, z);
    StepOfXor(BitStep(y), BitStep(z));
    StepOfXor(BitStep(BitStep(y)), BitStep(BitStep(z)));
    StepOfXor(BitStep(BitStep(BitStep(y))), BitStep(BitStep(BitStep(z))));
  }

  lemma EightIsTwiceFour(y: bv16)
    ensures EightSteps(y) == FourSteps(FourSteps(y))
  {
    hide BitStep;
  }

  lemma EightStepsSum(y: bv16, z: bv16)
    ensures EightSteps(Xor(y, z)) == Xor(EightSteps(y), EightSteps(z))
  {
    hide EightSteps, FourSteps, Xor;
    EightIsTwiceFour(y);
    EightIsTwiceFour(z);
    EightIsTwiceFour(Xor(y, z));
    FourStepsSum(y, z);
    FourStepsSum(FourSteps(y), FourSteps(z));
  }

  lemma VanishesSum(y: bv16, z: bv16)
    requires Vanishes(y) && Vanishes(z)
    ensures Vanishes(Xor(y, z))
  {
    hide Xor, EightSteps, FourSteps, BitStep;
    EightStepsSum(y, z);
    EightStepsSum(EightSteps(y), EightSteps(z));
    FourStepsSum(y, z);
    EightStepsSum(FourSteps(y), FourSteps(z));
    StepOfXor(y, z);
    FourStepsSum(BitStep(y), BitStep(z));
    var c, d := EightSteps(FourSteps(y)), EightSteps(FourSteps(z));
    var e, f := FourSteps(BitStep(y)), FourSteps(BitStep(z));
    XorShuffle(c, d, e, f);
    XorShuffle(Xor(c, e), Xor(d, f), y, z);
  }

  lemma AllVanish(y: bv16)
    ensures Vanishes(y)
  {
    var a, b, c, d := y & 0xf000, y & 0x0f00, y & 0x00f0, y & 0x000f;
    Nibbles(y);
    VanishesTop(a);
    VanishesUpper(b);
    VanishesLower(c);
    VanishesBottom(d);
    SumsVanish(y, a, b, c, d);
  }

  lemma SumsVanish(y: bv16, a: bv16, b: bv16, c: bv16, d: bv16)
    requires y == Xor(Xor(a, b), Xor(c, d)) && Vanishes(a) && Vanishes(b) && Vanishes(c) && Vanishes(d)
    ensures Vanishes(y)
  {
    hide Vanishes, Xor;
    VanishesSum(a, b);
    VanishesSum(c, d);
    VanishesSum(Xor(a, b), Xor(c, d));
  }

  predicate LowBitsAre(p: bv16, b0: bool, b1: bool, b2: bool, b3: bool) {
    LowBit(p) == b0 && LowBit(Half(p)) == b1 && LowBit(Half(Half(p))) == b2 && LowBit(Half(Half(Half(p)))) == b3
  }

  lemma Nibble0(p: bv16, acc: bv16, y: bv16)
    requires LowBitsAre(p, false, false, false, false)
    ensures FourBits(p, acc, y) == FourSteps(acc)
  {
    hide BitStep, LowBit, Half, Xor;
    var a := BitStep(acc);
    Zeros(a);
    Zeros(BitStep(a));
    Zeros(BitStep(BitStep(a)));
    Zeros(BitStep(BitStep(BitStep(a))));
  }

  lemma Nibble4(p: bv16, acc: bv16, y: bv16)
    requires LowBitsAre(p, false, false, true, false)
    ensures FourBits(p, acc, y) == BitStep(Xor(BitStep(BitStep(BitStep(acc))), y))
  {
    hide BitStep, LowBit, Half, Xor;
    var a := BitStep(acc);
    Zeros(a);
    Zeros(BitStep(a));
    Zeros(BitStep(Xor(BitStep(BitStep(a)), y)));
  }

  lemma Nibble8(p: bv16, acc: bv16, y: bv16)
    requires LowBitsAre(p, false, false, false, true)
    ensures FourBits(p, acc, y) == Xor(FourSteps(acc), y)
  {
    hide BitStep, LowBit, Half, Xor;
    var a := BitStep(acc);
    Zeros(a);
    Zeros(BitStep(a));
    Zeros(BitStep(BitStep(a)));
  }

  lemma GeneratorNibbles()
    ensures FourHalves(0x8408) == 0x0840 && FourHalves(0x0840) == 0x0084 && FourHalves(0x0084) == 0x0008
    ensures LowBitsAre(0x8408, false, false, false, true) && LowBitsAre(0x0840, false, false, false, false)
    ensures LowBitsAre(0x0084, false, false, true, false) && LowBitsAre(0x0008, false, false, false, true)
  {
  }

  /** Multiplying by the generator's lower terms by Horner's rule. */
  lemma GeneratorProduct(y: bv16)
    ensures Times(0x8408, y) == Xor(FourSteps(Xor(EightSteps(y), BitStep(y))), y)
  {
    TimesIsProduct(0x8408, y);
    GeneratorNibbles();
    FourStepsOfZero();
    Zeros(y);
    hide FourBits, FourHalves, LowBitsAre, Times, Xor;
    var a := FourSteps(y);
    Nibble8(0x8408, 0, y);
    Nibble0(0x0840, y, y);
    Nibble4(0x0084, a, y);
    EightIsTwiceFour(y);
    hide BitStep, EightSteps;
    StepOfXor(BitStep(BitStep(BitStep(a))), y);
    Nibble8(0x0008, Xor(EightSteps(y), BitStep(y)), y);
  }

  lemma FourStepsOfZero()
    ensures FourSteps(0) == 0
  {
  }

  lemma GeneratorActs(y: bv16)
    ensures Times(0x8408, y) == Steps(16, y)
  {
    hide Times, EightSteps, FourSteps, Xor;
    AllVanish(y);
    GeneratorProduct(y);
    FourStepsSum(EightSteps(y), BitStep(y));
    EightIsTwiceFour(y);
    EightIsTwiceFour(FourSteps(y));
    SixteenUnrolled(y);
  }

  lemma SixteenUnrolled(y: bv16)
    ensures Steps(16, y) == EightSteps(EightSteps(y))
  {
    hide EightSteps;
    StepsAdd(8, 8, y);
    Unrolled(y);
    Unrolled(EightSteps(y));
  }

  lemma StepAsXor(p: bv16)
    ensures BitStep(p) == Xor(Half(p), Pick(LowBit(p), 0x8408))
  {
    hide BitStep;
    LowBitCases(p);
    if p & 1 == 0 {
      StepOfEven(p);
      Zeros(Half(p));
    } else {
      StepOfOdd(p);
    }
  }

  lemma TimesPicked(b: bool, y: bv16)
    ensures Times(Pick(b, 0x8408), y) == Steps(16, Pick(b, y))
  {
    hide Xor, Horner, Steps;
    if b {
      GeneratorActs(y);
    } else {
      Zeros(0);
      StepsOfZero(16);
      HornerLinear(16, 0, 0, y);
      Zeros(Horner(16, 0, 0, y));
    }
  }

  lemma TimesStep(p: bv16, y: bv16)
    ensures Times(BitStep(p), y) == BitStep(Times(p, y))
  {
    hide BitStep, Xor, Pick, LowBit, Half, Steps, Horner;
    var g := Pick(LowBit(p), 0x8408);
    StepAsXor(p);
    HornerLinear(16, Half(p), g, y);
    TimesPicked(LowBit(p), y);
    StepOfTimes(p, y);
    XorCommutes(Times(Half(p), y), Times(g, y));
  }

  lemma UnitProduct(y: bv16)
    ensures Product(UNIT, y) == y
  {
  }

  /** The register that `n` steps make of the unit multiplies like `n` steps. */
  lemma {:induction false} TimesPower(n: nat, y: bv16)
    ensures Times(Steps(n, UNIT), y) == Steps(n, y)
  {
    hide BitStep, Times, Product;
    if n == 0 {
      TimesIsProduct(UNIT, y);
      UnitProduct(y);
    } else {
      TimesPower(n - 1, y);
      StepsNext(n - 1, UNIT);
      StepsNext(n - 1, y);
      TimesStep(Steps(n - 1, UNIT), y);
    }
  }

  // -- Powers of x ------------------------------------------------------------------------------

  /** `p` is x to the power of `n`. The values below come by squaring and multiplying. */
  predicate Power(n: nat, p: bv16) {
    Steps(n, UNIT) == p
  }

  lemma PowersAdd(n: nat, m: nat, p: bv16, q: bv16)
    requires Power(n, p) && Power(m, q)
    ensures Power(n + m, Product(p, q))
  {
    hide BitStep, Times, Product;
    StepsAdd(m, n, UNIT);
    TimesPower(n, q);
    TimesIsProduct(p, q);
  }

  lemma Power1()
    ensures Power(1, 0x4000)
  {
    assert Steps(1, UNIT) == Steps(0, BitStep(UNIT));
  }

  lemma Power8()
    ensures Power(8, 0x0080)
  {
    Unrolled(UNIT);
  }

  lemma Power16()
    ensures Power(16, 0x8408)
  {
    SixteenUnrolled(UNIT);
  }

  lemma Power32()
    ensures Power(32, 0x0cec)
  {
    hide Power;
    Power16();
    PowersAdd(16, 16, 0x8408, 0x8408);
  }

  lemma Power64()
    ensures Power(64, 0x861d)
  {
    hide Power;
    Power32();
    PowersAdd(32, 32, 0x0cec, 0x0cec);
  }

  lemma Power128()
    ensures Power(128, 0x3f75)
  {
    hide Power;
    Power64();
    PowersAdd(64, 64, 0x861d, 0x861d);
  }

  lemma Power256()
    ensures Power(256, 0x9471)
  {
    hide Power;
    Power128();
    PowersAdd(128, 128, 0x3f75, 0x3f75);
  }

  lemma Power512()
    ensures Power(512, 0x3fc8)
  {
    hide Power;
    Power256();
    PowersAdd(256, 256, 0x9471, 0x9471);
  }

  lemma Power1024()
    ensures Power(1024, 0x236c)
  {
    hide Power;
    Power512();
    PowersAdd(512, 512, 0x3fc8, 0x3fc8);
  }

  lemma Power2048()
    ensures Power(2048, 0x0abf)
  {
    hide Power;
    Power1024();
    PowersAdd(1024, 1024, 0x236c, 0x236c);
  }

  lemma Power4096()
    ensures Power(4096, 0x7955)
  {
    hide Power;
    Power2048();
    PowersAdd(2048, 2048, 0x0abf, 0x0abf);
  }

  lemma Power8192()
    ensures Power(8192, 0x3811)
  {
    hide Power;
    Power4096();
    PowersAdd(4096, 4096, 0x7955, 0x7955);
  }

  lemma Power16384()
    ensures Power(16384, 0x1a22)
  {
    hide Power;
    Power8192();
    PowersAdd(8192, 8192, 0x3811, 0x3811);
  }

  lemma Power32768()
    ensures Power(32768, 0x4000)
  {
    hide Power;
    Power16384();
    PowersAdd(16384, 16384, 0x1a22, 0x1a22);
  }

  lemma Power4608()
    ensures Power(4608, 0x052a)
  {
    hide Power;
    Power4096();
    Power512();
    PowersAdd(4096, 512, 0x7955, 0x3fc8);
  }

  lemma Power4672()
    ensures Power(4672, 0x6080)
  {
    hide Power;
    Power4608();
    Power64();
    PowersAdd(4608, 64, 0x052a, 0x861d);
  }

  lemma Power4680()
    ensures Power(4680, 0x8468)
  {
    hide Power;
    Power4672();
    Power8();
    PowersAdd(4672, 8, 0x6080, 0x0080);
  }

  lemma Power4681()
    ensures Power(4681, 0x4234)
  {
    hide Power;
    Power4680();
    Power1();
    PowersAdd(4680, 1, 0x8468, 0x4000);
  }

  lemma Power1056()
    ensures Power(1056, 0xe28f)
  {
    hide Power;
    Power1024();
    Power32();
    PowersAdd(1024, 32, 0x236c, 0x0cec);
  }

  lemma Power1057()
    ensures Power(1057, 0xf54f)
  {
    hide Power;
    Power1056();
    Power1();
    PowersAdd(1056, 1, 0xe28f, 0x4000);
  }

  lemma Power192()
    ensures Power(192, 0xd0a6)
  {
    hide Power;
    Power128();
    Power64();
    PowersAdd(128, 64, 0x3f75, 0x861d);
  }

  lemma Power208()
    ensures Power(208, 0x2da2)
  {
    hide Power;
    Power192();
    Power16();
    PowersAdd(192, 16, 0xd0a6, 0x8408);
  }

  lemma Power216()
    ensures Power(216, 0x8635)
  {
    hide Power;
    Power208();
    Power8();
    PowersAdd(208, 8, 0x2da2, 0x0080);
  }

  lemma Power217()
    ensures Power(217, 0xc712)
  {
    hide Power;
    Power216();
    Power1();
    PowersAdd(216, 1, 0x8635, 0x4000);
  }

  // -- The period -------------------------------------------------------------------------------

  predicate Returns(n: nat) {
    Steps(n, UNIT) == UNIT
  }

  lemma PeriodReturns()
    ensures Returns(32767)
  {
    hide BitStep;
    Power32768();
    StepsNext(32767, UNIT);
    Power1();
    StepsNext(0, UNIT);
    BitStepInjective(Steps(32767, UNIT), UNIT);
  }

  lemma NoProperReturn()
    ensures !Returns(4681) && !Returns(1057) && !Returns(217)
  {
    Power4681();
    Power1057();
    Power217();
  }

  lemma ReturnsAfter(n: nat, r: nat)
    requires Returns(n)
    ensures Returns(n + r) == Returns(r)
  {
    StepsAdd(n, r, UNIT);
  }

  lemma {:induction false} ReturnsMultiple(k: nat, n: nat)
    requires Returns(n)
    ensures Returns(k * n)
  {
    hide Returns;
    if k == 0 {
      ReturnsAtOnce();
    } else {
      ReturnsMultiple(k - 1, n);
      ReturnsAfter(n, (k - 1) * n);
      assert k * n == n + (k - 1) * n;
    }
  }

  lemma ReturnsRemainder(n: nat, m: nat)
    requires Returns(n) && n > 0
    ensures Returns(m) == Returns(m % n)
  {
    hide Returns;
    ReturnsMultiple(m / n, n);
    ReturnsAfter(m / n * n, m % n);
    assert m == m / n * n + m % n;
  }

  /** Up to the square root, 32767 has no divisors but its three prime factors. */
  lemma SmallDivisor(n: nat, q: nat)
    requires 2 <= n <= 181 && n * q == 32767
    ensures n == 7 || n == 31 || n == 151
  {
  }

  lemma ProductBounds(n: nat, q: nat)
    requires n * q == 32767 && 181 < n < 32767
    ensures 2 <= q <= 181
  {
    assert n * q >= 182 * q;
  }

  lemma Divides(n: nat)
    requires 0 < n < 32767 && 32767 % n == 0
    ensures 4681 % n == 0 || 1057 % n == 0 || 217 % n == 0
  {
    var q := 32767 / n;
    assert n * q == 32767;
    if 2 <= n <= 181 {
      SmallDivisor(n, q);
    } else if n > 181 {
      ProductBounds(n, q);
      SmallDivisor(q, n);
      assert n == 4681 || n == 1057 || n == 217;
    }
  }

  /** No register step sequence shorter than 32767 returns the unit to itself. */
  lemma {:induction false} NoEarlyReturn(n: nat)
    requires 0 < n < 32767
    ensures !Returns(n)
    decreases n
  {
    hide Returns;
    if Returns(n) {
      PeriodReturns();
      ReturnsRemainder(n, 32767);
      if 32767 % n > 0 {
        NoEarlyReturn(32767 % n);
      } else {
        Divides(n);
        NoProperReturn();
        ReturnsRemainder(n, if 4681 % n == 0 then 4681 else if 1057 % n == 0 then 1057 else 217);
        ReturnsAtOnce();
      }
    }
  }

  /** The register of the unit returns exactly at the multiples of 32767. */
  lemma ReturnsExactly(n: nat)
    ensures Returns(n) <==> n % 32767 == 0
  {
    hide Returns;
    PeriodReturns();
    ReturnsRemainder(32767, n);
    if n % 32767 > 0 {
      NoEarlyReturn(n % 32767);
    } else {
      ReturnsAtOnce();
    }
  }

  lemma ReturnsAtOnce()
    ensures Returns(0)
  {
  }
}
