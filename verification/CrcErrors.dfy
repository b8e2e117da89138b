/** Which changes to a frame the checksum register cannot miss. */
module CrcErrors {
  import opened Bytes
  import opened Crc
  import opened CrcPeriod

  /** Whether two frames differ at bit `k` in order of transmission. */
  predicate Differ(f: seq<u8>, g: seq<u8>, k: nat)
    requires |f| == |g| && k < 8 * |f|
  {
    BitAt(f, k) != BitAt(g, k)
  }

  /** How many of the first `n` bits differ. */
  function Differences(f: seq<u8>, g: seq<u8>, n: nat): nat
    requires |f| == |g| && n <= 8 * |f|
  {
    if n == 0 then 0 else Differences(f, g, n - 1) + if Differ(f, g, n - 1) then 1 else 0
  }

  function BitDistance(f: seq<u8>, g: seq<u8>): nat
    requires |f| == |g|
  {
    Differences(f, g, 8 * |f|)
  }

  // -- The difference of two registers, one bit at a time ---------------------------------------

  function OneBitMore(d: bv16, differ: bool): bv16 {
    BitStep(Xor(d, Pick(differ, 1)))
  }

  function Serial(f: seq<u8>, g: seq<u8>, n: nat): bv16
    requires |f| == |g| && n <= 8 * |f|
  {
    if n == 0 then 0 else OneBitMore(Serial(f, g, n - 1), Differ(f, g, n - 1))
  }

  function Halves(n: nat, x: bv16): bv16
    decreases n
  {
    if n == 0 then x else Halves(n - 1, Half(x))
  }

  lemma {:induction false} HalvesNext(n: nat, x: bv16)
    ensures Halves(n + 1, x) == Half(Halves(n, x)) && BitOf(x, n) == LowBit(Halves(n, x))
    decreases n
  {
    hide Half, LowBit;
    if n > 0 {
      HalvesNext(n - 1, Half(x));
    }
  }

  lemma ByteHasEightBits(x: bv16)
    requires x <= 0xff
    ensures Halves(8, x) == 0
  {
    var y := FourHalves(FourHalves(x));
    assert y == 0;
    hide Half;
    assert Halves(8, x) == Halves(6, Half(Half(x))) == Halves(4, FourHalves(x));
    assert Halves(4, FourHalves(x)) == Halves(2, Half(Half(FourHalves(x)))) == Halves(0, y);
  }

  lemma StepOfLowBit(x: bv16)
    ensures BitStep(x) == Xor(BitStep(Pick(LowBit(x), 1)), Half(x))
  {
  }

  lemma StepOfSum(d: bv16, x: bv16)
    ensures BitStep(Xor(d, x)) == Xor(OneBitMore(d, LowBit(x)), Half(x))
  {
    hide BitStep, Xor, Pick, LowBit, Half;
    var low := Pick(LowBit(x), 1);
    StepOfLowBit(x);
    StepOfXor(d, x);
    StepOfXor(d, low);
    XorGroups(BitStep(d), BitStep(low), Half(x));
  }

  /** Stepping a register with a whole byte added is adding its bits one at a time. */
  lemma {:induction false} BitsOfByte(f: seq<u8>, g: seq<u8>, m: nat, t: nat)
    requires |f| == |g| && m < |f| && t <= 8
    ensures var x := ByteXor(f[m], g[m]);
            Steps(t, Xor(Serial(f, g, 8 * m), x)) == Xor(Serial(f, g, 8 * m + t), Halves(t, x))
    decreases t
  {
    hide BitStep, Xor, OneBitMore, LowBit, Half, ByteXor, Differ;
    if t > 0 {
      var x, k := ByteXor(f[m], g[m]), 8 * m + (t - 1);
      BitsOfByte(f, g, m, t - 1);
      StepsNext(t - 1, Xor(Serial(f, g, 8 * m), x));
      StepOfSum(Serial(f, g, k), Halves(t - 1, x));
      HalvesNext(t - 1, x);
      DifferAt(f, g, m, t - 1);
      assert Serial(f, g, k + 1) == OneBitMore(Serial(f, g, k), Differ(f, g, k));
    }
  }

  lemma DifferAt(f: seq<u8>, g: seq<u8>, m: nat, t: nat)
    requires |f| == |g| && m < |f| && t < 8
    ensures Differ(f, g, 8 * m + t) == BitOf(ByteXor(f[m], g[m]), t)
  {
    ByteXorIsXor(f[m], g[m]);
    hide BitOf, Bits, ByteXor, IsXor;
    assert (8 * m + t) / 8 == m && (8 * m + t) % 8 == t;
    BitXor(ByteXor(f[m], g[m]), Bits(f[m]), Bits(g[m]), t);
  }

  lemma ByteXorIsXor(a: u8, b: u8)
    ensures IsXor(ByteXor(a, b), Bits(a), Bits(b))
  {
  }

  lemma StirIsSteps(d: bv16, x: bv16)
    ensures Stir(d, x) == Steps(8, Xor(d, x))
  {
    hide Steps;
  }

  lemma SerialByte(f: seq<u8>, g: seq<u8>, m: nat)
    requires |f| == |g| && m < |f|
    ensures Serial(f, g, 8 * m + 8) == Stir(Serial(f, g, 8 * m), ByteXor(f[m], g[m]))
  {
    hide Steps, Stir, Xor, Serial, Halves, ByteXor;
    var x := ByteXor(f[m], g[m]);
    ByteXorZero(f[m], g[m]);
    BitsOfByte(f, g, m, 8);
    ByteHasEightBits(x);
    Zeros(Serial(f, g, 8 * m + 8));
    StirIsSteps(Serial(f, g, 8 * m), x);
  }

  lemma {:induction false} SerialIsDifference(f: seq<u8>, g: seq<u8>, m: nat)
    requires |f| == |g| && m <= |f|
    ensures IsXor(Serial(f, g, 8 * m), Run(INITIAL, f[..m]), Run(INITIAL, g[..m]))
  {
    hide IsXor, Stir, ByteXor, Absorb, Serial, Run;
    if m == 0 {
      NothingRun(f, g);
      NoDifference(INITIAL, 0);
    } else {
      var k := m - 1;
      SerialIsDifference(f, g, k);
      SerialByte(f, g, k);
      RunOneMore(f, k);
      RunOneMore(g, k);
      AbsorbDifference(Serial(f, g, 8 * k), Run(INITIAL, f[..k]), Run(INITIAL, g[..k]), f[k], g[k]);
    }
  }

  lemma NothingRun(f: seq<u8>, g: seq<u8>)
    requires |f| == |g|
    ensures Serial(f, g, 0) == 0 && Run(INITIAL, f[..0]) == INITIAL
  {
  }

  lemma RunOneMore(f: seq<u8>, m: nat)
    requires m < |f|
    ensures Run(INITIAL, f[..m + 1]) == Absorb(Run(INITIAL, f[..m]), f[m])
  {
    hide Absorb;
    assert f[..m + 1] == f[..m] + [f[m]];
    RunAppend(INITIAL, f[..m], [f[m]]);
    assert [f[m]][1..] == [];
  }

  lemma XorIsZero(a: bv16, b: bv16)
    ensures Xor(a, b) == 0 <==> a == b
  {
    hide Xor;
    XorGroups(a, b, b);
    Zeros(a);
    Zeros(b);
  }

  lemma IsXorIsXor(x: bv16, a: bv16, b: bv16)
    ensures IsXor(x, a, b) <==> x == Xor(a, b)
  {
  }

  /** Two frames leave the same register iff the serial difference ends at zero. */
  lemma SameRegister(f: seq<u8>, g: seq<u8>)
    requires |f| == |g|
    ensures Run(INITIAL, f) == Run(INITIAL, g) <==> Serial(f, g, 8 * |f|) == 0
  {
    hide IsXor, Run, Serial, Xor;
    SerialIsDifference(f, g, |f|);
    assert f[..|f|] == f && g[..|g|] == g;
    IsXorIsXor(Serial(f, g, 8 * |f|), Run(INITIAL, f), Run(INITIAL, g));
    XorIsZero(Run(INITIAL, f), Run(INITIAL, g));
  }

  // -- An odd number of differences -------------------------------------------------------------

  lemma ParityOfMore(d: bv16, differ: bool)
    ensures Odd(OneBitMore(d, differ), 16) == (Odd(d, 16) != differ)
  {
    PickedIsXor(d, differ);
    OneIsOdd();
    hide Odd, Xor, Pick, IsXor, BitStep;
    var e := Pick(differ, 1);
    BitStepParity(Xor(d, e));
    OddXor(Xor(d, e), d, e, 16);
  }

  lemma PickedIsXor(d: bv16, differ: bool)
    ensures IsXor(Xor(d, Pick(differ, 1)), d, Pick(differ, 1))
    ensures Pick(true, 1) == 1 && Pick(false, 1) == 0
  {
  }

  lemma OneIsOdd()
    ensures Odd(1, 16) && !Odd(0, 16)
  {
    OddOfZero(16);
    assert Half(1) == 0 && LowBit(1);
    hide Odd, LowBit, Half;
    OddShift(1);
  }

  lemma {:induction false} SerialParity(f: seq<u8>, g: seq<u8>, n: nat)
    requires |f| == |g| && n <= 8 * |f|
    ensures Odd(Serial(f, g, n), 16) <==> Differences(f, g, n) % 2 == 1
  {
    hide Odd, OneBitMore, Differ;
    if n == 0 {
      OneIsOdd();
    } else {
      SerialParity(f, g, n - 1);
      ParityOfMore(Serial(f, g, n - 1), Differ(f, g, n - 1));
    }
  }

  /** Two frames that leave the same register differ in an even number of bits. */
  lemma OddErrorsDetected(f: seq<u8>, g: seq<u8>)
    requires |f| == |g| && BitDistance(f, g) % 2 == 1
    ensures Run(INITIAL, f) != Run(INITIAL, g)
  {
    hide Odd, Run, Serial;
    SameRegister(f, g);
    SerialParity(f, g, 8 * |f|);
    OneIsOdd();
  }

  // -- Two differences --------------------------------------------------------------------------

  predicate Quiet(f: seq<u8>, g: seq<u8>, a: nat, b: nat)
    requires |f| == |g| && b <= 8 * |f|
  {
    forall k: nat | a <= k < b :: !Differ(f, g, k)
  }

  lemma {:induction false} SerialQuiet(f: seq<u8>, g: seq<u8>, a: nat, b: nat)
    requires |f| == |g| && a <= b <= 8 * |f| && Quiet(f, g, a, b)
    ensures Serial(f, g, b) == Steps(b - a, Serial(f, g, a))
    decreases b
  {
    hide BitStep, Differ, Xor, Pick;
    if a < b {
      SerialQuiet(f, g, a, b - 1);
      assert !Differ(f, g, b - 1);
      StepsNext(b - 1 - a, Serial(f, g, a));
      NothingAdded(Serial(f, g, b - 1));
    }
  }

  lemma NothingAdded(d: bv16)
    ensures OneBitMore(d, false) == BitStep(d) && OneBitMore(d, true) == BitStep(Xor(d, 1))
  {
    hide BitStep;
  }

  /** The only differences are at bits `i` and `j`. */
  predicate DifferOnlyAt(f: seq<u8>, g: seq<u8>, i: nat, j: nat)
    requires |f| == |g|
  {
    i < j < 8 * |f| && forall k: nat | k < 8 * |f| :: Differ(f, g, k) <==> k == i || k == j
  }

  lemma OneAsPower()
    ensures Steps(15, UNIT) == 1
  {
    Unrolled(UNIT);
    StepsAdd(8, 7, UNIT);
    var d := EightSteps(UNIT);
    assert d == 0x80;
    hide BitStep, EightSteps;
    SevenSteps();
  }

  lemma SevenSteps()
    ensures Steps(7, 0x80) == 1
  {
    assert Steps(7, 0x80) == Steps(5, 0x20) == Steps(3, 8) == Steps(1, 2) == Steps(0, 1);
  }

  lemma BackToOne(n: nat)
    ensures Steps(n, 1) == 1 <==> n % 32767 == 0
  {
    hide BitStep;
    OneAsPower();
    StepsAdd(15, n, UNIT);
    StepsAdd(n, 15, UNIT);
    ReturnsExactly(n);
    if Steps(n, 1) == 1 {
      StepsInjective(15, Steps(n, UNIT), UNIT);
    }
  }

  lemma EndsAtZero(n: nat, d: bv16)
    ensures Steps(n, d) == 0 <==> d == 0
  {
    hide BitStep;
    StepsOfZero(n);
    if Steps(n, d) == 0 {
      StepsInjective(n, d, 0);
    }
  }

  /** Frames with exactly two differing bits leave the same register iff 32767 divides the distance. */
  lemma DoubleErrors(f: seq<u8>, g: seq<u8>, i: nat, j: nat)
    requires |f| == |g| && DifferOnlyAt(f, g, i, j)
    ensures Run(INITIAL, f) == Run(INITIAL, g) <==> (j - i) % 32767 == 0
  {
    hide Run, BitStep, Differ, Xor;
    var n := 8 * |f|;
    assert Quiet(f, g, 0, i) && Quiet(f, g, i + 1, j) && Quiet(f, g, j + 1, n);
    SerialQuiet(f, g, 0, i);
    StepsOfZero(i);
    NothingAdded(0);
    Zeros(1);
    SerialQuiet(f, g, i + 1, j);
    StepsAdd(1, j - i - 1, 1);
    assert Steps(1, 1) == Steps(0, BitStep(1));
    var d := Steps(j - i, 1);
    NothingAdded(d);
    SerialQuiet(f, g, j + 1, n);
    SameRegister(f, g);
    EndsAtZero(n - (j + 1), BitStep(Xor(d, 1)));
    EndsAtZero(1, Xor(d, 1));
    assert Steps(1, Xor(d, 1)) == Steps(0, BitStep(Xor(d, 1)));
    XorIsZero(d, 1);
    BackToOne(j - i);
  }

  // -- Short frames -----------------------------------------------------------------------------

  lemma {:induction false} NoDifferences(f: seq<u8>, g: seq<u8>, n: nat)
    requires |f| == |g| && n <= 8 * |f| && Differences(f, g, n) == 0
    ensures Quiet(f, g, 0, n)
  {
    hide Differ;
    if n > 0 {
      NoDifferences(f, g, n - 1);
    }
  }

  lemma {:induction false} OneDifference(f: seq<u8>, g: seq<u8>, n: nat) returns (j: nat)
    requires |f| == |g| && n <= 8 * |f| && Differences(f, g, n) == 1
    ensures j < n && forall k: nat | k < n :: Differ(f, g, k) <==> k == j
  {
    hide Differ;
    if Differ(f, g, n - 1) {
      NoDifferences(f, g, n - 1);
      return n - 1;
    }
    j := OneDifference(f, g, n - 1);
  }

  lemma {:induction false} TwoDifferences(f: seq<u8>, g: seq<u8>, n: nat) returns (i: nat, j: nat)
    requires |f| == |g| && n <= 8 * |f| && Differences(f, g, n) == 2
    ensures i < j < n && forall k: nat | k < n :: Differ(f, g, k) <==> k == i || k == j
  {
    hide Differ;
    if Differ(f, g, n - 1) {
      i := OneDifference(f, g, n - 1);
      return i, n - 1;
    }
    i, j := TwoDifferences(f, g, n - 1);
  }

  lemma QuietIsEqual(f: seq<u8>, g: seq<u8>)
    requires |f| == |g| && Quiet(f, g, 0, 8 * |f|)
    ensures f == g
  {
    hide BitAt;
    assert AgreeOutside(f, g, 0, 0) by {
      forall k: nat | k < 8 * |f| ensures BitAt(f, k) == BitAt(g, k) {
        assert !Differ(f, g, k);
      }
    }
    forall m | 0 <= m < |f| ensures f[m] == g[m] {
      SameByte(f, g, 0, 0, m);
    }
  }

  /** Up to 4095 bytes, different frames that leave the same register differ in four bits or more. */
  lemma MinimumDistance(f: seq<u8>, g: seq<u8>)
    requires |f| == |g| <= 4095 && f != g
    requires Run(INITIAL, f) == Run(INITIAL, g)
    ensures BitDistance(f, g) >= 4
  {
    hide Run, Differ, Quiet;
    if BitDistance(f, g) % 2 == 1 {
      OddErrorsDetected(f, g);
    } else if BitDistance(f, g) == 0 {
      NoDifferences(f, g, 8 * |f|);
      QuietIsEqual(f, g);
    } else if BitDistance(f, g) == 2 {
      var i, j := TwoDifferences(f, g, 8 * |f|);
      DoubleErrors(f, g, i, j);
    }
  }

  lemma GeneratorBytes()
    ensures ByteXor(0, 0x11) == 0x11 && ByteXor(0, 0x08) == 0x08 && ByteXor(0, 0x01) == 0x01
  {
  }

  lemma GeneratorPattern(t: nat)
    requires t < 8
    ensures BitOf(0x11, t) <==> t == 0 || t == 4
    ensures BitOf(0x08, t) <==> t == 3
    ensures BitOf(0x01, t) <==> t == 0
  {
    hide BitOf;
    BitOfPattern(0x11);
    BitOfPattern(0x08);
    BitOfPattern(0x01);
  }

  lemma GeneratorBits(k: nat)
    requires k < 24
    ensures Differ([0, 0, 0], [0x11, 0x08, 0x01], k) <==> k == 0 || k == 4 || k == 11 || k == 16
  {
    hide ByteXor, BitOf, Differ;
    DifferAt([0, 0, 0], [0x11, 0x08, 0x01], k / 8, k % 8);
    GeneratorBytes();
    GeneratorPattern(k % 8);
  }

  lemma GeneratorVanishes()
    ensures Run(INITIAL, [0, 0, 0]) == Run(INITIAL, [0x11, 0x08, 0x01])
  {
  }

  /** Four is met: the frames differ by the generator itself. */
  lemma DistanceFourMet()
    ensures BitDistance([0, 0, 0], [0x11, 0x08, 0x01]) == 4
    ensures Run(INITIAL, [0, 0, 0]) == Run(INITIAL, [0x11, 0x08, 0x01])
  {
    var f: seq<u8>, g: seq<u8> := [0, 0, 0], [0x11, 0x08, 0x01];
    GeneratorVanishes();
    hide Differ, Run;
    forall k: nat | k < 24 ensures Differ(f, g, k) <==> k == 0 || k == 4 || k == 11 || k == 16 {
      GeneratorBits(k);
    }
    QuietAddsNone(f, g, 1, 4);
    QuietAddsNone(f, g, 5, 11);
    QuietAddsNone(f, g, 12, 16);
    QuietAddsNone(f, g, 17, 24);
  }

  lemma {:induction false} QuietAddsNone(f: seq<u8>, g: seq<u8>, a: nat, b: nat)
    requires |f| == |g| && a <= b <= 8 * |f| && Quiet(f, g, a, b)
    ensures Differences(f, g, b) == Differences(f, g, a)
    decreases b
  {
    hide Differ;
    if a < b {
      QuietAddsNone(f, g, a, b - 1);
      assert !Differ(f, g, b - 1);
    }
  }
}
