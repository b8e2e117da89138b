/**
 The 16-bit frame check sequence of Appendix C.2 of RFC 1662, which the source takes from its
 checksum library as CRC-16/IBM-SDLC: bytes enter low bit first, the generator is 0x8408 in
 reflected form, the register starts at 0xffff and is complemented at the end.
 */
module Crc {
  import opened Bytes

  const INITIAL: bv16 := 0xffff
  const RESIDUE: bv16 := 0xf0b8

  function BitStep(c: bv16): bv16 {
    if c & 1 == 1 then (c >> 1) ^ 0x8408 else c >> 1
  }

  function Steps(n: nat, c: bv16): bv16 {
    if n == 0 then c else Steps(n - 1, BitStep(c))
  }

  function Bits(b: u8): (r: bv16)
    ensures r <= 0xff
  {
    (b as bv8) as bv16
  }

  function Mix(c: bv16, b: u8): bv16 {
    c ^ Bits(b)
  }

  function Absorb(c: bv16, b: u8): bv16 {
    Steps(8, Mix(c, b))
  }

  /** The register after the bytes of `s`, starting from `c`. */
  function Run(c: bv16, s: seq<u8>): bv16
    decreases |s|
  {
    if s == [] then c else Run(Absorb(c, s[0]), s[1..])
  }

  function Checksum(s: seq<u8>): bv16 {
    Run(INITIAL, s) ^ 0xffff
  }

  function Low(c: bv16): (b: u8)
    ensures Bits(b) == c & 0xff
  {
    ByteOf((c & 0xff) as bv8)
  }

  function High(c: bv16): (b: u8)
    ensures Bits(b) == c >> 8
  {
    ByteOf((c >> 8) as bv8)
  }

  function Word(lo: u8, hi: u8): bv16 {
    (Bits(hi) << 8) | Bits(lo)
  }

  // -- Bytes as bit patterns ----------------------------------------------------------------

  lemma BitsInjective(a: u8, b: u8)
    requires Bits(a) == Bits(b)
    ensures a == b
  {
    ByteThroughBits(a);
    ByteThroughBits(b);
  }

  lemma WordOfBytes(c: bv16)
    ensures Word(Low(c), High(c)) == c
  {
  }

  lemma WordHalves(lo: u8, hi: u8)
    ensures Word(lo, hi) & 0xff == Bits(lo) && Word(lo, hi) >> 8 == Bits(hi)
  {
    hide Bits;
  }

  lemma BytesOfWord(lo: u8, hi: u8)
    ensures Low(Word(lo, hi)) == lo && High(Word(lo, hi)) == hi
  {
    hide Bits, Word, Low, High;
    WordHalves(lo, hi);
    BitsInjective(Low(Word(lo, hi)), lo);
    BitsInjective(High(Word(lo, hi)), hi);
  }

  // -- The register is linear and injective -------------------------------------------------

  predicate IsXor(x: bv16, a: bv16, b: bv16) {
    x == a ^ b
  }

  lemma StepOfEven(c: bv16)
    requires c & 1 == 0
    ensures BitStep(c) == c >> 1
  {
  }

  lemma StepOfOdd(c: bv16)
    requires c & 1 == 1
    ensures BitStep(c) == (c >> 1) ^ 0x8408
  {
  }

  lemma LowBitCases(c: bv16)
    ensures c & 1 == 0 || c & 1 == 1
  {
  }

  lemma ShiftXor(a: bv16, b: bv16)
    ensures (a ^ b) >> 1 == (a >> 1) ^ (b >> 1)
    ensures (a ^ b) & 1 == (a & 1) ^ (b & 1)
  {
  }

  lemma XorBoth(x: bv16, y: bv16, g: bv16)
    ensures (x ^ g) ^ (y ^ g) == x ^ y && (x ^ y) ^ g == (x ^ g) ^ y && (x ^ y) ^ g == x ^ (y ^ g)
  {
  }

  lemma BitStepXor(a: bv16, b: bv16)
    ensures BitStep(a ^ b) == BitStep(a) ^ BitStep(b)
  {
    hide BitStep;
    LowBitCases(a);
    LowBitCases(b);
    ShiftXor(a, b);
    XorBoth(a >> 1, b >> 1, 0x8408);
    if a & 1 == 0 { StepOfEven(a); } else { StepOfOdd(a); }
    if b & 1 == 0 { StepOfEven(b); } else { StepOfOdd(b); }
    if a & 1 == b & 1 { StepOfEven(a ^ b); } else { StepOfOdd(a ^ b); }
  }

  lemma BitStepLinear(x: bv16, a: bv16, b: bv16)
    requires IsXor(x, a, b)
    ensures IsXor(BitStep(x), BitStep(a), BitStep(b))
  {
    hide BitStep;
    BitStepXor(a, b);
  }

  lemma {:induction false} StepsLinear(n: nat, x: bv16, a: bv16, b: bv16)
    requires IsXor(x, a, b)
    ensures IsXor(Steps(n, x), Steps(n, a), Steps(n, b))
  {
    hide IsXor, BitStep;
    if n > 0 {
      BitStepLinear(x, a, b);
      StepsLinear(n - 1, BitStep(x), BitStep(a), BitStep(b));
    }
  }

  lemma BitStepInjective(a: bv16, b: bv16)
    requires BitStep(a) == BitStep(b)
    ensures a == b
  {
  }

  lemma {:induction false} StepsInjective(n: nat, a: bv16, b: bv16)
    requires Steps(n, a) == Steps(n, b)
    ensures a == b
  {
    hide BitStep;
    if n > 0 {
      StepsInjective(n - 1, BitStep(a), BitStep(b));
      BitStepInjective(a, b);
    }
  }

  lemma MixInjective(a: bv16, b: bv16, x: u8)
    requires Mix(a, x) == Mix(b, x)
    ensures a == b
  {
    assert Mix(a, x) ^ Bits(x) == a;
  }

  lemma AbsorbInjective(a: bv16, b: bv16, x: u8)
    requires Absorb(a, x) == Absorb(b, x)
    ensures a == b
  {
    hide Steps, Mix;
    StepsInjective(8, Mix(a, x), Mix(b, x));
    MixInjective(a, b, x);
  }

  lemma {:induction false} RunInjective(a: bv16, b: bv16, s: seq<u8>)
    requires Run(a, s) == Run(b, s)
    ensures a == b
    decreases |s|
  {
    hide Absorb;
    if s != [] {
      RunInjective(Absorb(a, s[0]), Absorb(b, s[0]), s[1..]);
      AbsorbInjective(a, b, s[0]);
    }
  }

  lemma {:induction false} RunAppend(c: bv16, s: seq<u8>, t: seq<u8>)
    ensures Run(c, s + t) == Run(Run(c, s), t)
    decreases |s|
  {
    hide Absorb;
    if s == [] {
      assert s + t == t;
    } else {
      assert (s + t)[0] == s[0] && (s + t)[1..] == s[1..] + t;
      RunAppend(Absorb(c, s[0]), s[1..], t);
    }
  }

  // -- The register written out, so that small claims reduce to bit patterns ------------------

  function EightSteps(c: bv16): bv16 {
    BitStep(BitStep(BitStep(BitStep(BitStep(BitStep(BitStep(BitStep(c))))))))
  }

  lemma Unrolled(c: bv16)
    ensures Steps(8, c) == EightSteps(c)
  {
    hide BitStep;
    var d := BitStep(BitStep(c));
    var e := BitStep(BitStep(d));
    var f := BitStep(BitStep(e));
    assert Steps(8, c) == Steps(6, d) == Steps(4, e) == Steps(2, f);
    assert Steps(2, f) == Steps(0, BitStep(BitStep(f)));
  }

  lemma ResiduePattern(c: bv16, lo: u8, hi: u8)
    ensures EightSteps(EightSteps(c ^ Bits(lo)) ^ Bits(hi)) == RESIDUE <==> Word(lo, hi) == c ^ 0xffff
  {
    hide Bits;
  }

  lemma AbsorbTwo(c: bv16, lo: u8, hi: u8)
    ensures Absorb(Absorb(c, lo), hi) == RESIDUE <==> Word(lo, hi) == c ^ 0xffff
  {
    hide Steps, EightSteps, Bits, Word;
    Unrolled(c ^ Bits(lo));
    Unrolled(EightSteps(c ^ Bits(lo)) ^ Bits(hi));
    ResiduePattern(c, lo, hi);
  }

  /** Comparing a trailing little-endian checksum is comparing the whole register with RESIDUE. */
  lemma ResidueForm(body: seq<u8>, lo: u8, hi: u8)
    ensures Run(INITIAL, body + [lo, hi]) == RESIDUE <==> Word(lo, hi) == Checksum(body)
  {
    hide Absorb, Word;
    var c := Run(INITIAL, body);
    RunAppend(INITIAL, body, [lo, hi]);
    var d := Absorb(c, lo);
    assert [lo, hi][1..] == [hi];
    assert Run(c, [lo, hi]) == Run(d, [hi]) == Run(Absorb(d, hi), []);
    AbsorbTwo(c, lo, hi);
  }

  function ByteXor(a: u8, b: u8): bv16 {
    Bits(a) ^ Bits(b)
  }

  // -- Single bits ----------------------------------------------------------------------------

  predicate LowBit(x: bv16) {
    x & 1 == 1
  }

  function Half(x: bv16): bv16 {
    x >> 1
  }

  predicate BitOf(x: bv16, k: nat)
    decreases k
  {
    if k == 0 then LowBit(x) else BitOf(Half(x), k - 1)
  }

  /** Whether an odd number of the low `n` bits of `x` are set. */
  predicate Odd(x: bv16, n: nat)
    decreases n
  {
    n > 0 && (Odd(x, n - 1) != BitOf(x, n - 1))
  }

  lemma HalfXor(x: bv16, a: bv16, b: bv16)
    requires IsXor(x, a, b)
    ensures LowBit(x) == (LowBit(a) != LowBit(b)) && IsXor(Half(x), Half(a), Half(b))
  {
  }

  lemma {:induction false} BitXor(x: bv16, a: bv16, b: bv16, k: nat)
    requires IsXor(x, a, b)
    ensures BitOf(x, k) == (BitOf(a, k) != BitOf(b, k))
    decreases k
  {
    hide IsXor, LowBit, Half;
    HalfXor(x, a, b);
    if k > 0 {
      BitXor(Half(x), Half(a), Half(b), k - 1);
    }
  }

  lemma {:induction false} OddXor(x: bv16, a: bv16, b: bv16, n: nat)
    requires IsXor(x, a, b)
    ensures Odd(x, n) == (Odd(a, n) != Odd(b, n))
    decreases n
  {
    hide IsXor, BitOf;
    if n > 0 {
      OddXor(x, a, b, n - 1);
      BitXor(x, a, b, n - 1);
    }
  }

  lemma {:induction false} OddHalf(c: bv16, n: nat)
    ensures Odd(c, n + 1) == (Odd(Half(c), n) != LowBit(c))
    decreases n
  {
    hide LowBit, Half;
    if n > 0 {
      OddHalf(c, n - 1);
    }
  }

  function FiveHalves(c: bv16): bv16 {
    Half(Half(Half(Half(Half(c)))))
  }

  lemma TopBitPattern(c: bv16)
    requires c < 0x8000
    ensures !LowBit(FiveHalves(FiveHalves(FiveHalves(c))))
  {
  }

  lemma BitOfFiveHalves(c: bv16, k: nat)
    ensures BitOf(c, k + 5) == BitOf(FiveHalves(c), k)
  {
    hide Half, LowBit;
    var d := Half(Half(c));
    assert BitOf(c, k + 5) == BitOf(d, k + 3) == BitOf(Half(Half(d)), k + 1);
  }

  lemma TopBitClear(c: bv16)
    requires c < 0x8000
    ensures !BitOf(c, 15)
  {
    hide FiveHalves, LowBit;
    BitOfFiveHalves(c, 10);
    BitOfFiveHalves(FiveHalves(c), 5);
    BitOfFiveHalves(FiveHalves(FiveHalves(c)), 0);
    TopBitPattern(c);
  }

  lemma HalfBelow(c: bv16)
    ensures Half(c) < 0x8000
  {
  }

  /** A shift drops the low bit and nothing else. */
  lemma OddShift(c: bv16)
    ensures Odd(c, 16) == (Odd(Half(c), 16) != LowBit(c))
  {
    hide LowBit, BitOf, Half;
    OddHalf(c, 15);
    HalfBelow(c);
    TopBitClear(Half(c));
  }

  lemma OddPair(c: bv16, d: bv16, e: bv16)
    requires d == Half(c) && e == Half(d)
    ensures Odd(c, 16) == (Odd(e, 16) != (LowBit(c) != LowBit(d)))
  {
    hide Half, LowBit, Odd;
    OddShift(c);
    OddShift(d);
  }

  lemma GeneratorIsOdd()
    ensures Odd(0x8408, 16)
  {
    OddOfZero(16);
    assert Half(2) == 1 && Half(1) == 0 && LowBit(1) && !LowBit(2);
    hide Odd;
    OddPair(0x8408, 0x4204, 0x2102);
    OddPair(0x2102, 0x1081, 0x0840);
    OddPair(0x0840, 0x0420, 0x0210);
    OddPair(0x0210, 0x0108, 0x0084);
    OddPair(0x0084, 0x0042, 0x0021);
    OddPair(0x0021, 0x0010, 0x0008);
    OddPair(0x0008, 0x0004, 0x0002);
    OddPair(0x0002, 0x0001, 0x0000);
  }

  lemma {:induction false} OddOfZero(n: nat)
    ensures !BitOf(0, n) && !Odd(0, n)
    decreases n
  {
    assert Half(0) == 0 && !LowBit(0);
    if n > 0 {
      OddOfZero(n - 1);
    }
  }

  lemma BitStepParity(c: bv16)
    ensures Odd(BitStep(c), 16) == Odd(c, 16)
  {
    hide Odd, IsXor;
    OddShift(c);
    GeneratorIsOdd();
    if c & 1 == 1 {
      BitStepOfOdd(c);
      OddXor(BitStep(c), Half(c), 0x8408, 16);
    }
  }

  lemma BitStepOfOdd(c: bv16)
    requires c & 1 == 1
    ensures IsXor(BitStep(c), Half(c), 0x8408)
  {
  }

  // -- Bursts of at most sixteen bits ---------------------------------------------------------

  /** Bit `k` of a frame in order of transmission, low bit of the first byte first. */
  predicate BitAt(s: seq<u8>, k: nat)
    requires k < 8 * |s|
  {
    BitOf(Bits(s[k / 8]), k % 8)
  }

  predicate AgreeOutside(f: seq<u8>, g: seq<u8>, from: nat, to: nat)
    requires |f| == |g|
  {
    forall k: nat | k < 8 * |f| && !(from <= k < to) :: BitAt(f, k) == BitAt(g, k)
  }

  lemma LowNibble(x: bv16)
    ensures BitOf(x, 0) == (x & 1 != 0) && BitOf(x, 1) == (x & 2 != 0)
    ensures BitOf(x, 2) == (x & 4 != 0) && BitOf(x, 3) == (x & 8 != 0)
  {
  }

  function FourHalves(x: bv16): bv16 {
    Half(Half(Half(Half(x))))
  }

  lemma BitOfFourHalves(x: bv16, k: nat)
    ensures BitOf(x, k + 4) == BitOf(FourHalves(x), k)
  {
    hide Half, LowBit;
    assert BitOf(x, k + 4) == BitOf(Half(Half(x)), k + 2);
  }

  lemma HighNibble(x: bv16)
    ensures FourHalves(x) & 1 != 0 <==> x & 0x10 != 0
    ensures FourHalves(x) & 2 != 0 <==> x & 0x20 != 0
    ensures FourHalves(x) & 4 != 0 <==> x & 0x40 != 0
    ensures FourHalves(x) & 8 != 0 <==> x & 0x80 != 0
  {
  }

  lemma BitOfPattern(x: bv16)
    ensures BitOf(x, 0) == (x & 1 != 0) && BitOf(x, 1) == (x & 2 != 0)
    ensures BitOf(x, 2) == (x & 4 != 0) && BitOf(x, 3) == (x & 8 != 0)
    ensures BitOf(x, 4) == (x & 0x10 != 0) && BitOf(x, 5) == (x & 0x20 != 0)
    ensures BitOf(x, 6) == (x & 0x40 != 0) && BitOf(x, 7) == (x & 0x80 != 0)
  {
    hide BitOf, FourHalves;
    LowNibble(x);
    LowNibble(FourHalves(x));
    HighNibble(x);
    BitOfFourHalves(x, 0);
    BitOfFourHalves(x, 1);
    BitOfFourHalves(x, 2);
    BitOfFourHalves(x, 3);
  }

  lemma LowBitsAgree(a: bv16, b: bv16, s: nat)
    requires s < 8
    requires forall t: nat | t < s :: BitOf(a, t) == BitOf(b, t)
    ensures (a ^ b) & ((1 << s) - 1) == 0
  {
    hide BitOf;
    BitOfPattern(a);
    BitOfPattern(b);
  }

  lemma HighBitsAgree(a: bv16, b: bv16, s: nat)
    requires s < 8 && a <= 0xff && b <= 0xff
    requires forall t: nat | s <= t < 8 :: BitOf(a, t) == BitOf(b, t)
    ensures (a ^ b) >> s == 0
  {
    hide BitOf;
    BitOfPattern(a);
    BitOfPattern(b);
  }

  /** The register difference after one more byte, from the difference before and that of the bytes. */
  function Stir(d: bv16, x: bv16): bv16 {
    Steps(8, d ^ x)
  }

  lemma XorOfMixes(d: bv16, u: bv16, v: bv16, a: u8, b: u8)
    requires IsXor(d, u, v)
    ensures IsXor(d ^ ByteXor(a, b), Mix(u, a), Mix(v, b))
  {
    hide Bits;
  }

  lemma AbsorbDifference(d: bv16, u: bv16, v: bv16, a: u8, b: u8)
    requires IsXor(d, u, v)
    ensures IsXor(Stir(d, ByteXor(a, b)), Absorb(u, a), Absorb(v, b))
  {
    hide IsXor, Mix, ByteXor, Steps;
    XorOfMixes(d, u, v, a, b);
    StepsLinear(8, d ^ ByteXor(a, b), Mix(u, a), Mix(v, b));
  }

  predicate WithinBurst(d0: bv16, d2: bv16, s: nat)
    requires s < 8
  {
    d0 & ((1 << s) - 1) == 0 && d2 >> s == 0
  }

  lemma BurstPattern(d0: bv16, d1: bv16, d2: bv16, e0: bv16, e1: bv16, s: nat)
    requires s < 8
    requires d0 <= 0xff && d1 <= 0xff && d2 <= 0xff
    requires d0 & ((1 << s) - 1) == 0 && d2 >> s == 0
    requires e0 == EightSteps(0 ^ d0) && e1 == EightSteps(e0 ^ d1) && EightSteps(e1 ^ d2) == 0
    ensures d0 == 0 && d1 == 0 && d2 == 0
  {
  }

  lemma BurstWithin(d0: bv16, d1: bv16, d2: bv16, e0: bv16, e1: bv16, s: nat)
    requires s < 8 && WithinBurst(d0, d2, s)
    requires d0 <= 0xff && d1 <= 0xff && d2 <= 0xff
    requires e0 == EightSteps(0 ^ d0) && e1 == EightSteps(e0 ^ d1) && EightSteps(e1 ^ d2) == 0
    ensures d0 == 0 && d1 == 0 && d2 == 0
  {
    hide EightSteps;
    BurstPattern(d0, d1, d2, e0, e1, s);
  }

  lemma StirUnrolled(d: bv16, x: bv16)
    ensures Stir(d, x) == EightSteps(d ^ x)
  {
    hide EightSteps, Steps;
    Unrolled(d ^ x);
  }

  lemma BurstStirred(d0: bv16, d1: bv16, d2: bv16, s: nat)
    requires s < 8 && WithinBurst(d0, d2, s)
    requires d0 <= 0xff && d1 <= 0xff && d2 <= 0xff
    requires Stir(Stir(Stir(0, d0), d1), d2) == 0
    ensures d0 == 0 && d1 == 0 && d2 == 0
  {
    hide EightSteps, Stir, WithinBurst;
    var e0 := Stir(0, d0);
    var e1 := Stir(e0, d1);
    StirUnrolled(0, d0);
    StirUnrolled(e0, d1);
    StirUnrolled(e1, d2);
    BurstWithin(d0, d1, d2, e0, e1, s);
  }

  lemma ByteXorZero(a: u8, b: u8)
    ensures ByteXor(a, b) <= 0xff && (ByteXor(a, b) == 0 ==> a == b)
  {
    if ByteXor(a, b) == 0 {
      assert Bits(a) == Bits(b);
      BitsInjective(a, b);
    }
  }

  lemma NoDifference(c: bv16, e: bv16)
    ensures IsXor(0, c, c)
    ensures IsXor(e, c, c) ==> e == 0
  {
  }

  lemma ThreeBytes(c: bv16, a0: u8, a1: u8, a2: u8, b0: u8, b1: u8, b2: u8, s: nat)
    requires s < 8 && WithinBurst(ByteXor(a0, b0), ByteXor(a2, b2), s)
    requires Absorb(Absorb(Absorb(c, a0), a1), a2) == Absorb(Absorb(Absorb(c, b0), b1), b2)
    ensures a0 == b0 && a1 == b1 && a2 == b2
  {
    hide IsXor, Absorb, ByteXor, Stir, WithinBurst;
    var d0, d1, d2 := ByteXor(a0, b0), ByteXor(a1, b1), ByteXor(a2, b2);
    NoDifference(c, 0);
    AbsorbDifference(0, c, c, a0, b0);
    AbsorbDifference(Stir(0, d0), Absorb(c, a0), Absorb(c, b0), a1, b1);
    AbsorbDifference(Stir(Stir(0, d0), d1), Absorb(Absorb(c, a0), a1), Absorb(Absorb(c, b0), b1), a2, b2);
    NoDifference(Absorb(Absorb(Absorb(c, a0), a1), a2), Stir(Stir(Stir(0, d0), d1), d2));
    ByteXorZero(a0, b0);
    ByteXorZero(a1, b1);
    ByteXorZero(a2, b2);
    BurstStirred(d0, d1, d2, s);
  }

  lemma BitAtByte(f: seq<u8>, g: seq<u8>, from: nat, to: nat, j: nat, t: nat)
    requires |f| == |g| && AgreeOutside(f, g, from, to)
    requires j < |f| && t < 8 && !(from <= 8 * j + t < to)
    ensures BitOf(Bits(f[j]), t) == BitOf(Bits(g[j]), t)
  {
    hide BitOf, Bits;
    assert (8 * j + t) / 8 == j && (8 * j + t) % 8 == t;
    assert BitAt(f, 8 * j + t) == BitAt(g, 8 * j + t);
  }

  lemma SameByte(f: seq<u8>, g: seq<u8>, from: nat, to: nat, j: nat)
    requires |f| == |g| && AgreeOutside(f, g, from, to)
    requires j < |f| && (8 * j + 8 <= from || to <= 8 * j)
    ensures f[j] == g[j]
  {
    hide BitOf, Bits, AgreeOutside;
    forall t: nat | t < 8 ensures BitOf(Bits(f[j]), t) == BitOf(Bits(g[j]), t) {
      BitAtByte(f, g, from, to, j, t);
    }
    HighBitsAgree(Bits(f[j]), Bits(g[j]), 0);
    ByteXorZero(f[j], g[j]);
  }

  lemma BurstInside(f: seq<u8>, g: seq<u8>, w: nat)
    requires |f| == |g| && w / 8 + 2 < |f| && AgreeOutside(f, g, w, w + 16)
    requires Run(INITIAL, f) == Run(INITIAL, g)
    ensures f == g
  {
    hide Run, Absorb, AgreeOutside, BitOf, ByteXor, WithinBurst;
    var i := w / 8;
    forall j | 0 <= j < |f| && !(i <= j < i + 3) ensures f[j] == g[j] {
      SameByte(f, g, w, w + 16, j);
    }
    var c := Run(INITIAL, f[..i]);
    SplitRun(f, i);
    SplitRun(g, i);
    assert f[..i] == g[..i] && f[i + 3..] == g[i + 3..];
    RunInjective(Absorb(Absorb(Absorb(c, f[i]), f[i + 1]), f[i + 2]),
                 Absorb(Absorb(Absorb(c, g[i]), g[i + 1]), g[i + 2]), f[i + 3..]);
    WindowEdges(f, g, w);
    ThreeBytes(c, f[i], f[i + 1], f[i + 2], g[i], g[i + 1], g[i + 2], w % 8);
    assert forall j | 0 <= j < |f| :: f[j] == g[j];
  }

  lemma SplitRun(f: seq<u8>, i: nat)
    requires i + 2 < |f|
    ensures Run(INITIAL, f) ==
            Run(Absorb(Absorb(Absorb(Run(INITIAL, f[..i]), f[i]), f[i + 1]), f[i + 2]), f[i + 3..])
  {
    hide Absorb;
    var c := Run(INITIAL, f[..i]);
    assert f == f[..i] + f[i..];
    RunAppend(INITIAL, f[..i], f[i..]);
    assert f[i..][1..] == f[i + 1..] && f[i + 1..][1..] == f[i + 2..] && f[i + 2..][1..] == f[i + 3..];
    assert Run(c, f[i..]) == Run(Absorb(c, f[i]), f[i + 1..]);
  }

  lemma WindowEdges(f: seq<u8>, g: seq<u8>, w: nat)
    requires |f| == |g| && w / 8 + 2 < |f| && AgreeOutside(f, g, w, w + 16)
    ensures WithinBurst(ByteXor(f[w / 8], g[w / 8]), ByteXor(f[w / 8 + 2], g[w / 8 + 2]), w % 8)
  {
    hide BitOf, Bits, AgreeOutside;
    var i, s := w / 8, w % 8;
    forall t: nat | t < s ensures BitOf(Bits(f[i]), t) == BitOf(Bits(g[i]), t) {
      BitAtByte(f, g, w, w + 16, i, t);
    }
    LowBitsAgree(Bits(f[i]), Bits(g[i]), s);
    var j := i + 2;
    forall t: nat | s <= t < 8 ensures BitOf(Bits(f[j]), t) == BitOf(Bits(g[j]), t) {
      BitAtByte(f, g, w, w + 16, j, t);
    }
    HighBitsAgree(Bits(f[j]), Bits(g[j]), s);
  }

  /** Frames of one length that differ at most inside sixteen consecutive bits leave the same
      register only if they are equal. */
  lemma BurstsDetected(f: seq<u8>, g: seq<u8>, w: nat)
    requires |f| == |g| && AgreeOutside(f, g, w, w + 16)
    requires Run(INITIAL, f) == Run(INITIAL, g)
    ensures f == g
  {
    hide Run, BitOf;
    if w / 8 >= |f| {
      forall j | 0 <= j < |f| ensures f[j] == g[j] {
        SameByte(f, g, w, w + 16, j);
      }
    } else {
      var pf, pg := f + [0, 0], g + [0, 0];
      RunAppend(INITIAL, f, [0, 0]);
      RunAppend(INITIAL, g, [0, 0]);
      assert AgreeOutside(pf, pg, w, w + 16) by {
        forall k: nat | k < 8 * |pf| && !(w <= k < w + 16) ensures BitAt(pf, k) == BitAt(pg, k) {
          if k < 8 * |f| {
            assert BitAt(f, k) == BitAt(g, k);
          }
        }
      }
      BurstInside(pf, pg, w);
      assert f == pf[..|f|] && g == pg[..|g|];
    }
  }

  // -- Particular values ------------------------------------------------------------------------

  lemma AbsorbUnrolled(c: bv16, b: u8)
    ensures Absorb(c, b) == EightSteps(c ^ Bits(b))
  {
    hide Steps, EightSteps, Bits;
    Unrolled(c ^ Bits(b));
  }

  predicate Absorbs(c: bv16, x: bv16, d: bv16) {
    EightSteps(c ^ x) == d
  }

  /** One step of a calculation by hand: the register goes from `c` to `d` at byte `n`. */
  lemma Next(s: seq<u8>, n: nat, c: bv16, d: bv16)
    requires n < |s| && Run(INITIAL, s[..n]) == c && Absorbs(c, Bits(s[n]), d)
    ensures Run(INITIAL, s[..n + 1]) == d
  {
    hide Absorb, EightSteps, Bits;
    assert s[..n + 1] == s[..n] + [s[n]];
    RunAppend(INITIAL, s[..n], [s[n]]);
    assert [s[n]][1..] == [];
    AbsorbUnrolled(c, s[n]);
  }

  lemma EmptyRun(s: seq<u8>)
    ensures Run(INITIAL, s[..0]) == 0xffff
  {
  }

  lemma OnesPatterns()
    ensures Absorbs(0xffff, 0xff, 0x00ff) && Absorbs(0x00ff, 0xff, 0)
  {
  }

  /** Two bytes 0xff clear the register exactly if it is 0xffff before. */
  lemma ClearedByOnes(c: bv16)
    ensures Run(c, [0xff, 0xff]) == 0 <==> c == 0xffff
  {
    var ones: seq<u8> := [0xff, 0xff];
    OnesPatterns();
    SomeBits();
    hide Run, Absorbs, Bits;
    EmptyRun(ones);
    Next(ones, 0, 0xffff, 0x00ff);
    Next(ones, 1, 0x00ff, 0);
    assert ones[..2] == ones;
    if Run(c, ones) == 0 {
      RunInjective(c, INITIAL, ones);
    }
  }

  /** The checksum starts at 0xffff: two leading bytes 0xff leave that of the rest, from zero. */
  lemma StartCancelled(s: seq<u8>)
    ensures Checksum([0xff, 0xff] + s) == Run(0, s) ^ 0xffff
  {
    hide Run;
    ClearedByOnes(INITIAL);
    RunAppend(INITIAL, [0xff, 0xff], s);
  }

  lemma CheckPatterns()
    ensures Absorbs(0xffff, 0x31, 0x2f8d)
    ensures Absorbs(0x2f8d, 0x32, 0x4d53)
    ensures Absorbs(0x4d53, 0x33, 0x634b)
    ensures Absorbs(0x634b, 0x34, 0x8b13)
    ensures Absorbs(0x8b13, 0x35, 0x44bf)
    ensures Absorbs(0x44bf, 0x36, 0x198d)
    ensures Absorbs(0x198d, 0x37, 0x1ac8)
    ensures Absorbs(0x1ac8, 0x38, 0xf795)
    ensures Absorbs(0xf795, 0x39, 0x6f91)
  {
  }

  lemma SomeBits()
    ensures Bits(0x31) == 0x31 && Bits(0x32) == 0x32 && Bits(0x33) == 0x33 && Bits(0x34) == 0x34
    ensures Bits(0x35) == 0x35 && Bits(0x36) == 0x36 && Bits(0x37) == 0x37 && Bits(0x38) == 0x38
    ensures Bits(0x39) == 0x39 && Bits(0) == 0 && Bits(0xff) == 0xff
  {
  }

  lemma DigitsRun(s: seq<u8>)
    requires |s| == 9 && forall k | 0 <= k < 9 :: s[k] == 0x31 + k
    ensures Run(INITIAL, s) == 0x6f91
  {
    CheckPatterns();
    SomeBits();
    hide Run, Absorbs, Bits;
    EmptyRun(s);
    Next(s, 0, 0xffff, 0x2f8d);
    Next(s, 1, 0x2f8d, 0x4d53);
    Next(s, 2, 0x4d53, 0x634b);
    Next(s, 3, 0x634b, 0x8b13);
    Next(s, 4, 0x8b13, 0x44bf);
    Next(s, 5, 0x44bf, 0x198d);
    Next(s, 6, 0x198d, 0x1ac8);
    Next(s, 7, 0x1ac8, 0xf795);
    Next(s, 8, 0xf795, 0x6f91);
    assert s[..9] == s;
  }

  /** The value listed for CRC-16/IBM-SDLC in catalogues of checksums: that of the digits 1 to 9. */
  lemma CheckValue()
    ensures Checksum([0x31, 0x32, 0x33, 0x34, 0x35, 0x36, 0x37, 0x38, 0x39]) == 0x906e
  {
    hide Run;
    DigitsRun([0x31, 0x32, 0x33, 0x34, 0x35, 0x36, 0x37, 0x38, 0x39]);
  }

  lemma ZeroPattern()
    ensures Absorbs(0xffff, 0, 0x0f87)
  {
  }

  lemma ChecksumOfZero()
    ensures Checksum([0]) == 0xf078
  {
    ZeroPattern();
    SomeBits();
    hide Run, Absorbs, Bits;
    EmptyRun([0]);
    Next([0], 0, 0xffff, 0x0f87);
    assert [0][..1] == [0];
  }
}
