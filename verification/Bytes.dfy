/** Fixed-width integers, little-endian fields and the flattening of chunk lists. */
module Bytes {

  type u8 = x: int | 0 <= x < 0x100
  type u16 = x: int | 0 <= x < 0x1_0000
  type u32 = x: int | 0 <= x < 0x1_0000_0000

  datatype Option<+T> = None | Some(value: T)
  datatype Result<+T, +E> = Ok(value: T) | Err(error: E)

  function Le16(lo: u8, hi: u8): u16 {
    lo + 0x100 * hi
  }

  function Le32(b0: u8, b1: u8, b2: u8, b3: u8): u32 {
    b0 + 0x100 * b1 + 0x1_0000 * b2 + 0x100_0000 * b3
  }

  function Le16Bytes(x: u16): (s: seq<u8>)
    ensures |s| == 2 && Le16(s[0], s[1]) == x
  {
    [x % 0x100, x / 0x100]
  }

  function Le32Bytes(x: u32): (s: seq<u8>)
    ensures |s| == 4 && Le32(s[0], s[1], s[2], s[3]) == x
  {
    var y := x / 0x100;
    var z := y / 0x100;
    [x % 0x100, y % 0x100, z % 0x100, z / 0x100]
  }

  // -- Bytes as bit patterns ----------------------------------------------------------------

  function ByteOf(b: bv8): (r: u8)
    ensures r as bv8 == b
  {
    b as int
  }

  lemma NextPattern(x: bv8)
    requires x < 0xff
    ensures (x + 1) as int == x as int + 1
  {
  }

  lemma {:induction false} PatternOf(a: int) returns (x: bv8)
    requires 0 <= a < 0x100
    ensures x as int == a
    decreases a
  {
    if a == 0 {
      x := 0;
    } else {
      x := PatternOf(a - 1);
      NextPattern(x);
      x := x + 1;
    }
  }

  lemma ByteThroughBits(a: int)
    requires 0 <= a < 0x100
    ensures (a as bv8) as int == a
  {
    var x := PatternOf(a);
  }

  function FlipBit(x: bv8): bv8 {
    x ^ 0x20
  }

  /** Exclusive-or with 0x20. */
  function Flip(b: u8): u8 {
    ByteOf(FlipBit(b as bv8))
  }

  lemma FlipBitTwice(x: bv8)
    ensures FlipBit(FlipBit(x)) == x
  {
  }

  lemma FlipTwice(b: u8)
    ensures Flip(Flip(b)) == b
  {
    hide FlipBit, ByteOf;
    FlipBitTwice(b as bv8);
    assert Flip(b) as bv8 == FlipBit(b as bv8);
    UnpackByte(b);
  }

  lemma UnpackByte(b: u8)
    ensures ByteOf(b as bv8) == b
  {
    ByteThroughBits(b);
  }

  lemma FlipPattern(x: bv8)
    ensures FlipBit(x) == if (x / 0x20) % 2 == 0 then x + 0x20 else x - 0x20
    ensures if (x / 0x20) % 2 == 0 then x < 0xe0 else x >= 0x20
  {
  }

  /** Exclusive-or with 0x20 in arithmetic: bit 5 is inverted. */
  lemma FlipMeans(b: u8)
    ensures Flip(b) == if b / 0x20 % 2 == 0 then b + 0x20 else b - 0x20
  {
    var x := PatternOf(b);
    FlipPattern(x);
  }

  // -- Lists of chunks ------------------------------------------------------------------------

  /** All chunks of a list, joined in order. */
  function Join<T>(chunks: seq<seq<T>>): seq<T> {
    if chunks == [] then [] else chunks[0] + Join(chunks[1..])
  }

  lemma {:induction false} JoinAppend<T>(a: seq<seq<T>>, b: seq<seq<T>>)
    ensures Join(a + b) == Join(a) + Join(b)
  {
    if a == [] {
      assert a + b == b;
    } else {
      assert (a + b)[0] == a[0] && (a + b)[1..] == a[1..] + b;
      JoinAppend(a[1..], b);
    }
  }
}
