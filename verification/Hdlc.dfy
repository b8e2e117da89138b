/** Qualcomm DIAG framing: asynchronous HDLC byte stuffing with a checksum trailer. */
module Hdlc {
  import opened Bytes
  import Crc
  import CrcErrors

  const FLAG: u8 := 0x7e
  const ESCAPE: u8 := 0x7d

  datatype FrameError = TooShort | BadCrc(expected: bv16, actual: bv16)
  type Frame = Result<seq<u8>, FrameError>

  function Validate(raw: seq<u8>): Frame {
    if |raw| < 3 then Err(TooShort)
    else
      var pos := |raw| - 2;
      var expected := Crc.Word(raw[pos], raw[pos + 1]);
      var actual := Crc.Checksum(raw[..pos]);
      if expected != actual then Err(BadCrc(expected, actual)) else Ok(raw[..pos])
  }

  // -- What the decoder means -----------------------------------------------------------------

  /**
   Undo byte stuffing: every byte other than 0x7d counts, flipped exactly when the byte just
   before it is 0x7d. A run of 0x7d is therefore one escape, and one at the end is dropped.
   */
  function Unescape(s: seq<u8>): seq<u8>
    decreases |s|
  {
    if s == [] then []
    else
      var n := |s| - 1;
      if s[n] == ESCAPE then Unescape(s[..n])
      else Unescape(s[..n]) + [if EndsInEscape(s[..n]) then Flip(s[n]) else s[n]]
  }

  predicate EndsInEscape(s: seq<u8>) {
    |s| > 0 && s[|s| - 1] == ESCAPE
  }

  /** The position of the first flag of `s`, or its length. */
  function FlagIn(s: seq<u8>): (i: nat)
    ensures i <= |s| && FLAG !in s[..i] && (i < |s| ==> s[i] == FLAG)
    decreases |s|
  {
    if s == [] || s[0] == FLAG then 0
    else
      var i := 1 + FlagIn(s[1..]);
      assert s[..i] == [s[0]] + s[1..][..i - 1];
      i
  }

  /** What one segment closed by a flag yields; segments that unescape to nothing are skipped. */
  function Closed(segment: seq<u8>): seq<Frame> {
    if Unescape(segment) == [] then [] else [Validate(Unescape(segment))]
  }

  /** The results of a whole stream: split at the flags, unescape, validate. */
  function Decode(stream: seq<u8>): seq<Frame>
    decreases |stream|
  {
    var i := FlagIn(stream);
    if i == |stream| then [] else Closed(stream[..i]) + Decode(stream[i + 1..])
  }

  /** The bytes after the last flag. */
  function Open(stream: seq<u8>): seq<u8>
    decreases |stream|
  {
    var i := FlagIn(stream);
    if i == |stream| then stream else Open(stream[i + 1..])
  }

  lemma {:induction false} FlagAt(s: seq<u8>, i: nat)
    requires i <= |s| && FLAG !in s[..i] && (i < |s| ==> s[i] == FLAG)
    ensures FlagIn(s) == i
    decreases |s|
  {
    if i > 0 {
      assert s[..i][0] == s[0] && s[1..][..i - 1] == s[..i][1..];
      FlagAt(s[1..], i - 1);
    }
  }

  lemma DecodeFirst(segment: seq<u8>, rest: seq<u8>)
    requires FLAG !in segment
    ensures Decode(segment + [FLAG] + rest) == Closed(segment) + Decode(rest)
    ensures Open(segment + [FLAG] + rest) == Open(rest)
    ensures Decode(segment) == [] && Open(segment) == segment
  {
    hide Closed;
    var s, i := segment + [FLAG] + rest, |segment|;
    assert s[..i] == segment && s[i + 1..] == rest;
    FlagAt(s, i);
    FlagAt(segment, i);
  }

  /** Decoding can be resumed from the open segment alone. */
  lemma {:induction false} DecodeAppend(s: seq<u8>, t: seq<u8>)
    ensures Decode(s + t) == Decode(s) + Decode(Open(s) + t)
    ensures Open(s + t) == Open(Open(s) + t)
    decreases |s|
  {
    hide Closed, Decode, Open;
    var i := FlagIn(s);
    if i < |s| {
      var head, tail := s[..i], s[i + 1..];
      assert s == head + [FLAG] + tail && s + t == head + [FLAG] + (tail + t);
      DecodeFirst(head, tail);
      DecodeFirst(head, tail + t);
      DecodeAppend(tail, t);
      assert Closed(head) + (Decode(tail) + Decode(Open(tail) + t)) == Decode(s) + Decode(Open(tail) + t);
    } else {
      assert s[..i] == s;
      DecodeFirst(s, []);
    }
  }

  lemma DecodeOne(s: seq<u8>, b: u8)
    ensures Decode(s + [b]) == Decode(s) + if b == FLAG then Closed(Open(s)) else []
    ensures Open(s + [b]) == if b == FLAG then [] else Open(s) + [b]
  {
    hide Closed, Decode, Open;
    DecodeAppend(s, [b]);
    OpenHasNoFlag(s);
    var o := Open(s);
    if b == FLAG {
      DecodeFirst(o, []);
      DecodeFirst([], []);
      assert o + [FLAG] + [] == o + [b];
    } else {
      DecodeFirst(o + [b], []);
    }
  }

  lemma {:induction false} OpenHasNoFlag(s: seq<u8>)
    ensures FLAG !in Open(s)
    decreases |s|
  {
    if FlagIn(s) < |s| {
      OpenHasNoFlag(s[FlagIn(s) + 1..]);
    }
  }

  // -- Encoding -------------------------------------------------------------------------------

  function StuffByte(b: u8): seq<u8> {
    if b == ESCAPE || b == FLAG then [ESCAPE, Flip(b)] else [b]
  }

  function Stuff(s: seq<u8>): seq<u8>
    decreases |s|
  {
    if s == [] then [] else Stuff(s[..|s| - 1]) + StuffByte(s[|s| - 1])
  }

  function Trailed(packet: seq<u8>): seq<u8> {
    packet + [Crc.Low(Crc.Checksum(packet)), Crc.High(Crc.Checksum(packet))]
  }

  function Encode(packet: seq<u8>): seq<u8> {
    Stuff(Trailed(packet)) + [FLAG]
  }

  method EncodeHdlc(packet: seq<u8>) returns (out: seq<u8>)
    ensures out == Encode(packet)
  {
    hide Flip;
    var crc := Crc.Checksum(packet);
    var bytes := packet + [Crc.Low(crc), Crc.High(crc)];
    out := [];
    for i := 0 to |bytes|
      invariant out == Stuff(bytes[..i])
    {
      assert bytes[..i + 1][..i] == bytes[..i];
      var byte := bytes[i];
      if byte == ESCAPE || byte == FLAG {
        out := out + [ESCAPE];
        out := out + [Flip(byte)];
      } else {
        out := out + [byte];
      }
    }
    assert bytes[..|bytes|] == bytes;
    out := out + [FLAG];
  }

  lemma FlipSpecial()
    ensures Flip(FLAG) == 0x5e && Flip(ESCAPE) == 0x5d
  {
  }

  lemma UnescapeOne(t: seq<u8>, b: u8)
    ensures Unescape(t + [b]) ==
            if b == ESCAPE then Unescape(t) else Unescape(t) + [if EndsInEscape(t) then Flip(b) else b]
    ensures EndsInEscape(t + [b]) == (b == ESCAPE)
  {
    hide Flip;
    assert (t + [b])[..|t|] == t;
  }

  lemma UnescapeStuffed(t: seq<u8>, b: u8)
    requires !EndsInEscape(t)
    ensures Unescape(t + StuffByte(b)) == Unescape(t) + [b] && !EndsInEscape(t + StuffByte(b))
    ensures FLAG !in StuffByte(b)
  {
    if b == ESCAPE || b == FLAG {
      FlipSpecial();
      FlipTwice(b);
      hide Flip;
      UnescapeOne(t, ESCAPE);
      UnescapeOne(t + [ESCAPE], Flip(b));
      assert t + [ESCAPE, Flip(b)] == t + [ESCAPE] + [Flip(b)];
    } else {
      UnescapeOne(t, b);
    }
  }

  lemma {:induction false} StuffUndone(s: seq<u8>)
    ensures Unescape(Stuff(s)) == s && !EndsInEscape(Stuff(s)) && FLAG !in Stuff(s)
    ensures |s| <= |Stuff(s)| <= 2 * |s|
    decreases |s|
  {
    hide Unescape, EndsInEscape;
    if s == [] {
      NothingStuffed();
    } else {
      var n := |s| - 1;
      StuffUndone(s[..n]);
      UnescapeStuffed(Stuff(s[..n]), s[n]);
      assert s == s[..n] + [s[n]];
    }
  }

  lemma NothingStuffed()
    ensures Unescape([]) == [] && !EndsInEscape([])
  {
  }

  lemma TrailerAccepted(packet: seq<u8>)
    ensures Validate(Trailed(packet)) == if packet == [] then Err(TooShort) else Ok(packet)
  {
    var raw, c := Trailed(packet), Crc.Checksum(packet);
    assert raw[..|packet|] == packet;
    Crc.WordOfBytes(c);
  }

  /** What decoding an encoded packet yields: the packet, unless it is empty. */
  function Received(packet: seq<u8>): Frame {
    if packet == [] then Err(TooShort) else Ok(packet)
  }

  function EncodeAll(packets: seq<seq<u8>>): seq<u8> {
    if packets == [] then [] else Encode(packets[0]) + EncodeAll(packets[1..])
  }

  function ReceivedAll(packets: seq<seq<u8>>): seq<Frame> {
    if packets == [] then [] else [Received(packets[0])] + ReceivedAll(packets[1..])
  }

  lemma EncodedFirst(packet: seq<u8>, rest: seq<u8>)
    ensures Decode(Encode(packet) + rest) == [Received(packet)] + Decode(rest)
    ensures Open(Encode(packet) + rest) == Open(rest)
  {
    StuffUndone(Trailed(packet));
    TrailerAccepted(packet);
    assert Closed(Stuff(Trailed(packet))) == [Received(packet)];
    DecodeFirst(Stuff(Trailed(packet)), rest);
  }

  /** Any list of packets survives encoding, concatenation and decoding. */
  lemma {:induction false} RoundTrip(packets: seq<seq<u8>>)
    ensures Decode(EncodeAll(packets)) == ReceivedAll(packets) && Open(EncodeAll(packets)) == []
  {
    if packets != [] {
      RoundTrip(packets[1..]);
      EncodedFirst(packets[0], EncodeAll(packets[1..]));
    }
  }

  /** Whatever was received before, one flag synchronises: what follows decodes on its own. */
  lemma SelfSynchronising(noise: seq<u8>, packets: seq<seq<u8>>)
    ensures Decode(noise + [FLAG] + EncodeAll(packets)) == Decode(noise + [FLAG]) + ReceivedAll(packets)
  {
    DecodeOne(noise, FLAG);
    DecodeAppend(noise + [FLAG], EncodeAll(packets));
    RoundTrip(packets);
    assert [] + EncodeAll(packets) == EncodeAll(packets);
  }

  lemma EncodedShape(packet: seq<u8>)
    ensures |packet| + 3 <= |Encode(packet)| <= 2 * |packet| + 5
    ensures forall i | 0 <= i < |Encode(packet)| :: Encode(packet)[i] == FLAG <==> i == |Encode(packet)| - 1
  {
    StuffUndone(Trailed(packet));
  }

  // -- Frames in bytes ------------------------------------------------------------------------

  /** On the wire 0x7d and 0x7e become two bytes each and every other byte stands for itself. */
  lemma StuffedByte(b: u8)
    ensures StuffByte(b) == if b == 0x7d then [0x7d, 0x5d] else if b == 0x7e then [0x7d, 0x5e] else [b]
  {
    FlipMeans(b);
    hide Flip;
  }

  /** A receiver inverts bit 5 of whatever follows 0x7d, not only of what a sender escapes. */
  lemma EscapedByte(s: seq<u8>, b: u8)
    requires b != 0x7d
    ensures Unescape(s + [0x7d, b]) == Unescape(s) + [if b / 0x20 % 2 == 0 then b + 0x20 else b - 0x20]
  {
    hide Flip, Unescape;
    FlipMeans(b);
    assert s + [0x7d, b] == s + [0x7d] + [b];
    UnescapeOne(s, 0x7d);
    UnescapeOne(s + [0x7d], b);
  }

  /** A wrong checksum is reported with the value received, low byte first, and the value expected. */
  lemma WrongChecksum(packet: seq<u8>, received: bv16)
    requires packet != [] && received != Crc.Checksum(packet)
    ensures Validate(packet + [Crc.Low(received), Crc.High(received)]) == Err(BadCrc(received, Crc.Checksum(packet)))
  {
    hide Crc.Checksum, Crc.Low, Crc.High, Crc.Word;
    var raw := packet + [Crc.Low(received), Crc.High(received)];
    Crc.WordOfBytes(received);
    assert raw[..|packet|] == packet;
  }

  lemma ZeroTrailed()
    ensures Trailed([0]) == [0x00, 0x78, 0xf0]
  {
    Crc.ChecksumOfZero();
    assert Crc.Word(0x78, 0xf0) == 0xf078;
    hide Crc.Checksum, Crc.Low, Crc.High, Crc.Word;
    Crc.BytesOfWord(0x78, 0xf0);
  }

  /** One frame in bytes, both ways: the packet 00 is sent and received as 00 78 f0 7e. */
  lemma ZeroFrame()
    ensures Encode([0]) == [0x00, 0x78, 0xf0, 0x7e]
    ensures Decode([0x00, 0x78, 0xf0, 0x7e]) == [Ok([0])]
  {
    ZeroTrailed();
    hide Trailed, Stuff, StuffByte, Decode;
    StuffedThree(0x00, 0x78, 0xf0);
    StuffedByte(0x00);
    StuffedByte(0x78);
    StuffedByte(0xf0);
    EncodedFirst([0], []);
    DecodeFirst([], []);
    assert Encode([0]) + [] == Encode([0]);
  }

  lemma StuffedThree(a: u8, b: u8, c: u8)
    ensures Stuff([a, b, c]) == StuffByte(a) + StuffByte(b) + StuffByte(c)
  {
    hide StuffByte;
    assert [a, b, c][..2] == [a, b] && [a, b][..1] == [a] && [a][..0] == [];
    assert Stuff([a]) == Stuff([]) + StuffByte(a);
  }

  // -- Error detection ------------------------------------------------------------------------

  lemma AcceptedIffResidue(raw: seq<u8>)
    ensures Validate(raw).Ok? <==> |raw| >= 3 && Crc.Run(Crc.INITIAL, raw) == Crc.RESIDUE
  {
    if |raw| >= 3 {
      var pos := |raw| - 2;
      assert raw == raw[..pos] + [raw[pos], raw[pos + 1]];
      Crc.ResidueForm(raw[..pos], raw[pos], raw[pos + 1]);
    }
  }

  /** What is accepted is exactly what the encoder makes: a nonempty packet and its own checksum. */
  lemma AcceptedExactly(raw: seq<u8>, packet: seq<u8>)
    ensures Validate(raw) == Ok(packet) <==> packet != [] && raw == Trailed(packet)
  {
    TrailerAccepted(packet);
    if Validate(raw) == Ok(packet) {
      var pos := |raw| - 2;
      Crc.BytesOfWord(raw[pos], raw[pos + 1]);
      assert raw == raw[..pos] + [raw[pos], raw[pos + 1]];
    }
  }

  /** An accepted frame changed inside at most sixteen consecutive bits is rejected. */
  lemma BurstRejected(f: seq<u8>, g: seq<u8>, w: nat)
    requires Validate(f).Ok? && |f| == |g| && f != g && Crc.AgreeOutside(f, g, w, w + 16)
    ensures Validate(g).Err? && Validate(g).error.BadCrc?
  {
    AcceptedIffResidue(f);
    AcceptedIffResidue(g);
    if Crc.Run(Crc.INITIAL, g) == Crc.RESIDUE {
      Crc.BurstsDetected(f, g, w);
    }
  }

  /** In particular no change confined to two adjacent bytes, trailer included, goes unnoticed. */
  lemma AdjacentBytesRejected(f: seq<u8>, g: seq<u8>, i: nat)
    requires Validate(f).Ok? && |f| == |g| && f != g
    requires forall j | 0 <= j < |f| && j != i && j != i + 1 :: f[j] == g[j]
    ensures Validate(g).Err? && Validate(g).error.BadCrc?
  {
    hide Validate, Crc.BitOf;
    BurstRejected(f, g, 8 * i);
  }

  /** An accepted frame with an odd number of bits inverted is rejected. */
  lemma OddErrorRejected(f: seq<u8>, g: seq<u8>)
    requires Validate(f).Ok? && |f| == |g| && CrcErrors.BitDistance(f, g) % 2 == 1
    ensures Validate(g).Err? && Validate(g).error.BadCrc?
  {
    AcceptedIffResidue(f);
    AcceptedIffResidue(g);
    CrcErrors.OddErrorsDetected(f, g);
  }

  /** An accepted frame of up to 4095 bytes with one, two or three bits inverted is rejected. */
  lemma FewErrorsRejected(f: seq<u8>, g: seq<u8>)
    requires Validate(f).Ok? && |f| == |g| <= 4095 && f != g && CrcErrors.BitDistance(f, g) <= 3
    ensures Validate(g).Err? && Validate(g).error.BadCrc?
  {
    AcceptedIffResidue(f);
    AcceptedIffResidue(g);
    if Crc.Run(Crc.INITIAL, g) == Crc.RESIDUE {
      CrcErrors.MinimumDistance(f, g);
    }
  }

  // -- An escape before a flag ----------------------------------------------------------------

  lemma EscapeDropped(s: seq<u8>)
    ensures Unescape(s + [ESCAPE]) == Unescape(s) && Closed(s + [ESCAPE]) == Closed(s)
  {
    assert (s + [ESCAPE])[..|s|] == s;
  }

  /** The abort sequence of section 4.3 of RFC 1662 does what a flag alone does, wherever it comes. */
  lemma AbortIsFlag(s: seq<u8>, rest: seq<u8>)
    ensures Decode(s + [ESCAPE, FLAG] + rest) == Decode(s + [FLAG] + rest)
  {
    hide Decode, Closed, Open, Unescape;
    var o := Open(s);
    OpenHasNoFlag(s);
    assert s + [ESCAPE, FLAG] + rest == s + ([ESCAPE, FLAG] + rest);
    assert s + [FLAG] + rest == s + ([FLAG] + rest);
    DecodeAppend(s, [ESCAPE, FLAG] + rest);
    DecodeAppend(s, [FLAG] + rest);
    assert o + ([ESCAPE, FLAG] + rest) == o + [ESCAPE] + [FLAG] + rest;
    assert o + ([FLAG] + rest) == o + [FLAG] + rest;
    DecodeFirst(o + [ESCAPE], rest);
    DecodeFirst(o, rest);
    EscapeDropped(o);
  }

  /**
   An abort yields nothing, as the standard asks, exactly if its frame holds no bytes; it delivers a
   packet exactly if the bytes before it end at the residue.
   */
  lemma AbortExactly(segment: seq<u8>)
    requires FLAG !in segment
    ensures Decode(segment + [ESCAPE, FLAG]) == [] <==> Unescape(segment) == []
    ensures |Decode(segment + [ESCAPE, FLAG])| == 1 && Decode(segment + [ESCAPE, FLAG])[0].Ok? <==>
              |Unescape(segment)| >= 3 && Crc.Run(Crc.INITIAL, Unescape(segment)) == Crc.RESIDUE
  {
    hide Decode, Open, Unescape, Validate;
    AbortIsFlag(segment, []);
    DecodeFirst(segment, []);
    DecodeFirst([], []);
    assert segment + [ESCAPE, FLAG] + [] == segment + [ESCAPE, FLAG];
    AcceptedIffResidue(Unescape(segment));
  }

  /** An aborted frame whose packet and checksum are complete is delivered. */
  lemma AbortedDelivered(p: seq<u8>)
    requires p != []
    ensures Decode(Stuff(Trailed(p)) + [ESCAPE, FLAG]) == [Ok(p)]
  {
    hide Decode, Stuff, Unescape, Validate, Trailed;
    var s := Stuff(Trailed(p));
    StuffUndone(Trailed(p));
    AbortIsFlag(s, []);
    DecodeFirst(s, []);
    DecodeFirst([], []);
    assert s + [ESCAPE, FLAG] + [] == s + [ESCAPE, FLAG];
    AcceptedExactly(Trailed(p), p);
    TrailedLonger(p);
    assert Closed(s) == [Ok(p)];
  }

  lemma TrailedLonger(p: seq<u8>)
    ensures |Trailed(p)| == |p| + 2
  {
  }

  // -- The decoder ----------------------------------------------------------------------------

  class Decoder {
    var frame: seq<u8>
    var escaped: bool
    ghost var seen: seq<u8>

    ghost predicate Valid()
      reads this
    {
      frame == Unescape(Open(seen)) && escaped == EndsInEscape(Open(seen))
    }

    constructor ()
      ensures Valid() && seen == []
    {
      frame, escaped, seen := [], false, [];
    }

    method Push(byte: u8) returns (r: Option<Frame>)
      requires Valid()
      modifies this
      ensures Valid() && seen == old(seen) + [byte]
      ensures Decode(seen) == Decode(old(seen)) + if r.Some? then [r.value] else []
      ensures byte == FLAG ==> frame == [] && !escaped
    {
      DecodeOne(seen, byte);
      ghost var o := Open(seen);
      assert (o + [byte])[..|o|] == o;
      seen := seen + [byte];
      if byte == FLAG {
        escaped := false;
        if frame == [] {
          return None;
        }
        var raw := frame;
        frame := [];
        return Some(Validate(raw));
      } else if byte == ESCAPE {
        escaped := true;
        return None;
      } else {
        frame := frame + [if escaped then Flip(byte) else byte];
        escaped := false;
        return None;
      }
    }
  }
}
