/** Samsung SDM packets and the resynchronising stream decoder. */
module Sdm {
  import opened Bytes

  const START: u8 := 0x7f
  const END: u8 := 0x7e
  const HEADER_LEN := 14
  const MAX_PACKET := 8 * 1024 * 1024
  const SYNTHETIC_BASE: u16 := 0x2400

  datatype Header = Header(length1: u16, zero: u8, length2: u16, stamp: u16, direction: u8,
                           radioId: u8, group: u8, command: u8, timestamp: u32)
  datatype Frame = Frame(header: Header, packet: seq<u8>)
  datatype SdmError =
    | HeaderTooShort
    | InvalidLengthRelation(length1: u16, length2: u16)
    | PacketTooLarge(size: nat)
    | BadTerminator(value: u8)
  type Item = Result<Frame, SdmError>

  function ParseHeader(h: seq<u8>): Result<Header, SdmError> {
    if |h| < HEADER_LEN then Err(HeaderTooShort)
    else
      Ok(Header(Le16(h[0], h[1]), h[2], Le16(h[3], h[4]), Le16(h[5], h[6]), h[7],
                h[8] / 0x20, h[8] % 0x20, h[9], Le32(h[10], h[11], h[12], h[13])))
  }

  function SyntheticLogCode(header: Header): (code: u16)
    ensures 0x2400 <= code <= 0x241f
  {
    SYNTHETIC_BASE + header.group % 0x20
  }

  function SaturatingAdd3(x: u16): u16 {
    if x + 3 > 0xffff then 0xffff else x + 3
  }

  // -- The reference parser -------------------------------------------------------------------

  /** The stream from its first start byte on. */
  function Resync(s: seq<u8>): (t: seq<u8>)
    ensures |t| <= |s| && s[|s| - |t|..] == t && START !in s[..|s| - |t|]
    ensures t != [] ==> t[0] == START
    decreases |s|
  {
    if s == [] || s[0] == START then s
    else
      var t := Resync(s[1..]);
      assert s[..|s| - |t|] == [s[0]] + s[1..][..|s| - 1 - |t|];
      t
  }

  datatype Verdict = Wait | Refuse(error: SdmError) | Accept(header: Header, total: nat)

  /** What the bytes at a start marker amount to. */
  function Examine(t: seq<u8>): (v: Verdict)
    ensures v.Accept? ==> 0 < v.total <= |t|
  {
    if |t| < 1 + HEADER_LEN then Wait
    else match ParseHeader(t[1..1 + HEADER_LEN])
      case Err(e) => Refuse(e)
      case Ok(h) =>
        var total := h.length1 + 2;
        if h.length1 != SaturatingAdd3(h.length2) then Refuse(InvalidLengthRelation(h.length1, h.length2))
        else if total < 1 + HEADER_LEN + 1 || total > MAX_PACKET then Refuse(PacketTooLarge(total))
        else if |t| < total then Wait
        else if t[total - 1] != END then Refuse(BadTerminator(t[total - 1]))
        else Accept(h, total)
  }

  datatype Parsed = Parsed(items: seq<Item>, rest: seq<u8>)

  function Prepend(item: Item, p: Parsed): Parsed {
    Parsed([item] + p.items, p.rest)
  }

  /** All results of a whole stream, and the bytes kept for later. */
  function Parse(s: seq<u8>): Parsed
    decreases |s|
  {
    var t := Resync(s);
    if t == [] then Parsed([], [])
    else match Examine(t)
      case Wait => Parsed([], t)
      case Refuse(e) => Prepend(Err(e), Parse(t[1..]))
      case Accept(h, total) => Prepend(Ok(Frame(h, t[..total])), Parse(t[total..]))
  }

  lemma ParseResync(s: seq<u8>)
    ensures Parse(s) == Parse(Resync(s))
  {
    assert Resync(Resync(s)) == Resync(s);
  }

  lemma ParseStep(t: seq<u8>)
    requires t != [] && t[0] == START
    ensures Examine(t).Wait? ==> Parse(t) == Parsed([], t)
    ensures Examine(t).Refuse? ==> Parse(t) == Prepend(Err(Examine(t).error), Parse(t[1..]))
    ensures Examine(t).Accept? ==>
              var total := Examine(t).total;
              Parse(t) == Prepend(Ok(Frame(Examine(t).header, t[..total])), Parse(t[total..]))
  {
    hide Examine;
  }

  /** Results found so far, followed by those of what is left. */
  function After(out: seq<Item>, p: Parsed): Parsed {
    Parsed(out + p.items, p.rest)
  }

  lemma Refused(whole: seq<u8>, out: seq<Item>, t: seq<u8>, e: SdmError)
    requires Parse(whole) == After(out, Parse(t)) && t != [] && t[0] == START
    requires Examine(t) == Refuse(e)
    ensures Parse(whole) == After(out + [Err(e)], Parse(t[1..]))
  {
    hide Examine, Parse;
    ParseStep(t);
  }

  lemma Accepted(whole: seq<u8>, out: seq<Item>, t: seq<u8>, h: Header, total: nat)
    requires Parse(whole) == After(out, Parse(t)) && t != [] && t[0] == START
    requires Examine(t) == Accept(h, total)
    ensures Parse(whole) == After(out + [Ok(Frame(h, t[..total]))], Parse(t[total..]))
  {
    hide Examine, Parse;
    ParseStep(t);
  }

  lemma Stopped(whole: seq<u8>, out: seq<Item>, t: seq<u8>)
    requires Parse(whole) == After(out, Parse(t))
    requires t == [] || (t[0] == START && Examine(t) == Wait)
    ensures Parse(whole) == Parsed(out, t)
  {
    if t != [] {
      ParseStep(t);
    }
  }

  lemma Started(whole: seq<u8>)
    ensures Parse(whole) == After([], Parse(whole))
  {
  }

  // -- The decoder ----------------------------------------------------------------------------

  class Decoder {
    var buffer: seq<u8>

    constructor ()
      ensures buffer == []
    {
      buffer := [];
    }

    method Push(data: seq<u8>) returns (out: seq<Item>)
      modifies this
      ensures Parsed(out, buffer) == Parse(old(buffer) + data)
    {
      hide Parse, Resync, ParseHeader, After;
      buffer := buffer + data;
      out := [];
      ghost var whole := buffer;
      Started(whole);
      while true
        invariant Parse(whole) == After(out, Parse(buffer))
        decreases |buffer|
      {
        var start := PositionOfStart(buffer);
        ParseResync(buffer);
        if start.None? {
          buffer := [];
          break;
        }
        if start.value > 0 {
          buffer := buffer[start.value..];
        }
        if |buffer| < 1 + HEADER_LEN {
          break;
        }
        var parsed := ParseHeader(buffer[1..1 + HEADER_LEN]);
        if parsed.Err? {
          Refused(whole, out, buffer, parsed.error);
          out := out + [Err(parsed.error)];
          buffer := buffer[1..];
          continue;
        }
        var header := parsed.value;
        if header.length1 != SaturatingAdd3(header.length2) {
          Refused(whole, out, buffer, InvalidLengthRelation(header.length1, header.length2));
          out := out + [Err(InvalidLengthRelation(header.length1, header.length2))];
          buffer := buffer[1..];
          continue;
        }
        var total := header.length1 + 2;
        if total < 1 + HEADER_LEN + 1 || total > MAX_PACKET {
          Refused(whole, out, buffer, PacketTooLarge(total));
          out := out + [Err(PacketTooLarge(total))];
          buffer := buffer[1..];
          continue;
        }
        if |buffer| < total {
          break;
        }
        var terminator := buffer[total - 1];
        if terminator != END {
          Refused(whole, out, buffer, BadTerminator(terminator));
          out := out + [Err(BadTerminator(terminator))];
          buffer := buffer[1..];
          continue;
        }
        Accepted(whole, out, buffer, header, total);
        var packet := buffer[..total];
        buffer := buffer[total..];
        out := out + [Ok(Frame(header, packet))];
      }
      Stopped(whole, out, buffer);
    }
  }

  method PositionOfStart(s: seq<u8>) returns (r: Option<nat>)
    ensures r.None? ==> Resync(s) == []
    ensures r.Some? ==> r.value < |s| && Resync(s) == s[r.value..]
  {
    for i := 0 to |s|
      invariant Resync(s) == Resync(s[i..])
    {
      if s[i] == START {
        return Some(i);
      }
      assert s[i..][1..] == s[i + 1..];
    }
    return None;
  }
}
