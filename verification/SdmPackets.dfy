/** Building SDM packets, and what the decoder makes of streams that contain them. */
module SdmPackets {
  import opened Bytes
  import opened Sdm
  import opened SdmStream

  const MAX_PAYLOAD := 65521

  datatype Request = Request(direction: u8, group: u8, command: u8, payload: seq<u8>, timestamp: u32)

  predicate Fits(r: Request) {
    |r.payload| <= MAX_PAYLOAD
  }

  /** The wire form of a request whose lengths fit their 16-bit fields. */
  function Wire(r: Request): seq<u8>
    requires Fits(r)
  {
    [START] + Le16Bytes(|r.payload| + 14) + [0] + Le16Bytes(|r.payload| + 11) + [0, 0]
    + [r.direction, r.group, r.command] + Le32Bytes(r.timestamp) + r.payload + [END]
  }

  method GeneratePacket(r: Request) returns (result: Result<seq<u8>, SdmError>)
    ensures result == if Fits(r) then Ok(Wire(r)) else Err(PacketTooLarge(|r.payload| + 16))
  {
    var length2 := 11 + |r.payload|;
    var length1 := length2 + 3;
    var total := length1 + 2;
    if total > MAX_PACKET || length1 > 0xffff {
      return Err(PacketTooLarge(total));
    }
    var out := [START];
    out := out + Le16Bytes(length1);
    out := out + [0];
    out := out + Le16Bytes(length2);
    out := out + Le16Bytes(0);
    out := out + [r.direction];
    out := out + [r.group];
    out := out + [r.command];
    out := out + Le32Bytes(r.timestamp);
    out := out + r.payload;
    out := out + [END];
    assert out == Wire(r);
    return Ok(out);
  }

  // -- Round trip -----------------------------------------------------------------------------

  /** The header a receiver must see; the group byte carries the radio in its top three bits. */
  function HeaderOf(r: Request): Header
    requires Fits(r)
  {
    Header(|r.payload| + 14, 0, |r.payload| + 11, 0, r.direction,
           r.group / 0x20, r.group % 0x20, r.command, r.timestamp)
  }

  function FrameOf(r: Request): Frame
    requires Fits(r)
  {
    Frame(HeaderOf(r), Wire(r))
  }

  lemma WireFields(r: Request)
    requires Fits(r)
    ensures var w := Wire(r);
            && |w| == |r.payload| + 16 && w[0] == 0x7f && w[3] == 0 && w[|w| - 1] == 0x7e
            && Le16(w[1], w[2]) == |r.payload| + 14 && Le16(w[4], w[5]) == |r.payload| + 11
            && w[6] == w[7] == 0 && w[8] == r.direction && w[9] == r.group && w[10] == r.command
            && Le32(w[11], w[12], w[13], w[14]) == r.timestamp && w[15..|w| - 1] == r.payload
  {
  }

  lemma WireFramed(r: Request)
    requires Fits(r)
    ensures WellFramed(Wire(r)) && Wire(r) != [] && Wire(r)[0] == START
    ensures ParseHeader(Wire(r)[1..]) == Ok(FrameOf(r).header) && FrameOf(r).packet == Wire(r)
  {
    WireFields(r);
    hide Wire, Le16, Le32;
    var w := Wire(r);
    assert forall k | 0 <= k < 14 :: w[1..][k] == w[k + 1];
  }

  lemma WireParsed(garbage: seq<u8>, r: Request, later: seq<u8>)
    requires Fits(r) && START !in garbage
    ensures Parse(garbage + Wire(r) + later) == Prepend(Ok(FrameOf(r)), Parse(later))
  {
    hide Parse, Wire, WellFramed, ParseHeader, FrameOf;
    WireFramed(r);
    GarbageSkipped(garbage, Wire(r) + later);
    PacketParsed(Wire(r), later);
    assert garbage + Wire(r) + later == garbage + (Wire(r) + later);
  }

  datatype Piece = Piece(garbage: seq<u8>, request: Request)

  predicate ValidPiece(piece: Piece) {
    START !in piece.garbage && Fits(piece.request)
  }

  function StreamOf(pieces: seq<Piece>): seq<u8>
    requires forall i | 0 <= i < |pieces| :: ValidPiece(pieces[i])
  {
    if pieces == [] then []
    else
      assert ValidPiece(pieces[0]);
      pieces[0].garbage + Wire(pieces[0].request) + StreamOf(pieces[1..])
  }

  function FramesOf(pieces: seq<Piece>): seq<Item>
    requires forall i | 0 <= i < |pieces| :: ValidPiece(pieces[i])
  {
    if pieces == [] then []
    else
      assert ValidPiece(pieces[0]);
      [Ok(FrameOf(pieces[0].request))] + FramesOf(pieces[1..])
  }

  lemma {:induction false} StreamParsed(pieces: seq<Piece>, tail: seq<u8>)
    requires START !in tail && forall i | 0 <= i < |pieces| :: ValidPiece(pieces[i])
    ensures Parse(StreamOf(pieces) + tail) == Parsed(FramesOf(pieces), [])
  {
    hide Parse, Wire, HeaderOf;
    if pieces == [] {
      GarbageSkipped(tail, []);
      NothingParsed();
      assert StreamOf(pieces) + tail == tail + [];
    } else {
      assert ValidPiece(pieces[0]);
      StreamParsed(pieces[1..], tail);
      var g, r, later := pieces[0].garbage, pieces[0].request, StreamOf(pieces[1..]) + tail;
      WireParsed(g, r, later);
      assert StreamOf(pieces) + tail == g + Wire(r) + later;
    }
  }

  /** Generated packets between any garbage without start bytes, cut anywhere, arrive exactly. */
  lemma RoundTrip(pieces: seq<Piece>, tail: seq<u8>, chunks: seq<seq<u8>>)
    requires START !in tail && forall i | 0 <= i < |pieces| :: ValidPiece(pieces[i])
    requires Join(chunks) == StreamOf(pieces) + tail
    ensures Feed([], chunks) == Parsed(FramesOf(pieces), [])
  {
    hide Parse, Feed, StreamOf;
    CutsAgree(chunks, chunks);
    StreamParsed(pieces, tail);
  }

  // -- Stray start markers --------------------------------------------------------------------

  function Strays(n: nat): (s: seq<u8>)
    ensures |s| == n && forall k | 0 <= k < n :: s[k] == START
  {
    if n == 0 then [] else [START] + Strays(n - 1)
  }

  /** The one payload length for which three stray markers complete a plausible packet. */
  const UNLUCKY_PAYLOAD := 32622

  lemma StrayFields(k: nat, w: seq<u8>, tail: seq<u8>)
    requires k >= 1 && |w| >= 16
    ensures var t := Strays(k) + w + tail;
            && |t| >= 15 && t[1] == (if k > 1 then START else w[0]) && t[2] == (if k > 2 then START else w[2 - k])
            && t[4] == (if k > 4 then START else w[4 - k]) && t[5] == (if k > 5 then START else w[5 - k])
  {
    var t := Strays(k) + w + tail;
    assert forall j | 0 <= j < k :: t[j] == START;
    assert forall j | 0 <= j < |w| :: t[k + j] == w[j];
  }

  lemma StrayRejected(k: nat, r: Request, tail: seq<u8>)
    requires k >= 1 && Fits(r) && !(k == 3 && |r.payload| == UNLUCKY_PAYLOAD)
    ensures var t := Strays(k) + Wire(r) + tail; |t| >= 15 && Rejects(t, InvalidLengthRelation(Length1(t), Length2(t)))
  {
    hide Wire, Strays;
    WireFields(r);
    StrayFields(k, Wire(r), tail);
  }

  /** With that payload, three stray markers and the packet are themselves one well-framed packet. */
  lemma ThreeStraysFramed(r: Request)
    requires Fits(r) && |r.payload| == UNLUCKY_PAYLOAD
    ensures WellFramed(Strays(3) + Wire(r))
  {
    WireFields(r);
    var w := Wire(r);
    var t := Strays(3) + w;
    assert t[0] == t[1] == t[2] == START && t[4] == w[1] && t[5] == w[2];
  }

  predicate LengthErrors(items: seq<Item>) {
    forall item | item in items :: item.Err? && item.error.InvalidLengthRelation?
  }

  lemma {:induction false} StraysParsed(n: nat, k: nat, r: Request, tail: seq<u8>) returns (errors: seq<Item>)
    requires Fits(r) && k <= n && (|r.payload| == UNLUCKY_PAYLOAD ==> n < 3 || k >= 3)
    ensures |errors| == n - k && LengthErrors(errors)
    ensures Parse(Strays(n) + Wire(r) + tail) == After(errors, Parse(Strays(k) + Wire(r) + tail))
    decreases n
  {
    hide Parse, Wire, Rejects;
    if n == k {
      errors := [];
      Started(Strays(k) + Wire(r) + tail);
    } else {
      var later := Strays(n - 1) + Wire(r) + tail;
      assert Strays(n) + Wire(r) + tail == [START] + later;
      StrayRejected(n, r, tail);
      var e := InvalidLengthRelation(Length1([START] + later), Length2([START] + later));
      StrayParsed(later, e);
      var more := StraysParsed(n - 1, k, r, tail);
      errors := [Err(e)] + more;
    }
  }

  /** `n` stray markers cost exactly `n` length errors and then the packet arrives. */
  ghost predicate Recovers(n: nat, r: Request, tail: seq<u8>)
    requires Fits(r)
  {
    exists errors :: |errors| == n && LengthErrors(errors) &&
      Parse(Strays(n) + Wire(r) + tail) == After(errors + [Ok(FrameOf(r))], Parse(tail))
  }

  lemma ThreeStraysParsed(r: Request, tail: seq<u8>)
    requires Fits(r) && |r.payload| == UNLUCKY_PAYLOAD
    ensures Parse(Strays(3) + Wire(r) + tail).items != []
    ensures var first := Parse(Strays(3) + Wire(r) + tail).items[0];
            first.Ok? && first.value.packet == Strays(3) + Wire(r)
    ensures Parse(Strays(3) + Wire(r) + tail) ==
            Prepend(Parse(Strays(3) + Wire(r) + tail).items[0], Parse(tail))
  {
    hide Parse, WellFramed, ParseHeader, Wire, Strays;
    ThreeStraysFramed(r);
    PacketParsed(Strays(3) + Wire(r), tail);
  }

  /** The decoder recovers from stray markers, except from three or more before one payload length. */
  lemma Resynchronises(n: nat, r: Request, tail: seq<u8>)
    requires Fits(r)
    ensures Recovers(n, r, tail) <==> !(n >= 3 && |r.payload| == UNLUCKY_PAYLOAD)
  {
    hide Parse, Wire, Strays, FrameOf;
    if n >= 3 && |r.payload| == UNLUCKY_PAYLOAD {
      var errors := StraysParsed(n, 3, r, tail);
      ThreeStraysParsed(r, tail);
      var all := Parse(Strays(n) + Wire(r) + tail).items;
      assert all[n - 3].Ok?;
      forall expected | |expected| == n && LengthErrors(expected)
        ensures Parse(Strays(n) + Wire(r) + tail) != After(expected + [Ok(FrameOf(r))], Parse(tail))
      {
        assert expected[n - 3] in expected;
        assert (expected + [Ok(FrameOf(r))] + Parse(tail).items)[n - 3] == expected[n - 3];
      }
    } else {
      var errors := StraysParsed(n, 0, r, tail);
      NoStrays(r, tail);
      WireParsed([], r, tail);
      assert errors + ([Ok(FrameOf(r))] + Parse(tail).items) == errors + [Ok(FrameOf(r))] + Parse(tail).items;
    }
  }

  lemma NoStrays(r: Request, tail: seq<u8>)
    requires Fits(r)
    ensures Strays(0) + Wire(r) + tail == [] + Wire(r) + tail
  {
  }
}

