/** What holds of the SDM decoder over whole streams, however they are cut into reads. */
module SdmStream {
  import opened Bytes
  import opened Sdm

  // -- Fragmentation --------------------------------------------------------------------------

  lemma ExamineMore(t: seq<u8>, more: seq<u8>)
    requires !Examine(t).Wait?
    ensures Examine(t + more) == Examine(t)
  {
    assert (t + more)[1..1 + HEADER_LEN] == t[1..1 + HEADER_LEN];
  }

  lemma ResyncSkips(s: seq<u8>)
    requires s != []
    ensures Resync(s) == if s[0] == START then s else Resync(s[1..])
  {
  }

  lemma {:induction false} ResyncMore(s: seq<u8>, more: seq<u8>)
    ensures Resync(s + more) == if Resync(s) == [] then Resync(more) else Resync(s) + more
    decreases |s|
  {
    if s == [] {
      assert s + more == more && Resync(s) == [];
    } else {
      hide Resync;
      assert (s + more)[0] == s[0] && (s + more)[1..] == s[1..] + more;
      ResyncSkips(s);
      ResyncSkips(s + more);
      if s[0] != START {
        ResyncMore(s[1..], more);
      }
    }
  }

  lemma ResyncAtStart(t: seq<u8>, more: seq<u8>)
    requires t != [] && t[0] == START
    ensures Resync(t) == t && Resync(t + more) == t + more
  {
  }

  /** Parsing `s` and then `more` on top of what it left is parsing both at once. */
  predicate Resumes(s: seq<u8>, more: seq<u8>) {
    Parse(s + more) == After(Parse(s).items, Parse(Parse(s).rest + more))
  }

  lemma ResumesAfterOne(t: seq<u8>, more: seq<u8>, item: Item, n: nat)
    requires n <= |t| && Resumes(t[n..], more)
    requires Parse(t) == Prepend(item, Parse(t[n..]))
    requires Parse(t + more) == Prepend(item, Parse((t + more)[n..]))
    ensures Resumes(t, more)
  {
    hide Parse;
    assert (t + more)[n..] == t[n..] + more;
  }

  lemma ResumesAtStart(t: seq<u8>, more: seq<u8>)
    requires t != [] && t[0] == START
    requires Examine(t).Refuse? ==> Resumes(t[1..], more)
    requires Examine(t).Accept? ==> Resumes(t[Examine(t).total..], more)
    ensures Resumes(t, more)
  {
    hide Examine, Parse, Resumes;
    ParseStep(t);
    ParseStep(t + more);
    match Examine(t)
    case Wait =>
      ResumesWaiting(t, more);
    case Refuse(e) =>
      ExamineMore(t, more);
      ResumesAfterOne(t, more, Err(e), 1);
    case Accept(h, total) =>
      ExamineMore(t, more);
      assert (t + more)[..total] == t[..total];
      ResumesAfterOne(t, more, Ok(Frame(h, t[..total])), total);
  }

  lemma ResumesWaiting(t: seq<u8>, more: seq<u8>)
    requires Parse(t) == Parsed([], t)
    ensures Resumes(t, more)
  {
    Started(t + more);
  }

  lemma ResumesResynced(s: seq<u8>, more: seq<u8>)
    requires Resumes(Resync(s), more)
    ensures Resumes(s, more)
  {
    hide Parse, Resync;
    ResyncMore(s, more);
    ParseResync(s);
    ParseResync(s + more);
    if Resync(s) == [] {
      ParseResync(more);
      assert [] + more == more;
    } else {
      ParseResync(Resync(s) + more);
      ResyncAtStart(Resync(s), more);
    }
  }

  /** The kept bytes are all that the past contributes to the future. */
  lemma {:induction false} ParseMore(s: seq<u8>, more: seq<u8>)
    ensures Resumes(s, more)
    decreases |s|
  {
    hide Examine, Resync, Resumes, Parse;
    var t := Resync(s);
    if t == [] {
      NothingParsed();
      ResumesWaiting([], more);
    } else {
      match Examine(t) {
        case Wait =>
        case Refuse(e) => ParseMore(t[1..], more);
        case Accept(h, total) => ParseMore(t[total..], more);
      }
      ResumesAtStart(t, more);
    }
    ResumesResynced(s, more);
  }

  lemma NothingParsed()
    ensures Parse([]) == Parsed([], [])
  {
  }

  /** Successive calls of `Decoder.Push`, starting from a given buffer. */
  function Feed(buffer: seq<u8>, chunks: seq<seq<u8>>): Parsed
    decreases |chunks|
  {
    if chunks == [] then Parsed([], buffer)
    else
      var p := Parse(buffer + chunks[0]);
      After(p.items, Feed(p.rest, chunks[1..]))
  }

  /** Any sequence of pushes gives what one parse of the whole stream gives. */
  lemma {:induction false} FeedIsParse(buffer: seq<u8>, chunks: seq<seq<u8>>)
    requires Parse(buffer) == Parsed([], buffer)
    ensures Feed(buffer, chunks) == Parse(buffer + Join(chunks))
    decreases |chunks|
  {
    hide Parse;
    if chunks == [] {
      assert buffer + [] == buffer;
    } else {
      var whole, later := buffer + chunks[0], Join(chunks[1..]);
      KeptIsStable(whole);
      FeedIsParse(Parse(whole).rest, chunks[1..]);
      ParseMore(whole, later);
      assert buffer + Join(chunks) == whole + later;
    }
  }

  /** Parsing the kept bytes again finds nothing new in them. */
  lemma {:induction false} KeptIsStable(s: seq<u8>)
    ensures Parse(Parse(s).rest) == Parsed([], Parse(s).rest)
    decreases |s|
  {
    hide Examine, Resync, Parse;
    var t := Resync(s);
    ParseResync(s);
    NothingParsed();
    if t != [] {
      ParseStep(t);
      match Examine(t)
      case Wait =>
      case Refuse(e) => KeptIsStable(t[1..]);
      case Accept(h, total) => KeptIsStable(t[total..]);
    }
  }

  /** Two ways of cutting the same stream into reads agree on every result and on the buffer. */
  lemma CutsAgree(a: seq<seq<u8>>, b: seq<seq<u8>>)
    requires Join(a) == Join(b)
    ensures Feed([], a) == Feed([], b) == Parse(Join(a))
  {
    hide Parse, Feed;
    NothingParsed();
    FeedIsParse([], a);
    FeedIsParse([], b);
    assert [] + Join(a) == Join(a);
  }

  // -- Conservation ---------------------------------------------------------------------------

  function Length1(t: seq<u8>): u16
    requires |t| >= 15
  {
    Le16(t[1], t[2])
  }

  function Length2(t: seq<u8>): u16
    requires |t| >= 15
  {
    Le16(t[4], t[5])
  }

  predicate LengthsAgree(t: seq<u8>)
    requires |t| >= 15
  {
    Length1(t) == if Length2(t) <= 0xfffc then Length2(t) + 3 else 0xffff
  }

  /** One whole packet and nothing else. */
  predicate WellFramed(p: seq<u8>) {
    && |p| >= 16 && p[0] == START && p[|p| - 1] == END
    && |p| == Length1(p) + 2 && LengthsAgree(p)
  }

  /** The bytes `t`, which open with a start marker, cannot open with a packet, for reason `e`. */
  predicate Rejects(t: seq<u8>, e: SdmError) {
    && |t| >= 15
    && match e
       case HeaderTooShort => false
       case InvalidLengthRelation(l1, l2) => !LengthsAgree(t) && l1 == Length1(t) && l2 == Length2(t)
       case PacketTooLarge(size) => LengthsAgree(t) && size == Length1(t) + 2 && size < 16
       case BadTerminator(value) =>
         LengthsAgree(t) && 16 <= Length1(t) + 2 <= |t| && t[Length1(t) + 1] == value && value != END
  }

  /** Nothing, too little for a header, or the beginning of a packet whose lengths agree. */
  predicate Held(t: seq<u8>) {
    t != [] ==> t[0] == START && (|t| < 15 || (LengthsAgree(t) && 16 <= Length1(t) + 2 && |t| < Length1(t) + 2))
  }

  datatype Segment = Garbage(run: seq<u8>) | Stray(error: SdmError) | Packet(packet: seq<u8>)

  function BytesOf(segment: Segment): seq<u8> {
    match segment
    case Garbage(run) => run
    case Stray(_) => [START]
    case Packet(p) => p
  }

  function ItemsOf(segment: Segment): seq<Item> {
    match segment
    case Garbage(_) => []
    case Stray(e) => [Err(e)]
    case Packet(p) =>
      match ParseHeader(if |p| > 0 then p[1..] else [])
      case Ok(h) => [Ok(Frame(h, p))]
      case Err(e) => [Err(e)]
  }

  function AllItems(segments: seq<Segment>): seq<Item> {
    if segments == [] then [] else ItemsOf(segments[0]) + AllItems(segments[1..])
  }

  function AllBytes(segments: seq<Segment>): seq<u8> {
    if segments == [] then [] else BytesOf(segments[0]) + AllBytes(segments[1..])
  }

  /** `segments` is an account of every byte of the stream up to the kept bytes `rest`. */
  predicate Explains(segments: seq<Segment>, rest: seq<u8>) {
    if segments == [] then Held(rest)
    else
      var later := AllBytes(segments[1..]) + rest;
      && Explains(segments[1..], rest)
      && match segments[0]
         case Garbage(run) => run != [] && START !in run && (later != [] ==> later[0] == START)
         case Stray(e) => Rejects([START] + later, e)
         case Packet(p) => WellFramed(p)
  }

  lemma ExamineMeans(t: seq<u8>)
    requires t != [] && t[0] == START
    ensures Examine(t).Wait? <==> Held(t)
    ensures Examine(t).Refuse? ==> Rejects(t, Examine(t).error)
    ensures Examine(t).Accept? ==> WellFramed(t[..Examine(t).total])
    ensures Examine(t).Accept? ==> ParseHeader(t[1..Examine(t).total]) == Ok(Examine(t).header)
  {
  }

  lemma RejectedIsRefused(t: seq<u8>, e: SdmError)
    requires t != [] && t[0] == START && Rejects(t, e)
    ensures Examine(t) == Refuse(e)
  {
  }

  lemma FramedIsAccepted(p: seq<u8>, later: seq<u8>)
    requires WellFramed(p)
    ensures Examine(p + later).Accept? && Examine(p + later).total == |p|
    ensures ParseHeader(p[1..]) == Ok(Examine(p + later).header)
  {
    var t := p + later;
    assert t[..|p|] == p;
    assert forall k | 0 <= k < |p| :: t[k] == p[k];
  }

  lemma GarbageSkipped(run: seq<u8>, later: seq<u8>)
    requires START !in run && (later != [] ==> later[0] == START)
    ensures Parse(run + later) == Parse(later)
  {
    hide Parse;
    ResyncMore(run, later);
    ParseResync(run + later);
    ResyncGarbage(run);
  }

  lemma {:induction false} ResyncGarbage(run: seq<u8>)
    requires START !in run
    ensures Resync(run) == []
    decreases |run|
  {
    if run != [] {
      ResyncGarbage(run[1..]);
    }
  }

  lemma HeldIsKept(rest: seq<u8>)
    requires Held(rest)
    ensures Parse(rest) == Parsed([], rest)
  {
    if rest != [] {
      ExamineMeans(rest);
      ParseStep(rest);
    }
  }

  lemma StrayParsed(later: seq<u8>, e: SdmError)
    requires Rejects([START] + later, e)
    ensures Parse([START] + later) == Prepend(Err(e), Parse(later))
  {
    hide Examine, Parse;
    var t := [START] + later;
    RejectedIsRefused(t, e);
    ParseStep(t);
    assert t[1..] == later;
  }

  lemma PacketParsed(p: seq<u8>, later: seq<u8>)
    requires WellFramed(p)
    ensures ParseHeader(p[1..]).Ok?
    ensures Parse(p + later) == Prepend(Ok(Frame(ParseHeader(p[1..]).value, p)), Parse(later))
  {
    hide Examine, Parse, ParseHeader;
    var t := p + later;
    FramedIsAccepted(p, later);
    ParseStep(t);
    assert t[..|p|] == p && t[|p|..] == later;
  }

  /** At most one account of a stream exists, and it is the one the decoder reports. */
  lemma {:induction false} ExplainedIsParsed(segments: seq<Segment>, rest: seq<u8>)
    requires Explains(segments, rest)
    ensures Parse(AllBytes(segments) + rest) == Parsed(AllItems(segments), rest)
    decreases |segments|
  {
    hide Parse, Rejects, WellFramed, ParseHeader, Held;
    if segments == [] {
      HeldIsKept(rest);
      assert [] + rest == rest;
    } else {
      var later := AllBytes(segments[1..]) + rest;
      ExplainedIsParsed(segments[1..], rest);
      assert AllBytes(segments) + rest == BytesOf(segments[0]) + later;
      match segments[0]
      case Garbage(run) => GarbageSkipped(run, later);
      case Stray(e) => StrayParsed(later, e);
      case Packet(p) => PacketParsed(p, later); FramedNonempty(p);
    }
  }

  lemma FramedNonempty(p: seq<u8>)
    requires WellFramed(p)
    ensures |p| >= 16
  {
  }

  lemma ParsedOneMore(t: seq<u8>) returns (segment: Segment, n: nat)
    requires t != [] && t[0] == START && !Examine(t).Wait?
    ensures 0 < n <= |t| && BytesOf(segment) == t[..n] && |ItemsOf(segment)| == 1
    ensures Parse(t) == Prepend(ItemsOf(segment)[0], Parse(t[n..]))
    ensures segment.Stray? ==> n == 1 && Rejects(t, segment.error)
    ensures segment.Packet? ==> WellFramed(segment.packet)
    ensures !segment.Garbage?
  {
    hide Parse, ParseHeader, Rejects, WellFramed;
    ExamineMeans(t);
    ParseStep(t);
    match Examine(t)
    case Refuse(e) =>
      segment, n := Stray(e), 1;
    case Accept(h, total) =>
      segment, n := Packet(t[..total]), total;
      assert t[..total][1..] == t[1..total];
  }

  lemma ExplainsMore(segment: Segment, segments: seq<Segment>, rest: seq<u8>, later: seq<u8>)
    requires Explains(segments, rest) && later == AllBytes(segments) + rest
    requires match segment
             case Garbage(run) => run != [] && START !in run && (later != [] ==> later[0] == START)
             case Stray(e) => Rejects([START] + later, e)
             case Packet(p) => WellFramed(p)
    ensures Explains([segment] + segments, rest)
    ensures AllBytes([segment] + segments) + rest == BytesOf(segment) + later
    ensures AllItems([segment] + segments) == ItemsOf(segment) + AllItems(segments)
  {
    hide Rejects, WellFramed, ItemsOf;
    assert ([segment] + segments)[1..] == segments;
  }

  lemma NothingExplained(rest: seq<u8>)
    requires Held(rest)
    ensures Explains([], rest) && AllBytes([]) + rest == rest && AllItems([]) == []
  {
  }

  lemma {:induction false} ExplainedAtStart(t: seq<u8>) returns (segments: seq<Segment>)
    requires t != [] ==> t[0] == START
    ensures Explains(segments, Parse(t).rest)
    ensures AllBytes(segments) + Parse(t).rest == t && AllItems(segments) == Parse(t).items
    decreases |t|, 0
  {
    hide Parse, Examine, Rejects, WellFramed, ItemsOf, ParseHeader, Explains, AllBytes, AllItems;
    if t == [] {
      NothingParsed();
      NothingExplained([]);
      segments := [];
    } else if Examine(t).Wait? {
      ExamineMeans(t);
      ParseStep(t);
      NothingExplained(t);
      segments := [];
    } else {
      var segment, n := ParsedOneMore(t);
      segments := ParsedIsExplained(t[n..]);
      assert [START] + t[1..] == t && t[..n] + t[n..] == t;
      ExplainsMore(segment, segments, Parse(t).rest, t[n..]);
      segments := [segment] + segments;
    }
  }

  /** Every byte received is garbage, a stray marker, part of a packet or still held. */
  lemma {:induction false} ParsedIsExplained(s: seq<u8>) returns (segments: seq<Segment>)
    ensures Explains(segments, Parse(s).rest)
    ensures AllBytes(segments) + Parse(s).rest == s && AllItems(segments) == Parse(s).items
    decreases |s|, 1
  {
    hide Parse, ItemsOf, Explains, AllBytes, AllItems, Resync;
    var t := Resync(s);
    ParseResync(s);
    segments := ExplainedAtStart(t);
    var n := |s| - |t|;
    if n > 0 {
      ExplainsMore(Garbage(s[..n]), segments, Parse(s).rest, t);
      GarbageItems(s[..n]);
      segments := [Garbage(s[..n])] + segments;
      assert s == s[..n] + t;
    }
  }

  lemma GarbageItems(run: seq<u8>)
    ensures ItemsOf(Garbage(run)) == []
  {
  }

  /** The decoder's results and buffer are exactly those some account of the stream gives. */
  lemma Conservation(s: seq<u8>, items: seq<Item>, rest: seq<u8>)
    ensures Parse(s) == Parsed(items, rest) <==>
            exists segments :: Explains(segments, rest) && AllBytes(segments) + rest == s && AllItems(segments) == items
  {
    hide Parse, Explains, AllBytes, AllItems;
    if Parse(s) == Parsed(items, rest) {
      var segments := ParsedIsExplained(s);
    }
    forall segments | Explains(segments, rest) && AllBytes(segments) + rest == s && AllItems(segments) == items
      ensures Parse(s) == Parsed(items, rest)
    {
      ExplainedIsParsed(segments, rest);
    }
  }

  /** What is held between pushes is short: at most 65536 bytes, and always the start of a packet. */
  lemma BoundedMemory(buffer: seq<u8>, data: seq<u8>)
    ensures Held(Parse(buffer + data).rest) && |Parse(buffer + data).rest| <= 0x1_0000
  {
    var segments := ParsedIsExplained(buffer + data);
    hide Parse;
    ExplainedHolds(segments, Parse(buffer + data).rest);
  }

  lemma {:induction false} ExplainedHolds(segments: seq<Segment>, rest: seq<u8>)
    requires Explains(segments, rest)
    ensures Held(rest)
    decreases |segments|
  {
    if segments != [] {
      ExplainedHolds(segments[1..], rest);
    }
  }

  predicate PossibleItem(item: Item) {
    match item
    case Ok(f) => WellFramed(f.packet) && ParseHeader(f.packet[1..]) == Ok(f.header)
    case Err(HeaderTooShort) => false
    case Err(InvalidLengthRelation(l1, l2)) => l1 != SaturatingAdd3(l2)
    case Err(PacketTooLarge(size)) => 2 <= size < 16
    case Err(BadTerminator(value)) => value != END
  }

  /** The upper size limit and the short-header error never fire; every packet is well framed. */
  lemma {:induction false} ItemsPossible(s: seq<u8>)
    ensures forall item | item in Parse(s).items :: PossibleItem(item)
    decreases |s|
  {
    hide Parse, PossibleItem, Resync, Examine;
    var t := Resync(s);
    ParseResync(s);
    if t == [] {
      NothingParsed();
    } else {
      ParseStep(t);
      FirstItemPossible(t);
      match Examine(t)
      case Wait =>
      case Refuse(e) => ItemsPossible(t[1..]);
      case Accept(h, total) => ItemsPossible(t[total..]);
    }
  }

  lemma FirstItemPossible(t: seq<u8>)
    requires t != [] && t[0] == START
    ensures Examine(t).Refuse? ==> PossibleItem(Err(Examine(t).error))
    ensures Examine(t).Accept? ==> PossibleItem(Ok(Frame(Examine(t).header, t[..Examine(t).total])))
  {
    if Examine(t).Accept? {
      ExamineMeans(t);
      assert t[..Examine(t).total][1..] == t[1..Examine(t).total];
    }
  }

  // -- The documented relation ------------------------------------------------------------------

  lemma HeaderLengths(p: seq<u8>, h: Header)
    requires WellFramed(p) && ParseHeader(p[1..]) == Ok(h)
    ensures h.length1 == Length1(p) && h.length2 == Length2(p)
  {
  }

  /**
   The relation the decoder checks saturates. The documented `length1 == length2 + 3` therefore
   holds of a packet it delivers exactly when length2 leaves room for the sum.
   */
  lemma DocumentedRelation(s: seq<u8>, item: Item)
    requires item in Parse(s).items && item.Ok?
    ensures item.value.header.length1 == item.value.header.length2 + 3 <==> item.value.header.length2 <= 0xfffc
  {
    hide Parse, ParseHeader;
    ItemsPossible(s);
    assert PossibleItem(item);
    HeaderLengths(item.value.packet, item.value.header);
  }

  /** A packet the decoder delivers although its lengths do not differ by three. */
  lemma SaturatedPacket() returns (p: seq<u8>, h: Header)
    ensures Parse(p) == Parsed([Ok(Frame(h, p))], [])
    ensures h.length1 == h.length2 == 0xffff
  {
    hide Parse, ParseHeader;
    p := [START, 0xff, 0xff, 0, 0xff, 0xff] + seq(65530, _ => 0) + [END];
    assert Length1(p) == Length2(p) == 0xffff;
    PacketParsed(p, []);
    NothingParsed();
    assert p + [] == p;
    h := ParseHeader(p[1..]).value;
    HeaderLengths(p, h);
  }

  // -- Packets in bytes -------------------------------------------------------------------------

  /** Radio and group share a byte, the radio in its top three bits. */
  predicate FieldsFit(h: Header) {
    h.radioId < 8 && h.group < 0x20
  }

  function HeaderBytes(h: Header): seq<u8>
    requires FieldsFit(h)
  {
    Le16Bytes(h.length1) + [h.zero] + Le16Bytes(h.length2) + Le16Bytes(h.stamp)
    + [h.direction, h.radioId * 0x20 + h.group, h.command] + Le32Bytes(h.timestamp)
  }

  /** All nine fields of a header are read back, whatever follows. */
  lemma HeaderRead(h: Header, later: seq<u8>)
    requires FieldsFit(h)
    ensures |HeaderBytes(h)| == 14 && ParseHeader(HeaderBytes(h) + later) == Ok(h)
  {
    var a, b, c, t := Le16Bytes(h.length1), Le16Bytes(h.length2), Le16Bytes(h.stamp), Le32Bytes(h.timestamp);
    hide Le16Bytes, Le32Bytes;
    var s := HeaderBytes(h) + later;
    assert s[0] == a[0] && s[1] == a[1] && s[2] == h.zero && s[3] == b[0] && s[4] == b[1];
    assert s[5] == c[0] && s[6] == c[1] && s[7] == h.direction && s[9] == h.command;
    assert s[8] == h.radioId * 0x20 + h.group;
    assert s[10] == t[0] && s[11] == t[1] && s[12] == t[2] && s[13] == t[3];
  }

  function PacketBytes(h: Header, payload: seq<u8>): seq<u8>
    requires FieldsFit(h)
  {
    [0x7f] + HeaderBytes(h) + payload + [0x7e]
  }

  lemma PacketFramed(h: Header, payload: seq<u8>)
    requires FieldsFit(h) && |payload| <= 65521
    requires h.length1 == |payload| + 14 && h.length2 == |payload| + 11
    ensures var p := PacketBytes(h, payload); WellFramed(p) && ParseHeader(p[1..]) == Ok(h)
  {
    hide HeaderBytes;
    HeaderRead(h, payload + [0x7e]);
    var p := PacketBytes(h, payload);
    assert p[1..] == HeaderBytes(h) + (payload + [0x7e]);
    assert forall k | 0 <= k < |p| - 1 :: p[1..][k] == p[k + 1];
  }

  /** A packet of any fields whose lengths fit its payload is delivered whole with just these fields. */
  lemma FieldsDelivered(h: Header, payload: seq<u8>, later: seq<u8>)
    requires FieldsFit(h) && |payload| <= 65521
    requires h.length1 == |payload| + 14 && h.length2 == |payload| + 11
    ensures var p := PacketBytes(h, payload); Parse(p + later) == Prepend(Ok(Frame(h, p)), Parse(later))
  {
    hide Parse, ParseHeader, PacketBytes, WellFramed;
    PacketFramed(h, payload);
    PacketParsed(PacketBytes(h, payload), later);
  }

  lemma SmallestFramed(p: seq<u8>)
    requires |p| == 16 && p[0] == 0x7f && p[1] == 14 && p[2] == 0 && p[4] == 11 && p[5] == 0 && p[15] == 0x7e
    ensures WellFramed(p)
    ensures ParseHeader(p[1..]) ==
            Ok(Header(14, p[3], 11, Le16(p[6], p[7]), p[8], p[9] / 0x20, p[9] % 0x20, p[10],
                      Le32(p[11], p[12], p[13], p[14])))
  {
    assert forall k | 0 <= k < 15 :: p[1..][k] == p[k + 1];
  }

  lemma ZeroWords()
    ensures Le16(0, 0) == 0 && Le32(0, 0, 0, 0) == 0
  {
  }

  /** One packet in bytes, the one that stops the modem's output. */
  lemma StopDelivered(p: seq<u8>, later: seq<u8>)
    requires p == [0x7f, 0x0e, 0, 0, 0x0b, 0, 0, 0, 0xa0, 0, 2, 0, 0, 0, 0, 0x7e]
    ensures Parse(p + later) == Prepend(Ok(Frame(Header(14, 0, 11, 0, 0xa0, 0, 0, 2, 0), p)), Parse(later))
  {
    hide Parse, ParseHeader, WellFramed, Le16, Le32;
    ZeroWords();
    SmallestFramed(p);
    PacketParsed(p, later);
  }
}
