/** The two capture loops: raw tee, framing, numbering and normalisation. */
module Capture {
  import opened Bytes
  import opened Frames
  import opened Reading
  import Hdlc
  import Sdm
  import SdmStream
  import SdmPackets

  datatype Ending = Finished | ReadFailed | StillOpen

  // -- Qualcomm -------------------------------------------------------------------------------

  function LogRecord(item: Hdlc.Frame): seq<Record> {
    if item.Ok? && QualcommLogCode(item.value).Some?
    then [Record(Qualcomm, QualcommLogCode(item.value).value, item.value)] else []
  }

  function LogRecords(items: seq<Hdlc.Frame>): seq<Record>
    decreases |items|
  {
    if items == [] then [] else LogRecords(items[..|items| - 1]) + LogRecord(items[|items| - 1])
  }

  /** The frames a received byte stream stands for. */
  function QualcommFrames(stream: seq<u8>): seq<CaptureFrame> {
    Numbered(LogRecords(Hdlc.Decode(stream)))
  }

  lemma LogRecordsOne(items: seq<Hdlc.Frame>, item: Hdlc.Frame)
    ensures LogRecords(items + [item]) == LogRecords(items) + LogRecord(item)
  {
    assert (items + [item])[..|items|] == items;
  }

  /** What one decoder result adds after `n` frames. */
  function Emitted(item: Hdlc.Frame, n: nat): seq<CaptureFrame> {
    if item.Err? then []
    else match QualcommLogCode(item.value)
      case None => []
      case Some(code) => [CaptureFrame(n + 1, Qualcomm, code, ParserPayload(code, item.value))]
  }

  lemma OneMoreResult(seen: seq<u8>, byte: u8, item: Hdlc.Frame)
    requires Hdlc.Decode(seen + [byte]) == Hdlc.Decode(seen) + [item]
    ensures QualcommFrames(seen + [byte]) == QualcommFrames(seen) + Emitted(item, |QualcommFrames(seen)|)
  {
    hide Hdlc.Decode, Numbered, LogRecords;
    var records := LogRecords(Hdlc.Decode(seen));
    LogRecordsOne(Hdlc.Decode(seen), item);
    if LogRecord(item) == [] {
      assert records + [] == records;
    } else {
      NumberedOne(records, LogRecord(item)[0]);
      assert LogRecord(item) == [LogRecord(item)[0]];
    }
  }

  lemma NoResult(seen: seq<u8>, byte: u8)
    requires Hdlc.Decode(seen + [byte]) == Hdlc.Decode(seen) + []
    ensures QualcommFrames(seen + [byte]) == QualcommFrames(seen)
  {
    hide Hdlc.Decode;
    assert Hdlc.Decode(seen) + [] == Hdlc.Decode(seen);
  }

  lemma NothingCaptured()
    ensures QualcommFrames([]) == []
  {
  }

  /** The bytes of one read, pushed one by one; `emitted` are the frames they complete. */
  method PushChunk(hdlc: Hdlc.Decoder, chunk: seq<u8>, sequence: nat) returns (emitted: seq<CaptureFrame>)
    requires hdlc.Valid() && sequence == |QualcommFrames(hdlc.seen)|
    modifies hdlc
    ensures hdlc.Valid() && hdlc.seen == old(hdlc.seen) + chunk
    ensures QualcommFrames(hdlc.seen) == QualcommFrames(old(hdlc.seen)) + emitted
  {
    hide QualcommFrames, Hdlc.Decode, ParserPayload;
    emitted := [];
    ghost var before := hdlc.seen;
    for i := 0 to |chunk|
      invariant hdlc.Valid() && hdlc.seen == before + chunk[..i]
      invariant QualcommFrames(hdlc.seen) == QualcommFrames(before) + emitted
    {
      ghost var seen := hdlc.seen;
      assert before + chunk[..i + 1] == seen + [chunk[i]];
      var result := hdlc.Push(chunk[i]);
      if result.None? {
        NoResult(seen, chunk[i]);
        continue;
      }
      OneMoreResult(seen, chunk[i], result.value);
      if result.value.Err? {
        continue;
      }
      var packet := result.value.value;
      var logCode := QualcommLogCode(packet);
      if logCode.None? {
        continue;
      }
      emitted := emitted +
        [CaptureFrame(sequence + |emitted| + 1, Qualcomm, logCode.value, ParserPayload(logCode.value, packet))];
    }
    assert chunk[..|chunk|] == chunk;
  }

  method RunQualcommStream(reader: Reader, live: bool)
    returns (raw: seq<u8>, frames: seq<CaptureFrame>, ending: Ending)
    modifies reader
    ensures raw + reader.remaining == old(reader.remaining)
    ensures frames == QualcommFrames(raw)
    ensures live && ending != ReadFailed ==> ending == StillOpen && raw == old(reader.remaining)
    ensures !live && ending != ReadFailed ==>
              ending == Finished && (Timeouts(old(reader.schedule)) == 0 ==> raw == old(reader.remaining))
    ensures Failures(reader.schedule) + (if ending.ReadFailed? then 1 else 0) == Failures(old(reader.schedule))
  {
    hide QualcommFrames, Hdlc.Decode, Failures, Timeouts;
    raw, frames, ending := [], [], StillOpen;
    NothingCaptured();
    var hdlc := new Hdlc.Decoder();
    // Once nothing can arrive any more, a live capture polls for ever: the run is looked at here.
    while !(live && reader.Exhausted())
      invariant hdlc.Valid() && fresh(hdlc) && hdlc.seen == raw
      invariant raw + reader.remaining == old(reader.remaining)
      invariant frames == QualcommFrames(raw)
      invariant ending.StillOpen?
      invariant Failures(reader.schedule) == Failures(old(reader.schedule))
      invariant Timeouts(reader.schedule) <= Timeouts(old(reader.schedule))
      decreases reader.Fuel()
    {
      var r := reader.Read(8192);
      if r.Empty? {
        if live {
          continue;
        }
        ending := Finished;
        break;
      } else if r.Interrupted? {
        continue;
      } else if r.Failed? {
        ending := ReadFailed;
        break;
      }
      raw := raw + r.bytes;
      var emitted := PushChunk(hdlc, r.bytes, |frames|);
      frames := frames + emitted;
    }
  }

  // -- Samsung --------------------------------------------------------------------------------

  function SdmRecord(item: Sdm.Item): seq<Record> {
    if item.Ok? then [Record(Samsung, Sdm.SyntheticLogCode(item.value.header), item.value.packet)] else []
  }

  function SdmRecords(items: seq<Sdm.Item>): seq<Record>
    decreases |items|
  {
    if items == [] then [] else SdmRecords(items[..|items| - 1]) + SdmRecord(items[|items| - 1])
  }

  function SdmFrames(stream: seq<u8>): seq<CaptureFrame> {
    FramesFor(Sdm.Parse(stream).items)
  }

  lemma SdmRecordsOne(items: seq<Sdm.Item>, item: Sdm.Item)
    ensures SdmRecords(items + [item]) == SdmRecords(items) + SdmRecord(item)
  {
    assert (items + [item])[..|items|] == items;
  }

  /** The frames made of decoder results. */
  function FramesFor(items: seq<Sdm.Item>): seq<CaptureFrame> {
    Numbered(SdmRecords(items))
  }

  /** What one decoder result adds after `n` frames. */
  function SdmEmitted(item: Sdm.Item, n: nat): seq<CaptureFrame> {
    if item.Err? then []
    else
      var code := Sdm.SyntheticLogCode(item.value.header);
      [CaptureFrame(n + 1, Samsung, code, ParserPayload(code, item.value.packet))]
  }

  lemma OneMoreItem(seen: seq<Sdm.Item>, item: Sdm.Item)
    ensures FramesFor(seen + [item]) == FramesFor(seen) + SdmEmitted(item, |FramesFor(seen)|)
  {
    var records := SdmRecords(seen);
    SdmRecordsOne(seen, item);
    if item.Err? {
      assert records + [] == records;
    } else {
      NumberedOne(records, SdmRecord(item)[0]);
    }
  }

  /** Turn the results of one push into numbered frames. */
  method EmitResults(ghost before: seq<Sdm.Item>, results: seq<Sdm.Item>, sequence: nat)
    returns (emitted: seq<CaptureFrame>)
    requires sequence == |FramesFor(before)|
    ensures FramesFor(before + results) == FramesFor(before) + emitted
  {
    hide ParserPayload, Sdm.SyntheticLogCode, FramesFor;
    emitted := [];
    assert before + results[..0] == before;
    for i := 0 to |results|
      invariant FramesFor(before + results[..i]) == FramesFor(before) + emitted
    {
      OneMoreItem(before + results[..i], results[i]);
      assert before + results[..i + 1] == before + results[..i] + [results[i]];
      if results[i].Err? {
        continue;
      }
      var sdm := results[i].value;
      var logCode := Sdm.SyntheticLogCode(sdm.header);
      emitted := emitted +
        [CaptureFrame(sequence + |emitted| + 1, Samsung, logCode, ParserPayload(logCode, sdm.packet))];
    }
    assert results[..|results|] == results;
  }

  method RunSdmStream(reader: Reader, live: bool)
    returns (raw: seq<u8>, frames: seq<CaptureFrame>, ending: Ending)
    modifies reader
    ensures raw + reader.remaining == old(reader.remaining)
    ensures frames == SdmFrames(raw)
    ensures live && ending != ReadFailed ==> ending == StillOpen && raw == old(reader.remaining)
    ensures !live && ending != ReadFailed ==>
              ending == Finished && (Timeouts(old(reader.schedule)) == 0 ==> raw == old(reader.remaining))
    ensures Failures(reader.schedule) + (if ending.ReadFailed? then 1 else 0) == Failures(old(reader.schedule))
  {
    hide FramesFor, Sdm.Parse, Failures, Timeouts;
    raw, frames, ending := [], [], StillOpen;
    NothingFromSdm();
    var decoder := new Sdm.Decoder();
    while !(live && reader.Exhausted())
      invariant fresh(decoder) && decoder.buffer == Sdm.Parse(raw).rest
      invariant raw + reader.remaining == old(reader.remaining)
      invariant frames == SdmFrames(raw)
      invariant ending.StillOpen?
      invariant Failures(reader.schedule) == Failures(old(reader.schedule))
      invariant Timeouts(reader.schedule) <= Timeouts(old(reader.schedule))
      decreases reader.Fuel()
    {
      var r := reader.Read(64 * 1024);
      if r.Empty? {
        if live {
          continue;
        }
        ending := Finished;
        break;
      } else if r.Interrupted? {
        continue;
      } else if r.Failed? {
        ending := ReadFailed;
        break;
      }
      PushContinues(raw, r.bytes);
      ghost var before := Sdm.Parse(raw).items;
      raw := raw + r.bytes;
      var results := decoder.Push(r.bytes);
      var emitted := EmitResults(before, results, |frames|);
      frames := frames + emitted;
    }
  }

  lemma NothingFromSdm()
    ensures SdmFrames([]) == [] && Sdm.Parse([]).rest == []
  {
  }

  lemma PushContinues(raw: seq<u8>, chunk: seq<u8>)
    ensures var p := Sdm.Parse(Sdm.Parse(raw).rest + chunk);
            Sdm.Parse(raw + chunk) == Sdm.Parsed(Sdm.Parse(raw).items + p.items, p.rest)
  {
    hide Sdm.Parse;
    SdmStream.ParseMore(raw, chunk);
  }

  // -- Replay ---------------------------------------------------------------------------------

  /**
   A live run, complete or cut short by a failure, and the replay of its raw capture, read in any
   pieces: both give the frames of the bytes consumed, which are all of them unless a read fails.
   */
  method CaptureAndReplayQualcomm(live: Reader, schedule: seq<Hint>)
    returns (raw: seq<u8>, captured: seq<CaptureFrame>, replayed: seq<CaptureFrame>)
    requires Steady(schedule)
    modifies live
    ensures raw + live.remaining == old(live.remaining)
    ensures NeverFails(old(live.schedule)) ==> raw == old(live.remaining)
    ensures captured == QualcommFrames(raw) && replayed == captured
  {
    hide QualcommFrames;
    var ending, replay;
    raw, captured, ending := RunQualcommStream(live, true);
    var file := new Reader(raw, schedule);
    replay, replayed, ending := RunQualcommStream(file, false);
  }

  method CaptureAndReplaySdm(live: Reader, schedule: seq<Hint>)
    returns (raw: seq<u8>, captured: seq<CaptureFrame>, replayed: seq<CaptureFrame>)
    requires Steady(schedule)
    modifies live
    ensures raw + live.remaining == old(live.remaining)
    ensures NeverFails(old(live.schedule)) ==> raw == old(live.remaining)
    ensures captured == SdmFrames(raw) && replayed == captured
  {
    hide SdmFrames;
    var ending, replay;
    raw, captured, ending := RunSdmStream(live, true);
    var file := new Reader(raw, schedule);
    replay, replayed, ending := RunSdmStream(file, false);
  }

  // -- End to end -----------------------------------------------------------------------------

  predicate IsLog(packet: seq<u8>) {
    |packet| >= 8 && packet[0] == 0x10
  }

  function LogPackets(packets: seq<seq<u8>>): seq<seq<u8>> {
    if packets == [] then []
    else (if IsLog(packets[0]) then [packets[0]] else []) + LogPackets(packets[1..])
  }

  lemma {:induction false} LogRecordsAppend(a: seq<Hdlc.Frame>, b: seq<Hdlc.Frame>)
    ensures LogRecords(a + b) == LogRecords(a) + LogRecords(b)
    decreases |b|
  {
    hide LogRecord;
    if b == [] {
      assert a + b == a;
    } else {
      var n := |b| - 1;
      LogRecordsAppend(a, b[..n]);
      assert a + b == a + b[..n] + [b[n]] && b == b[..n] + [b[n]];
      LogRecordsOne(a + b[..n], b[n]);
      LogRecordsOne(b[..n], b[n]);
      hide LogRecords;
    }
  }

  lemma LogRecordsFirst(item: Hdlc.Frame, rest: seq<Hdlc.Frame>)
    ensures LogRecords([item] + rest) == LogRecord(item) + LogRecords(rest)
  {
    hide LogRecord;
    LogRecordsAppend([item], rest);
    assert [item][..0] == [];
    assert LogRecords([item]) == [] + LogRecord(item);
  }

  lemma ReceivedRecord(packet: seq<u8>)
    ensures var r := LogRecord(Hdlc.Received(packet));
            if IsLog(packet) then |r| == 1 && IsRecordOf(r[0], packet) else r == []
  {
  }

  /** A packet's record: the packet itself, under the log code in its bytes 6 and 7. */
  predicate IsRecordOf(r: Record, packet: seq<u8>) {
    r.vendor == Qualcomm && r.packet == packet && |packet| >= 8 && r.logCode == Le16(packet[6], packet[7])
  }

  predicate Matching(records: seq<Record>, packets: seq<seq<u8>>) {
    && |records| == |packets|
    && forall k | 0 <= k < |records| :: IsRecordOf(records[k], packets[k])
  }

  /** The records of received packets are those packets that are logs, in order. */
  lemma {:induction false} ReceivedRecords(packets: seq<seq<u8>>)
    ensures Matching(LogRecords(Hdlc.ReceivedAll(packets)), LogPackets(packets))
  {
    hide LogRecord, IsLog, Hdlc.Received;
    if packets != [] {
      ReceivedRecords(packets[1..]);
      LogRecordsFirst(Hdlc.Received(packets[0]), Hdlc.ReceivedAll(packets[1..]));
      ReceivedRecord(packets[0]);
      hide LogRecords;
    }
  }

  /** Frame number `k + 1` for a log packet: the packet behind a copy of its bytes 6 and 7. */
  predicate LogFrame(f: CaptureFrame, k: nat, p: seq<u8>) {
    && f.sequence == k + 1 && f.vendor == Qualcomm && |p| >= 8
    && f.logCode == Le16(p[6], p[7]) && f.payload == [p[6], p[7]] + p
  }

  lemma SameWord(a: u8, b: u8, c: u8, d: u8)
    requires Le16(a, b) == Le16(c, d)
    ensures a == c && b == d
  {
  }

  lemma LogFrameAt(records: seq<Record>, k: nat, p: seq<u8>)
    requires k < |records| && IsRecordOf(records[k], p)
    ensures LogFrame(Numbered(records)[k], k, p)
  {
    hide Numbered, Le16;
    NumberedAt(records, k);
    var f := Numbered(records)[k];
    SameWord(f.payload[0], f.payload[1], p[6], p[7]);
    assert f.payload == f.payload[..2] + f.payload[2..];
  }

  /** Encoded packets arrive as frames 1, 2, ... for exactly the log packets, each recoverable. */
  lemma EndToEnd(packets: seq<seq<u8>>)
    ensures var frames := QualcommFrames(Hdlc.EncodeAll(packets));
            && |frames| == |LogPackets(packets)|
            && forall k | 0 <= k < |frames| :: LogFrame(frames[k], k, LogPackets(packets)[k])
  {
    hide Hdlc.EncodeAll, Hdlc.Decode, Numbered, LogFrame, IsRecordOf;
    Hdlc.RoundTrip(packets);
    ReceivedRecords(packets);
    var records := LogRecords(Hdlc.ReceivedAll(packets));
    forall k | 0 <= k < |records| ensures LogFrame(Numbered(records)[k], k, LogPackets(packets)[k]) {
      LogFrameAt(records, k, LogPackets(packets)[k]);
    }
  }

  lemma {:induction false} SdmRecordsAppend(a: seq<Sdm.Item>, b: seq<Sdm.Item>)
    ensures SdmRecords(a + b) == SdmRecords(a) + SdmRecords(b)
    decreases |b|
  {
    hide SdmRecord;
    if b == [] {
      assert a + b == a;
    } else {
      var n := |b| - 1;
      SdmRecordsAppend(a, b[..n]);
      assert a + b == a + b[..n] + [b[n]] && b == b[..n] + [b[n]];
      SdmRecordsOne(a + b[..n], b[n]);
      SdmRecordsOne(b[..n], b[n]);
      hide SdmRecords;
    }
  }

  lemma SdmRecordsFirst(item: Sdm.Item, rest: seq<Sdm.Item>)
    ensures SdmRecords([item] + rest) == SdmRecord(item) + SdmRecords(rest)
  {
    hide SdmRecord;
    SdmRecordsAppend([item], rest);
    assert [item][..0] == [];
    assert SdmRecords([item]) == [] + SdmRecord(item);
  }

  predicate Preserves(r: Record, request: SdmPackets.Request)
    requires SdmPackets.Fits(request)
  {
    r.vendor == Samsung && r.packet == SdmPackets.Wire(request) && r.logCode == 0x2400 + request.group % 0x20
  }

  lemma PieceRecord(request: SdmPackets.Request)
    requires SdmPackets.Fits(request)
    ensures var r := SdmRecord(Ok(SdmPackets.FrameOf(request))); |r| == 1 && Preserves(r[0], request)
  {
    hide SdmPackets.Wire;
  }

  lemma {:induction false} PieceRecords(pieces: seq<SdmPackets.Piece>)
    requires forall i | 0 <= i < |pieces| :: SdmPackets.ValidPiece(pieces[i])
    ensures var records := SdmRecords(SdmPackets.FramesOf(pieces));
            && |records| == |pieces|
            && forall k | 0 <= k < |records| ::
                 SdmPackets.ValidPiece(pieces[k]) && Preserves(records[k], pieces[k].request)
  {
    hide Preserves, SdmRecord, SdmPackets.FrameOf;
    if pieces != [] {
      assert SdmPackets.ValidPiece(pieces[0]);
      PieceRecords(pieces[1..]);
      SdmRecordsFirst(Ok(SdmPackets.FrameOf(pieces[0].request)), SdmPackets.FramesOf(pieces[1..]));
      PieceRecord(pieces[0].request);
      hide SdmRecords;
    }
  }

  /** Generated packets in any garbage become frames 1, 2, ... that preserve them whole. */
  lemma SdmEndToEnd(pieces: seq<SdmPackets.Piece>, tail: seq<u8>)
    requires Sdm.START !in tail && forall i | 0 <= i < |pieces| :: SdmPackets.ValidPiece(pieces[i])
    ensures var frames := SdmFrames(SdmPackets.StreamOf(pieces) + tail);
            && |frames| == |pieces|
            && forall k | 0 <= k < |frames| ::
                 && frames[k].sequence == k + 1 && frames[k].vendor == Samsung && |frames[k].payload| >= 2
                 && frames[k].logCode == 0x2400 + pieces[k].request.group % 0x20
                 && frames[k].payload[2..] == SdmPackets.Wire(pieces[k].request)
  {
    hide Sdm.Parse, SdmPackets.StreamOf, SdmPackets.Wire, SdmPackets.FramesOf, SdmRecords;
    SdmPackets.StreamParsed(pieces, tail);
    PieceRecords(pieces);
    var records := SdmRecords(SdmPackets.FramesOf(pieces));
    forall k | 0 <= k < |records|
      ensures var f := Numbered(records)[k];
              && f.sequence == k + 1 && f.vendor == Samsung && |f.payload| >= 2
              && f.logCode == records[k].logCode && f.payload[2..] == records[k].packet
    {
      NumberedAt(records, k);
    }
  }
}
