/** Splitting MediaTek and Samsung record streams into numbered capture frames. */
module Records {
  import opened Bytes
  import opened Frames
  import opened Reading

  const MAX_RECORD := 8 * 1024 * 1024

  datatype Format = MediatekRecords | SamsungRecords

  function HeaderLength(format: Format): nat {
    if format.MediatekRecords? then 9 else 16
  }

  function VendorOf(format: Format): Vendor {
    if format.MediatekRecords? then Mediatek else Samsung
  }

  /** The payload length field sits at the same place in both headers. */
  function PayloadLength(header: seq<u8>): u16
    requires |header| >= 9
  {
    Le16(header[6], header[7])
  }

  function LogCodeOf(format: Format, fixed: Option<u16>, header: seq<u8>): Option<u16>
    requires |header| >= 9
  {
    if format.MediatekRecords? then Some(Le16(header[0], header[1]))
    else if fixed.Some? then fixed
    else
      var command := Le16(header[4], header[5]);
      if 0x2000 <= command <= 0x23ff then Some(command) else None
  }

  datatype ReadError = TruncatedHeader(have: nat) | UnusableCommand | TruncatedPayload | TooLong | SourceFailed

  // -- What a stream splits into --------------------------------------------------------------

  /** One complete record with a usable log code, and nothing else. */
  predicate IsRecord(format: Format, fixed: Option<u16>, bytes: seq<u8>) {
    && |bytes| >= HeaderLength(format)
    && |bytes| == HeaderLength(format) + PayloadLength(bytes)
    && LogCodeOf(format, fixed, bytes).Some?
  }

  function RecordOf(format: Format, fixed: Option<u16>, bytes: seq<u8>): Record
    requires IsRecord(format, fixed, bytes)
  {
    Record(VendorOf(format), LogCodeOf(format, fixed, bytes).value, bytes)
  }

  datatype Split = Split(records: seq<Record>, error: Option<ReadError>)

  function SplitRecords(format: Format, fixed: Option<u16>, data: seq<u8>): Split
    decreases |data|
  {
    var n := HeaderLength(format);
    if data == [] then Split([], None)
    else if |data| < n then Split([], Some(TruncatedHeader(|data|)))
    else if LogCodeOf(format, fixed, data).None? then Split([], Some(UnusableCommand))
    else if |data| < n + PayloadLength(data) then Split([], Some(TruncatedPayload))
    else
      var bytes := data[..n + PayloadLength(data)];
      var later := SplitRecords(format, fixed, data[|bytes|..]);
      Split([RecordOf(format, fixed, bytes)] + later.records, later.error)
  }

  function PacketsOf(records: seq<Record>): seq<seq<u8>> {
    if records == [] then [] else [records[0].packet] + PacketsOf(records[1..])
  }

  predicate AllRecords(format: Format, fixed: Option<u16>, parts: seq<seq<u8>>) {
    forall i | 0 <= i < |parts| :: IsRecord(format, fixed, parts[i])
  }

  lemma SplitFirst(format: Format, fixed: Option<u16>, bytes: seq<u8>, later: seq<u8>)
    requires IsRecord(format, fixed, bytes)
    ensures var s, t := SplitRecords(format, fixed, bytes + later), SplitRecords(format, fixed, later);
            s.records == [RecordOf(format, fixed, bytes)] + t.records && s.error == t.error
  {
    var data := bytes + later;
    assert data[..|bytes|] == bytes && data[|bytes|..] == later;
    assert LogCodeOf(format, fixed, data) == LogCodeOf(format, fixed, bytes);
  }

  lemma SplitStops(format: Format, fixed: Option<u16>, data: seq<u8>)
    ensures SplitRecords(format, fixed, data).records == [] ==>
              (SplitRecords(format, fixed, data).error == None <==> data == [])
    ensures SplitRecords(format, fixed, data).records != [] ==>
              var n := HeaderLength(format);
              && n <= |data| && n + PayloadLength(data) <= |data|
              && IsRecord(format, fixed, data[..n + PayloadLength(data)])
  {
    var n := HeaderLength(format);
    if |data| >= n && n + PayloadLength(data) <= |data| {
      var bytes := data[..n + PayloadLength(data)];
      assert LogCodeOf(format, fixed, data) == LogCodeOf(format, fixed, bytes);
    }
  }

  lemma {:induction false} ConcatenationSplits(format: Format, fixed: Option<u16>, parts: seq<seq<u8>>)
    requires AllRecords(format, fixed, parts)
    ensures SplitRecords(format, fixed, Join(parts)).error == None
    ensures PacketsOf(SplitRecords(format, fixed, Join(parts)).records) == parts
  {
    hide SplitRecords, LogCodeOf;
    if parts == [] {
      SplitStops(format, fixed, []);
    } else {
      assert IsRecord(format, fixed, parts[0]);
      hide IsRecord;
      SplitFirst(format, fixed, parts[0], Join(parts[1..]));
      ConcatenationSplits(format, fixed, parts[1..]);
      PacketsOfFirst(RecordOf(format, fixed, parts[0]), SplitRecords(format, fixed, Join(parts[1..])).records);
    }
  }

  lemma PacketsOfFirst(r: Record, rest: seq<Record>)
    ensures PacketsOf([r] + rest) == [r.packet] + PacketsOf(rest)
  {
  }

  lemma {:induction false} SplitCovers(format: Format, fixed: Option<u16>, data: seq<u8>)
    ensures var s := SplitRecords(format, fixed, data);
            && AllRecords(format, fixed, PacketsOf(s.records))
            && Join(PacketsOf(s.records)) <= data
            && (s.error == None <==> Join(PacketsOf(s.records)) == data)
    decreases |data|
  {
    hide SplitRecords, LogCodeOf, IsRecord;
    SplitStops(format, fixed, data);
    if SplitRecords(format, fixed, data).records != [] {
      var n := HeaderLength(format) + PayloadLength(data);
      var bytes, later := data[..n], data[n..];
      assert data == bytes + later;
      SplitFirst(format, fixed, bytes, later);
      SplitCovers(format, fixed, later);
      var t := SplitRecords(format, fixed, later).records;
      PacketsOfFirst(RecordOf(format, fixed, bytes), t);
      JoinFirst(bytes, PacketsOf(t));
      PrefixAfter(bytes, Join(PacketsOf(t)), later);
    }
  }

  lemma JoinFirst(first: seq<u8>, rest: seq<seq<u8>>)
    ensures Join([first] + rest) == first + Join(rest)
  {
  }

  lemma PrefixAfter(first: seq<u8>, a: seq<u8>, b: seq<u8>)
    requires a <= b
    ensures first + a <= first + b && (first + a == first + b <==> a == b)
  {
    if first + a == first + b {
      assert (first + a)[|first|..] == a && (first + b)[|first|..] == b;
    }
  }

  /** A run succeeds exactly on concatenations of complete usable records, and emits just those. */
  lemma SucceedsExactly(format: Format, fixed: Option<u16>, data: seq<u8>)
    ensures SplitRecords(format, fixed, data).error == None <==>
            exists parts: seq<seq<u8>> :: AllRecords(format, fixed, parts) && Join(parts) == data
    ensures forall parts: seq<seq<u8>> | AllRecords(format, fixed, parts) && Join(parts) == data ::
              PacketsOf(SplitRecords(format, fixed, data).records) == parts
  {
    hide SplitRecords, AllRecords;
    SplitCovers(format, fixed, data);
    forall parts: seq<seq<u8>> | AllRecords(format, fixed, parts) && Join(parts) == data
      ensures SplitRecords(format, fixed, data).error == None
      ensures PacketsOf(SplitRecords(format, fixed, data).records) == parts
    {
      ConcatenationSplits(format, fixed, parts);
    }
  }

  // -- Records in bytes -----------------------------------------------------------------------

  /** A MediaTek record of its fields: code, four bytes, payload length, one byte, payload. */
  function MediatekBytes(code: u16, a: seq<u8>, b: u8, payload: seq<u8>): seq<u8>
    requires |a| == 4 && |payload| <= 0xffff
  {
    Le16Bytes(code) + a + Le16Bytes(|payload|) + [b] + payload
  }

  /** A Samsung record: four bytes, command, payload length, eight bytes, payload. */
  function SamsungBytes(a: seq<u8>, command: u16, b: seq<u8>, payload: seq<u8>): seq<u8>
    requires |a| == 4 && |b| == 8 && |payload| <= 0xffff
  {
    a + Le16Bytes(command) + Le16Bytes(|payload|) + b + payload
  }

  lemma MediatekFields(code: u16, a: seq<u8>, b: u8, payload: seq<u8>, fixed: Option<u16>)
    requires |a| == 4 && |payload| <= 0xffff
    ensures var r := MediatekBytes(code, a, b, payload);
            IsRecord(MediatekRecords, fixed, r) && RecordOf(MediatekRecords, fixed, r) == Record(Mediatek, code, r)
  {
    var c, n := Le16Bytes(code), Le16Bytes(|payload|);
    hide Le16Bytes;
    var r := MediatekBytes(code, a, b, payload);
    assert r[0] == c[0] && r[1] == c[1] && r[6] == n[0] && r[7] == n[1];
  }

  /** A MediaTek record is split off whole, under its own code; a fixed code is not looked at. */
  lemma MediatekSplit(code: u16, a: seq<u8>, b: u8, payload: seq<u8>, fixed: Option<u16>, later: seq<u8>)
    requires |a| == 4 && |payload| <= 0xffff
    ensures var r := MediatekBytes(code, a, b, payload);
            var s, t := SplitRecords(MediatekRecords, fixed, r + later), SplitRecords(MediatekRecords, fixed, later);
            s == Split([Record(Mediatek, code, r)] + t.records, t.error)
  {
    hide IsRecord, RecordOf, SplitRecords, MediatekBytes;
    MediatekFields(code, a, b, payload, fixed);
    SplitFirst(MediatekRecords, fixed, MediatekBytes(code, a, b, payload), later);
  }

  lemma SamsungFields(a: seq<u8>, command: u16, b: seq<u8>, payload: seq<u8>, later: seq<u8>)
    requires |a| == 4 && |b| == 8 && |payload| <= 0xffff
    ensures var r := SamsungBytes(a, command, b, payload) + later;
            |r| >= 16 && Le16(r[4], r[5]) == command && Le16(r[6], r[7]) == |payload|
  {
    var c, n := Le16Bytes(command), Le16Bytes(|payload|);
    hide Le16Bytes, Le16;
    var r := SamsungBytes(a, command, b, payload) + later;
    assert r[4] == c[0] && r[5] == c[1] && r[6] == n[0] && r[7] == n[1];
  }

  /** The code a Samsung record goes by: a fixed one, or else its command if that is in 0x2000..0x23ff. */
  function SamsungCode(fixed: Option<u16>, command: u16): Option<u16> {
    if fixed.Some? then fixed else if command / 0x400 == 8 then Some(command) else None
  }

  /** A Samsung record with a usable code is split off whole; any other ends the run. */
  lemma SamsungSplit(a: seq<u8>, command: u16, b: seq<u8>, payload: seq<u8>, fixed: Option<u16>, later: seq<u8>)
    requires |a| == 4 && |b| == 8 && |payload| <= 0xffff
    ensures var r, code := SamsungBytes(a, command, b, payload), SamsungCode(fixed, command);
            var s, t := SplitRecords(SamsungRecords, fixed, r + later), SplitRecords(SamsungRecords, fixed, later);
            if code.Some? then s == Split([Record(Samsung, code.value, r)] + t.records, t.error)
            else s == Split([], Some(UnusableCommand))
  {
    var r := SamsungBytes(a, command, b, payload);
    SamsungFields(a, command, b, payload, []);
    SamsungFields(a, command, b, payload, later);
    assert r + [] == r;
    assert |r| == 16 + |payload|;
    hide SamsungBytes, Le16, SplitRecords;
    if SamsungCode(fixed, command).Some? {
      SplitFirst(SamsungRecords, fixed, r, later);
    } else {
      SplitRefused(SamsungRecords, fixed, r + later);
    }
  }

  lemma SplitRefused(format: Format, fixed: Option<u16>, data: seq<u8>)
    requires |data| >= HeaderLength(format) && LogCodeOf(format, fixed, data).None?
    ensures SplitRecords(format, fixed, data) == Split([], Some(UnusableCommand))
  {
  }

  /** A usable record cut short anywhere yields nothing but the error that fits. */
  lemma CutShort(format: Format, fixed: Option<u16>, record: seq<u8>, n: nat)
    requires IsRecord(format, fixed, record) && 0 < n < |record|
    ensures var header := if format.MediatekRecords? then 9 else 16;
            SplitRecords(format, fixed, record[..n]) ==
            Split([], Some(if n < header then TruncatedHeader(n) else TruncatedPayload))
  {
    if n >= HeaderLength(format) {
      assert LogCodeOf(format, fixed, record[..n]) == LogCodeOf(format, fixed, record);
    }
  }

  // -- Reading --------------------------------------------------------------------------------

  datatype HeaderRead = Header(bytes: seq<u8>) | NoMore | Bad(error: ReadError)

  lemma Regroup(a: seq<u8>, b: seq<u8>, c: seq<u8>)
    ensures a + (b + c) == (a + b) + c
  {
  }

  method CopyInto(out: array<u8>, offset: nat, bytes: seq<u8>)
    requires offset + |bytes| <= out.Length
    modifies out
    ensures out[..offset + |bytes|] == old(out[..offset]) + bytes
  {
    forall k | 0 <= k < |bytes| {
      out[offset + k] := bytes[k];
    }
  }

  /** `taken` are the bytes that were read, whatever became of them. */
  method ReadExactOrEof(reader: Reader, n: nat) returns (r: HeaderRead, ghost taken: seq<u8>)
    requires n > 0
    modifies reader
    ensures old(reader.remaining) == taken + reader.remaining
    ensures r.Header? ==> |r.bytes| == n && taken == r.bytes
    ensures r.NoMore? ==> taken == []
    ensures r.Bad? ==> |taken| < n
    ensures r.Bad? && r.error != SourceFailed ==> taken != [] && r.error == TruncatedHeader(|taken|)
    ensures Failures(reader.schedule) + (if r == Bad(SourceFailed) then 1 else 0) == Failures(old(reader.schedule))
    ensures Timeouts(reader.schedule) <= Timeouts(old(reader.schedule))
    ensures Timeouts(old(reader.schedule)) == 0 && r != Bad(SourceFailed) ==>
              if old(reader.remaining) == [] then r == NoMore
              else if |old(reader.remaining)| < n then r == Bad(TruncatedHeader(|old(reader.remaining)|))
              else r.Header?
  {
    hide Failures, Timeouts;
    var out := new u8[n](_ => 0);
    var offset := 0;
    while offset < n
      invariant 0 <= offset <= n && out.Length == n && fresh(out)
      invariant old(reader.remaining) == out[..offset] + reader.remaining
      invariant Failures(reader.schedule) == Failures(old(reader.schedule))
      invariant Timeouts(reader.schedule) <= Timeouts(old(reader.schedule))
      decreases n - offset, reader.Fuel()
    {
      var got := reader.Read(n - offset);
      if got.Empty? {
        return if offset == 0 then NoMore else Bad(TruncatedHeader(offset)), out[..offset];
      } else if got.Interrupted? {
        continue;
      } else if got.Failed? {
        return Bad(SourceFailed), out[..offset];
      }
      Regroup(out[..offset], got.bytes, reader.remaining);
      CopyInto(out, offset, got.bytes);
      offset := offset + |got.bytes|;
    }
    assert out[..n] == out[..];
    return Header(out[..]), out[..];
  }

  method ReadExact(reader: Reader, n: nat) returns (r: Result<seq<u8>, ReadError>, ghost taken: seq<u8>)
    modifies reader
    ensures old(reader.remaining) == taken + reader.remaining
    ensures r.Ok? ==> |r.value| == n && taken == r.value
    ensures r.Err? ==> |taken| < n && (r.error == SourceFailed || r.error == TruncatedPayload)
    ensures Failures(reader.schedule) + (if r == Err(SourceFailed) then 1 else 0) == Failures(old(reader.schedule))
    ensures Timeouts(reader.schedule) <= Timeouts(old(reader.schedule))
    ensures Timeouts(old(reader.schedule)) == 0 && r != Err(SourceFailed) ==>
              if |old(reader.remaining)| < n then r == Err(TruncatedPayload) else r.Ok?
  {
    hide Failures, Timeouts;
    var out: seq<u8> := [];
    while |out| < n
      invariant |out| <= n && old(reader.remaining) == out + reader.remaining
      invariant Failures(reader.schedule) == Failures(old(reader.schedule))
      invariant Timeouts(reader.schedule) <= Timeouts(old(reader.schedule))
      decreases n - |out|, reader.Fuel()
    {
      var got := reader.Read(n - |out|);
      if got.Empty? {
        return Err(TruncatedPayload), out;
      } else if got.Interrupted? {
        continue;
      } else if got.Failed? {
        return Err(SourceFailed), out;
      }
      out := out + got.bytes;
    }
    return Ok(out), out;
  }

  /** Where the first part splits without error, the second carries on as if on its own. */
  lemma {:induction false} SplitAppend(format: Format, fixed: Option<u16>, a: seq<u8>, b: seq<u8>)
    requires SplitRecords(format, fixed, a).error == None
    ensures var s, t := SplitRecords(format, fixed, a), SplitRecords(format, fixed, b);
            SplitRecords(format, fixed, a + b) == Split(s.records + t.records, t.error)
    decreases |a|
  {
    hide SplitRecords, LogCodeOf, IsRecord, RecordOf;
    SplitStops(format, fixed, a);
    if SplitRecords(format, fixed, a).records == [] {
      assert a + b == b;
    } else {
      var n := HeaderLength(format) + PayloadLength(a);
      var bytes, later := a[..n], a[n..];
      assert a == bytes + later && a + b == bytes + (later + b);
      SplitFirst(format, fixed, bytes, later);
      SplitFirst(format, fixed, bytes, later + b);
      SplitAppend(format, fixed, later, b);
    }
  }

  lemma SplitOne(format: Format, fixed: Option<u16>, taken: seq<u8>, record: seq<u8>)
    requires SplitRecords(format, fixed, taken).error == None && IsRecord(format, fixed, record)
    ensures SplitRecords(format, fixed, taken + record) ==
            Split(SplitRecords(format, fixed, taken).records + [RecordOf(format, fixed, record)], None)
  {
    hide SplitRecords, IsRecord, RecordOf;
    SplitAppend(format, fixed, taken, record);
    SplitFirst(format, fixed, record, []);
    SplitStops(format, fixed, []);
    assert record + [] == record;
    SplitNothing(format, fixed);
  }

  lemma SplitNothing(format: Format, fixed: Option<u16>)
    ensures SplitRecords(format, fixed, []) == Split([], None)
  {
  }

  lemma HeaderDecides(format: Format, fixed: Option<u16>, header: seq<u8>, later: seq<u8>)
    requires |header| == HeaderLength(format)
    ensures LogCodeOf(format, fixed, header + later) == LogCodeOf(format, fixed, header)
    ensures PayloadLength(header + later) == PayloadLength(header)
  {
  }

  /** What follows the last whole record: nothing, part of one, or one that cannot be used. */
  lemma SplitPartial(format: Format, fixed: Option<u16>, header: seq<u8>, part: seq<u8>)
    ensures header != [] && |header| < HeaderLength(format) ==>
              SplitRecords(format, fixed, header) == Split([], Some(TruncatedHeader(|header|)))
    ensures |header| == HeaderLength(format) ==>
              var s := SplitRecords(format, fixed, header + part);
              && (LogCodeOf(format, fixed, header).None? ==> s == Split([], Some(UnusableCommand)))
              && (LogCodeOf(format, fixed, header).Some? && |part| < PayloadLength(header) ==>
                    s == Split([], Some(TruncatedPayload)))
  {
    if |header| == HeaderLength(format) {
      HeaderDecides(format, fixed, header, part);
    }
  }

  /** One turn of the loop: a record, or None at a clean end, or the error that ends the run. */
  method ReadRecord(reader: Reader, format: Format, fixed: Option<u16>)
    returns (next: Result<Record, Option<ReadError>>, ghost taken: seq<u8>)
    modifies reader
    ensures old(reader.remaining) == taken + reader.remaining
    ensures next.Ok? ==> IsRecord(format, fixed, taken) && next.value == RecordOf(format, fixed, taken)
    ensures next.Err? ==> SplitRecords(format, fixed, taken).records == []
    ensures next.Err? && next.error != Some(SourceFailed) ==> next.error == SplitRecords(format, fixed, taken).error
    ensures Failures(reader.schedule) + (if next == Err(Some(SourceFailed)) then 1 else 0) ==
            Failures(old(reader.schedule))
    ensures Timeouts(reader.schedule) <= Timeouts(old(reader.schedule))
    ensures Timeouts(old(reader.schedule)) == 0 && next.Err? && next.error != Some(SourceFailed) ==>
              SplitRecords(format, fixed, old(reader.remaining)) == Split([], next.error)
  {
    hide IsRecord, LogCodeOf, SplitRecords, Failures, Timeouts;
    SplitNothing(format, fixed);
    ghost var left := reader.remaining;
    var read;
    read, taken := ReadExactOrEof(reader, HeaderLength(format));
    if read.NoMore? {
      return Err(None), taken;
    } else if read.Bad? {
      SplitPartial(format, fixed, taken, []);
      assert reader.remaining == [] ==> left == taken;
      return Err(Some(read.error)), taken;
    }
    var header := read.bytes;
    SplitPartial(format, fixed, header, []);
    SplitPartial(format, fixed, header, reader.remaining);
    assert header + [] == header;
    var length := PayloadLength(header);
    if length > MAX_RECORD {
      return Err(Some(TooLong)), taken;
    }
    var logCode := LogCodeOf(format, fixed, header);
    if logCode.None? {
      return Err(Some(UnusableCommand)), taken;
    }
    var packet := header;
    var payload;
    ghost var part;
    payload, part := ReadExact(reader, length);
    Regroup(header, part, reader.remaining);
    taken := header + part;
    if payload.Err? {
      SplitPartial(format, fixed, header, part);
      return Err(Some(payload.error)), taken;
    }
    packet := packet + payload.value;
    RecordRead(format, fixed, header, payload.value);
    return Ok(Record(VendorOf(format), logCode.value, packet)), taken;
  }

  /**
   Records up to the first error. The sink is the sequence `emitted`, and `taken` are the bytes read.
   On any schedule the records are those of the bytes read, and the error is theirs too unless the
   source failed, which is reported. Without timeouts that is the result for the whole input.
   */
  method ReadRecords(reader: Reader, format: Format, fixed: Option<u16>)
    returns (emitted: seq<Record>, error: Option<ReadError>, ghost taken: seq<u8>)
    modifies reader
    ensures old(reader.remaining) == taken + reader.remaining
    ensures emitted == SplitRecords(format, fixed, taken).records
    ensures error != Some(SourceFailed) ==> error == SplitRecords(format, fixed, taken).error
    ensures emitted <= SplitRecords(format, fixed, old(reader.remaining)).records
    ensures Failures(reader.schedule) + (if error == Some(SourceFailed) then 1 else 0) == Failures(old(reader.schedule))
    ensures Timeouts(old(reader.schedule)) == 0 && error != Some(SourceFailed) ==>
              Split(emitted, error) == SplitRecords(format, fixed, old(reader.remaining))
  {
    hide IsRecord, RecordOf, SplitRecords, Failures, Timeouts;
    emitted, error, taken := [], None, [];
    SplitNothing(format, fixed);
    while true
      invariant old(reader.remaining) == taken + reader.remaining
      invariant SplitRecords(format, fixed, taken) == Split(emitted, None)
      invariant Failures(reader.schedule) == Failures(old(reader.schedule))
      invariant Timeouts(reader.schedule) <= Timeouts(old(reader.schedule))
      decreases |reader.remaining|
    {
      SplitAppend(format, fixed, taken, reader.remaining);
      var next;
      ghost var part;
      next, part := ReadRecord(reader, format, fixed);
      SplitAppend(format, fixed, taken, part);
      Regroup(taken, part, reader.remaining);
      if next.Err? {
        return emitted, next.error, taken + part;
      }
      SplitOne(format, fixed, taken, part);
      RecordNotEmpty(format, fixed, part);
      taken := taken + part;
      emitted := emitted + [next.value];
    }
  }

  lemma RecordNotEmpty(format: Format, fixed: Option<u16>, record: seq<u8>)
    requires IsRecord(format, fixed, record)
    ensures record != []
  {
  }

  lemma RecordRead(format: Format, fixed: Option<u16>, header: seq<u8>, payload: seq<u8>)
    requires |header| == HeaderLength(format) && |payload| == PayloadLength(header)
    requires LogCodeOf(format, fixed, header).Some?
    ensures IsRecord(format, fixed, header + payload)
    ensures RecordOf(format, fixed, header + payload) ==
            Record(VendorOf(format), LogCodeOf(format, fixed, header).value, header + payload)
  {
  }

  lemma {:induction false} NumberedPrefix(a: seq<Record>, b: seq<Record>)
    requires a <= b
    ensures Numbered(a) <= Numbered(b)
    decreases |b|
  {
    if |a| == |b| {
      assert a == b;
    } else {
      var n := |b| - 1;
      NumberedPrefix(a, b[..n]);
      NumberedOne(b[..n], b[n]);
      assert b == b[..n] + [b[n]];
    }
  }

  /** Number the records as they come and make capture frames of them. */
  method EmitRecords(records: seq<Record>) returns (frames: seq<CaptureFrame>)
    ensures frames == Numbered(records)
  {
    hide Numbered, Normalised;
    frames := [];
    for i := 0 to |records|
      invariant frames == Numbered(records[..i])
    {
      NumberedOne(records[..i], records[i]);
      assert records[..i + 1] == records[..i] + [records[i]];
      frames := frames + [Normalised(|frames| + 1, records[i])];
    }
    assert records[..|records|] == records;
  }

  method RunVendorRecords(reader: Reader, format: Format, fixed: Option<u16>)
    returns (frames: seq<CaptureFrame>, error: Option<ReadError>, ghost taken: seq<u8>)
    modifies reader
    ensures old(reader.remaining) == taken + reader.remaining
    ensures frames == Numbered(SplitRecords(format, fixed, taken).records)
    ensures error != Some(SourceFailed) ==> error == SplitRecords(format, fixed, taken).error
    ensures frames <= Numbered(SplitRecords(format, fixed, old(reader.remaining)).records)
    ensures Failures(reader.schedule) + (if error == Some(SourceFailed) then 1 else 0) == Failures(old(reader.schedule))
    ensures Timeouts(old(reader.schedule)) == 0 && error != Some(SourceFailed) ==>
              var s := SplitRecords(format, fixed, old(reader.remaining));
              frames == Numbered(s.records) && error == s.error
  {
    hide SplitRecords, Numbered, Failures, Timeouts;
    ghost var data := reader.remaining;
    var records;
    records, error, taken := ReadRecords(reader, format, fixed);
    frames := EmitRecords(records);
    NumberedPrefix(records, SplitRecords(format, fixed, data).records);
  }
}
