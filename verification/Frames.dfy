/** Vendor-neutral capture frames. */
module Frames {
  import opened Bytes

  datatype Vendor = Qualcomm | Mediatek | Samsung

  /** One vendor packet on its way to becoming a numbered capture frame. */
  datatype Record = Record(vendor: Vendor, logCode: u16, packet: seq<u8>)

  datatype CaptureFrame = CaptureFrame(sequence: nat, vendor: Vendor, logCode: u16, payload: seq<u8>)

  function ParserPayload(logCode: u16, packet: seq<u8>): seq<u8> {
    Le16Bytes(logCode) + packet
  }

  const LOG_F: u8 := 0x10

  /** The log code of a DIAG log packet. */
  function QualcommLogCode(packet: seq<u8>): Option<u16> {
    if |packet| < 8 || packet[0] != LOG_F then None else Some(Le16(packet[6], packet[7]))
  }

  /** A log packet built field by field gives its log code. */
  lemma LogCodeRead(more: u8, outerLength: u16, entryLength: u16, code: u16, rest: seq<u8>)
    ensures QualcommLogCode([0x10, more] + Le16Bytes(outerLength) + Le16Bytes(entryLength) + Le16Bytes(code) + rest) ==
            Some(code)
  {
    var c := Le16Bytes(code);
    hide Le16Bytes;
    var packet := [0x10, more] + Le16Bytes(outerLength) + Le16Bytes(entryLength) + c + rest;
    assert packet[0] == 0x10 && packet[6] == c[0] && packet[7] == c[1];
  }

  /** Exactly the packets of eight bytes or more that open with 0x10 have a log code. */
  lemma OnlyLogPackets(packet: seq<u8>)
    ensures QualcommLogCode(packet).Some? <==> |packet| >= 8 && packet[0] == 0x10
  {
  }

  function Normalised(sequence: nat, r: Record): CaptureFrame {
    CaptureFrame(sequence, r.vendor, r.logCode, ParserPayload(r.logCode, r.packet))
  }

  /** Records numbered from 1 in order of arrival. */
  function Numbered(records: seq<Record>): (frames: seq<CaptureFrame>)
    ensures |frames| == |records|
    decreases |records|
  {
    if records == [] then []
    else
      var n := |records| - 1;
      Numbered(records[..n]) + [Normalised(n + 1, records[n])]
  }

  lemma NumberedOne(records: seq<Record>, r: Record)
    ensures Numbered(records + [r]) == Numbered(records) + [Normalised(|records| + 1, r)]
  {
    assert (records + [r])[..|records|] == records;
  }

  /** Frame `k` is numbered `k + 1` and hides record `k` behind a two-byte prefix. */
  lemma {:induction false} NumberedAt(records: seq<Record>, k: nat)
    requires k < |records|
    ensures var f := Numbered(records)[k];
            && f.sequence == k + 1 && f.vendor == records[k].vendor && f.logCode == records[k].logCode
            && |f.payload| >= 2 && Le16(f.payload[0], f.payload[1]) == f.logCode && f.payload[2..] == records[k].packet
    decreases |records|
  {
    if k < |records| - 1 {
      NumberedAt(records[..|records| - 1], k);
    }
  }
}
