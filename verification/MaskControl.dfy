/** The log-mask transaction between the agent and a modem, down to the bytes on the wire. */
module MaskControl {
  import opened Bytes
  import opened LogConfig
  import opened Reading
  import Hdlc

  // -- Waiting for a response -----------------------------------------------------------------

  predicate IsResponse(packet: seq<u8>, operation: u32) {
    ParseLogConfigHeader(packet).Ok? && ParseLogConfigHeader(packet).value.0.operation == operation
  }

  /** The first intact packet that answers the operation. */
  function FirstResponse(items: seq<Hdlc.Frame>, operation: u32): Option<seq<u8>> {
    if items == [] then None
    else if items[0].Ok? && IsResponse(items[0].value, operation) then Some(items[0].value)
    else FirstResponse(items[1..], operation)
  }

  lemma {:induction false} FirstResponseAppend(a: seq<Hdlc.Frame>, b: seq<Hdlc.Frame>, operation: u32)
    ensures FirstResponse(a + b, operation) ==
            if FirstResponse(a, operation).Some? then FirstResponse(a, operation) else FirstResponse(b, operation)
  {
    if a == [] {
      assert a + b == b;
    } else {
      assert (a + b)[1..] == a[1..] + b;
      FirstResponseAppend(a[1..], b, operation);
    }
  }

  lemma {:induction false} FirstResponseAnswers(items: seq<Hdlc.Frame>, operation: u32)
    ensures FirstResponse(items, operation).Some? ==> IsResponse(FirstResponse(items, operation).value, operation)
  {
    if items != [] {
      FirstResponseAnswers(items[1..], operation);
    }
  }

  function Heard(bytes: seq<u8>, operation: u32): Option<seq<u8>> {
    FirstResponse(Hdlc.Decode(bytes), operation)
  }

  /** A reply sent by a modem is heard exactly by who waits for its operation. */
  lemma ReplyHeard(operation: u32, status: u32, data: seq<u8>, awaited: u32)
    ensures var reply := [0x73, 0, 0, 0] + Le32Bytes(operation) + Le32Bytes(status) + data;
            Heard(Hdlc.Encode(reply), awaited) == if operation == awaited then Some(reply) else None
  {
    hide Hdlc.Encode, Hdlc.Decode, ParseLogConfigHeader, Le32Bytes;
    var reply: seq<u8> := [0x73, 0, 0, 0] + Le32Bytes(operation) + Le32Bytes(status) + data;
    ReplyRead(operation, status, data);
    Hdlc.RoundTrip([reply]);
    assert |[reply][1..]| == 0;
    assert Hdlc.EncodeAll([reply]) == Hdlc.Encode(reply);
    var items: seq<Hdlc.Frame> := [Ok(reply)];
    assert Hdlc.ReceivedAll([reply]) == items && items[1..] == [];
    assert Heard(Hdlc.Encode(reply), awaited) == FirstResponse(items, awaited);
    assert IsResponse(reply, awaited) <==> operation == awaited;
    assert FirstResponse(items, awaited) == if operation == awaited then Some(reply) else FirstResponse([], awaited);
  }

  /** Push one read into the decoder until a response turns up; what follows it is dropped. */
  method Listen(hdlc: Hdlc.Decoder, chunk: seq<u8>, operation: u32) returns (r: Option<seq<u8>>)
    requires hdlc.Valid() && Heard(hdlc.seen, operation).None?
    modifies hdlc
    ensures hdlc.Valid() && (r.None? ==> hdlc.seen == old(hdlc.seen) + chunk)
    ensures r == Heard(old(hdlc.seen) + chunk, operation)
  {
    hide FirstResponse, Hdlc.Decode, IsResponse, ParseLogConfigHeader;
    ghost var before := hdlc.seen;
    for i := 0 to |chunk|
      invariant hdlc.Valid() && hdlc.seen == before + chunk[..i]
      invariant Heard(hdlc.seen, operation).None?
    {
      ghost var seen := hdlc.seen;
      assert before + chunk[..i + 1] == seen + [chunk[i]];
      var result := hdlc.Push(chunk[i]);
      if result.None? {
        NothingHeard(seen, chunk[i], operation);
        continue;
      }
      OneMoreHeard(seen, chunk[i], result.value, operation);
      if result.value.Err? {
        continue;
      }
      var packet := result.value.value;
      var parsed := ParseLogConfigHeader(packet);
      if parsed.Ok? {
        if parsed.value.0.operation == operation {
          LaterIgnored(before + chunk[..i + 1], chunk[i + 1..], operation);
          assert before + chunk == before + chunk[..i + 1] + chunk[i + 1..];
          return Some(packet);
        }
      }
    }
    assert chunk[..|chunk|] == chunk;
    return None;
  }

  lemma NothingHeard(seen: seq<u8>, byte: u8, operation: u32)
    requires Hdlc.Decode(seen + [byte]) == Hdlc.Decode(seen) + []
    ensures Heard(seen + [byte], operation) == Heard(seen, operation)
  {
    hide Hdlc.Decode;
    assert Hdlc.Decode(seen) + [] == Hdlc.Decode(seen);
  }

  lemma OneMoreHeard(seen: seq<u8>, byte: u8, item: Hdlc.Frame, operation: u32)
    requires Heard(seen, operation).None?
    requires Hdlc.Decode(seen + [byte]) == Hdlc.Decode(seen) + [item]
    ensures Heard(seen + [byte], operation) ==
            if item.Ok? && ParseLogConfigHeader(item.value).Ok?
               && ParseLogConfigHeader(item.value).value.0.operation == operation
            then Some(item.value) else None
  {
    hide Hdlc.Decode, ParseLogConfigHeader;
    FirstResponseAppend(Hdlc.Decode(seen), [item], operation);
    assert [item][1..] == [];
  }

  lemma LaterIgnored(bytes: seq<u8>, more: seq<u8>, operation: u32)
    ensures Heard(bytes, operation).Some? ==> Heard(bytes + more, operation) == Heard(bytes, operation)
  {
    hide Hdlc.Decode;
    Hdlc.DecodeAppend(bytes, more);
    FirstResponseAppend(Hdlc.Decode(bytes), Hdlc.Decode(Hdlc.Open(bytes) + more), operation);
  }

  // -- Patience -------------------------------------------------------------------------------

  /**
   The timeouts since the last delivery after these read events, or None once the agent has given
   up: at the fifth timeout without a delivery in between, or at a failure.
   */
  function Waited(events: seq<Hint>): (quiet: Option<nat>)
    ensures quiet.Some? ==> quiet.value < 5
    decreases |events|
  {
    if events == [] then Some(0)
    else
      var n := |events| - 1;
      match Waited(events[..n])
      case None => None
      case Some(quiet) =>
        match events[n]
        case Idle => if quiet == 4 then None else Some(quiet + 1)
        case Interrupt => Some(quiet)
        case Fail => None
        case AtMost(_) => Some(0)
  }

  /** A schedule on which the agent never gives up while there is something left to read. */
  predicate Patient(schedule: seq<Hint>) {
    Waited(schedule).Some?
  }

  lemma {:induction false} PatientParts(a: seq<Hint>, b: seq<Hint>)
    requires Patient(a + b)
    ensures Patient(a) && Patient(b) && Waited(b).value <= Waited(a + b).value
    decreases |b|
  {
    if b == [] {
      assert a + b == a;
    } else {
      var n := |b| - 1;
      assert (a + b)[..|a| + n] == a + b[..n];
      PatientParts(a, b[..n]);
    }
  }

  class Port {
    const incoming: Reader
    var written: seq<u8>

    constructor (incoming: Reader)
      ensures this.incoming == incoming && written == []
    {
      this.incoming, written := incoming, [];
    }

    method Send(packet: seq<u8>)
      modifies this
      ensures written == old(written) + Hdlc.Encode(packet)
    {
      var encoded := Hdlc.EncodeHdlc(packet);
      written := written + encoded;
    }

    /**
     `heard` are the bytes taken from the line while waiting, and `events` how the reads went. The
     agent stops at the read that completes the response, or at the event that makes it give up.
     */
    method WaitForResponse(operation: u32) returns (r: Option<seq<u8>>, ghost heard: seq<u8>, ghost events: seq<Hint>)
      modifies incoming
      ensures old(incoming.remaining) == heard + incoming.remaining
      ensures old(incoming.schedule) == events + incoming.schedule
      ensures r == Heard(heard, operation)
      ensures r.Some? ==> exists n: nat :: n < |heard| <= n + 4096 && Heard(heard[..n], operation).None?
      ensures incoming.remaining != [] ==> (r.None? <==> Waited(events).None?)
      ensures incoming.remaining != [] && r.None? ==> Waited(events[..|events| - 1]).Some?
    {
      hide Heard, Waited, Hdlc.Decode, Hdlc.Open, Hdlc.Unescape, Hdlc.EndsInEscape, Failures, Timeouts;
      var hdlc := new Hdlc.Decoder();
      var idleTimeouts := 0;
      heard, events := [], [];
      NothingYet(operation);
      while true
        invariant hdlc.Valid() && fresh(hdlc) && hdlc.seen == heard && Heard(heard, operation).None?
        invariant old(incoming.remaining) == heard + incoming.remaining
        invariant old(incoming.schedule) == events + incoming.schedule
        invariant 0 <= idleTimeouts < 5
        invariant incoming.remaining != [] ==>
                    Waited(events).Some? && (incoming.schedule != [] ==> Waited(events) == Some(idleTimeouts))
        decreases incoming.Fuel(), 5 - idleTimeouts
      {
        ghost var before := incoming.schedule;
        var got := incoming.Read(4096);
        if before != [] {
          WaitedOne(events, before[0]);
          events := events + [before[0]];
        }
        if got.Empty? {
          idleTimeouts := idleTimeouts + 1;
          if idleTimeouts >= 5 {
            return None, heard, events;
          }
          continue;
        } else if got.Interrupted? {
          continue;
        } else if got.Failed? {
          return None, heard, events;
        }
        idleTimeouts := 0;
        ghost var n := |heard|;
        assert (heard + got.bytes)[..n] == heard;
        heard := heard + got.bytes;
        r := Listen(hdlc, got.bytes, operation);
        if r.Some? {
          return r, heard, events;
        }
      }
    }
  }

  lemma WaitedOne(events: seq<Hint>, next: Hint)
    ensures Waited(events + [next]) ==
            if Waited(events).None? || next.Fail? || (next.Idle? && Waited(events).value == 4) then None
            else if next.AtMost? then Some(0)
            else Some(Waited(events).value + if next.Idle? then 1 else 0)
  {
    assert (events + [next])[..|events|] == events;
  }

  lemma NothingYet(operation: u32)
    ensures Heard([], operation) == None && Waited([]) == Some(0)
  {
  }
}
