/** What a run of the log-mask configuration sends, and what it leaves in the modem. */
module MaskTransaction {
  import opened Bytes
  import opened LogConfig
  import opened MaskControl
  import opened Reading
  import Hdlc

  /** What was asked for, and what the modem says it can do. */
  datatype Order = Order(explicit: seq<u16>, offered: seq<u16>, ranges: seq<u32>)

  predicate ValidOrder(o: Order) {
    |o.ranges| == 16
  }

  predicate Supported(o: Order, code: u16)
    requires ValidOrder(o)
  {
    ItemOf(code) <= o.ranges[EquipOf(code)]
  }

  /** Explicit codes are wanted unconditionally, profile codes only where the modem supports them. */
  predicate Wanted(o: Order, code: u16)
    requires ValidOrder(o)
  {
    code in o.explicit || (code in o.offered && Supported(o, code))
  }

  ghost predicate WantedCodes(o: Order, codes: seq<u16>)
    requires ValidOrder(o)
  {
    forall code: u16 :: code in codes <==> Wanted(o, code)
  }

  ghost predicate WantedItems(o: Order, equip: u8, items: seq<u16>)
    requires ValidOrder(o) && equip < 0x10
  {
    forall item: nat :: item in items <==> item < 0x1000 && Wanted(o, CodeOf(equip, item))
  }

  predicate Touched(o: Order, equip: nat)
    requires ValidOrder(o)
  {
    equip < 0x10 && exists item: u16 :: item < 0x1000 && Wanted(o, CodeOf(equip, item))
  }

  /** The equipments below `n` with wanted codes, in increasing order. */
  function Targets(o: Order, n: nat): seq<u8>
    requires ValidOrder(o) && n <= 0x10
  {
    if n == 0 then [] else Targets(o, n - 1) + if Touched(o, n - 1) then [n - 1] else []
  }

  /** A SET_MASK request that enables exactly the wanted items of one equipment. */
  ghost predicate IsWrite(o: Order, packet: seq<u8>, equip: u8)
    requires ValidOrder(o)
  {
    && equip < 0x10
    && ReadSetMask(packet).Some?
    && var (e, last, mask) := ReadSetMask(packet).value;
       && e == equip && last == o.ranges[equip] && |mask| == last / 8 + 1
       && forall item: nat :: Enabled(mask, item) <==> item < 0x1000 && Wanted(o, CodeOf(equip, item))
  }

  /** The writes go to the first targets, in order and one each. */
  ghost predicate Writes(o: Order, writes: seq<seq<u8>>, targets: seq<u8>)
    requires ValidOrder(o)
  {
    |writes| <= |targets| && forall k | 0 <= k < |writes| :: IsWrite(o, writes[k], targets[k])
  }

  predicate ExplicitFits(o: Order, equip: nat)
    requires ValidOrder(o)
  {
    forall k | 0 <= k < |o.explicit| && EquipOf(o.explicit[k]) == equip :: Supported(o, o.explicit[k])
  }

  lemma {:induction false} TargetsAscend(o: Order, n: nat)
    requires ValidOrder(o) && n <= 0x10
    ensures Ascending(Targets(o, n))
    ensures forall equip: int :: equip in Targets(o, n) <==> 0 <= equip < n && Touched(o, equip)
  {
    hide Touched;
    if n > 0 {
      TargetsAscend(o, n - 1);
      var before := Targets(o, n - 1);
      assert forall k | 0 <= k < |before| :: before[k] in before;
    }
  }

  lemma {:induction false} TargetsExtend(o: Order, n: nat, m: nat)
    requires ValidOrder(o) && n <= m <= 0x10
    ensures Targets(o, n) <= Targets(o, m)
    decreases m
  {
    hide Touched;
    if n < m {
      TargetsExtend(o, n, m - 1);
    }
  }

  // -- Choosing the codes ---------------------------------------------------------------------

  method Select(o: Order) returns (selected: seq<u16>)
    requires ValidOrder(o)
    ensures Ascending(selected) && WantedCodes(o, selected)
  {
    var profileCodes := SortDedup(o.offered);
    selected := o.explicit;
    for i := 0 to |profileCodes|
      invariant forall code: u16 :: code in selected <==>
                  code in o.explicit || (code in profileCodes[..i] && Supported(o, code))
    {
      var code := profileCodes[i];
      if code in o.explicit {
        continue;
      }
      var equip, item := EquipOf(code), ItemOf(code);
      if item <= o.ranges[equip] {
        selected := selected + [code];
      }
    }
    selected := SortDedup(selected);
  }

  lemma GroupWanted(o: Order, selected: seq<u16>, grouped: map<u8, seq<u16>>, equip: u8)
    requires ValidOrder(o) && equip < 0x10 && Groups(grouped, selected)
    requires WantedCodes(o, selected)
    ensures equip in grouped <==> Touched(o, equip)
    ensures equip in grouped ==> WantedItems(o, equip, grouped[equip])
  {
    if Touched(o, equip) {
      var item: u16 :| item < 0x1000 && Wanted(o, CodeOf(equip, item));
      var k :| 0 <= k < |selected| && selected[k] == CodeOf(equip, item);
      assert EquipOf(selected[k]) == equip;
    }
    if equip in grouped {
      assert Mentions(selected, equip) && HoldsItems(grouped[equip], equip, selected);
      var k :| 0 <= k < |selected| && EquipOf(selected[k]) == equip;
      assert selected[k] == CodeOf(equip, ItemOf(selected[k]));
    }
  }

  // -- The transaction ------------------------------------------------------------------------

  datatype Outcome =
    | Configured
    | NoAnswer
    | BadRanges(error: ControlError)
    | ExplicitOutOfRange(code: u16)
    | MaskRejected(equip: u8, status: u32)
    | ControlFailure(error: ControlError)

  const RANGE_QUERY: seq<u8> := [LOG_CONFIG_F, 0, 0, 0] + Le32Bytes(RETRIEVE_ID_RANGES)

  lemma WriteBuilt(o: Order, equip: u8, items: seq<u16>, packet: seq<u8>)
    requires ValidOrder(o) && equip < 0x10
    requires WantedItems(o, equip, items)
    requires |packet| == 16 + o.ranges[equip] / 8 + 1
    requires packet[..16] == [0x73, 0, 0, 0, 3, 0, 0, 0] + Le32Bytes(equip) + Le32Bytes(o.ranges[equip])
    requires forall item: nat :: Enabled(packet[16..], item) <==> item in items
    ensures IsWrite(o, packet, equip)
  {
    assert forall k | 0 <= k < 16 :: packet[k] == packet[..16][k];
  }

  lemma ItemsFit(o: Order, equip: u8, items: seq<u16>)
    requires ValidOrder(o) && equip < 0x10 && ExplicitFits(o, equip)
    requires WantedItems(o, equip, items)
    ensures forall i | 0 <= i < |items| :: items[i] <= o.ranges[equip]
  {
    forall i | 0 <= i < |items| ensures items[i] <= o.ranges[equip] {
      assert items[i] in items;
      var code := CodeOf(equip, items[i]);
      assert EquipOf(code) == equip && ItemOf(code) == items[i];
    }
  }

  predicate NoSmallerUnsupported(o: Order, equip: u8, code: u16)
    requires ValidOrder(o)
  {
    forall k | 0 <= k < |o.explicit| && EquipOf(o.explicit[k]) == equip && !Supported(o, o.explicit[k]) ::
      code <= o.explicit[k]
  }

  /** A code is supported up to its equipment's last item and including it. */
  lemma SupportedExactly(o: Order, equip: u8, item: u16)
    requires ValidOrder(o) && equip < 0x10 && item < 0x1000
    ensures Supported(o, equip * 0x1000 + item) <==> item <= o.ranges[equip]
  {
  }

  /** The request for one code alone can be built exactly if the modem supports the code. */
  method RequestOne(o: Order, code: u16) returns (request: Result<seq<u8>, ControlError>)
    requires ValidOrder(o)
    ensures request.Ok? <==> Supported(o, code)
  {
    request := SetMaskRequest(EquipOf(code), o.ranges[EquipOf(code)], [ItemOf(code)]);
    assert [ItemOf(code)][0] == ItemOf(code);
  }

  /** The request for one equipment; it can always be built. */
  method BuildWrite(o: Order, equip: u8, items: seq<u16>) returns (request: Result<seq<u8>, ControlError>)
    requires ValidOrder(o) && equip < 0x10 && ExplicitFits(o, equip) && WantedItems(o, equip, items)
    ensures request.Ok? && IsWrite(o, request.value, equip)
  {
    ItemsFit(o, equip, items);
    request := SetMaskRequest(equip, o.ranges[equip], items);
    WriteBuilt(o, equip, items, request.value);
  }

  /** The first explicit code of one equipment that the modem does not support, in item order. */
  method FirstUnsupported(o: Order, equip: u8, items: seq<u16>) returns (bad: Option<u16>)
    requires ValidOrder(o) && equip < 0x10 && Ascending(items)
    requires WantedItems(o, equip, items)
    ensures bad.None? <==> ExplicitFits(o, equip)
    ensures bad.Some? ==> bad.value in o.explicit && EquipOf(bad.value) == equip && !Supported(o, bad.value)
    ensures bad.Some? ==> NoSmallerUnsupported(o, equip, bad.value)
  {
    var lastItem := o.ranges[equip];
    for i := 0 to |items|
      invariant forall j | 0 <= j < i ::
                  items[j] < 0x1000 && (CodeOf(equip, items[j]) in o.explicit ==> items[j] <= lastItem)
    {
      assert items[i] in items;
      var code := CodeOf(equip, items[i]);
      assert EquipOf(code) == equip && ItemOf(code) == items[i];
      if code in o.explicit && items[i] > lastItem {
        forall k | 0 <= k < |o.explicit| && EquipOf(o.explicit[k]) == equip && !Supported(o, o.explicit[k])
          ensures code <= o.explicit[k]
        {
          var item := ItemOf(o.explicit[k]);
          assert o.explicit[k] == CodeOf(equip, item) && Wanted(o, CodeOf(equip, item));
          assert item in items;
        }
        return Some(code);
      }
    }
    forall k | 0 <= k < |o.explicit| && EquipOf(o.explicit[k]) == equip ensures Supported(o, o.explicit[k]) {
      var item := ItemOf(o.explicit[k]);
      assert o.explicit[k] == CodeOf(equip, item) && Wanted(o, CodeOf(equip, item));
      assert item in items;
    }
    return None;
  }

  lemma QueryIsNoWrite()
    ensures RANGE_QUERY == [0x73, 0, 0, 0, 1, 0, 0, 0] && ReadSetMask(RANGE_QUERY) == None
  {
    SmallWord(RETRIEVE_ID_RANGES);
    hide Le32Bytes, Le32;
  }

  ghost predicate AllZero(statuses: seq<u32>) {
    forall k | 0 <= k < |statuses| :: statuses[k] == 0
  }

  /** All explicit codes of the equipments below `n` are supported. */
  predicate ExplicitFitsBelow(o: Order, n: nat)
    requires ValidOrder(o)
  {
    forall equip: nat | equip < n :: ExplicitFits(o, equip)
  }

  /**
   What a run with this outcome has sent after the range query, and the statuses it got back.
   Writes go to the first targets, one each, every one but possibly the last acknowledged.
   */
  ghost predicate Explains(o: Order, writes: seq<seq<u8>>, statuses: seq<u32>, outcome: Outcome)
    requires ValidOrder(o)
  {
    var targets, n := Targets(o, 0x10), |writes|;
    && Writes(o, writes, targets)
    && match outcome
       case Configured =>
         n == |targets| == |statuses| && AllZero(statuses) && ExplicitFitsBelow(o, 0x10)
       case ExplicitOutOfRange(code) =>
         && n < |targets| && n == |statuses| && AllZero(statuses)
         && code in o.explicit && !Supported(o, code) && targets[n] == EquipOf(code)
         && ExplicitFitsBelow(o, EquipOf(code)) && NoSmallerUnsupported(o, EquipOf(code), code)
       case MaskRejected(equip, status) =>
         && 0 < n == |statuses| && AllZero(statuses[..n - 1]) && statuses[n - 1] == status != 0
         && targets[n - 1] == equip && ExplicitFitsBelow(o, equip + 1)
       case NoAnswer =>
         0 < n == |statuses| + 1 && AllZero(statuses) && ExplicitFitsBelow(o, targets[n - 1] + 1)
       case BadRanges(_) => false
       case ControlFailure(_) => false
  }

  lemma UnsupportedShows(o: Order, code: u16, n: nat)
    requires ValidOrder(o) && code in o.explicit && !Supported(o, code)
    ensures ExplicitFitsBelow(o, n) ==> n <= EquipOf(code)
    ensures forall smallest: u16 |
              EquipOf(smallest) == EquipOf(code) && NoSmallerUnsupported(o, EquipOf(code), smallest) :: smallest <= code
  {
    hide Supported;
    var k :| 0 <= k < |o.explicit| && o.explicit[k] == code;
    if n > EquipOf(code) {
      assert !ExplicitFits(o, EquipOf(code));
    }
  }

  /** The order and the statuses received decide how a run ends and how much it has written. */
  lemma OutcomeDetermined(o: Order, statuses: seq<u32>, writes: seq<seq<u8>>, outcome: Outcome,
                          writes': seq<seq<u8>>, outcome': Outcome)
    requires ValidOrder(o)
    requires Explains(o, writes, statuses, outcome) && Explains(o, writes', statuses, outcome')
    ensures outcome == outcome' && |writes| == |writes'|
  {
    hide IsWrite, Targets, Supported, ExplicitFitsBelow, NoSmallerUnsupported;
    if outcome.ExplicitOutOfRange? {
      UnsupportedShows(o, outcome.code, EquipOf(outcome.code) + 1);
    }
    if outcome'.ExplicitOutOfRange? {
      UnsupportedShows(o, outcome'.code, EquipOf(outcome'.code) + 1);
    }
  }

  lemma NextTarget(o: Order, equip: nat)
    requires ValidOrder(o) && equip < 0x10
    ensures |Targets(o, equip)| <= |Targets(o, 0x10)|
    ensures Touched(o, equip) ==>
              var n := |Targets(o, equip)|;
              |Targets(o, equip + 1)| == n + 1 && n < |Targets(o, 0x10)| && Targets(o, 0x10)[n] == equip
    ensures !Touched(o, equip) ==> Targets(o, equip + 1) == Targets(o, equip)
  {
    hide Touched;
    TargetsExtend(o, equip + 1, 0x10);
  }

  /** The equipments below `n` are dealt with: written and acknowledged, or not concerned. */
  ghost predicate Done(o: Order, writes: seq<seq<u8>>, statuses: seq<u32>, n: nat)
    requires ValidOrder(o) && n <= 0x10
  {
    && Writes(o, writes, Targets(o, 0x10)) && |writes| == |Targets(o, n)| == |statuses|
    && AllZero(statuses) && ExplicitFitsBelow(o, n)
  }

  lemma DoneSkipping(o: Order, writes: seq<seq<u8>>, statuses: seq<u32>, equip: nat)
    requires ValidOrder(o) && equip < 0x10 && Done(o, writes, statuses, equip) && !Touched(o, equip)
    ensures Done(o, writes, statuses, equip + 1)
  {
    hide IsWrite, Touched, ExplicitFits;
    NextTarget(o, equip);
    UntouchedFits(o, equip);
  }

  lemma DoneWriting(o: Order, writes: seq<seq<u8>>, statuses: seq<u32>, equip: nat, packet: seq<u8>, status: u32)
    requires ValidOrder(o) && equip < 0x10 && Done(o, writes, statuses, equip) && Touched(o, equip)
    requires ExplicitFits(o, equip) && IsWrite(o, packet, equip)
    ensures status == 0 ==> Done(o, writes + [packet], statuses + [status], equip + 1)
    ensures status != 0 ==> Explains(o, writes + [packet], statuses + [status], MaskRejected(equip, status))
    ensures Explains(o, writes + [packet], statuses, NoAnswer)
  {
    hide IsWrite, Touched, ExplicitFits;
    NextTarget(o, equip);
    assert (statuses + [status])[..|statuses|] == statuses;
  }

  lemma DoneUnsupported(o: Order, writes: seq<seq<u8>>, statuses: seq<u32>, equip: nat, code: u16)
    requires ValidOrder(o) && equip < 0x10 && Done(o, writes, statuses, equip) && Touched(o, equip)
    requires code in o.explicit && EquipOf(code) == equip && !Supported(o, code)
    requires NoSmallerUnsupported(o, equip, code)
    ensures Explains(o, writes, statuses, ExplicitOutOfRange(code))
  {
    hide IsWrite, Touched, ExplicitFits, Supported;
    NextTarget(o, equip);
  }

  /** The status in the first answer to a SET_MASK request among these bytes, if there is one. */
  function StatusHeard(bytes: seq<u8>): Option<u32> {
    match Heard(bytes, SET_MASK)
    case None => None
    case Some(packet) =>
      match ParseLogConfigHeader(packet)
      case Ok((header, _)) => Some(header.status)
      case Err(_) => None
  }

  /** A modem's answer to a SET_MASK request, in bytes on the wire, is heard with its status. */
  lemma StatusRead(status: u32, data: seq<u8>)
    ensures StatusHeard(Hdlc.Encode([0x73, 0, 0, 0, 3, 0, 0, 0] + Le32Bytes(status) + data)) == Some(status)
  {
    hide Hdlc.Encode, Heard, ParseLogConfigHeader, Le32Bytes;
    var reply := [0x73, 0, 0, 0, 3, 0, 0, 0] + Le32Bytes(status) + data;
    SmallWord(SET_MASK);
    assert reply == [0x73, 0, 0, 0] + Le32Bytes(SET_MASK) + Le32Bytes(status) + data;
    ReplyHeard(SET_MASK, status, data, SET_MASK);
    ReplyRead(SET_MASK, status, data);
  }

  /** The bytes heard after each write: every write but possibly the last was answered. */
  predicate Answers(heard: seq<seq<u8>>, statuses: seq<u32>) {
    && |statuses| <= |heard| <= |statuses| + 1
    && (forall k | 0 <= k < |statuses| :: StatusHeard(heard[k]) == Some(statuses[k]))
    && (|statuses| < |heard| ==> StatusHeard(heard[|statuses|]) == None)
  }

  lemma AnswersOne(heard: seq<seq<u8>>, statuses: seq<u32>, during: seq<u8>)
    requires Answers(heard, statuses) && |heard| == |statuses|
    ensures StatusHeard(during).None? ==> Answers(heard + [during], statuses)
    ensures StatusHeard(during).Some? ==> Answers(heard + [during], statuses + [StatusHeard(during).value])
    ensures Join(heard + [during]) == Join(heard) + during
  {
    hide StatusHeard;
    JoinAppend(heard, [during]);
    assert [during][1..] == [];
  }

  method WriteMasks(port: Port, o: Order)
    returns (outcome: Outcome, ghost writes: seq<seq<u8>>, ghost statuses: seq<u32>, ghost heard: seq<seq<u8>>)
    requires ValidOrder(o)
    modifies port, port.incoming
    ensures port.written == old(port.written) + Hdlc.EncodeAll(writes)
    ensures old(port.incoming.remaining) == Join(heard) + port.incoming.remaining
    ensures |heard| == |writes| && Answers(heard, statuses)
    ensures Explains(o, writes, statuses, outcome)
    ensures Patient(old(port.incoming.schedule)) && outcome.NoAnswer? ==> port.incoming.remaining == []
  {
    hide Hdlc.Encode, Answers, StatusHeard, Supported, Touched, ExplicitFits, Explains, Done, IsWrite, Patient;
    hide WantedCodes, WantedItems, Groups, HoldsItems, Hdlc.EncodeAll, Join, Targets;
    writes, statuses, heard := [], [], [];
    NothingHeardYet();
    var selected := Select(o);
    var grouped := GroupLogCodes(selected);
    NothingDone(o);
    for equip := 0 to 0x10
      invariant Done(o, writes, statuses, equip)
      invariant |heard| == |writes| == |statuses| && Answers(heard, statuses)
      invariant old(port.incoming.remaining) == Join(heard) + port.incoming.remaining
      invariant Patient(old(port.incoming.schedule)) ==> Patient(port.incoming.schedule)
      invariant port.written == old(port.written) + Hdlc.EncodeAll(writes)
    {
      GroupWanted(o, selected, grouped, equip);
      if equip !in grouped {
        DoneSkipping(o, writes, statuses, equip);
        continue;
      }
      var items := grouped[equip];
      var bad := FirstUnsupported(o, equip, items);
      if bad.Some? {
        DoneUnsupported(o, writes, statuses, equip, bad.value);
        return ExplicitOutOfRange(bad.value), writes, statuses, heard;
      }
      var request := BuildWrite(o, equip, items);
      var status, during := Exchange(port, request.value);
      AnswersOne(heard, statuses, during);
      EncodeAllOne(writes, request.value);
      DoneWriting(o, writes, statuses, equip, request.value, if status.Some? then status.value else 0);
      writes, heard := writes + [request.value], heard + [during];
      if status.None? {
        return NoAnswer, writes, statuses, heard;
      }
      statuses := statuses + [status.value];
      if status.value != 0 {
        return MaskRejected(equip, status.value), writes, statuses, heard;
      }
    }
    AllDone(o, writes, statuses);
    return Configured, writes, statuses, heard;
  }

  lemma NothingDone(o: Order)
    requires ValidOrder(o)
    ensures Done(o, [], [], 0) && Hdlc.EncodeAll([]) == []
  {
  }

  lemma AllDone(o: Order, writes: seq<seq<u8>>, statuses: seq<u32>)
    requires ValidOrder(o) && Done(o, writes, statuses, 0x10)
    ensures Explains(o, writes, statuses, Configured)
  {
  }

  lemma NothingHeardYet()
    ensures Answers([], []) && Join<u8>([]) == []
  {
  }

  lemma RangesCount(packet: seq<u8>, ranges: seq<u32>)
    requires RangesReply(packet, ranges)
    ensures |ranges| == 16
  {
  }

  lemma KeepsWaiting(events: seq<Hint>, rest: seq<Hint>)
    ensures Patient(events + rest) ==> Waited(events).Some? && Patient(rest)
  {
    if Patient(events + rest) {
      PatientParts(events, rest);
    }
  }

  /** Send one request and read the status of the answer, if one comes. */
  method Exchange(port: Port, packet: seq<u8>) returns (status: Option<u32>, ghost heard: seq<u8>)
    modifies port, port.incoming
    ensures port.written == old(port.written) + Hdlc.Encode(packet)
    ensures old(port.incoming.remaining) == heard + port.incoming.remaining
    ensures status == StatusHeard(heard)
    ensures Patient(old(port.incoming.schedule)) ==>
              Patient(port.incoming.schedule) && (status.None? ==> port.incoming.remaining == [])
  {
    hide Waited, Patient;
    port.Send(packet);
    var answer;
    ghost var events;
    answer, heard, events := port.WaitForResponse(SET_MASK);
    KeepsWaiting(events, port.incoming.schedule);
    if answer.None? {
      return None, heard;
    }
    HeardParses(heard, SET_MASK);
    return Some(ParseLogConfigHeader(answer.value).value.0.status), heard;
  }

  /**
   The whole run. `heard` are the bytes taken from the line while waiting for the ranges and then
   after each write; without an answer to the range query there is no order and nothing is written.
   No answer means that all there was to read was heard, unless the agent gave up for lack of reads.
   */
  method Configure(port: Port, explicit: seq<u16>, offered: seq<u16>)
    returns (outcome: Outcome, ghost order: Option<Order>, ghost heard: seq<u8>,
             ghost writes: seq<seq<u8>>, ghost statuses: seq<u32>, ghost later: seq<seq<u8>>)
    modifies port, port.incoming
    ensures port.written == old(port.written) + Hdlc.Encode(RANGE_QUERY) + Hdlc.EncodeAll(writes)
    ensures old(port.incoming.remaining) == heard + (Join(later) + port.incoming.remaining)
    ensures |later| == |writes| && Answers(later, statuses)
    ensures order.None? ==> writes == []
    ensures order.None? ==>
              match Heard(heard, RETRIEVE_ID_RANGES)
              case None => outcome == NoAnswer
              case Some(reply) =>
                outcome == BadRanges(RangesError(reply)) && forall ranges :: !RangesReply(reply, ranges)
    ensures order.Some? ==>
              && order.value.explicit == explicit && order.value.offered == offered && ValidOrder(order.value)
              && Heard(heard, RETRIEVE_ID_RANGES).Some?
              && RangesReply(Heard(heard, RETRIEVE_ID_RANGES).value, order.value.ranges)
              && Explains(order.value, writes, statuses, outcome)
    ensures Patient(old(port.incoming.schedule)) && outcome.NoAnswer? ==> port.incoming.remaining == []
  {
    hide Heard, Hdlc.Encode, Explains, Answers, RangesReply, RangesError, ReadU32, Join, Waited, Patient, RANGE_QUERY;
    order, writes, statuses, later := None, [], [], [];
    NothingHeardYet();
    port.Send(RANGE_QUERY);
    var answer;
    ghost var events;
    answer, heard, events := port.WaitForResponse(RETRIEVE_ID_RANGES);
    KeepsWaiting(events, port.incoming.schedule);
    if answer.None? {
      return NoAnswer, order, heard, writes, statuses, later;
    }
    var parsed := ParseIdRangesResponse(answer.value);
    if parsed.Err? {
      return BadRanges(parsed.error), order, heard, writes, statuses, later;
    }
    RangesCount(answer.value, parsed.value);
    order := Some(Order(explicit, offered, parsed.value));
    outcome, writes, statuses, later := WriteMasks(port, Order(explicit, offered, parsed.value));
  }

  lemma ExplicitTouches(o: Order, k: nat)
    requires ValidOrder(o) && k < |o.explicit|
    ensures Touched(o, EquipOf(o.explicit[k]))
  {
    var code := o.explicit[k];
    assert code == CodeOf(EquipOf(code), ItemOf(code));
    assert Wanted(o, CodeOf(EquipOf(code), ItemOf(code)));
  }

  lemma UntouchedFits(o: Order, equip: nat)
    requires ValidOrder(o) && equip < 0x10 && !Touched(o, equip)
    ensures ExplicitFits(o, equip)
  {
    hide Touched, Supported;
    forall k | 0 <= k < |o.explicit| ensures EquipOf(o.explicit[k]) != equip {
      ExplicitTouches(o, k);
    }
  }

  lemma HeardParses(bytes: seq<u8>, operation: u32)
    ensures Heard(bytes, operation).Some? ==> ParseLogConfigHeader(Heard(bytes, operation).value).Ok?
  {
    FirstResponseAnswers(Hdlc.Decode(bytes), operation);
  }

  lemma {:induction false} EncodeAllOne(packets: seq<seq<u8>>, packet: seq<u8>)
    ensures Hdlc.EncodeAll(packets + [packet]) == Hdlc.EncodeAll(packets) + Hdlc.Encode(packet)
  {
    hide Hdlc.Encode;
    if packets == [] {
      assert [packet][1..] == [];
    } else {
      assert (packets + [packet])[1..] == packets[1..] + [packet];
      EncodeAllOne(packets[1..], packet);
    }
  }

  // -- What the modem is left with ------------------------------------------------------------

  type Masks = map<u32, seq<u8>>

  type Setting = (u32, u32, seq<u8>)

  /** The SET_MASK requests among some packets: equipment, last item and mask bytes. */
  function Settings(packets: seq<seq<u8>>): seq<Setting>
    decreases |packets|
  {
    if packets == [] then []
    else
      var n := |packets| - 1;
      Settings(packets[..n]) + if ReadSetMask(packets[n]).Some? then [ReadSetMask(packets[n]).value] else []
  }

  /** Whether request `k` was granted; `last` is the fate of one whose answer was not heard. */
  predicate Granted(statuses: seq<u32>, last: bool, k: nat) {
    if k < |statuses| then statuses[k] == 0 else last
  }

  /** A modem that replaces the mask of an equipment when it grants the request, and else does nothing. */
  function Obey(masks: Masks, settings: seq<Setting>, statuses: seq<u32>, last: bool): Masks
    decreases |settings|
  {
    if settings == [] then masks
    else
      var n := |settings| - 1;
      var before := Obey(masks, settings[..n], statuses, last);
      if Granted(statuses, last, n) then before[settings[n].0 := settings[n].2] else before
  }

  function Intact(items: seq<Hdlc.Frame>): seq<seq<u8>> {
    if items == [] then []
    else (if items[0].Ok? then [items[0].value] else []) + Intact(items[1..])
  }

  /** The masks after the bytes on the wire, when the requests in them were answered like this. */
  function ModemAfter(masks: Masks, wire: seq<u8>, statuses: seq<u32>, last: bool): Masks {
    Obey(masks, Settings(Intact(Hdlc.Decode(wire))), statuses, last)
  }

  ghost predicate EnablesExactly(o: Order, mask: seq<u8>, equip: u32)
    requires ValidOrder(o)
  {
    equip < 0x10 && forall item: nat :: Enabled(mask, item) <==> item < 0x1000 && Wanted(o, CodeOf(equip, item))
  }

  lemma {:induction false} IntactReceived(packets: seq<seq<u8>>)
    requires forall k | 0 <= k < |packets| :: packets[k] != []
    ensures Intact(Hdlc.ReceivedAll(packets)) == packets
  {
    if packets != [] {
      IntactReceived(packets[1..]);
    }
  }

  lemma WritesNonempty(o: Order, packet: seq<u8>, equip: u8)
    requires ValidOrder(o) && IsWrite(o, packet, equip)
    ensures packet != []
  {
  }

  lemma SettingsOne(packets: seq<seq<u8>>, packet: seq<u8>)
    ensures Settings(packets + [packet]) ==
            Settings(packets) + if ReadSetMask(packet).Some? then [ReadSetMask(packet).value] else []
  {
    hide ReadSetMask;
    assert (packets + [packet])[..|packets|] == packets;
  }

  lemma ObeyOne(masks: Masks, settings: seq<Setting>, setting: Setting, statuses: seq<u32>, last: bool)
    ensures Obey(masks, settings + [setting], statuses, last) ==
            var before := Obey(masks, settings, statuses, last);
            if Granted(statuses, last, |settings|) then before[setting.0 := setting.2] else before
  {
    assert (settings + [setting])[..|settings|] == settings;
  }

  lemma WriteEnables(o: Order, packet: seq<u8>, equip: u8)
    requires ValidOrder(o) && IsWrite(o, packet, equip)
    ensures ReadSetMask(packet).Some? && ReadSetMask(packet).value.0 == equip
    ensures EnablesExactly(o, ReadSetMask(packet).value.2, equip)
  {
    hide ReadSetMask, Enabled, Wanted;
  }

  /** One equipment's mask after some requests: as wanted if it was written to, else as before. */
  ghost predicate Left(o: Order, masks: Masks, after: Masks, written: seq<u8>, equip: u32)
    requires ValidOrder(o)
  {
    if equip in written then equip in after && EnablesExactly(o, after[equip], equip)
    else (equip in after <==> equip in masks) && (equip in after ==> after[equip] == masks[equip])
  }

  /** The requests of a run are its writes. */
  lemma {:induction false} RunSettings(o: Order, writes: seq<seq<u8>>)
    requires ValidOrder(o) && Writes(o, writes, Targets(o, 0x10))
    ensures var settings := Settings([RANGE_QUERY] + writes);
            && |settings| == |writes|
            && forall k | 0 <= k < |writes| ::
                 settings[k].0 == Targets(o, 0x10)[k] && EnablesExactly(o, settings[k].2, Targets(o, 0x10)[k])
    decreases |writes|
  {
    hide Targets, ReadSetMask, IsWrite, Settings, EnablesExactly;
    if writes == [] {
      QueryIsNoWrite();
      SettingsOne([], RANGE_QUERY);
      NoSettings();
      assert [RANGE_QUERY] + writes == [] + [RANGE_QUERY];
    } else {
      var n := |writes| - 1;
      RunSettings(o, writes[..n]);
      SettingsOne([RANGE_QUERY] + writes[..n], writes[n]);
      assert [RANGE_QUERY] + writes == [RANGE_QUERY] + writes[..n] + [writes[n]];
      WriteEnables(o, writes[n], Targets(o, 0x10)[n]);
    }
  }

  lemma NoSettings()
    ensures Settings([]) == []
  {
  }

  /** Requests granted up to `n` and not after that leave exactly the first `n` masks as wanted. */
  lemma {:induction false} Obeyed(o: Order, settings: seq<Setting>, statuses: seq<u32>, last: bool,
                                  n: nat, masks: Masks, equip: u32)
    requires ValidOrder(o) && n <= |settings| <= |Targets(o, 0x10)|
    requires forall k: nat | k < |settings| ::
               && settings[k].0 == Targets(o, 0x10)[k] && EnablesExactly(o, settings[k].2, Targets(o, 0x10)[k])
               && (Granted(statuses, last, k) <==> k < n)
    ensures Left(o, masks, Obey(masks, settings, statuses, last), Targets(o, 0x10)[..n], equip)
    decreases |settings|
  {
    hide Targets, Obey, EnablesExactly, Granted;
    var targets := Targets(o, 0x10);
    if settings == [] {
      NothingObeyed(masks, statuses, last);
    } else {
      var m := |settings| - 1;
      assert settings == settings[..m] + [settings[m]];
      ObeyOne(masks, settings[..m], settings[m], statuses, last);
      Obeyed(o, settings[..m], statuses, last, if n <= m then n else m, masks, equip);
      if n > m {
        assert targets[..n] == targets[..m] + [targets[m]];
      }
    }
  }

  lemma NothingObeyed(masks: Masks, statuses: seq<u32>, last: bool)
    ensures Obey(masks, [], statuses, last) == masks
  {
  }

  /** How many of a run's `n` writes take effect; `last` matters only if an answer was not heard. */
  function Effective(outcome: Outcome, n: nat, last: bool): nat {
    if n > 0 && (outcome.MaskRejected? || (outcome.NoAnswer? && !last)) then n - 1 else n
  }

  lemma GrantedExactly(o: Order, writes: seq<seq<u8>>, statuses: seq<u32>, outcome: Outcome, last: bool, k: nat)
    requires ValidOrder(o) && Explains(o, writes, statuses, outcome) && k < |writes|
    ensures Granted(statuses, last, k) <==> k < Effective(outcome, |writes|, last)
  {
    hide Targets, Writes, ExplicitFitsBelow, Supported, NoSmallerUnsupported;
    if outcome.MaskRejected? && k < |writes| - 1 {
      assert statuses[..|writes| - 1][k] == statuses[k];
    }
  }

  /**
   The masks in a modem that received what a run wrote, whatever the outcome: wanted items exactly
   where a write took effect, which leaves out a rejected last one, and all other masks as before.
   */
  lemma MasksLeft(o: Order, writes: seq<seq<u8>>, statuses: seq<u32>, outcome: Outcome, last: bool,
                  masks: Masks, equip: u32)
    requires ValidOrder(o) && Explains(o, writes, statuses, outcome)
    ensures |writes| <= |Targets(o, 0x10)|
    ensures var wire := Hdlc.Encode(RANGE_QUERY) + Hdlc.EncodeAll(writes);
            var reached := Targets(o, 0x10)[..Effective(outcome, |writes|, last)];
            Left(o, masks, ModemAfter(masks, wire, statuses, last), reached, equip)
  {
    ExplainsWrites(o, writes, statuses, outcome);
    forall k: nat | k < |writes|
      ensures Granted(statuses, last, k) <==> k < Effective(outcome, |writes|, last)
    {
      GrantedExactly(o, writes, statuses, outcome, last, k);
    }
    hide Hdlc.Encode, Targets, Writes, Left, Obey, Settings, Granted, Explains, EnablesExactly;
    WireDecodes(o, writes);
    RunSettings(o, writes);
    Obeyed(o, Settings([RANGE_QUERY] + writes), statuses, last, Effective(outcome, |writes|, last), masks, equip);
  }

  lemma ExplainsWrites(o: Order, writes: seq<seq<u8>>, statuses: seq<u32>, outcome: Outcome)
    requires ValidOrder(o) && Explains(o, writes, statuses, outcome)
    ensures Writes(o, writes, Targets(o, 0x10)) && |writes| <= |Targets(o, 0x10)|
  {
  }

  lemma WireDecodes(o: Order, writes: seq<seq<u8>>)
    requires ValidOrder(o) && Writes(o, writes, Targets(o, 0x10))
    ensures Intact(Hdlc.Decode(Hdlc.Encode(RANGE_QUERY) + Hdlc.EncodeAll(writes))) == [RANGE_QUERY] + writes
  {
    hide Hdlc.Decode, Hdlc.Encode, Targets, IsWrite;
    var packets := [RANGE_QUERY] + writes;
    assert packets[1..] == writes;
    Hdlc.RoundTrip(packets);
    forall k | 0 <= k < |packets| ensures packets[k] != [] {
      if k > 0 {
        WritesNonempty(o, writes[k - 1], Targets(o, 0x10)[k - 1]);
      }
    }
    IntactReceived(packets);
  }

  /** A run that ends before there is an order has sent the query alone and changes no mask. */
  lemma QueryChangesNothing(masks: Masks, statuses: seq<u32>, last: bool)
    ensures ModemAfter(masks, Hdlc.Encode(RANGE_QUERY) + Hdlc.EncodeAll([]), statuses, last) == masks
  {
    hide Hdlc.Decode, Hdlc.Encode, Settings, Obey;
    Hdlc.RoundTrip([RANGE_QUERY]);
    assert [RANGE_QUERY][1..] == [];
    IntactReceived([RANGE_QUERY]);
    QueryIsNoWrite();
    SettingsOne([], RANGE_QUERY);
    NoSettings();
    assert [] + [RANGE_QUERY] == [RANGE_QUERY];
    NothingObeyed(masks, statuses, last);
  }

  lemma RejectedIsLast(o: Order, writes: seq<seq<u8>>, statuses: seq<u32>, equip: u8, status: u32)
    requires ValidOrder(o) && Explains(o, writes, statuses, MaskRejected(equip, status))
    ensures 0 < |writes| <= |Targets(o, 0x10)| && Targets(o, 0x10)[|writes| - 1] == equip
  {
    hide Targets, IsWrite, ExplicitFitsBelow;
  }

  /** A rejected mask is left as it was. */
  lemma RejectedUnchanged(o: Order, writes: seq<seq<u8>>, statuses: seq<u32>, equip: u8, status: u32, last: bool,
                          masks: Masks)
    requires ValidOrder(o) && Explains(o, writes, statuses, MaskRejected(equip, status))
    ensures var after := ModemAfter(masks, Hdlc.Encode(RANGE_QUERY) + Hdlc.EncodeAll(writes), statuses, last);
            (equip in after <==> equip in masks) && (equip in after ==> after[equip] == masks[equip])
  {
    var n, targets := |writes|, Targets(o, 0x10);
    RejectedIsLast(o, writes, statuses, equip, status);
    hide Hdlc.Encode, Hdlc.EncodeAll, Targets, EnablesExactly, ModemAfter, Explains;
    MasksLeft(o, writes, statuses, MaskRejected(equip, status), last, masks, equip);
    TargetsAscend(o, 0x10);
    assert equip !in targets[..n - 1];
  }

  lemma SuccessReachesAll(o: Order, writes: seq<seq<u8>>, statuses: seq<u32>)
    requires ValidOrder(o) && Explains(o, writes, statuses, Configured)
    ensures Writes(o, writes, Targets(o, 0x10)) && Targets(o, 0x10)[..|writes|] == Targets(o, 0x10)
    ensures forall equip: nat | equip < 0x10 :: ExplicitFits(o, equip)
  {
    hide IsWrite, ExplicitFits, Targets;
  }

  /** A run succeeds only if every explicit code is supported. */
  lemma SuccessIsStrict(o: Order, writes: seq<seq<u8>>, statuses: seq<u32>, code: u16)
    requires ValidOrder(o) && Explains(o, writes, statuses, Configured) && code in o.explicit
    ensures Supported(o, code)
  {
    hide Explains, Supported;
    SuccessReachesAll(o, writes, statuses);
    assert ExplicitFits(o, EquipOf(code));
  }

  /** After a successful run every touched mask is exactly what was wanted; no other mask changed. */
  lemma SuccessIsExact(o: Order, writes: seq<seq<u8>>, statuses: seq<u32>, last: bool, masks: Masks, equip: u32)
    requires ValidOrder(o) && Explains(o, writes, statuses, Configured)
    ensures var after := ModemAfter(masks, Hdlc.Encode(RANGE_QUERY) + Hdlc.EncodeAll(writes), statuses, last);
            if Touched(o, equip) then equip in after && EnablesExactly(o, after[equip], equip)
            else (equip in after <==> equip in masks) && (equip in after ==> after[equip] == masks[equip])
  {
    hide Hdlc.Encode, Hdlc.EncodeAll, Touched, Targets, EnablesExactly, ModemAfter, Explains, Writes;
    SuccessReachesAll(o, writes, statuses);
    MasksLeft(o, writes, statuses, Configured, last, masks, equip);
    TargetsAscend(o, 0x10);
    TouchedBounded(o, equip);
  }

  lemma TouchedBounded(o: Order, equip: nat)
    requires ValidOrder(o)
    ensures Touched(o, equip) ==> equip < 0x10
  {
  }

  // -- Ranges are checked one equipment at a time -----------------------------------------------

  lemma FirstTarget(o: Order, equip: nat)
    requires ValidOrder(o) && Touched(o, equip)
    ensures var targets := Targets(o, 0x10);
            targets != [] && targets[0] <= equip
            && (targets[0] == equip <==> forall e: nat | e < equip :: !Touched(o, e))
  {
    hide Touched, Targets;
    TargetsAscend(o, 0x10);
    TouchedBounded(o, equip);
    var targets := Targets(o, 0x10);
    assert equip in targets;
    assert targets[0] in targets;
    forall e: nat | e < equip && Touched(o, e) ensures targets[0] < equip {
      TouchedBounded(o, e);
      assert e in targets;
    }
  }

  /** An explicit code that the modem does not support, and nothing wanted of a lower equipment. */
  predicate UnsupportedFirst(o: Order, k: nat)
    requires ValidOrder(o)
  {
    && k < |o.explicit| && !Supported(o, o.explicit[k])
    && forall e: nat | e < EquipOf(o.explicit[k]) :: !Touched(o, e)
  }

  lemma StopsUnwritten(o: Order, writes: seq<seq<u8>>, statuses: seq<u32>, outcome: Outcome, k: nat)
    requires ValidOrder(o) && Explains(o, writes, statuses, outcome) && UnsupportedFirst(o, k)
    ensures writes == []
  {
    hide IsWrite, Touched, Supported, Targets, ExplicitFitsBelow, NoSmallerUnsupported;
    var code := o.explicit[k];
    assert code in o.explicit;
    ExplicitTouches(o, k);
    FirstTarget(o, EquipOf(code));
    TargetsAscend(o, 0x10);
    var targets, n := Targets(o, 0x10), |writes|;
    UnsupportedShows(o, code, 0x10);
    if n > 0 {
      assert targets[n - 1] in targets;
      UnsupportedShows(o, code, targets[n - 1] + 1);
      if outcome.ExplicitOutOfRange? {
        UnsupportedShows(o, code, EquipOf(outcome.code));
      }
    }
  }

  /** When some explicit code is unsupported, the order alone decides whether anything is written. */
  lemma NothingWrittenExactly(o: Order, writes: seq<seq<u8>>, statuses: seq<u32>, outcome: Outcome)
    requires ValidOrder(o) && Explains(o, writes, statuses, outcome)
    requires exists k :: 0 <= k < |o.explicit| && !Supported(o, o.explicit[k])
    ensures writes == [] <==> exists k: nat :: UnsupportedFirst(o, k)
  {
    if k: nat :| UnsupportedFirst(o, k) {
      StopsUnwritten(o, writes, statuses, outcome, k);
    } else if writes == [] {
      hide IsWrite, Touched, Supported, Targets, NoSmallerUnsupported;
      var bad :| 0 <= bad < |o.explicit| && !Supported(o, o.explicit[bad]);
      UnsupportedShows(o, o.explicit[bad], 0x10);
      var k :| 0 <= k < |o.explicit| && o.explicit[k] == outcome.code;
      ExplicitTouches(o, k);
      FirstTarget(o, EquipOf(outcome.code));
      assert UnsupportedFirst(o, k);
    }
  }

  // An order with a supported code for equipment 1 and an unsupported one for equipment 2.
  const LATE_ERROR: Order := Order([0x1001, 0x2fff], [], seq(16, _ => 0x10))
  const LATE_ERROR_WRITE: seq<u8> := [0x73, 0, 0, 0, 3, 0, 0, 0, 1, 0, 0, 0, 0x10, 0, 0, 0, 2, 0, 0]

  lemma LateErrorWanted(code: u16)
    ensures ValidOrder(LATE_ERROR)
    ensures Wanted(LATE_ERROR, code) <==> code == 0x1001 || code == 0x2fff
    ensures Supported(LATE_ERROR, 0x1001) && !Supported(LATE_ERROR, 0x2fff)
  {
  }

  lemma LateErrorTouched(equip: nat)
    ensures Touched(LATE_ERROR, equip) <==> equip == 1 || equip == 2
  {
    hide Wanted;
    LateErrorWanted(0x1001);
    LateErrorWanted(0x2fff);
    if Touched(LATE_ERROR, equip) {
      var item: u16 :| item < 0x1000 && Wanted(LATE_ERROR, CodeOf(equip, item));
      LateErrorWanted(CodeOf(equip, item));
    }
    assert CodeOf(1, 1) == 0x1001 && CodeOf(2, 0xfff) == 0x2fff;
  }

  lemma LateErrorTargets()
    ensures Targets(LATE_ERROR, 0x10) == [1, 2]
  {
    hide Touched, Targets;
    TargetsAscend(LATE_ERROR, 0x10);
    forall equip: nat ensures Touched(LATE_ERROR, equip) <==> equip == 1 || equip == 2 {
      LateErrorTouched(equip);
    }
    AscendingUnique(Targets(LATE_ERROR, 0x10), [1, 2]);
  }

  lemma LateErrorRead()
    ensures ReadSetMask(LATE_ERROR_WRITE) == Some((1, 0x10, [2, 0, 0]))
  {
    assert LATE_ERROR_WRITE[16..] == [2, 0, 0];
  }

  lemma LateErrorItem(item: nat)
    ensures Enabled([2, 0, 0], item) <==> item == 1
    ensures item < 0x1000 ==> (Wanted(LATE_ERROR, CodeOf(1, item)) <==> item == 1)
  {
    BitOfPower(1, item % 8);
    BitOfZero(item % 8);
    assert Power(1) == 2;
    hide Wanted, Bit;
    if item < 0x1000 {
      LateErrorWanted(CodeOf(1, item));
    }
  }

  lemma LateErrorWrite()
    ensures IsWrite(LATE_ERROR, LATE_ERROR_WRITE, 1)
  {
    LateErrorRead();
    hide Wanted, ReadSetMask, Enabled;
    forall item: nat
      ensures Enabled([2, 0, 0], item) <==> item < 0x1000 && Wanted(LATE_ERROR, CodeOf(1, item))
    {
      LateErrorItem(item);
    }
  }

  /** A run of that order writes to equipment 1 before it finds the unsupported code. */
  lemma LateError()
    ensures Explains(LATE_ERROR, [LATE_ERROR_WRITE], [0], ExplicitOutOfRange(0x2fff))
  {
    LateErrorTargets();
    LateErrorWrite();
    LateErrorWanted(0);
    hide IsWrite, Targets, Wanted;
  }
}
