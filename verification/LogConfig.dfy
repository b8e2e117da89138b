/** DIAG_LOG_CONFIG_F requests and responses: log codes, item masks and equipment ranges. */
module LogConfig {
  import opened Bytes

  const LOG_CONFIG_F: u8 := 0x73
  const RETRIEVE_ID_RANGES: u32 := 1
  const SET_MASK: u32 := 3

  datatype ControlError =
    | InvalidEquipmentId(id: u8)
    | ItemOutOfRange(equip: u8, item: u16, lastItem: u32)
    | NotLogConfigResponse
    | UnexpectedOperation(operation: u32)
    | RemoteStatus(status: u32)
    | TruncatedResponse

  // -- Log codes ------------------------------------------------------------------------------

  function EquipOf(code: u16): u8 {
    code / 0x1000
  }

  function ItemOf(code: u16): u16 {
    code % 0x1000
  }

  function CodeOf(equip: u8, item: u16): u16
    requires equip < 0x10 && item < 0x1000
  {
    equip * 0x1000 + item
  }

  predicate Ascending(s: seq<int>) {
    forall i, j | 0 <= i < j < |s| :: s[i] < s[j]
  }

  lemma {:induction false} AscendingUnique(a: seq<int>, b: seq<int>)
    requires Ascending(a) && Ascending(b)
    requires forall x: int :: x in a <==> x in b
    ensures a == b
    decreases |a|
  {
    assert a != [] ==> a[0] in a;
    assert b != [] ==> b[0] in b;
    if a != [] && b != [] {
      assert a[0] == b[0];
      forall x: int ensures x in a[1..] <==> x in b[1..] {
        assert x in a <==> x in b;
        assert x in a[1..] ==> x > a[0];
        assert x in b[1..] ==> x > b[0];
      }
      AscendingUnique(a[1..], b[1..]);
    }
  }

  function Insert(x: u16, s: seq<u16>): (r: seq<u16>)
    requires Ascending(s)
    ensures Ascending(r) && forall y: int :: y in r <==> y == x || y in s
    decreases |s|
  {
    if s == [] || x < s[0] then [x] + s
    else if x == s[0] then s
    else
      var tail := Insert(x, s[1..]);
      assert forall y: int :: y in s <==> y == s[0] || y in s[1..];
      assert forall k | 0 <= k < |tail| :: tail[k] in tail;
      [s[0]] + tail
  }

  /** Sorting and then dropping repetitions. */
  function SortDedup(s: seq<u16>): (r: seq<u16>)
    ensures Ascending(r) && forall y: int :: y in r <==> y in s
    decreases |s|
  {
    if s == [] then []
    else
      assert s == [s[0]] + s[1..];
      Insert(s[0], SortDedup(s[1..]))
  }

  /** `items` holds the items of one equipment that occur in `codes`, and nothing else. */
  predicate HoldsItems(items: seq<u16>, equip: u8, codes: seq<u16>) {
    && equip < 0x10
    && (forall item | item in items :: item < 0x1000)
    && (forall item: u16 | item < 0x1000 :: item in items <==> CodeOf(equip, item) in codes)
  }

  predicate Mentions(codes: seq<u16>, equip: u8) {
    exists k :: 0 <= k < |codes| && EquipOf(codes[k]) == equip
  }

  predicate Groups(grouped: map<u8, seq<u16>>, codes: seq<u16>) {
    && (forall equip: u8 :: equip in grouped <==> Mentions(codes, equip))
    && (forall equip | equip in grouped :: HoldsItems(grouped[equip], equip, codes))
  }

  lemma OneMoreCode(items: seq<u16>, equip: u8, codes: seq<u16>, code: u16)
    requires HoldsItems(items, equip, codes)
    ensures EquipOf(code) == equip ==> HoldsItems(items + [ItemOf(code)], equip, codes + [code])
    ensures EquipOf(code) != equip ==> HoldsItems(items, equip, codes + [code])
  {
    assert code == CodeOf(EquipOf(code), ItemOf(code));
  }

  lemma NoCodes(equip: u8, codes: seq<u16>)
    requires equip < 0x10 && !Mentions(codes, equip)
    ensures HoldsItems([], equip, codes)
  {
    forall item: u16 | item < 0x1000 ensures CodeOf(equip, item) !in codes {
      assert EquipOf(CodeOf(equip, item)) == equip;
    }
  }

  lemma OneMoreMention(codes: seq<u16>, code: u16, equip: u8)
    ensures Mentions(codes + [code], equip) <==> Mentions(codes, equip) || EquipOf(code) == equip
  {
    assert (codes + [code])[|codes|] == code;
    forall k | 0 <= k < |codes| ensures (codes + [code])[k] == codes[k] {}
  }

  function AddCode(grouped: map<u8, seq<u16>>, code: u16): map<u8, seq<u16>> {
    var equip := EquipOf(code);
    grouped[equip := (if equip in grouped then grouped[equip] else []) + [ItemOf(code)]]
  }

  lemma AddCodeGroups(grouped: map<u8, seq<u16>>, codes: seq<u16>, code: u16)
    requires Groups(grouped, codes)
    ensures Groups(AddCode(grouped, code), codes + [code])
  {
    hide HoldsItems, Mentions;
    var after := AddCode(grouped, code);
    forall equip: u8
      ensures equip in after <==> Mentions(codes + [code], equip)
      ensures equip in after ==> HoldsItems(after[equip], equip, codes + [code])
    {
      OneMoreMention(codes, code, equip);
      if equip in grouped {
        OneMoreCode(grouped[equip], equip, codes, code);
      } else if equip == EquipOf(code) {
        NoCodes(equip, codes);
        OneMoreCode([], equip, codes, code);
      }
    }
  }

  lemma SortedHoldsItems(items: seq<u16>, equip: u8, codes: seq<u16>)
    requires HoldsItems(items, equip, codes)
    ensures HoldsItems(SortDedup(items), equip, codes)
  {
  }

  method GroupLogCodes(codes: seq<u16>) returns (grouped: map<u8, seq<u16>>)
    ensures Groups(grouped, codes)
    ensures forall equip | equip in grouped :: Ascending(grouped[equip])
  {
    grouped := map[];
    for i := 0 to |codes|
      invariant Groups(grouped, codes[..i])
    {
      AddCodeGroups(grouped, codes[..i], codes[i]);
      assert codes[..i + 1] == codes[..i] + [codes[i]];
      var equip, item := EquipOf(codes[i]), ItemOf(codes[i]);
      var before := if equip in grouped then grouped[equip] else [];
      grouped := grouped[equip := before + [item]];
    }
    assert codes[..|codes|] == codes;
    grouped := SortGroups(grouped, codes);
  }

  method SortGroups(grouped: map<u8, seq<u16>>, ghost codes: seq<u16>) returns (sorted: map<u8, seq<u16>>)
    requires Groups(grouped, codes)
    ensures Groups(sorted, codes)
    ensures forall equip | equip in sorted :: Ascending(sorted[equip])
  {
    sorted := grouped;
    for equip := 0 to 0x10
      invariant Groups(sorted, codes)
      invariant forall e | e in sorted && e < equip :: Ascending(sorted[e])
    {
      if equip in sorted {
        SortedHoldsItems(sorted[equip], equip, codes);
        sorted := sorted[equip := SortDedup(sorted[equip])];
      }
    }
  }

  /** Grouping has one possible result, whatever the order or repetition of the codes. */
  lemma GroupsDetermined(a: map<u8, seq<u16>>, b: map<u8, seq<u16>>, codes: seq<u16>)
    requires Groups(a, codes) && Groups(b, codes)
    requires forall equip | equip in a :: Ascending(a[equip])
    requires forall equip | equip in b :: Ascending(b[equip])
    ensures a == b
  {
    hide Mentions;
    forall equip | equip in a ensures equip in b && a[equip] == b[equip] {
      assert HoldsItems(a[equip], equip, codes) && HoldsItems(b[equip], equip, codes);
      AscendingUnique(a[equip], b[equip]);
    }
  }

  // -- Item masks -----------------------------------------------------------------------------

  function Power(t: nat): (p: nat)
    ensures p > 0
  {
    if t == 0 then 1 else 2 * Power(t - 1)
  }

  predicate Bit(x: nat, t: nat)
    decreases t
  {
    if t == 0 then x % 2 == 1 else Bit(x / 2, t - 1)
  }

  /** Bitwise or. */
  function Or(x: nat, y: nat): nat
    decreases x + y
  {
    if x == 0 && y == 0 then 0
    else 2 * Or(x / 2, y / 2) + if x % 2 == 1 || y % 2 == 1 then 1 else 0
  }

  lemma {:induction false} BitOfZero(u: nat)
    ensures !Bit(0, u)
    decreases u
  {
    if u > 0 {
      BitOfZero(u - 1);
    }
  }

  lemma Halve(h: nat, d: nat)
    requires d < 2
    ensures (2 * h + d) / 2 == h && (2 * h + d) % 2 == d
  {
  }

  lemma {:induction false} BitOfOr(x: nat, y: nat, u: nat)
    ensures Bit(Or(x, y), u) <==> Bit(x, u) || Bit(y, u)
    decreases u
  {
    if x == 0 && y == 0 {
      BitOfZero(u);
    } else {
      var h, d := Or(x / 2, y / 2), if x % 2 == 1 || y % 2 == 1 then 1 else 0;
      assert Or(x, y) == 2 * h + d;
      Halve(h, d);
      if u > 0 {
        BitOfOr(x / 2, y / 2, u - 1);
      }
    }
  }

  lemma {:induction false} BitOfPower(t: nat, u: nat)
    ensures Bit(Power(t), u) <==> u == t
    decreases u
  {
    if u > 0 && t > 0 {
      BitOfPower(t - 1, u - 1);
    } else if u > 0 {
      BitOfZero(u - 1);
    }
  }

  lemma {:induction false} OrBelow(x: nat, y: nat, k: nat)
    requires x < Power(k) && y < Power(k)
    ensures Or(x, y) < Power(k)
    decreases k
  {
    if k > 0 {
      OrBelow(x / 2, y / 2, k - 1);
    }
  }

  lemma {:induction false} PowerGrows(t: nat, k: nat)
    requires t < k
    ensures Power(t) < Power(k)
    decreases k - t
  {
    if t + 1 < k {
      PowerGrows(t + 1, k);
    }
  }

  lemma OrSetsBit(b: u8, t: nat)
    requires t < 8
    ensures Or(b, Power(t)) < 0x100
    ensures forall u: nat :: Bit(Or(b, Power(t)), u) <==> u == t || Bit(b, u)
  {
    PowerGrows(t, 8);
    assert Power(8) == 0x100 by { assert Power(4) == 16; }
    OrBelow(b, Power(t), 8);
    forall u: nat ensures Bit(Or(b, Power(t)), u) <==> u == t || Bit(b, u) {
      BitOfOr(b, Power(t), u);
      BitOfPower(t, u);
    }
  }

  /** Whether a mask enables an item: bit `item % 8` of byte `item / 8`. */
  predicate Enabled(mask: seq<u8>, item: nat) {
    item / 8 < |mask| && Bit(mask[item / 8], item % 8)
  }

  lemma {:induction false} BitsDetermine(x: nat, y: nat, n: nat)
    requires x < Power(n) && y < Power(n)
    requires forall t: nat | t < n :: Bit(x, t) == Bit(y, t)
    ensures x == y
    decreases n
  {
    if n > 0 {
      assert Bit(x, 0) == Bit(y, 0);
      forall t: nat | t < n - 1 ensures Bit(x / 2, t) == Bit(y / 2, t) {
        assert Bit(x, t + 1) == Bit(y, t + 1);
      }
      BitsDetermine(x / 2, y / 2, n - 1);
    }
  }

  /** A mask is determined by its length and the items it enables. */
  lemma MaskDetermined(a: seq<u8>, b: seq<u8>)
    requires |a| == |b| && forall item: nat :: Enabled(a, item) <==> Enabled(b, item)
    ensures a == b
  {
    assert Power(8) == 0x100 by { assert Power(4) == 16; }
    forall k | 0 <= k < |a| ensures a[k] == b[k] {
      forall t: nat | t < 8 ensures Bit(a[k], t) == Bit(b[k], t) {
        var item := 8 * k + t;
        assert item / 8 == k && item % 8 == t;
        assert Enabled(a, item) <==> Enabled(b, item);
      }
      BitsDetermine(a[k], b[k], 8);
    }
  }

  lemma EmptyMask(mask: seq<u8>)
    requires forall k | 0 <= k < |mask| :: mask[k] == 0
    ensures forall item: nat :: !Enabled(mask, item)
  {
    forall item: nat ensures !Enabled(mask, item) {
      BitOfZero(item % 8);
    }
  }

  lemma MaskStep(mask: seq<u8>, items: seq<u16>, item: u16)
    requires item / 8 < |mask|
    requires forall i: nat :: Enabled(mask, i) <==> i in items
    ensures Or(mask[item / 8], Power(item % 8)) < 0x100
    ensures var after := mask[item / 8 := Or(mask[item / 8], Power(item % 8))];
            forall i: nat :: Enabled(after, i) <==> i in items + [item]
  {
    var index := item / 8;
    OrSetsBit(mask[index], item % 8);
    var after := mask[index := Or(mask[index], Power(item % 8))];
    forall i: nat ensures Enabled(after, i) <==> i in items + [item] {
      assert Enabled(mask, i) <==> i in items;
      if i / 8 == index {
        assert i == item <==> i % 8 == item % 8;
      }
    }
  }

  lemma SmallWord(x: u8)
    ensures Le32Bytes(x) == [x, 0, 0, 0]
  {
  }

  method SetMaskRequest(equip: u8, lastItem: u32, items: seq<u16>) returns (r: Result<seq<u8>, ControlError>)
    ensures r.Ok? <==> equip <= 0xf && forall i | 0 <= i < |items| :: items[i] <= lastItem
    ensures r.Ok? ==>
              |r.value| == 16 + lastItem / 8 + 1
              && r.value[..16] == [0x73, 0, 0, 0, 3, 0, 0, 0] + Le32Bytes(equip) + Le32Bytes(lastItem)
              && forall item: nat :: Enabled(r.value[16..], item) <==> item in items
    ensures r.Err? && equip > 0xf ==> r.error == InvalidEquipmentId(equip)
    ensures r.Err? && equip <= 0xf ==>
              exists i :: 0 <= i < |items| && items[i] > lastItem
                && r.error == ItemOutOfRange(equip, items[i], lastItem)
                && forall j | 0 <= j < i :: items[j] <= lastItem
  {
    hide Le32Bytes, Enabled, Or, Power;
    if equip > 0xf {
      return Err(InvalidEquipmentId(equip));
    }
    var mask := new u8[lastItem / 8 + 1](_ => 0);
    EmptyMask(mask[..]);
    for i := 0 to |items|
      invariant forall j | 0 <= j < i :: items[j] <= lastItem
      invariant forall item: nat :: Enabled(mask[..], item) <==> item in items[..i]
    {
      var item := items[i];
      if item > lastItem {
        return Err(ItemOutOfRange(equip, item, lastItem));
      }
      var index := item / 8;
      var bit := item % 8;
      OrSetsBit(mask[index], bit);
      MaskStep(mask[..], items[..i], item);
      assert items[..i + 1] == items[..i] + [item];
      mask[index] := Or(mask[index], Power(bit));
    }
    SmallWord(SET_MASK);
    var packet := [LOG_CONFIG_F];
    packet := packet + [0, 0, 0];
    packet := packet + Le32Bytes(SET_MASK);
    packet := packet + Le32Bytes(equip);
    packet := packet + Le32Bytes(lastItem);
    packet := packet + mask[..];
    return Ok(packet);
  }

  /** What a modem reads from a SET_MASK request: equipment, last item and mask bytes. */
  function ReadSetMask(packet: seq<u8>): Option<(u32, u32, seq<u8>)> {
    if |packet| < 16 || packet[0] != LOG_CONFIG_F then None
    else if Le32(packet[4], packet[5], packet[6], packet[7]) != SET_MASK then None
    else
      Some((Le32(packet[8], packet[9], packet[10], packet[11]),
            Le32(packet[12], packet[13], packet[14], packet[15]), packet[16..]))
  }

  // -- Responses ------------------------------------------------------------------------------

  datatype LogConfigHeader = LogConfigHeader(operation: u32, status: u32)

  function ReadU32(data: seq<u8>, offset: nat): Result<u32, ControlError> {
    if offset + 4 > |data| then Err(TruncatedResponse)
    else Ok(Le32(data[offset], data[offset + 1], data[offset + 2], data[offset + 3]))
  }

  function ParseLogConfigHeader(packet: seq<u8>): Result<(LogConfigHeader, seq<u8>), ControlError> {
    if |packet| < 12 || packet[0] != LOG_CONFIG_F then Err(NotLogConfigResponse)
    else match ReadU32(packet, 4)
      case Err(e) => Err(e)
      case Ok(operation) =>
        match ReadU32(packet, 8)
        case Err(e) => Err(e)
        case Ok(status) => Ok((LogConfigHeader(operation, status), packet[12..]))
  }

  /** The shape of a modem's answer to the range query: sixteen little-endian words after the header. */
  predicate RangesReply(packet: seq<u8>, ranges: seq<u32>) {
    && |packet| >= 76 && packet[0] == LOG_CONFIG_F && |ranges| == 16
    && ReadU32(packet, 4) == Ok(RETRIEVE_ID_RANGES) && ReadU32(packet, 8) == Ok(0)
    && forall k | 0 <= k < 16 :: ReadU32(packet, 12 + 4 * k) == Ok(ranges[k])
  }

  /** What is wrong with a reply that is not of that shape, the first fault first. */
  function RangesError(packet: seq<u8>): ControlError {
    if |packet| < 12 || packet[0] != LOG_CONFIG_F then NotLogConfigResponse
    else if ReadU32(packet, 4).value != RETRIEVE_ID_RANGES then UnexpectedOperation(ReadU32(packet, 4).value)
    else if ReadU32(packet, 8).value != 0 then RemoteStatus(ReadU32(packet, 8).value)
    else TruncatedResponse
  }

  method ParseIdRangesResponse(packet: seq<u8>) returns (r: Result<seq<u32>, ControlError>)
    ensures r.Ok? ==> RangesReply(packet, r.value)
    ensures forall ranges | RangesReply(packet, ranges) :: r == Ok(ranges)
    ensures r.Err? ==> r.error == RangesError(packet) && (r.error.TruncatedResponse? ==> |packet| < 76)
  {
    var parsed := ParseLogConfigHeader(packet);
    if parsed.Err? {
      return Err(parsed.error);
    }
    var (header, data) := parsed.value;
    if header.operation != RETRIEVE_ID_RANGES {
      return Err(UnexpectedOperation(header.operation));
    }
    if header.status != 0 {
      return Err(RemoteStatus(header.status));
    }
    if |data| < 16 * 4 {
      return Err(TruncatedResponse);
    }
    var ranges := new u32[16](_ => 0);
    for idx := 0 to 16
      invariant forall k | 0 <= k < idx :: ReadU32(packet, 12 + 4 * k) == Ok(ranges[k])
    {
      var word := ReadU32(data, idx * 4);
      assert word == ReadU32(packet, 12 + 4 * idx);
      assert word.Ok?;
      ranges[idx] := word.value;
    }
    forall reply | RangesReply(packet, reply) ensures reply == ranges[..] {
      assert forall k | 0 <= k < 16 :: ReadU32(packet, 12 + 4 * k) == Ok(reply[k]);
    }
    return Ok(ranges[..]);
  }

  // -- Replies in bytes -----------------------------------------------------------------------

  /** A reply built byte by byte is read back: operation and status low byte first, then the data. */
  lemma ReplyRead(operation: u32, status: u32, data: seq<u8>)
    ensures ParseLogConfigHeader([0x73, 0, 0, 0] + Le32Bytes(operation) + Le32Bytes(status) + data) ==
            Ok((LogConfigHeader(operation, status), data))
  {
    var o, t := Le32Bytes(operation), Le32Bytes(status);
    hide Le32Bytes;
    var packet := [0x73, 0, 0, 0] + o + t + data;
    assert packet[4] == o[0] && packet[5] == o[1] && packet[6] == o[2] && packet[7] == o[3];
    assert packet[8] == t[0] && packet[9] == t[1] && packet[10] == t[2] && packet[11] == t[3];
    assert packet[12..] == data;
  }

  /** Of a reply built byte by byte, the operation is looked at first, then the status. */
  lemma RefusalRead(operation: u32, status: u32, data: seq<u8>)
    ensures RangesError([0x73, 0, 0, 0] + Le32Bytes(operation) + Le32Bytes(status) + data) ==
            if operation != 1 then UnexpectedOperation(operation)
            else if status != 0 then RemoteStatus(status) else TruncatedResponse
  {
    ReplyRead(operation, status, data);
    hide Le32Bytes, ReadU32;
  }

  function Words(ranges: seq<u32>): (s: seq<u8>)
    ensures |s| == 4 * |ranges|
    decreases |ranges|
  {
    if ranges == [] then [] else Words(ranges[..|ranges| - 1]) + Le32Bytes(ranges[|ranges| - 1])
  }

  lemma {:induction false} WordAt(ranges: seq<u32>, k: nat, before: seq<u8>, tail: seq<u8>)
    requires k < |ranges|
    ensures ReadU32(before + Words(ranges) + tail, |before| + 4 * k) == Ok(ranges[k])
    decreases |ranges|
  {
    hide Le32Bytes;
    var n := |ranges| - 1;
    var last := Le32Bytes(ranges[n]);
    if k < n {
      WordAt(ranges[..n], k, before, last + tail);
      assert before + Words(ranges) + tail == before + Words(ranges[..n]) + (last + tail);
    } else {
      var s, i := before + Words(ranges) + tail, |before| + 4 * n;
      assert s[i] == last[0] && s[i + 1] == last[1] && s[i + 2] == last[2] && s[i + 3] == last[3];
    }
  }

  /** The reply with these sixteen ranges, whatever follows them, is a good one with just these ranges. */
  lemma RangesRead(ranges: seq<u32>, tail: seq<u8>)
    requires |ranges| == 16
    ensures var packet := [0x73, 0, 0, 0, 1, 0, 0, 0, 0, 0, 0, 0] + Words(ranges) + tail;
            forall read :: RangesReply(packet, read) <==> read == ranges
  {
    hide ReadU32, Words;
    var header: seq<u8> := [0x73, 0, 0, 0, 1, 0, 0, 0, 0, 0, 0, 0];
    var packet := header + Words(ranges) + tail;
    RangesHeader(packet);
    forall k | 0 <= k < 16 ensures ReadU32(packet, 12 + 4 * k) == Ok(ranges[k]) {
      WordAt(ranges, k, header, tail);
    }
    assert RangesReply(packet, ranges);
    forall read | RangesReply(packet, read) ensures read == ranges {
      assert forall k | 0 <= k < 16 :: Ok(read[k]) == ReadU32(packet, 12 + 4 * k) == Ok(ranges[k]);
    }
  }

  lemma RangesHeader(packet: seq<u8>)
    requires |packet| >= 12 && packet[..12] == [0x73, 0, 0, 0, 1, 0, 0, 0, 0, 0, 0, 0]
    ensures packet[0] == LOG_CONFIG_F
    ensures ReadU32(packet, 4) == Ok(RETRIEVE_ID_RANGES) && ReadU32(packet, 8) == Ok(0)
  {
    assert forall k | 0 <= k < 12 :: packet[k] == packet[..12][k];
  }
}
