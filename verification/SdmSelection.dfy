/** Item-selection payloads of SDM control packets: a count, then each item followed by 1. */
module SdmSelection {
  import opened Bytes

  const MAX_ITEMS := 0xfe

  /** What a receiver reads: the count byte, then that many pairs, each with a set flag. */
  function ReadSelection(payload: seq<u8>): Option<seq<u8>> {
    if payload == [] then None
    else
      var count: nat := payload[0];
      if |payload| != 1 + 2 * count then None else ReadPairs(payload[1..])
  }

  function ReadPairs(pairs: seq<u8>): Option<seq<u8>>
    decreases |pairs|
  {
    if pairs == [] then Some([])
    else if |pairs| == 1 || pairs[1] != 1 then None
    else match ReadPairs(pairs[2..])
      case None => None
      case Some(items) => Some([pairs[0]] + items)
  }

  lemma {:induction false} ReadPairsAppend(pairs: seq<u8>, item: u8)
    requires ReadPairs(pairs).Some?
    ensures ReadPairs(pairs + [item, 1]) == Some(ReadPairs(pairs).value + [item])
    decreases |pairs|
  {
    if pairs == [] {
      assert pairs + [item, 1] == [item, 1];
      assert [item, 1][2..] == [];
      assert ReadPairs([item, 1]) == Some([item] + []) && [item] + [] == [] + [item];
    } else {
      assert (pairs + [item, 1])[2..] == pairs[2..] + [item, 1];
      ReadPairsAppend(pairs[2..], item);
      var rest := ReadPairs(pairs[2..]).value;
      assert [pairs[0]] + (rest + [item]) == [pairs[0]] + rest + [item];
    }
  }

  function Min(a: nat, b: nat): nat {
    if a < b then a else b
  }

  /** The count `n`, then the first `i` items, each followed by 1. */
  predicate Lists(out: seq<u8>, n: nat, items: seq<u8>, i: nat)
    requires i <= |items|
  {
    && |out| == 1 + 2 * i && out[0] == n
    && forall k | 0 <= k < i :: var at := 2 * k; out[at + 1] == items[k] && out[at + 2] == 1
  }

  lemma ListsOne(out: seq<u8>, n: nat, items: seq<u8>, i: nat)
    requires i < |items| && Lists(out, n, items, i) && ReadPairs(out[1..]) == Some(items[..i])
    ensures var after := out + [items[i]] + [1];
            Lists(after, n, items, i + 1) && ReadPairs(after[1..]) == Some(items[..i + 1])
  {
    var after := out + [items[i]] + [1];
    assert after[1..] == out[1..] + [items[i], 1];
    assert items[..i + 1] == items[..i] + [items[i]];
    ReadPairsAppend(out[1..], items[i]);
  }

  /** At most 254 items are kept, so that the count byte 0xff, which selects everything, stays free. */
  method ItemSelection(items: seq<u8>) returns (out: seq<u8>)
    ensures var n := Min(|items|, 254); Lists(out, n, items, n) && ReadSelection(out) == Some(items[..n])
    ensures out != [0xff] && (out == [0] <==> items == [])
  {
    var count := if |items| < MAX_ITEMS then |items| else MAX_ITEMS;
    out := [count];
    for i := 0 to count
      invariant Lists(out, count, items, i) && ReadPairs(out[1..]) == Some(items[..i])
    {
      ListsOne(out, count, items, i);
      out := out + [items[i]];
      out := out + [1];
    }
    assert items == [] ==> out == [0];
  }
}
