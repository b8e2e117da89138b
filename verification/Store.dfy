/** The aggregation service's counters and bounded history under interleaved clients. */
module Store {
  import opened Bytes

  /** What the parser reports of one frame and which client sent it; the rest is the parser's business. */
  datatype Decoded = Decoded(client: nat, vendor: string, rat: string, layer: string, fullyDecoded: bool, value: nat)

  datatype Key = Vendor | Rat | Layer

  /** The name a frame is counted under; an unnamed vendor counts as Qualcomm. */
  function NameOf(key: Key, d: Decoded): string {
    match key
    case Vendor => if d.vendor == "" then "Qualcomm" else d.vendor
    case Rat => d.rat
    case Layer => d.layer
  }

  type Table = map<string, nat>

  // -- What the counters mean -----------------------------------------------------------------

  /** What is counted: frames, fully decoded frames, or frames under one name. */
  datatype Measure = Frames | FullyDecoded | Named(key: Key, name: string)

  function Weight(m: Measure, d: Decoded): nat {
    match m
    case Frames => 1
    case FullyDecoded => if d.fullyDecoded then 1 else 0
    case Named(key, name) => if NameOf(key, d) == name then 1 else 0
  }

  function Total(m: Measure, updates: seq<Decoded>): nat
    decreases |updates|
  {
    if updates == [] then 0
    else Total(m, updates[..|updates| - 1]) + Weight(m, updates[|updates| - 1])
  }

  predicate TallyOf(table: Table, name: string, key: Key, updates: seq<Decoded>) {
    && (name in table <==> Total(Named(key, name), updates) > 0)
    && (name in table ==> table[name] == Total(Named(key, name), updates))
  }

  /** A table lists exactly the names seen, each with its number of occurrences. */
  ghost predicate Tallies(table: Table, key: Key, updates: seq<Decoded>) {
    forall name: string :: TallyOf(table, name, key, updates)
  }

  function Last(n: nat, s: seq<Decoded>): seq<Decoded> {
    if |s| <= n then s else s[|s| - n..]
  }

  lemma LastOfLast(a: nat, b: nat, s: seq<Decoded>)
    ensures Last(a, Last(b, s)) == Last(if a < b then a else b, s)
  {
  }

  lemma LastOne(n: nat, s: seq<Decoded>, d: Decoded)
    requires n >= 1
    ensures Last(n, Last(n, s) + [d]) == Last(n, s + [d])
  {
  }

  function Bump(table: Table, name: string): Table {
    table[name := (if name in table then table[name] else 0) + 1]
  }

  lemma TotalOne(m: Measure, updates: seq<Decoded>, d: Decoded)
    ensures Total(m, updates + [d]) == Total(m, updates) + Weight(m, d)
  {
    assert (updates + [d])[..|updates|] == updates;
  }

  lemma TotalIf(m: Measure, updates: seq<Decoded>, d: Decoded, counted: bool)
    ensures Total(m, updates + if counted then [d] else []) == Total(m, updates) + if counted then Weight(m, d) else 0
  {
    if counted {
      TotalOne(m, updates, d);
    } else {
      assert updates + [] == updates;
    }
  }

  lemma TalliesOne(table: Table, key: Key, updates: seq<Decoded>, d: Decoded)
    requires Tallies(table, key, updates)
    ensures Tallies(Bump(table, NameOf(key, d)), key, updates + [d])
  {
    var after := Bump(table, NameOf(key, d));
    forall name: string ensures TallyOf(after, name, key, updates + [d]) {
      assert TallyOf(table, name, key, updates);
      hide Total, NameOf;
      TotalOne(Named(key, name), updates, d);
    }
  }

  /** The counters after exactly these updates. */
  ghost predicate Counters(received: nat, decoded: nat, byVendor: Table, byRat: Table, byLayer: Table,
                           updates: seq<Decoded>) {
    && received == Total(Frames, updates) == |updates| && decoded == Total(FullyDecoded, updates)
    && Tallies(byVendor, Vendor, updates) && Tallies(byRat, Rat, updates) && Tallies(byLayer, Layer, updates)
  }

  lemma CountersOne(received: nat, decoded: nat, byVendor: Table, byRat: Table, byLayer: Table,
                    updates: seq<Decoded>, d: Decoded)
    requires Counters(received, decoded, byVendor, byRat, byLayer, updates)
    ensures Counters(received + 1, decoded + if d.fullyDecoded then 1 else 0, Bump(byVendor, NameOf(Vendor, d)),
                     Bump(byRat, NameOf(Rat, d)), Bump(byLayer, NameOf(Layer, d)), updates + [d])
  {
    hide Total, Tallies, Bump, NameOf;
    TotalOne(Frames, updates, d);
    TotalOne(FullyDecoded, updates, d);
    TalliesOne(byVendor, Vendor, updates, d);
    TalliesOne(byRat, Rat, updates, d);
    TalliesOne(byLayer, Layer, updates, d);
  }

  class Store {
    var received: nat
    var fullyDecoded: nat
    var byVendor: Table
    var byRat: Table
    var byLayer: Table
    var history: seq<Decoded>
    const limit: nat
    /** Every update so far, in the order the lock was taken. */
    ghost var updates: seq<Decoded>

    ghost predicate Valid()
      reads this
    {
      && limit >= 1
      && Counters(received, fullyDecoded, byVendor, byRat, byLayer, updates)
      && history == Last(limit, updates)
    }

    constructor (configured: nat)
      ensures Valid() && updates == [] && limit == if configured == 0 then 1 else configured
    {
      received, fullyDecoded := 0, 0;
      byVendor, byRat, byLayer := map[], map[], map[];
      history, updates := [], [];
      limit := if configured > 1 then configured else 1;
    }

    /** The block of `process_frame` that runs under the write lock. */
    method ProcessFrame(d: Decoded)
      requires Valid()
      modifies this
      ensures Valid() && updates == old(updates) + [d]
      ensures byVendor == Bump(old(byVendor), if d.vendor == "" then "Qualcomm" else d.vendor)
      ensures byRat == Bump(old(byRat), d.rat) && byLayer == Bump(old(byLayer), d.layer)
    {
      hide Counters, Bump;
      CountersOne(received, fullyDecoded, byVendor, byRat, byLayer, updates, d);
      updates := updates + [d];
      received := received + 1;
      if d.fullyDecoded {
        fullyDecoded := fullyDecoded + 1;
      }
      byVendor := Bump(byVendor, NameOf(Vendor, d));
      byRat := Bump(byRat, NameOf(Rat, d));
      byLayer := Bump(byLayer, NameOf(Layer, d));
      LastOne(limit, old(updates), d);
      history := history + [d];
      TrimHistory();
    }

    method TrimHistory()
      modifies this`history
      ensures history == Last(limit, old(history))
    {
      while |history| > limit
        invariant |history| <= |old(history)| && history == old(history)[|old(history)| - |history|..]
        invariant |history| >= if |old(history)| < limit then |old(history)| else limit
      {
        history := history[1..];
      }
      assert old(history)[0..] == old(history);
    }

    /** The most recent entries: 100 if no number is asked for, else as many as asked within 1..1000. */
    method Packets(query: Option<nat>) returns (entries: seq<Decoded>)
      requires Valid()
      ensures query.None? ==> entries == Last(100, history)
      ensures query.Some? && query.value <= 1 ==> entries == Last(1, history)
      ensures query.Some? && 1 <= query.value <= 1000 ==> entries == Last(query.value, history)
      ensures query.Some? && 1000 <= query.value ==> entries == Last(1000, history)
      ensures entries == Last(if Clamp(query) < limit then Clamp(query) else limit, updates)
    {
      var wanted := Clamp(query);
      var start := if |history| > wanted then |history| - wanted else 0;
      entries := history[start..];
      assert history[0..] == history;
      assert entries == Last(wanted, history);
      LastOfLast(wanted, limit, updates);
    }
  }

  function Clamp(query: Option<nat>): nat {
    var n := if query.Some? then query.value else 100;
    if n < 1 then 1 else if n > 1000 then 1000 else n
  }

  // -- Sums -----------------------------------------------------------------------------------

  ghost function Sum(table: Table): nat
    decreases |table|
  {
    if table == map[] then 0
    else
      var name :| name in table;
      table[name] + Sum(table - {name})
  }

  lemma {:induction false} SumPick(table: Table, name: string)
    requires name in table
    ensures Sum(table) == table[name] + Sum(table - {name})
    decreases |table|
  {
    var first :| first in table && Sum(table) == table[first] + Sum(table - {first});
    if first != name {
      SumPick(table - {first}, name);
      SumPick(table - {name}, first);
      assert table - {first} - {name} == table - {name} - {first};
    }
  }

  lemma SumBump(table: Table, name: string)
    ensures Sum(Bump(table, name)) == Sum(table) + 1
  {
    var after := Bump(table, name);
    SumPick(after, name);
    if name in table {
      SumPick(table, name);
      assert after - {name} == table - {name};
    } else {
      assert after - {name} == table;
    }
  }

  /** Tables that tally the same updates are equal, so a table is determined by the updates. */
  lemma TalliesUnique(a: Table, b: Table, key: Key, updates: seq<Decoded>)
    requires Tallies(a, key, updates) && Tallies(b, key, updates)
    ensures a == b
  {
    forall name: string ensures name in a <==> name in b
      ensures name in a ==> a[name] == b[name]
    {
      assert TallyOf(a, name, key, updates) && TallyOf(b, name, key, updates);
    }
  }

  lemma {:induction false} TallySum(table: Table, key: Key, updates: seq<Decoded>)
    requires Tallies(table, key, updates)
    ensures Sum(table) == |updates|
    decreases |updates|
  {
    if updates == [] {
      forall name: string ensures name !in table {
        assert TallyOf(table, name, key, updates);
      }
      assert table.Keys == {};
    } else {
      var n := |updates| - 1;
      var before := TableOf(key, updates[..n]);
      TallySum(before, key, updates[..n]);
      TalliesOne(before, key, updates[..n], updates[n]);
      assert updates == updates[..n] + [updates[n]];
      TalliesUnique(table, Bump(before, NameOf(key, updates[n])), key, updates);
      SumBump(before, NameOf(key, updates[n]));
    }
  }

  function TableOf(key: Key, updates: seq<Decoded>): (table: Table)
    ensures Tallies(table, key, updates)
    decreases |updates|
  {
    if updates == [] then map[]
    else
      var n := |updates| - 1;
      assert updates == updates[..n] + [updates[n]];
      TalliesOne(TableOf(key, updates[..n]), key, updates[..n], updates[n]);
      Bump(TableOf(key, updates[..n]), NameOf(key, updates[n]))
  }

  /** What the service reports at any time adds up. */
  lemma CountersAddUp(store: Store)
    requires store.Valid()
    ensures Sum(store.byVendor) == Sum(store.byRat) == Sum(store.byLayer) == store.received
    ensures store.fullyDecoded <= store.received
    ensures |store.history| == if store.received < store.limit then store.received else store.limit
  {
    hide Sum, Tallies;
    TallySum(store.byVendor, Vendor, store.updates);
    TallySum(store.byRat, Rat, store.updates);
    TallySum(store.byLayer, Layer, store.updates);
    FewerDecoded(store.updates);
  }

  lemma {:induction false} FewerDecoded(updates: seq<Decoded>)
    ensures Total(FullyDecoded, updates) <= |updates|
    decreases |updates|
  {
    if updates != [] {
      FewerDecoded(updates[..|updates| - 1]);
    }
  }

  // -- Counts on the fields themselves ----------------------------------------------------------

  /** How many updates have the property. */
  function Count(p: Decoded -> bool, updates: seq<Decoded>): nat
    decreases |updates|
  {
    if updates == [] then 0
    else Count(p, updates[..|updates| - 1]) + if p(updates[|updates| - 1]) then 1 else 0
  }

  lemma {:induction false} TotalIsCount(m: Measure, p: Decoded -> bool, updates: seq<Decoded>)
    requires forall d :: Weight(m, d) == if p(d) then 1 else 0
    ensures Total(m, updates) == Count(p, updates)
    decreases |updates|
  {
    hide Weight;
    if updates != [] {
      TotalIsCount(m, p, updates[..|updates| - 1]);
    }
  }

  /** A table lists the names that occur as values of a field, each with its number of occurrences. */
  ghost predicate CountsField(table: Table, field: Decoded -> string, updates: seq<Decoded>) {
    forall name: string ::
      var n := Count((d: Decoded) => field(d) == name, updates);
      (name in table <==> n > 0) && (name in table ==> table[name] == n)
  }

  lemma TallyCounts(table: Table, key: Key, field: Decoded -> string, updates: seq<Decoded>)
    requires Tallies(table, key, updates) && forall d :: NameOf(key, d) == field(d)
    ensures CountsField(table, field, updates)
  {
    forall name: string
      ensures var n := Count((d: Decoded) => field(d) == name, updates);
              (name in table <==> n > 0) && (name in table ==> table[name] == n)
    {
      assert TallyOf(table, name, key, updates);
      TotalIsCount(Named(key, name), (d: Decoded) => field(d) == name, updates);
    }
  }

  /** What each counter of a store counts: all updates, and those with a field of this value. */
  lemma CountersMean(store: Store)
    requires store.Valid()
    ensures store.received == |store.updates|
    ensures store.fullyDecoded == Count((d: Decoded) => d.fullyDecoded, store.updates)
    ensures CountsField(store.byVendor, (d: Decoded) => if d.vendor == "" then "Qualcomm" else d.vendor, store.updates)
    ensures CountsField(store.byRat, (d: Decoded) => d.rat, store.updates)
    ensures CountsField(store.byLayer, (d: Decoded) => d.layer, store.updates)
  {
    TallyCounts(store.byVendor, Vendor, (d: Decoded) => if d.vendor == "" then "Qualcomm" else d.vendor, store.updates);
    TallyCounts(store.byRat, Rat, (d: Decoded) => d.rat, store.updates);
    TallyCounts(store.byLayer, Layer, (d: Decoded) => d.layer, store.updates);
    TotalIsCount(FullyDecoded, (d: Decoded) => d.fullyDecoded, store.updates);
  }

  // -- Interleaving ---------------------------------------------------------------------------

  /** The updates of one client, in order. */
  function OfClient(client: nat, updates: seq<Decoded>): seq<Decoded>
    decreases |updates|
  {
    if updates == [] then []
    else
      var n := |updates| - 1;
      OfClient(client, updates[..n]) + if updates[n].client == client then [updates[n]] else []
  }

  /** `updates` is some interleaving of what the clients sent. */
  predicate Interleaves(updates: seq<Decoded>, clients: seq<seq<Decoded>>) {
    && (forall i | 0 <= i < |updates| :: updates[i].client < |clients|)
    && (forall client | 0 <= client < |clients| :: OfClient(client, updates) == clients[client])
  }

  function Below(client: nat, updates: seq<Decoded>): seq<Decoded>
    decreases |updates|
  {
    if updates == [] then []
    else
      var n := |updates| - 1;
      Below(client, updates[..n]) + if updates[n].client < client then [updates[n]] else []
  }

  lemma {:induction false} BelowNext(m: Measure, client: nat, updates: seq<Decoded>)
    ensures Total(m, Below(client + 1, updates)) ==
            Total(m, Below(client, updates)) + Total(m, OfClient(client, updates))
    decreases |updates|
  {
    hide Weight;
    if updates != [] {
      var n := |updates| - 1;
      BelowNext(m, client, updates[..n]);
      TotalIf(m, Below(client + 1, updates[..n]), updates[n], updates[n].client < client + 1);
      TotalIf(m, Below(client, updates[..n]), updates[n], updates[n].client < client);
      TotalIf(m, OfClient(client, updates[..n]), updates[n], updates[n].client == client);
    }
  }

  lemma {:induction false} BelowAll(client: nat, updates: seq<Decoded>)
    requires forall i | 0 <= i < |updates| :: updates[i].client < client
    ensures Below(client, updates) == updates
    decreases |updates|
  {
    if updates != [] {
      BelowAll(client, updates[..|updates| - 1]);
    }
  }

  lemma {:induction false} BelowNone(updates: seq<Decoded>)
    ensures Below(0, updates) == []
    decreases |updates|
  {
    if updates != [] {
      BelowNone(updates[..|updates| - 1]);
    }
  }

  function ClientTotals(m: Measure, clients: seq<seq<Decoded>>): nat
    decreases |clients|
  {
    if clients == [] then 0
    else ClientTotals(m, clients[..|clients| - 1]) + Total(m, clients[|clients| - 1])
  }

  lemma {:induction false} BelowTotals(m: Measure, updates: seq<Decoded>, clients: seq<seq<Decoded>>, k: nat)
    requires Interleaves(updates, clients) && k <= |clients|
    ensures Total(m, Below(k, updates)) == ClientTotals(m, clients[..k])
    decreases k
  {
    if k == 0 {
      BelowNone(updates);
      assert clients[..0] == [];
    } else {
      BelowTotals(m, updates, clients, k - 1);
      BelowNext(m, k - 1, updates);
      assert clients[..k][..k - 1] == clients[..k - 1] && OfClient(k - 1, updates) == clients[k - 1];
    }
  }

  /** However clients interleave, every counter is the sum of what each client contributed. */
  lemma CountersIgnoreInterleaving(m: Measure, updates: seq<Decoded>, clients: seq<seq<Decoded>>)
    requires Interleaves(updates, clients)
    ensures Total(m, updates) == ClientTotals(m, clients)
  {
    BelowTotals(m, updates, clients, |clients|);
    BelowAll(|clients|, updates);
    assert clients[..|clients|] == clients;
  }

  lemma {:induction false} OfClientAppend(client: nat, a: seq<Decoded>, b: seq<Decoded>)
    ensures OfClient(client, a + b) == OfClient(client, a) + OfClient(client, b)
    decreases |b|
  {
    if b == [] {
      assert a + b == a;
    } else {
      var n := |b| - 1;
      OfClientAppend(client, a, b[..n]);
      assert (a + b)[..|a| + n] == a + b[..n];
    }
  }

  /** The history holds the latest frames of every client, in the order that client sent them. */
  lemma HistoryKeepsClientOrder(client: nat, updates: seq<Decoded>, clients: seq<seq<Decoded>>, limit: nat)
    requires Interleaves(updates, clients) && client < |clients|
    ensures var kept := OfClient(client, Last(limit, updates));
            kept == Last(|kept|, clients[client])
  {
    var n := |updates| - |Last(limit, updates)|;
    assert updates == updates[..n] + Last(limit, updates);
    OfClientAppend(client, updates[..n], Last(limit, updates));
  }
}
