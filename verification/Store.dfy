/** The record table of a DHT node: what is admitted, what replaces what, over all runs. */
module Store {
  import opened Bytes
  import Cbor
  import opened Crypto
  import opened Records
  import opened Names
  import opened Resolution

  const MAX_FUTURE_SKEW: u64 := 600

  /** The value limit of libp2p's in-memory store. */
  const MAX_VALUE_BYTES: nat := 65 * 1024

  /** A held value, when it was received (unix seconds), and when it expires. */
  datatype Stored = Stored(value: bytes, at: u64, expires: Option<nat>)
  type Table = map<bytes, Stored>

  /** A value arriving for a key, and the receiving node's clock. */
  datatype Delivery = Delivery(now: u64, key: bytes, value: bytes)

  /** What a node reads off a value that parses. */
  datatype Stamp = Stamp(ts: u64, ttl: u32)

  /** What a node asks about values: their stamp, and whether one may live under a key. */
  datatype Rules = Rules(stamp: bytes -> Option<Stamp>, genuine: (bytes, bytes) -> bool)

  function StampOf(value: bytes): Option<Stamp> {
    match FromBytes(value) case Ok(r) => Some(Stamp(r.body.ts, r.body.ttl)) case Err(_) => None
  }

  /** `validate_inbound_record`: a 32-byte key, and a value that parses, is validly signed, and
      whose key is bound to its signer. */
  predicate Genuine(c: Crypto, key: bytes, value: bytes) {
    |key| == 32 && FromBytes(value).Ok? && AuthorizesStorageKey(c, FromBytes(value).value, key)
  }

  function NodeRules(c: Crypto): Rules {
    Rules(value => StampOf(value), (key, value) => Genuine(c, key, value))
  }

  /** May this inbound value be stored, as far as the value itself goes? */
  predicate Admissible(rules: Rules, d: Delivery) {
    && rules.genuine(d.key, d.value) && rules.stamp(d.value).Some?
    && rules.stamp(d.value).value.ts <= SaturatingAdd(d.now, MAX_FUTURE_SKEW)
  }

  /** Nothing held, something unreadable held, or something strictly older held. */
  predicate NewerThanStored(rules: Rules, table: Table, key: bytes, ts: u64) {
    key in table && rules.stamp(table[key].value).Some? ==> ts > rules.stamp(table[key].value).value.ts
  }

  /** The store refuses large values, and new keys once it is full. */
  predicate Accepts(capacity: nat, table: Table, key: bytes, value: bytes) {
    |value| < MAX_VALUE_BYTES && (key in table || |table| < capacity)
  }

  /** Receipt time plus the record's ttl; a value that does not parse is kept without limit. */
  function Expiry(rules: Rules, now: u64, value: bytes): Option<nat> {
    match rules.stamp(value) case Some(s) => Some(now + s.ttl) case None => None
  }

  function Put(rules: Rules, capacity: nat, table: Table, d: Delivery): Table {
    if Accepts(capacity, table, d.key, d.value)
    then table[d.key := Stored(d.value, d.now, Expiry(rules, d.now, d.value))]
    else table
  }

  function Receive(rules: Rules, capacity: nat, table: Table, d: Delivery): Table {
    if Admissible(rules, d) && NewerThanStored(rules, table, d.key, rules.stamp(d.value).value.ts)
    then Put(rules, capacity, table, d)
    else table
  }

  // ----- the node as a state machine -----

  datatype NodeState = NodeState(table: Table, now: u64)

  datatype Event =
    | Inbound(key: bytes, value: bytes)
    | LocalPut(key: bytes, value: bytes)
    | Expire(key: bytes)
    | Tick(now: u64)

  function Step(rules: Rules, capacity: nat, s: NodeState, e: Event): NodeState {
    match e
    case Inbound(key, value) => s.(table := Receive(rules, capacity, s.table, Delivery(s.now, key, value)))
    case LocalPut(key, value) => s.(table := Put(rules, capacity, s.table, Delivery(s.now, key, value)))
    case Expire(key) => s.(table := s.table - {key})
    case Tick(now) => if now > s.now then s.(now := now) else s
  }

  function Run(rules: Rules, capacity: nat, s: NodeState, es: seq<Event>): NodeState {
    if es == [] then s else Step(rules, capacity, Run(rules, capacity, s, es[..|es| - 1]), es[|es| - 1])
  }

  /** The node's record table and its handlers, each updating the table in place. */
  class Node {
    const rules: Rules
    const capacity: nat
    var table: Table
    var now: u64

    function State(): NodeState reads this { NodeState(table, now) }

    constructor (rules: Rules, capacity: nat, now: u64)
      ensures this.rules == rules && this.capacity == capacity && State() == NodeState(map[], now)
    {
      this.rules, this.capacity, this.table, this.now := rules, capacity, map[], now;
    }

    method StorePut(key: bytes, value: bytes, expires: Option<nat>) returns (stored: bool)
      modifies this`table
      ensures stored == old(Accepts(capacity, table, key, value))
      ensures table == if stored then old(table)[key := Stored(value, now, expires)] else old(table)
    {
      stored := |value| < MAX_VALUE_BYTES && (key in table || |table| < capacity);
      if stored {
        table := table[key := Stored(value, now, expires)];
      }
    }

    /** The inbound-put branch of the event handler. */
    method HandleInbound(key: bytes, value: bytes)
      modifies this`table
      ensures State() == Step(rules, capacity, old(State()), Inbound(key, value))
    {
      if !rules.genuine(key, value) {
        return;
      }
      match rules.stamp(value) {
        case None =>
        case Some(stamp) =>
          if stamp.ts > SaturatingAdd(now, MAX_FUTURE_SKEW) {
            return;
          }
          var newer := true;
          if key in table {
            var held := rules.stamp(table[key].value);
            newer := held.None? || stamp.ts > held.value.ts;
          }
          if newer {
            var _ := StorePut(key, value, Some(now + stamp.ttl));
          }
      }
    }

    /** The local store write of a put command: no admission rule applies. */
    method HandleLocalPut(key: bytes, value: bytes) returns (stored: bool)
      modifies this`table
      ensures stored == old(Accepts(capacity, table, key, value))
      ensures State() == Step(rules, capacity, old(State()), LocalPut(key, value))
    {
      var stamp := rules.stamp(value);
      stored := StorePut(key, value, if stamp.Some? then Some(now + stamp.value.ttl) else None);
    }

    method HandleExpire(key: bytes)
      modifies this`table
      ensures State() == Step(rules, capacity, old(State()), Expire(key))
    {
      table := table - {key};
    }

    method HandleTick(to: u64)
      modifies this`now
      ensures State() == Step(rules, capacity, old(State()), Tick(to))
    {
      if to > now {
        now := to;
      }
    }
  }

  // ----- what every run keeps -----

  /** An entry any resolver can make sense of: genuine, received in the past, dated at most the
      allowed skew after its receipt, and expiring its ttl after its receipt. */
  ghost predicate Sound(rules: Rules, now: u64, key: bytes, e: Stored) {
    && rules.genuine(key, e.value) && rules.stamp(e.value).Some? && e.at <= now
    && rules.stamp(e.value).value.ts <= SaturatingAdd(e.at, MAX_FUTURE_SKEW)
    && e.expires == Some(e.at + rules.stamp(e.value).value.ttl)
  }

  ghost predicate AllSound(rules: Rules, s: NodeState) {
    forall key :: key in s.table ==> Sound(rules, s.now, key, s.table[key])
  }

  /** Along the run, whatever is put locally is genuine and dated at most the skew ahead. */
  ghost predicate LocalPutsSound(rules: Rules, capacity: nat, s: NodeState, es: seq<Event>) {
    forall i :: 0 <= i < |es| && es[i].LocalPut? ==>
      Admissible(rules, Delivery(Run(rules, capacity, s, es[..i]).now, es[i].key, es[i].value))
  }

  /** Inbound puts, expiries and ticks keep every entry sound; local puts do when they are sound. */
  lemma {:induction false} RunKeepsSound(rules: Rules, capacity: nat, s: NodeState, es: seq<Event>)
    requires AllSound(rules, s) && LocalPutsSound(rules, capacity, s, es)
    ensures AllSound(rules, Run(rules, capacity, s, es)) && s.now <= Run(rules, capacity, s, es).now
  {
    if es != [] {
      var init := es[..|es| - 1];
      forall i | 0 <= i < |init| ensures init[..i] == es[..i] {
      }
      RunKeepsSound(rules, capacity, s, init);
    }
  }

  /** The entry is what event `i` of the run put under the key, and it has not expired since. */
  ghost predicate PutBy(rules: Rules, capacity: nat, s: NodeState, es: seq<Event>, key: bytes, e: Stored, i: nat) {
    && i < |es| && (es[i] == Inbound(key, e.value) || es[i] == LocalPut(key, e.value))
    && e.at == Run(rules, capacity, s, es[..i]).now
    && forall j :: i < j < |es| ==> es[j] != Expire(key)
  }

  /** Every entry a run leaves is the one it found, not expired since, or was put by some event of
      the run under that key, at the clock of that moment, and has not expired since. */
  lemma {:induction false} EntryOrigin(rules: Rules, capacity: nat, s: NodeState, es: seq<Event>, key: bytes)
    requires key in Run(rules, capacity, s, es).table
    ensures var e := Run(rules, capacity, s, es).table[key];
      || (key in s.table && e == s.table[key] && Expire(key) !in es)
      || exists i :: PutBy(rules, capacity, s, es, key, e, i)
    decreases |es|
  {
    if es != [] {
      var n := |es| - 1;
      var t, u := Run(rules, capacity, s, es[..n]), Run(rules, capacity, s, es);
      OriginStep(rules, capacity, t, es[n], key);
      if key in t.table && u.table[key] == t.table[key] && es[n] != Expire(key) {
        EntryOrigin(rules, capacity, s, es[..n], key);
        if i: nat :| PutBy(rules, capacity, s, es[..n], key, u.table[key], i) {
          StillPutBy(rules, capacity, s, es, key, u.table[key], i);
        }
      } else {
        assert PutBy(rules, capacity, s, es, key, u.table[key], n);
      }
    }
  }

  lemma {:induction false} StillPutBy(rules: Rules, capacity: nat, s: NodeState, es: seq<Event>, key: bytes, e: Stored,
                                      i: nat)
    requires es != [] && PutBy(rules, capacity, s, es[..|es| - 1], key, e, i) && es[|es| - 1] != Expire(key)
    ensures PutBy(rules, capacity, s, es, key, e, i)
  {
    var init := es[..|es| - 1];
    assert init[..i] == es[..i] && forall j :: 0 <= j < |init| ==> init[j] == es[j];
  }

  lemma {:induction false} OriginStep(rules: Rules, capacity: nat, t: NodeState, e: Event, key: bytes)
    requires key in Step(rules, capacity, t, e).table
    ensures var x := Step(rules, capacity, t, e).table[key];
      || (key in t.table && x == t.table[key] && e != Expire(key))
      || ((e == Inbound(key, x.value) || e == LocalPut(key, x.value)) && x.at == t.now)
  {
  }

  lemma {:induction false} PutWithinCapacity(rules: Rules, capacity: nat, table: Table, d: Delivery)
    requires |table| <= capacity
    ensures |Put(rules, capacity, table, d)| <= capacity
  {
    var t := Put(rules, capacity, table, d);
    assert t.Keys <= table.Keys + {d.key};
    if d.key in table {
      SubsetSize(t.Keys, table.Keys);
    } else {
      SubsetSize(t.Keys, table.Keys + {d.key});
    }
  }

  /** A run never fills the table beyond its capacity. */
  lemma {:induction false} RunWithinCapacity(rules: Rules, capacity: nat, s: NodeState, es: seq<Event>)
    requires |s.table| <= capacity
    ensures |Run(rules, capacity, s, es).table| <= capacity
  {
    if es != [] {
      RunWithinCapacity(rules, capacity, s, es[..|es| - 1]);
      var t, e := Run(rules, capacity, s, es[..|es| - 1]), es[|es| - 1];
      if e.Inbound? || e.LocalPut? {
        PutWithinCapacity(rules, capacity, t.table, Delivery(t.now, e.key, e.value));
      } else if e.Expire? {
        SubsetSize((t.table - {e.key}).Keys, t.table.Keys);
      }
    }
  }

  /** A local put is stored exactly when the value has fewer than 66560 bytes and the key is held
      already or there is room; else the table stays as it is. */
  lemma {:induction false} LocalPutStoredExactly(rules: Rules, capacity: nat, s: NodeState, key: bytes, value: bytes)
    ensures var t := Step(rules, capacity, s, LocalPut(key, value)).table;
      if |value| < 66560 && (key in s.table || |s.table| < capacity)
      then key in t && t[key].value == value && t[key].at == s.now && t - {key} == s.table - {key}
      else t == s.table
  {
  }

  /** An inbound put touches at most its own key, keeps what was held unless the newcomer is
      admissible, and replaces a readable entry only by one with a strictly larger timestamp. */
  lemma {:induction false} InboundOnlyRaises(rules: Rules, capacity: nat, s: NodeState, key: bytes, value: bytes,
                                             other: bytes)
    requires other in s.table
    ensures var t := Step(rules, capacity, s, Inbound(key, value)).table;
      && other in t
      && (t[other] != s.table[other] && rules.stamp(s.table[other].value).Some? ==>
            && other == key && t[other].value == value && rules.genuine(key, value)
            && rules.stamp(value).Some? && rules.stamp(value).value.ts > rules.stamp(s.table[other].value).value.ts)
  {
  }

  /** However a sound entry came about, it cannot keep out a genuine record stamped more than the
      allowed skew after its receipt; in particular one stamped about now, once the clock has
      passed the receipt by more than that. */
  lemma {:induction false} BlockingIsBounded(rules: Rules, capacity: nat, s: NodeState, es: seq<Event>, key: bytes,
                                             value: bytes)
    requires AllSound(rules, s) && LocalPutsSound(rules, capacity, s, es)
    requires rules.genuine(key, value) && rules.stamp(value).Some? && |value| < MAX_VALUE_BYTES
    ensures var t := Run(rules, capacity, s, es);
      var ts := rules.stamp(value).value.ts;
      key in t.table && t.table[key].at + MAX_FUTURE_SKEW < ts <= SaturatingAdd(t.now, MAX_FUTURE_SKEW) ==>
        var u := Step(rules, capacity, t, Inbound(key, value)).table;
        key in u && u[key].value == value && u[key].at == t.now
  {
    RunKeepsSound(rules, capacity, s, es);
  }

  // ----- last writer wins, whatever the order -----

  function ReceiveAll(rules: Rules, capacity: nat, table: Table, ds: seq<Delivery>): Table {
    if ds == [] then table
    else Receive(rules, capacity, ReceiveAll(rules, capacity, table, ds[..|ds| - 1]), ds[|ds| - 1])
  }

  /** The keys for which something admissible was delivered. */
  ghost function KeysOf(rules: Rules, ds: seq<Delivery>): set<bytes> {
    set i | 0 <= i < |ds| && Admissible(rules, ds[i]) :: ds[i].key
  }

  /** Delivery `i` is admissible for `key`, none admissible is newer, and none before it as new. */
  ghost predicate Wins(rules: Rules, ds: seq<Delivery>, key: bytes, i: nat) {
    && i < |ds| && ds[i].key == key && Admissible(rules, ds[i])
    && forall j :: 0 <= j < |ds| && ds[j].key == key && Admissible(rules, ds[j]) ==>
         && rules.stamp(ds[j].value).value.ts <= rules.stamp(ds[i].value).value.ts
         && (j < i ==> rules.stamp(ds[j].value).value.ts < rules.stamp(ds[i].value).value.ts)
  }

  ghost predicate SmallEnough(rules: Rules, ds: seq<Delivery>) {
    forall i :: 0 <= i < |ds| && Admissible(rules, ds[i]) ==> |ds[i].value| < MAX_VALUE_BYTES
  }

  /** Table `t` holds for `key` exactly its winning delivery, if it has one. */
  ghost predicate Holds(rules: Rules, t: Table, ds: seq<Delivery>, key: bytes) {
    if key in t
    then exists i: nat :: Wins(rules, ds, key, i) && t[key].value == ds[i].value && t[key].at == ds[i].now
    else forall j :: 0 <= j < |ds| && ds[j].key == key ==> !Admissible(rules, ds[j])
  }

  lemma {:induction false} HoldsStep(rules: Rules, capacity: nat, t: Table, ds: seq<Delivery>, d: Delivery, key: bytes)
    requires Holds(rules, t, ds, key)
    requires d.key == key && Admissible(rules, d) ==> Accepts(capacity, t, d.key, d.value)
    ensures Holds(rules, Receive(rules, capacity, t, d), ds + [d], key)
  {
    var u, es := Receive(rules, capacity, t, d), ds + [d];
    if d.key == key && Admissible(rules, d) && NewerThanStored(rules, t, key, rules.stamp(d.value).value.ts) {
      if key in t {
        var i: nat :| Wins(rules, ds, key, i) && t[key].value == ds[i].value;
      }
      assert Wins(rules, es, key, |ds|);
    } else if key in t {
      var i: nat :| Wins(rules, ds, key, i) && t[key].value == ds[i].value && t[key].at == ds[i].now;
      assert Wins(rules, es, key, i);
    }
  }

  lemma {:induction false} RoomForKey(capacity: nat, t: Table, d: Delivery, keys: set<bytes>)
    requires t.Keys + {d.key} <= keys && |keys| <= capacity && |d.value| < MAX_VALUE_BYTES
    ensures Accepts(capacity, t, d.key, d.value)
  {
    if d.key !in t {
      SubsetSize(t.Keys + {d.key}, keys);
    }
  }

  /** With room for every key that gets something admissible, however much else is sent, a node
      ends up holding exactly the winning delivery of each key. */
  lemma {:induction false} HoldsTheWinners(rules: Rules, capacity: nat, ds: seq<Delivery>)
    requires SmallEnough(rules, ds) && |KeysOf(rules, ds)| <= capacity
    ensures var t := ReceiveAll(rules, capacity, map[], ds);
      t.Keys <= KeysOf(rules, ds) && forall key :: Holds(rules, t, ds, key)
  {
    if ds != [] {
      var n := |ds| - 1;
      var init, d := ds[..n], ds[n];
      assert ds == init + [d];
      assert KeysOf(rules, ds) == KeysOf(rules, init) + if Admissible(rules, d) then {d.key} else {};
      SubsetSize(KeysOf(rules, init), KeysOf(rules, ds));
      HoldsTheWinners(rules, capacity, init);
      var t := ReceiveAll(rules, capacity, map[], init);
      if Admissible(rules, d) {
        RoomForKey(capacity, t, d, KeysOf(rules, ds));
      }
      forall key ensures Holds(rules, Receive(rules, capacity, t, d), ds, key) {
        HoldsStep(rules, capacity, t, init, d, key);
      }
    }
  }

  /** The admissible part of two delivery histories: the same values for the same keys, in
      whatever order, with whatever repetition, at whatever times. */
  ghost predicate SameAdmissible(rules: Rules, a: seq<Delivery>, b: seq<Delivery>) {
    && (forall i :: 0 <= i < |a| && Admissible(rules, a[i]) ==> Offers(rules, b, a[i].key, a[i].value))
    && (forall i :: 0 <= i < |b| && Admissible(rules, b[i]) ==> Offers(rules, a, b[i].key, b[i].value))
  }

  ghost predicate Offers(rules: Rules, ds: seq<Delivery>, key: bytes, value: bytes) {
    exists i :: 0 <= i < |ds| && ds[i].key == key && ds[i].value == value && Admissible(rules, ds[i])
  }

  /** Two tables offered the same admissible values hold the same keys with the same timestamps,
      and the same values wherever no two values of a key share a timestamp. */
  lemma {:induction false} TablesConverge(rules: Rules, capA: nat, capB: nat, a: seq<Delivery>, b: seq<Delivery>,
                                          key: bytes)
    requires SmallEnough(rules, a) && |KeysOf(rules, a)| <= capA
    requires SmallEnough(rules, b) && |KeysOf(rules, b)| <= capB
    requires SameAdmissible(rules, a, b)
    ensures var s, t := ReceiveAll(rules, capA, map[], a), ReceiveAll(rules, capB, map[], b);
      && (key in s <==> key in t)
      && (key in s ==>
           && rules.stamp(s[key].value).Some? && rules.stamp(t[key].value).Some?
           && rules.stamp(s[key].value).value.ts == rules.stamp(t[key].value).value.ts
           && (DistinctStamps(rules, a, key) ==> s[key].value == t[key].value))
  {
    HoldsTheWinners(rules, capA, a);
    HoldsTheWinners(rules, capB, b);
    WinnersAgree(rules, ReceiveAll(rules, capA, map[], a), ReceiveAll(rules, capB, map[], b), a, b, key);
  }

  lemma {:induction false} WinnersAgree(rules: Rules, s: Table, t: Table, a: seq<Delivery>, b: seq<Delivery>,
                                        key: bytes)
    requires Holds(rules, s, a, key) && Holds(rules, t, b, key) && SameAdmissible(rules, a, b)
    ensures key in s <==> key in t
    ensures key in s ==>
      && rules.stamp(s[key].value).Some? && rules.stamp(t[key].value).Some?
      && rules.stamp(s[key].value).value.ts == rules.stamp(t[key].value).value.ts
      && (DistinctStamps(rules, a, key) ==> s[key].value == t[key].value)
  {
    if key in s {
      var i: nat :| Wins(rules, a, key, i) && s[key].value == a[i].value;
      assert Offers(rules, b, key, a[i].value);
      var j: nat :| Wins(rules, b, key, j) && t[key].value == b[j].value;
      assert Offers(rules, a, key, b[j].value);
    }
    if key in t {
      var j: nat :| Wins(rules, b, key, j) && t[key].value == b[j].value;
      assert Offers(rules, a, key, b[j].value);
    }
  }

  ghost predicate DistinctStamps(rules: Rules, ds: seq<Delivery>, key: bytes) {
    forall i, j | 0 <= i < |ds| && 0 <= j < |ds| && ds[i].key == ds[j].key == key
                  && Admissible(rules, ds[i]) && Admissible(rules, ds[j]) ::
      rules.stamp(ds[i].value).value.ts == rules.stamp(ds[j].value).value.ts ==> ds[i].value == ds[j].value
  }

  lemma {:induction false} GenuineIsSmall(c: Crypto, ds: seq<Delivery>)
    ensures SmallEnough(NodeRules(c), ds)
  {
  }

  /** Two nodes offered the same admissible records agree, however much junk either is sent: on
      keys, on timestamps, and on values wherever no two values of a key share a timestamp. */
  lemma {:induction false} NodesConverge(c: Crypto, capA: nat, capB: nat, a: seq<Delivery>, b: seq<Delivery>,
                                         key: bytes)
    requires |KeysOf(NodeRules(c), a)| <= capA && |KeysOf(NodeRules(c), b)| <= capB
    requires SameAdmissible(NodeRules(c), a, b)
    ensures var s, t := ReceiveAll(NodeRules(c), capA, map[], a), ReceiveAll(NodeRules(c), capB, map[], b);
      && (key in s <==> key in t)
      && (key in s ==>
           && StampOf(s[key].value).Some? && StampOf(t[key].value).Some?
           && StampOf(s[key].value).value.ts == StampOf(t[key].value).value.ts
           && (DistinctStamps(NodeRules(c), a, key) ==> s[key].value == t[key].value))
  {
    GenuineIsSmall(c, a);
    GenuineIsSmall(c, b);
    TablesConverge(NodeRules(c), capA, capB, a, b, key);
  }

  /** Over the run nothing is put locally and nothing expires. */
  predicate OnlyInbound(es: seq<Event>) { forall i :: 0 <= i < |es| ==> es[i].Inbound? || es[i].Tick? }

  /** What a run delivers, each value with the clock at its arrival. */
  function Deliveries(start: u64, es: seq<Event>): seq<Delivery> {
    if es == [] then []
    else
      var ds, e := Deliveries(start, es[..|es| - 1]), es[|es| - 1];
      if e.Inbound? then ds + [Delivery(ClockAfter(start, es[..|es| - 1]), e.key, e.value)] else ds
  }

  function ClockAfter(start: u64, es: seq<Event>): u64 {
    if es == [] then start
    else
      var now, e := ClockAfter(start, es[..|es| - 1]), es[|es| - 1];
      if e.Tick? && e.now > now then e.now else now
  }

  /** Such a run leaves in the table what its deliveries, one after the other, put there. */
  lemma {:induction false} RunReceivesAll(rules: Rules, capacity: nat, start: u64, es: seq<Event>)
    requires OnlyInbound(es)
    ensures Run(rules, capacity, NodeState(map[], start), es)
         == NodeState(ReceiveAll(rules, capacity, map[], Deliveries(start, es)), ClockAfter(start, es))
  {
    if es != [] {
      var n := |es| - 1;
      RunReceivesAll(rules, capacity, start, es[..n]);
      var ds, more := Deliveries(start, es[..n]), Deliveries(start, es);
      assert es[n].Inbound? ==> more[..|more| - 1] == ds;
    }
  }

  /** Over runs: two nodes that start empty and are sent the same admissible records end up
      agreeing, however their clocks run and whatever else they are sent. */
  lemma {:induction false} NodeRunsConverge(c: Crypto, capA: nat, capB: nat, startA: u64, startB: u64, a: seq<Event>,
                                            b: seq<Event>, key: bytes)
    requires OnlyInbound(a) && OnlyInbound(b)
    requires |KeysOf(NodeRules(c), Deliveries(startA, a))| <= capA
    requires |KeysOf(NodeRules(c), Deliveries(startB, b))| <= capB
    requires SameAdmissible(NodeRules(c), Deliveries(startA, a), Deliveries(startB, b))
    ensures var s := Run(NodeRules(c), capA, NodeState(map[], startA), a).table;
      var t := Run(NodeRules(c), capB, NodeState(map[], startB), b).table;
      && (key in s <==> key in t)
      && (key in s ==>
           && StampOf(s[key].value).Some? && StampOf(t[key].value).Some?
           && StampOf(s[key].value).value.ts == StampOf(t[key].value).value.ts
           && (DistinctStamps(NodeRules(c), Deliveries(startA, a), key) ==> s[key].value == t[key].value))
  {
    RunReceivesAll(NodeRules(c), capA, startA, a);
    RunReceivesAll(NodeRules(c), capB, startB, b);
    NodesConverge(c, capA, capB, Deliveries(startA, a), Deliveries(startB, b), key);
  }

  lemma {:induction false} SubsetSize<T>(a: set<T>, b: set<T>)
    requires a <= b
    ensures |a| <= |b|
  {
    if a != {} {
      var x :| x in a;
      SubsetSize(a - {x}, b - {x});
    }
  }

  // ----- the publisher's own puts -----

  function BuildRecord(c: Crypto, secret: Key32, vanity: Text, peerId: Text, addrs: Addrs, now: u64): Record {
    var body := Body(RECORD_VERSION, c.publicKey(secret), peerId, addrs, vanity, now, 600);
    Record(body, c.sign(secret, CanonicalBytes(body)))
  }

  /** A built record verifies for its own name at any time within the skew, and may be stored there. */
  lemma {:induction false} BuiltRecordIsGenuine(c: Crypto, secret: Key32, vanity: Text, peerId: Text, addrs: Addrs,
                                                now: u64, len: nat, later: u64, maxSkew: u64)
    requires SignaturesVerify(c) && 1 <= len
    ensures var r := BuildRecord(c, secret, vanity, peerId, addrs, now);
      var keyid := KeyidFromPubkey(c, c.publicKey(secret), len);
      && r.body == Body(1, c.publicKey(secret), peerId, addrs, vanity, now, 600)
      && AuthorizesStorageKey(c, r, DhtKey(c, keyid))
      && (Verify(c, r, keyid, later, maxSkew) == None <==> AbsDiff(later, now) <= maxSkew)
  {
    var r := BuildRecord(c, secret, vanity, peerId, addrs, now);
    var keyid := KeyidFromPubkey(c, c.publicKey(secret), len);
    ShorterKeyidIsPrefix(c, c.publicKey(secret), len, len);
    MatchIsPrefix(c, keyid, c.publicKey(secret));
    StorageAgreesWithKeyid(c, r, keyid);
  }

  /** Record `r` is what the publisher signs at time `at`, and `key` the DHT key of its name. */
  ghost predicate OwnRecord(c: Crypto, at: u64, key: bytes, r: Record) {
    exists secret, vanity, peerId, addrs, len ::
      && r == BuildRecord(c, secret, vanity, peerId, addrs, at)
      && MIN_KEYID_LEN <= len <= MAX_KEYID_LEN && key == DhtKey(c, KeyidFromPubkey(c, c.publicKey(secret), len))
  }

  ghost predicate OwnPut(c: Crypto, at: u64, key: bytes, value: bytes) {
    exists r :: OwnRecord(c, at, key, r) && value == ToBytes(r)
  }

  lemma {:induction false} OwnRecordAuthorized(c: Crypto, at: u64, key: bytes, r: Record)
    requires SignaturesVerify(c) && OwnRecord(c, at, key, r)
    ensures |key| == 32 && AuthorizesStorageKey(c, r, key) && r.body.ts == at
  {
    var secret, vanity, peerId, addrs, len: nat :|
      && r == BuildRecord(c, secret, vanity, peerId, addrs, at)
      && MIN_KEYID_LEN <= len <= MAX_KEYID_LEN && key == DhtKey(c, KeyidFromPubkey(c, c.publicKey(secret), len));
    BuiltRecordIsGenuine(c, secret, vanity, peerId, addrs, at, len, at, 0);
  }

  /** The publisher's own put, whenever the network task gets to it, stores a sound entry exactly
      when the record fits the size cap, which the signing side never checks, and was not signed
      too far ahead of the node's clock. */
  lemma {:induction false} OwnPutIsSoundUpToCap(c: Crypto, at: u64, now: u64, key: bytes, value: bytes)
    requires SignaturesVerify(c) && OwnPut(c, at, key, value)
    ensures Admissible(NodeRules(c), Delivery(now, key, value))
       <==> |value| <= MAX_RECORD_BYTES && at <= SaturatingAdd(now, MAX_FUTURE_SKEW)
  {
    var r :| OwnRecord(c, at, key, r) && value == ToBytes(r);
    OwnRecordAuthorized(c, at, key, r);
    SerializedParsesUpToCap(r);
    AdmissibleUpToCap(c, at, now, key, value, r);
  }

  lemma {:induction false} AdmissibleUpToCap(c: Crypto, at: u64, now: u64, key: Key32, value: bytes, r: Record)
    requires FromBytes(value) == Ok(r) <==> |value| <= MAX_RECORD_BYTES
    requires AuthorizesStorageKey(c, r, key) && r.body.ts == at
    ensures Admissible(NodeRules(c), Delivery(now, key, value))
       <==> |value| <= MAX_RECORD_BYTES && at <= SaturatingAdd(now, MAX_FUTURE_SKEW)
  {
  }

  lemma {:induction false} ParsedIsAdmissible(c: Crypto, now: u64, key: Key32, value: bytes, r: Record)
    requires FromBytes(value) == Ok(r) && AuthorizesStorageKey(c, r, key)
    requires r.body.ts <= SaturatingAdd(now, MAX_FUTURE_SKEW)
    ensures Admissible(NodeRules(c), Delivery(now, key, value))
    ensures NodeRules(c).stamp(value) == Some(Stamp(r.body.ts, r.body.ttl))
  {
  }

  /** What an inbound value needs: a 32-byte key, a record authorized for it, dated at most 600
      seconds after the node's clock, also where that sum would not fit 64 bits. */
  lemma {:induction false} AdmissibleExactly(c: Crypto, now: u64, key: bytes, value: bytes)
    ensures Admissible(NodeRules(c), Delivery(now, key, value)) <==>
      && |key| == 32 && FromBytes(value).Ok? && AuthorizesStorageKey(c, FromBytes(value).value, key)
      && FromBytes(value).value.body.ts <= now + 600
  {
  }

  /** The size of a record the publisher builds, from its inputs. */
  function BuiltSize(vanity: Text, peerId: Text, addrs: Addrs, at: u64): nat {
    152 + TextSize(peerId) + Cbor.HeadSize(|addrs|) + TextsSize(addrs) + TextSize(vanity) + Cbor.HeadSize(at)
  }

  /** The entry a local put leaves: kept for the record's ttl, or, if the value cannot be read,
      without expiry, and genuine under no key. */
  ghost predicate HeldAs(rules: Rules, e: Stored, now: u64, value: bytes, ttl: Option<u32>) {
    && e.value == value && e.at == now
    && (ttl.Some? ==> e.expires == Some(now + ttl.value))
    && (ttl == None ==> e.expires == None && rules.stamp(value) == None && forall k :: !rules.genuine(k, value))
  }

  /** Only what can be read is genuine. */
  ghost predicate GenuineIsReadable(rules: Rules, value: bytes) {
    rules.stamp(value) == None ==> forall k :: !rules.genuine(k, value)
  }

  lemma {:induction false} Readable(c: Crypto, value: bytes)
    ensures GenuineIsReadable(NodeRules(c), value)
  {
  }

  /** Whatever record is put locally is held, however large; beyond the cap it is held without
      expiry, does not parse, and is not genuine under any key. */
  lemma {:induction false} LocalPutIsHeld(c: Crypto, capacity: nat, s: NodeState, key: bytes, r: Record)
    requires Accepts(capacity, s.table, key, ToBytes(r))
    ensures var t := Step(NodeRules(c), capacity, s, LocalPut(key, ToBytes(r))).table;
      var ttl := if |ToBytes(r)| <= MAX_RECORD_BYTES then Some(r.body.ttl) else None;
      key in t && t == s.table[key := t[key]] && HeldAs(NodeRules(c), t[key], s.now, ToBytes(r), ttl)
  {
    SerializedParses(r);
    Readable(c, ToBytes(r));
    ValueIsHeld(NodeRules(c), capacity, s, key, ToBytes(r), StampOf(ToBytes(r)));
  }

  lemma {:induction false} ValueIsHeld(rules: Rules, capacity: nat, s: NodeState, key: bytes, value: bytes,
                                       stamp: Option<Stamp>)
    requires Accepts(capacity, s.table, key, value) && rules.stamp(value) == stamp && GenuineIsReadable(rules, value)
    ensures var t := Step(rules, capacity, s, LocalPut(key, value)).table;
      && key in t && t == s.table[key := t[key]]
      && HeldAs(rules, t[key], s.now, value, match stamp case Some(st) => Some(st.ttl) case None => None)
  {
  }

  lemma {:induction false} SerializedParses(r: Record)
    ensures StampOf(ToBytes(r))
         == if |ToBytes(r)| <= MAX_RECORD_BYTES then Some(Stamp(r.body.ts, r.body.ttl)) else None
  {
    SerializedParsesUpToCap(r);
  }

  /** The publisher's put keeps its own table sound exactly when the sizes of what it advertises
      fit the cap and its signing time is not too far ahead of the node's clock. */
  lemma {:induction false} OwnPutKeepsSoundExactly(c: Crypto, capacity: nat, s: NodeState, secret: Key32, vanity: Text,
                                                   peerId: Text, addrs: Addrs, at: u64, len: nat)
    requires SignaturesVerify(c) && MIN_KEYID_LEN <= len <= MAX_KEYID_LEN && AllSound(NodeRules(c), s)
    requires Accepts(capacity, s.table, DhtKey(c, KeyidFromPubkey(c, c.publicKey(secret), len)),
                     ToBytes(BuildRecord(c, secret, vanity, peerId, addrs, at)))
    ensures var key := DhtKey(c, KeyidFromPubkey(c, c.publicKey(secret), len));
      var r := BuildRecord(c, secret, vanity, peerId, addrs, at);
      var t := Step(NodeRules(c), capacity, s, LocalPut(key, ToBytes(r)));
      AllSound(NodeRules(c), t) <==>
        BuiltSize(vanity, peerId, addrs, at) <= MAX_RECORD_BYTES && at <= SaturatingAdd(s.now, MAX_FUTURE_SKEW)
  {
    var key := DhtKey(c, KeyidFromPubkey(c, c.publicKey(secret), len));
    var r := BuildRecord(c, secret, vanity, peerId, addrs, at);
    RecordSize(r);
    assert OwnRecord(c, at, key, r);
    OwnPutIsSoundUpToCap(c, at, s.now, key, ToBytes(r));
    PutKeepsSoundExactly(NodeRules(c), capacity, s, key, ToBytes(r));
  }

  lemma {:induction false} PutKeepsSoundExactly(rules: Rules, capacity: nat, s: NodeState, key: bytes, value: bytes)
    requires AllSound(rules, s) && Accepts(capacity, s.table, key, value)
    ensures AllSound(rules, Step(rules, capacity, s, LocalPut(key, value)))
       <==> Admissible(rules, Delivery(s.now, key, value))
  {
    var t := Step(rules, capacity, s, LocalPut(key, value));
    assert AllSound(rules, t) ==> Sound(rules, t.now, key, t.table[key]);
  }

  function Decimal(n: nat): (d: string)
    ensures |d| >= 1 && forall i :: 0 <= i < |d| ==> '0' <= d[i] <= '9'
  {
    (if n < 10 then "" else Decimal(n / 10)) + ['0' + (n % 10) as char]
  }

  lemma {:induction false} DecimalInjective(a: nat, b: nat)
    requires Decimal(a) == Decimal(b)
    ensures a == b
  {
    var s, t := Decimal(a), Decimal(b);
    assert s[|s| - 1] == '0' + (a % 10) as char && t[|t| - 1] == '0' + (b % 10) as char;
    if a >= 10 && b >= 10 {
      assert Decimal(a / 10) == s[..|s| - 1] && Decimal(b / 10) == t[..|t| - 1];
      DecimalInjective(a / 10, b / 10);
    }
  }

  lemma {:induction false} ThreeDigits(n: nat)
    requires 100 <= n < 1000
    ensures |Decimal(n)| == 3
  {
    var tens := n / 10;
    assert |Decimal(n)| == 1 + |Decimal(tens)|;
    assert |Decimal(tens)| == 2;
  }

  lemma {:induction false} FiveDigits(n: nat)
    requires 10000 <= n < 100000
    ensures |Decimal(n)| == 5
  {
    var tens := n / 10;
    assert |Decimal(n)| == 1 + |Decimal(tens)|;
    assert |Decimal(tens)| == 1 + |Decimal(tens / 10)|;
    ThreeDigits(tens / 10);
  }

  function Spelled(a: string, b: string, port: string): string { "/ip4/10.0." + a + "." + b + "/tcp/" + port }

  /** The one TCP port of a publisher at its interface address 10.0.a.b. */
  function Interface(a: nat, b: nat, port: nat): (t: Text)
    requires 100 <= a < 256 && 100 <= b < 256 && 10000 <= port < 65536
    ensures |t| == 27
  {
    ThreeDigits(a);
    ThreeDigits(b);
    FiveDigits(port);
    Ascii(Spelled(Decimal(a), Decimal(b), Decimal(port)))
  }

  lemma {:induction false} SpelledInjective(a: string, b: string, x: string, y: string, port: string)
    requires |a| == |b| == |x| == |y| == 3 && Spelled(a, b, port) == Spelled(x, y, port)
    ensures a == x && b == y
  {
    var s, t := Spelled(a, b, port), Spelled(x, y, port);
    assert s[10..13] == a && t[10..13] == x && s[14..17] == b && t[14..17] == y;
  }

  lemma {:induction false} AsciiInjective(s: string, t: string)
    requires IsAscii(s) && IsAscii(t) && |s| <= U64_MAX && |t| <= U64_MAX && Ascii(s) == Ascii(t)
    ensures s == t
  {
    assert forall i :: 0 <= i < |s| ==> Ascii(s)[i] == s[i] as int && Ascii(t)[i] == t[i] as int;
  }

  lemma {:induction false} InterfaceInjective(a: nat, b: nat, x: nat, y: nat, port: nat)
    requires 100 <= a < 256 && 100 <= b < 256 && 100 <= x < 256 && 100 <= y < 256 && 10000 <= port < 65536
    requires Interface(a, b, port) == Interface(x, y, port)
    ensures a == x && b == y
  {
    ThreeDigits(a);
    ThreeDigits(b);
    ThreeDigits(x);
    ThreeDigits(y);
    FiveDigits(port);
    AsciiInjective(Spelled(Decimal(a), Decimal(b), Decimal(port)), Spelled(Decimal(x), Decimal(y), Decimal(port)));
    SpelledInjective(Decimal(a), Decimal(b), Decimal(x), Decimal(y), Decimal(port));
    DecimalInjective(a, x);
    DecimalInjective(b, y);
  }

  function High(i: nat): (a: nat)
    requires i < 1000
    ensures 100 <= a < 110
  {
    100 + i / 100
  }

  function Low(i: nat): (b: nat)
    ensures 100 <= b < 200
  {
    100 + i % 100
  }

  function InterfaceAt(i: nat, port: nat): (t: Text)
    requires i < 1000 && 10000 <= port < 65536
    ensures |t| == 27
  {
    Interface(High(i), Low(i), port)
  }

  /** What a host with `n` interface addresses advertises for one listening port. */
  function Interfaces(n: nat, port: nat): (addrs: Addrs)
    requires n <= 1000 && 10000 <= port < 65536
    ensures |addrs| == n && forall i :: 0 <= i < n ==> addrs[i] == InterfaceAt(i, port)
  {
    seq(n, i requires 0 <= i < n => InterfaceAt(i, port))
  }

  lemma {:induction false} SizeOfInterfaces(addrs: seq<Text>)
    requires forall i :: 0 <= i < |addrs| ==> |addrs[i]| == 27
    ensures TextsSize(addrs) == 29 * |addrs|
  {
    if addrs != [] {
      SizeOfInterfaces(addrs[1..]);
    }
  }

  /** Any advertisement between the record cap and the store's own limit ends up as an entry that
      never expires and that nobody can parse. */
  lemma {:induction false} OversizedOwnPut(c: Crypto, capacity: nat, s: NodeState, secret: Key32, vanity: Text,
                                           peerId: Text, addrs: Addrs, at: u64, len: nat)
    requires SignaturesVerify(c) && MIN_KEYID_LEN <= len <= MAX_KEYID_LEN && AllSound(NodeRules(c), s)
    requires MAX_RECORD_BYTES < BuiltSize(vanity, peerId, addrs, at) < MAX_VALUE_BYTES
    requires DhtKey(c, KeyidFromPubkey(c, c.publicKey(secret), len)) in s.table || |s.table| < capacity
    ensures var key := DhtKey(c, KeyidFromPubkey(c, c.publicKey(secret), len));
      var value := ToBytes(BuildRecord(c, secret, vanity, peerId, addrs, at));
      var t := Step(NodeRules(c), capacity, s, LocalPut(key, value));
      && key in t.table && t.table[key] == Stored(value, s.now, None) && FromBytes(value).Err?
      && !AllSound(NodeRules(c), t)
  {
    var r := BuildRecord(c, secret, vanity, peerId, addrs, at);
    RecordSize(r);
    LocalPutIsHeld(c, capacity, s, DhtKey(c, KeyidFromPubkey(c, c.publicKey(secret), len)), r);
    OwnPutKeepsSoundExactly(c, capacity, s, secret, vanity, peerId, addrs, at, len);
  }

  lemma {:induction false} HighAndLow(i: nat, j: nat)
    requires i < 1000 && j < 1000 && High(i) == High(j) && Low(i) == Low(j)
    ensures i == j
  {
  }

  lemma {:induction false} InterfacesDiffer(i: nat, j: nat, port: nat)
    requires i < j < 1000 && 10000 <= port < 65536
    ensures InterfaceAt(i, port) != InterfaceAt(j, port)
  {
    if InterfaceAt(i, port) == InterfaceAt(j, port) {
      InterfaceInjective(High(i), Low(i), High(j), Low(j), port);
      HighAndLow(i, j);
    }
  }

  /** And there are such: one port on a host with 400 interface addresses or more, whatever its
      peer id and vanity label. */
  lemma {:induction false} OwnPutCanExceedCap(n: nat, port: nat, vanity: Text, peerId: Text, at: u64)
    requires 400 <= n <= 1000 && 10000 <= port < 65536 && |vanity| <= 1000 && |peerId| <= 1000
    ensures forall i, j :: 0 <= i < j < n ==> Interfaces(n, port)[i] != Interfaces(n, port)[j]
    ensures MAX_RECORD_BYTES < BuiltSize(vanity, peerId, Interfaces(n, port), at) < MAX_VALUE_BYTES
  {
    SizeOfInterfaces(Interfaces(n, port));
    forall i, j | 0 <= i < j < n ensures Interfaces(n, port)[i] != Interfaces(n, port)[j] {
      InterfacesDiffer(i, j, port);
    }
  }

  /** The put is the publisher's own record, within the cap, signed at any time not too far ahead. */
  ghost predicate OwnSoundPut(c: Crypto, now: u64, key: bytes, value: bytes) {
    && |value| <= MAX_RECORD_BYTES
    && exists at: u64 :: OwnPut(c, at, key, value) && at <= SaturatingAdd(now, MAX_FUTURE_SKEW)
  }

  /** Along the run, whatever is put locally is such a record. */
  ghost predicate LocalPutsOwn(c: Crypto, capacity: nat, s: NodeState, es: seq<Event>) {
    forall i :: 0 <= i < |es| && es[i].LocalPut? ==>
      OwnSoundPut(c, Run(NodeRules(c), capacity, s, es[..i]).now, es[i].key, es[i].value)
  }

  /** A publishing node, from an empty table: whatever it is sent and whenever entries expire,
      every entry it holds parses, is validly signed, and is bound to its key. */
  lemma {:induction false} PublishingNodeHoldsGenuineRecords(c: Crypto, capacity: nat, start: u64, es: seq<Event>,
                                                             key: bytes)
    requires SignaturesVerify(c) && LocalPutsOwn(c, capacity, NodeState(map[], start), es)
    ensures var s := Run(NodeRules(c), capacity, NodeState(map[], start), es);
      key in s.table ==> Genuine(c, key, s.table[key].value)
  {
    var s := NodeState(map[], start);
    forall i | 0 <= i < |es| && es[i].LocalPut?
      ensures Admissible(NodeRules(c), Delivery(Run(NodeRules(c), capacity, s, es[..i]).now, es[i].key, es[i].value))
    {
      var now := Run(NodeRules(c), capacity, s, es[..i]).now;
      assert OwnSoundPut(c, now, es[i].key, es[i].value);
      var at: u64 :| OwnPut(c, at, es[i].key, es[i].value) && at <= SaturatingAdd(now, MAX_FUTURE_SKEW);
      OwnPutIsSoundUpToCap(c, at, now, es[i].key, es[i].value);
    }
    RunKeepsSound(NodeRules(c), capacity, s, es);
  }

  /** What a node holds under a name's key is what resolving that name needs: a lookup returning
      it, among any other values, resolves while its timestamp is within the skew. */
  lemma {:induction false} HeldRecordResolves(c: Crypto, keyid: string, value: bytes, candidates: seq<bytes>,
                                              now: u64, maxSkew: u64)
    requires keyid != "" && Genuine(c, DhtKey(c, keyid), value) && value in candidates
    requires !Collides(c, keyid, FromBytes(value).value.body.pubkey)
    requires AbsDiff(now, FromBytes(value).value.body.ts) <= maxSkew
    ensures var chosen := SelectVerified(c, candidates, keyid, now, maxSkew);
      chosen.Some? && chosen.value.body.ts >= FromBytes(value).value.body.ts
  {
    var r := FromBytes(value).value;
    ResolutionAgreesWithStorage(c, r, keyid, now, maxSkew);
    var i :| 0 <= i < |candidates| && candidates[i] == value;
    GenuineRecordResolves(c, candidates, i, r, keyid, now, maxSkew);
  }

  /** From put to lookup: a record that verifies, once some node that holds nothing as new receives
      it, is stored, and any candidates that include what the node then holds resolve. */
  lemma {:induction false} PublishedRecordResolves(c: Crypto, capacity: nat, s: NodeState, r: Record, keyid: string,
                                                   candidates: seq<bytes>, later: u64, maxSkew: u64)
    requires |ToBytes(r)| <= MAX_RECORD_BYTES && Verify(c, r, keyid, later, maxSkew) == None && keyid != ""
    requires r.body.ts <= SaturatingAdd(s.now, MAX_FUTURE_SKEW)
    requires NewerThanStored(NodeRules(c), s.table, DhtKey(c, keyid), r.body.ts)
    requires DhtKey(c, keyid) in s.table || |s.table| < capacity
    ensures var t := Step(NodeRules(c), capacity, s, Inbound(DhtKey(c, keyid), ToBytes(r))).table;
      && DhtKey(c, keyid) in t && t[DhtKey(c, keyid)].value == ToBytes(r)
      && (t[DhtKey(c, keyid)].value in candidates ==>
            var chosen := SelectVerified(c, candidates, keyid, later, maxSkew);
            chosen.Some? && chosen.value.body.ts >= r.body.ts && keyid <= KeyidFull(c, chosen.value.body.pubkey))
  {
    SerializedParsesUpToCap(r);
    ResolutionAgreesWithStorage(c, r, keyid, later, maxSkew);
    ParsedIsAdmissible(c, s.now, DhtKey(c, keyid), ToBytes(r), r);
    AdmissibleIsStored(NodeRules(c), capacity, s, DhtKey(c, keyid), ToBytes(r));
    if ToBytes(r) in candidates {
      var i :| 0 <= i < |candidates| && candidates[i] == ToBytes(r);
      GenuineRecordResolves(c, candidates, i, r, keyid, later, maxSkew);
    }
  }

  /** How a node reads a serialized record. */
  lemma {:induction false} ReadOff(c: Crypto, key: Key32, r: Record)
    ensures StampOf(ToBytes(r))
         == if |ToBytes(r)| <= MAX_RECORD_BYTES then Some(Stamp(r.body.ts, r.body.ttl)) else None
    ensures Genuine(c, key, ToBytes(r)) <==> |ToBytes(r)| <= MAX_RECORD_BYTES && AuthorizesStorageKey(c, r, key)
  {
    SerializedParsesUpToCap(r);
  }

  /** A key holding something unreadable or older takes a newcomer that is in order. */
  lemma {:induction false} NewerIsTaken(rules: Rules, capacity: nat, s: NodeState, key: bytes, value: bytes, fits: bool,
                                        stamp: Stamp)
    requires key in s.table && NewerThanStored(rules, s.table, key, stamp.ts)
    requires rules.stamp(value) == (if fits then Some(stamp) else None) && rules.genuine(key, value) == fits
    requires fits ==> |value| < MAX_VALUE_BYTES
    ensures Step(rules, capacity, s, Inbound(key, value)).table
         == if fits && stamp.ts <= SaturatingAdd(s.now, MAX_FUTURE_SKEW)
            then s.table[key := Stored(value, s.now, Some(s.now + stamp.ttl))] else s.table
  {
  }

  lemma {:induction false} AdmissibleIsStored(rules: Rules, capacity: nat, s: NodeState, key: bytes, value: bytes)
    requires Admissible(rules, Delivery(s.now, key, value)) && Accepts(capacity, s.table, key, value)
    requires NewerThanStored(rules, s.table, key, rules.stamp(value).value.ts)
    ensures var t := Step(rules, capacity, s, Inbound(key, value)).table; key in t && t[key].value == value
  {
  }
}
