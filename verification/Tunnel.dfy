/** The publisher's republish cycle and the connecting side's resolve loop. */
module Tunnel {
  import opened Bytes
  import opened Crypto
  import opened Records
  import opened Names
  import opened Resolution
  import Store
  import EventLoop

  // ----- resolving: retry until something verifies or the deadline passes -----

  const RESOLVE_TIMEOUT: real := 45.0

  /** One round: what the lookup returned (nothing when the network task is gone), the clock, and
      the moment the deadline is checked. */
  datatype Lookup = Lookup(candidates: Option<seq<bytes>>, now: u64, at: real)

  datatype Outcome = Resolved(record: Record) | NetworkDown | TimedOut | Waiting

  predicate Fruitless(c: Crypto, keyid: string, l: Lookup) {
    l.candidates.Some? && SelectVerified(c, l.candidates.value, keyid, l.now, MAX_SKEW) == None
  }

  /** The round was in vain and there is time for another. */
  predicate GoesOn(c: Crypto, keyid: string, start: real, l: Lookup) {
    Fruitless(c, keyid, l) && l.at < start + 45.0
  }

  /** `Waiting` means that the given rounds are over and the loop sleeps. */
  method Resolve(c: Crypto, keyid: string, start: real, rounds: seq<Lookup>) returns (outcome: Outcome, attempts: nat)
    ensures attempts <= |rounds|
    ensures forall i :: 0 <= i < attempts - 1 ==> GoesOn(c, keyid, start, rounds[i])
    ensures outcome.Waiting? <==>
      attempts == |rounds| && forall i :: 0 <= i < |rounds| ==> GoesOn(c, keyid, start, rounds[i])
    ensures !outcome.Waiting? ==> attempts >= 1
    ensures outcome.Resolved? ==>
      var l := rounds[attempts - 1];
      l.candidates.Some? && SelectVerified(c, l.candidates.value, keyid, l.now, MAX_SKEW) == Some(outcome.record)
    ensures outcome.TimedOut? ==> Fruitless(c, keyid, rounds[attempts - 1]) && rounds[attempts - 1].at >= start + 45.0
    ensures outcome.NetworkDown? ==> rounds[attempts - 1].candidates.None?
    ensures Spaced(start, rounds) ==> attempts <= 24 && (outcome.Waiting? ==> |rounds| <= 23)
  {
    var deadline := start + RESOLVE_TIMEOUT;
    attempts := 0;
    while attempts < |rounds|
      invariant attempts <= |rounds|
      invariant forall i :: 0 <= i < attempts ==> GoesOn(c, keyid, start, rounds[i])
    {
      var l := rounds[attempts];
      attempts := attempts + 1;
      FewFruitlessRounds(c, keyid, start, rounds, attempts - 1);
      if l.candidates.None? {
        return NetworkDown, attempts;
      }
      var chosen := SelectVerified(c, l.candidates.value, keyid, l.now, MAX_SKEW);
      if chosen.Some? {
        return Resolved(chosen.value), attempts;
      }
      if l.at >= deadline {
        return TimedOut, attempts;
      }
    }
    FewFruitlessRounds(c, keyid, start, rounds, attempts);
    outcome := Waiting;
  }

  /** The sleep between rounds takes two seconds. */
  predicate Spaced(start: real, rounds: seq<Lookup>) {
    && (rounds != [] ==> rounds[0].at >= start)
    && forall i :: 0 <= i < |rounds| - 1 ==> rounds[i + 1].at >= rounds[i].at + 2.0
  }

  /** So no more than 23 rounds can be in vain and go on. */
  lemma {:induction false} FewFruitlessRounds(c: Crypto, keyid: string, start: real, rounds: seq<Lookup>, n: nat)
    requires n <= |rounds| && forall i :: 0 <= i < n ==> GoesOn(c, keyid, start, rounds[i])
    ensures Spaced(start, rounds) ==> n <= 23
  {
    if Spaced(start, rounds) && n > 0 {
      RoundsApart(start, rounds, n - 1);
      assert GoesOn(c, keyid, start, rounds[n - 1]);
    }
  }

  lemma {:induction false} RoundsApart(start: real, rounds: seq<Lookup>, i: nat)
    requires i < |rounds| && Spaced(start, rounds)
    ensures rounds[i].at >= start + 2.0 * i as real
  {
    if i > 0 {
      RoundsApart(start, rounds, i - 1);
      assert rounds[i - 1 + 1].at >= rounds[i - 1].at + 2.0;
    }
  }

  // ----- publishing: sign, put, sleep -----

  const REFRESH: real := 300.0
  const RETRY: real := 5.0

  /** A moment the clock can show: seconds since the unix epoch, fitting 64 bits. */
  type Moment = t: real | 0.0 <= t && 0 <= t.Floor <= U64_MAX witness 0.0

  /** Clock readings are whole seconds. */
  function Seconds(t: Moment): u64 { t.Floor }

  /** Who publishes, under which name. */
  datatype Publisher = Publisher(secret: Key32, vanity: Text, peerId: Text, keyidLen: nat)

  function Keyid(c: Crypto, p: Publisher): string { KeyidFromPubkey(c, c.publicKey(p.secret), p.keyidLen) }

  /** One round of the republish task: when it starts, when it reads the clock to sign (any moment
      of it, if it gives up before), when it ends, the addresses found, and whether the put
      succeeded. */
  datatype Cycle = Cycle(start: Moment, signed: Moment, end: Moment, addrs: Addrs, ok: bool)

  /** The record signed in that round. */
  function Signed(c: Crypto, p: Publisher, cycle: Cycle): Record {
    Store.BuildRecord(c, p.secret, p.vanity, p.peerId, cycle.addrs, Seconds(cycle.signed))
  }

  predicate CycleOk(d: real, c: Cycle) { c.start <= c.signed <= c.end <= c.start + d }

  /** A run of the task with addresses and put taking at most `d` seconds together. */
  predicate Run(d: real, cs: seq<Cycle>) {
    && (forall i :: 0 <= i < |cs| ==> CycleOk(d, cs[i]))
    && (forall i :: 0 <= i < |cs| - 1 ==> cs[i + 1].start == cs[i].end + if cs[i].ok then REFRESH else RETRY)
  }

  lemma {:induction false} LaterCycle(d: real, cs: seq<Cycle>, i: nat, j: nat)
    requires Run(d, cs) && i < j < |cs|
    ensures cs[j].start >= cs[i].end + RETRY
    decreases j
  {
    assert CycleOk(d, cs[j - 1]);
    assert cs[j - 1 + 1].start == cs[j - 1].end + if cs[j - 1].ok then REFRESH else RETRY;
    if i < j - 1 {
      LaterCycle(d, cs, i, j - 1);
    }
  }

  /** Signed timestamps strictly increase. */
  lemma {:induction false} TimestampsIncrease(d: real, cs: seq<Cycle>, i: nat, j: nat)
    requires Run(d, cs) && i < j < |cs|
    ensures Seconds(cs[i].signed) < Seconds(cs[j].signed)
  {
    LaterCycle(d, cs, i, j);
    assert CycleOk(d, cs[i]) && CycleOk(d, cs[j]);
  }

  /** So a node holding any earlier record of the publisher replaces it by a later one that fits the
      cap and is not too far ahead of the node's clock, and otherwise keeps what it has. */
  lemma {:induction false} RefreshIsTaken(c: Crypto, p: Publisher, d: real, cs: seq<Cycle>, i: nat, j: nat,
                                          capacity: nat, s: Store.NodeState)
    requires SignaturesVerify(c) && p.keyidLen >= 1 && Run(d, cs) && i < j < |cs|
    requires DhtKey(c, Keyid(c, p)) in s.table
    requires s.table[DhtKey(c, Keyid(c, p))].value == ToBytes(Signed(c, p, cs[i]))
    ensures var rules, key := Store.NodeRules(c), DhtKey(c, Keyid(c, p));
      var value, ts := ToBytes(Signed(c, p, cs[j])), Seconds(cs[j].signed);
      var t := Store.Step(rules, capacity, s, Store.Inbound(key, value)).table;
      && Store.NewerThanStored(rules, s.table, key, ts)
      && t == (if |value| <= MAX_RECORD_BYTES && ts <= SaturatingAdd(s.now, Store.MAX_FUTURE_SKEW)
               then s.table[key := Store.Stored(value, s.now, Some(s.now + 600))] else s.table)
  {
    var key, earlier, later := DhtKey(c, Keyid(c, p)), Signed(c, p, cs[i]), Signed(c, p, cs[j]);
    TimestampsIncrease(d, cs, i, j);
    Store.ReadOff(c, key, earlier);
    Store.ReadOff(c, key, later);
    Store.BuiltRecordIsGenuine(c, p.secret, p.vanity, p.peerId, cs[j].addrs, Seconds(cs[j].signed), p.keyidLen, 0, 0);
    Store.NewerIsTaken(Store.NodeRules(c), capacity, s, key, ToBytes(later), |ToBytes(later)| <= MAX_RECORD_BYTES,
                       Store.Stamp(later.body.ts, later.body.ttl));
  }

  /** The record signed in that round passes verification at `t`. */
  predicate Fresh(c: Crypto, p: Publisher, cycle: Cycle, t: Moment) {
    Verify(c, Signed(c, p, cycle), Keyid(c, p), Seconds(t), MAX_SKEW) == None
  }

  lemma {:induction false} FreshIffRecent(c: Crypto, p: Publisher, cycle: Cycle, t: Moment)
    requires SignaturesVerify(c) && p.keyidLen >= 1 && cycle.signed <= t
    ensures Fresh(c, p, cycle, t) <==> Seconds(t) - Seconds(cycle.signed) <= MAX_SKEW
  {
    Store.BuiltRecordIsGenuine(c, p.secret, p.vanity, p.peerId, cycle.addrs, Seconds(cycle.signed), p.keyidLen,
                               Seconds(t), MAX_SKEW);
  }

  function Times(n: nat, x: real): real { if n == 0 then 0.0 else Times(n - 1, x) + x }

  lemma {:induction false} TimesMonotone(m: nat, n: nat, x: real)
    requires m <= n && x >= 0.0
    ensures Times(m, x) <= Times(n, x)
  {
    if m < n {
      TimesMonotone(m, n - 1, x);
    }
  }

  /** Cycle `m` is the first to publish after cycle `k`. */
  predicate NextPublished(cs: seq<Cycle>, k: nat, m: nat) {
    k < m < |cs| && cs[k].ok && cs[m].ok && forall j :: k < j < m ==> !cs[j].ok
  }

  lemma {:induction false} RetriesTake(d: real, cs: seq<Cycle>, k: nat, m: nat)
    requires Run(d, cs) && k < m < |cs| && cs[k].ok && forall j :: k < j < m ==> !cs[j].ok
    ensures cs[m].start <= cs[k].end + REFRESH + Times(m - k - 1, d + RETRY)
    decreases m
  {
    assert cs[m - 1 + 1].start == cs[m - 1].end + if cs[m - 1].ok then REFRESH else RETRY;
    if k < m - 1 {
      RetriesTake(d, cs, k, m - 1);
      assert CycleOk(d, cs[m - 1]);
    }
  }

  lemma {:induction false} AgeBound(d: real, f: nat, cs: seq<Cycle>, k: nat, m: nat)
    requires d >= 0.0 && Run(d, cs) && NextPublished(cs, k, m) && m - k - 1 <= f
    ensures cs[k].signed <= cs[k].end
    ensures cs[m].end - cs[k].signed <= REFRESH + 2.0 * d + Times(f, d + RETRY)
  {
    RetriesTake(d, cs, k, m);
    TimesMonotone(m - k - 1, f, d + RETRY);
    assert CycleOk(d, cs[k]) && CycleOk(d, cs[m]);
  }

  /** With at most `f` failures in a row, a published record is at most 300 + 2d + f(d + 5) seconds
      old when the next one is out; any moment at which it fails verification lies in the last
      2d + f(d + 5) of those. */
  lemma {:induction false} PublishedAge(c: Crypto, p: Publisher, d: real, f: nat, cs: seq<Cycle>, k: nat, m: nat,
                                        t: Moment)
    requires SignaturesVerify(c) && p.keyidLen >= 1
    requires d >= 0.0 && Run(d, cs) && NextPublished(cs, k, m) && m - k - 1 <= f
    requires cs[k].end <= t <= cs[m].end
    ensures t - cs[k].signed <= 300.0 + 2.0 * d + Times(f, d + 5.0)
    ensures !Fresh(c, p, cs[k], t) ==>
      cs[k].signed + 300.0 < t && cs[m].end - (cs[k].signed + 300.0) <= 2.0 * d + Times(f, d + 5.0)
  {
    AgeBound(d, f, cs, k, m);
    FreshIffRecent(c, p, cs[k], t);
  }

  /** From the end of its put to the end of the next, the record of cycle `k` passes verification. */
  ghost predicate StaysFresh(c: Crypto, p: Publisher, cs: seq<Cycle>, k: nat, m: nat)
    requires k < |cs| && m < |cs|
  {
    forall t: Moment :: cs[k].end <= t < cs[m].end ==> Fresh(c, p, cs[k], t)
  }

  /** A published record stays fresh until the next is out exactly when the next is out before the
      clock shows 301 seconds more than it showed at signing. */
  lemma {:induction false} FreshUntilNext(c: Crypto, p: Publisher, d: real, cs: seq<Cycle>, k: nat, m: nat)
    requires SignaturesVerify(c) && p.keyidLen >= 1 && Run(d, cs) && NextPublished(cs, k, m)
    ensures StaysFresh(c, p, cs, k, m) <==> cs[m].end <= (Seconds(cs[k].signed) + MAX_SKEW + 1) as real
  {
    var stale := (Seconds(cs[k].signed) + MAX_SKEW + 1) as real;
    LaterCycle(d, cs, k, m);
    assert CycleOk(d, cs[k]) && CycleOk(d, cs[m]);
    if cs[m].end > stale {
      var t: Moment := if stale < cs[k].end then cs[k].end else stale;
      FreshIffRecent(c, p, cs[k], t);
    } else {
      forall t: Moment | cs[k].end <= t < cs[m].end ensures Fresh(c, p, cs[k], t) {
        FreshIffRecent(c, p, cs[k], t);
      }
    }
  }

  /** Since the refresh period is the allowed skew, that is: no round in between failed, and this
      put together with the next round took no longer than what was left of the second of signing. */
  lemma {:induction false} FreshExactly(c: Crypto, p: Publisher, d: real, cs: seq<Cycle>, k: nat, m: nat)
    requires SignaturesVerify(c) && p.keyidLen >= 1 && Run(d, cs) && NextPublished(cs, k, m)
    ensures StaysFresh(c, p, cs, k, m) <==>
      && m == k + 1
      && (cs[k].end - cs[k].signed) + (cs[m].end - cs[m].start) <= Seconds(cs[k].signed) as real + 1.0 - cs[k].signed
  {
    FreshUntilNext(c, p, d, cs, k, m);
    assert cs[k + 1].start == cs[k].end + REFRESH;
    assert CycleOk(d, cs[k]) && CycleOk(d, cs[k + 1]) && CycleOk(d, cs[m]);
    if m > k + 1 {
      LaterCycle(d, cs, k + 1, m);
    }
  }

  lemma {:induction false} StaleRun(c: Crypto, p: Publisher, d: real) returns (cs: seq<Cycle>)
    requires SignaturesVerify(c) && p.keyidLen >= 1 && d > 0.0
    ensures Run(d, cs) && NextPublished(cs, 0, 1) && !StaysFresh(c, p, cs, 0, 1)
  {
    var e := if d < 1.0 then d else 1.0;
    var g := 1.0 - e / 2.0;
    var first := Cycle(g, g, g + e, [], true);
    var second := Cycle(g + e + REFRESH, g + e + REFRESH, g + e + REFRESH + e, [], true);
    cs := [first, second];
    FreshExactly(c, p, d, cs, 0, 1);
  }

  /** No positive bound on the latency alone guarantees it, even without failures. */
  lemma {:induction false} FreshOnlyWithoutLatency(c: Crypto, p: Publisher, d: real)
    requires SignaturesVerify(c) && p.keyidLen >= 1 && d >= 0.0
    ensures d == 0.0 <==>
      forall cs, k, m :: Run(d, cs) && NextPublished(cs, k, m) && m == k + 1 ==> StaysFresh(c, p, cs, k, m)
  {
    if d > 0.0 {
      var cs := StaleRun(c, p, d);
      assert NextPublished(cs, 0, 1);
    } else {
      forall cs, k, m | Run(d, cs) && NextPublished(cs, k, m) && m == k + 1 ensures StaysFresh(c, p, cs, k, m) {
        FreshExactly(c, p, d, cs, k, m);
        assert CycleOk(d, cs[k]) && CycleOk(d, cs[m]);
      }
    }
  }

  // ----- from publishing to resolving -----

  /** Resolving the publisher's name gives a record of a matching key dated `ts` or later. */
  predicate ResolvesTo(c: Crypto, p: Publisher, values: seq<bytes>, now: u64, ts: u64) {
    var chosen := SelectVerified(c, values, Keyid(c, p), now, MAX_SKEW);
    chosen.Some? && chosen.value.body.ts >= ts && Keyid(c, p) <= KeyidFull(c, chosen.value.body.pubkey)
  }

  /** A fresh record, found alone or among values that are of no use, leads to its publisher: the
      peer dialed is the one that signed it, provided its peer id is that of its key. */
  lemma {:induction false} PublishedPeerIsDialed(c: Crypto, p: Publisher, cycle: Cycle, t: Moment,
                                                 values: seq<bytes>, i: nat)
    requires SignaturesVerify(c) && p.keyidLen >= 1 && c.peerId(c.publicKey(p.secret)) == Some(p.peerId)
    requires |ToBytes(Signed(c, p, cycle))| <= 8192 && Fresh(c, p, cycle, t)
    requires i < |values| && values[i] == ToBytes(Signed(c, p, cycle))
    requires forall j, q :: 0 <= j < |values| && j != i ==> !Usable(c, Keyid(c, p), Seconds(t), values[j], q)
    ensures Establish(c, Keyid(c, p), values, Seconds(t)) == Some(p.peerId)
  {
    var r, keyid, now := Signed(c, p, cycle), Keyid(c, p), Seconds(t);
    SerializedParsesUpToCap(r);
    VerifyExact(c, r, keyid, now, MAX_SKEW);
    assert Usable(c, keyid, now, values[i], r);
    OnlyUsableIsLast(c, keyid, now, values, i, r);
    assert PointsTo(c, keyid, now, values, r, p.peerId);
    EstablishExact(c, keyid, values, now, p.peerId);
  }

  lemma {:induction false} OnlyUsableIsLast(c: Crypto, keyid: string, now: u64, values: seq<bytes>, i: nat, r: Record)
    requires i < |values| && Usable(c, keyid, now, values[i], r)
    requires forall j, q :: 0 <= j < |values| && j != i ==> !Usable(c, keyid, now, values[j], q)
    ensures LastOfNewest(c, keyid, now, values, i, r)
  {
  }

  lemma {:induction false} PublishedIsFound(c: Crypto, p: Publisher, r: Record, capacity: nat, s: Store.NodeState,
                                            values: seq<bytes>, now: u64)
    requires |ToBytes(r)| <= MAX_RECORD_BYTES && Keyid(c, p) != "" && Verify(c, r, Keyid(c, p), now, MAX_SKEW) == None
    requires r.body.ts <= SaturatingAdd(s.now, Store.MAX_FUTURE_SKEW)
    requires Store.NewerThanStored(Store.NodeRules(c), s.table, DhtKey(c, Keyid(c, p)), r.body.ts)
    requires DhtKey(c, Keyid(c, p)) in s.table || |s.table| < capacity
    ensures var key := DhtKey(c, Keyid(c, p));
      var held := Store.Step(Store.NodeRules(c), capacity, s, Store.Inbound(key, ToBytes(r))).table;
      key in held && (held[key].value in values ==> ResolvesTo(c, p, values, now, r.body.ts))
  {
    Store.PublishedRecordResolves(c, capacity, s, r, Keyid(c, p), values, now, MAX_SKEW);
  }

  /** A record signed in some round, within the cap, once received by a node that has room and holds
      nothing as new, is held there; and a get whose query finds what the node holds is answered
      so that the publisher's name resolves, while the record is fresh, to one at least as new. */
  lemma {:induction false} PublishedNameResolves(c: Crypto, p: Publisher, cycle: Cycle, capacity: nat,
                                                 s: Store.NodeState, es: seq<EventLoop.Event>, i: nat, t: Moment)
    returns (end: nat)
    requires SignaturesVerify(c) && p.keyidLen >= 1 && |ToBytes(Signed(c, p, cycle))| <= MAX_RECORD_BYTES
    requires Seconds(cycle.signed) <= SaturatingAdd(s.now, Store.MAX_FUTURE_SKEW)
    requires Store.NewerThanStored(Store.NodeRules(c), s.table, DhtKey(c, Keyid(c, p)), Seconds(cycle.signed))
    requires DhtKey(c, Keyid(c, p)) in s.table || |s.table| < capacity
    requires EventLoop.Fresh(es) && i < |es| && es[i].GetStarted? && EventLoop.Due(es, i).Some?
    requires Fresh(c, p, cycle, t)
    ensures i < end < |es| && EventLoop.Ends(es[end], es[i].id)
    ensures var reply := EventLoop.Due(es, i).value;
      reply.GetReply? && EventLoop.RepliesOn(EventLoop.Run(es).sent, es[i].channel) == [reply]
    ensures var key := DhtKey(c, Keyid(c, p));
      var held := Store.Step(Store.NodeRules(c), capacity, s, Store.Inbound(key, ToBytes(Signed(c, p, cycle)))).table;
      && key in held
      && (held[key].value in EventLoop.AllFound(es[..end], es[i].id) ==>
            ResolvesTo(c, p, EventLoop.Due(es, i).value.values, Seconds(t), Seconds(cycle.signed)))
  {
    end := EventLoop.LookupResolves(es, i, c, Keyid(c, p), Seconds(t), MAX_SKEW);
    PublishedIsFound(c, p, Signed(c, p, cycle), capacity, s, EventLoop.AllFound(es[..end], es[i].id), Seconds(t));
  }
}
