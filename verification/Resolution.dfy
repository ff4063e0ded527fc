/** Trusting records: full verification, the storage rule, and the choice among lookup results. */
module Resolution {
  import opened Bytes
  import opened Crypto
  import opened Records
  import opened Names

  const RECORD_VERSION: u8 := 1
  const DHT_KEY_PREFIX: bytes := Ascii("mc-tunnel:v1:")

  datatype VerifyError =
    | UnsupportedVersion(v: u8) | BadSignature | KeyidMismatch
    | StaleTimestamp(ts: u64, now: u64, skew: u64)

  predicate SignatureVerifies(c: Crypto, r: Record) {
    c.verifies(r.body.pubkey, CanonicalBytes(r.body), r.sig)
  }

  predicate SignatureValid(c: Crypto, r: Record) {
    r.body.v == RECORD_VERSION && SignatureVerifies(c, r)
  }

  /** The four checks in order; the answer is the first one that fails. */
  function Verify(c: Crypto, r: Record, keyid: string, now: u64, maxSkew: u64): Option<VerifyError> {
    if r.body.v != RECORD_VERSION then Some(UnsupportedVersion(r.body.v))
    else if !SignatureVerifies(c, r) then Some(BadSignature)
    else if !KeyidMatchesPubkey(c, keyid, r.body.pubkey) then Some(KeyidMismatch)
    else if AbsDiff(now, r.body.ts) > maxSkew then Some(StaleTimestamp(r.body.ts, now, maxSkew))
    else None
  }

  /** What passes, and which check each failure blames. */
  lemma {:induction false} VerifyExact(c: Crypto, r: Record, keyid: string, now: u64, maxSkew: u64)
    ensures var e := Verify(c, r, keyid, now, maxSkew);
      var owned := keyid <= KeyidFull(c, r.body.pubkey);
      var inTime := now - maxSkew <= r.body.ts <= now + maxSkew;
      && (e == None <==> SignatureValid(c, r) && owned && inTime)
      && (e == Some(KeyidMismatch) <==> SignatureValid(c, r) && !owned)
      && (e == Some(StaleTimestamp(r.body.ts, now, maxSkew)) <==> SignatureValid(c, r) && owned && !inTime)
      && (e == Some(BadSignature) <==> r.body.v == 1 && !SignatureVerifies(c, r))
      && (e == Some(UnsupportedVersion(r.body.v)) <==> r.body.v != 1)
  {
    MatchIsPrefix(c, keyid, r.body.pubkey);
  }

  function DhtKey(c: Crypto, keyid: string): Key32 {
    c.sha256(DHT_KEY_PREFIX + Utf8(keyid))
  }

  /** What the DHT key is the hash of. */
  lemma {:induction false} DhtKeyPreimage(c: Crypto, keyid: string)
    requires IsAscii(keyid) && |keyid| <= 1000
    ensures DhtKey(c, keyid) == c.sha256(Ascii("mc-tunnel:v1:" + keyid))
  {
    AsciiUtf8(keyid);
    assert DHT_KEY_PREFIX + Utf8(keyid) == Ascii("mc-tunnel:v1:" + keyid);
  }

  predicate AuthorizesStorageKey(c: Crypto, r: Record, key: Key32) {
    && SignatureValid(c, r)
    && exists l :: 1 <= l <= 52 && DhtKey(c, KeyidFull(c, r.body.pubkey)[..l]) == key
  }

  /** Some other prefix of the key's full keyid hashes to the same DHT key as `keyid`. */
  predicate Collides(c: Crypto, keyid: string, pubkey: Key32) {
    var full := KeyidFull(c, pubkey);
    exists l :: 1 <= l <= 52 && full[..l] != keyid && DhtKey(c, full[..l]) == DhtKey(c, keyid)
  }

  /** For the keyids names carry, that would be a collision of the hash function itself. */
  lemma {:induction false} CollisionBreaksSha256(c: Crypto, keyid: string, pubkey: Key32) returns (x: bytes, y: bytes)
    requires IsAscii(keyid) && Collides(c, keyid, pubkey)
    ensures x != y && c.sha256(x) == c.sha256(y)
  {
    var full := KeyidFull(c, pubkey);
    var l :| 1 <= l <= 52 && full[..l] != keyid && DhtKey(c, full[..l]) == DhtKey(c, keyid);
    x, y := DHT_KEY_PREFIX + Utf8(full[..l]), DHT_KEY_PREFIX + Utf8(keyid);
    KeyidIsAscii(c, pubkey, l);
    PrefixedDiffer(DHT_KEY_PREFIX, full[..l], keyid);
  }

  lemma {:induction false} KeyidIsAscii(c: Crypto, pubkey: Key32, l: nat)
    requires l <= 52
    ensures IsAscii(KeyidFull(c, pubkey)[..l])
  {
  }

  lemma {:induction false} PrefixedDiffer(p: bytes, s: string, t: string)
    requires IsAscii(s) && IsAscii(t) && s != t
    ensures p + Utf8(s) != p + Utf8(t)
  {
    if p + Utf8(s) == p + Utf8(t) {
      assert (p + Utf8(s))[|p|..] == Utf8(s) && (p + Utf8(t))[|p|..] == Utf8(t);
      AsciiUtf8Injective(s, t);
    }
  }

  /** Short of a hash collision, a record may be stored under the DHT key of a keyid exactly when
      it is validly signed and the keyid is a non-empty prefix of the signer's full keyid. */
  lemma {:induction false} StorageAgreesWithKeyid(c: Crypto, r: Record, keyid: string)
    ensures AuthorizesStorageKey(c, r, DhtKey(c, keyid))
       <==> SignatureValid(c, r)
            && ((keyid != "" && KeyidMatchesPubkey(c, keyid, r.body.pubkey)) || Collides(c, keyid, r.body.pubkey))
  {
    var full := KeyidFull(c, r.body.pubkey);
    MatchIsPrefix(c, keyid, r.body.pubkey);
    if keyid != "" && keyid <= full {
      assert full[..|keyid|] == keyid;
    }
  }

  /** Whatever the resolver verifies for a non-empty keyid, storage nodes accept under its DHT
      key; and whatever they accept there, the resolver verifies while it is fresh. */
  lemma {:induction false} ResolutionAgreesWithStorage(c: Crypto, r: Record, keyid: string, now: u64, maxSkew: u64)
    requires keyid != ""
    ensures Verify(c, r, keyid, now, maxSkew) == None ==> AuthorizesStorageKey(c, r, DhtKey(c, keyid))
    ensures AuthorizesStorageKey(c, r, DhtKey(c, keyid)) && !Collides(c, keyid, r.body.pubkey) ==>
      (Verify(c, r, keyid, now, maxSkew) == None <==> AbsDiff(now, r.body.ts) <= maxSkew)
  {
    StorageAgreesWithKeyid(c, r, keyid);
  }

  // ----- choosing among candidates -----

  /** The record a candidate value gives, when it parses and verifies. */
  function Accept(c: Crypto, keyid: string, now: u64, maxSkew: u64, value: bytes): Option<Record> {
    match FromBytes(value)
    case Err(_) => None
    case Ok(r) => if Verify(c, r, keyid, now, maxSkew) == None then Some(r) else None
  }

  /** `filter_map(accept).max_by_key(ts)`: among equal timestamps the last candidate wins. */
  function Newest(accept: bytes -> Option<Record>, candidates: seq<bytes>): Option<Record> {
    if candidates == [] then None
    else
      var best := Newest(accept, candidates[..|candidates| - 1]);
      var last := accept(candidates[|candidates| - 1]);
      if last.None? || (best.Some? && best.value.body.ts > last.value.body.ts) then best else last
  }

  function SelectVerified(c: Crypto, candidates: seq<bytes>, keyid: string, now: u64, maxSkew: u64): Option<Record> {
    Newest(value => Accept(c, keyid, now, maxSkew, value), candidates)
  }

  /** Candidate `i` gives `r`, none accepted is newer, and none accepted after it is as new. */
  ghost predicate IsNewest(accept: bytes -> Option<Record>, candidates: seq<bytes>, i: nat, r: Record) {
    && i < |candidates| && accept(candidates[i]) == Some(r)
    && forall j :: 0 <= j < |candidates| && accept(candidates[j]).Some? ==>
         && accept(candidates[j]).value.body.ts <= r.body.ts
         && (j > i ==> accept(candidates[j]).value.body.ts < r.body.ts)
  }

  lemma {:induction false} NewestIs(accept: bytes -> Option<Record>, candidates: seq<bytes>)
    ensures Newest(accept, candidates) == None ==> forall i :: 0 <= i < |candidates| ==> accept(candidates[i]) == None
    ensures Newest(accept, candidates).Some? ==>
      exists i :: IsNewest(accept, candidates, i, Newest(accept, candidates).value)
  {
    if candidates != [] {
      var n := |candidates| - 1;
      var init := candidates[..n];
      NewestIs(accept, init);
      var best, last := Newest(accept, init), accept(candidates[n]);
      assert forall i :: 0 <= i < n ==> init[i] == candidates[i];
      if best.Some? {
        var i: nat :| IsNewest(accept, init, i, best.value);
        if last.None? || best.value.body.ts > last.value.body.ts {
          assert IsNewest(accept, candidates, i, best.value);
        } else {
          assert IsNewest(accept, candidates, n, last.value);
        }
      } else if last.Some? {
        assert IsNewest(accept, candidates, n, last.value);
      }
    }
  }

  lemma {:induction false} NewestUnique(accept: bytes -> Option<Record>, candidates: seq<bytes>, i: nat, r: Record)
    requires IsNewest(accept, candidates, i, r)
    ensures Newest(accept, candidates) == Some(r)
  {
    NewestIs(accept, candidates);
    var j: nat :| IsNewest(accept, candidates, j, Newest(accept, candidates).value);
    assert i == j;
  }

  /** Nothing is selected exactly when nothing is accepted; otherwise the newest record is, and
      of several equally new the last. */
  lemma {:induction false} SelectExact(c: Crypto, candidates: seq<bytes>, keyid: string, now: u64, maxSkew: u64)
    ensures var accept := value => Accept(c, keyid, now, maxSkew, value);
      var chosen := SelectVerified(c, candidates, keyid, now, maxSkew);
      && (chosen == None <==> forall v | v in candidates :: accept(v) == None)
      && (forall r :: chosen == Some(r) <==> exists i :: IsNewest(accept, candidates, i, r))
  {
    var accept := value => Accept(c, keyid, now, maxSkew, value);
    NewestIs(accept, candidates);
    forall r, i | IsNewest(accept, candidates, i, r) ensures Newest(accept, candidates) == Some(r) {
      NewestUnique(accept, candidates, i, r);
    }
  }

  function Kept(keep: bytes -> bool, candidates: seq<bytes>): seq<bytes> {
    if candidates == [] then []
    else
      var init, v := Kept(keep, candidates[..|candidates| - 1]), candidates[|candidates| - 1];
      if keep(v) then init + [v] else init
  }

  /** Candidates that are not accepted can be added or dropped anywhere without effect. */
  lemma {:induction false} JunkIsIgnored(accept: bytes -> Option<Record>, keep: bytes -> bool, candidates: seq<bytes>)
    requires forall v | v in candidates && !keep(v) :: accept(v) == None
    ensures Newest(accept, Kept(keep, candidates)) == Newest(accept, candidates)
  {
    if candidates != [] {
      var init, v := candidates[..|candidates| - 1], candidates[|candidates| - 1];
      JunkIsIgnored(accept, keep, init);
      var kept := Kept(keep, init);
      assert (kept + [v])[..|kept|] == kept;
    }
  }

  predicate WithinCap(value: bytes) { |value| <= MAX_RECORD_BYTES }

  /** Dropping oversized values before selection changes nothing. */
  lemma {:induction false} CapIsHarmless(c: Crypto, candidates: seq<bytes>, keyid: string, now: u64, maxSkew: u64)
    ensures SelectVerified(c, Kept(WithinCap, candidates), keyid, now, maxSkew)
         == SelectVerified(c, candidates, keyid, now, maxSkew)
  {
    JunkIsIgnored(value => Accept(c, keyid, now, maxSkew, value), WithinCap, candidates);
  }

  /** Only which acceptable values are present matters for the timestamp, not order or repetition. */
  lemma {:induction false} OrderIsIrrelevant(accept: bytes -> Option<Record>, a: seq<bytes>, b: seq<bytes>)
    requires forall v :: accept(v).Some? ==> (v in a <==> v in b)
    ensures Newest(accept, a).Some? <==> Newest(accept, b).Some?
    ensures Newest(accept, a).Some? ==> Newest(accept, a).value.body.ts == Newest(accept, b).value.body.ts
  {
    NewestIs(accept, a);
    NewestIs(accept, b);
    if Newest(accept, a).Some? {
      var i: nat :| IsNewest(accept, a, i, Newest(accept, a).value);
      assert a[i] in b;
    }
    if Newest(accept, b).Some? {
      var i: nat :| IsNewest(accept, b, i, Newest(accept, b).value);
      assert b[i] in a;
    }
  }

  // ----- what a resolved record means -----

  /** Every message that verifies under a key the keyid could stand for is the canonical form of
      one of `bodies`: the owner signed those and nobody else can sign. */
  ghost predicate OnlySigned(c: Crypto, keyid: string, bodies: set<Body>) {
    forall pubkey, message, sig :: keyid <= KeyidFull(c, pubkey) && c.verifies(pubkey, message, sig) ==>
      exists b | b in bodies :: message == CanonicalBytes(b)
  }

  /** Then a resolved record carries a body the owner signed, whatever the candidates were. */
  lemma {:induction false} ResolvedWasSigned(c: Crypto, candidates: seq<bytes>, keyid: string,
                                             now: u64, maxSkew: u64, bodies: set<Body>)
    requires OnlySigned(c, keyid, bodies) && SelectVerified(c, candidates, keyid, now, maxSkew).Some?
    ensures SelectVerified(c, candidates, keyid, now, maxSkew).value.body in bodies
  {
    var accept := value => Accept(c, keyid, now, maxSkew, value);
    NewestIs(accept, candidates);
    var r := Newest(accept, candidates).value;
    MatchIsPrefix(c, keyid, r.body.pubkey);
    var b :| b in bodies && CanonicalBytes(r.body) == CanonicalBytes(b);
    CanonicalBytesPrefixFree(r.body, b);
  }

  /** A genuine, fresh record among the candidates means resolution succeeds with one at least
      as new, signed by a key matching the keyid, whatever else is among them. */
  lemma {:induction false} GenuineRecordResolves(c: Crypto, candidates: seq<bytes>, i: nat, r: Record, keyid: string,
                                                 now: u64, maxSkew: u64)
    requires i < |candidates| && FromBytes(candidates[i]) == Ok(r) && Verify(c, r, keyid, now, maxSkew) == None
    ensures var chosen := SelectVerified(c, candidates, keyid, now, maxSkew);
      && chosen.Some? && chosen.value.body.ts >= r.body.ts && AbsDiff(now, chosen.value.body.ts) <= maxSkew
      && SignatureValid(c, chosen.value) && keyid <= KeyidFull(c, chosen.value.body.pubkey)
  {
    var accept := value => Accept(c, keyid, now, maxSkew, value);
    NewestIs(accept, candidates);
    assert accept(candidates[i]) == Some(r);
    SelectedIsVerified(c, candidates, keyid, now, maxSkew);
    MatchIsPrefix(c, keyid, SelectVerified(c, candidates, keyid, now, maxSkew).value.body.pubkey);
  }

  /** Whatever is selected passed every check. */
  lemma {:induction false} SelectedIsVerified(c: Crypto, candidates: seq<bytes>, keyid: string, now: u64, maxSkew: u64)
    requires SelectVerified(c, candidates, keyid, now, maxSkew).Some?
    ensures Verify(c, SelectVerified(c, candidates, keyid, now, maxSkew).value, keyid, now, maxSkew) == None
  {
    NewestIs(value => Accept(c, keyid, now, maxSkew, value), candidates);
  }

  // ----- the peer to tunnel to -----

  const MAX_SKEW: u64 := 300

  /** Resolve a keyid from lookup results, and derive the peer to dial from the signed key; a record
      naming another peer is refused. */
  function Establish(c: Crypto, keyid: string, candidates: seq<bytes>, now: u64): Option<Text> {
    match SelectVerified(c, candidates, keyid, now, MAX_SKEW)
    case None => None
    case Some(r) => if c.peerId(r.body.pubkey) == Some(r.body.peerId) then Some(r.body.peerId) else None
  }

  /** `peer` is the peer of some key the keyid stands for. */
  ghost predicate PeerFor(c: Crypto, keyid: string, peer: Text) {
    exists pubkey :: keyid <= KeyidFull(c, pubkey) && c.peerId(pubkey) == Some(peer)
  }

  /** The value parses to `r`, which is validly signed by a key whose full keyid extends the
      keyid, and dated within five minutes of now. */
  ghost predicate Usable(c: Crypto, keyid: string, now: u64, value: bytes, r: Record) {
    && FromBytes(value) == Ok(r) && SignatureValid(c, r) && keyid <= KeyidFull(c, r.body.pubkey)
    && now - 300 <= r.body.ts <= now + 300
  }

  /** Candidate `i` gives `r`, no usable one is newer, and none after it is as new. */
  ghost predicate LastOfNewest(c: Crypto, keyid: string, now: u64, candidates: seq<bytes>, i: nat, r: Record) {
    && i < |candidates| && Usable(c, keyid, now, candidates[i], r)
    && forall j, q :: 0 <= j < |candidates| && Usable(c, keyid, now, candidates[j], q) ==>
         q.body.ts <= r.body.ts && (j > i ==> q.body.ts < r.body.ts)
  }

  lemma {:induction false} AcceptedIsUsable(c: Crypto, keyid: string, now: u64, value: bytes, r: Record)
    ensures Accept(c, keyid, now, MAX_SKEW, value) == Some(r) <==> Usable(c, keyid, now, value, r)
  {
    VerifyExact(c, r, keyid, now, MAX_SKEW);
  }

  /** Selecting picks the last of the newest usable candidates. */
  lemma {:induction false} SelectsLastOfNewest(c: Crypto, keyid: string, now: u64, candidates: seq<bytes>, r: Record)
    ensures SelectVerified(c, candidates, keyid, now, MAX_SKEW) == Some(r)
       <==> exists i :: LastOfNewest(c, keyid, now, candidates, i, r)
  {
    var accept := value => Accept(c, keyid, now, MAX_SKEW, value);
    forall v, q ensures accept(v) == Some(q) <==> Usable(c, keyid, now, v, q) {
      AcceptedIsUsable(c, keyid, now, v, q);
    }
    SelectExact(c, candidates, keyid, now, MAX_SKEW);
    forall i: nat ensures IsNewest(accept, candidates, i, r) <==> LastOfNewest(c, keyid, now, candidates, i, r) {
      NewestUsable(c, keyid, now, accept, candidates, i, r);
    }
  }

  lemma {:induction false} NewestUsable(c: Crypto, keyid: string, now: u64, accept: bytes -> Option<Record>,
                                        candidates: seq<bytes>, i: nat, r: Record)
    requires forall v, q :: accept(v) == Some(q) <==> Usable(c, keyid, now, v, q)
    ensures IsNewest(accept, candidates, i, r) <==> LastOfNewest(c, keyid, now, candidates, i, r)
  {
    if LastOfNewest(c, keyid, now, candidates, i, r) {
      forall j | 0 <= j < |candidates| && accept(candidates[j]).Some?
        ensures accept(candidates[j]).value.body.ts <= r.body.ts
        ensures j > i ==> accept(candidates[j]).value.body.ts < r.body.ts
      {
        assert Usable(c, keyid, now, candidates[j], accept(candidates[j]).value);
      }
    }
  }

  /** `r` is the last of the newest usable candidates, it names `peer`, and its key derives it. */
  ghost predicate PointsTo(c: Crypto, keyid: string, now: u64, candidates: seq<bytes>, r: Record, peer: Text) {
    && (exists i :: LastOfNewest(c, keyid, now, candidates, i, r))
    && r.body.peerId == peer && c.peerId(r.body.pubkey) == Some(peer)
  }

  /** A peer is dialed exactly when the last of the newest usable candidates names it and its key
      derives it. */
  lemma {:induction false} EstablishExact(c: Crypto, keyid: string, candidates: seq<bytes>, now: u64, peer: Text)
    ensures Establish(c, keyid, candidates, now) == Some(peer)
       <==> exists r :: PointsTo(c, keyid, now, candidates, r, peer)
  {
    var chosen := SelectVerified(c, candidates, keyid, now, MAX_SKEW);
    if chosen.Some? {
      SelectsLastOfNewest(c, keyid, now, candidates, chosen.value);
      ChosenPointsTo(c, keyid, candidates, now, chosen.value, peer);
    }
    if r :| PointsTo(c, keyid, now, candidates, r, peer) {
      SelectsLastOfNewest(c, keyid, now, candidates, r);
      ChosenPointsTo(c, keyid, candidates, now, r, peer);
    }
  }

  lemma {:induction false} ChosenPointsTo(c: Crypto, keyid: string, candidates: seq<bytes>, now: u64, r: Record,
                                          peer: Text)
    requires SelectVerified(c, candidates, keyid, now, MAX_SKEW) == Some(r)
    requires exists i :: LastOfNewest(c, keyid, now, candidates, i, r)
    ensures Establish(c, keyid, candidates, now) == Some(peer) <==> PointsTo(c, keyid, now, candidates, r, peer)
  {
  }

  lemma {:induction false} EstablishedPeer(c: Crypto, keyid: string, candidates: seq<bytes>, now: u64)
    requires Establish(c, keyid, candidates, now).Some?
    ensures PeerFor(c, keyid, Establish(c, keyid, candidates, now).value)
  {
    var r := SelectVerified(c, candidates, keyid, now, MAX_SKEW).value;
    SelectedIsVerified(c, candidates, keyid, now, MAX_SKEW);
    MatchIsPrefix(c, keyid, r.body.pubkey);
  }
}
