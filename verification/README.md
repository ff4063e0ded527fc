# mc-tunnel: a Dafny model of the decisions it makes

mc-tunnel gives a Minecraft server an address that commits to its public key, publishes signed
location records into a DHT, and proxies TCP over the tunnel a name resolves to. This project models
the decisions the repository makes itself and proves what they amount to over all inputs and all runs:

| file | what it models |
|---|---|
| `Bytes.dfy`, `Crypto.dfy` | machine-width numbers, UTF-8, and the cryptographic primitives as parameters |
| `Cbor.dfy` | CBOR data items (section 3 of RFC 8949): shortest heads out; heads of any width and indefinite lengths in |
| `Reader.dfy`, `Entries.dfy` | the typed reads a struct is deserialized by: every form of a field value they take, the shortest, and the entries of its map in any order |
| `Records.dfy` | the location record, its wire format and its size cap |
| `Base32.dfy`, `Names.dfy` | keyids (section 6 of RFC 4648) and the name parser and printer |
| `Resolution.dfy` | record verification, the storage rule, the choice among lookup results, the peer to dial |
| `Store.dfy` | a DHT node's record table: admission, replacement, expiry, local puts |
| `EventLoop.dfy` | which query answers which caller in the network task |
| `RateLimit.dfy`, `AcceptLoop.dfy` | the token bucket and the accept loop with its live counter |
| `Grind.dfy` | the concurrent vanity search |
| `Agent.dfy` | concurrent resolves sharing the tunnel map |
| `KeyStore.dfy` | the identity store over keyring, key file and meta file |
| `Tunnel.dfy` | the resolve loop and the timing of the republish cycle |

`dafny verify dfyconfig.toml` checks everything.

Modelling choices:

- SHA-256, ed25519 and peer-id derivation are fields of a `Crypto` value that every statement ranges
  over. Nothing is assumed of them except where a lemma says so: `SignaturesVerify` (a signature made
  with a secret verifies under its public key), `OnlySigned` (who can sign), and the absence of one
  particular collision (`Collides`), which `CollisionBreaksSha256` turns into a collision of SHA-256.
- Code that updates things in place is a class (`Node`, `NetworkTask`, `RateLimiter`, `Profile`) whose
  methods are proved against a step function on values; runs and their invariants are stated about
  that function. Code whose point is the interleaving of several tasks (`AcceptLoop`, `Grind`, `Agent`)
  is a state machine over its atomic steps.
- `Store.Rules` packages what a node asks about a value (its timestamp and ttl, and whether it may live
  under a key). Statements about tables hold for any rules; `NodeRules` are the real ones.
- Deserialization is library code (ciborium 0.2.2 with serde_bytes 0.11.19, `Cargo.lock:388`, `3194`).
  `Reader.dfy` takes the forms those versions take: tags before any value, big numbers (tag 2) for
  integers, strings in chunks, arrays and maps of indefinite length, field names as byte strings, a
  byte-string field as an array of which only the needed elements are read, so that one of indefinite
  length is never closed, and an empty byte string for an empty list.
- Clocks, lookup results, generated keys, free ports and keyring behaviour are inputs. `f64` tokens and
  `Instant`s are reals; unix time is `u64`, with saturating addition and absolute difference written out.

Where code and documentation disagree the model follows the code: stored entries expire at receipt plus
ttl, not at ts plus ttl (`crates/net/src/node.rs:323`, `464`); `select_verified` returns the newest
verified record, the last among equals, not the first verified one (`crates/core/src/record.rs:150`);
`load_keyid_len` defaults to 26, not 16 (`crates/cli/src/keystore.rs:154`); the DHT key is derived from
the truncated keyid, not the full one (`crates/core/src/name.rs:13`).

Properties that turn out not to hold, each with the exact condition under which it does:

- Bytes that parse need not give a record that parses again once serialized, because some inputs are
  shorter than the serialization and the cap is on bytes: 256 addresses closed by a break instead of
  counted are enough (`ReserializedCanExceedCap`). The serialization parses iff it fits the cap, which it
  does whenever the input leaves free the bytes that record can save, never more than five
  (`ReserializedParses`). `Saves` says how many those are, `ParsedFromSomething` which records exceed the
  cap and can still be parsed from something.
- A publisher's own record can exceed the 8192-byte cap, because signing never checks it; its node then
  holds, without expiry, a value nobody can parse (`OversizedOwnPut`; `OwnPutCanExceedCap` gives such
  address lists). The put keeps the table sound iff the sizes of peer id, addresses and vanity label fit
  and the signing time is not too far ahead of the node's clock (`OwnPutKeepsSoundExactly`).
- A published record need not stay fresh until the next one is out: the refresh period equals the allowed
  skew. It does iff no attempt in between failed and this put plus the whole next round took no longer
  than what was left of the clock second of signing (`FreshExactly`). No positive latency bound
  guarantees that (`FreshOnlyWithoutLatency`); `PublishedAge` bounds how long a record can be stale.
- The vanity search can return nothing although a key was found and nobody pressed Ctrl-C
  (`HitCanBeLost`, `SentHitCanBeLost`). It does so iff the reporter, having timed out, looks at the flag
  once a worker has raised it (`HitLostExactly`).
- A reported port need not serve its name: a tunnel listener that exits frees its port and leaves its map
  entry behind (`StaleEntryMisdirects`). The port serves the name if what is open there forwards to the
  peer in the entry, and, unless two peers suit the keyid, only if (`ReportServesExactly`); that is until
  a listener exits there, or again once one is bound there for that peer (`ReportForwardsUntilExit`).
- A saved identity is read back exactly under the condition in `LoadAfterSave`; a keyring that reads but
  does not write hides it (`StaleKeyringShadowsSave`). The two backends behave as one cell iff `OneCell`
  holds (`RefinesCellExactly`).

## Model

| member | source | states |
|---|---|---|
| Cbor.DecodeEncode | crates/core/src/record.rs:36-45 | decoding an encoded item followed by any bytes gives the item and those bytes, for every encodable CBOR item |
| Cbor.EncodingIsShortest | crates/core/src/record.rs:73-80 | whatever the decoder accepts below 4 GiB can be encoded, arrays and maps of indefinite length as such, in no more bytes than were read |
| Records.RecordRoundTrip | crates/core/src/record.rs:66-80 | a serialized record is read back whatever follows it, exactly up to the size cap; beyond it the error is `TooLarge` |
| Records.SerializedParsesUpToCap | crates/core/src/record.rs:73-80 | `from_bytes(to_bytes(r)) == Ok(r)` if and only if the encoding is at most 8192 bytes |
| Records.BodyEntriesExact | crates/core/src/record.rs:17-34 | a map of fewer than 24 entries is read as a body iff each of its seven fields is there once, in any order and among entries with other names |
| Records.RecordParsesExactly | crates/core/src/record.rs:47-80 | within the cap, a record whose two maps hold every field once, in any order and among others, parses; a repeated or missing field in the outer one gives `Malformed` |
| Records.BodyRefusedIsMalformed | crates/core/src/record.rs:73-80 | a repeated or missing field in the body gives `Malformed` |
| Records.CanonicalBytesPrefixFree | crates/core/src/record.rs:36-45 | the signed bytes determine the body, and none is a proper prefix of another |
| Records.CanonicalBytesLayout | crates/core/src/record.rs:15-34 | the signed bytes, part by part: seven entries in declaration order, names as text, the key as a byte string |
| Records.RecordLayout | crates/core/src/record.rs:47-71 | the stored bytes carry the signed bytes verbatim, then the signature as a byte string |
| Records.FieldNames | crates/core/src/record.rs:15-34 | the nine field names, byte by byte |
| Records.RecordSize | crates/core/src/record.rs:66-71 | the exact number of stored bytes, from the sizes of peer id, addresses, vanity label and numbers |
| Records.CompactParses | crates/core/src/record.rs:73-80 | a compact form of every record that is read as that record, whatever follows |
| Records.RecordTakes | crates/core/src/record.rs:73-80 | no bytes that are read as a record are shorter than its compact form |
| Records.CompactSize | crates/core/src/record.rs:66-71 | the compact form is shorter than the serialization by exactly `Saves`: 1 each for a key or signature of bytes below 24, 1 for 256 addresses or more, up to 2 for a timestamp between 2^32 and 2^48 |
| Records.ParsedFromSomething | crates/core/src/record.rs:73-80 | some bytes within the cap parse to a record iff its serialization exceeds the cap by at most `Saves` |
| Records.ReserializedParses | fuzz/fuzz_targets/record_parse.rs:9-16 | bytes that parse give a record whose serialization is at most `Saves`, so at most 5, bytes longer; it parses to the same record iff it fits the cap, as it does if the input left those bytes free |
| Records.ReserializedCanExceedCap | fuzz/fuzz_targets/record_parse.rs:9-16 | bytes within the cap that parse to a record whose serialization has 8193 bytes and does not parse, for every key and signature |
| Reader.TagsArePassedOver | crates/core/src/record.rs:73-80 | a tag before a value makes no difference, except the two of big numbers before a number |
| Reader.ChunkedTextRead | crates/core/src/record.rs:73-80 | text in chunks is put together |
| Reader.NestedChunks | crates/core/src/record.rs:73-80 | chunks may themselves be in chunks, to any depth |
| Reader.ArrayOctetsRead | crates/core/src/record.rs:20-22 | a byte-string field may be the first elements of an array that announces as many or more |
| Reader.ByteStringTexts | crates/core/src/record.rs:26-27 | an empty byte string is an empty list of addresses; a longer one is refused |
| Reader.ByteKeyRead | crates/core/src/record.rs:17-34 | a field name may be a byte string of at most 4096 bytes |
| Reader.LongKeyRefused | crates/core/src/record.rs:17-34 | a longer field name, or one in chunks, is refused |
| Reader.OpenMapRead | crates/core/src/record.rs:73-80 | a struct's map may be closed by a break instead of counted |
| Base32.EncodeCharset | crates/core/src/name.rs:13-19 | one character per five bits, from the lowercase base32 table, the last group padded with zeros |
| Base32.EncodingIsTheNumber | crates/core/src/name.rs:13-19 | read as base-32 digits, most significant first, the encoding is the hash as a number, moved left by the bits of padding |
| Base32.TruncationIsBitPrefix | crates/core/src/name.rs:21-26 | while no padding is involved, equal truncations mean equal bit prefixes and conversely |
| Base32.EncodeInjective | crates/core/src/name.rs:13-19 | the full encoding determines the hash |
| Names.KeyidCommitsToBits | crates/core/src/name.rs:15-26 | two keys share an L-character keyid iff their hashes share 5L bits (L up to 51), or are equal (from 52 on) |
| Names.KeyidIsTheHash | crates/core/src/name.rs:15-19 | the 52 characters of the full keyid, as a base-32 number, are sixteen times the hash as a number |
| Names.ShorterKeyidIsPrefix | crates/core/src/name.rs:21-26 | shorter keyids are prefixes of longer ones, of the expected length and charset |
| Names.MatchIsPrefix | crates/core/src/name.rs:145-153 | the keyid check accepts exactly the prefixes of the key's full keyid, for any string |
| Names.NormalizeExact | crates/core/src/name.rs:76-77 | whitespace around bare text goes and capitals become small, and that is all |
| Names.AsciiWhitespace | crates/core/src/name.rs:77 | among ASCII characters, the space and tab to carriage return are trimmed, newline included |
| Names.ParseExact | crates/core/src/name.rs:74-107 | parsing yields a name iff it is valid and the input is whitespace around its printed form, in any case, or around that after an empty vanity label |
| Names.ParseErrors | crates/core/src/name.rs:76-143 | which error every refused input gets: suffix first, then the number of labels, then vanity label, then keyid |
| Names.DisplayLayout | crates/core/src/name.rs:110-118 | the printed form, with its literal suffix |
| Names.Utf8Exact | crates/core/src/name.rs:120-143 | the byte strings taken as text are exactly the UTF-8 encodings of character strings |
| Names.ParseDisplay | crates/core/src/name.rs:110-118 | printing then parsing any valid name gives it back |
| Names.ParseDisplayParse | fuzz/fuzz_targets/name_parse.rs:8-16 | every accepted string yields a valid name whose printed form parses to the same name |
| Names.DisplayInjective | crates/core/src/name.rs:110-118 | different valid names print differently |
| Names.FromPubkeyRoundTrip | crates/core/src/name.rs:55-67 | a name is derived iff length and label are supported, with the error otherwise; it parses back and its keyid matches the key |
| Resolution.VerifyExact | crates/core/src/record.rs:82-117 | a record passes iff version, signature, keyid prefix and timestamp window all hold; each error blames the first check that fails |
| Resolution.StorageAgreesWithKeyid | crates/core/src/record.rs:133-148 | storing under the DHT key of a keyid is authorized iff the record is validly signed and the keyid is a non-empty prefix of the signer's, or a hash collides |
| Resolution.ResolutionAgreesWithStorage | crates/core/src/record.rs:88-148 | what verifies for a non-empty keyid may be stored under its key; what may be stored there verifies iff it is fresh, short of a collision |
| Resolution.CollisionBreaksSha256 | crates/core/src/record.rs:176-190 | such a collision yields two different inputs with the same SHA-256 |
| Resolution.DhtKeyPreimage | crates/core/src/record.rs:176-190 | the DHT key is the hash of the literal prefix followed by the keyid |
| Resolution.SelectExact | crates/core/src/record.rs:150-174 | nothing is selected iff no candidate parses and verifies; otherwise the newest verified record, the last among equals |
| Resolution.JunkIsIgnored | crates/core/src/record.rs:150-174 | candidates that are not accepted can be added or dropped anywhere without effect |
| Resolution.CapIsHarmless | crates/net/src/node.rs:486-497 | dropping oversized values before selection does not change what is selected |
| Resolution.OrderIsIrrelevant | crates/core/src/record.rs:170-173 | order and repetition of candidates do not affect whether a record is selected nor its timestamp |
| Resolution.ResolvedWasSigned | crates/core/src/record.rs:150-174 | if only the owner can sign, a resolved record carries a body the owner signed, whatever the candidates |
| Resolution.GenuineRecordResolves | crates/core/src/record.rs:150-174 | one genuine fresh record among any candidates makes resolution succeed with a record at least as new |
| Resolution.EstablishExact | crates/cli/src/tunnel.rs:254-274 | a peer is dialed iff the last of the newest candidates that parse, are validly signed by a key extending the keyid and are within 300 s names it and its key derives it |
| Resolution.EstablishedPeer | crates/cli/src/tunnel.rs:254-274 | the peer to dial is the peer of a key the keyid stands for |
| Store.Node.HandleInbound | crates/net/src/node.rs:442-469 | an inbound put updates the table exactly as the step function says: genuine, not too far ahead, strictly newer |
| Store.Node.HandleLocalPut | crates/net/src/node.rs:322-345 | a put command writes the local table without any admission rule, unless the store refuses |
| Store.RunKeepsSound | crates/net/src/node.rs:267-285 | over every run of inbound puts, expiries, ticks and sound local puts, every entry is genuine, dated at most 600 s after receipt, and expires its ttl after receipt |
| Store.InboundOnlyRaises | crates/net/src/node.rs:276-285 | an inbound put touches only its key and replaces a readable entry only by one with a strictly larger timestamp |
| Store.AdmissibleExactly | crates/net/src/node.rs:267-274 | an inbound value is admissible iff its key has 32 bytes, it parses, is authorized for the key and is dated at most 600 s after the clock |
| Store.EntryOrigin | crates/net/src/node.rs:442-469 | every entry a run leaves was there before or was put by an event of the run, at the clock of that moment, and has not expired since |
| Store.RunWithinCapacity | crates/net/src/node.rs:452-469 | a run never fills the table beyond its capacity |
| Store.LocalPutStoredExactly | crates/net/src/node.rs:322-345 | a local put is stored iff the value is below 66560 bytes and the key is held or there is room; else nothing changes |
| Store.BlockingIsBounded | crates/net/src/node.rs:452-469 | after any run, an entry cannot keep out a genuine record stamped more than 600 s after its receipt and at most 600 s ahead of the clock |
| Store.HoldsTheWinners | crates/net/src/node.rs:442-469 | with room for every key that gets something admissible, whatever else is sent, a node ends with exactly the first delivered among the newest admissible values of each key |
| Store.TablesConverge | crates/net/src/node.rs:276-285 | the same agreement for any admission rules whose admissible values fit the store |
| Store.NodesConverge | crates/net/src/node.rs:442-469 | nodes offered the same admissible records, in any order and multiplicity and among any junk, agree on keys and timestamps, and on values when timestamps are distinct |
| Store.RunReceivesAll | crates/net/src/node.rs:442-469 | a run of inbound puts and ticks from an empty table leaves what its deliveries, one after the other, put there |
| Store.NodeRunsConverge | crates/net/src/node.rs:442-469 | the same agreement over runs of two nodes, however their clocks go |
| Store.BuiltRecordIsGenuine | crates/cli/src/tunnel.rs:118-130 | a built record has exactly the given fields, version 1 and ttl 600, may be stored under every key of its signer and verifies for those keyids iff within the skew |
| Store.OwnPutIsSoundUpToCap | crates/cli/src/tunnel.rs:174-187 | the publisher's own put, handled at any later time, is admissible iff the encoding fits the size cap and its signing time is at most 600 s ahead of the clock |
| Store.LocalPutIsHeld | crates/net/src/node.rs:322-345 | any record put locally is held; beyond the cap without expiry, unparsable, and genuine under no key |
| Store.OwnPutKeepsSoundExactly | crates/cli/src/tunnel.rs:118-130 | the publisher's put keeps its own table sound iff the record size computed from its inputs is at most the cap and its signing time at most 600 s ahead of the clock |
| Store.OversizedOwnPut | crates/cli/src/tunnel.rs:174-178 | for any key, peer id, vanity label, signing time and address list above the cap and below the store limit, the put leaves an unparsable entry that never expires |
| Store.OwnPutCanExceedCap | crates/cli/src/tunnel.rs:102-115 | such inputs exist: one port on 400 or more distinct interface addresses, whatever the peer id and vanity label |
| Store.PublishingNodeHoldsGenuineRecords | crates/cli/src/tunnel.rs:145-198 | a publishing node, whatever it is sent and whenever its own puts within the cap are handled, holds only records that parse, are validly signed and bound to their key |
| Store.HeldRecordResolves | crates/cli/src/tunnel.rs:218-236 | a lookup returning what a node holds under a name's key resolves while it is fresh, among any other values |
| Store.PublishedRecordResolves | crates/cli/src/tunnel.rs:218-236 | from put to lookup: an inbound record that verifies and is newest is stored, and any candidates including what is then held resolve to one at least as new |
| EventLoop.NetworkTask.HandlePut | crates/net/src/node.rs:322-345 | a put command waits in its table or is answered at once when refused |
| EventLoop.NetworkTask.HandleGet | crates/net/src/node.rs:346-352 | a get command waits with nothing gathered |
| EventLoop.NetworkTask.HandleResult | crates/net/src/node.rs:474-516 | query events update the two pending tables and replies exactly as the step function says |
| EventLoop.ExactlyOneReply | crates/net/src/node.rs:295-351 | in every interleaving, each command's channel has exactly its due reply and waits nowhere, or no reply and waits with exactly the values found so far |
| EventLoop.DueGet | crates/net/src/node.rs:486-513 | a get is settled by the first event ending its query, with the in-order values within the cap found before it |
| EventLoop.DuePut | crates/net/src/node.rs:474-485 | a put is settled by the first result of its query, with its outcome |
| EventLoop.RepliesAreSmall | crates/net/src/node.rs:486-497 | no reply ever holds a value of more than 8192 bytes |
| EventLoop.LookupResolves | crates/net/src/node.rs:486-513 | resolving from the reply is resolving from every value the query found |
| RateLimit.RateLimiter.constructor | crates/proxy/src/lib.rs:26-34 | a full bucket of one second's worth of tokens, zero counting as one |
| RateLimit.RateLimiter.Allow | crates/proxy/src/lib.rs:36-48 | refill, cap, then spend one token if there is one |
| RateLimit.LevelIsSmallestAllowance | crates/proxy/src/lib.rs:36-48 | the level is exactly the smallest of the allowances opened at earlier calls, reached at the last call that found the bucket full |
| RateLimit.GrantedExactly | crates/proxy/src/lib.rs:36-48 | a call is granted iff, counting it, no window ending at it exceeds burst plus refill |
| RateLimit.RateBound | crates/proxy/src/lib.rs:15-48 | in every window of every run, grants are at most capacity plus rate times its length |
| RateLimit.DenialIsTight | crates/proxy/src/lib.rs:36-48 | a denial means more than capacity plus refill minus one grants since the last call that found the bucket full |
| RateLimit.TokensInRange | crates/proxy/src/lib.rs:36-48 | tokens always lie between zero and the capacity |
| RateLimit.DeniedCallIsInvisible | crates/proxy/src/lib.rs:36-48 | leaving out a denied call changes no other outcome and no later bucket |
| AcceptLoop.LiveWithinCap | crates/proxy/src/lib.rs:84-116 | under every schedule the live counter is spawned minus finished, never wraps and never exceeds the cap |
| AcceptLoop.LetInExactly | crates/proxy/src/lib.rs:88-104 | under every schedule an arriving stream is let in iff fewer tunnels than the cap are live and no window of arrivals ending with it exceeds burst plus refill |
| AcceptLoop.CapCanBeReached | crates/proxy/src/lib.rs:95-104 | some schedule reaches any number of live tunnels up to the cap |
| AcceptLoop.OpeningRateBound | crates/proxy/src/lib.rs:88-116 | under every schedule and from any moment, tunnels opened are at most one already let in, plus burst and refill between the first and last arrival |
| AcceptLoop.OpeningsPerSecond | crates/proxy/src/lib.rs:141-157 | the same in seconds and tokens per second |
| Grind.SearchIsSound | crates/cli/src/grind.rs:57-122 | under every schedule: a returned key shows the prefix at every length, none is returned only with the flag up, one send and one late batch per worker, all keys counted at the end |
| Grind.ValidPrefixExact | crates/cli/src/grind.rs:15-33 | the accepted prefixes are the base32 strings of 1 to 52 characters that fit the keyid length |
| Grind.EveryHitIsTakenUp | crates/cli/src/grind.rs:70-80 | in every run a worker that generates a matching key holds it from then on until it has sent it |
| Grind.FlagStopsWorkers | crates/cli/src/grind.rs:66-69 | a worker that looks at the flag leaves if it is up and starts a batch if not |
| Grind.FlagStaysUp | crates/cli/src/grind.rs:66-76 | the flag stays up once up, and Ctrl-C puts it up |
| Grind.FirstSentIsReturned | crates/cli/src/grind.rs:85-92 | whatever key is returned is the first one sent |
| Grind.SentWhileWaiting | crates/cli/src/grind.rs:87-92 | a key sent while the reporter waits is not missed: next it returns the first one |
| Grind.NothingReturnedExactly | crates/cli/src/grind.rs:85-121 | under every schedule nothing is returned iff at some step the reporter sees the flag up after a timeout, or the last worker leaves and none ever sent |
| Grind.HitLostExactly | crates/cli/src/grind.rs:87-121 | without Ctrl-C nothing is returned iff the reporter, having timed out, looks at the flag while it is up, and a key has then been found |
| Grind.HitCanBeLost | crates/cli/src/grind.rs:74-98 | a schedule on which a found key is lost before it is sent, for every matching key |
| Grind.SentHitCanBeLost | crates/cli/src/grind.rs:74-98 | a schedule on which a found key is sent and left in the channel, for every matching key |
| Agent.TokenExact | crates/cli/src/agent.rs:134-142 | the token check accepts exactly the token |
| Agent.UnauthorizedChangesNothing | crates/cli/src/agent.rs:154-157 | leaving out of any run every request without the token changes nothing |
| Agent.ReportsWereAskedFor | crates/cli/src/agent.rs:154-165 | every spelling ever reported was asked for by a request carrying the token |
| Agent.LookupOutcome | crates/cli/src/agent.rs:197-200 | a lookup moves its resolve on to a peer iff some record in the answer points to that peer, and else ends it |
| Agent.ReportedPortsAreGenuine | crates/cli/src/agent.rs:183-216 | in every interleaving, map keys are canonical names, one per name, and every reported port was bound for a peer of a key matching the name's keyid |
| Agent.LiveUntilExit | crates/proxy/src/lib.rs:145-146 | a listener is open exactly until the first exit on its port |
| Agent.ReportServesExactly | crates/cli/src/agent.rs:192-216 | in every run a reported port serves its name if what is open there forwards to the entry's peer, and only if unless two peers suit the keyid |
| Agent.ReportForwardsUntilExit | crates/cli/src/agent.rs:192-216 | from any moment a reported listener is open, its port forwards to the entry's peer iff no listener has exited there since, or a later one was bound there for that peer |
| Agent.ReportsServeWithoutExits | crates/cli/src/agent.rs:192-216 | while no listener has exited, every reported port serves its name |
| Agent.StaleEntryMisdirects | crates/cli/src/agent.rs:192-213 | for any two names that resolve, a run after which asking for the first reports a port serving only the second |
| KeyStore.Profile.SaveIdentity | crates/cli/src/keystore.rs:67-99 | refused iff something exists and force is off; otherwise keyring first, else key file, then the meta file |
| KeyStore.Profile.LoadIdentity | crates/cli/src/keystore.rs:101-130 | keyring first, then key file, with the two error cases |
| KeyStore.Profile.WipeIdentity | crates/cli/src/keystore.rs:132-152 | removes what can be removed from both backends and the meta file |
| KeyStore.RefinesCell | crates/cli/src/keystore.rs:62-164 | if a writable keyring is readable and deletable, one that is not writable shows nothing, and no corrupt file is in view, any sequence of operations answers as one optional cell would |
| KeyStore.RefinesCellExactly | crates/cli/src/keystore.rs:62-164 | exactly then: otherwise every cell is told from the store by some sequence of operations |
| KeyStore.LoadAfterSave | crates/cli/src/keystore.rs:67-130 | for any keyring: a refused save changes nothing; an accepted one goes to a writable keyring and removes the key file, else to the key file, and is read back iff what was written is what reads look at first |
| KeyStore.StaleKeyringShadowsSave | crates/cli/src/keystore.rs:79-95 | a keyring that reads but does not write hides a forced save |
| KeyStore.LoadAfterWipe | crates/cli/src/keystore.rs:132-164 | wiping leaves nothing to load iff the keyring entry goes or cannot be read |
| Tunnel.Resolve | crates/cli/src/tunnel.rs:218-252 | the first round with a verified record wins; a timeout means every round was in vain and the last passed the deadline; with rounds two seconds apart there are at most 24, and 24 never leave it waiting |
| Tunnel.FewFruitlessRounds | crates/cli/src/tunnel.rs:243-250 | of rounds two seconds apart at most 23 can be fruitless and before the deadline |
| Tunnel.TimestampsIncrease | crates/cli/src/tunnel.rs:165-198 | signed timestamps strictly increase from cycle to cycle |
| Tunnel.RefreshIsTaken | crates/cli/src/tunnel.rs:165-198 | a node holding any earlier record of the publisher takes a later one iff that fits the cap and is at most 600 s ahead, and otherwise keeps its table |
| Tunnel.PublishedAge | crates/cli/src/tunnel.rs:165-198 | with latency d and at most f failures in a row, a record is at most 300 + 2d + f(d + 5) s old when the next is out, and fails verification only in the last 2d + f(d + 5) |
| Tunnel.FreshUntilNext | crates/core/src/record.rs:107-114 | in every run, with any failures in between, a published record verifies until the next is out iff that is before the clock shows 301 s more than at signing |
| Tunnel.FreshExactly | crates/cli/src/tunnel.rs:11-14 | that is, iff no attempt in between failed and this put plus the next round fit in what was left of the second of signing |
| Tunnel.FreshOnlyWithoutLatency | crates/cli/src/tunnel.rs:11-14 | a latency bound guarantees this in every run without failures iff it is zero |
| Tunnel.PublishedNameResolves | crates/cli/src/tunnel.rs:118-236 | a signed record received by a node is held; a get whose query finds it is answered so that the name resolves, while it verifies, to a record at least as new |
| Tunnel.PublishedPeerIsDialed | crates/cli/src/tunnel.rs:254-274 | a published record, found fresh among values of no use, makes the peer that signed it be dialed |

## Left out

- libp2p: swarm construction, transports, relay, hole punching, Kademlia routing and replication; only the local table, query events and the local write of a put are modelled.
- What the CBOR library refuses inside entries with unknown names: any well-formed item is skipped here, while the library refuses simple values it does not know and nesting beyond its limit, so the model accepts at least as much; error texts.
- Internals of SHA-256, ed25519 and peer-id derivation.
- Byte copying in `splice`, dialing the advertised addresses, collecting and sorting advertised addresses.
- Zeroizing, file permissions and path lookup in the key store; the meta file holds a number here rather than its decimal text, and I/O failures other than those of the keyring are not modelled.
- JSON and TOML parsing, CLI handling, diagnostics, the `rtt` map and the `doctor` snapshot: plumbing or last-value state with easy properties only.
- The Java mod: UI and process launching.
- Grind.SearchIsSound: the attempts counter is unbounded here, while the atomic wraps at 2^64.
- Tunnel.PublishedAge: the two sleeps are taken to last exactly 300 and 5 seconds; timer slack counts as latency of the next round.
- RateLimit.RateLimiter.Allow: tokens are reals, so floating-point rounding is not modelled.
