/** The signed location record and its wire format. */
module Records {
  import opened Bytes
  import opened Cbor
  import opened Reader
  import opened Entries

  const MAX_RECORD_BYTES: nat := 8192

  type Addrs = a: seq<Text> | |a| <= U64_MAX witness []

  datatype Body = Body(v: u8, pubkey: Key32, peerId: Text, addrs: Addrs, vanity: Text, ts: u64, ttl: u32)
  datatype Record = Record(body: Body, sig: Sig64)

  datatype ParseError = TooLarge(limit: nat) | Malformed

  // ----- encoding: fields in declaration order -----

  const V: Text := Ascii("v")
  const PUBKEY: Text := Ascii("pubkey")
  const PEER_ID: Text := Ascii("peer_id")
  const ADDRS: Text := Ascii("addrs")
  const VANITY: Text := Ascii("vanity")
  const TS: Text := Ascii("ts")
  const TTL: Text := Ascii("ttl")
  const BODY: Text := Ascii("body")
  const SIG: Text := Ascii("sig")

  /** A struct field: its name and its serialized value. */
  datatype Named = Named(name: Text, item: Item)

  predicate Serializable(fs: seq<Named>) {
    && (forall j :: 0 <= j < |fs| ==> Encodable(fs[j].item))
    && (forall j, k :: 0 <= j < k < |fs| ==> fs[j].name != fs[k].name)
  }

  /** A struct is a map from field names to values, in declaration order. */
  function Struct(fs: seq<Named>): (kvs: seq<Item>)
    requires Serializable(fs)
    ensures |kvs| == 2 * |fs| && AllEncodable(kvs)
  {
    if fs == [] then []
    else
      var kvs := [Tstr(fs[0].name), fs[0].item] + Struct(fs[1..]);
      EncodePair(kvs);
      kvs
  }

  function TextItems(ts: seq<Text>): (xs: seq<Item>)
    ensures |xs| == |ts| && AllEncodable(xs)
  {
    if ts == [] then [] else [Tstr(ts[0])] + TextItems(ts[1..])
  }

  function BodyFields(b: Body): (fs: seq<Named>)
    ensures Serializable(fs)
  {
    FieldNamesDiffer();
    [Named(V, Uint(b.v)), Named(PUBKEY, Bstr(b.pubkey)), Named(PEER_ID, Tstr(b.peerId)),
     Named(ADDRS, Arr(TextItems(b.addrs), false)), Named(VANITY, Tstr(b.vanity)),
     Named(TS, Uint(b.ts)), Named(TTL, Uint(b.ttl))]
  }

  function BodyItem(b: Body): (i: Item)
    ensures Encodable(i)
  {
    Map(Struct(BodyFields(b)), false)
  }

  function RecordFields(r: Record): (fs: seq<Named>)
    ensures Serializable(fs)
  {
    [Named(BODY, BodyItem(r.body)), Named(SIG, Bstr(r.sig))]
  }

  function RecordItem(r: Record): (i: Item)
    ensures Encodable(i)
  {
    Map(Struct(RecordFields(r)), false)
  }

  /** The bytes that are signed. */
  function CanonicalBytes(b: Body): bytes { Encode(BodyItem(b)) }

  function ToBytes(r: Record): bytes { Encode(RecordItem(r)) }

  lemma {:induction false} FieldNamesDiffer()
    ensures V != PUBKEY && PUBKEY != VANITY && BODY != SIG
  {
    assert PUBKEY[0] != VANITY[0];
  }

  lemma {:induction false} EncodePair(kvs: seq<Item>)
    requires |kvs| >= 2
    ensures AllEncodable(kvs) <==> Encodable(kvs[0]) && Encodable(kvs[1]) && AllEncodable(kvs[2..])
    ensures AllEncodable(kvs) ==> EncodeAll(kvs) == Encode(kvs[0]) + Encode(kvs[1]) + EncodeAll(kvs[2..])
  {
    assert kvs[1..][1..] == kvs[2..] && kvs[1..][0] == kvs[1];
  }

  // ----- the exact layout, byte by byte -----

  lemma {:induction false} TextItemsLayout(ts: seq<Text>)
    ensures EncodeAll(TextItems(ts)) == Concatenated(ts)
  {
    if ts != [] {
      TextItemsLayout(ts[1..]);
      assert TextItems(ts)[1..] == TextItems(ts[1..]);
    }
  }

  lemma {:induction false} NameHead(name: Text)
    requires |name| < 24
    ensures Encode(Tstr(name)) == [0x60 + |name|] + name
  {
  }

  lemma {:induction false} StructLayout(fs: seq<Named>, ps: seq<Part>)
    requires Serializable(fs) && |fs| == |ps| && |fs| < 24
    requires forall j :: 0 <= j < |fs| ==> |ps[j].name| < 24 && ps[j] == Part(fs[j].name, Encode(fs[j].item))
    ensures EncodeAll(Struct(fs)) == Laid(ps)
  {
    if fs != [] {
      StructLayout(fs[1..], ps[1..]);
      EncodePair(Struct(fs));
      assert Struct(fs)[2..] == Struct(fs[1..]);
      NameHead(fs[0].name);
    }
  }

  lemma {:induction false} MapLayout(fs: seq<Named>, ps: seq<Part>)
    requires Serializable(fs) && |fs| == |ps| && |fs| < 24
    requires forall j :: 0 <= j < |fs| ==> |ps[j].name| < 24 && ps[j] == Part(fs[j].name, Encode(fs[j].item))
    ensures Encodable(Map(Struct(fs), false)) && Encode(Map(Struct(fs), false)) == [0xA0 + |fs|] + Laid(ps)
  {
    StructLayout(fs, ps);
  }

  function BodyParts(b: Body): (ps: seq<Part>)
    ensures forall p | p in ps :: |p.name| < 24
  {
    [Part(V, Argument(0, b.v)), Part(PUBKEY, [0x58, 0x20] + b.pubkey), Part(PEER_ID, TextBytes(b.peerId)),
     Part(ADDRS, Argument(4, |b.addrs|) + Concatenated(b.addrs)), Part(VANITY, TextBytes(b.vanity)),
     Part(TS, Argument(0, b.ts)), Part(TTL, Argument(0, b.ttl))]
  }

  lemma {:induction false} BodyPartLayout(b: Body, j: nat)
    requires j < 7
    ensures BodyParts(b)[j] == Part(BodyFields(b)[j].name, Encode(BodyFields(b)[j].item))
  {
    TextItemsLayout(b.addrs);
    BytesHead();
  }

  lemma {:induction false} BytesHead()
    ensures Argument(2, 32) == [0x58, 0x20] && Argument(2, 64) == [0x58, 0x40]
  {
    assert BigEndian(32, 1) == [0x20] && BigEndian(64, 1) == [0x40];
  }

  /** The field names, byte by byte. */
  lemma {:induction false} FieldNames()
    ensures V == [0x76] && TS == [0x74, 0x73] && TTL == [0x74, 0x74, 0x6C] && SIG == [0x73, 0x69, 0x67]
    ensures PUBKEY == [0x70, 0x75, 0x62, 0x6B, 0x65, 0x79] && PEER_ID == [0x70, 0x65, 0x65, 0x72, 0x5F, 0x69, 0x64]
    ensures ADDRS == [0x61, 0x64, 0x64, 0x72, 0x73] && VANITY == [0x76, 0x61, 0x6E, 0x69, 0x74, 0x79]
    ensures BODY == [0x62, 0x6F, 0x64, 0x79]
  {
  }

  /** The signed bytes: a seven-entry map, fields in declaration order, the key as a byte string. */
  lemma {:induction false} CanonicalBytesLayout(b: Body)
    ensures CanonicalBytes(b) == [0xA7] + Laid(BodyParts(b))
  {
    forall j | 0 <= j < 7
      ensures |BodyParts(b)[j].name| < 24
      ensures BodyParts(b)[j] == Part(BodyFields(b)[j].name, Encode(BodyFields(b)[j].item))
    {
      BodyPartLayout(b, j);
    }
    MapLayout(BodyFields(b), BodyParts(b));
  }

  /** The stored bytes carry the signed bytes verbatim, then the signature. */
  lemma {:induction false} RecordLayout(r: Record)
    ensures ToBytes(r) == [0xA2] + Laid([Part(BODY, CanonicalBytes(r.body)), Part(SIG, [0x58, 0x40] + r.sig)])
  {
    BytesHead();
    MapLayout(RecordFields(r), [Part(BODY, CanonicalBytes(r.body)), Part(SIG, [0x58, 0x40] + r.sig)]);
  }

  // ----- how large a record gets -----

  function TextSize(t: Text): nat { HeadSize(|t|) + |t| }

  function TextsSize(ts: seq<Text>): nat {
    if ts == [] then 0 else TextSize(ts[0]) + TextsSize(ts[1..])
  }

  function LaidSize(ps: seq<Part>): nat {
    if ps == [] then 0 else 1 + |ps[0].name| + |ps[0].value| + LaidSize(ps[1..])
  }

  lemma {:induction false} LaidHasSize(ps: seq<Part>)
    requires forall p | p in ps :: |p.name| < 24
    ensures |Laid(ps)| == LaidSize(ps)
  {
    if ps != [] {
      LaidHasSize(ps[1..]);
    }
  }

  lemma {:induction false} ConcatenatedHasSize(ts: seq<Text>)
    ensures |Concatenated(ts)| == TextsSize(ts)
  {
    if ts != [] {
      ConcatenatedHasSize(ts[1..]);
    }
  }

  lemma {:induction false} SizeFrom(ps: seq<Part>, k: nat)
    requires k < |ps|
    ensures LaidSize(ps[k..]) == 1 + |ps[k].name| + |ps[k].value| + LaidSize(ps[k + 1..])
  {
    assert ps[k..][1..] == ps[k + 1..];
  }

  lemma {:induction false} SevenParts(ps: seq<Part>)
    requires |ps| == 7
    ensures LaidSize(ps)
         == 7 + |ps[0].name| + |ps[1].name| + |ps[2].name| + |ps[3].name| + |ps[4].name| + |ps[5].name| + |ps[6].name|
            + |ps[0].value| + |ps[1].value| + |ps[2].value| + |ps[3].value|
            + |ps[4].value| + |ps[5].value| + |ps[6].value|
  {
    forall k | 0 <= k < 7
      ensures LaidSize(ps[k..]) == 1 + |ps[k].name| + |ps[k].value| + LaidSize(ps[k + 1..])
    {
      SizeFrom(ps, k);
    }
    assert ps[0..] == ps && ps[7..] == [];
  }

  lemma {:induction false} BodyPartsSizes(b: Body)
    ensures var ps := BodyParts(b);
      && |ps| == 7 && |ps[0].value| == HeadSize(b.v) && |ps[1].value| == 34 && |ps[2].value| == TextSize(b.peerId)
      && |ps[3].value| == HeadSize(|b.addrs|) + TextsSize(b.addrs) && |ps[4].value| == TextSize(b.vanity)
      && |ps[5].value| == HeadSize(b.ts) && |ps[6].value| == HeadSize(b.ttl)
  {
    ConcatenatedHasSize(b.addrs);
    ArgumentSize(0, b.v);
    ArgumentSize(3, |b.peerId|);
    ArgumentSize(4, |b.addrs|);
    ArgumentSize(3, |b.vanity|);
    ArgumentSize(0, b.ts);
    ArgumentSize(0, b.ttl);
  }

  lemma {:induction false} BodySize(b: Body)
    ensures |CanonicalBytes(b)| == 72 + HeadSize(b.v) + TextSize(b.peerId) + HeadSize(|b.addrs|) + TextsSize(b.addrs)
                                   + TextSize(b.vanity) + HeadSize(b.ts) + HeadSize(b.ttl)
  {
    CanonicalBytesLayout(b);
    LaidHasSize(BodyParts(b));
    BodyPartsSizes(b);
    SevenParts(BodyParts(b));
  }

  lemma {:induction false} TwoParts(p: Part, q: Part)
    ensures LaidSize([p, q]) == 2 + |p.name| + |p.value| + |q.name| + |q.value|
  {
    SizeFrom([p, q], 0);
    SizeFrom([p, q], 1);
    assert [p, q][0..] == [p, q] && [p, q][2..] == [];
  }

  /** The exact size of a stored record, from the sizes of what its owner put in. */
  lemma {:induction false} RecordSize(r: Record)
    ensures |ToBytes(r)| == 148 + HeadSize(r.body.v) + TextSize(r.body.peerId)
                            + HeadSize(|r.body.addrs|) + TextsSize(r.body.addrs)
                            + TextSize(r.body.vanity) + HeadSize(r.body.ts) + HeadSize(r.body.ttl)
  {
    BodySize(r.body);
    RecordLayout(r);
    var body, sig := Part(BODY, CanonicalBytes(r.body)), Part(SIG, [0x58, 0x40] + r.sig);
    LaidHasSize([body, sig]);
    TwoParts(body, sig);
  }

  // ----- decoding: fields in any order, unknown ones skipped, repeated ones refused -----

  datatype BodyDraft = BodyDraft(
    v: Option<u8>, pubkey: Option<Key32>, peerId: Option<Text>, addrs: Option<Addrs>, vanity: Option<Text>,
    ts: Option<u64>, ttl: Option<u32>)

  const NO_BODY: BodyDraft := BodyDraft(None, None, None, None, None, None, None)

  function TextAt(s: bytes): (r: Parsed<Text>)
    ensures r.Got? ==> |r.rest| <= |s|
  {
    match ReadText(s) case Bad => Bad case Got(t, rest) => if IsText(t) then Got(t, rest) else Bad
  }

  function AddrsAt(s: bytes): (r: Parsed<Addrs>)
    ensures r.Got? ==> |r.rest| <= |s|
  {
    match ReadTexts(s)
    case Bad => Bad
    case Got(ts, rest) => if AllText(ts) && |ts| <= U64_MAX then Got(ts, rest) else Bad
  }

  /** The body's field names in declaration order. */
  function BodyName(j: nat): Text {
    if j == 0 then V else if j == 1 then PUBKEY else if j == 2 then PEER_ID else if j == 3 then ADDRS
    else if j == 4 then VANITY else if j == 5 then TS else TTL
  }

  /** Which field a name stands for; 7 for none. */
  function BodyIndex(key: bytes): nat {
    if key == V then 0 else if key == PUBKEY then 1 else if key == PEER_ID then 2 else if key == ADDRS then 3
    else if key == VANITY then 4 else if key == TS then 5 else if key == TTL then 6 else 7
  }

  predicate Filled(d: BodyDraft, j: nat) {
    if j == 0 then d.v.Some? else if j == 1 then d.pubkey.Some? else if j == 2 then d.peerId.Some?
    else if j == 3 then d.addrs.Some? else if j == 4 then d.vanity.Some? else if j == 5 then d.ts.Some?
    else d.ttl.Some?
  }

  /** Reads the value of the `j`-th field. */
  function Fill(j: nat, d: BodyDraft, s: bytes): (r: Parsed<BodyDraft>)
    ensures r.Got? ==> |r.rest| <= |s|
  {
    if j == 0 then
      match ReadBelow(s, 0x100) case Bad => Bad case Got(n, rest) => Got(d.(v := Some(n)), rest)
    else if j == 1 then
      match ReadOctets(s, 32) case Bad => Bad case Got(k, rest) => Got(d.(pubkey := Some(k)), rest)
    else if j == 2 then
      match TextAt(s) case Bad => Bad case Got(t, rest) => Got(d.(peerId := Some(t)), rest)
    else if j == 3 then
      match AddrsAt(s) case Bad => Bad case Got(ts, rest) => Got(d.(addrs := Some(ts)), rest)
    else if j == 4 then
      match TextAt(s) case Bad => Bad case Got(t, rest) => Got(d.(vanity := Some(t)), rest)
    else if j == 5 then
      match ReadBelow(s, WIDE) case Bad => Bad case Got(n, rest) => Got(d.(ts := Some(n)), rest)
    else
      match ReadBelow(s, 0x1_0000_0000) case Bad => Bad case Got(n, rest) => Got(d.(ttl := Some(n)), rest)
  }

  /** Reads the value of a field, once; that of an unknown field is any item. */
  function BodyField(key: bytes, d: BodyDraft, s: bytes): (r: Parsed<BodyDraft>)
    ensures r.Got? ==> |r.rest| <= |s|
  {
    var j := BodyIndex(key);
    if j == 7 then match Decode(s) case Bad => Bad case Got(_, rest) => Got(d, rest)
    else if Filled(d, j) then Bad
    else Fill(j, d, s)
  }

  function BodyOf(d: BodyDraft): Option<Body> {
    match d
    case BodyDraft(Some(v), Some(pubkey), Some(peerId), Some(addrs), Some(vanity), Some(ts), Some(ttl)) =>
      Some(Body(v, pubkey, peerId, addrs, vanity, ts, ttl))
    case _ => None
  }

  function ReadBody(s: bytes): (r: Parsed<Body>)
    ensures r.Got? ==> |r.rest| <= |s|
  {
    match ReadMap(BodyField, s, NO_BODY)
    case Bad => Bad
    case Got(d, rest) => match BodyOf(d) case None => Bad case Some(b) => Got(b, rest)
  }

  datatype RecordDraft = RecordDraft(body: Option<Body>, sig: Option<Sig64>)

  function RecordField(key: bytes, d: RecordDraft, s: bytes): (r: Parsed<RecordDraft>)
    ensures r.Got? ==> |r.rest| <= |s|
  {
    if key == BODY && d.body == None then
      match ReadBody(s) case Bad => Bad case Got(b, rest) => Got(d.(body := Some(b)), rest)
    else if key == SIG && d.sig == None then
      match ReadOctets(s, 64) case Bad => Bad case Got(k, rest) => Got(d.(sig := Some(k)), rest)
    else if key in {BODY, SIG} then Bad
    else match Decode(s) case Bad => Bad case Got(_, rest) => Got(d, rest)
  }

  function ReadRecord(s: bytes): (r: Parsed<Record>)
    ensures r.Got? ==> |r.rest| <= |s|
  {
    match ReadMap(RecordField, s, RecordDraft(None, None))
    case Bad => Bad
    case Got(d, rest) =>
      if d.body.Some? && d.sig.Some? then Got(Record(d.body.value, d.sig.value), rest) else Bad
  }

  /** The size cap comes before any decoding; bytes after the record are ignored. */
  function FromBytes(s: bytes): Result<Record, ParseError> {
    if |s| > MAX_RECORD_BYTES then Err(TooLarge(MAX_RECORD_BYTES))
    else match ReadRecord(s) case Bad => Err(Malformed) case Got(r, _) => Ok(r)
  }

  // ----- decoding undoes encoding -----

  /** The drafts of a body as its fields arrive in declaration order. */
  function BodyDrafts(b: Body): seq<BodyDraft> {
    [NO_BODY, NO_BODY.(v := Some(b.v)),
     NO_BODY.(v := Some(b.v), pubkey := Some(b.pubkey)),
     NO_BODY.(v := Some(b.v), pubkey := Some(b.pubkey), peerId := Some(b.peerId)),
     NO_BODY.(v := Some(b.v), pubkey := Some(b.pubkey), peerId := Some(b.peerId), addrs := Some(b.addrs)),
     BodyDraft(Some(b.v), Some(b.pubkey), Some(b.peerId), Some(b.addrs), Some(b.vanity), None, None),
     BodyDraft(Some(b.v), Some(b.pubkey), Some(b.peerId), Some(b.addrs), Some(b.vanity), Some(b.ts), None),
     FullDraft(b)]
  }

  function FullDraft(b: Body): BodyDraft {
    BodyDraft(Some(b.v), Some(b.pubkey), Some(b.peerId), Some(b.addrs), Some(b.vanity), Some(b.ts), Some(b.ttl))
  }

  /** Reading from `s` what the `j`-th field asks for gives that of `b`, and leaves `rest`. */
  predicate Delivers(b: Body, j: nat, s: bytes, rest: bytes) {
    if j == 0 then ReadUint(s) == Got(b.v, rest)
    else if j == 1 then ReadOctets(s, 32) == Got(b.pubkey, rest)
    else if j == 2 then ReadText(s) == Got(b.peerId, rest)
    else if j == 3 then ReadTexts(s) == Got(b.addrs, rest)
    else if j == 4 then ReadText(s) == Got(b.vanity, rest)
    else if j == 5 then ReadUint(s) == Got(b.ts, rest)
    else ReadUint(s) == Got(b.ttl, rest)
  }

  lemma {:induction false} DeliveredField(b: Body, j: nat, s: bytes, rest: bytes)
    requires j < 7 && Delivers(b, j, s, rest)
    ensures BodyField(BodyName(j), BodyDrafts(b)[j], s) == Got(BodyDrafts(b)[j + 1], rest)
  {
    IndexOfName(j);
    DeliveredFill(b, j, s, rest);
  }

  lemma {:induction false} IndexOfName(j: nat)
    requires j < 7
    ensures BodyIndex(BodyName(j)) == j
  {
    FieldNamesDiffer();
  }

  lemma {:induction false} DeliveredFill(b: Body, j: nat, s: bytes, rest: bytes)
    requires j < 7 && Delivers(b, j, s, rest)
    ensures !Filled(BodyDrafts(b)[j], j) && Fill(j, BodyDrafts(b)[j], s) == Got(BodyDrafts(b)[j + 1], rest)
  {
  }

  lemma {:induction false} PlainDelivers(b: Body, j: nat, rest: bytes)
    requires j < 7
    ensures BodyParts(b)[j].name == BodyName(j) && Delivers(b, j, BodyParts(b)[j].value + rest, rest)
  {
    BytesHead();
    if j == 0 {
      PlainUint(b.v, rest);
    } else if j == 1 {
      PlainOctets(b.pubkey, rest);
    } else if j == 2 {
      PlainText(b.peerId, rest);
    } else if j == 3 {
      PlainTexts(b.addrs, rest);
    } else if j == 4 {
      PlainText(b.vanity, rest);
    } else if j == 5 {
      PlainUint(b.ts, rest);
    } else {
      PlainUint(b.ttl, rest);
    }
  }

  /** Parts that fill the drafts of a body, as a map, are read as that body. */
  lemma {:induction false} BodyFromParts(b: Body, ps: seq<Part>, rest: bytes)
    requires |ps| == 7 && FillsUpTo(BodyField, ps, BodyDrafts(b), 7)
    ensures ReadBody([0xA7] + Laid(ps) + rest) == Got(b, rest)
  {
    MapRead(BodyField, ps, BodyDrafts(b), rest);
  }

  lemma {:induction false} BodyRoundTrip(b: Body, rest: bytes)
    ensures ReadBody(CanonicalBytes(b) + rest) == Got(b, rest)
  {
    forall j, tail | 0 <= j < 7
      ensures BodyField(BodyParts(b)[j].name, BodyDrafts(b)[j], BodyParts(b)[j].value + tail)
           == Got(BodyDrafts(b)[j + 1], tail)
    {
      PlainDelivers(b, j, tail);
      DeliveredField(b, j, BodyParts(b)[j].value + tail, tail);
    }
    BodyFromParts(b, BodyParts(b), rest);
    CanonicalBytesLayout(b);
  }

  function RecordParts(body: bytes, sig: bytes): seq<Part> { [Part(BODY, body), Part(SIG, sig)] }

  function RecordDrafts(r: Record): seq<RecordDraft> {
    [RecordDraft(None, None), RecordDraft(Some(r.body), None), RecordDraft(Some(r.body), Some(r.sig))]
  }

  lemma {:induction false} BodyPartRead(r: Record, s: bytes, rest: bytes)
    requires ReadBody(s) == Got(r.body, rest)
    ensures RecordField(BODY, RecordDraft(None, None), s) == Got(RecordDraft(Some(r.body), None), rest)
  {
  }

  lemma {:induction false} SigPartRead(r: Record, s: bytes, rest: bytes)
    requires ReadOctets(s, 64) == Got(r.sig, rest)
    ensures RecordField(SIG, RecordDraft(Some(r.body), None), s) == Got(RecordDraft(Some(r.body), Some(r.sig)), rest)
  {
    FieldNamesDiffer();
  }

  /** A body and a signature in any form that is read, as a map, are read as the record. */
  lemma {:induction false} RecordFromParts(r: Record, body: bytes, sig: bytes, rest: bytes)
    requires forall tail :: ReadBody(body + tail) == Got(r.body, tail)
    requires forall tail :: ReadOctets(sig + tail, 64) == Got(r.sig, tail)
    ensures ReadRecord([0xA2] + Laid(RecordParts(body, sig)) + rest) == Got(r, rest)
  {
    var ps, drafts := RecordParts(body, sig), RecordDrafts(r);
    forall j, tail | 0 <= j < 2
      ensures RecordField(ps[j].name, drafts[j], ps[j].value + tail) == Got(drafts[j + 1], tail)
    {
      if j == 0 {
        BodyPartRead(r, body + tail, tail);
      } else {
        SigPartRead(r, sig + tail, tail);
      }
    }
    MapRead(RecordField, ps, drafts, rest);
  }

  /** A serialized record is read back whatever follows it, exactly up to the size cap. */
  lemma {:induction false} RecordRoundTrip(r: Record, rest: bytes)
    ensures FromBytes(ToBytes(r) + rest)
         == if |ToBytes(r) + rest| <= MAX_RECORD_BYTES then Ok(r) else Err(TooLarge(MAX_RECORD_BYTES))
  {
    forall tail: bytes ensures ReadBody(CanonicalBytes(r.body) + tail) == Got(r.body, tail) {
      BodyRoundTrip(r.body, tail);
    }
    forall tail: bytes ensures ReadOctets([0x58, 0x40] + r.sig + tail, 64) == Got(r.sig, tail) {
      BytesHead();
      PlainOctets(r.sig, tail);
    }
    RecordFromParts(r, CanonicalBytes(r.body), [0x58, 0x40] + r.sig, rest);
    RecordLayout(r);
  }

  lemma {:induction false} SerializedParsesUpToCap(r: Record)
    ensures FromBytes(ToBytes(r)) == Ok(r) <==> |ToBytes(r)| <= MAX_RECORD_BYTES
  {
    RecordRoundTrip(r, []);
    assert ToBytes(r) + [] == ToBytes(r);
  }

  /** The signed bytes determine the body, and none is a proper prefix of another. */
  lemma {:induction false} CanonicalBytesPrefixFree(a: Body, b: Body)
    requires CanonicalBytes(a) <= CanonicalBytes(b)
    ensures a == b
  {
    var rest := CanonicalBytes(b)[|CanonicalBytes(a)|..];
    assert CanonicalBytes(b) == CanonicalBytes(a) + rest;
    assert CanonicalBytes(b) == CanonicalBytes(b) + [];
    BodyRoundTrip(a, rest);
    BodyRoundTrip(b, []);
  }

  // ----- entries in any order, missing, repeated, unknown -----

  /** The draft of `b` in which the fields `seen` have been read. */
  function DraftOf(b: Body, seen: set<nat>): BodyDraft {
    BodyDraft(if 0 in seen then Some(b.v) else None, if 1 in seen then Some(b.pubkey) else None,
              if 2 in seen then Some(b.peerId) else None, if 3 in seen then Some(b.addrs) else None,
              if 4 in seen then Some(b.vanity) else None, if 5 in seen then Some(b.ts) else None,
              if 6 in seen then Some(b.ttl) else None)
  }

  function BodyShape(b: Body): Shape<BodyDraft> { Shape(BodyField, BodyParts(b), seen => DraftOf(b, seen)) }

  lemma {:induction false} DeliveredTo(b: Body, seen: set<nat>, j: nat, s: bytes, rest: bytes)
    requires j < 7 && Delivers(b, j, s, rest)
    ensures Filled(DraftOf(b, seen), j) <==> j in seen
    ensures Fill(j, DraftOf(b, seen), s) == Got(DraftOf(b, seen + {j}), rest)
  {
  }

  lemma {:induction false} BodyFieldOnce(b: Body, j: nat, seen: set<nat>, rest: bytes)
    requires j < 7
    ensures BodyField(BodyParts(b)[j].name, DraftOf(b, seen), BodyParts(b)[j].value + rest)
         == if j in seen then Bad else Got(DraftOf(b, seen + {j}), rest)
  {
    IndexOfName(j);
    PlainDelivers(b, j, rest);
    DeliveredTo(b, seen, j, BodyParts(b)[j].value + rest, rest);
  }

  lemma {:induction false} BodyTakesOnce(b: Body)
    ensures TakesOnce(BodyShape(b))
  {
    forall j, seen: set<nat>, rest: bytes | 0 <= j < 7
      ensures BodyField(BodyParts(b)[j].name, DraftOf(b, seen), BodyParts(b)[j].value + rest)
           == if j in seen then Bad else Got(DraftOf(b, seen + {j}), rest)
    {
      BodyFieldOnce(b, j, seen, rest);
    }
  }

  /** Among a body's entries: one of its fields, or any item under another name. */
  ghost predicate BodyEntry(e: Entry) {
    match e
    case Known(j) => j < 7
    case Unknown(p) =>
      |p.name| < 24 && p.name !in {V, PUBKEY, PEER_ID, ADDRS, VANITY, TS, TTL} && IsItem(p.value)
  }

  ghost predicate BodyEntries(es: seq<Entry>) { forall i :: 0 <= i < |es| ==> BodyEntry(es[i]) }

  /** The bytes encode some item. */
  ghost predicate IsItem(value: bytes) { exists item :: Encodable(item) && value == Cbor.Encode(item) }

  lemma {:induction false} ItemSkipped(value: bytes, rest: bytes)
    requires IsItem(value)
    ensures Decode(value + rest).Got? && Decode(value + rest).rest == rest
  {
    var item :| Encodable(item) && value == Cbor.Encode(item);
    DecodeEncode(item, rest);
  }

  lemma {:induction false} BodyEntriesFit(b: Body, es: seq<Entry>)
    requires BodyEntries(es)
    ensures EntriesOk(BodyShape(b), es) && InRange(BodyParts(b), es)
  {
    forall i, seen: set<nat>, rest: bytes | 0 <= i < |es| && es[i].Unknown?
      ensures BodyField(es[i].part.name, DraftOf(b, seen), es[i].part.value + rest) == Got(DraftOf(b, seen), rest)
    {
      assert BodyEntry(es[i]);
      ItemSkipped(es[i].part.value, rest);
    }
    forall i | 0 <= i < |es| ensures EntryOk(BodyShape(b), es[i]) {
      assert BodyEntry(es[i]);
    }
  }

  const ALL_FIELDS: set<nat> := {0, 1, 2, 3, 4, 5, 6}

  lemma {:induction false} CompleteDraft(b: Body, seen: set<nat>)
    ensures BodyOf(DraftOf(b, seen)) == if forall j :: 0 <= j < 7 ==> j in seen then Some(b) else None
  {
    assert ALL_FIELDS <= seen <==> forall j :: 0 <= j < 7 ==> j in seen;
  }

  /** A body's entries as they are written. */
  function BodyMap(b: Body, es: seq<Entry>): bytes
    requires |es| < 24 && InRange(BodyParts(b), es)
  {
    [0xA0 + |es|] + Laid(Written(BodyParts(b), es))
  }

  /** A map of fewer than 24 entries is read as the body exactly when each of its fields is there
      once, in whatever order and with whatever else in between; else it is refused. */
  lemma {:induction false} BodyEntriesExact(b: Body, es: seq<Entry>, rest: bytes)
    requires BodyEntries(es) && |es| < 24 && InRange(BodyParts(b), es)
    ensures ReadBody(BodyMap(b, es) + rest) == if EachOnce(es, 7) then Got(b, rest) else Bad
  {
    BodyTakesOnce(b);
    BodyEntriesFit(b, es);
    NoneRepeats(es);
    SeenExact(es);
    if k: nat :| Repeats(es, k) {
      WithRepeat(BodyShape(b), es, k, rest);
    } else {
      WithoutRepeat(BodyShape(b), es, rest);
      CompleteDraft(b, Seen(es));
    }
    assert DraftOf(b, {}) == NO_BODY;
  }

  // ----- and those of the record around it -----

  function RecordDraftOf(r: Record, seen: set<nat>): RecordDraft {
    RecordDraft(if 0 in seen then Some(r.body) else None, if 1 in seen then Some(r.sig) else None)
  }

  function RecordShape(r: Record, body: bytes): Shape<RecordDraft> {
    Shape(RecordField, RecordParts(body, [0x58, 0x40] + r.sig), seen => RecordDraftOf(r, seen))
  }

  lemma {:induction false} RecordFieldOnce(r: Record, body: bytes, j: nat, seen: set<nat>, rest: bytes)
    requires j < 2 && ReadBody(body + rest) == Got(r.body, rest)
    ensures var p := RecordParts(body, [0x58, 0x40] + r.sig)[j];
      RecordField(p.name, RecordDraftOf(r, seen), p.value + rest)
      == if j in seen then Bad else Got(RecordDraftOf(r, seen + {j}), rest)
  {
    FieldNamesDiffer();
    BytesHead();
    PlainOctets(r.sig, rest);
  }

  lemma {:induction false} RecordTakesOnce(r: Record, body: bytes)
    requires forall tail :: ReadBody(body + tail) == Got(r.body, tail)
    ensures TakesOnce(RecordShape(r, body))
  {
    var ps := RecordParts(body, [0x58, 0x40] + r.sig);
    forall j, seen: set<nat>, rest: bytes | 0 <= j < 2
      ensures RecordField(ps[j].name, RecordDraftOf(r, seen), ps[j].value + rest)
           == if j in seen then Bad else Got(RecordDraftOf(r, seen + {j}), rest)
    {
      RecordFieldOnce(r, body, j, seen, rest);
    }
  }

  /** Among a record's entries: its body, its signature, or any item under another name. */
  ghost predicate RecordEntry(e: Entry) {
    match e
    case Known(j) => j < 2
    case Unknown(p) => |p.name| < 24 && p.name !in {BODY, SIG} && IsItem(p.value)
  }

  ghost predicate RecordEntries(es: seq<Entry>) { forall i :: 0 <= i < |es| ==> RecordEntry(es[i]) }

  lemma {:induction false} RecordEntriesFit(r: Record, body: bytes, es: seq<Entry>)
    requires RecordEntries(es)
    ensures EntriesOk(RecordShape(r, body), es) && InRange(RecordParts(body, [0x58, 0x40] + r.sig), es)
  {
    forall i, seen: set<nat>, rest: bytes | 0 <= i < |es| && es[i].Unknown?
      ensures RecordField(es[i].part.name, RecordDraftOf(r, seen), es[i].part.value + rest)
           == Got(RecordDraftOf(r, seen), rest)
    {
      assert RecordEntry(es[i]);
      ItemSkipped(es[i].part.value, rest);
    }
    forall i | 0 <= i < |es| ensures EntryOk(RecordShape(r, body), es[i]) {
      assert RecordEntry(es[i]);
    }
  }

  /** A record's entries as they are written, around the bytes of a body. */
  function RecordMap(r: Record, body: bytes, es: seq<Entry>): bytes
    requires |es| < 24 && InRange(RecordParts(body, [0x58, 0x40] + r.sig), es)
  {
    [0xA0 + |es|] + Laid(Written(RecordParts(body, [0x58, 0x40] + r.sig), es))
  }

  lemma {:induction false} RecordEntriesExact(r: Record, body: bytes, es: seq<Entry>, rest: bytes)
    requires RecordEntries(es) && |es| < 24 && InRange(RecordParts(body, [0x58, 0x40] + r.sig), es)
    requires forall tail :: ReadBody(body + tail) == Got(r.body, tail)
    ensures ReadRecord(RecordMap(r, body, es) + rest) == if EachOnce(es, 2) then Got(r, rest) else Bad
  {
    RecordTakesOnce(r, body);
    RecordEntriesFit(r, body, es);
    RecordOnce(es);
    if k: nat :| Repeats(es, k) {
      WithRepeat(RecordShape(r, body), es, k, rest);
      RecordFinished(r, RecordMap(r, body, es) + rest, None, rest);
    } else {
      WithoutRepeat(RecordShape(r, body), es, rest);
      RecordFinished(r, RecordMap(r, body, es) + rest, Some(Seen(es)), rest);
    }
  }

  lemma {:induction false} RecordOnce(es: seq<Entry>)
    ensures EachOnce(es, 2) <==> (forall k :: !Repeats(es, k)) && 0 in Seen(es) && 1 in Seen(es)
  {
    NoneRepeats(es);
    SeenExact(es);
  }

  lemma {:induction false} RecordFinished(r: Record, s: bytes, seen: Option<set<nat>>, rest: bytes)
    requires ReadMap(RecordField, s, RecordDraft(None, None))
          == if seen.Some? then Got(RecordDraftOf(r, seen.value), rest) else Bad
    ensures ReadRecord(s) == if seen.Some? && 0 in seen.value && 1 in seen.value then Got(r, rest) else Bad
  {
  }

  lemma {:induction false} RecordRefused(body: bytes, sig: bytes, rest: bytes)
    requires forall tail :: ReadBody(body + tail) == Bad
    ensures ReadRecord([0xA2] + Laid(RecordParts(body, sig)) + rest) == Bad
  {
    MapRefused(RecordField, RecordParts(body, sig), [RecordDraft(None, None)], 0, rest);
  }

  /** So, within the cap, a record whose map and whose body's map each hold every field once, in any
      order and among others, parses; a repeated or missing field makes it malformed. */
  lemma {:induction false} RecordParsesExactly(r: Record, inner: seq<Entry>, outer: seq<Entry>, rest: bytes)
    requires BodyEntries(inner) && |inner| < 24 && InRange(BodyParts(r.body), inner) && EachOnce(inner, 7)
    requires RecordEntries(outer) && |outer| < 24
    requires InRange(RecordParts(BodyMap(r.body, inner), [0x58, 0x40] + r.sig), outer)
    ensures var s := RecordMap(r, BodyMap(r.body, inner), outer) + rest;
      |s| <= MAX_RECORD_BYTES ==> FromBytes(s) == if EachOnce(outer, 2) then Ok(r) else Err(Malformed)
  {
    forall tail: bytes ensures ReadBody(BodyMap(r.body, inner) + tail) == Got(r.body, tail) {
      BodyEntriesExact(r.body, inner, tail);
    }
    RecordEntriesExact(r, BodyMap(r.body, inner), outer, rest);
  }

  lemma {:induction false} BodyRefusedIsMalformed(b: Body, inner: seq<Entry>, sig: bytes, rest: bytes)
    requires BodyEntries(inner) && |inner| < 24 && InRange(BodyParts(b), inner) && !EachOnce(inner, 7)
    ensures var s := [0xA2] + Laid(RecordParts(BodyMap(b, inner), sig)) + rest;
      |s| <= MAX_RECORD_BYTES ==> FromBytes(s) == Err(Malformed)
  {
    forall tail: bytes ensures ReadBody(BodyMap(b, inner) + tail) == Bad {
      BodyEntriesExact(b, inner, tail);
    }
    RecordRefused(BodyMap(b, inner), sig, rest);
  }

  // ----- the shortest bytes that parse to a record -----

  /** The shortest form of the `j`-th field of a draft that has it. */
  function Compact(d: BodyDraft, j: nat): bytes
    requires Filled(d, j)
  {
    if j == 0 then CompactUint(d.v.value) else if j == 1 then CompactOctets(d.pubkey.value)
    else if j == 2 then TextBytes(d.peerId.value) else if j == 3 then CompactTexts(d.addrs.value)
    else if j == 4 then TextBytes(d.vanity.value) else if j == 5 then CompactUint(d.ts.value)
    else CompactUint(d.ttl.value)
  }

  function CompactPart(b: Body, j: nat): Part { Part(BodyName(j), Compact(FullDraft(b), j)) }

  function CompactParts(b: Body): (ps: seq<Part>)
    ensures |ps| == 7 && (forall p | p in ps :: |p.name| < 24) && forall j :: 0 <= j < 7 ==> ps[j] == CompactPart(b, j)
  {
    seq(7, j requires 0 <= j => CompactPart(b, j))
  }

  function CompactBody(b: Body): bytes { [0xA7] + Laid(CompactParts(b)) }

  function CompactBytes(r: Record): bytes {
    [0xA2] + Laid(RecordParts(CompactBody(r.body), CompactOctets(r.sig)))
  }

  lemma {:induction false} CompactDelivers(b: Body, j: nat, rest: bytes)
    requires j < 7
    ensures Delivers(b, j, Compact(FullDraft(b), j) + rest, rest)
  {
    if j == 0 {
      CompactUintRead(b.v, rest);
    } else if j == 1 {
      CompactOctetsRead(b.pubkey, rest);
    } else if j == 2 {
      PlainText(b.peerId, rest);
    } else if j == 3 {
      CompactTextsRead(b.addrs, rest);
    } else if j == 4 {
      PlainText(b.vanity, rest);
    } else if j == 5 {
      CompactUintRead(b.ts, rest);
    } else {
      CompactUintRead(b.ttl, rest);
    }
  }

  lemma {:induction false} CompactBodyParses(b: Body, rest: bytes)
    ensures ReadBody(CompactBody(b) + rest) == Got(b, rest)
  {
    forall j, tail | 0 <= j < 7
      ensures BodyField(CompactParts(b)[j].name, BodyDrafts(b)[j], CompactParts(b)[j].value + tail)
           == Got(BodyDrafts(b)[j + 1], tail)
    {
      CompactDelivers(b, j, tail);
      DeliveredField(b, j, CompactParts(b)[j].value + tail, tail);
    }
    BodyFromParts(b, CompactParts(b), rest);
  }

  lemma {:induction false} CompactParses(r: Record, rest: bytes)
    ensures ReadRecord(CompactBytes(r) + rest) == Got(r, rest)
  {
    forall tail: bytes ensures ReadBody(CompactBody(r.body) + tail) == Got(r.body, tail) {
      CompactBodyParses(r.body, tail);
    }
    forall tail: bytes ensures ReadOctets(CompactOctets(r.sig) + tail, 64) == Got(r.sig, tail) {
      CompactOctetsRead(r.sig, tail);
    }
    RecordFromParts(r, CompactBody(r.body), CompactOctets(r.sig), rest);
  }

  /** What a field is worth, once read: its name, and its shortest form. */
  function Worth(d: BodyDraft, j: nat): nat { if Filled(d, j) then 1 + |BodyName(j)| + |Compact(d, j)| else 0 }

  function Worths(d: BodyDraft): (ws: seq<int>)
    ensures |ws| == 7 && forall j :: 0 <= j < 7 ==> ws[j] == Worth(d, j)
  {
    seq(7, j requires 0 <= j => Worth(d, j))
  }

  function Sum(ws: seq<int>): int
    requires |ws| == 7
  {
    ws[0] + ws[1] + ws[2] + ws[3] + ws[4] + ws[5] + ws[6]
  }

  function BodyWeight(d: BodyDraft): int { Sum(Worths(d)) }

  lemma {:induction false} FillTakes(j: nat, d: BodyDraft, s: bytes)
    requires j < 7 && Fill(j, d, s).Got? && |s| < FOUR_GIB
    ensures var r := Fill(j, d, s); Filled(r.value, j) && |Compact(r.value, j)| + |r.rest| <= |s|
  {
    if j in {0, 5, 6} {
      UintTakes(s);
    } else if j == 1 {
      OctetsTake(s, 32);
    } else if j == 3 {
      TextsTake(s);
    } else {
      TextTakes(s);
    }
  }

  predicate SameBut(d: BodyDraft, d': BodyDraft, j: nat) {
    && (j == 0 || d'.v == d.v) && (j == 1 || d'.pubkey == d.pubkey) && (j == 2 || d'.peerId == d.peerId)
    && (j == 3 || d'.addrs == d.addrs) && (j == 4 || d'.vanity == d.vanity) && (j == 5 || d'.ts == d.ts)
    && (j == 6 || d'.ttl == d.ttl)
  }

  lemma {:induction false} FillKeeps(j: nat, d: BodyDraft, s: bytes)
    requires j < 7 && Fill(j, d, s).Got?
    ensures SameBut(d, Fill(j, d, s).value, j)
  {
  }

  lemma {:induction false} SameWorth(d: BodyDraft, d': BodyDraft, j: nat, k: nat)
    requires SameBut(d, d', j) && j < 7 && k < 7 && k != j
    ensures Worth(d', k) == Worth(d, k)
  {
    assert Filled(d', k) == Filled(d, k);
    assert Filled(d, k) ==> Compact(d', k) == Compact(d, k);
  }

  lemma {:induction false} SumGain(ws: seq<int>, vs: seq<int>, j: nat)
    requires |ws| == |vs| == 7 && j < 7 && forall k :: 0 <= k < 7 && k != j ==> vs[k] == ws[k]
    ensures Sum(vs) == Sum(ws) - ws[j] + vs[j]
  {
  }

  lemma {:induction false} BodyFieldTakes(key: bytes, d: BodyDraft, s: bytes)
    requires BodyField(key, d, s).Got? && |s| < FOUR_GIB
    ensures var r := BodyField(key, d, s); BodyWeight(r.value) + |r.rest| <= BodyWeight(d) + 1 + |key| + |s|
  {
    var j := BodyIndex(key);
    if j < 7 {
      var r := Fill(j, d, s);
      FillTakes(j, d, s);
      FillKeeps(j, d, s);
      forall k | 0 <= k < 7 && k != j ensures Worths(r.value)[k] == Worths(d)[k] {
        SameWorth(d, r.value, j, k);
      }
      SumGain(Worths(d), Worths(r.value), j);
      assert BodyName(j) == key;
    }
  }

  lemma {:induction false} CompactBodySize(b: Body)
    ensures |CompactBody(b)| == 1 + BodyWeight(FullDraft(b))
  {
    LaidHasSize(CompactParts(b));
    SevenParts(CompactParts(b));
  }

  lemma {:induction false} BodyTakes(s: bytes)
    requires ReadBody(s).Got? && |s| < FOUR_GIB
    ensures |CompactBody(ReadBody(s).value)| + |ReadBody(s).rest| <= |s|
  {
    forall key, d, t | BodyField(key, d, t).Got? && |t| < FOUR_GIB
      ensures BodyWeight(BodyField(key, d, t).value) + |BodyField(key, d, t).rest| <= BodyWeight(d) + 1 + |key| + |t|
    {
      BodyFieldTakes(key, d, t);
    }
    MapTakes(BodyField, BodyWeight, s, NO_BODY);
    CompactBodySize(ReadBody(s).value);
  }

  function RecordWeight(d: RecordDraft): int {
    (if d.body.Some? then 1 + |BODY| + |CompactBody(d.body.value)| else 0)
    + (if d.sig.Some? then 1 + |SIG| + |CompactOctets(d.sig.value)| else 0)
  }

  lemma {:induction false} RecordFieldTakes(key: bytes, d: RecordDraft, s: bytes)
    requires RecordField(key, d, s).Got? && |s| < FOUR_GIB
    ensures var r := RecordField(key, d, s); RecordWeight(r.value) + |r.rest| <= RecordWeight(d) + 1 + |key| + |s|
  {
    if key == BODY {
      BodyTakes(s);
    } else if key == SIG {
      OctetsTake(s, 64);
    }
  }

  /** No bytes shorter than the compact form parse to a record. */
  lemma {:induction false} RecordTakes(s: bytes)
    requires ReadRecord(s).Got? && |s| < FOUR_GIB
    ensures |CompactBytes(ReadRecord(s).value)| + |ReadRecord(s).rest| <= |s|
  {
    forall key, d, t | RecordField(key, d, t).Got? && |t| < FOUR_GIB
      ensures RecordWeight(RecordField(key, d, t).value) + |RecordField(key, d, t).rest|
           <= RecordWeight(d) + 1 + |key| + |t|
    {
      RecordFieldTakes(key, d, t);
    }
    MapTakes(RecordField, RecordWeight, s, RecordDraft(None, None));
    var r := ReadRecord(s).value;
    LaidHasSize(RecordParts(CompactBody(r.body), CompactOctets(r.sig)));
    TwoParts(Part(BODY, CompactBody(r.body)), Part(SIG, CompactOctets(r.sig)));
  }

  /** How many bytes shorter than its serialization a record can be written: one for a public key
      or a signature of bytes below 24, one for 256 addresses or more, and up to two for a
      timestamp between 2^32 and 2^48. */
  function Saves(r: Record): nat {
    OctetsSave(r.body.pubkey) + TextsSave(|r.body.addrs|) + UintSaves(r.body.ts) + OctetsSave(r.sig)
  }

  lemma {:induction false} CompactSize(r: Record)
    ensures |CompactBytes(r)| + Saves(r) == |ToBytes(r)|
  {
    var b := r.body;
    CompactSizes(b.v, b.addrs, b.pubkey);
    CompactSizes(b.ts, b.addrs, r.sig);
    CompactSizes(b.ttl, b.addrs, r.sig);
    CompactBodySize(b);
    BodyPartsSizes(b);
    BodySize(b);
    RecordSize(r);
    LaidHasSize(RecordParts(CompactBody(b), CompactOctets(r.sig)));
    TwoParts(Part(BODY, CompactBody(b)), Part(SIG, CompactOctets(r.sig)));
  }

  /** A record is what some bytes within the cap parse to exactly when its serialization exceeds
      the cap by no more than it can be shortened. */
  lemma {:induction false} ParsedFromSomething(r: Record)
    ensures (exists s :: FromBytes(s) == Ok(r)) <==> |ToBytes(r)| <= MAX_RECORD_BYTES + Saves(r)
  {
    CompactSize(r);
    if s :| FromBytes(s) == Ok(r) {
      RecordTakes(s);
    }
    if |ToBytes(r)| <= MAX_RECORD_BYTES + Saves(r) {
      CompactParses(r, []);
      assert CompactBytes(r) + [] == CompactBytes(r);
      assert FromBytes(CompactBytes(r)) == Ok(r);
    }
  }

  /** Whatever bytes parse, re-serializing the record adds at most what can be saved, five bytes in
      all; the result parses again, to the same record, exactly when it fits the cap. Bytes that
      leave those five free always do. */
  lemma {:induction false} ReserializedParses(s: bytes)
    requires FromBytes(s).Ok?
    ensures var r := FromBytes(s).value;
      && |ToBytes(r)| <= |s| + Saves(r) && Saves(r) <= 5
      && (FromBytes(ToBytes(r)) == Ok(r) <==> |ToBytes(r)| <= MAX_RECORD_BYTES)
      && (|s| <= MAX_RECORD_BYTES - Saves(r) ==> FromBytes(ToBytes(r)) == Ok(r))
  {
    var r := FromBytes(s).value;
    RecordTakes(s);
    CompactSize(r);
    SerializedParsesUpToCap(r);
    ManyAddresses(r);
  }

  lemma {:induction false} ManyAddresses(r: Record)
    ensures |r.body.addrs| <= |CompactBytes(r)|
  {
    CompactSize(r);
    RecordSize(r);
    AtLeastOneEach(r.body.addrs);
  }

  lemma {:induction false} AtLeastOneEach(ts: seq<Text>)
    ensures |ts| <= TextsSize(ts)
  {
    if ts != [] {
      AtLeastOneEach(ts[1..]);
    }
  }

  function Label(n: nat): (t: Text)
    requires n <= U64_MAX
    ensures |t| == n
  {
    var t := seq(n, _ => 0x61);
    AsciiIsUtf8(t);
    t
  }

  lemma {:induction false} SizeOfEmpties(ts: seq<Text>)
    requires forall i :: 0 <= i < |ts| ==> ts[i] == []
    ensures TextsSize(ts) == |ts|
  {
    if ts != [] {
      SizeOfEmpties(ts[1..]);
    }
  }

  /** And bytes within the cap can parse to a record that does not fit it: 256 empty addresses,
      written until a break instead of counted, and a label that fills up the rest. */
  lemma {:induction false} ReserializedCanExceedCap(pubkey: Key32, sig: Sig64, addrs: Addrs)
    requires |addrs| == 256 && forall i :: 0 <= i < 256 ==> addrs[i] == []
    ensures var r := Record(Body(1, pubkey, [], addrs, Label(7779), 0, 0), sig);
      && FromBytes(CompactBytes(r)) == Ok(r)
      && |ToBytes(r)| == MAX_RECORD_BYTES + 1 && FromBytes(ToBytes(r)) == Err(TooLarge(MAX_RECORD_BYTES))
  {
    var r := Record(Body(1, pubkey, [], addrs, Label(7779), 0, 0), sig);
    SizeOfEmpties(addrs);
    RecordSize(r);
    CompactSize(r);
    CompactParses(r, []);
    assert CompactBytes(r) + [] == CompactBytes(r);
  }
}
