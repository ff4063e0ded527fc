/** Typed reads from a byte stream, as the deserializer makes them for the fields of a struct: every
    form of a value it takes, what is left unread, and the shortest of those forms. */
module Reader {
  import opened Bytes
  import opened Cbor

  /** Keys and byte strings of fixed size are read through a buffer of this size. */
  const SCRATCH: nat := 4096

  const BIG_POSITIVE: nat := 2
  const BIG_NEGATIVE: nat := 3

  /** The next head that is not a tag: tags are passed over. */
  function NextHead(s: bytes): (r: Parsed<HeadValue>)
    ensures r.Got? ==> |r.rest| < |s| && r.value.major < 8 && r.value.major != 6
    decreases |s|
  {
    match DecodeHead(s)
    case Bad => Bad
    case Got(h, rest) => if h.major == 6 then NextHead(rest) else Got(h, rest)
  }

  // ----- how many elements are left in an array or map: a count, or until the break -----

  function LeftOf(h: HeadValue): Option<nat> { if h.info == INDEFINITE then None else Some(h.arg) }

  predicate Ended(s: bytes, left: Option<nat>) {
    left == Some(0) || (left == None && s != [] && s[0] == BREAK)
  }

  function AfterEnd(s: bytes, left: Option<nat>): bytes
    requires Ended(s, left)
  {
    if left == None then s[1..] else s
  }

  function OneLess(left: Option<nat>): Option<nat>
    requires left != Some(0)
  {
    if left == None then None else Some(left.value - 1)
  }

  // ----- the reads -----

  /** An unsigned number, or a big number: tag 2 and the digits, base 256, as a byte string. */
  function ReadUint(s: bytes): (r: Parsed<nat>)
    ensures r.Got? ==> |r.rest| < |s|
    decreases |s|
  {
    match DecodeHead(s)
    case Bad => Bad
    case Got(h, rest) =>
      if h.major == 0 then Got(h.arg, rest)
      else if h.major != 6 || h.arg == BIG_NEGATIVE then Bad
      else if h.arg == BIG_POSITIVE then ReadDigits(rest)
      else ReadUint(rest)
  }

  function ReadDigits(s: bytes): (r: Parsed<nat>)
    ensures r.Got? ==> |r.rest| < |s|
  {
    match DecodeHead(s)
    case Bad => Bad
    case Got(h, rest) =>
      if h.major != 2 then Bad
      else match ReadString(h, rest) case Bad => Bad case Got(digits, rest') => Got(FromBigEndian(digits), rest')
  }

  function ReadBelow(s: bytes, limit: nat): (r: Parsed<nat>)
    ensures r.Got? ==> |r.rest| < |s| && r.value < limit
  {
    match ReadUint(s) case Bad => Bad case Got(n, rest) => if n < limit then Got(n, rest) else Bad
  }

  function ReadText(s: bytes): (r: Parsed<bytes>)
    ensures r.Got? ==> |r.rest| < |s|
  {
    match NextHead(s) case Bad => Bad case Got(h, rest) => if h.major == 3 then ReadString(h, rest) else Bad
  }

  function ReadTextItems(s: bytes, left: Option<nat>): (r: Parsed<seq<bytes>>)
    ensures r.Got? ==> |r.rest| <= |s|
    decreases |s|
  {
    if Ended(s, left) then Got([], AfterEnd(s, left))
    else match ReadText(s)
      case Bad => Bad
      case Got(t, rest) =>
        match ReadTextItems(rest, OneLess(left)) case Bad => Bad case Got(ts, rest') => Got([t] + ts, rest')
  }

  /** A list of texts: an array, or an empty byte string, whose bytes would be its elements. */
  function ReadTexts(s: bytes): (r: Parsed<seq<bytes>>)
    ensures r.Got? ==> |r.rest| < |s|
  {
    match NextHead(s)
    case Bad => Bad
    case Got(h, rest) =>
      if h.major == 4 then ReadTextItems(rest, LeftOf(h))
      else if h.major == 2 then
        match ReadString(h, rest) case Bad => Bad case Got(t, rest') => if t == [] then Got([], rest') else Bad
      else Bad
  }

  /** The first `n` elements, which must be bytes; what follows them is left unread. */
  function ReadByteItems(s: bytes, left: Option<nat>, n: nat): (r: Parsed<bytes>)
    ensures r.Got? ==> |r.rest| <= |s| && |r.value| == n
    decreases n
  {
    if n == 0 then Got([], s)
    else if Ended(s, left) then Bad
    else match ReadBelow(s, 0x100)
      case Bad => Bad
      case Got(b, rest) =>
        match ReadByteItems(rest, OneLess(left), n - 1) case Bad => Bad case Got(bs, rest') => Got([b] + bs, rest')
  }

  /** A given number of bytes: a byte string of that length, or the first elements of an array. */
  function ReadOctets(s: bytes, n: nat): (r: Parsed<bytes>)
    ensures r.Got? ==> |r.rest| < |s| && |r.value| == n
  {
    match NextHead(s)
    case Bad => Bad
    case Got(h, rest) =>
      if h.major == 4 then ReadByteItems(rest, LeftOf(h), n)
      else if h.major != 2 || h.info == INDEFINITE || h.arg != n || n > SCRATCH || |rest| < n then Bad
      else Got(rest[..n], rest[n..])
  }

  /** A field name: a short text or byte string. */
  function ReadKey(s: bytes): (r: Parsed<bytes>)
    ensures r.Got? ==> |r.rest| < |s|
  {
    match NextHead(s)
    case Bad => Bad
    case Got(h, rest) =>
      if h.major !in {2, 3} || h.info == INDEFINITE || h.arg > SCRATCH then Bad else ReadString(h, rest)
  }

  /** Reads the value of a field into a draft of the struct. */
  type FieldReader<!D> = (bytes, D, bytes) -> Parsed<D>

  ghost predicate Consumes<D(!new)>(field: FieldReader<D>) {
    forall key, d, s :: field(key, d, s).Got? ==> |field(key, d, s).rest| <= |s|
  }

  function ReadEntries<D(!new)>(field: FieldReader<D>, s: bytes, left: Option<nat>, d: D): (r: Parsed<D>)
    requires Consumes(field)
    ensures r.Got? ==> |r.rest| <= |s|
    decreases |s|
  {
    if Ended(s, left) then Got(d, AfterEnd(s, left))
    else match ReadKey(s)
      case Bad => Bad
      case Got(key, rest) =>
        match field(key, d, rest) case Bad => Bad case Got(d', rest') => ReadEntries(field, rest', OneLess(left), d')
  }

  /** A struct: a map from field names to values, in any order. */
  function ReadMap<D(!new)>(field: FieldReader<D>, s: bytes, empty: D): (r: Parsed<D>)
    requires Consumes(field)
    ensures r.Got? ==> |r.rest| < |s|
  {
    match NextHead(s)
    case Bad => Bad
    case Got(h, rest) => if h.major == 5 then ReadEntries(field, rest, LeftOf(h), empty) else Bad
  }

  // ----- the shortest form of each -----

  function Numeral(n: nat, k: nat): bytes
    requires k < 24
  {
    [0xC2, 0x40 + k] + BigEndian(n, k)
  }

  /** Between 2^32 and 2^48 a big number is shorter than a head with eight argument bytes. */
  function CompactUint(n: u64): bytes {
    if FOUR_GIB <= n < 256 * FOUR_GIB then Numeral(n, 5)
    else if 256 * FOUR_GIB <= n < 0x1_0000 * FOUR_GIB then Numeral(n, 6)
    else Argument(0, n)
  }

  function UintSaves(n: u64): nat {
    if FOUR_GIB <= n < 256 * FOUR_GIB then 2 else if 256 * FOUR_GIB <= n < 0x1_0000 * FOUR_GIB then 1 else 0
  }

  function TextBytes(t: Text): bytes { Argument(3, |t|) + t }

  function Concatenated(ts: seq<Text>): bytes {
    if ts == [] then [] else TextBytes(ts[0]) + Concatenated(ts[1..])
  }

  /** From 256 texts on, a break is shorter than the count. */
  function CompactTexts(ts: seq<Text>): bytes
    requires |ts| <= U64_MAX
  {
    if |ts| < 256 then Argument(4, |ts|) + Concatenated(ts) else [0x9F] + (Concatenated(ts) + [BREAK])
  }

  function TextsSave(n: nat): nat { if n < 256 then 0 else HeadSize(n) - 2 }

  predicate AllTiny(o: bytes) { forall i :: 0 <= i < |o| ==> o[i] < 24 }

  /** Bytes below 24 are their own encoding: an array of indefinite length that is never closed
      takes one byte more than they do. */
  function CompactOctets(o: bytes): bytes
    requires |o| < 256
  {
    if AllTiny(o) then [0x9F] + o else Argument(2, |o|) + o
  }

  function OctetsSave(o: bytes): nat { if AllTiny(o) then 1 else 0 }

  lemma {:induction false} CompactSizes(n: u64, ts: seq<Text>, o: bytes)
    requires |ts| <= U64_MAX && 24 <= |o| < 256
    ensures |CompactUint(n)| + UintSaves(n) == |Argument(0, n)|
    ensures |CompactTexts(ts)| + TextsSave(|ts|) == |Argument(4, |ts|) + Concatenated(ts)|
    ensures |CompactOctets(o)| + OctetsSave(o) == |Argument(2, |o|) + o|
  {
    ArgumentSize(0, n);
    ArgumentSize(4, |ts|);
    ArgumentSize(2, |o|);
  }

  // ----- reading back the plain forms and the shortest ones -----

  lemma {:induction false} UntaggedHead(s: bytes)
    requires DecodeHead(s).Got? && DecodeHead(s).value.major != 6
    ensures NextHead(s) == DecodeHead(s)
  {
  }

  lemma {:induction false} PlainHead(major: nat, n: nat, content: bytes, rest: bytes)
    requires major < 6 && n < WIDE
    ensures NextHead(Argument(major, n) + content + rest)
         == Got(HeadValue(major, Shortest(n), n), content + rest)
    ensures |content| == n ==> (content + rest)[..n] == content && (content + rest)[n..] == rest
  {
    ArgumentRoundTrip(major, n, content, rest);
    UntaggedHead(Argument(major, n) + content + rest);
  }

  lemma {:induction false} PlainUint(n: u64, rest: bytes)
    ensures ReadUint(Argument(0, n) + rest) == Got(n, rest)
  {
    ArgumentRoundTrip(0, n, [], rest);
  }

  lemma {:induction false} NumeralRead(n: nat, k: nat, rest: bytes)
    requires k < 24 && n < Limit(k)
    ensures ReadUint(Numeral(n, k) + rest) == Got(n, rest)
  {
    var s, digits := Numeral(n, k) + rest, BigEndian(n, k);
    BigEndianRoundTrip(n, k);
    assert s == [32 * 6 + 2] + [] + ([0x40 + k] + digits + rest);
    ReadHead(6, 2, 2, [], [0x40 + k] + digits + rest);
    assert [0x40 + k] + digits + rest == [32 * 2 + k] + [] + (digits + rest);
    ReadHead(2, k, k, [], digits + rest);
    assert (digits + rest)[..k] == digits && (digits + rest)[k..] == rest;
  }

  lemma {:induction false} MoreLimits()
    ensures Limit(1) == 0x100 && Limit(2) == 0x1_0000 && Limit(3) == 0x100_0000 && Limit(4) == FOUR_GIB
    ensures Limit(5) == 256 * FOUR_GIB && Limit(6) == 0x1_0000 * FOUR_GIB
  {
    Limits();
    assert Limit(3) == 256 * Limit(2) && Limit(5) == 256 * Limit(4) && Limit(6) == 256 * Limit(5);
  }

  lemma {:induction false} CompactUintRead(n: u64, rest: bytes)
    ensures ReadUint(CompactUint(n) + rest) == Got(n, rest)
  {
    MoreLimits();
    if FOUR_GIB <= n < 256 * FOUR_GIB {
      NumeralRead(n, 5, rest);
    } else if 256 * FOUR_GIB <= n < 0x1_0000 * FOUR_GIB {
      NumeralRead(n, 6, rest);
    } else {
      PlainUint(n, rest);
    }
  }

  lemma {:induction false} PlainText(t: Text, rest: bytes)
    ensures ReadText(TextBytes(t) + rest) == Got(t, rest)
  {
    PlainHead(3, |t|, t, rest);
  }

  lemma {:induction false} TextItemsOneMore(first: bytes, t: bytes, others: bytes, ts: seq<bytes>, rest: bytes,
                                            left: Option<nat>)
    requires ReadText(first + others) == Got(t, others) && first != [] && first[0] < BREAK && left != Some(0)
    requires ReadTextItems(others, OneLess(left)) == Got(ts, rest)
    ensures ReadTextItems(first + others, left) == Got([t] + ts, rest)
  {
    assert (first + others)[0] == first[0];
  }

  lemma {:induction false} FirstText(ts: seq<Text>, tail: bytes)
    requires ts != []
    ensures Concatenated(ts) + tail == TextBytes(ts[0]) + (Concatenated(ts[1..]) + tail)
    ensures TextBytes(ts[0])[0] < BREAK
  {
  }

  function LeftFor(known: bool, n: nat): Option<nat> { if known then Some(n) else None }

  lemma {:induction false} NoTextsRead(known: bool, tail: bytes, rest: bytes)
    requires Ended(tail, LeftFor(known, 0)) && AfterEnd(tail, LeftFor(known, 0)) == rest
    ensures ReadTextItems(Concatenated([]) + tail, LeftFor(known, 0)) == Got([], rest)
  {
    assert Concatenated([]) + tail == tail;
  }

  lemma {:induction false} FirstTextRead(ts: seq<Text>, known: bool, tail: bytes, rest: bytes)
    requires ts != []
    requires ReadTextItems(Concatenated(ts[1..]) + tail, LeftFor(known, |ts| - 1)) == Got(ts[1..], rest)
    ensures ReadTextItems(TextBytes(ts[0]) + (Concatenated(ts[1..]) + tail), LeftFor(known, |ts|)) == Got(ts, rest)
  {
    var others := Concatenated(ts[1..]) + tail;
    PlainText(ts[0], others);
    TextItemsOneMore(TextBytes(ts[0]), ts[0], others, ts[1..], rest, LeftFor(known, |ts|));
    assert [ts[0]] + ts[1..] == ts;
  }

  /** The texts one after the other, then either the known count is used up or a break follows. */
  lemma {:induction false} TextItemsRead(ts: seq<Text>, known: bool, tail: bytes, rest: bytes)
    requires Ended(tail, LeftFor(known, 0)) && AfterEnd(tail, LeftFor(known, 0)) == rest
    ensures ReadTextItems(Concatenated(ts) + tail, LeftFor(known, |ts|)) == Got(ts, rest)
    decreases |ts|
  {
    if ts == [] {
      NoTextsRead(known, tail, rest);
    } else {
      TextItemsRead(ts[1..], known, tail, rest);
      FirstTextRead(ts, known, tail, rest);
      FirstText(ts, tail);
    }
  }

  lemma {:induction false} PlainTexts(ts: seq<Text>, rest: bytes)
    requires |ts| <= U64_MAX
    ensures ReadTexts(Argument(4, |ts|) + Concatenated(ts) + rest) == Got(ts, rest)
  {
    PlainHead(4, |ts|, Concatenated(ts), rest);
    TextItemsRead(ts, true, rest, rest);
  }

  lemma {:induction false} OpenArray(content: bytes, rest: bytes)
    ensures NextHead([0x9F] + content + rest) == Got(HeadValue(4, INDEFINITE, 0), content + rest)
  {
    OpenRoundTrip(4, content, rest);
    UntaggedHead([0x9F] + content + rest);
  }

  lemma {:induction false} TextsFrom(s: bytes, tail: bytes, ts: seq<bytes>, rest: bytes)
    requires NextHead(s) == Got(HeadValue(4, INDEFINITE, 0), tail) && ReadTextItems(tail, None) == Got(ts, rest)
    ensures ReadTexts(s) == Got(ts, rest)
  {
  }

  lemma {:induction false} OpenTexts(closed: bytes, ts: seq<bytes>, rest: bytes)
    requires ReadTextItems(closed + rest, None) == Got(ts, rest)
    ensures ReadTexts([0x9F] + closed + rest) == Got(ts, rest)
  {
    OpenArray(closed, rest);
    TextsFrom([0x9F] + closed + rest, closed + rest, ts, rest);
  }

  lemma {:induction false} CompactTextsRead(ts: seq<Text>, rest: bytes)
    requires |ts| <= U64_MAX
    ensures ReadTexts(CompactTexts(ts) + rest) == Got(ts, rest)
  {
    if |ts| < 256 {
      PlainTexts(ts, rest);
    } else {
      assert ([BREAK] + rest)[1..] == rest;
      TextItemsRead(ts, false, [BREAK] + rest, rest);
      assert Concatenated(ts) + [BREAK] + rest == Concatenated(ts) + ([BREAK] + rest);
      OpenTexts(Concatenated(ts) + [BREAK], ts, rest);
    }
  }

  lemma {:induction false} TinyByteRead(b: byte, tail: bytes)
    requires b < 24
    ensures ReadUint([b] + tail) == Got(b, tail)
  {
    assert [b] + tail == [b] + [] + tail;
    ReadHead(0, b, b, [], tail);
  }

  lemma {:induction false} OneMoreByte(s: bytes, b: byte, tail: bytes, o: bytes, rest: bytes)
    requires ReadUint(s) == Got(b, tail) && s != [] && s[0] < BREAK
    requires ReadByteItems(tail, None, |o|) == Got(o, rest)
    ensures ReadByteItems(s, None, |o| + 1) == Got([b] + o, rest)
  {
  }

  lemma {:induction false} FirstTinyRead(o: bytes, rest: bytes)
    requires o != [] && o[0] < 24
    ensures ReadUint(o + rest) == Got(o[0], o[1..] + rest) && o + rest != [] && (o + rest)[0] < BREAK
  {
    assert o + rest == [o[0]] + (o[1..] + rest);
    TinyByteRead(o[0], o[1..] + rest);
  }

  lemma {:induction false} TinyBytesRead(o: bytes, rest: bytes)
    requires AllTiny(o)
    ensures ReadByteItems(o + rest, None, |o|) == Got(o, rest)
    decreases |o|
  {
    if o == [] {
      assert o + rest == rest;
    } else {
      TinyBytesRead(o[1..], rest);
      FirstTinyRead(o, rest);
      OneMoreByte(o + rest, o[0], o[1..] + rest, o[1..], rest);
      assert [o[0]] + o[1..] == o;
    }
  }

  lemma {:induction false} PlainOctets(o: bytes, rest: bytes)
    requires |o| < 256
    ensures ReadOctets(Argument(2, |o|) + o + rest, |o|) == Got(o, rest)
  {
    PlainHead(2, |o|, o, rest);
  }

  lemma {:induction false} CompactOctetsRead(o: bytes, rest: bytes)
    requires |o| < 256
    ensures ReadOctets(CompactOctets(o) + rest, |o|) == Got(o, rest)
  {
    if AllTiny(o) {
      OpenArray(o, rest);
      TinyBytesRead(o, rest);
    } else {
      PlainOctets(o, rest);
    }
  }

  lemma {:induction false} KeyRead(name: Text, rest: bytes)
    requires |name| < 24
    ensures ReadKey([0x60 + |name|] + name + rest) == Got(name, rest)
  {
    assert Argument(3, |name|) == [0x60 + |name|];
    PlainHead(3, |name|, name, rest);
  }

  /** One entry of a map with a known number of them. */
  lemma {:induction false} EntryRead<D(!new)>(field: FieldReader<D>, name: Text, value: bytes, rest: bytes, n: nat,
                                              d: D, d': D)
    requires Consumes(field) && |name| < 24 && field(name, d, value + rest) == Got(d', rest)
    ensures ReadEntries(field, [0x60 + |name|] + name + value + rest, Some(n + 1), d)
         == ReadEntries(field, rest, Some(n), d')
  {
    KeyRead(name, value + rest);
    assert [0x60 + |name|] + name + value + rest == [0x60 + |name|] + name + (value + rest);
  }

  lemma {:induction false} EntryRefused<D(!new)>(field: FieldReader<D>, name: Text, value: bytes, rest: bytes, n: nat,
                                                 d: D)
    requires Consumes(field) && |name| < 24 && field(name, d, value + rest) == Bad
    ensures ReadEntries(field, [0x60 + |name|] + name + value + rest, Some(n + 1), d) == Bad
  {
    KeyRead(name, value + rest);
    assert [0x60 + |name|] + name + value + rest == [0x60 + |name|] + name + (value + rest);
  }

  /** A field on the wire: its name and the bytes of its value. */
  datatype Part = Part(name: Text, value: bytes)

  /** Each part is a short text head, the name, the value. */
  function Laid(ps: seq<Part>): bytes
    requires forall p | p in ps :: |p.name| < 24
  {
    if ps == [] then [] else [0x60 + |ps[0].name|] + ps[0].name + ps[0].value + Laid(ps[1..])
  }

  /** Reading the `j`-th part, for `j` below `k` and whatever follows it, leads from the `j`-th draft
      to the next. */
  ghost predicate FillsUpTo<D(!new)>(field: FieldReader<D>, ps: seq<Part>, drafts: seq<D>, k: nat) {
    && k <= |ps| && k < |drafts| && (forall p | p in ps :: |p.name| < 24)
    && forall j, rest :: 0 <= j < k ==> field(ps[j].name, drafts[j], ps[j].value + rest) == Got(drafts[j + 1], rest)
  }

  lemma {:induction false} TailFills<D(!new)>(field: FieldReader<D>, ps: seq<Part>, drafts: seq<D>, k: nat)
    requires FillsUpTo(field, ps, drafts, k) && k > 0
    ensures FillsUpTo(field, ps[1..], drafts[1..], k - 1)
  {
    var qs, ds := ps[1..], drafts[1..];
    forall j, rest | 0 <= j < k - 1 ensures field(qs[j].name, ds[j], qs[j].value + rest) == Got(ds[j + 1], rest) {
      assert field(ps[j + 1].name, drafts[j + 1], ps[j + 1].value + rest) == Got(drafts[j + 1 + 1], rest);
    }
  }

  lemma {:induction false} LaidFirst(ps: seq<Part>, rest: bytes)
    requires ps != [] && forall p | p in ps :: |p.name| < 24
    ensures Laid(ps) + rest == [0x60 + |ps[0].name|] + ps[0].name + ps[0].value + (Laid(ps[1..]) + rest)
  {
  }

  lemma {:induction false} FirstFills<D(!new)>(field: FieldReader<D>, ps: seq<Part>, drafts: seq<D>, k: nat,
                                               tail: bytes)
    requires FillsUpTo(field, ps, drafts, k) && k > 0
    ensures field(ps[0].name, drafts[0], ps[0].value + tail) == Got(drafts[1], tail)
  {
    assert field(ps[0].name, drafts[0], ps[0].value + tail) == Got(drafts[0 + 1], tail);
  }

  lemma {:induction false} LaidRead<D(!new)>(field: FieldReader<D>, ps: seq<Part>, drafts: seq<D>, rest: bytes)
    requires Consumes(field) && FillsUpTo(field, ps, drafts, |ps|)
    ensures ReadEntries(field, Laid(ps) + rest, Some(|ps|), drafts[0]) == Got(drafts[|ps|], rest)
    decreases |ps|
  {
    if ps == [] {
      assert Laid(ps) + rest == rest;
    } else {
      FirstFills(field, ps, drafts, |ps|, Laid(ps[1..]) + rest);
      FirstStep(field, ps, drafts[0], drafts[1], rest);
      TailFills(field, ps, drafts, |ps|);
      LaidRead(field, ps[1..], drafts[1..], rest);
    }
  }

  lemma {:induction false} FirstStep<D(!new)>(field: FieldReader<D>, ps: seq<Part>, d: D, d': D, rest: bytes)
    requires Consumes(field) && ps != [] && (forall p | p in ps :: |p.name| < 24)
    requires var tail := Laid(ps[1..]) + rest; field(ps[0].name, d, ps[0].value + tail) == Got(d', tail)
    ensures ReadEntries(field, Laid(ps) + rest, Some(|ps|), d)
         == ReadEntries(field, Laid(ps[1..]) + rest, Some(|ps| - 1), d')
  {
    LaidFirst(ps, rest);
    EntryRead(field, ps[0].name, ps[0].value, Laid(ps[1..]) + rest, |ps| - 1, d, d');
  }

  /** The part is refused, whatever follows it. */
  ghost predicate Refuses<D(!new)>(field: FieldReader<D>, p: Part, d: D) {
    forall tail :: field(p.name, d, p.value + tail) == Bad
  }

  lemma {:induction false} FirstRefused<D(!new)>(field: FieldReader<D>, ps: seq<Part>, d: D, rest: bytes)
    requires Consumes(field) && ps != [] && (forall p | p in ps :: |p.name| < 24)
    requires Refuses(field, ps[0], d)
    ensures ReadEntries(field, Laid(ps) + rest, Some(|ps|), d) == Bad
  {
    LaidFirst(ps, rest);
    EntryRefused(field, ps[0].name, ps[0].value, Laid(ps[1..]) + rest, |ps| - 1, d);
  }

  /** Parts read up to the `k`-th, which is refused. */
  lemma {:induction false} LaidRefused<D(!new)>(field: FieldReader<D>, ps: seq<Part>, drafts: seq<D>, k: nat,
                                                rest: bytes)
    requires Consumes(field) && k < |ps| && FillsUpTo(field, ps, drafts, k)
    requires Refuses(field, ps[k], drafts[k])
    ensures ReadEntries(field, Laid(ps) + rest, Some(|ps|), drafts[0]) == Bad
    decreases k
  {
    var tail := Laid(ps[1..]) + rest;
    if k == 0 {
      FirstRefused(field, ps, drafts[0], rest);
    } else {
      FirstFills(field, ps, drafts, k, tail);
      TailFills(field, ps, drafts, k);
      LaidRefused(field, ps[1..], drafts[1..], k - 1, rest);
      FirstStep(field, ps, drafts[0], drafts[1], rest);
    }
  }

  lemma {:induction false} MapRefused<D(!new)>(field: FieldReader<D>, ps: seq<Part>, drafts: seq<D>, k: nat,
                                               rest: bytes)
    requires Consumes(field) && k < |ps| < 24 && FillsUpTo(field, ps, drafts, k)
    requires Refuses(field, ps[k], drafts[k])
    ensures ReadMap(field, [0xA0 + |ps|] + Laid(ps) + rest, drafts[0]) == Bad
  {
    assert Argument(5, |ps|) == [0xA0 + |ps|];
    PlainHead(5, |ps|, Laid(ps), rest);
    LaidRefused(field, ps, drafts, k, rest);
  }

  /** A map of fewer than 24 parts is read through all the drafts, whatever follows it. */
  lemma {:induction false} MapRead<D(!new)>(field: FieldReader<D>, ps: seq<Part>, drafts: seq<D>, rest: bytes)
    requires Consumes(field) && FillsUpTo(field, ps, drafts, |ps|) && |ps| < 24
    ensures ReadMap(field, [0xA0 + |ps|] + Laid(ps) + rest, drafts[0]) == Got(drafts[|ps|], rest)
  {
    assert Argument(5, |ps|) == [0xA0 + |ps|];
    PlainHead(5, |ps|, Laid(ps), rest);
    LaidRead(field, ps, drafts, rest);
  }

  // ----- other forms that are taken -----

  /** A tag before a value makes no difference; before a number, unless it announces a big one. */
  lemma {:induction false} TagsArePassedOver(n: u64, s: bytes, k: nat)
    ensures ReadText(Argument(6, n) + s) == ReadText(s) && ReadTexts(Argument(6, n) + s) == ReadTexts(s)
    ensures ReadOctets(Argument(6, n) + s, k) == ReadOctets(s, k) && ReadKey(Argument(6, n) + s) == ReadKey(s)
    ensures n !in {2, 3} ==> ReadUint(Argument(6, n) + s) == ReadUint(s)
  {
    ArgumentRoundTrip(6, n, [], s);
    assert NextHead(Argument(6, n) + s) == NextHead(s);
  }

  function Flattened(ts: seq<Text>): bytes {
    if ts == [] then [] else ts[0] + Flattened(ts[1..])
  }

  lemma {:induction false} ChunksRead(ts: seq<Text>, rest: bytes)
    ensures ReadChunks(Concatenated(ts) + ([BREAK] + rest), 3, 1) == Got(Flattened(ts), rest)
    decreases |ts|
  {
    if ts == [] {
      assert Concatenated(ts) + ([BREAK] + rest) == [BREAK] + rest;
      assert ([BREAK] + rest)[0] == BREAK && ([BREAK] + rest)[1..] == rest;
    } else {
      ChunksRead(ts[1..], rest);
      FirstText(ts, [BREAK] + rest);
      OneMoreChunk(ts[0], Concatenated(ts[1..]) + ([BREAK] + rest), Flattened(ts[1..]), rest);
    }
  }

  lemma {:induction false} OneMoreChunk(t: Text, tail: bytes, more: bytes, rest: bytes)
    requires ReadChunks(tail, 3, 1) == Got(more, rest)
    ensures ReadChunks(TextBytes(t) + tail, 3, 1) == Got(t + more, rest)
  {
    ArgumentRoundTrip(3, |t|, t, tail);
  }

  /** Text in chunks is put together. */
  lemma {:induction false} ChunkedTextRead(ts: seq<Text>, rest: bytes)
    ensures ReadText([0x7F] + (Concatenated(ts) + [BREAK]) + rest) == Got(Flattened(ts), rest)
  {
    OpenRoundTrip(3, Concatenated(ts) + [BREAK], rest);
    UntaggedHead([0x7F] + (Concatenated(ts) + [BREAK]) + rest);
    assert Concatenated(ts) + [BREAK] + rest == Concatenated(ts) + ([BREAK] + rest);
    ChunksRead(ts, rest);
  }

  /** Chunks may themselves be in chunks, to any depth: opening and closing one in between makes no
      difference. */
  lemma {:induction false} NestedChunks(major: nat, s: bytes, n: nat)
    requires major in {2, 3} && n >= 1
    ensures ReadChunks([32 * major + INDEFINITE] + [] + s, major, n) == ReadChunks(s, major, n + 1)
    ensures ReadChunks([BREAK] + s, major, n + 1) == ReadChunks(s, major, n)
  {
    OpenRoundTrip(major, [], s);
    assert [] + s == s;
    assert ([BREAK] + s)[0] == BREAK && ([BREAK] + s)[1..] == s;
  }

  function Elements(o: bytes): bytes {
    if o == [] then [] else Argument(0, o[0]) + Elements(o[1..])
  }

  lemma {:induction false} FirstElement(o: bytes, rest: bytes)
    requires o != []
    ensures Elements(o) + rest == Argument(0, o[0]) + (Elements(o[1..]) + rest)
  {
  }

  lemma {:induction false} FirstElementRead(o: bytes, rest: bytes)
    requires o != []
    ensures ReadBelow(Elements(o) + rest, 0x100) == Got(o[0], Elements(o[1..]) + rest)
  {
    FirstElement(o, rest);
    PlainUint(o[0], Elements(o[1..]) + rest);
  }

  lemma {:induction false} NoElementsRead(left: nat, rest: bytes)
    ensures ReadByteItems(Elements([]) + rest, Some(left), 0) == Got([], rest)
  {
    assert Elements([]) + rest == rest;
  }

  lemma {:induction false} ElementsRead(o: bytes, left: nat, rest: bytes)
    requires |o| <= left
    ensures ReadByteItems(Elements(o) + rest, Some(left), |o|) == Got(o, rest)
    decreases |o|
  {
    if o == [] {
      NoElementsRead(left, rest);
    } else {
      FirstElementRead(o, rest);
      ElementsRead(o[1..], left - 1, rest);
      OneMoreElement(Elements(o) + rest, o[0], Elements(o[1..]) + rest, o[1..], left, rest);
      assert [o[0]] + o[1..] == o;
    }
  }

  lemma {:induction false} OneMoreElement(s: bytes, b: byte, tail: bytes, o: bytes, left: nat, rest: bytes)
    requires ReadBelow(s, 0x100) == Got(b, tail) && left >= 1
    requires ReadByteItems(tail, OneLess(Some(left)), |o|) == Got(o, rest)
    ensures ReadByteItems(s, Some(left), |o| + 1) == Got([b] + o, rest)
  {
  }

  /** Bytes may be the first elements of an array that announces as many or more. */
  lemma {:induction false} ArrayOctetsRead(o: bytes, announced: nat, rest: bytes)
    requires |o| <= announced < WIDE
    ensures ReadOctets(Argument(4, announced) + Elements(o) + rest, |o|) == Got(o, rest)
  {
    PlainHead(4, announced, Elements(o), rest);
    ElementsRead(o, announced, rest);
  }

  /** An empty byte string is a list of no texts; a longer one is refused. */
  lemma {:induction false} ByteStringTexts(o: bytes, rest: bytes)
    requires |o| < WIDE
    ensures ReadTexts(Argument(2, |o|) + o + rest) == if o == [] then Got([], rest) else Bad
  {
    PlainHead(2, |o|, o, rest);
  }

  /** A field name may be a byte string. */
  lemma {:induction false} ByteKeyRead(name: bytes, rest: bytes)
    requires |name| <= 4096
    ensures ReadKey(Argument(2, |name|) + name + rest) == Got(name, rest)
  {
    PlainHead(2, |name|, name, rest);
  }

  lemma {:induction false} KeyHeadRefused(s: bytes)
    requires NextHead(s).Got? && (NextHead(s).value.info == INDEFINITE || NextHead(s).value.arg > 4096)
    ensures ReadKey(s) == Bad
  {
  }

  /** But it may not be longer than that, or come in chunks. */
  lemma {:induction false} LongKeyRefused(major: nat, n: nat, s: bytes)
    requires major in {2, 3} && 4096 < n < WIDE
    ensures ReadKey(Argument(major, n) + [] + s) == Bad && ReadKey([32 * major + INDEFINITE] + [] + s) == Bad
  {
    PlainHead(major, n, [], s);
    KeyHeadRefused(Argument(major, n) + [] + s);
    OpenRoundTrip(major, [], s);
    UntaggedHead([32 * major + INDEFINITE] + [] + s);
    KeyHeadRefused([32 * major + INDEFINITE] + [] + s);
  }

  lemma {:induction false} OpenEntryRead<D(!new)>(field: FieldReader<D>, p: Part, rest: bytes, d: D, d': D)
    requires Consumes(field) && |p.name| < 24 && field(p.name, d, p.value + rest) == Got(d', rest)
    ensures ReadEntries(field, [0x60 + |p.name|] + p.name + p.value + rest, None, d)
         == ReadEntries(field, rest, None, d')
  {
    KeyRead(p.name, p.value + rest);
    assert [0x60 + |p.name|] + p.name + p.value + rest == [0x60 + |p.name|] + p.name + (p.value + rest);
  }

  lemma {:induction false} FirstOpenStep<D(!new)>(field: FieldReader<D>, ps: seq<Part>, d: D, d': D, rest: bytes)
    requires Consumes(field) && ps != [] && (forall p | p in ps :: |p.name| < 24)
    requires var tail := Laid(ps[1..]) + rest; field(ps[0].name, d, ps[0].value + tail) == Got(d', tail)
    ensures ReadEntries(field, Laid(ps) + rest, None, d) == ReadEntries(field, Laid(ps[1..]) + rest, None, d')
  {
    LaidFirst(ps, rest);
    OpenEntryRead(field, ps[0], Laid(ps[1..]) + rest, d, d');
  }

  lemma {:induction false} ClosedEntries<D(!new)>(field: FieldReader<D>, d: D, rest: bytes)
    requires Consumes(field)
    ensures ReadEntries(field, Laid([]) + ([BREAK] + rest), None, d) == Got(d, rest)
  {
    assert Laid([]) + ([BREAK] + rest) == [BREAK] + rest;
    assert ([BREAK] + rest)[1..] == rest;
  }

  lemma {:induction false} LaidReadOpen<D(!new)>(field: FieldReader<D>, ps: seq<Part>, drafts: seq<D>, rest: bytes)
    requires Consumes(field) && FillsUpTo(field, ps, drafts, |ps|)
    ensures ReadEntries(field, Laid(ps) + ([BREAK] + rest), None, drafts[0]) == Got(drafts[|ps|], rest)
    decreases |ps|
  {
    if ps == [] {
      ClosedEntries(field, drafts[0], rest);
    } else {
      FirstFills(field, ps, drafts, |ps|, Laid(ps[1..]) + ([BREAK] + rest));
      FirstOpenStep(field, ps, drafts[0], drafts[1], [BREAK] + rest);
      TailFills(field, ps, drafts, |ps|);
      LaidReadOpen(field, ps[1..], drafts[1..], rest);
    }
  }

  /** A map may be closed by a break instead of counted. */
  lemma {:induction false} OpenMapRead<D(!new)>(field: FieldReader<D>, ps: seq<Part>, drafts: seq<D>, rest: bytes)
    requires Consumes(field) && FillsUpTo(field, ps, drafts, |ps|)
    ensures ReadMap(field, [0xBF] + (Laid(ps) + [BREAK]) + rest, drafts[0]) == Got(drafts[|ps|], rest)
  {
    OpenRoundTrip(5, Laid(ps) + [BREAK], rest);
    UntaggedHead([0xBF] + (Laid(ps) + [BREAK]) + rest);
    assert Laid(ps) + [BREAK] + rest == Laid(ps) + ([BREAK] + rest);
    LaidReadOpen(field, ps, drafts, rest);
  }

  // ----- no form is shorter -----

  /** Passing over tags leaves the head of a suffix. */
  lemma {:induction false} HeadOfSuffix(s: bytes) returns (t: bytes)
    requires NextHead(s).Got?
    ensures |t| <= |s| && DecodeHead(t) == NextHead(s)
    decreases |s|
  {
    if DecodeHead(s).value.major == 6 {
      t := HeadOfSuffix(DecodeHead(s).rest);
    } else {
      t := s;
    }
  }

  lemma {:induction false} NumeralBound(n: u64, k: nat)
    requires n < Limit(k)
    ensures |CompactUint(n)| <= 2 + k
  {
    MoreLimits();
    ArgumentSize(0, n);
    assert Limit(0) == 1;
  }

  lemma {:induction false} DigitsTake(s: bytes)
    requires ReadDigits(s).Got? && ReadDigits(s).value < WIDE && |s| < FOUR_GIB
    ensures var r := ReadDigits(s); |CompactUint(r.value)| + |r.rest| <= |s| + 1
  {
    var h := DecodeHead(s);
    var digits := ReadString(h.value, h.rest).value;
    StringTakes(s);
    FromBigEndianBound(digits);
    NumeralBound(ReadDigits(s).value, |digits|);
  }

  lemma {:induction false} UintTakes(s: bytes)
    requires ReadUint(s).Got? && ReadUint(s).value < WIDE && |s| < FOUR_GIB
    ensures var r := ReadUint(s); |CompactUint(r.value)| + |r.rest| <= |s|
    decreases |s|
  {
    var h := DecodeHead(s);
    if h.value.major == 0 {
      DecodedHead(s);
      ArgumentSize(0, h.value.arg);
    } else if h.value.arg == BIG_POSITIVE {
      DigitsTake(h.rest);
    } else {
      UintTakes(h.rest);
    }
  }

  lemma {:induction false} TextTakes(s: bytes)
    requires ReadText(s).Got? && |s| < FOUR_GIB
    ensures var r := ReadText(s); IsText(r.value) && |TextBytes(r.value)| + |r.rest| <= |s|
  {
    var t := HeadOfSuffix(s);
    StringTakes(t);
    ArgumentSize(3, |ReadText(s).value|);
  }

  predicate AllText(ts: seq<bytes>) { forall i :: 0 <= i < |ts| ==> IsText(ts[i]) }

  /** Each text takes its bytes, and a list without a known count a break besides. */
  lemma {:induction false} TextItemsTake(s: bytes, left: Option<nat>)
    requires ReadTextItems(s, left).Got? && |s| < FOUR_GIB
    ensures var r := ReadTextItems(s, left);
      && AllText(r.value) && |r.value| <= |s| && (left.Some? ==> |r.value| == left.value)
      && |Concatenated(r.value)| + (if left == None then 1 else 0) + |r.rest| <= |s|
    decreases |s|
  {
    if !Ended(s, left) {
      var rest := ReadText(s).rest;
      TextTakes(s);
      TextItemsTake(rest, OneLess(left));
      var ts, more := ReadTextItems(s, left).value, ReadTextItems(rest, OneLess(left)).value;
      assert ts == [ReadText(s).value] + more;
      assert ts[1..] == more;
    }
  }

  lemma {:induction false} TextsTake(s: bytes)
    requires ReadTexts(s).Got? && |s| < FOUR_GIB
    ensures var r := ReadTexts(s);
      AllText(r.value) && |r.value| <= U64_MAX && |CompactTexts(r.value)| + |r.rest| <= |s|
  {
    var t := HeadOfSuffix(s);
    var h := DecodeHead(t);
    if h.value.major == 4 {
      TextItemsTake(h.rest, LeftOf(h.value));
      ArgumentSize(4, |ReadTexts(s).value|);
      if h.value.info != INDEFINITE {
        DecodedHead(t);
      }
    }
  }

  lemma {:induction false} ByteTakes(s: bytes)
    requires ReadBelow(s, 0x100).Got? && |s| < FOUR_GIB
    ensures var r := ReadBelow(s, 0x100); (if r.value < 24 then 1 else 2) + |r.rest| <= |s|
  {
    UintTakes(s);
    ArgumentSize(0, ReadBelow(s, 0x100).value);
  }

  /** Each byte takes one, and one that is not tiny takes two. */
  lemma {:induction false} ByteItemsTake(s: bytes, left: Option<nat>, n: nat)
    requires ReadByteItems(s, left, n).Got? && |s| < FOUR_GIB
    ensures var r := ReadByteItems(s, left, n);
      (left.Some? ==> n <= left.value) && n + (if AllTiny(r.value) then 0 else 1) + |r.rest| <= |s|
    decreases n
  {
    if n > 0 {
      var b, rest := ReadBelow(s, 0x100).value, ReadBelow(s, 0x100).rest;
      ByteTakes(s);
      ByteItemsTake(rest, OneLess(left), n - 1);
      var o, more := ReadByteItems(s, left, n).value, ReadByteItems(rest, OneLess(left), n - 1).value;
      assert o == [b] + more;
      assert b < 24 && AllTiny(more) ==> AllTiny(o);
    }
  }

  lemma {:induction false} OctetsTake(s: bytes, n: nat)
    requires ReadOctets(s, n).Got? && 24 <= n < 256 && |s| < FOUR_GIB
    ensures var r := ReadOctets(s, n); |CompactOctets(r.value)| + |r.rest| <= |s|
  {
    var t := HeadOfSuffix(s);
    var h := DecodeHead(t);
    ArgumentSize(2, n);
    if h.value.info != INDEFINITE {
      DecodedHead(t);
      ArgumentSize(h.value.major, h.value.arg);
    }
    if h.value.major == 4 {
      ByteItemsTake(h.rest, LeftOf(h.value), n);
    }
  }

  lemma {:induction false} KeyTakes(s: bytes)
    requires ReadKey(s).Got?
    ensures var r := ReadKey(s); 1 + |r.value| + |r.rest| <= |s|
  {
  }

  /** What a draft is worth, in bytes, when every field read is worth at most what it took. */
  ghost predicate Weighs<D(!new)>(field: FieldReader<D>, weight: D -> int) {
    forall key, d, s :: field(key, d, s).Got? && |s| < FOUR_GIB ==>
      weight(field(key, d, s).value) + |field(key, d, s).rest| <= weight(d) + 1 + |key| + |s|
  }

  lemma {:induction false} EntriesTake<D(!new)>(field: FieldReader<D>, weight: D -> int, s: bytes,
                                                left: Option<nat>, d: D)
    requires Consumes(field) && Weighs(field, weight) && ReadEntries(field, s, left, d).Got? && |s| < FOUR_GIB
    ensures var r := ReadEntries(field, s, left, d); weight(r.value) + |r.rest| <= weight(d) + |s|
    decreases |s|
  {
    if !Ended(s, left) {
      var key := ReadKey(s);
      var one := field(key.value, d, key.rest);
      KeyTakes(s);
      EntriesTake(field, weight, one.rest, OneLess(left), one.value);
    }
  }

  lemma {:induction false} MapTakes<D(!new)>(field: FieldReader<D>, weight: D -> int, s: bytes, empty: D)
    requires Consumes(field) && Weighs(field, weight) && ReadMap(field, s, empty).Got? && |s| < FOUR_GIB
    ensures var r := ReadMap(field, s, empty); weight(r.value) + 1 + |r.rest| <= weight(empty) + |s|
  {
    EntriesTake(field, weight, NextHead(s).rest, LeftOf(NextHead(s).value), empty);
  }
}
