/** CBOR data items (section 3 of RFC 8949): shortest heads on the way out; argument heads of any
    width and indefinite lengths (section 3.2) on the way in. */
module Cbor {
  import opened Bytes

  /** A data item. A map holds its keys and values alternately in one sequence. Arrays and maps
      remember whether they are of indefinite length; strings sent in chunks are put together. */
  datatype Item =
    | Uint(n: nat)
    | Nint(n: nat)
    | Bstr(octets: bytes)
    | Tstr(text: bytes)
    | Arr(items: seq<Item>, indefinite: bool)
    | Map(kvs: seq<Item>, indefinite: bool)
    | Tag(n: nat, content: Item)
    | Simple(info: nat, arg: nat)

  const WIDE: int := 0x1_0000_0000_0000_0000
  const FOUR_GIB: int := 0x1_0000_0000

  /** The additional information that opens an item of indefinite length or, alone, closes it. */
  const INDEFINITE: nat := 31
  const BREAK: byte := 0xFF

  /** Number of argument bytes that additional information `info` announces, for 24 up to 27. */
  function Width(info: nat): nat
    requires 24 <= info <= 27
  {
    if info == 24 then 1 else if info == 25 then 2 else if info == 26 then 4 else 8
  }

  function Limit(k: nat): nat {
    if k == 0 then 1 else 256 * Limit(k - 1)
  }

  /** Can a head with additional information `info` carry argument `arg`? */
  predicate Fits(info: nat, arg: nat) {
    if info < 24 then arg == info else info <= 27 && arg < Limit(Width(info))
  }

  /** Can the item be serialized: arguments and lengths fit 64 bits, text is UTF-8, maps pair up. */
  predicate Encodable(i: Item)
    decreases i
  {
    match i
    case Uint(n) => n < WIDE
    case Nint(n) => n < WIDE
    case Bstr(s) => |s| < WIDE
    case Tstr(s) => |s| < WIDE && ValidUtf8(s)
    case Arr(xs, _) => |xs| < WIDE && AllEncodable(xs)
    case Map(xs, _) => |xs| / 2 < WIDE && |xs| % 2 == 0 && AllEncodable(xs)
    case Tag(n, x) => n < WIDE && Encodable(x)
    case Simple(info, arg) => Fits(info, arg)
  }

  predicate AllEncodable(xs: seq<Item>)
    decreases xs
  {
    xs == [] || (Encodable(xs[0]) && AllEncodable(xs[1..]))
  }

  // ----- argument heads -----

  function BigEndian(n: nat, k: nat): (s: bytes)
    ensures |s| == k
  {
    if k == 0 then [] else BigEndian(n / 256, k - 1) + [n % 256]
  }

  function FromBigEndian(s: bytes): nat {
    if s == [] then 0 else 256 * FromBigEndian(s[..|s| - 1]) + s[|s| - 1]
  }

  lemma {:induction false} BigEndianRoundTrip(n: nat, k: nat)
    requires n < Limit(k)
    ensures FromBigEndian(BigEndian(n, k)) == n
  {
    if k > 0 {
      BigEndianRoundTrip(n / 256, k - 1);
      assert BigEndian(n, k)[..k - 1] == BigEndian(n / 256, k - 1);
    }
  }

  lemma {:induction false} FromBigEndianBound(s: bytes)
    ensures FromBigEndian(s) < Limit(|s|)
  {
    if s != [] {
      FromBigEndianBound(s[..|s| - 1]);
    }
  }

  lemma {:induction false} Limits()
    ensures Limit(1) == 0x100 && Limit(2) == 0x1_0000 && Limit(4) == 0x1_0000_0000 && Limit(8) == WIDE
  {
    assert Limit(2) == 256 * Limit(1) && Limit(4) == 256 * Limit(3) && Limit(3) == 256 * Limit(2);
    assert Limit(6) == 256 * Limit(5) && Limit(5) == 256 * Limit(4);
    assert Limit(8) == 256 * Limit(7) && Limit(7) == 256 * Limit(6);
  }

  /** The shortest additional information for an argument (preferred serialization, section 4.1). */
  function Shortest(n: nat): nat
    requires n < WIDE
  {
    if n < 24 then n else if n < 0x100 then 24 else if n < 0x1_0000 then 25
    else if n < 0x1_0000_0000 then 26 else 27
  }

  function Head(major: nat, info: nat, arg: nat): (s: bytes)
    requires major < 8 && info < 28
    ensures |s| >= 1 && s[0] < BREAK
  {
    [32 * major + info] + (if info < 24 then [] else BigEndian(arg, Width(info)))
  }

  datatype Parsed<+T> = Bad | Got(value: T, rest: bytes)

  datatype HeadValue = HeadValue(major: nat, info: nat, arg: nat)

  /** Additional information 28 to 30 is reserved; integers and tags have no indefinite form. */
  function DecodeHead(s: bytes): (r: Parsed<HeadValue>)
    ensures r.Got? ==> |r.rest| < |s| && r.value.major < 8 && (r.value.info < 28 || r.value.info == INDEFINITE)
    ensures r.Got? && r.value.info == INDEFINITE ==> r.value.major in {2, 3, 4, 5, 7} && |r.rest| == |s| - 1
    ensures r.Got? && r.value.major == 7 && r.value.info == INDEFINITE <==> s != [] && s[0] == BREAK
  {
    if s == [] then Bad
    else
      var major, info, tail := s[0] / 32, s[0] % 32, s[1..];
      if info < 24 then Got(HeadValue(major, info, info), tail)
      else if info == INDEFINITE && major in {2, 3, 4, 5, 7} then Got(HeadValue(major, info, 0), tail)
      else if info >= 28 || |tail| < Width(info) then Bad
      else Got(HeadValue(major, info, FromBigEndian(tail[..Width(info)])), tail[Width(info)..])
  }

  lemma {:induction false} ReadHead(major: nat, info: nat, arg: nat, be: bytes, rest: bytes)
    requires major < 8 && info < 28
    requires if info < 24 then be == [] && arg == info else |be| == Width(info) && arg == FromBigEndian(be)
    ensures DecodeHead([32 * major + info] + be + rest) == Got(HeadValue(major, info, arg), rest)
  {
    var s := [32 * major + info] + be + rest;
    assert s[0] / 32 == major && s[0] % 32 == info;
    assert s[1..] == be + rest;
    assert (be + rest)[..|be|] == be && (be + rest)[|be|..] == rest;
  }

  lemma {:induction false} HeadRoundTrip(major: nat, info: nat, arg: nat, rest: bytes)
    requires major < 8 && Fits(info, arg)
    ensures DecodeHead(Head(major, info, arg) + rest) == Got(HeadValue(major, info, arg), rest)
  {
    if info < 24 {
      ReadHead(major, info, arg, [], rest);
    } else {
      BigEndianRoundTrip(arg, Width(info));
      ReadHead(major, info, arg, BigEndian(arg, Width(info)), rest);
    }
  }

  lemma {:induction false} ShortestFits(n: nat)
    requires n < WIDE
    ensures Fits(Shortest(n), n)
  {
    Limits();
  }

  /** Reading a head gives an argument that fits it, and no shorter head could have carried it. */
  lemma {:induction false} DecodedHead(s: bytes)
    requires DecodeHead(s).Got? && DecodeHead(s).value.info != INDEFINITE
    ensures var h := DecodeHead(s); var v := h.value;
            && Fits(v.info, v.arg) && v.arg < WIDE
            && |Head(v.major, v.info, v.arg)| + |h.rest| == |s|
            && |Head(v.major, Shortest(v.arg), v.arg)| <= |Head(v.major, v.info, v.arg)|
  {
    Limits();
    var info, tail := s[0] % 32, s[1..];
    if info >= 24 {
      FromBigEndianBound(tail[..Width(info)]);
    }
  }

  // ----- items -----

  function Argument(major: nat, n: nat): (s: bytes)
    requires major < 8 && n < WIDE
    ensures |s| >= 1 && s[0] < BREAK
  {
    Head(major, Shortest(n), n)
  }

  /** Bytes taken by the shortest head with argument `n`. */
  function HeadSize(n: nat): nat {
    if n < 24 then 1 else if n < 0x100 then 2 else if n < 0x1_0000 then 3 else if n < FOUR_GIB then 5 else 9
  }

  lemma {:induction false} ArgumentSize(major: nat, n: nat)
    requires major < 8 && n < WIDE
    ensures |Argument(major, n)| == HeadSize(n)
  {
  }

  function Encode(i: Item): (s: bytes)
    requires Encodable(i)
    ensures |s| >= 1 && s[0] < BREAK
    decreases i
  {
    match i
    case Uint(n) => Argument(0, n)
    case Nint(n) => Argument(1, n)
    case Bstr(s) => Argument(2, |s|) + s
    case Tstr(s) => Argument(3, |s|) + s
    case Arr(xs, indefinite) =>
      if indefinite then [0x9F] + (EncodeAll(xs) + [BREAK]) else Argument(4, |xs|) + EncodeAll(xs)
    case Map(xs, indefinite) =>
      if indefinite then [0xBF] + (EncodeAll(xs) + [BREAK]) else Argument(5, |xs| / 2) + EncodeAll(xs)
    case Tag(n, x) => Argument(6, n) + Encode(x)
    case Simple(info, arg) => Head(7, info, arg)
  }

  function EncodeAll(xs: seq<Item>): bytes
    requires AllEncodable(xs)
    decreases xs
  {
    if xs == [] then [] else Encode(xs[0]) + EncodeAll(xs[1..])
  }

  /** The chunks of an indefinite-length string put together; `nested` counts the strings opened
      and not yet closed. */
  function ReadChunks(s: bytes, major: nat, nested: nat): (r: Parsed<bytes>)
    requires nested >= 1
    ensures r.Got? ==> |r.rest| < |s|
    decreases |s|
  {
    match DecodeHead(s)
    case Bad => Bad
    case Got(HeadValue(m, info, n), rest) =>
      if m == 7 && info == INDEFINITE then
        if nested == 1 then Got([], rest) else ReadChunks(rest, major, nested - 1)
      else if m != major then Bad
      else if info == INDEFINITE then ReadChunks(rest, major, nested + 1)
      else if |rest| < n || (major == 3 && !ValidUtf8(rest[..n])) then Bad
      else
        match ReadChunks(rest[n..], major, nested)
        case Bad => Bad
        case Got(more, rest') => Got(rest[..n] + more, rest')
  }

  /** The content of a byte string (major type 2) or text string (3) whose head was read. */
  function ReadString(h: HeadValue, s: bytes): (r: Parsed<bytes>)
    ensures r.Got? ==> |r.rest| <= |s|
  {
    if h.info == INDEFINITE then ReadChunks(s, h.major, 1)
    else if |s| < h.arg || (h.major == 3 && !ValidUtf8(s[..h.arg])) then Bad
    else Got(s[..h.arg], s[h.arg..])
  }

  function Decode(s: bytes): (r: Parsed<Item>)
    ensures r.Got? ==> |r.rest| < |s|
    decreases |s|, 0
  {
    match DecodeHead(s)
    case Bad => Bad
    case Got(HeadValue(major, info, n), rest) =>
      if major == 0 then Got(Uint(n), rest)
      else if major == 1 then Got(Nint(n), rest)
      else if major == 2 then
        (match ReadString(HeadValue(major, info, n), rest)
         case Bad => Bad
         case Got(t, rest') => Got(Bstr(t), rest'))
      else if major == 3 then
        (match ReadString(HeadValue(major, info, n), rest)
         case Bad => Bad
         case Got(t, rest') => Got(Tstr(t), rest'))
      else if major == 4 then
        (match if info == INDEFINITE then DecodeUntilBreak(rest) else DecodeMany(rest, n)
         case Bad => Bad
         case Got(xs, rest') => Got(Arr(xs, info == INDEFINITE), rest'))
      else if major == 5 then
        (match if info == INDEFINITE then DecodeUntilBreak(rest) else DecodeMany(rest, 2 * n)
         case Bad => Bad
         case Got(xs, rest') => if |xs| % 2 == 1 then Bad else Got(Map(xs, info == INDEFINITE), rest'))
      else if major == 6 then
        (match Decode(rest)
         case Bad => Bad
         case Got(x, rest') => Got(Tag(n, x), rest'))
      else if info == INDEFINITE then Bad
      else Got(Simple(info, n), rest)
  }

  function DecodeUntilBreak(s: bytes): (r: Parsed<seq<Item>>)
    ensures r.Got? ==> |r.rest| < |s|
    decreases |s|, 1
  {
    if s == [] then Bad
    else if s[0] == BREAK then Got([], s[1..])
    else
      match Decode(s)
      case Bad => Bad
      case Got(x, rest) =>
        match DecodeUntilBreak(rest)
        case Bad => Bad
        case Got(xs, rest') => Got([x] + xs, rest')
  }

  function DecodeMany(s: bytes, n: nat): (r: Parsed<seq<Item>>)
    ensures r.Got? ==> |r.rest| <= |s| && |r.value| == n
    decreases |s|, 1
  {
    if n == 0 then Got([], s)
    else
      match Decode(s)
      case Bad => Bad
      case Got(x, rest) =>
        match DecodeMany(rest, n - 1)
        case Bad => Bad
        case Got(xs, rest') => Got([x] + xs, rest')
  }

  /** Decoding undoes encoding, whatever follows: the encoding is injective and prefix-free. */
  lemma {:induction false} DecodeEncode(i: Item, rest: bytes)
    requires Encodable(i)
    ensures Decode(Encode(i) + rest) == Got(i, rest)
    decreases i
  {
    match i
    case Arr(xs, _) => DecodeEncodeSequence(i, xs, rest);
    case Map(xs, _) => DecodeEncodeSequence(i, xs, rest);
    case Tag(n, x) =>
      ArgumentRoundTrip(6, n, Encode(x), rest);
      DecodeEncode(x, rest);
    case _ => DecodeEncodeLeaf(i, rest);
  }

  lemma {:induction false} DecodeEncodeLeaf(i: Item, rest: bytes)
    requires Encodable(i) && !i.Arr? && !i.Map? && !i.Tag?
    ensures Decode(Encode(i) + rest) == Got(i, rest)
  {
    match i
    case Uint(n) => ArgumentRoundTrip(0, n, [], rest);
    case Nint(n) => ArgumentRoundTrip(1, n, [], rest);
    case Bstr(s) => ArgumentRoundTrip(2, |s|, s, rest);
    case Tstr(s) => ArgumentRoundTrip(3, |s|, s, rest);
    case Simple(info, arg) => HeadRoundTrip(7, info, arg, rest);
  }

  lemma {:induction false} DecodeEncodeSequence(i: Item, xs: seq<Item>, rest: bytes)
    requires Encodable(i) && ((i.Arr? && i.items == xs) || (i.Map? && i.kvs == xs))
    ensures Decode(Encode(i) + rest) == Got(i, rest)
    decreases xs, 1
  {
    if i.indefinite {
      DecodeEncodeUntilBreak(xs, rest);
      OpenRoundTrip(if i.Arr? then 4 else 5, EncodeAll(xs) + [BREAK], rest);
    } else {
      DecodeEncodeAll(xs, rest);
      ArgumentRoundTrip(if i.Arr? then 4 else 5, if i.Arr? then |xs| else |xs| / 2, EncodeAll(xs), rest);
      assert i.Map? ==> 2 * (|xs| / 2) == |xs|;
    }
  }

  lemma {:induction false} OpenRoundTrip(major: nat, content: bytes, rest: bytes)
    requires major in {2, 3, 4, 5}
    ensures DecodeHead([32 * major + INDEFINITE] + content + rest)
         == Got(HeadValue(major, INDEFINITE, 0), content + rest)
  {
    var s := [32 * major + INDEFINITE] + content + rest;
    assert s[0] / 32 == major && s[0] % 32 == INDEFINITE && s[1..] == content + rest;
  }

  lemma {:induction false} DecodeOneMore(first: bytes, x: Item, others: bytes, xs: seq<Item>, rest: bytes)
    requires Decode(first + (others + rest)) == Got(x, others + rest)
    requires DecodeMany(others + rest, |xs|) == Got(xs, rest)
    ensures DecodeMany(first + others + rest, |xs| + 1) == Got([x] + xs, rest)
  {
    assert first + others + rest == first + (others + rest);
  }

  lemma {:induction false} DecodeEncodeAll(xs: seq<Item>, rest: bytes)
    requires AllEncodable(xs)
    ensures DecodeMany(EncodeAll(xs) + rest, |xs|) == Got(xs, rest)
    decreases xs, 0
  {
    if xs == [] {
      assert EncodeAll(xs) + rest == rest;
    } else {
      var x, xs' := xs[0], xs[1..];
      assert [x] + xs' == xs;
      DecodeEncode(x, EncodeAll(xs') + rest);
      DecodeEncodeAll(xs', rest);
      DecodeOneMore(Encode(x), x, EncodeAll(xs'), xs', rest);
    }
  }

  lemma {:induction false} UntilBreakOneMore(first: bytes, x: Item, others: bytes, xs: seq<Item>, rest: bytes)
    requires Decode(first + (others + rest)) == Got(x, others + rest) && first != [] && first[0] < BREAK
    requires DecodeUntilBreak(others + rest) == Got(xs, rest)
    ensures DecodeUntilBreak(first + others + rest) == Got([x] + xs, rest)
  {
    assert first + others + rest == first + (others + rest);
  }

  lemma {:induction false} DecodeEncodeUntilBreak(xs: seq<Item>, rest: bytes)
    requires AllEncodable(xs)
    ensures DecodeUntilBreak(EncodeAll(xs) + [BREAK] + rest) == Got(xs, rest)
    decreases xs, 0
  {
    if xs == [] {
      assert EncodeAll(xs) + [BREAK] + rest == [BREAK] + rest;
      assert ([BREAK] + rest)[1..] == rest;
    } else {
      var x, xs' := xs[0], xs[1..];
      var others := EncodeAll(xs') + [BREAK];
      assert [x] + xs' == xs;
      DecodeEncode(x, others + rest);
      DecodeEncodeUntilBreak(xs', rest);
      UntilBreakOneMore(Encode(x), x, others, xs', rest);
      assert EncodeAll(xs) + [BREAK] == Encode(x) + others;
    }
  }

  lemma {:induction false} ArgumentRoundTrip(major: nat, n: nat, content: bytes, rest: bytes)
    requires major < 8 && n < WIDE
    ensures DecodeHead(Argument(major, n) + content + rest)
         == Got(HeadValue(major, Shortest(n), n), content + rest)
    ensures |content| == n ==> (content + rest)[..n] == content && (content + rest)[n..] == rest
    ensures content == [] ==> content + rest == rest && Argument(major, n) + content + rest == Argument(major, n) + rest
  {
    ShortestFits(n);
    HeadRoundTrip(major, Shortest(n), n, content + rest);
    assert Argument(major, n) + content + rest == Argument(major, n) + (content + rest);
    assert |content| == n ==> (content + rest)[..n] == content;
    if content == [] {
      assert Argument(major, n) + content == Argument(major, n);
    }
  }

  // ----- nothing is written in fewer bytes -----

  /** What the heads of the chunks of an `n`-byte string, and the break after them, take at least. */
  function ChunksCost(n: nat): nat {
    if n == 0 then 1 else if n < 0x100 then 2 else if n < 0x1_0000 then 3 else 4
  }

  lemma {:induction false} ChunksTake(s: bytes, major: nat, nested: nat)
    requires nested >= 1 && ReadChunks(s, major, nested).Got?
    ensures var r := ReadChunks(s, major, nested);
      |r.value| + ChunksCost(|r.value|) + |r.rest| <= |s| && (major == 3 ==> ValidUtf8(r.value))
    decreases |s|
  {
    var h := DecodeHead(s);
    if h.value.major == 7 && h.value.info == INDEFINITE {
      if nested > 1 {
        ChunksTake(h.rest, major, nested - 1);
      }
    } else if h.value.info == INDEFINITE {
      ChunksTake(h.rest, major, nested + 1);
    } else {
      var n := h.value.arg;
      DecodedHead(s);
      ArgumentSize(major, n);
      ChunksTake(h.rest[n..], major, nested);
      var more := ReadChunks(h.rest[n..], major, nested).value;
      if major == 3 {
        Utf8Concatenation(h.rest[..n], more);
      }
    }
  }

  /** Strings below 4 GiB are never shorter in chunks. */
  lemma {:induction false} StringTakes(s: bytes)
    requires DecodeHead(s).Got? && DecodeHead(s).value.major in {2, 3} && |s| < FOUR_GIB
    requires ReadString(DecodeHead(s).value, DecodeHead(s).rest).Got?
    ensures var h := DecodeHead(s);
      var r := ReadString(h.value, h.rest);
      |r.value| + HeadSize(|r.value|) + |r.rest| <= |s| && (h.value.major == 3 ==> ValidUtf8(r.value))
  {
    var h := DecodeHead(s);
    if h.value.info == INDEFINITE {
      ChunksTake(h.rest, h.value.major, 1);
    } else {
      DecodedHead(s);
      ArgumentSize(h.value.major, h.value.arg);
    }
  }

  /** Whatever the decoder accepts can be encoded, its arrays and maps of indefinite length as
      such, in no more bytes than were read. From 4 GiB on, a string can be shorter in chunks. */
  lemma {:induction false} EncodingIsShortest(s: bytes)
    requires Decode(s).Got? && |s| < FOUR_GIB
    ensures var d := Decode(s); Encodable(d.value) && |Encode(d.value)| + |d.rest| <= |s|
    decreases |s|, 1
  {
    var h := DecodeHead(s);
    if h.value.major in {4, 5} {
      ContainerEncodingIsShortest(s);
    } else if h.value.major == 6 {
      DecodedHead(s);
      EncodingIsShortest(h.rest);
    } else {
      LeafEncodingIsShortest(s);
    }
  }

  lemma {:induction false} ContainerEncodingIsShortest(s: bytes)
    requires Decode(s).Got? && DecodeHead(s).value.major in {4, 5} && |s| < FOUR_GIB
    ensures var d := Decode(s); Encodable(d.value) && |Encode(d.value)| + |d.rest| <= |s|
    decreases |s|, 0
  {
    var HeadValue(major, info, n) := DecodeHead(s).value;
    var rest := DecodeHead(s).rest;
    if info == INDEFINITE {
      EncodingUntilBreakIsShortest(rest);
    } else {
      DecodedHead(s);
      EncodingAllIsShortest(rest, if major == 4 then n else 2 * n);
      assert major == 5 ==> 2 * n / 2 == n;
    }
  }

  lemma {:induction false} LeafEncodingIsShortest(s: bytes)
    requires Decode(s).Got? && DecodeHead(s).value.major !in {4, 5, 6} && |s| < FOUR_GIB
    ensures var d := Decode(s); Encodable(d.value) && |Encode(d.value)| + |d.rest| <= |s|
  {
    var h := DecodeHead(s);
    if h.value.major in {2, 3} {
      StringTakes(s);
      ArgumentSize(h.value.major, |ReadString(h.value, h.rest).value|);
    } else {
      DecodedHead(s);
    }
  }

  lemma {:induction false} EncodingAllIsShortest(s: bytes, n: nat)
    requires DecodeMany(s, n).Got? && |s| < FOUR_GIB
    ensures var d := DecodeMany(s, n); AllEncodable(d.value) && |EncodeAll(d.value)| + |d.rest| <= |s|
    decreases |s|, 2
  {
    if n > 0 {
      EncodingIsShortest(s);
      EncodingAllIsShortest(Decode(s).rest, n - 1);
      var xs := DecodeMany(s, n).value;
      assert xs[1..] == DecodeMany(Decode(s).rest, n - 1).value;
    }
  }

  lemma {:induction false} EncodingUntilBreakIsShortest(s: bytes)
    requires DecodeUntilBreak(s).Got? && |s| < FOUR_GIB
    ensures var d := DecodeUntilBreak(s);
      AllEncodable(d.value) && |d.value| <= |s| && |EncodeAll(d.value)| + 1 + |d.rest| <= |s|
    decreases |s|, 2
  {
    if s[0] != BREAK {
      EncodingIsShortest(s);
      EncodingUntilBreakIsShortest(Decode(s).rest);
      var xs := DecodeUntilBreak(s).value;
      assert xs[1..] == DecodeUntilBreak(Decode(s).rest).value;
    }
  }
}
