/** Self-certifying names: `[vanity.]keyid.minecraft`, and the keyid that commits to a public key. */
module Names {
  import opened Bytes
  import opened Crypto
  import opened Base32
  import Cbor

  const MIN_KEYID_LEN: nat := 16
  const MAX_KEYID_LEN: nat := 52
  const DEFAULT_KEYID_LEN: nat := 26
  const SUFFIX: string := "minecraft"

  datatype CoreError =
    | BadSuffix | TooManyLabels | KeyidLen(len: nat) | KeyidCharset
    | VanityTooLong(len: nat) | VanityCharset | EmptyLabel

  datatype Name = Name(vanity: string, keyid: string)

  predicate KeyidOk(k: string) { MIN_KEYID_LEN <= |k| <= MAX_KEYID_LEN && Base32String(k) }
  predicate VanityOk(v: string) { |v| <= 8 && Base32String(v) }
  predicate ValidName(n: Name) { VanityOk(n.vanity) && KeyidOk(n.keyid) }

  // ----- keyids -----

  function KeyidFull(c: Crypto, pubkey: Key32): (k: string)
    ensures |k| == 52 && Base32String(k)
  {
    EncodeCharset(c.sha256(pubkey));
    LowerEncode(c.sha256(pubkey))
  }

  /** `String::truncate`: no effect beyond the current length. */
  function Truncate(s: string, len: nat): string {
    if len <= |s| then s[..len] else s
  }

  function KeyidFromPubkey(c: Crypto, pubkey: Key32, len: nat): string {
    Truncate(KeyidFull(c, pubkey), len)
  }

  /** A character in UTF-8. */
  function CharBytes(ch: char): (s: bytes)
    ensures |s| >= 1 && (|s| == 1 <==> ch as int < 0x80)
  {
    var u := ch as int;
    if u < 0x80 then [u]
    else if u < 0x800 then [0xC0 + u / 64, 0x80 + u % 64]
    else if u < 0x1_0000 then [0xE0 + u / 4096, 0x80 + u / 64 % 64, 0x80 + u % 64]
    else [0xF0 + u / 262144, 0x80 + u / 4096 % 64, 0x80 + u / 64 % 64, 0x80 + u % 64]
  }

  function Utf8(s: string): (t: bytes)
    ensures |t| >= |s|
  {
    if s == [] then [] else Utf8(s[..|s| - 1]) + CharBytes(s[|s| - 1])
  }

  /** One step of reading UTF-8, looked at from the byte it ends with. */
  lemma {:induction false} ReadLast(t: bytes)
    requires t != []
    ensures ReadAll(t) == Read(ReadAll(t[..|t| - 1]), t[|t| - 1])
    ensures ReadAll(t).Tail? ==> 1 <= ReadAll(t).count <= 3
    decreases |t|
  {
    if |t| > 1 {
      ReadLast(t[..|t| - 1]);
    }
  }

  lemma {:induction false} ReadTwo(a: byte, b: byte)
    ensures ReadAll([a]) == Read(Done, a) && ReadAll([a, b]) == Read(Read(Done, a), b)
  {
    assert [a, b][..1] == [a] && [a][..0] == [];
  }

  lemma {:induction false} ReadFour(a: byte, b: byte, c: byte, d: byte)
    ensures ReadAll([a, b, c]) == Read(Read(Read(Done, a), b), c)
    ensures ReadAll([a, b, c, d]) == Read(Read(Read(Read(Done, a), b), c), d)
  {
    ReadTwo(a, b);
    assert [a, b, c][..2] == [a, b] && [a, b, c, d][..3] == [a, b, c];
  }

  lemma {:induction false} ThreeByteRanges(u: int)
    requires 0x800 <= u < 0xD800 || 0xE000 <= u < 0x1_0000
    ensures 0 <= u / 4096 < 16 && (u / 4096 == 0 ==> u / 64 % 64 >= 32) && (u / 4096 == 13 ==> u / 64 % 64 < 32)
  {
    assert u / 64 == 64 * (u / 4096) + u / 64 % 64;
  }

  lemma {:induction false} FourByteRanges(u: int)
    requires 0x1_0000 <= u < 0x11_0000
    ensures 0 <= u / 262144 < 5 && (u / 262144 == 0 ==> u / 4096 % 64 >= 16)
    ensures u / 262144 == 4 ==> u / 4096 % 64 < 16
  {
    assert u / 4096 == 64 * (u / 262144) + u / 4096 % 64;
  }

  lemma {:induction false} CharIsUtf8(ch: char)
    ensures ValidUtf8(CharBytes(ch))
  {
    var t, u := CharBytes(ch), ch as int;
    if u < 0x80 {
      ReadTwo(u, u);
    } else if u < 0x800 {
      ReadTwo(0xC0 + u / 64, 0x80 + u % 64);
    } else if u < 0x1_0000 {
      ReadFour(0xE0 + u / 4096, 0x80 + u / 64 % 64, 0x80 + u % 64, 0);
      ThreeByteRanges(u);
    } else {
      ReadFour(0xF0 + u / 262144, 0x80 + u / 4096 % 64, 0x80 + u / 64 % 64, 0x80 + u % 64);
      FourByteRanges(u);
    }
  }

  lemma {:induction false} StringIsUtf8(s: string)
    ensures ValidUtf8(Utf8(s))
  {
    if s != [] {
      StringIsUtf8(s[..|s| - 1]);
      CharIsUtf8(s[|s| - 1]);
      Utf8Concatenation(Utf8(s[..|s| - 1]), CharBytes(s[|s| - 1]));
    }
  }

  /** Six bits at a time. */
  lemma {:induction false} SixBits(a: nat, b: nat, c: nat, d: nat, u: nat)
    requires u == 262144 * a + 4096 * b + 64 * c + d && b < 64 && c < 64 && d < 64
    ensures u / 64 == 4096 * a + 64 * b + c && u % 64 == d
    ensures u / 4096 == 64 * a + b && u / 64 % 64 == c
    ensures u / 262144 == a && u / 4096 % 64 == b
  {
    assert u == 64 * (4096 * a + 64 * b + c) + d;
    assert u == 4096 * (64 * a + b) + (64 * c + d);
    assert u == 262144 * a + (4096 * b + 64 * c + d);
    assert 4096 * a + 64 * b + c == 64 * (64 * a + b) + c;
  }

  lemma {:induction false} TwoBytes(a: byte, b: byte) returns (ch: char)
    requires Read(Done, a).Tail? && Read(Read(Done, a), b) == Done
    ensures CharBytes(ch) == [a, b]
  {
    var u := 64 * (a - 0xC0) + (b as int - 0x80);
    SixBits(0, 0, a - 0xC0, b - 0x80, u);
    ch := u as char;
  }

  lemma {:induction false} ThreeBytes(a: byte, b: byte, c: byte) returns (ch: char)
    requires Read(Read(Done, a), b).Tail? && Read(Read(Read(Done, a), b), c) == Done && Read(Done, a).Tail?
    ensures CharBytes(ch) == [a, b, c]
  {
    var x, y, z: int := a - 0xE0, b - 0x80, c - 0x80;
    var u: int := 4096 * x + 64 * y + z;
    SixBits(0, x, y, z, u);
    ch := u as char;
  }

  lemma {:induction false} FourBytes(a: byte, b: byte, c: byte, d: byte) returns (ch: char)
    requires Read(Read(Read(Read(Done, a), b), c), d) == Done && Read(Read(Read(Done, a), b), c).Tail?
    requires Read(Read(Done, a), b).Tail? && Read(Done, a).Tail?
    ensures CharBytes(ch) == [a, b, c, d]
  {
    var w: int, x: int, y: int, z: int := a - 0xF0, b - 0x80, c - 0x80, d - 0x80;
    var u: int := 262144 * w + 4096 * x + 64 * y + z;
    SixBits(w, x, y, z, u);
    ch := u as char;
  }

  /** What reading needs, `n` bytes before the end. */
  function NeedBefore(t: bytes, n: nat): Need
    requires n <= |t|
  {
    ReadAll(t[..|t| - n])
  }

  lemma {:induction false} NeedStep(t: bytes, n: nat)
    requires n < |t|
    ensures NeedBefore(t, n) == Read(NeedBefore(t, n + 1), t[|t| - n - 1])
    ensures NeedBefore(t, n).Tail? ==> 1 <= NeedBefore(t, n).count <= 3
  {
    ReadLast(t[..|t| - n]);
    assert t[..|t| - n][..|t| - n - 1] == t[..|t| - n - 1];
  }

  /** Where the last character of valid UTF-8 starts, and which it is. */
  lemma {:induction false} LastChar(t: bytes) returns (k: nat, ch: char)
    requires ValidUtf8(t) && t != []
    ensures k < |t| && ValidUtf8(t[..k]) && CharBytes(ch) == t[k..]
  {
    var n := |t|;
    assert t[..n] == t;
    NeedStep(t, 0);
    if NeedBefore(t, 1) == Done {
      k, ch := n - 1, t[n - 1] as char;
      assert t[k..] == [t[n - 1]];
    } else {
      NeedStep(t, 1);
      if NeedBefore(t, 2) == Done {
        k := n - 2;
        ch := TwoBytes(t[k], t[k + 1]);
        assert t[k..] == [t[k], t[k + 1]];
      } else {
        NeedStep(t, 2);
        k, ch := LongChar(t);
      }
    }
  }

  lemma {:induction false} LongChar(t: bytes) returns (k: nat, ch: char)
    requires |t| >= 3 && NeedBefore(t, 0) == Done && NeedBefore(t, 1).Tail? && NeedBefore(t, 2).Tail?
    ensures k < |t| && ValidUtf8(t[..k]) && CharBytes(ch) == t[k..]
  {
    var n := |t|;
    NeedStep(t, 0);
    NeedStep(t, 1);
    NeedStep(t, 2);
    if NeedBefore(t, 3) == Done {
      k := n - 3;
      ch := ThreeBytes(t[k], t[k + 1], t[k + 2]);
      assert t[k..] == [t[k], t[k + 1], t[k + 2]];
    } else {
      NeedStep(t, 3);
      if NeedBefore(t, 4) != Done {
        NeedStep(t, 4);
      }
      k := n - 4;
      ch := FourBytes(t[k], t[k + 1], t[k + 2], t[k + 3]);
      assert t[k..] == [t[k], t[k + 1], t[k + 2], t[k + 3]];
    }
  }

  lemma {:induction false} StringOf(t: bytes) returns (s: string)
    requires ValidUtf8(t)
    ensures Utf8(s) == t
    decreases |t|
  {
    if t == [] {
      s := [];
    } else {
      var k, ch := LastChar(t);
      var init := StringOf(t[..k]);
      s := init + [ch];
      assert s[..|s| - 1] == init && t == t[..k] + t[k..];
    }
  }

  /** Valid UTF-8 is exactly what the strings of Unicode characters encode to. */
  lemma {:induction false} Utf8Exact(t: bytes)
    ensures ValidUtf8(t) <==> exists s :: Utf8(s) == t
  {
    if ValidUtf8(t) {
      var s := StringOf(t);
    }
    if s :| Utf8(s) == t {
      StringIsUtf8(s);
    }
  }

  /** Rust measures strings in bytes. */
  function ByteLen(s: string): nat { |Utf8(s)| }

  lemma {:induction false} AsciiByteLen(s: string)
    ensures IsAscii(s) <==> ByteLen(s) == |s|
  {
    if s != [] {
      AsciiByteLen(s[..|s| - 1]);
    }
  }

  lemma {:induction false} AsciiUtf8(s: string)
    requires IsAscii(s)
    ensures |Utf8(s)| == |s| && forall i :: 0 <= i < |s| ==> Utf8(s)[i] == s[i] as int
  {
    if s != [] {
      AsciiUtf8(s[..|s| - 1]);
    }
  }

  lemma {:induction false} AsciiUtf8Injective(s: string, t: string)
    requires IsAscii(s) && IsAscii(t) && Utf8(s) == Utf8(t)
    ensures s == t
  {
    AsciiUtf8(s);
    AsciiUtf8(t);
    forall i | 0 <= i < |s| ensures s[i] == t[i] {
      assert Utf8(s)[i] == Utf8(t)[i];
    }
  }

  predicate KeyidMatchesPubkey(c: Crypto, keyid: string, pubkey: Key32) {
    KeyidFromPubkey(c, pubkey, ByteLen(keyid)) == keyid
  }

  /** The keyid check accepts exactly the prefixes of the key's full keyid. */
  lemma {:induction false} MatchIsPrefix(c: Crypto, keyid: string, pubkey: Key32)
    ensures KeyidMatchesPubkey(c, keyid, pubkey) <==> keyid <= KeyidFull(c, pubkey)
  {
    AsciiByteLen(keyid);
    var full := KeyidFull(c, pubkey);
    if keyid <= full {
      assert keyid == full[..|keyid|];
      assert IsAscii(keyid);
    }
  }

  /** Two keys share a keyid of length `len` exactly when their hashes share `5 * len` bits;
      the full keyid determines the hash. */
  lemma {:induction false} KeyidCommitsToBits(c: Crypto, p: Key32, q: Key32, len: nat)
    ensures len <= 51 ==>
      (KeyidFromPubkey(c, p, len) == KeyidFromPubkey(c, q, len)
       <==> Bits(c.sha256(p))[..5 * len] == Bits(c.sha256(q))[..5 * len])
    ensures len >= 52 ==>
      (KeyidFromPubkey(c, p, len) == KeyidFromPubkey(c, q, len) <==> c.sha256(p) == c.sha256(q))
  {
    if len <= 51 {
      TruncationIsBitPrefix(c.sha256(p), c.sha256(q), len);
    } else if KeyidFull(c, p) == KeyidFull(c, q) {
      EncodeInjective(c.sha256(p), c.sha256(q));
    }
    assert KeyidFull(c, p)[..52] == KeyidFull(c, p) && KeyidFull(c, q)[..52] == KeyidFull(c, q);
  }

  /** The full keyid is the key's hash, as a number in base 32, moved left by four bits. */
  lemma {:induction false} KeyidIsTheHash(c: Crypto, pubkey: Key32)
    ensures |KeyidFull(c, pubkey)| == 52 && Value(KeyidFull(c, pubkey)) == 16 * Cbor.FromBigEndian(c.sha256(pubkey))
  {
    EncodingIsTheNumber(c.sha256(pubkey));
    assert Pow2(4) == 16;
  }

  lemma {:induction false} ShorterKeyidIsPrefix(c: Crypto, p: Key32, m: nat, n: nat)
    requires m <= n
    ensures KeyidFromPubkey(c, p, m) <= KeyidFromPubkey(c, p, n)
    ensures |KeyidFromPubkey(c, p, n)| == if n <= 52 then n else 52
    ensures Base32String(KeyidFromPubkey(c, p, n))
  {
  }

  // ----- labels -----

  function Split(s: string): (ls: seq<string>)
    ensures |ls| >= 1
  {
    if s == [] then [[]]
    else
      var ls := Split(s[1..]);
      if s[0] == '.' then [[]] + ls else [[s[0]] + ls[0]] + ls[1..]
  }

  function Join(ls: seq<string>): string
    requires |ls| >= 1
  {
    if |ls| == 1 then ls[0] else ls[0] + "." + Join(ls[1..])
  }

  predicate DotFree(ls: seq<string>) {
    forall i :: 0 <= i < |ls| ==> '.' !in ls[i]
  }

  lemma {:induction false} JoinSplit(s: string)
    ensures Join(Split(s)) == s && DotFree(Split(s))
  {
    if s != [] {
      JoinSplit(s[1..]);
      var ls, all := Split(s[1..]), Split(s);
      assert s == [s[0]] + s[1..];
      if s[0] == '.' {
        assert all[0] == [] && all[1..] == ls;
      } else {
        assert all[0] == [s[0]] + ls[0] && all[1..] == ls[1..];
      }
    }
  }

  lemma {:induction false} SplitLabel(a: string, s: string)
    requires '.' !in a
    ensures Split(a + "." + s) == [a] + Split(s) && Split(a) == [a]
  {
    if a == [] {
      assert (a + "." + s)[1..] == s;
    } else {
      SplitLabel(a[1..], s);
      assert (a + "." + s)[1..] == a[1..] + "." + s;
      assert [a[0]] + a[1..] == a;
    }
  }

  // ----- parsing and printing -----

  /** The characters `str::trim` removes. */
  predicate Whitespace(c: char) {
    var u := c as int;
    0x09 <= u <= 0x0D || u == 0x20 || u == 0x85 || u == 0xA0 || u == 0x1680 || 0x2000 <= u <= 0x200A
    || u == 0x2028 || u == 0x2029 || u == 0x202F || u == 0x205F || u == 0x3000
  }

  function TrimStart(s: string): string {
    if s != [] && Whitespace(s[0]) then TrimStart(s[1..]) else s
  }

  function TrimEnd(s: string): string {
    if s != [] && Whitespace(s[|s| - 1]) then TrimEnd(s[..|s| - 1]) else s
  }

  function Normalize(s: string): string { Lower(TrimEnd(TrimStart(s))) }

  function CheckKeyid(k: string): Result<string, CoreError> {
    if k == "" then Err(EmptyLabel)
    else if !(MIN_KEYID_LEN <= ByteLen(k) <= MAX_KEYID_LEN) then Err(KeyidLen(ByteLen(k)))
    else if !Base32String(k) then Err(KeyidCharset)
    else Ok(k)
  }

  function CheckVanity(v: string): Result<string, CoreError> {
    if v == "" then Ok(v)
    else if ByteLen(v) > 8 then Err(VanityTooLong(ByteLen(v)))
    else if !Base32String(v) then Err(VanityCharset)
    else Ok(v)
  }

  function FromPubkey(c: Crypto, pubkey: Key32, vanity: string, len: nat): Result<Name, CoreError> {
    if !(MIN_KEYID_LEN <= len <= MAX_KEYID_LEN) then Err(KeyidLen(len))
    else match CheckVanity(vanity)
      case Err(e) => Err(e)
      case Ok(v) => Ok(Name(v, KeyidFromPubkey(c, pubkey, len)))
  }

  function ParseLabels(ls: seq<string>): Result<Name, CoreError>
    requires |ls| >= 1
  {
    if ls[|ls| - 1] != SUFFIX then Err(BadSuffix)
    else if |ls| == 1 then Err(EmptyLabel)
    else if |ls| == 2 then
      (match CheckKeyid(ls[0]) case Err(e) => Err(e) case Ok(k) => Ok(Name("", k)))
    else if |ls| == 3 then
      (match CheckVanity(ls[0])
       case Err(e) => Err(e)
       case Ok(v) => match CheckKeyid(ls[1]) case Err(e) => Err(e) case Ok(k) => Ok(Name(v, k)))
    else Err(TooManyLabels)
  }

  function Parse(input: string): Result<Name, CoreError> {
    ParseLabels(Split(Normalize(input)))
  }

  function Display(n: Name): string {
    if n.vanity == "" then n.keyid + "." + SUFFIX else n.vanity + "." + n.keyid + "." + SUFFIX
  }

  /** The normalized spellings of a name: its printed form, or that with an empty vanity label. */
  predicate Spells(s: string, n: Name) {
    s == Display(n) || (n.vanity == "" && s == "." + Display(n))
  }

  lemma {:induction false} Base32IsAscii(s: string)
    requires Base32String(s)
    ensures ByteLen(s) == |s| && '.' !in s && Lower(s) == s
  {
    assert IsAscii(s);
    AsciiByteLen(s);
  }

  lemma {:induction false} CheckKeyidExact(k: string)
    ensures CheckKeyid(k).Ok? <==> KeyidOk(k)
    ensures CheckKeyid(k).Ok? ==> CheckKeyid(k) == Ok(k)
  {
    if Base32String(k) {
      Base32IsAscii(k);
    }
  }

  lemma {:induction false} CheckVanityExact(v: string)
    ensures CheckVanity(v).Ok? <==> VanityOk(v)
    ensures CheckVanity(v).Ok? ==> CheckVanity(v) == Ok(v)
  {
    if Base32String(v) {
      Base32IsAscii(v);
    }
  }

  lemma {:induction false} SplitTwo(s: string, k: string, t: string)
    requires '.' !in k && '.' !in t
    ensures s == k + "." + t <==> Split(s) == [k, t]
  {
    JoinSplit(s);
    SplitLabel(k, t);
    SplitLabel(t, "");
    assert [k, t][1..] == [t];
  }

  lemma {:induction false} SplitThree(s: string, v: string, k: string, t: string)
    requires '.' !in v && '.' !in k && '.' !in t
    ensures s == v + "." + (k + "." + t) <==> Split(s) == [v, k, t]
  {
    JoinSplit(s);
    SplitLabel(v, k + "." + t);
    SplitTwo(k + "." + t, k, t);
    assert [v, k, t][1..] == [k, t] && [k, t][1..] == [t];
    assert Join([k, t]) == k + "." + t && Join([v, k, t]) == v + "." + Join([k, t]);
    assert [v] + [k, t] == [v, k, t];
  }

  lemma {:induction false} SplitSpelling(s: string, n: Name)
    requires ValidName(n)
    ensures Spells(s, n)
       <==> Split(s) == [n.vanity, n.keyid, SUFFIX] || (n.vanity == "" && Split(s) == [n.keyid, SUFFIX])
  {
    Base32IsAscii(n.keyid);
    Base32IsAscii(n.vanity);
    SplitTwo(s, n.keyid, SUFFIX);
    SplitThree(s, n.vanity, n.keyid, SUFFIX);
    assert n.vanity + "." + n.keyid + "." + SUFFIX == n.vanity + "." + (n.keyid + "." + SUFFIX);
    if n.vanity == "" {
      assert "." + Display(n) == n.vanity + "." + (n.keyid + "." + SUFFIX);
    }
  }

  lemma {:induction false} ParseLabelsExact(ls: seq<string>, n: Name)
    requires |ls| >= 1
    ensures ParseLabels(ls) == Ok(n)
       <==> ValidName(n) && (ls == [n.vanity, n.keyid, SUFFIX] || (n.vanity == "" && ls == [n.keyid, SUFFIX]))
  {
    if |ls| == 2 {
      CheckKeyidExact(ls[0]);
      assert ls == [ls[0], ls[1]];
    } else if |ls| == 3 {
      CheckVanityExact(ls[0]);
      CheckKeyidExact(ls[1]);
      assert ls == [ls[0], ls[1], ls[2]];
    }
  }

  lemma {:induction false} ParseNormalized(s: string, n: Name)
    ensures Parse(s) == Ok(n) <==> ValidName(n) && Spells(Normalize(s), n)
  {
    ParseLabelsExact(Split(Normalize(s)), n);
    if ValidName(n) {
      SplitSpelling(Normalize(s), n);
    }
  }

  // ----- what is trimmed and lowercased -----

  predicate Blank(s: string) { forall i :: 0 <= i < |s| ==> Whitespace(s[i]) }

  /** Among ASCII characters, the space and tab to carriage return are whitespace. */
  lemma {:induction false} AsciiWhitespace(c: char)
    requires c as int < 0x80
    ensures Whitespace(c) <==> c == ' ' || '\t' <= c <= '\r'
    ensures c == '\n' ==> Whitespace(c)
  {
  }

  /** No whitespace at either end. */
  predicate Bare(s: string) { s == [] || (!Whitespace(s[0]) && !Whitespace(s[|s| - 1])) }

  /** The same characters, but for capitals where the second has small letters. */
  predicate UpToCase(d: string, e: string) {
    && |d| == |e|
    && forall i :: 0 <= i < |d| ==> d[i] == e[i] || ('A' <= d[i] <= 'Z' && d[i] as int + 32 == e[i] as int)
  }

  predicate NoCapitals(s: string) { forall i :: 0 <= i < |s| ==> !('A' <= s[i] <= 'Z') }

  lemma {:induction false} TrimStartBlank(u: string, s: string)
    requires Blank(u)
    ensures TrimStart(u + s) == TrimStart(s)
  {
    if u == [] {
      assert u + s == s;
    } else {
      TrimStartBlank(u[1..], s);
      assert (u + s)[1..] == u[1..] + s;
    }
  }

  lemma {:induction false} TrimEndBlank(s: string, w: string)
    requires Blank(w)
    ensures TrimEnd(s + w) == TrimEnd(s)
  {
    if w == [] {
      assert s + w == s;
    } else {
      TrimEndBlank(s, w[..|w| - 1]);
      assert (s + w)[..|s + w| - 1] == s + w[..|w| - 1];
    }
  }

  /** Whitespace around bare text goes, and capitals become small; that is all. */
  lemma {:induction false} NormalizeExact(u: string, m: string, w: string)
    requires Blank(u) && Blank(w) && Bare(m)
    ensures UpToCase(m, Normalize(u + m + w)) && NoCapitals(Normalize(u + m + w))
  {
    assert u + m + w == u + (m + w);
    TrimStartBlank(u, m + w);
    if m == [] {
      assert m + w == w && w + [] == w;
      TrimStartBlank(w, []);
      assert TrimStart(u + m + w) == [];
    } else {
      assert TrimStart(m + w) == m + w;
      TrimEndBlank(m, w);
    }
  }

  /** Any string is bare text with whitespace around it. */
  lemma {:induction false} Trimmed(s: string) returns (u: string, m: string, w: string)
    ensures s == u + m + w && Blank(u) && Blank(w) && Bare(m)
    decreases |s|
  {
    if s != [] && Whitespace(s[0]) {
      u, m, w := Trimmed(s[1..]);
      u := [s[0]] + u;
    } else if s != [] && Whitespace(s[|s| - 1]) {
      u, m, w := Trimmed(s[..|s| - 1]);
      w := w + [s[|s| - 1]];
    } else {
      u, m, w := [], s, [];
    }
  }

  /** How `s` spells a name: whitespace around its printed form, up to case, or around that after
      an empty vanity label. */
  predicate SpelledAs(s: string, u: string, d: string, w: string, n: Name) {
    && s == u + d + w && Blank(u) && Blank(w)
    && (UpToCase(d, Display(n)) || (n.vanity == "" && UpToCase(d, "." + Display(n))))
  }

  lemma {:induction false} SameWithoutCapitals(d: string, e: string, f: string)
    requires UpToCase(d, e) && UpToCase(d, f) && NoCapitals(e) && NoCapitals(f)
    ensures e == f
  {
  }

  lemma {:induction false} DisplayIsPlain(n: Name)
    requires ValidName(n)
    ensures NoCapitals(Display(n)) && NoCapitals("." + Display(n))
    ensures forall i :: 0 <= i < |Display(n)| ==> 0x2E <= Display(n)[i] as int <= 0x7A
  {
    var d := Display(n);
    forall i | 0 <= i < |d| ensures !('A' <= d[i] <= 'Z') && 0x2E <= d[i] as int <= 0x7A {
      assert d[i] == '.' || d[i] in n.vanity || d[i] in n.keyid || d[i] in SUFFIX;
    }
  }

  lemma {:induction false} SpellingIsBare(d: string, n: Name)
    requires ValidName(n) && (UpToCase(d, Display(n)) || UpToCase(d, "." + Display(n)))
    ensures Bare(d)
  {
    DisplayIsPlain(n);
    var e := if |d| == |Display(n)| then Display(n) else "." + Display(n);
    assert UpToCase(d, e) && d != [];
    assert e[0] as int >= 0x2E && e[|e| - 1] as int >= 0x2E && e[|e| - 1] as int <= 0x7A && e[0] as int <= 0x7A;
  }

  /** Parsing accepts exactly the printed forms of valid names, in any case and with whitespace
      around them, and those with an empty vanity label in front. */
  lemma {:induction false} ParseExact(s: string, n: Name)
    ensures Parse(s) == Ok(n) <==> ValidName(n) && exists u, d, w :: SpelledAs(s, u, d, w, n)
  {
    ParseNormalized(s, n);
    if ValidName(n) {
      DisplayIsPlain(n);
      if u, d, w :| SpelledAs(s, u, d, w, n) {
        SpellingIsBare(d, n);
        NormalizeExact(u, d, w);
        SameWithoutCapitals(d, Normalize(s), if UpToCase(d, Display(n)) then Display(n) else "." + Display(n));
      }
      if Spells(Normalize(s), n) {
        var u, d, w := Trimmed(s);
        NormalizeExact(u, d, w);
        assert SpelledAs(s, u, d, w, n);
      }
    }
  }

  lemma {:induction false} SplitJoin(ls: seq<string>)
    requires |ls| >= 1 && DotFree(ls)
    ensures Split(Join(ls)) == ls
  {
    if |ls| == 1 {
      SplitLabel(ls[0], "");
    } else {
      SplitJoin(ls[1..]);
      SplitLabel(ls[0], Join(ls[1..]));
    }
  }

  /** Why a keyid is refused: it is empty, its UTF-8 length is out of range, or a character is. */
  ghost predicate BadKeyid(k: string, e: CoreError) {
    || (k == "" && e == EmptyLabel)
    || (k != "" && !(16 <= |Utf8(k)| <= 52) && e == KeyidLen(|Utf8(k)|))
    || (16 <= |Utf8(k)| <= 52 && !Base32String(k) && e == KeyidCharset)
  }

  ghost predicate BadVanity(v: string, e: CoreError) {
    || (|Utf8(v)| > 8 && e == VanityTooLong(|Utf8(v)|))
    || (|Utf8(v)| <= 8 && !Base32String(v) && e == VanityCharset)
  }

  lemma {:induction false} KeyidErrors(k: string, e: CoreError)
    ensures CheckKeyid(k) == Err(e) <==> BadKeyid(k, e)
  {
  }

  lemma {:induction false} VanityErrors(v: string, e: CoreError)
    ensures CheckVanity(v) == Err(e) <==> BadVanity(v, e)
  {
  }

  ghost predicate BadLabels(ls: seq<string>, e: CoreError)
    requires |ls| >= 1
  {
    if ls[|ls| - 1] != "minecraft" then e == BadSuffix
    else if |ls| == 1 then e == EmptyLabel
    else if |ls| == 2 then BadKeyid(ls[0], e)
    else if |ls| == 3 then BadVanity(ls[0], e) || (VanityOk(ls[0]) && BadKeyid(ls[1], e))
    else e == TooManyLabels
  }

  lemma {:induction false} LabelErrors(ls: seq<string>, e: CoreError)
    requires |ls| >= 1
    ensures ParseLabels(ls) == Err(e) <==> BadLabels(ls, e)
  {
    if |ls| == 2 {
      KeyidErrors(ls[0], e);
    } else if |ls| == 3 {
      VanityErrors(ls[0], e);
      KeyidErrors(ls[1], e);
      CheckVanityExact(ls[0]);
    }
  }

  /** Which error refused labels get: the suffix is looked at first, then their number, then the
      vanity label, then the keyid. */
  lemma {:induction false} ParseErrors(u: string, m: string, w: string, ls: seq<string>, e: CoreError)
    requires Blank(u) && Blank(w) && Bare(m) && |ls| >= 1 && DotFree(ls)
    requires UpToCase(m, Join(ls)) && NoCapitals(Join(ls))
    ensures Parse(u + m + w) == Err(e) <==> BadLabels(ls, e)
  {
    NormalizeExact(u, m, w);
    SameWithoutCapitals(m, Normalize(u + m + w), Join(ls));
    SplitJoin(ls);
    LabelErrors(ls, e);
  }

  lemma {:induction false} NormalizeDisplay(n: Name)
    requires ValidName(n)
    ensures Normalize(Display(n)) == Display(n)
  {
    var d := Display(n);
    Base32IsAscii(n.keyid);
    Base32IsAscii(n.vanity);
    assert d[0] == if n.vanity == "" then n.keyid[0] else n.vanity[0];
    assert d[|d| - 1] == SUFFIX[8];
    assert TrimEnd(TrimStart(d)) == d;
    forall i | 0 <= i < |d| ensures LowerChar(d[i]) == d[i] {
      assert d[i] == '.' || d[i] in n.vanity || d[i] in n.keyid || d[i] in SUFFIX;
    }
  }

  /** How a name is printed. */
  lemma {:induction false} DisplayLayout(n: Name)
    ensures Display(n) == (if n.vanity == "" then "" else n.vanity + ".") + n.keyid + ".minecraft"
  {
  }

  /** Printing then parsing gives the name back. */
  lemma {:induction false} ParseDisplay(n: Name)
    requires ValidName(n)
    ensures Parse(Display(n)) == Ok(n)
  {
    NormalizeDisplay(n);
    ParseNormalized(Display(n), n);
  }

  /** Whatever is accepted prints to a canonical spelling that parses to the same name. */
  lemma {:induction false} ParseDisplayParse(s: string)
    requires Parse(s).Ok?
    ensures ValidName(Parse(s).value) && Parse(Display(Parse(s).value)) == Parse(s)
  {
    ParseNormalized(s, Parse(s).value);
    ParseDisplay(Parse(s).value);
  }

  lemma {:induction false} DisplayInjective(m: Name, n: Name)
    requires ValidName(m) && ValidName(n) && Display(m) == Display(n)
    ensures m == n
  {
    ParseDisplay(m);
    ParseDisplay(n);
  }

  /** A name is derived exactly for the supported lengths and labels, prints to a spelling that
      parses back to it, and its keyid matches the key. */
  lemma {:induction false} FromPubkeyRoundTrip(c: Crypto, pubkey: Key32, vanity: string, len: nat)
    ensures FromPubkey(c, pubkey, vanity, len).Ok? <==> 16 <= len <= 52 && VanityOk(vanity)
    ensures forall e :: FromPubkey(c, pubkey, vanity, len) == Err(e) <==>
      if 16 <= len <= 52 then BadVanity(vanity, e) else e == KeyidLen(len)
    ensures FromPubkey(c, pubkey, vanity, len).Ok? ==>
      var n := FromPubkey(c, pubkey, vanity, len).value;
      && Parse(Display(n)) == Ok(n) && n.vanity == vanity && |n.keyid| == len
      && KeyidMatchesPubkey(c, n.keyid, pubkey)
  {
    CheckVanityExact(vanity);
    forall e ensures CheckVanity(vanity) == Err(e) <==> BadVanity(vanity, e) {
      VanityErrors(vanity, e);
    }
    ShorterKeyidIsPrefix(c, pubkey, len, len);
    if FromPubkey(c, pubkey, vanity, len).Ok? {
      var n := FromPubkey(c, pubkey, vanity, len).value;
      ParseDisplay(n);
      MatchIsPrefix(c, n.keyid, pubkey);
    }
  }
}
