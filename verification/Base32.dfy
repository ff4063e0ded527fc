/** Base32 without padding (section 6 of RFC 4648), lowercased: how a key hash becomes a keyid. */
module Base32 {
  import opened Bytes
  import Cbor

  function Bit(b: bool): nat { if b then 1 else 0 }

  function Pow2(k: nat): nat { if k == 0 then 1 else 2 * Pow2(k - 1) }

  /** The low `k` bits of `n`, most significant first. */
  function BitsOf(n: nat, k: nat): (s: seq<bool>)
    ensures |s| == k
  {
    if k == 0 then [] else BitsOf(n / 2, k - 1) + [n % 2 == 1]
  }

  function ByteBits(b: byte): (s: seq<bool>)
    ensures |s| == 8
  {
    BitsOf(b, 8)
  }

  /** The bits of a byte string, most significant first. */
  function Bits(h: bytes): (s: seq<bool>)
    ensures |s| == 8 * |h|
  {
    if h == [] then [] else ByteBits(h[0]) + Bits(h[1..])
  }

  /** Bit `i`, with zero bits added on the right. */
  predicate Padded(s: seq<bool>, i: nat) { i < |s| && s[i] }

  /** The five bits from position `5 * j` on, as a number. */
  function Group(s: seq<bool>, j: nat): (v: nat)
    ensures v < 32
  {
    16 * Bit(Padded(s, 5 * j)) + 8 * Bit(Padded(s, 5 * j + 1)) + 4 * Bit(Padded(s, 5 * j + 2))
    + 2 * Bit(Padded(s, 5 * j + 3)) + Bit(Padded(s, 5 * j + 4))
  }

  /** The alphabet A-Z2-7. */
  function Symbol(v: nat): char
    requires v < 32
  {
    if v < 26 then ('A' as int + v) as char else ('2' as int + v - 26) as char
  }

  function Encode(h: bytes): string {
    var s := Bits(h);
    seq((8 * |h| + 4) / 5, j requires 0 <= j => Symbol(Group(s, j)))
  }

  function LowerChar(c: char): char {
    if 'A' <= c <= 'Z' then (c as int + 32) as char else c
  }

  /** Rust's `to_ascii_lowercase`. */
  function Lower(s: string): (r: string)
    ensures |r| == |s| && forall i :: 0 <= i < |s| ==> r[i] == LowerChar(s[i])
  {
    seq(|s|, i requires 0 <= i < |s| => LowerChar(s[i]))
  }

  function LowerEncode(h: bytes): string { Lower(Encode(h)) }

  predicate Base32Char(c: char) { 'a' <= c <= 'z' || '2' <= c <= '7' }
  predicate Base32String(s: string) { forall i :: 0 <= i < |s| ==> Base32Char(s[i]) }

  /** One character for every five bits, looked up in the lowercase table of section 6. */
  lemma {:induction false} EncodeCharset(h: bytes)
    ensures |LowerEncode(h)| == (8 * |h| + 4) / 5 && Base32String(LowerEncode(h))
    ensures forall j :: 0 <= j < |LowerEncode(h)| ==>
      LowerEncode(h)[j] == "abcdefghijklmnopqrstuvwxyz234567"[Group(Bits(h), j)]
  {
    var s := Bits(h);
    forall j | 0 <= j < |LowerEncode(h)|
      ensures LowerEncode(h)[j] == "abcdefghijklmnopqrstuvwxyz234567"[Group(s, j)]
    {
      SymbolTable(Group(s, j));
    }
  }

  lemma {:induction false} SymbolTable(v: nat)
    requires v < 32
    ensures LowerChar(Symbol(v)) == "abcdefghijklmnopqrstuvwxyz234567"[v]
  {
  }

  lemma {:induction false} SymbolInjective(v: nat, w: nat)
    requires v < 32 && w < 32 && LowerChar(Symbol(v)) == LowerChar(Symbol(w))
    ensures v == w
  {
  }

  lemma {:induction false} GroupBits(s: seq<bool>, t: seq<bool>, j: nat)
    ensures Group(s, j) == Group(t, j) <==> forall i :: 5 * j <= i < 5 * j + 5 ==> Padded(s, i) == Padded(t, i)
  {
    if Group(s, j) == Group(t, j) {
      assert Padded(s, 5 * j) == Padded(t, 5 * j) && Padded(s, 5 * j + 1) == Padded(t, 5 * j + 1)
        && Padded(s, 5 * j + 2) == Padded(t, 5 * j + 2) && Padded(s, 5 * j + 3) == Padded(t, 5 * j + 3)
        && Padded(s, 5 * j + 4) == Padded(t, 5 * j + 4);
    }
  }

  lemma {:induction false} SameSymbol(g: bytes, h: bytes, j: nat)
    requires |g| == |h| && j < (8 * |g| + 4) / 5
    ensures LowerEncode(g)[j] == LowerEncode(h)[j]
       <==> forall i :: 5 * j <= i < 5 * j + 5 ==> Padded(Bits(g), i) == Padded(Bits(h), i)
  {
    GroupBits(Bits(g), Bits(h), j);
    assert LowerEncode(g)[j] == LowerChar(Symbol(Group(Bits(g), j)));
    assert LowerEncode(h)[j] == LowerChar(Symbol(Group(Bits(h), j)));
    if LowerEncode(g)[j] == LowerEncode(h)[j] {
      SymbolInjective(Group(Bits(g), j), Group(Bits(h), j));
    }
  }

  /** The first `n` characters agree exactly when the first `5 * n` (padded) bits do. */
  lemma {:induction false} PrefixBits(g: bytes, h: bytes, n: nat)
    requires |g| == |h| && n <= (8 * |g| + 4) / 5
    ensures LowerEncode(g)[..n] == LowerEncode(h)[..n]
       <==> forall i :: 0 <= i < 5 * n ==> Padded(Bits(g), i) == Padded(Bits(h), i)
  {
    var s, t := LowerEncode(g), LowerEncode(h);
    if s[..n] == t[..n] {
      forall i | 0 <= i < 5 * n ensures Padded(Bits(g), i) == Padded(Bits(h), i) {
        assert s[..n][i / 5] == t[..n][i / 5];
        SameSymbol(g, h, i / 5);
      }
    } else {
      var j :| 0 <= j < n && s[..n][j] != t[..n][j];
      SameSymbol(g, h, j);
    }
  }

  /** While no padding is involved, a truncated encoding is exactly a bit prefix of the hash. */
  lemma {:induction false} TruncationIsBitPrefix(g: bytes, h: bytes, n: nat)
    requires |g| == |h| && 5 * n <= 8 * |g|
    ensures LowerEncode(g)[..n] == LowerEncode(h)[..n] <==> Bits(g)[..5 * n] == Bits(h)[..5 * n]
  {
    PrefixBits(g, h, n);
    var s, t := Bits(g), Bits(h);
    if s[..5 * n] == t[..5 * n] {
      forall i | 0 <= i < 5 * n ensures Padded(s, i) == Padded(t, i) {
        assert s[..5 * n][i] == t[..5 * n][i];
      }
    } else {
      var i :| 0 <= i < 5 * n && s[..5 * n][i] != t[..5 * n][i];
      assert Padded(s, i) != Padded(t, i);
    }
  }

  // ----- the number an encoding stands for -----

  const ALPHABET: string := "abcdefghijklmnopqrstuvwxyz234567"

  function DigitOf(c: char): (v: nat)
    requires Base32Char(c)
    ensures v < 32 && ALPHABET[v] == c
  {
    if 'a' <= c then c as int - 'a' as int else 26 + c as int - '2' as int
  }

  /** The characters as base-32 digits, most significant first. */
  function Value(s: string): nat
    requires Base32String(s)
  {
    if s == [] then 0 else 32 * Value(s[..|s| - 1]) + DigitOf(s[|s| - 1])
  }

  function Number(s: seq<bool>): nat {
    if s == [] then 0 else 2 * Number(s[..|s| - 1]) + Bit(s[|s| - 1])
  }

  lemma {:induction false} NumberSnoc(s: seq<bool>, b: bool)
    ensures Number(s + [b]) == 2 * Number(s) + Bit(b)
  {
    assert (s + [b])[..|s|] == s;
  }

  /** Five bits after `s`, one at a time. */
  lemma {:induction false} NumberFive(s: seq<bool>, t: seq<bool>)
    requires |t| == |s| + 5 && t[..|s|] == s
    ensures var n := |s|;
      Number(t) == 32 * Number(s) + 16 * Bit(t[n]) + 8 * Bit(t[n + 1]) + 4 * Bit(t[n + 2])
                   + 2 * Bit(t[n + 3]) + Bit(t[n + 4])
  {
    var n := |s|;
    NumberOneMore(t, n);
    NumberOneMore(t, n + 1);
    NumberOneMore(t, n + 2);
    NumberOneMore(t, n + 3);
    NumberOneMore(t, n + 4);
    assert t[..n + 5] == t;
  }

  lemma {:induction false} NumberOneMore(t: seq<bool>, n: nat)
    requires n < |t|
    ensures Number(t[..n + 1]) == 2 * Number(t[..n]) + Bit(t[n])
  {
    assert t[..n + 1][..n] == t[..n];
  }

  lemma {:induction false} LastBit(s: seq<bool>, t: seq<bool>)
    requires t != []
    ensures var init, b := t[..|t| - 1], t[|t| - 1];
      Number(s + t) == 2 * Number(s + init) + Bit(b) && Number(t) == 2 * Number(init) + Bit(b)
  {
    assert (s + t)[..|s + t| - 1] == s + t[..|t| - 1];
  }

  lemma {:induction false} NumberConcatenated(s: seq<bool>, t: seq<bool>)
    ensures Number(s + t) == Number(s) * Pow2(|t|) + Number(t)
    decreases |t|
  {
    if t == [] {
      assert s + t == s;
    } else {
      var init := t[..|t| - 1];
      NumberConcatenated(s, init);
      LastBit(s, t);
      Doubled(Number(s), Pow2(|init|), Number(init));
    }
  }

  lemma {:induction false} Doubled(x: nat, p: nat, y: nat)
    ensures 2 * (x * p + y) == x * (2 * p) + 2 * y
  {
  }

  lemma {:induction false} BitsSnoc(h: bytes, b: byte)
    ensures Bits(h + [b]) == Bits(h) + ByteBits(b)
  {
    if h == [] {
      assert h + [b] == [b];
      assert Bits([b]) == ByteBits(b) + Bits([]);
    } else {
      BitsSnoc(h[1..], b);
      assert (h + [b])[1..] == h[1..] + [b];
    }
  }

  /** The bits of a byte string are those of the number it writes. */
  lemma {:induction false} NumberOfBytes(h: bytes)
    ensures Number(Bits(h)) == Cbor.FromBigEndian(h)
  {
    if h != [] {
      var init, b := h[..|h| - 1], h[|h| - 1];
      NumberOfBytes(init);
      assert h == init + [b];
      BitsSnoc(init, b);
      NumberConcatenated(Bits(init), ByteBits(b));
      assert Pow2(8) == 256;
      NumberOfBits(b, 8);
    }
  }

  /** The first `m` bits, with zeros added on the right. */
  function PadTo(s: seq<bool>, m: nat): (t: seq<bool>)
    ensures |t| == m && forall i :: 0 <= i < m ==> t[i] == Padded(s, i)
  {
    seq(m, i requires 0 <= i => Padded(s, i))
  }

  lemma {:induction false} NumberPadded(s: seq<bool>, k: nat)
    ensures Number(PadTo(s, |s| + k)) == Number(s) * Pow2(k)
  {
    if k == 0 {
      assert PadTo(s, |s|) == s;
    } else {
      NumberPadded(s, k - 1);
      assert PadTo(s, |s| + k) == PadTo(s, |s| + k - 1) + [false];
      NumberSnoc(PadTo(s, |s| + k - 1), false);
      Doubled(Number(s), Pow2(k - 1), 0);
    }
  }

  lemma {:induction false} OneMoreGroup(s: seq<bool>, k: nat)
    ensures Number(PadTo(s, 5 * (k + 1))) == 32 * Number(PadTo(s, 5 * k)) + Group(s, k)
  {
    var p, t := PadTo(s, 5 * k), PadTo(s, 5 * (k + 1));
    assert t[..5 * k] == p;
    NumberFive(p, t);
  }

  lemma {:induction false} ValueStep(t: string, k: nat, v: nat)
    requires Base32String(t) && k < |t| && v < 32 && t[k] == ALPHABET[v]
    ensures Base32String(t[..k]) && Base32String(t[..k + 1]) && Value(t[..k + 1]) == 32 * Value(t[..k]) + v
  {
    assert t[..k + 1][..k] == t[..k];
    DigitOfSymbol(v);
  }

  lemma {:induction false} SymbolAt(h: bytes, j: nat)
    requires j < |LowerEncode(h)|
    ensures LowerEncode(h)[j] == ALPHABET[Group(Bits(h), j)]
  {
    EncodeCharset(h);
  }

  lemma {:induction false} EncodeSize(h: bytes)
    ensures |LowerEncode(h)| == (8 * |h| + 4) / 5 && Base32String(LowerEncode(h))
  {
    EncodeCharset(h);
  }

  lemma {:induction false} ValueOfPrefix(h: bytes, k: nat)
    requires k <= |LowerEncode(h)|
    ensures Base32String(LowerEncode(h)[..k]) && Value(LowerEncode(h)[..k]) == Number(PadTo(Bits(h), 5 * k))
  {
    EncodeSize(h);
    if k == 0 {
      assert PadTo(Bits(h), 0) == [];
    } else {
      ValueOfPrefix(h, k - 1);
      OneMoreGroup(Bits(h), k - 1);
      SymbolAt(h, k - 1);
      ValueStep(LowerEncode(h), k - 1, Group(Bits(h), k - 1));
    }
  }

  lemma {:induction false} ValueOfWhole(h: bytes)
    ensures Base32String(LowerEncode(h)) && Value(LowerEncode(h)) == Number(PadTo(Bits(h), 5 * |LowerEncode(h)|))
  {
    ValueOfPrefix(h, |LowerEncode(h)|);
    assert LowerEncode(h)[..|LowerEncode(h)|] == LowerEncode(h);
  }

  lemma {:induction false} PaddedBytes(h: bytes, m: nat)
    requires 8 * |h| <= m
    ensures Number(PadTo(Bits(h), m)) == Cbor.FromBigEndian(h) * Pow2(m - 8 * |h|)
  {
    NumberPadded(Bits(h), m - 8 * |h|);
    NumberOfBytes(h);
  }

  lemma {:induction false} DigitOfSymbol(v: nat)
    requires v < 32
    ensures Base32Char(ALPHABET[v]) && DigitOf(ALPHABET[v]) == v
  {
    SymbolTable(v);
  }

  /** As a number in base 32, the encoding is the hash as a number, most significant byte first,
      moved left by the bits of padding. */
  lemma {:induction false} EncodingIsTheNumber(h: bytes)
    ensures Base32String(LowerEncode(h)) && 8 * |h| <= 5 * |LowerEncode(h)| < 8 * |h| + 5
    ensures Value(LowerEncode(h)) == Cbor.FromBigEndian(h) * Pow2(5 * |LowerEncode(h)| - 8 * |h|)
  {
    EncodeSize(h);
    PaddingBits(|h|);
    ValueOfWhole(h);
    PaddedBytes(h, 5 * |LowerEncode(h)|);
  }

  lemma {:induction false} PaddingBits(n: nat)
    ensures 8 * n <= 5 * ((8 * n + 4) / 5) < 8 * n + 5
  {
  }

  lemma {:induction false} NumberOfBits(n: nat, k: nat)
    requires n < Pow2(k)
    ensures Number(BitsOf(n, k)) == n
  {
    if k > 0 {
      NumberOfBits(n / 2, k - 1);
      assert BitsOf(n, k)[..k - 1] == BitsOf(n / 2, k - 1);
    }
  }

  lemma {:induction false} ByteBitsInjective(a: byte, b: byte)
    requires ByteBits(a) == ByteBits(b)
    ensures a == b
  {
    assert Pow2(8) == 256;
    NumberOfBits(a, 8);
    NumberOfBits(b, 8);
  }

  lemma {:induction false} BitsInjective(g: bytes, h: bytes)
    requires |g| == |h| && Bits(g) == Bits(h)
    ensures g == h
  {
    if g != [] {
      assert Bits(g)[..8] == ByteBits(g[0]) && Bits(h)[..8] == ByteBits(h[0]);
      assert Bits(g)[8..] == Bits(g[1..]) && Bits(h)[8..] == Bits(h[1..]);
      ByteBitsInjective(g[0], h[0]);
      BitsInjective(g[1..], h[1..]);
      assert g == [g[0]] + g[1..] && h == [h[0]] + h[1..];
    }
  }

  /** The full encoding determines the hash. */
  lemma {:induction false} EncodeInjective(g: bytes, h: bytes)
    requires |g| == |h| && LowerEncode(g) == LowerEncode(h)
    ensures g == h
  {
    var n := (8 * |g| + 4) / 5;
    assert LowerEncode(g)[..n] == LowerEncode(h)[..n];
    PrefixBits(g, h, n);
    forall i | 0 <= i < 8 * |g| ensures Bits(g)[i] == Bits(h)[i] {
      assert Padded(Bits(g), i) == Padded(Bits(h), i);
    }
    assert Bits(g) == Bits(h);
    BitsInjective(g, h);
  }
}
