/** Bytes, machine-width numbers and the small wrappers the other modules share. */
module Bytes {
  type byte = x: int | 0 <= x < 256
  type bytes = seq<byte>

  const U64_MAX: int := 0xFFFF_FFFF_FFFF_FFFF
  type u8 = x: int | 0 <= x < 0x100
  type u32 = x: int | 0 <= x < 0x1_0000_0000
  type u64 = x: int | 0 <= x <= U64_MAX

  type Key32 = s: bytes | |s| == 32 witness seq(32, _ => 0)
  type Sig64 = s: bytes | |s| == 64 witness seq(64, _ => 0)

  datatype Option<+T> = None | Some(value: T)
  datatype Result<+T, +E> = Ok(value: T) | Err(error: E)

  /** Rust's `u64::saturating_add`. */
  function SaturatingAdd(a: u64, b: u64): u64 {
    if a + b > U64_MAX then U64_MAX else a + b
  }

  /** Rust's `u64::abs_diff`. */
  function AbsDiff(a: u64, b: u64): u64 {
    if a < b then b - a else a - b
  }

  // UTF-8 well-formedness (table 3-7 of the Unicode standard: no overlong forms, no
  // surrogates, nothing above U+10FFFF), as what the bytes read so far still need.
  datatype Need = Done | Tail(count: int, lo: int, hi: int) | Invalid

  function Read(need: Need, b: byte): Need {
    match need
    case Invalid => Invalid
    case Tail(count, lo, hi) =>
      if !(lo <= b <= hi) then Invalid else if count == 1 then Done else Tail(count - 1, 0x80, 0xBF)
    case Done =>
      if b < 0x80 then Done
      else if 0xC2 <= b < 0xE0 then Tail(1, 0x80, 0xBF)
      else if 0xE0 <= b < 0xF0 then Tail(2, if b == 0xE0 then 0xA0 else 0x80, if b == 0xED then 0x9F else 0xBF)
      else if 0xF0 <= b < 0xF5 then Tail(3, if b == 0xF0 then 0x90 else 0x80, if b == 0xF4 then 0x8F else 0xBF)
      else Invalid
  }

  function ReadAll(s: bytes): Need {
    if s == [] then Done else Read(ReadAll(s[..|s| - 1]), s[|s| - 1])
  }

  predicate ValidUtf8(s: bytes) { ReadAll(s) == Done }

  lemma {:induction false} Utf8Concatenation(s: bytes, t: bytes)
    requires ValidUtf8(s)
    ensures ReadAll(s + t) == ReadAll(t)
  {
    if t == [] {
      assert s + t == s;
    } else {
      Utf8Concatenation(s, t[..|t| - 1]);
      assert (s + t)[..|s + t| - 1] == s + t[..|t| - 1];
    }
  }

  /** The content of a Rust `String`: UTF-8 whose length fits a machine word. */
  predicate IsText(s: bytes) { |s| <= U64_MAX && ValidUtf8(s) }
  type Text = s: bytes | IsText(s) witness []

  predicate IsAscii(s: string) {
    forall i :: 0 <= i < |s| ==> s[i] as int < 0x80
  }

  /** The bytes of an ASCII string, one per character. */
  function Ascii(s: string): (t: Text)
    requires IsAscii(s) && |s| <= U64_MAX
    ensures |t| == |s| && forall i :: 0 <= i < |s| ==> t[i] == s[i] as int
  {
    var t := seq(|s|, i requires 0 <= i < |s| => s[i] as int);
    AsciiIsUtf8(t);
    t
  }

  lemma {:induction false} AsciiIsUtf8(t: bytes)
    requires forall i :: 0 <= i < |t| ==> t[i] < 0x80
    ensures ValidUtf8(t)
  {
    if t != [] {
      AsciiIsUtf8(t[..|t| - 1]);
    }
  }
}
