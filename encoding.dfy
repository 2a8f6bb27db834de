/**
 * How a JavaScript string relates to its code points: its UTF-16 code units
 * (what `text.length` and `text[i]` see) and its UTF-8 bytes (what
 * `new Blob([text]).size` counts, RFC 3629 section 3, with an unpaired
 * surrogate written as U+FFFD).
 */
module Encoding {
  import opened Types

  predicate IsHighSurrogate(u: int) { 0xD800 <= u <= 0xDBFF }
  predicate IsLowSurrogate(u: int) { 0xDC00 <= u <= 0xDFFF }

  /**
   * A code-point sequence that `Array.from` can yield: no unpaired high
   * surrogate stands right before an unpaired low one (the two would form a pair).
   */
  predicate ArrayFromShape(s: Text) {
    forall i | 0 <= i < |s| - 1 :: !(IsHighSurrogate(s[i]) && IsLowSurrogate(s[i + 1]))
  }

  /** The UTF-16 code units of one code point. */
  function Utf16Units(cp: CodePoint): (u: seq<int>)
    ensures |u| == (if cp < 0x10000 then 1 else 2)
    ensures forall k | 0 <= k < |u| :: 0 <= u[k] < 0x10000
    ensures cp >= 0x10000 ==> IsHighSurrogate(u[0]) && IsLowSurrogate(u[1])
    ensures cp < 0x10000 ==> u[0] == cp
  {
    if cp < 0x10000 then [cp]
    else [0xD800 + (cp - 0x10000) / 0x400, 0xDC00 + (cp - 0x10000) % 0x400]
  }

  /** The UTF-16 code units of a text, that is, the JavaScript string. */
  function Utf16(s: Text): seq<int>
  {
    if s == [] then [] else Utf16Units(s[0]) + Utf16(s[1..])
  }

  /** Number of code points at or above U+10000, each of which takes two code units. */
  function CountSupplementary(s: Text): nat
  {
    if s == [] then 0 else (if s[0] >= 0x10000 then 1 else 0) + CountSupplementary(s[1..])
  }

  /** `text.length`: one code unit per code point, plus one per supplementary code point. */
  lemma {:induction false} Utf16Length(s: Text)
    ensures |Utf16(s)| == |s| + CountSupplementary(s)
    ensures |s| <= |Utf16(s)|
  {
    if s != [] {
      Utf16Length(s[1..]);
    }
  }

  /** What `Array.from` does to a string: pair each high surrogate with a following low one. */
  function Utf16Decode(u: seq<int>): seq<int>
  {
    if u == [] then []
    else if |u| >= 2 && IsHighSurrogate(u[0]) && IsLowSurrogate(u[1]) then
      [0x10000 + (u[0] - 0xD800) * 0x400 + (u[1] - 0xDC00)] + Utf16Decode(u[2..])
    else [u[0]] + Utf16Decode(u[1..])
  }

  /** The code-point view of a text is exactly what `Array.from` gives back for its string. */
  lemma {:induction false} Utf16RoundTrip(s: Text)
    requires ArrayFromShape(s)
    ensures Utf16Decode(Utf16(s)) == s
  {
    if s != [] {
      var rest := Utf16(s[1..]);
      assert ArrayFromShape(s[1..]) by {
        forall i | 0 <= i < |s[1..]| - 1
          ensures !(IsHighSurrogate(s[1..][i]) && IsLowSurrogate(s[1..][i + 1]))
        {
          assert s[1..][i] == s[i + 1] && s[1..][i + 1] == s[i + 2];
        }
      }
      Utf16RoundTrip(s[1..]);
      if s[0] >= 0x10000 {
        var u := Utf16Units(s[0]) + rest;
        assert u[2..] == rest;
      } else {
        var u := [s[0]] + rest;
        assert u[1..] == rest;
        if |u| >= 2 && IsHighSurrogate(u[0]) {
          assert u[1] == Utf16Units(s[1])[0];
          assert !IsLowSurrogate(u[1]);
        }
      }
    }
  }

  /** Number of bytes in the UTF-8 form of one code point (RFC 3629 section 3). */
  function Utf8Width(cp: CodePoint): nat
  {
    if cp < 0x80 then 1 else if cp < 0x800 then 2 else if cp < 0x10000 then 3 else 4
  }

  /** The UTF-8 bytes of one code point; an unpaired surrogate is written as U+FFFD. */
  function Utf8Bytes(cp: CodePoint): (b: seq<int>)
    ensures |b| == Utf8Width(cp)
    ensures forall k | 0 <= k < |b| :: 0 <= b[k] < 0x100
    ensures forall k | 1 <= k < |b| :: 0x80 <= b[k] <= 0xBF
  {
    var c := if 0xD800 <= cp <= 0xDFFF then 0xFFFD else cp;
    if c < 0x80 then [c]
    else if c < 0x800 then [0xC0 + c / 64, 0x80 + c % 64]
    else if c < 0x10000 then [0xE0 + c / 64 / 64, 0x80 + c / 64 % 64, 0x80 + c % 64]
    else [0xF0 + c / 64 / 64 / 64, 0x80 + c / 64 / 64 % 64, 0x80 + c / 64 % 64, 0x80 + c % 64]
  }

  /** Reads back one encoded code point from its bytes. */
  function Utf8DecodeOne(b: seq<int>): int
    requires 1 <= |b| <= 4
  {
    if |b| == 1 then b[0]
    else if |b| == 2 then (b[0] - 0xC0) * 64 + (b[1] - 0x80)
    else if |b| == 3 then ((b[0] - 0xE0) * 64 + (b[1] - 0x80)) * 64 + (b[2] - 0x80)
    else (((b[0] - 0xF0) * 64 + (b[1] - 0x80)) * 64 + (b[2] - 0x80)) * 64 + (b[3] - 0x80)
  }

  /** Every code point that is not a surrogate is read back from its UTF-8 bytes. */
  lemma Utf8RoundTrip(cp: CodePoint)
    requires !(0xD800 <= cp <= 0xDFFF)
    ensures Utf8DecodeOne(Utf8Bytes(cp)) == cp
  {
    var q := cp / 64;
    assert cp == q * 64 + cp % 64;
    assert q == q / 64 * 64 + q % 64;
    assert q / 64 == q / 64 / 64 * 64 + q / 64 % 64;
  }

  /** The UTF-8 bytes of a text. */
  function Utf8(s: Text): seq<int>
  {
    if s == [] then [] else Utf8Bytes(s[0]) + Utf8(s[1..])
  }

  /** Size of the UTF-8 form by the width table: 1, 2, 3 or 4 bytes per code point. */
  function Utf8Len(s: Text): nat
  {
    if s == [] then 0 else Utf8Width(s[0]) + Utf8Len(s[1..])
  }

  lemma {:induction false} Utf8Length(s: Text)
    ensures |Utf8(s)| == Utf8Len(s)
    ensures |s| <= |Utf8(s)| <= 4 * |s|
  {
    if s != [] {
      Utf8Length(s[1..]);
    }
  }

  /** Text with no supplementary code point has one UTF-16 unit per code point. */
  lemma {:induction false} BmpLength(s: Text)
    requires forall i | 0 <= i < |s| :: s[i] < 0x10000
    ensures CountSupplementary(s) == 0 && |Utf16(s)| == |s|
  {
    if s != [] {
      BmpLength(s[1..]);
    }
    Utf16Length(s);
  }
}
