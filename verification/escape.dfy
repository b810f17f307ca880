/**
 * The percent-encoding step of parseSVG: every character outside the class
 * [space, '-', '.', digits, ASCII letters, '_'] is passed to JavaScript's
 * `escape` (Annex B.2.1.1 of ECMAScript 2015), and `Decode` reads the result
 * back.
 *
 * JavaScript strings are sequences of UTF-16 code units and the pattern has no
 * `u` flag, so a character above U+FFFF is matched, and escaped, as its two
 * surrogates. A Dafny character is a Unicode scalar value; `EscapeChar` writes
 * out both surrogates for such a character, which is what the source produces.
 */
module Escape {
  import opened JsStrings

  /** The characters the pattern /[^\ \-\.\d\w]/g does not match: they stay as they are. */
  predicate IsSafe(c: char) {
    c == ' ' || c == '-' || c == '.' || c == '_'
    || ('0' <= c <= '9') || ('A' <= c <= 'Z') || ('a' <= c <= 'z')
  }

  /** The characters `escape` copies unchanged: ASCII letters, digits and "@*_+-./". */
  predicate EscapeKeeps(c: char) {
    ('0' <= c <= '9') || ('A' <= c <= 'Z') || ('a' <= c <= 'z') || c in "@*_+-./"
  }

  /** Upper-case hexadecimal digit for `d`. */
  function HexDigit(d: nat): (c: char)
    requires d < 16
    ensures '0' <= c <= '9' || 'A' <= c <= 'F'
  {
    if d < 10 then ('0' as int + d) as char else ('A' as int + d - 10) as char
  }

  /** Two upper-case hexadecimal digits for `n`. */
  function Hex2(n: nat): (r: string)
    requires n < 0x100
    ensures |r| == 2
  {
    [HexDigit(n / 16), HexDigit(n % 16)]
  }

  /** Four upper-case hexadecimal digits for `n`. */
  function Hex4(n: nat): (r: string)
    requires n < 0x1_0000
    ensures |r| == 4
  {
    Hex2(n / 0x100) + Hex2(n % 0x100)
  }

  /** The high (leading) surrogate of a character above U+FFFF. */
  function HighSurrogate(c: char): (u: nat)
    requires c as int >= 0x1_0000
    ensures 0xD800 <= u < 0xDC00
  {
    0xD800 + (c as int - 0x1_0000) / 0x400
  }

  /** The low (trailing) surrogate of a character above U+FFFF. */
  function LowSurrogate(c: char): (u: nat)
    requires c as int >= 0x1_0000
    ensures 0xDC00 <= u < 0xE000
  {
    0xDC00 + (c as int - 0x1_0000) % 0x400
  }

  /** `escape` applied to the string holding the one character `c`. */
  function EscapeChar(c: char): (r: string)
    ensures r == [c] <==> EscapeKeeps(c)
    ensures !EscapeKeeps(c) ==> |r| == (if c as int < 0x100 then 3 else if c as int < 0x1_0000 then 6 else 12)
    ensures !EscapeKeeps(c) ==> r[0] == '%'
  {
    if EscapeKeeps(c) then [c]
    else if c as int < 0x100 then "%" + Hex2(c as int)
    else if c as int < 0x1_0000 then "%u" + Hex4(c as int)
    else "%u" + Hex4(HighSurrogate(c)) + "%u" + Hex4(LowSurrogate(c))
  }

  /** What the replace call puts in place of `c`. */
  function EncodeChar(c: char): (r: string)
    ensures |r| >= 1
  {
    if IsSafe(c) then [c] else EscapeChar(c)
  }

  /** `s.replace(/[^\ \-\.\d\w]/g, escape)`. */
  function EscapeText(s: string): (r: string)
    ensures |r| >= |s|
  {
    MapChars(EncodeChar, s)
  }

  /** A character `EscapeText` can produce. */
  predicate InEscapedAlphabet(c: char) {
    IsSafe(c) || c in "%@*+/"
  }

  // ---------------------------------------------------------------------
  // reading escapes back

  predicate IsHexDigit(c: char) {
    ('0' <= c <= '9') || ('A' <= c <= 'F') || ('a' <= c <= 'f')
  }

  function HexValue(c: char): nat
    requires IsHexDigit(c)
  {
    if '0' <= c <= '9' then c as int - '0' as int
    else if 'A' <= c <= 'F' then c as int - 'A' as int + 10
    else c as int - 'a' as int + 10
  }

  predicate IsHex(s: string) {
    forall k :: 0 <= k < |s| ==> IsHexDigit(s[k])
  }

  function Hex2Value(s: string): nat
    requires |s| == 2 && IsHex(s)
  {
    HexValue(s[0]) * 16 + HexValue(s[1])
  }

  function Hex4Value(s: string): nat
    requires |s| == 4 && IsHex(s)
  {
    Hex2Value(s[..2]) * 0x100 + Hex2Value(s[2..])
  }

  /** `s` starts with a "%uXXXX" escape. */
  predicate UnitEscapeAt(s: string) {
    |s| >= 6 && s[0] == '%' && s[1] == 'u' && IsHex(s[2..6])
  }

  /** `s` starts with a "%XX" escape. */
  predicate ByteEscapeAt(s: string) {
    |s| >= 3 && s[0] == '%' && IsHex(s[1..3])
  }

  /** `s` starts with two "%uXXXX" escapes holding a high and a low surrogate. */
  predicate PairEscapeAt(s: string) {
    && UnitEscapeAt(s) && 0xD800 <= Hex4Value(s[2..6]) < 0xDC00
    && UnitEscapeAt(s[6..]) && 0xDC00 <= Hex4Value(s[6..][2..6]) < 0xE000
  }

  /** A code point that is a Dafny character (not a surrogate, at most U+10FFFF). */
  predicate IsScalar(n: nat) {
    n < 0xD800 || 0xE000 <= n < 0x11_0000
  }

  /**
   * Percent-decoding in the manner of JavaScript's `unescape`: "%uXXXX" and
   * "%XX" become the character they name, a surrogate pair of "%u" escapes
   * becomes the one character it encodes, and anything else is copied.
   */
  function Decode(s: string): string
    decreases |s|
  {
    if s == [] then []
    else if PairEscapeAt(s) then
      var n := 0x1_0000 + (Hex4Value(s[2..6]) - 0xD800) * 0x400 + (Hex4Value(s[6..][2..6]) - 0xDC00);
      [n as char] + Decode(s[12..])
    else if UnitEscapeAt(s) && IsScalar(Hex4Value(s[2..6])) then
      [Hex4Value(s[2..6]) as char] + Decode(s[6..])
    else if ByteEscapeAt(s) then
      [Hex2Value(s[1..3]) as char] + Decode(s[3..])
    else
      [s[0]] + Decode(s[1..])
  }

  // ---------------------------------------------------------------------
  // properties

  lemma {:induction false} Hex2RoundTrip(n: nat)
    requires n < 0x100
    ensures IsHex(Hex2(n)) && Hex2Value(Hex2(n)) == n
  {
  }

  lemma {:induction false} Hex4RoundTrip(n: nat)
    requires n < 0x1_0000
    ensures IsHex(Hex4(n)) && Hex4Value(Hex4(n)) == n
  {
    var s := Hex4(n);
    Hex2RoundTrip(n / 0x100);
    Hex2RoundTrip(n % 0x100);
    assert s[..2] == Hex2(n / 0x100);
    assert s[2..] == Hex2(n % 0x100);
  }

  /** Every safe character is copied, every other one is replaced by its `escape` form. */
  lemma {:induction false} EscapeTextSpec(s: string, t: string)
    ensures EscapeText(s + t) == EscapeText(s) + EscapeText(t)
    ensures (forall k :: 0 <= k < |s| ==> IsSafe(s[k])) ==> EscapeText(s) == s
  {
    MapCharsAppend(EncodeChar, s, t);
    if forall k :: 0 <= k < |s| ==> IsSafe(s[k]) {
      MapCharsFixed(EncodeChar, s);
    }
  }

  /** A character of an escape sequence: '%', 'u', an upper-case hex digit, or one of "@*+/". */
  predicate IsEscapeSyntax(d: char) {
    d == '%' || d == 'u' || ('0' <= d <= '9') || ('A' <= d <= 'F') || d in "@*+/"
  }

  /**
   * A safe character is copied; any other one is replaced by a non-empty
   * escape made of escape-syntax characters only.
   */
  lemma {:induction false} EncodeCharShape(c: char)
    ensures IsSafe(c) ==> EncodeChar(c) == [c]
    ensures !IsSafe(c) ==> EncodeChar(c) != [] && forall d :: d in EncodeChar(c) ==> IsEscapeSyntax(d)
  {
  }

  /** Escaped text uses only safe characters, '%' and "@*+/"; in particular it has no '"'. */
  lemma {:induction false} EscapeTextAlphabet(s: string)
    ensures forall d :: d in EscapeText(s) ==> InEscapedAlphabet(d)
    decreases |s|
  {
    if s != [] {
      EncodeCharShape(s[0]);
      EscapeTextAlphabet(s[1..]);
    }
  }

  lemma {:induction false} DecodeByteEscape(c: char, t: string)
    requires !IsSafe(c) && !EscapeKeeps(c) && c as int < 0x100
    ensures Decode(EncodeChar(c) + t) == [c] + Decode(t)
  {
    var s := EncodeChar(c) + t;
    Hex2RoundTrip(c as int);
    assert s == "%" + Hex2(c as int) + t;
    assert s[1..3] == Hex2(c as int);
    assert !UnitEscapeAt(s);
    assert ByteEscapeAt(s);
    assert s[3..] == t;
  }

  lemma {:induction false} DecodeUnitEscape(c: char, t: string)
    requires !IsSafe(c) && !EscapeKeeps(c) && 0x100 <= c as int < 0x1_0000
    ensures Decode(EncodeChar(c) + t) == [c] + Decode(t)
  {
    var s := EncodeChar(c) + t;
    Hex4RoundTrip(c as int);
    assert s == "%u" + Hex4(c as int) + t;
    assert s[2..6] == Hex4(c as int);
    assert UnitEscapeAt(s);
    assert !PairEscapeAt(s);
    assert s[6..] == t;
  }

  /** The two surrogates of a character above U+FFFF give that character back. */
  lemma {:induction false} SurrogatesRecombine(c: char)
    requires c as int >= 0x1_0000
    ensures 0x1_0000 + (HighSurrogate(c) - 0xD800) * 0x400 + (LowSurrogate(c) - 0xDC00) == c as int
  {
  }

  /** Two "%u" escapes of a high and a low surrogate are read as one pair. */
  lemma {:induction false} PairEscapeShape(hi: nat, lo: nat, t: string)
    requires 0xD800 <= hi < 0xDC00 && 0xDC00 <= lo < 0xE000
    ensures var s := "%u" + Hex4(hi) + ("%u" + Hex4(lo) + t);
            && PairEscapeAt(s) && Hex4Value(s[2..6]) == hi && Hex4Value(s[6..][2..6]) == lo
            && s[12..] == t
  {
    var s := "%u" + Hex4(hi) + ("%u" + Hex4(lo) + t);
    Hex4RoundTrip(hi);
    Hex4RoundTrip(lo);
    assert s[2..6] == Hex4(hi);
    assert s[6..] == "%u" + Hex4(lo) + t;
    assert s[6..][2..6] == Hex4(lo);
  }

  /** A character above U+FFFF is written as the escapes of its two surrogates. */
  lemma PairEncoding(c: char)
    requires c as int >= 0x1_0000
    ensures EncodeChar(c) == "%u" + Hex4(HighSurrogate(c)) + "%u" + Hex4(LowSurrogate(c))
  {
    assert !IsSafe(c) && !EscapeKeeps(c);
  }

  /** A surrogate-pair escape at the front is read as the one character it encodes. */
  lemma {:induction false} DecodePairStep(s: string, hi: nat, lo: nat)
    requires PairEscapeAt(s) && Hex4Value(s[2..6]) == hi && Hex4Value(s[6..][2..6]) == lo
    ensures Decode(s) == [(0x1_0000 + (hi - 0xD800) * 0x400 + (lo - 0xDC00)) as char] + Decode(s[12..])
  {
  }

  lemma {:induction false} DecodePairEscape(c: char, t: string)
    requires c as int >= 0x1_0000
    ensures Decode(EncodeChar(c) + t) == [c] + Decode(t)
  {
    var hi, lo := HighSurrogate(c), LowSurrogate(c);
    var s := EncodeChar(c) + t;
    assert s == "%u" + Hex4(hi) + ("%u" + Hex4(lo) + t) by {
      PairEncoding(c);
    }
    assert s[12..] == t && Decode(s) == [c] + Decode(s[12..]) by {
      PairEscapeShape(hi, lo, t);
      DecodePairStep(s, hi, lo);
      SurrogatesRecombine(c);
    }
  }

  /** Decoding the replacement for one character gives that character back. */
  lemma {:induction false} DecodeEncodeChar(c: char, t: string)
    ensures Decode(EncodeChar(c) + t) == [c] + Decode(t)
  {
    if EncodeChar(c) == [c] {
      var s := [c] + t;
      assert s[0] == c && s[1..] == t;
    } else if c as int < 0x100 {
      DecodeByteEscape(c, t);
    } else if c as int < 0x1_0000 {
      DecodeUnitEscape(c, t);
    } else {
      DecodePairEscape(c, t);
    }
  }

  /** Decoding escaped text gives the text back: escaping loses nothing. */
  lemma {:induction false} DecodeEscapeText(s: string)
    ensures Decode(EscapeText(s)) == s
    decreases |s|
  {
    if s != [] {
      assert EscapeText(s) == EncodeChar(s[0]) + EscapeText(s[1..]);
      DecodeEncodeChar(s[0], EscapeText(s[1..]));
      DecodeEscapeText(s[1..]);
    }
  }
}
