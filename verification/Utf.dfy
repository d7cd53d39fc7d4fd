/** Java's UTF-16 text converted to UTF-8, and code points counted in UTF-8. */
module Utf {
  import opened Bytes
  import opened Options

  type unit = n: int | 0 <= n < 0x1_0000
  type codepoint = n: int | 0 <= n < 0x11_0000

  predicate IsHigh(u: int) { 0xd800 <= u <= 0xdbff }

  predicate IsLow(u: int) { 0xdc00 <= u <= 0xdfff }

  predicate IsSurrogate(u: int) { 0xd800 <= u <= 0xdfff }

  function Then(c: codepoint, rest: Option<seq<codepoint>>): Option<seq<codepoint>> {
    if rest.None? then None else Some([c] + rest.value)
  }

  // ----- the two encodings, as their standards decode them -----

  /** Decoding UTF-16, section 2.2 of RFC 2781; None for ill-formed text. */
  function FromUtf16(units: seq<unit>): Option<seq<codepoint>> {
    if units == [] then Some([])
    else if !IsSurrogate(units[0]) then Then(units[0], FromUtf16(units[1..]))
    else if IsLow(units[0]) || |units| < 2 || !IsLow(units[1]) then None
    else
      var high: int, low: int := units[0], units[1];
      Then(0x1_0000 + (high - 0xd800) * 0x400 + (low - 0xdc00), FromUtf16(units[2..]))
  }

  predicate IsTail(b: int) { 0x80 <= b <= 0xbf }

  /** The first byte may start a sequence of `n` bytes whose second byte is `second`: the syntax of section 4
      of RFC 3629. */
  predicate Starts(n: nat, first: int, second: int) {
    match n
    case 2 => 0xc2 <= first <= 0xdf && IsTail(second)
    case 3 =>
      || (first == 0xe0 && 0xa0 <= second <= 0xbf)
      || (0xe1 <= first <= 0xec && IsTail(second))
      || (first == 0xed && 0x80 <= second <= 0x9f)
      || (0xee <= first <= 0xef && IsTail(second))
    case 4 =>
      || (first == 0xf0 && 0x90 <= second <= 0xbf)
      || (0xf1 <= first <= 0xf3 && IsTail(second))
      || (first == 0xf4 && 0x80 <= second <= 0x8f)
    case _ => false
  }

  /** Decoding UTF-8, section 3 of RFC 3629; None for anything its syntax refuses. */
  function FromUtf8(s: seq<byte>): Option<seq<codepoint>> {
    if s == [] then Some([])
    else if s[0] <= 0x7f then Then(s[0], FromUtf8(s[1..]))
    else if |s| >= 2 && Starts(2, s[0], s[1]) then
      var a: int, b: int := s[0], s[1];
      Then((a - 0xc0) * 0x40 + (b - 0x80), FromUtf8(s[2..]))
    else if |s| >= 3 && Starts(3, s[0], s[1]) && IsTail(s[2]) then
      var a: int, b: int, c: int := s[0], s[1], s[2];
      Then((a - 0xe0) * 0x1000 + (b - 0x80) * 0x40 + (c - 0x80), FromUtf8(s[3..]))
    else if |s| >= 4 && Starts(4, s[0], s[1]) && IsTail(s[2]) && IsTail(s[3]) then
      var a: int, b: int, c: int, d: int := s[0], s[1], s[2], s[3];
      Then((a - 0xf0) * 0x4_0000 + (b - 0x80) * 0x1000 + (c - 0x80) * 0x40 + (d - 0x80), FromUtf8(s[4..]))
    else None
  }

  // ----- the conversion -----

  /** Whether the converter joins the units at `i` and `i + 1`. */
  predicate Pairs(units: seq<unit>, i: nat)
    requires i < |units|
  {
    IsHigh(units[i]) && i + 1 < |units| && IsLow(units[i + 1])
  }

  function Joined(high: unit, low: unit): codepoint
    requires IsHigh(high) && IsLow(low)
  {
    0x1_0000 + (high - 0xd800) * 0x400 + (low - 0xdc00)
  }

  function Encode(c: codepoint): (r: seq<byte>) {
    if c <= 0x7f then [c]
    else if c <= 0x7ff then [0xc0 + c / 0x40, 0x80 + c % 0x40]
    else if c <= 0xffff then [0xe0 + c / 0x1000, 0x80 + c / 0x40 % 0x40, 0x80 + c % 0x40]
    else [0xf0 + c / 0x4_0000, 0x80 + c / 0x1000 % 0x40, 0x80 + c / 0x40 % 0x40, 0x80 + c % 0x40]
  }

  /** What the converter produces from unit `i` on; a surrogate without its partner is encoded by itself. */
  function Converted(units: seq<unit>, i: nat): seq<byte>
    requires i <= |units|
    decreases |units| - i
  {
    if i == |units| then []
    else if Pairs(units, i) then Encode(Joined(units[i], units[i + 1])) + Converted(units, i + 2)
    else Encode(units[i]) + Converted(units, i + 1)
  }

  lemma TwoDigits(c: int)
    ensures c == c / 0x40 * 0x40 + c % 0x40
    ensures c / 0x1000 == c / 0x40 / 0x40 && c / 0x4_0000 == c / 0x40 / 0x40 / 0x40
  {
  }

  lemma Encoded2(c: codepoint, rest: seq<byte>)
    requires 0x7f < c <= 0x7ff
    ensures FromUtf8(Encode(c) + rest) == if IsSurrogate(c) then None else Then(c, FromUtf8(rest))
  {
    TwoDigits(c);
    TwoDigits(c / 0x40);
    TwoDigits(c / 0x1000);
    assert (Encode(c) + rest)[2..] == rest;
  }

  lemma Encoded3(c: codepoint, rest: seq<byte>)
    requires 0x7ff < c <= 0xffff
    ensures FromUtf8(Encode(c) + rest) == if IsSurrogate(c) then None else Then(c, FromUtf8(rest))
  {
    TwoDigits(c);
    TwoDigits(c / 0x40);
    TwoDigits(c / 0x1000);
    assert (Encode(c) + rest)[3..] == rest;
  }

  lemma Encoded4(c: codepoint, rest: seq<byte>)
    requires 0xffff < c
    ensures FromUtf8(Encode(c) + rest) == if IsSurrogate(c) then None else Then(c, FromUtf8(rest))
  {
    TwoDigits(c);
    TwoDigits(c / 0x40);
    TwoDigits(c / 0x1000);
    assert (Encode(c) + rest)[4..] == rest;
  }

  lemma EncodedDecodes(c: codepoint, rest: seq<byte>)
    ensures FromUtf8(Encode(c) + rest) == if IsSurrogate(c) then None else Then(c, FromUtf8(rest))
  {
    if c <= 0x7f {
      assert (Encode(c) + rest)[1..] == rest;
    } else if c <= 0x7ff {
      Encoded2(c, rest);
    } else if c <= 0xffff {
      Encoded3(c, rest);
    } else {
      Encoded4(c, rest);
    }
  }

  /** The converted text is the same text: it decodes to the same code points, and it is valid exactly when the
      UTF-16 text is well formed. */
  lemma {:induction false} ConvertedMeansTheSame(units: seq<unit>, i: nat)
    requires i <= |units|
    ensures FromUtf8(Converted(units, i)) == FromUtf16(units[i..])
    decreases |units| - i
  {
    if i == |units| {
    } else if Pairs(units, i) {
      ConvertedMeansTheSame(units, i + 2);
      EncodedDecodes(Joined(units[i], units[i + 1]), Converted(units, i + 2));
      assert units[i..][2..] == units[i + 2..];
    } else {
      ConvertedMeansTheSame(units, i + 1);
      EncodedDecodes(units[i], Converted(units, i + 1));
      assert units[i..][1..] == units[i + 1..];
    }
  }

  method PushEncoded(before: seq<byte>, c: codepoint) returns (text: seq<byte>)
    ensures text == before + Encode(c)
  {
    text := before;
    if c <= 0x7f {
      text := text + [c];
    } else if c <= 0x7ff {
      text := text + [0xc0 + c / 0x40] + [0x80 + c % 0x40];
    } else if c <= 0xffff {
      text := text + [0xe0 + c / 0x1000] + [0x80 + c / 0x40 % 0x40] + [0x80 + c % 0x40];
    } else {
      text := text + [0xf0 + c / 0x4_0000] + [0x80 + c / 0x1000 % 0x40] + [0x80 + c / 0x40 % 0x40] + [0x80 + c % 0x40];
    }
  }

  lemma Associates(a: seq<byte>, b: seq<byte>, c: seq<byte>)
    ensures (a + b) + c == a + (b + c)
  {
  }

  /** `to_utf8`, once the Java string's characters are at hand. */
  method ToUtf8(units: seq<unit>) returns (text: seq<byte>)
    ensures FromUtf8(text) == FromUtf16(units)
    ensures text == Converted(units, 0)
  {
    hide Encode, FromUtf8, FromUtf16;
    text := [];
    var index := 0;
    while index < |units|
      invariant index <= |units|
      invariant text + Converted(units, index) == Converted(units, 0)
    {
      ghost var before, from := text, index;
      var c: codepoint := units[index];
      if 0xd800 <= c <= 0xdbff && index + 1 < |units| {
        var low := units[index + 1];
        if 0xdc00 <= low <= 0xdfff {
          c := 0x1_0000 + (c - 0xd800) * 0x400 + (low - 0xdc00);
          index := index + 1;
        }
      }
      text := PushEncoded(text, c);
      index := index + 1;
      assert Converted(units, from) == Encode(c) + Converted(units, index);
      Associates(before, Encode(c), Converted(units, index));
    }
    assert text + [] == text;
    ConvertedMeansTheSame(units, 0);
    assert units[0..] == units;
  }

  // ----- counting -----

  function NonTails(s: seq<byte>): nat {
    if s == [] then 0 else (if s[0] / 0x40 == 2 then 0 else 1) + NonTails(s[1..])
  }

  /** Valid UTF-8 holds one byte that is not a continuation byte for each code point. */
  lemma {:induction false} NonTailsCountCodePoints(s: seq<byte>)
    requires FromUtf8(s).Some?
    ensures NonTails(s) == |FromUtf8(s).value|
  {
    if s == [] {
    } else if s[0] <= 0x7f {
      NonTailsCountCodePoints(s[1..]);
    } else if |s| >= 2 && Starts(2, s[0], s[1]) {
      NonTailsCountCodePoints(s[2..]);
      NonTailsSkip(s, 2);
    } else if |s| >= 3 && Starts(3, s[0], s[1]) {
      NonTailsCountCodePoints(s[3..]);
      NonTailsSkip(s, 3);
    } else {
      NonTailsCountCodePoints(s[4..]);
      NonTailsSkip(s, 4);
    }
  }

  /** A first byte and `n - 1` continuation bytes count once. */
  lemma {:induction false} NonTailsSkip(s: seq<byte>, n: nat)
    requires 1 <= n <= |s| && s[0] / 0x40 != 2 && forall k :: 1 <= k < n ==> IsTail(s[k])
    ensures NonTails(s) == 1 + NonTails(s[n..])
  {
    if n > 1 {
      NonTailsSkip(s, n - 1);
      assert s[n - 1..][1..] == s[n..];
      assert IsTail(s[n - 1..][0]);
    }
  }

  lemma NextCount(n: nat)
    ensures (n % 0x1_0000_0000 + 1) % 0x1_0000_0000 == (n + 1) % 0x1_0000_0000
  {
  }

  /** The length of a text-input state's text, a C string, in its 32-bit counter. */
  method CountCodePoints(text: seq<byte>) returns (count: uint32)
    requires 0 !in text
    ensures FromUtf8(text).Some? ==> count == |FromUtf8(text).value| % 0x1_0000_0000
  {
    count := 0;
    ghost var n: nat := 0;
    var cursor := 0;
    while cursor < |text|
      invariant cursor <= |text| && count == n % 0x1_0000_0000
      invariant n + NonTails(text[cursor..]) == NonTails(text)
    {
      assert text[cursor..][1..] == text[cursor + 1..];
      if text[cursor] / 0x40 != 2 {
        NextCount(n);
        count := (count + 1) % 0x1_0000_0000;
        n := n + 1;
      }
      cursor := cursor + 1;
    }
    if FromUtf8(text).Some? {
      NonTailsCountCodePoints(text);
    }
  }

  /** Converting and then counting gives the number of code points of the UTF-16 text. */
  lemma ConvertedCounts(units: seq<unit>)
    requires FromUtf16(units).Some?
    ensures NonTails(Converted(units, 0)) == |FromUtf16(units).value|
  {
    ConvertedMeansTheSame(units, 0);
    assert units[0..] == units;
    NonTailsCountCodePoints(Converted(units, 0));
  }
}
