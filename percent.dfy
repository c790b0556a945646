/**
 * Percent-encoding as section 2.1 of RFC 3986 defines it, in the two forms
 * of `urllib.parse` the downloader is concerned with: `unquote`, which
 * decodes a Content-Disposition file name, and `quote`, its inverse on
 * well-formed text.
 *
 * `unquote(s)` returns `s` when it holds no `%`; otherwise it cuts `s` into
 * runs of ASCII and non-ASCII characters, keeps the non-ASCII runs, and
 * replaces each ASCII run by the UTF-8 decoding, with U+FFFD for ill-formed
 * input, of its octets after every `%XX` with two hex digits became one
 * octet. A `%` without two hex digits after it stays a `%`, and `+` is not
 * touched.
 */
module Percent {
  import opened Bytes

  predicate IsAscii(c: char) {
    c as int < 0x80
  }

  predicate IsHexDigit(c: char) {
    '0' <= c <= '9' || 'a' <= c <= 'f' || 'A' <= c <= 'F'
  }

  function HexValue(c: char): (v: nat)
    requires IsHexDigit(c)
    ensures v < 16
  {
    if '0' <= c <= '9' then c as int - '0' as int
    else if 'a' <= c <= 'f' then c as int - 'a' as int + 10
    else c as int - 'A' as int + 10
  }

  /** The upper-case hex digit that `quote` writes for a value below 16. */
  function HexDigit(v: nat): (c: char)
    requires v < 16
    ensures IsHexDigit(c) && HexValue(c) == v
  {
    if v < 10 then (v + '0' as int) as char else (v - 10 + 'A' as int) as char
  }

  const Replacement: char := 0xFFFD as char

  predicate IsContinuation(b: byte) {
    0x80 <= b <= 0xBF
  }

  /** The UTF-8 encoding of one Unicode scalar value (`str.encode('utf-8')`). */
  function Utf8Encode(c: char): (bs: seq<byte>)
    ensures 1 <= |bs| <= 4
    ensures (bs[0] < 0x80) == IsAscii(c)
    ensures IsAscii(c) ==> bs == [c as int]
  {
    var cp := c as int;
    if cp < 0x80 then [cp]
    else if cp < 0x800 then [0xC0 + cp / 64, 0x80 + cp % 64]
    else if cp < 0x10000 then [0xE0 + cp / 4096, 0x80 + (cp / 64) % 64, 0x80 + cp % 64]
    else [0xF0 + cp / 262144, 0x80 + (cp / 4096) % 64, 0x80 + (cp / 64) % 64, 0x80 + cp % 64]
  }

  function Utf8EncodeString(s: string): seq<byte>
    decreases |s|
  {
    if s == [] then [] else Utf8Encode(s[0]) + Utf8EncodeString(s[1..])
  }

  /** The range the second octet of a sequence led by `b0` must fall in. */
  function SecondLow(b0: byte): byte {
    if b0 == 0xE0 then 0xA0 else if b0 == 0xF0 then 0x90 else 0x80
  }

  function SecondHigh(b0: byte): byte {
    if b0 == 0xED then 0x9F else if b0 == 0xF4 then 0x8F else 0xBF
  }

  /**
   * `bytes.decode('utf-8', 'replace')`: every well-formed sequence becomes
   * its scalar value; every maximal prefix of a well-formed sequence that
   * cannot be completed, and every octet that cannot start one, becomes one
   * U+FFFD, and decoding resumes at the first octet not consumed.
   */
  function Utf8Decode(bs: seq<byte>): string
    decreases |bs|
  {
    if bs == [] then []
    else
      var b0 := bs[0];
      if b0 < 0x80 then
        [b0 as char] + Utf8Decode(bs[1..])
      else if 0xC2 <= b0 <= 0xDF then
        if |bs| >= 2 && IsContinuation(bs[1]) then
          [((b0 as int - 0xC0) * 64 + (bs[1] as int - 0x80)) as char] + Utf8Decode(bs[2..])
        else
          [Replacement] + Utf8Decode(bs[1..])
      else if 0xE0 <= b0 <= 0xEF then
        if !(|bs| >= 2 && SecondLow(b0) <= bs[1] <= SecondHigh(b0)) then
          [Replacement] + Utf8Decode(bs[1..])
        else if !(|bs| >= 3 && IsContinuation(bs[2])) then
          [Replacement] + Utf8Decode(bs[2..])
        else
          var cp := (b0 as int - 0xE0) * 4096 + (bs[1] as int - 0x80) * 64 + (bs[2] as int - 0x80);
          [cp as char] + Utf8Decode(bs[3..])
      else if 0xF0 <= b0 <= 0xF4 then
        if !(|bs| >= 2 && SecondLow(b0) <= bs[1] <= SecondHigh(b0)) then
          [Replacement] + Utf8Decode(bs[1..])
        else if !(|bs| >= 3 && IsContinuation(bs[2])) then
          [Replacement] + Utf8Decode(bs[2..])
        else if !(|bs| >= 4 && IsContinuation(bs[3])) then
          [Replacement] + Utf8Decode(bs[3..])
        else
          var cp := (b0 as int - 0xF0) * 262144 + (bs[1] as int - 0x80) * 4096
            + (bs[2] as int - 0x80) * 64 + (bs[3] as int - 0x80);
          [cp as char] + Utf8Decode(bs[4..])
      else
        [Replacement] + Utf8Decode(bs[1..])
  }

  /** `unquote_to_bytes`: every `%XX` with two hex digits becomes one octet; all else is encoded as UTF-8. */
  function PercentOctets(s: string): seq<byte>
    decreases |s|
  {
    if s == [] then []
    else if s[0] == '%' && |s| >= 3 && IsHexDigit(s[1]) && IsHexDigit(s[2]) then
      [HexValue(s[1]) * 16 + HexValue(s[2])] + PercentOctets(s[3..])
    else
      Utf8Encode(s[0]) + PercentOctets(s[1..])
  }

  /** The length of the run of ASCII characters at the front of `s`. */
  function AsciiRun(s: string): (n: nat)
    ensures n <= |s|
    ensures forall k :: 0 <= k < n ==> IsAscii(s[k])
    ensures n == |s| || !IsAscii(s[n])
    decreases |s|
  {
    if s == [] || !IsAscii(s[0]) then 0 else 1 + AsciiRun(s[1..])
  }

  /** The slow path of `unquote`: non-ASCII characters are kept, ASCII runs are decoded. */
  function UnquoteRuns(s: string): string
    decreases |s|
  {
    if s == [] then []
    else if !IsAscii(s[0]) then [s[0]] + UnquoteRuns(s[1..])
    else
      var n := AsciiRun(s);
      Utf8Decode(PercentOctets(s[..n])) + UnquoteRuns(s[n..])
  }

  /** `urllib.parse.unquote(s)`. */
  function Unquote(s: string): string {
    if '%' !in s then s else UnquoteRuns(s)
  }

  /** The characters `quote` never escapes with its default `safe='/'`. */
  predicate IsQuoteSafe(c: char) {
    'a' <= c <= 'z' || 'A' <= c <= 'Z' || '0' <= c <= '9' || c in "_.-~/"
  }

  /** The characters `quote` writes: safe ones, `%` and hex digits; all of them ASCII. */
  predicate IsQuoteOutput(c: char) {
    IsQuoteSafe(c) || c == '%' || IsHexDigit(c)
  }

  function PercentEncodeOctets(bs: seq<byte>): (s: string)
    ensures |s| == 3 * |bs|
    decreases |bs|
  {
    if bs == [] then [] else EncodeOctet(bs[0]) + PercentEncodeOctets(bs[1..])
  }

  function QuoteChar(c: char): string {
    if IsQuoteSafe(c) then [c] else PercentEncodeOctets(Utf8Encode(c))
  }

  /** `urllib.parse.quote(s)`: safe characters are kept, every other one becomes `%XX` per UTF-8 octet. */
  function Quote(s: string): string
    decreases |s|
  {
    if s == [] then [] else QuoteChar(s[0]) + Quote(s[1..])
  }

  /** Decoding undoes the encoding of one character, whatever follows it. */
  lemma DecodeEncodeChar(c: char, rest: seq<byte>)
    ensures Utf8Decode(Utf8Encode(c) + rest) == [c] + Utf8Decode(rest)
  {
    var cp := c as int;
    if cp < 0x80 {
      assert (Utf8Encode(c) + rest)[1..] == rest;
    } else if cp < 0x800 {
      DecodeTwo(c, rest);
    } else if cp < 0x10000 {
      DecodeThree(c, rest);
    } else {
      DecodeFour(c, rest);
    }
  }

  lemma DecodeTwo(c: char, rest: seq<byte>)
    requires 0x80 <= c as int < 0x800
    ensures Utf8Decode(Utf8Encode(c) + rest) == [c] + Utf8Decode(rest)
  {
    var cp := c as int;
    var b0, b1 := 0xC0 + cp / 64, 0x80 + cp % 64;
    var bs := [b0, b1] + rest;
    assert Utf8Encode(c) + rest == bs;
    assert 0xC2 <= bs[0] <= 0xDF && IsContinuation(bs[1]);
    assert bs[2..] == rest;
    assert (b0 - 0xC0) * 64 + (b1 - 0x80) == cp;
  }

  lemma DecodeThree(c: char, rest: seq<byte>)
    requires 0x800 <= c as int < 0x10000
    ensures Utf8Decode(Utf8Encode(c) + rest) == [c] + Utf8Decode(rest)
  {
    var cp := c as int;
    var b0, b1, b2 := 0xE0 + cp / 4096, 0x80 + (cp / 64) % 64, 0x80 + cp % 64;
    var bs := [b0, b1, b2] + rest;
    assert Utf8Encode(c) + rest == bs;
    assert 0xE0 <= b0 <= 0xEF;
    assert SecondLow(b0) <= b1 <= SecondHigh(b0);
    assert IsContinuation(b2);
    assert bs[3..] == rest;
    assert (b0 - 0xE0) * 4096 + (b1 - 0x80) * 64 + (b2 - 0x80) == cp;
  }

  lemma DecodeFour(c: char, rest: seq<byte>)
    requires 0x10000 <= c as int
    ensures Utf8Decode(Utf8Encode(c) + rest) == [c] + Utf8Decode(rest)
  {
    var cp := c as int;
    var b0, b1, b2, b3 := 0xF0 + cp / 262144, 0x80 + (cp / 4096) % 64, 0x80 + (cp / 64) % 64, 0x80 + cp % 64;
    FourOctets(cp);
    assert Utf8Encode(c) + rest == [b0, b1, b2, b3] + rest;
    DecodeFourOctets(b0, b1, b2, b3, rest);
  }

  /** The four octets of a supplementary-plane code point, and the code point they spell. */
  lemma FourOctets(cp: int)
    requires 0x10000 <= cp < 0x110000
    ensures var b0, b1, b2, b3 := 0xF0 + cp / 262144, 0x80 + (cp / 4096) % 64, 0x80 + (cp / 64) % 64, 0x80 + cp % 64;
      && 0xF0 <= b0 <= 0xF4
      && (b0 == 0xF0 ==> 0x90 <= b1) && (b0 == 0xF4 ==> b1 <= 0x8F)
      && (b0 - 0xF0) * 262144 + (b1 - 0x80) * 4096 + (b2 - 0x80) * 64 + (b3 - 0x80) == cp
  {
    var q1 := cp / 64;
    var q2 := q1 / 64;
    var q3 := q2 / 64;
    assert cp == q1 * 64 + cp % 64;
    assert q1 == q2 * 64 + q1 % 64;
    assert q2 == q3 * 64 + q2 % 64;
    assert cp / 4096 == q2;
    assert cp / 262144 == q3;
  }

  lemma DecodeFourOctets(b0: byte, b1: byte, b2: byte, b3: byte, rest: seq<byte>)
    requires 0xF0 <= b0 <= 0xF4 && SecondLow(b0) <= b1 <= SecondHigh(b0)
    requires IsContinuation(b2) && IsContinuation(b3)
    requires (b0 - 0xF0) * 262144 + (b1 - 0x80) * 4096 + (b2 - 0x80) * 64 + (b3 - 0x80) < 0x110000
    ensures Utf8Decode([b0, b1, b2, b3] + rest) ==
      [((b0 - 0xF0) * 262144 + (b1 - 0x80) * 4096 + (b2 - 0x80) * 64 + (b3 - 0x80)) as char] + Utf8Decode(rest)
  {
    var bs := [b0, b1, b2, b3] + rest;
    assert bs[4..] == rest;
  }

  /** UTF-8 decoding is the inverse of UTF-8 encoding. */
  lemma {:induction false} DecodeEncode(s: string)
    ensures Utf8Decode(Utf8EncodeString(s)) == s
    decreases |s|
  {
    if s != [] {
      DecodeEncode(s[1..]);
      DecodeEncodeChar(s[0], Utf8EncodeString(s[1..]));
    }
  }

  /** Text without `%` goes through `unquote_to_bytes` as its plain UTF-8 encoding. */
  lemma {:induction false} OctetsWithoutPercent(s: string)
    requires '%' !in s
    ensures PercentOctets(s) == Utf8EncodeString(s)
    decreases |s|
  {
    if s != [] {
      assert s[0] != '%';
      OctetsWithoutPercent(s[1..]);
    }
  }

  /**
   * The shortcut of `unquote` for text without `%` agrees with its general
   * path, so `Unquote` is the general path on every input.
   */
  lemma {:induction false} UnquoteRunsWithoutPercent(s: string)
    requires '%' !in s
    ensures UnquoteRuns(s) == s
    decreases |s|
  {
    if s != [] {
      if !IsAscii(s[0]) {
        UnquoteRunsWithoutPercent(s[1..]);
      } else {
        var n := AsciiRun(s);
        assert s == s[..n] + s[n..];
        OctetsWithoutPercent(s[..n]);
        DecodeEncode(s[..n]);
        UnquoteRunsWithoutPercent(s[n..]);
      }
    }
  }

  lemma UnquoteIsGeneralPath(s: string)
    ensures Unquote(s) == UnquoteRuns(s)
  {
    if '%' !in s {
      UnquoteRunsWithoutPercent(s);
    }
  }

  /** Text that holds only ASCII is one run: `unquote` decodes all of it at once. */
  lemma UnquoteRunsOfAscii(s: string)
    requires forall k :: 0 <= k < |s| ==> IsAscii(s[k])
    ensures UnquoteRuns(s) == Utf8Decode(PercentOctets(s))
  {
    if s != [] {
      assert AsciiRun(s) == |s|;
      assert s[..|s|] == s;
    }
  }

  /** Each `%XX` that `quote` writes reads back as its octet. */
  lemma {:induction false} OctetsOfEncoded(bs: seq<byte>, rest: string)
    ensures PercentOctets(PercentEncodeOctets(bs) + rest) == bs + PercentOctets(rest)
    decreases |bs|
  {
    if bs == [] {
      assert PercentEncodeOctets(bs) + rest == rest;
    } else {
      var tail := PercentEncodeOctets(bs[1..]) + rest;
      calc {
        PercentOctets(PercentEncodeOctets(bs) + rest);
        { EncodedHead(bs, rest); }
        PercentOctets(EncodeOctet(bs[0]) + tail);
        { OctetOfTriple(bs[0], tail); }
        [bs[0]] + PercentOctets(tail);
        { OctetsOfEncoded(bs[1..], rest); }
        [bs[0]] + (bs[1..] + PercentOctets(rest));
        { assert [bs[0]] + bs[1..] == bs; }
        bs + PercentOctets(rest);
      }
    }
  }

  lemma EncodedHead(bs: seq<byte>, rest: string)
    requires bs != []
    ensures PercentEncodeOctets(bs) + rest == EncodeOctet(bs[0]) + (PercentEncodeOctets(bs[1..]) + rest)
  {
  }

  /** The `%XX` that stands for one octet. */
  function EncodeOctet(b: byte): (s: string)
    ensures |s| == 3 && s[0] == '%' && IsHexDigit(s[1]) && IsHexDigit(s[2])
  {
    ['%', HexDigit(b / 16), HexDigit(b % 16)]
  }

  lemma OctetOfTriple(b: byte, tail: string)
    ensures PercentOctets(EncodeOctet(b) + tail) == [b] + PercentOctets(tail)
  {
    var s := EncodeOctet(b) + tail;
    assert s[3..] == tail;
    assert HexValue(s[1]) == b / 16 && HexValue(s[2]) == b % 16;
  }

  lemma {:induction false} OctetsOfQuote(s: string)
    ensures PercentOctets(Quote(s)) == Utf8EncodeString(s)
    decreases |s|
  {
    if s != [] {
      OctetsOfQuote(s[1..]);
      var q := Quote(s);
      if IsQuoteSafe(s[0]) {
        assert q[1..] == Quote(s[1..]);
      } else {
        OctetsOfEncoded(Utf8Encode(s[0]), Quote(s[1..]));
      }
    }
  }

  lemma {:induction false} QuoteIsAscii(s: string)
    ensures forall k :: 0 <= k < |Quote(s)| ==> IsQuoteOutput(Quote(s)[k]) && IsAscii(Quote(s)[k])
    decreases |s|
  {
    if s != [] {
      QuoteIsAscii(s[1..]);
      EncodedIsAscii(Utf8Encode(s[0]));
      var q := Quote(s);
      var head := QuoteChar(s[0]);
      forall k | 0 <= k < |q|
        ensures IsQuoteOutput(q[k]) && IsAscii(q[k])
      {
        if k >= |head| {
          assert q[k] == Quote(s[1..])[k - |head|];
        }
      }
    }
  }

  lemma {:induction false} EncodedIsAscii(bs: seq<byte>)
    ensures forall k :: 0 <= k < |PercentEncodeOctets(bs)| ==>
      IsQuoteOutput(PercentEncodeOctets(bs)[k]) && IsAscii(PercentEncodeOctets(bs)[k])
    decreases |bs|
  {
    if bs != [] {
      EncodedIsAscii(bs[1..]);
      var e := PercentEncodeOctets(bs);
      forall k | 3 <= k < |e|
        ensures IsQuoteOutput(e[k]) && IsAscii(e[k])
      {
        assert e[k] == PercentEncodeOctets(bs[1..])[k - 3];
      }
    }
  }

  /** `unquote(quote(s)) == s` for every string. */
  lemma UnquoteQuote(s: string)
    ensures Unquote(Quote(s)) == s
  {
    var q := Quote(s);
    UnquoteIsGeneralPath(q);
    QuoteIsAscii(s);
    UnquoteRunsOfAscii(q);
    OctetsOfQuote(s);
    DecodeEncode(s);
  }
}
