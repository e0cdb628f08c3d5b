/** Python's `urllib.parse.quote(s)` with its default `safe='/'`, and its
    inverse `unquote`. `quote` encodes the string as UTF-8 and replaces every
    byte that is not an unreserved character (section 2.3 of RFC 3986) or `/`
    by a percent-encoded triplet `%XY` with upper-case hexadecimal digits
    (section 2.1 of RFC 3986). */
module PercentEncoding {
  import opened Wrappers

  type byte = x: int | 0 <= x < 256

  /** ALPHA, DIGIT, `-`, `.`, `_` and `~`: section 2.3 of RFC 3986. */
  predicate IsUnreserved(c: char) {
    ('A' <= c <= 'Z') || ('a' <= c <= 'z') || ('0' <= c <= '9')
    || c == '-' || c == '.' || c == '_' || c == '~'
  }

  /** The characters `quote` copies unchanged with its default `safe='/'`. */
  predicate IsSafe(c: char) {
    IsUnreserved(c) || c == '/'
  }

  predicate IsHexUpper(c: char) {
    ('0' <= c <= '9') || ('A' <= c <= 'F')
  }

  predicate IsHex(c: char) {
    IsHexUpper(c) || ('a' <= c <= 'f')
  }

  function HexDigit(d: nat): (c: char)
    requires d < 16
    ensures IsHexUpper(c)
  {
    if d < 10 then ('0' as int + d) as char else ('A' as int + d - 10) as char
  }

  function HexValue(c: char): (d: nat)
    requires IsHex(c)
    ensures d < 16
  {
    if '0' <= c <= '9' then c as int - '0' as int
    else if 'A' <= c <= 'F' then c as int - 'A' as int + 10
    else c as int - 'a' as int + 10
  }

  lemma HexValueDigit(d: nat)
    requires d < 16
    ensures HexValue(HexDigit(d)) == d
  {
  }

  // ---------------------------------------------------------------- UTF-8

  predicate IsContinuation(b: byte) {
    0x80 <= b < 0xC0
  }

  /** The UTF-8 encoding of one Unicode scalar value. */
  function Utf8(c: char): (bs: seq<byte>)
    ensures 1 <= |bs| <= 4
    ensures |bs| == 1 <==> c as int < 0x80
  {
    var n := c as int;
    if n < 0x80 then [n]
    else if n < 0x800 then [0xC0 + n / 64, 0x80 + n % 64]
    else if n < 0x10000 then [0xE0 + n / 4096, 0x80 + (n / 64) % 64, 0x80 + n % 64]
    else [0xF0 + n / 262144, 0x80 + (n / 4096) % 64, 0x80 + (n / 64) % 64, 0x80 + n % 64]
  }

  function Utf8Encode(s: string): seq<byte> {
    if s == [] then [] else Utf8(s[0]) + Utf8Encode(s[1..])
  }

  predicate IsScalarValue(n: int) {
    (0 <= n < 0xD800) || (0xE000 <= n < 0x110000)
  }

  function Prepend(n: int, rest: Option<string>): Option<string> {
    if !IsScalarValue(n) then None
    else
      match rest
      case None => None
      case Some(t) => Some([n as char] + t)
  }

  /** Strict UTF-8 decoding: `None` on a truncated sequence, a stray
      continuation byte, an overlong form, a surrogate or a value past
      U+10FFFF. */
  function Utf8Decode(bs: seq<byte>): Option<string>
    decreases |bs|
  {
    if bs == [] then Some([])
    else
      var b0: int := bs[0];
      var b1: int := if |bs| >= 2 then bs[1] else 0;
      var b2: int := if |bs| >= 3 then bs[2] else 0;
      var b3: int := if |bs| >= 4 then bs[3] else 0;
      if b0 < 0x80 then Prepend(b0, Utf8Decode(bs[1..]))
      else if 0xC2 <= b0 < 0xE0 && |bs| >= 2 && IsContinuation(bs[1]) then
        Prepend((b0 - 0xC0) * 64 + (b1 - 0x80), Utf8Decode(bs[2..]))
      else if 0xE0 <= b0 < 0xF0 && |bs| >= 3 && IsContinuation(bs[1]) && IsContinuation(bs[2]) then
        var n := (b0 - 0xE0) * 4096 + (b1 - 0x80) * 64 + (b2 - 0x80);
        if n < 0x800 then None else Prepend(n, Utf8Decode(bs[3..]))
      else if 0xF0 <= b0 < 0xF5 && |bs| >= 4 && IsContinuation(bs[1]) && IsContinuation(bs[2])
        && IsContinuation(bs[3]) then
        var n := (b0 - 0xF0) * 262144 + (b1 - 0x80) * 4096 + (b2 - 0x80) * 64 + (b3 - 0x80);
        if n < 0x10000 then None else Prepend(n, Utf8Decode(bs[4..]))
      else None
  }

  lemma Utf8DecodeTwo(c: char, rest: seq<byte>)
    requires 0x80 <= c as int < 0x800
    ensures Utf8Decode(Utf8(c) + rest) == Prepend(c as int, Utf8Decode(rest))
  {
  }

  lemma Utf8DecodeThree(c: char, rest: seq<byte>)
    requires 0x800 <= c as int < 0x10000
    ensures Utf8Decode(Utf8(c) + rest) == Prepend(c as int, Utf8Decode(rest))
  {
  }

  lemma Utf8DecodeFour(c: char, rest: seq<byte>)
    requires 0x10000 <= c as int
    ensures Utf8Decode(Utf8(c) + rest) == Prepend(c as int, Utf8Decode(rest))
  {
    var n := c as int;
    var q := n / 64;
    var r := n / 4096;
    var top, hi, mid, lo := n / 262144, r % 64, q % 64, n % 64;
    assert q * 64 + lo == n;
    assert q / 64 == r;
    assert r / 64 == top;
    assert top * 262144 + hi * 4096 + mid * 64 + lo == n;
    assert top < 5;
    var bs := Utf8(c) + rest;
    assert bs[0] == 0xF0 + top && bs[1] == 0x80 + hi && bs[2] == 0x80 + mid && bs[3] == 0x80 + lo;
    assert bs[4..] == rest;
  }

  /** Decoding the encoding of one character gives that character back,
      followed by whatever the rest decodes to. */
  lemma Utf8DecodeChar(c: char, rest: seq<byte>)
    ensures Utf8Decode(Utf8(c) + rest) == Prepend(c as int, Utf8Decode(rest))
  {
    var n := c as int;
    if n < 0x80 {
      assert (Utf8(c) + rest)[1..] == rest;
    } else if n < 0x800 {
      Utf8DecodeTwo(c, rest);
    } else if n < 0x10000 {
      Utf8DecodeThree(c, rest);
    } else {
      Utf8DecodeFour(c, rest);
    }
  }

  /** UTF-8 decoding inverts UTF-8 encoding. */
  lemma {:induction false} Utf8RoundTrip(s: string)
    ensures Utf8Decode(Utf8Encode(s)) == Some(s)
  {
    if s != [] {
      Utf8DecodeChar(s[0], Utf8Encode(s[1..]));
      Utf8RoundTrip(s[1..]);
      assert [s[0]] + s[1..] == s;
    }
  }

  // ----------------------------------------------------- percent-encoding

  /** One byte as `%XY`. */
  function Triplet(b: byte): (t: string)
    ensures |t| == 3 && t[0] == '%' && IsHexUpper(t[1]) && IsHexUpper(t[2])
  {
    ['%', HexDigit(b / 16), HexDigit(b % 16)]
  }

  /** Each byte as a triplet `%XY`. */
  function Escape(bs: seq<byte>): (t: string)
    ensures |t| == 3 * |bs|
  {
    if bs == [] then [] else Triplet(bs[0]) + Escape(bs[1..])
  }

  function QuoteChar(c: char): string {
    if IsSafe(c) then [c] else Escape(Utf8(c))
  }

  /** `urllib.parse.quote(s)`. */
  function Quote(s: string): string {
    if s == [] then [] else QuoteChar(s[0]) + Quote(s[1..])
  }

  /** The bytes a percent-encoded string stands for: a `%` followed by two
      hexadecimal digits is one byte, any other character its UTF-8 bytes
      (a `%` not followed by two hexadecimal digits is kept as it is). */
  function PercentDecode(t: string): seq<byte> {
    if t == [] then []
    else if t[0] == '%' && |t| >= 3 && IsHex(t[1]) && IsHex(t[2]) then
      [16 * HexValue(t[1]) + HexValue(t[2])] + PercentDecode(t[3..])
    else Utf8(t[0]) + PercentDecode(t[1..])
  }

  /** `urllib.parse.unquote(t)`; `None` where the decoded bytes are not UTF-8. */
  function Unquote(t: string): Option<string> {
    Utf8Decode(PercentDecode(t))
  }

  /** The shape section 2.1 of RFC 3986 allows in an encoded component as
      `quote` produces it: safe characters and `%XY` triplets. */
  predicate Encoded(t: string) {
    if t == [] then true
    else if IsSafe(t[0]) then Encoded(t[1..])
    else |t| >= 3 && t[0] == '%' && IsHexUpper(t[1]) && IsHexUpper(t[2]) && Encoded(t[3..])
  }

  lemma EncodedSafeCons(c: char, t: string)
    requires IsSafe(c) && Encoded(t)
    ensures Encoded([c] + t)
  {
  }

  lemma EncodedTripletCons(x: string, t: string)
    requires |x| == 3 && x[0] == '%' && IsHexUpper(x[1]) && IsHexUpper(x[2]) && Encoded(t)
    ensures Encoded(x + t)
  {
  }

  /** Escaped bytes in front of an encoded string keep it encoded. */
  lemma {:induction false} EscapeThenEncoded(bs: seq<byte>, t: string)
    requires Encoded(t)
    ensures Encoded(Escape(bs) + t)
  {
    if bs == [] {
      assert Escape(bs) + t == t;
    } else {
      EscapeThenEncoded(bs[1..], t);
      assert Escape(bs) + t == Triplet(bs[0]) + (Escape(bs[1..]) + t);
      EncodedTripletCons(Triplet(bs[0]), Escape(bs[1..]) + t);
    }
  }

  /** `quote` only ever produces safe characters and `%XY` triplets. */
  lemma {:induction false} QuoteEncoded(s: string)
    ensures Encoded(Quote(s))
  {
    if s != [] {
      QuoteEncoded(s[1..]);
      if IsSafe(s[0]) {
        EncodedSafeCons(s[0], Quote(s[1..]));
      } else {
        EscapeThenEncoded(Utf8(s[0]), Quote(s[1..]));
      }
    }
  }

  /** A string of safe characters is left as it is. */
  lemma {:induction false} QuoteSafeIdentity(s: string)
    requires forall k :: 0 <= k < |s| ==> IsSafe(s[k])
    ensures Quote(s) == s
  {
    if s != [] {
      QuoteSafeIdentity(s[1..]);
    }
  }

  /** One triplet decodes to the byte it encodes. */
  lemma PercentDecodeTriplet(b: byte, rest: string)
    ensures PercentDecode(Triplet(b) + rest) == [b] + PercentDecode(rest)
  {
  }

  lemma {:induction false} PercentDecodeEscape(bs: seq<byte>, rest: string)
    ensures PercentDecode(Escape(bs) + rest) == bs + PercentDecode(rest)
  {
    if bs == [] {
      assert Escape(bs) + rest == rest;
    } else {
      var tail := Escape(bs[1..]) + rest;
      assert Escape(bs) + rest == Triplet(bs[0]) + tail;
      PercentDecodeTriplet(bs[0], tail);
      PercentDecodeEscape(bs[1..], rest);
      assert bs + PercentDecode(rest) == [bs[0]] + (bs[1..] + PercentDecode(rest));
    }
  }

  lemma {:induction false} PercentDecodeQuote(s: string)
    ensures PercentDecode(Quote(s)) == Utf8Encode(s)
  {
    if s != [] {
      var rest := Quote(s[1..]);
      if IsSafe(s[0]) {
        assert ([s[0]] + rest)[1..] == rest;
      } else {
        PercentDecodeEscape(Utf8(s[0]), rest);
      }
      PercentDecodeQuote(s[1..]);
    }
  }

  /** `unquote(quote(s)) == s`. */
  lemma UnquoteQuote(s: string)
    ensures Unquote(Quote(s)) == Some(s)
  {
    PercentDecodeQuote(s);
    Utf8RoundTrip(s);
  }
}
