/**
 * `decodeURIComponent` as ECMA-262 defines it (the abstract operation Decode
 * with an empty set of preserved escapes): every `%HH` escape is read as an
 * octet, octets of a multi-octet UTF-8 sequence are gathered and decoded,
 * and anything malformed throws a URIError, modelled here as `None`.
 * Percent-encoding itself is that of section 2.1 of RFC 3986.
 *
 * `Encode` models `encodeURIComponent` and is the partner of `Decode`:
 * decoding an encoded string gives the string back.
 */
module PercentEncoding {
  import opened Wrappers

  predicate IsHexDigit(c: char) {
    '0' <= c <= '9' || 'a' <= c <= 'f' || 'A' <= c <= 'F'
  }

  function HexValue(c: char): (v: nat)
    requires IsHexDigit(c)
    ensures v < 16
  {
    if '0' <= c <= '9' then c as int - '0' as int
    else if 'a' <= c <= 'f' then c as int - 'a' as int + 10
    else c as int - 'A' as int + 10
  }

  /** ParseHexOctet: two hexadecimal digits, in either case, as one octet. */
  function HexOctet(hi: char, lo: char): (r: Option<nat>)
    ensures r.Some? <==> IsHexDigit(hi) && IsHexDigit(lo)
    ensures r.Some? ==> r.value < 256
  {
    if IsHexDigit(hi) && IsHexDigit(lo) then Some(16 * HexValue(hi) + HexValue(lo)) else None
  }

  /** The number of leading one bits of an octet: 0 for ASCII, 1 for a
      continuation octet, 2 to 4 for the lead octet of a multi-octet sequence. */
  function LeadingOnes(b: nat): nat
    requires b < 256
  {
    if b < 0x80 then 0
    else if b < 0xC0 then 1
    else if b < 0xE0 then 2
    else if b < 0xF0 then 3
    else if b < 0xF8 then 4
    else if b < 0xFC then 5
    else if b < 0xFE then 6
    else if b < 0xFF then 7
    else 8
  }

  predicate IsContinuation(b: nat) {
    0x80 <= b < 0xC0
  }

  predicate AreOctets(octets: seq<nat>) {
    forall k :: 0 <= k < |octets| ==> octets[k] < 256
  }

  /** The smallest code point that needs `n` octets; anything below it is an overlong form. */
  function MinCodePoint(n: nat): nat {
    if n == 2 then 0x80 else if n == 3 then 0x800 else 0x10000
  }

  /** The code point spelled by the payload bits of a 2- to 4-octet sequence. */
  function Utf8CodePoint(octets: seq<nat>): int
    requires 2 <= |octets| <= 4
  {
    if |octets| == 2 then
      (octets[0] as int - 0xC0) * 64 + (octets[1] as int - 0x80)
    else if |octets| == 3 then
      (octets[0] as int - 0xE0) * 4096 + (octets[1] as int - 0x80) * 64 + (octets[2] as int - 0x80)
    else
      (octets[0] as int - 0xF0) * 262144 + (octets[1] as int - 0x80) * 4096
        + (octets[2] as int - 0x80) * 64 + (octets[3] as int - 0x80)
  }

  /** The character a multi-octet UTF-8 sequence encodes, or `None` when the
      octets are not the valid UTF-8 encoding of a Unicode scalar value
      (bad continuation, overlong form, surrogate, beyond U+10FFFF). */
  function DecodeUtf8(octets: seq<nat>): (r: Option<char>)
    requires 2 <= |octets| <= 4 && AreOctets(octets)
    ensures r.Some? ==> MinCodePoint(|octets|) <= r.value as int
  {
    if LeadingOnes(octets[0]) == |octets| && forall k :: 1 <= k < |octets| ==> IsContinuation(octets[k]) then
      var v := Utf8CodePoint(octets);
      if MinCodePoint(|octets|) <= v <= 0x10FFFF && !(0xD800 <= v <= 0xDFFF) then Some(v as char) else None
    else None
  }

  /** `n` consecutive `%HH` escapes at the start of `s`, as octets. */
  function ParseOctets(s: string, n: nat): (r: Option<seq<nat>>)
    ensures r.Some? ==> |r.value| == n && 3 * n <= |s| && AreOctets(r.value)
    decreases n
  {
    if n == 0 then Some([])
    else if |s| < 3 || s[0] != '%' then None
    else
      match HexOctet(s[1], s[2])
      case None => None
      case Some(b) =>
        match ParseOctets(s[3..], n - 1)
        case None => None
        case Some(bs) => Some([b] + bs)
  }

  /** The escape at the head of `s`: the character it decodes to and the
      number of input characters it spans (3 per octet). */
  function DecodeEscape(s: string): (r: Option<(char, nat)>)
    requires |s| > 0 && s[0] == '%'
    ensures r.Some? ==> 3 <= r.value.1 <= |s|
  {
    match ParseOctets(s, 1)
    case None => None
    case Some(first) =>
      var n := LeadingOnes(first[0]);
      if n == 0 then Some((first[0] as char, 3))
      else if n == 1 || n > 4 then None
      else
        match ParseOctets(s, n)
        case None => None
        case Some(octets) =>
          match DecodeUtf8(octets)
          case None => None
          case Some(c) => Some((c, 3 * n))
  }

  /** `decodeURIComponent(s)`; `None` stands for the URIError it throws. */
  function Decode(s: string): (r: Option<string>)
    ensures r.Some? ==> |r.value| <= |s|
    decreases |s|
  {
    if s == [] then Some([])
    else if s[0] != '%' then Prepend([s[0]], Decode(s[1..]))
    else
      match DecodeEscape(s)
      case None => None
      case Some(e) => Prepend([e.0], Decode(s[e.1..]))
  }

  /** Text put in front of a decoding that succeeded; an error stays an error. */
  function Prepend(x: string, r: Option<string>): Option<string> {
    match r
    case None => None
    case Some(t) => Some(x + t)
  }

  /** Text without a `%` is not changed by decoding. */
  lemma {:induction false} DecodeWithoutEscapes(s: string)
    requires '%' !in s
    ensures Decode(s) == Some(s)
    decreases |s|
  {
    if s != [] {
      assert s[0] != '%' && '%' !in s[1..];
      DecodeWithoutEscapes(s[1..]);
      assert [s[0]] + s[1..] == s;
    }
  }

  // ---- encodeURIComponent, the partner of Decode ----

  /** The characters `encodeURIComponent` leaves as they are. */
  predicate IsUnreserved(c: char) {
    'A' <= c <= 'Z' || 'a' <= c <= 'z' || '0' <= c <= '9' || c in "-_.!~*'()"
  }

  const UpperHexDigits := "0123456789ABCDEF"

  /** The UTF-8 encoding of a scalar value. */
  function Utf8Octets(c: char): (octets: seq<nat>)
    ensures 1 <= |octets| <= 4 && AreOctets(octets)
  {
    var v := c as int;
    if v < 0x80 then [v]
    else if v < 0x800 then [0xC0 + v / 64, 0x80 + v % 64]
    else if v < 0x10000 then [0xE0 + v / 4096, 0x80 + v / 64 % 64, 0x80 + v % 64]
    else [0xF0 + v / 262144, 0x80 + v / 4096 % 64, 0x80 + v / 64 % 64, 0x80 + v % 64]
  }

  function EncodeOctet(b: nat): string
    requires b < 256
  {
    ['%', UpperHexDigits[b / 16], UpperHexDigits[b % 16]]
  }

  function EncodeOctets(octets: seq<nat>): (r: string)
    requires AreOctets(octets)
    ensures |r| == 3 * |octets|
    decreases |octets|
  {
    if octets == [] then [] else EncodeOctet(octets[0]) + EncodeOctets(octets[1..])
  }

  function EncodeChar(c: char): string {
    if IsUnreserved(c) then [c] else EncodeOctets(Utf8Octets(c))
  }

  /** `encodeURIComponent(s)`. */
  function Encode(s: string): string
    decreases |s|
  {
    if s == [] then [] else EncodeChar(s[0]) + Encode(s[1..])
  }

  /** Unreserved characters pass through unchanged. */
  lemma {:induction false} EncodeUnreserved(s: string)
    requires forall i :: 0 <= i < |s| ==> IsUnreserved(s[i])
    ensures Encode(s) == s
    decreases |s|
  {
    if s != [] {
      EncodeUnreserved(s[1..]);
    }
  }

  lemma HexDigitRoundTrip(d: nat)
    requires d < 16
    ensures IsHexDigit(UpperHexDigits[d]) && HexValue(UpperHexDigits[d]) == d
  {
  }

  lemma HexOctetRoundTrip(b: nat)
    requires b < 256
    ensures HexOctet(UpperHexDigits[b / 16], UpperHexDigits[b % 16]) == Some(b)
  {
    HexDigitRoundTrip(b / 16);
    HexDigitRoundTrip(b % 16);
  }

  lemma {:induction false} ParseEncodedOctets(octets: seq<nat>, rest: string)
    requires AreOctets(octets)
    ensures ParseOctets(EncodeOctets(octets) + rest, |octets|) == Some(octets)
    decreases |octets|
  {
    if octets != [] {
      var b := octets[0];
      var tail := EncodeOctets(octets[1..]) + rest;
      var s := EncodeOctets(octets) + rest;
      assert s == EncodeOctet(b) + tail;
      assert s[0] == '%' && s[1] == UpperHexDigits[b / 16] && s[2] == UpperHexDigits[b % 16];
      HexOctetRoundTrip(b);
      assert s[3..] == tail;
      ParseEncodedOctets(octets[1..], rest);
      assert ParseOctets(s, |octets|) == Some([b] + octets[1..]);
      assert octets == [b] + octets[1..];
    }
  }

  /** The UTF-8 octets of a character decode back to it. */
  lemma Utf8RoundTrip(c: char)
    ensures var o := Utf8Octets(c);
      && (|o| == 1 ==> LeadingOnes(o[0]) == 0 && o[0] as char == c)
      && (|o| >= 2 ==> LeadingOnes(o[0]) == |o| && DecodeUtf8(o) == Some(c))
  {
    var v := c as int;
    if v < 0x80 {
    } else if v < 0x800 {
      TwoOctetRoundTrip(c);
    } else if v < 0x10000 {
      ThreeOctetRoundTrip(c);
    } else {
      FourOctetRoundTrip(c);
    }
  }

  lemma TwoOctetRoundTrip(c: char)
    requires 0x80 <= c as int < 0x800
    ensures Utf8CodePoint(Utf8Octets(c)) == c as int
  {
  }

  lemma ThreeOctetRoundTrip(c: char)
    requires 0x800 <= c as int < 0x10000
    ensures Utf8CodePoint(Utf8Octets(c)) == c as int
  {
    var v := c as int;
    assert v / 64 == v / 4096 * 64 + v / 64 % 64;
  }

  lemma FourOctetRoundTrip(c: char)
    requires 0x10000 <= c as int
    ensures Utf8CodePoint(Utf8Octets(c)) == c as int
  {
    var v := c as int;
    assert v / 4096 == v / 262144 * 64 + v / 4096 % 64;
    assert v / 64 == v / 4096 * 64 + v / 64 % 64;
  }

  /** An encoded character at the head of a string is decoded to that character. */
  lemma DecodeEscapeEncoded(c: char, rest: string)
    requires !IsUnreserved(c)
    ensures var s := EncodeChar(c) + rest;
      |s| > 0 && s[0] == '%' && DecodeEscape(s) == Some((c, |EncodeChar(c)|))
  {
    var o := Utf8Octets(c);
    var s := EncodeChar(c) + rest;
    var later := EncodeOctets(o[1..]) + rest;
    assert EncodeChar(c) == EncodeOctets(o);
    assert s == EncodeOctets([o[0]]) + later by {
      assert EncodeOctets(o) == EncodeOctet(o[0]) + EncodeOctets(o[1..]);
      assert EncodeOctets([o[0]]) == EncodeOctet(o[0]);
    }
    ParseEncodedOctets([o[0]], later);
    assert ParseOctets(s, 1) == Some([o[0]]);
    ParseEncodedOctets(o, rest);
    Utf8RoundTrip(c);
  }

  /** Decoding an encoded character at the head of a string yields that character. */
  lemma DecodeEncodedChar(c: char, tail: string)
    ensures Decode(EncodeChar(c) + tail) == Prepend([c], Decode(tail))
  {
    var s := EncodeChar(c) + tail;
    if IsUnreserved(c) {
      assert s[0] == c && s[1..] == tail;
    } else {
      DecodeEscapeEncoded(c, tail);
      assert s[|EncodeChar(c)|..] == tail;
    }
  }

  lemma PrependTwice(a: string, b: string, r: Option<string>)
    ensures Prepend(a, Prepend(b, r)) == Prepend(a + b, r)
  {
    match r
    case None =>
    case Some(t) => assert a + (b + t) == (a + b) + t;
  }

  /** Decoding walks over an encoded prefix character by character. */
  lemma {:induction false} DecodeEncodedPrefix(x: string, rest: string)
    ensures Decode(Encode(x) + rest) == Prepend(x, Decode(rest))
    decreases |x|
  {
    if x == [] {
      assert Encode(x) + rest == rest;
      match Decode(rest)
      case None =>
      case Some(r) => assert x + r == r;
    } else {
      var c := x[0];
      var tail := Encode(x[1..]) + rest;
      assert Encode(x) + rest == EncodeChar(c) + tail;
      DecodeEncodedChar(c, tail);
      DecodeEncodedPrefix(x[1..], rest);
      PrependTwice([c], x[1..], Decode(rest));
      assert [c] + x[1..] == x;
    }
  }

  /** `decodeURIComponent(encodeURIComponent(s)) == s`. */
  lemma DecodeEncode(s: string)
    ensures Decode(Encode(s)) == Some(s)
  {
    var e := Encode(s);
    DecodeEncodedPrefix(s, []);
    assert e + [] == e;
    assert s + [] == s;
  }

  /** Encoding never emits a `/`: an encoded path segment cannot be cut by a split on `/`. */
  lemma {:induction false} EncodeHasNoSlash(s: string)
    ensures '/' !in Encode(s)
    decreases |s|
  {
    if s != [] {
      EncodeCharHasNoSlash(s[0]);
      EncodeHasNoSlash(s[1..]);
    }
  }

  lemma EncodeCharHasNoSlash(c: char)
    ensures '/' !in EncodeChar(c)
  {
    if !IsUnreserved(c) {
      EncodeOctetsHaveNoSlash(Utf8Octets(c));
    }
  }

  lemma {:induction false} EncodeOctetsHaveNoSlash(octets: seq<nat>)
    requires AreOctets(octets)
    ensures '/' !in EncodeOctets(octets)
    decreases |octets|
  {
    if octets != [] {
      EncodeOctetsHaveNoSlash(octets[1..]);
      assert '/' !in UpperHexDigits;
    }
  }

  // ---- Escapes that throw URIError ----

  /** The octets of an escape are read from its own characters only. */
  lemma {:induction false} ParseOctetsPrefix(s: string, t: string, n: nat)
    requires ParseOctets(s, n).Some?
    ensures ParseOctets(s + t, n) == ParseOctets(s, n)
    decreases n
  {
    if n > 0 {
      assert (s + t)[3..] == s[3..] + t;
      ParseOctetsPrefix(s[3..], t, n - 1);
    }
  }

  lemma DecodeEscapePrefix(s: string, t: string)
    requires |s| > 0 && s[0] == '%' && DecodeEscape(s).Some?
    ensures DecodeEscape(s + t) == DecodeEscape(s)
  {
    ParseOctetsPrefix(s, t, 1);
    var n := LeadingOnes(ParseOctets(s, 1).value[0]);
    if 2 <= n <= 4 {
      ParseOctetsPrefix(s, t, n);
    }
  }

  /** Decoding goes left to right: after a prefix that decodes, the rest is
      decoded on its own, and it throws exactly when the rest throws. */
  lemma {:induction false} DecodeAppend(pre: string, t: string)
    requires Decode(pre).Some?
    ensures Decode(pre + t) == Prepend(Decode(pre).value, Decode(t))
    decreases |pre|
  {
    if pre == [] {
      assert pre + t == t;
      if Decode(t).Some? {
        assert [] + Decode(t).value == Decode(t).value;
      }
    } else if pre[0] != '%' {
      assert (pre + t)[1..] == pre[1..] + t;
      DecodeAppend(pre[1..], t);
      PrependTwice([pre[0]], Decode(pre[1..]).value, Decode(t));
    } else {
      var e := DecodeEscape(pre).value;
      DecodeEscapePrefix(pre, t);
      assert (pre + t)[e.1..] == pre[e.1..] + t;
      DecodeAppend(pre[e.1..], t);
      PrependTwice([e.0], Decode(pre[e.1..]).value, Decode(t));
    }
  }

  /** A `%` not followed by two hexadecimal digits throws a URIError,
      wherever it stands after text that decodes. */
  lemma MalformedEscapeRejected(pre: string, rest: string)
    requires Decode(pre).Some?
    requires |rest| < 2 || !IsHexDigit(rest[0]) || !IsHexDigit(rest[1])
    ensures Decode(pre + "%" + rest) == None
  {
    assert pre + "%" + rest == pre + ("%" + rest);
    DecodeAppend(pre, "%" + rest);
  }

  lemma TruncatedEscapeRejected()
    ensures Decode("%") == None && Decode("%2") == None && Decode("%zz") == None
  {
  }

  lemma StrayOctetRejected()
    ensures Decode("%80") == None && Decode("%FF") == None
  {
  }

  /** `%C0%AF` is an overlong encoding of "/". */
  lemma OverlongRejected()
    ensures Decode("%C0%AF") == None
  {
  }

  /** `%ED%A0%80` encodes the surrogate U+D800. */
  lemma SurrogateRejected()
    ensures Decode("%ED%A0%80") == None
  {
  }
}
