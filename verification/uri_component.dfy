/** `encodeURIComponent` and `decodeURIComponent` over Unicode scalar values:
    the percent-encoding of RFC 3986 section 2.1 applied to the UTF-8 bytes
    (RFC 3629 section 3) of every character outside the unreserved set of
    ECMAScript's `encodeURIComponent`. The service's `safeDecodeURIComponent`
    is SafeDecode. */
module UriComponent {
  import opened JsText

  type Byte = b: int | 0 <= b < 256

  /** The characters `encodeURIComponent` leaves as they are: letters,
      digits and `-_.!~*'()`. */
  predicate IsUnreserved(c: char) {
    || ('A' <= c <= 'Z') || ('a' <= c <= 'z') || ('0' <= c <= '9')
    || c == '-' || c == '_' || c == '.' || c == '!' || c == '~'
    || c == '*' || c == '\'' || c == '(' || c == ')'
  }

  /** UTF-8 encoding of one scalar value. */
  function Utf8(c: char): (bytes: seq<Byte>)
    ensures 1 <= |bytes| <= 4
  {
    var n := c as int;
    if n < 0x80 then [n]
    else if n < 0x800 then [0xC0 + n / 0x40, 0x80 + n % 0x40]
    else if n < 0x1_0000 then [0xE0 + n / 0x1000, 0x80 + n / 0x40 % 0x40, 0x80 + n % 0x40]
    else [0xF0 + n / 0x4_0000, 0x80 + n / 0x1000 % 0x40, 0x80 + n / 0x40 % 0x40, 0x80 + n % 0x40]
  }

  predicate IsContinuation(b: Byte) {
    0x80 <= b < 0xC0
  }

  /** The scalar value a UTF-8 sequence of one to four bytes stands for, or
      None when RFC 3629 forbids the sequence: a bad lead or continuation
      byte, an overlong form, a surrogate, or a value beyond U+10FFFF. */
  function Utf8Decode(bytes: seq<Byte>): Option<char>
  {
    if |bytes| == 1 then
      if bytes[0] < 0x80 then Some(bytes[0] as char) else None
    else if |bytes| == 2 then
      if 0xC0 <= bytes[0] < 0xE0 && IsContinuation(bytes[1]) then
        var n := (bytes[0] as int - 0xC0) * 0x40 + (bytes[1] as int - 0x80);
        if 0x80 <= n then Some(n as char) else None
      else None
    else if |bytes| == 3 then
      if 0xE0 <= bytes[0] < 0xF0 && IsContinuation(bytes[1]) && IsContinuation(bytes[2]) then
        var n := (bytes[0] as int - 0xE0) * 0x1000 + (bytes[1] as int - 0x80) * 0x40 + (bytes[2] as int - 0x80);
        if 0x800 <= n && !(0xD800 <= n < 0xE000) then Some(n as char) else None
      else None
    else if |bytes| == 4 then
      if 0xF0 <= bytes[0] < 0xF8 && IsContinuation(bytes[1]) && IsContinuation(bytes[2]) && IsContinuation(bytes[3]) then
        var n := (bytes[0] as int - 0xF0) * 0x4_0000 + (bytes[1] as int - 0x80) * 0x1000 + (bytes[2] as int - 0x80) * 0x40 + (bytes[3] as int - 0x80);
        if 0x1_0000 <= n < 0x11_0000 then Some(n as char) else None
      else None
    else None
  }

  /** The upper-case hexadecimal digit `encodeURIComponent` writes for `d`. */
  function HexDigit(d: int): (c: char)
    requires 0 <= d < 16
    ensures IsUnreserved(c)
  {
    if d < 10 then ('0' as int + d) as char else ('A' as int + d - 10) as char
  }

  /** The value of a hexadecimal digit of either case. */
  function HexValue(c: char): (v: Option<int>)
    ensures v.Some? ==> 0 <= v.value < 16
  {
    if '0' <= c <= '9' then Some(c as int - '0' as int)
    else if 'A' <= c <= 'F' then Some(c as int - 'A' as int + 10)
    else if 'a' <= c <= 'f' then Some(c as int - 'a' as int + 10)
    else None
  }

  function PercentEncodeBytes(bytes: seq<Byte>): (s: string)
    ensures |s| == 3 * |bytes|
    ensures forall k :: 0 <= k < |s| ==> IsUnreserved(s[k]) || s[k] == '%'
  {
    if bytes == [] then []
    else ['%', HexDigit(bytes[0] / 16), HexDigit(bytes[0] % 16)] + PercentEncodeBytes(bytes[1..])
  }

  function EncodeChar(c: char): (s: string)
    ensures forall k :: 0 <= k < |s| ==> IsUnreserved(s[k]) || s[k] == '%'
  {
    if IsUnreserved(c) then [c] else PercentEncodeBytes(Utf8(c))
  }

  /** `encodeURIComponent(s)`. Only unreserved characters and `%` come out,
      so the result never holds `;`, `=`, `\`, whitespace or a line
      terminator. */
  function Encode(s: string): (r: string)
    ensures forall k :: 0 <= k < |r| ==> IsUnreserved(r[k]) || r[k] == '%'
  {
    if s == [] then [] else EncodeChar(s[0]) + Encode(s[1..])
  }

  /** The byte written `%XY` at the start of `s`, if `s` starts with one. */
  function PercentByteAt(s: string): (b: Option<Byte>)
    ensures b.Some? ==> |s| >= 3 && s[0] == '%'
  {
    if |s| < 3 || s[0] != '%' then None
    else
      match (HexValue(s[1]), HexValue(s[2]))
      case (Some(hi), Some(lo)) => Some(hi * 16 + lo)
      case _ => None
  }

  /** How many bytes a sequence starting with `b` has; 0 when `b` cannot
      start one (a continuation byte, or 0xF8 and above). */
  function SequenceLength(b: Byte): nat {
    if b < 0x80 then 1
    else if b < 0xC0 then 0
    else if b < 0xE0 then 2
    else if b < 0xF0 then 3
    else if b < 0xF8 then 4
    else 0
  }

  /** `count` escaped continuation bytes read from the start of `s`. */
  function ContinuationBytes(s: string, count: nat): (r: Option<seq<Byte>>)
    ensures r.Some? ==> |r.value| == count && |s| >= 3 * count
    decreases count
  {
    if count == 0 then Some([])
    else
      match PercentByteAt(s)
      case None => None
      case Some(b) =>
        if !IsContinuation(b) then None
        else
          match ContinuationBytes(s[3..], count - 1)
          case None => None
          case Some(rest) => Some([b] + rest)
  }

  /** The character written by the escapes at the start of `s` and how many
      characters of `s` they take; None where `decodeURIComponent` throws. */
  function DecodeEscape(s: string): (r: Option<(char, nat)>)
    ensures r.Some? ==> 3 <= r.value.1 <= |s|
  {
    match PercentByteAt(s)
    case None => None
    case Some(lead) =>
      var n := SequenceLength(lead);
      if n == 0 then None
      else
        match ContinuationBytes(s[3..], n - 1)
        case None => None
        case Some(rest) =>
          match Utf8Decode([lead] + rest)
          case None => None
          case Some(c) => Some((c, 3 * n))
  }

  /** `decodeURIComponent(s)`; None where it throws URIError. */
  function Decode(s: string): Option<string>
    decreases |s|
  {
    if s == [] then Some([])
    else if s[0] != '%' then
      match Decode(s[1..])
      case None => None
      case Some(t) => Some([s[0]] + t)
    else
      match DecodeEscape(s)
      case None => None
      case Some((c, k)) =>
        match Decode(s[k..])
        case None => None
        case Some(t) => Some([c] + t)
  }

  /** `safeDecodeURIComponent`: the decoded text, or the input unchanged
      when decoding throws. */
  function SafeDecode(s: string): (r: string)
    ensures Decode(s).None? ==> r == s
    ensures Decode(s).Some? ==> r == Decode(s).value
  {
    match Decode(s)
    case None => s
    case Some(t) => t
  }

  // ---------------------------------------------------------------------
  // Round trip: decodeURIComponent(encodeURIComponent(s)) == s

  lemma HexDigitValue(d: int)
    requires 0 <= d < 16
    ensures HexValue(HexDigit(d)) == Some(d)
  {
  }

  lemma {:induction false} Utf8RoundTrip(c: char)
    ensures Utf8Decode(Utf8(c)) == Some(c)
  {
    var n := c as int;
    if n < 0x80 {
    } else if n < 0x800 {
      Utf8TwoBytes(c);
    } else if n < 0x1_0000 {
      Utf8ThreeBytes(c);
    } else {
      Utf8FourBytes(c);
    }
  }

  lemma Utf8TwoBytes(c: char)
    requires 0x80 <= c as int < 0x800
    ensures Utf8Decode(Utf8(c)) == Some(c)
  {
    var n := c as int;
    var q, r := n / 0x40, n % 0x40;
    assert n == q * 0x40 + r;
    assert Utf8(c) == [0xC0 + q, 0x80 + r];
  }

  lemma Utf8ThreeBytes(c: char)
    requires 0x800 <= c as int < 0x1_0000
    ensures Utf8Decode(Utf8(c)) == Some(c)
  {
    var n := c as int;
    var q, r := n / 0x40, n % 0x40;
    var q2, r2 := q / 0x40, q % 0x40;
    assert n == q * 0x40 + r;
    assert q == q2 * 0x40 + r2;
    assert n / 0x1000 == q2;
    assert Utf8(c) == [0xE0 + q2, 0x80 + r2, 0x80 + r];
    assert (q2 * 0x1000 + r2 * 0x40 + r) == n;
  }

  lemma Utf8FourBytes(c: char)
    requires 0x1_0000 <= c as int
    ensures Utf8Decode(Utf8(c)) == Some(c)
  {
    var n := c as int;
    var q, r := n / 0x40, n % 0x40;
    var q2, r2 := q / 0x40, q % 0x40;
    var q3, r3 := q2 / 0x40, q2 % 0x40;
    assert n == q * 0x40 + r;
    assert q == q2 * 0x40 + r2;
    assert q2 == q3 * 0x40 + r3;
    assert n / 0x1000 == q2;
    assert n / 0x4_0000 == q3;
    assert Utf8(c) == [0xF0 + q3, 0x80 + r3, 0x80 + r2, 0x80 + r];
    assert (q3 * 0x4_0000 + r3 * 0x1000 + r2 * 0x40 + r) == n;
  }

  /** A lead byte from Utf8 announces exactly the length Utf8 produced, and
      the other bytes are continuation bytes. */
  lemma {:induction false} Utf8Shape(c: char)
    ensures SequenceLength(Utf8(c)[0]) == |Utf8(c)|
    ensures forall k :: 1 <= k < |Utf8(c)| ==> IsContinuation(Utf8(c)[k])
  {
  }

  lemma {:induction false} PercentByteRoundTrip(b: Byte, rest: string)
    ensures PercentByteAt(['%', HexDigit(b / 16), HexDigit(b % 16)] + rest) == Some(b)
  {
    HexDigitValue(b / 16);
    HexDigitValue(b % 16);
  }

  lemma {:induction false} ContinuationRoundTrip(bytes: seq<Byte>, rest: string)
    requires forall k :: 0 <= k < |bytes| ==> IsContinuation(bytes[k])
    ensures ContinuationBytes(PercentEncodeBytes(bytes) + rest, |bytes|) == Some(bytes)
    decreases |bytes|
  {
    if bytes != [] {
      var b := bytes[0];
      var head := ['%', HexDigit(b / 16), HexDigit(b % 16)];
      var s := PercentEncodeBytes(bytes) + rest;
      assert s == head + (PercentEncodeBytes(bytes[1..]) + rest);
      PercentByteRoundTrip(b, PercentEncodeBytes(bytes[1..]) + rest);
      assert s[3..] == PercentEncodeBytes(bytes[1..]) + rest;
      ContinuationRoundTrip(bytes[1..], rest);
      assert bytes == [b] + bytes[1..];
    }
  }

  lemma {:induction false} DecodeEscapeRoundTrip(c: char, rest: string)
    ensures DecodeEscape(PercentEncodeBytes(Utf8(c)) + rest) == Some((c, 3 * |Utf8(c)|))
  {
    var bytes := Utf8(c);
    var s := PercentEncodeBytes(bytes) + rest;
    var lead := bytes[0];
    assert s == ['%', HexDigit(lead / 16), HexDigit(lead % 16)] + (PercentEncodeBytes(bytes[1..]) + rest);
    PercentByteRoundTrip(lead, PercentEncodeBytes(bytes[1..]) + rest);
    Utf8Shape(c);
    assert s[3..] == PercentEncodeBytes(bytes[1..]) + rest;
    ContinuationRoundTrip(bytes[1..], rest);
    assert [lead] + bytes[1..] == bytes;
    Utf8RoundTrip(c);
  }

  lemma {:induction false} DecodeCharRoundTrip(c: char, rest: string)
    ensures Decode(EncodeChar(c) + rest) ==
      match Decode(rest) case None => None case Some(t) => Some([c] + t)
  {
    var s := EncodeChar(c) + rest;
    if IsUnreserved(c) {
      assert s[0] == c && s[1..] == rest;
    } else {
      var bytes := Utf8(c);
      DecodeEscapeRoundTrip(c, rest);
      assert s[0] == '%';
      assert s[3 * |bytes|..] == rest;
    }
  }

  /** Decoding undoes encoding, for every string. */
  lemma {:induction false} DecodeEncode(s: string)
    ensures Decode(Encode(s)) == Some(s)
    decreases |s|
  {
    if s != [] {
      DecodeCharRoundTrip(s[0], Encode(s[1..]));
      DecodeEncode(s[1..]);
      assert s == [s[0]] + s[1..];
    }
  }

  /** Hence `safeDecodeURIComponent` also undoes encoding, and two names
      never share an encoding. */
  lemma SafeDecodeEncode(s: string)
    ensures SafeDecode(Encode(s)) == s
  {
    DecodeEncode(s);
  }

  lemma EncodeInjective(s: string, t: string)
    ensures Encode(s) == Encode(t) <==> s == t
  {
    DecodeEncode(s);
    DecodeEncode(t);
  }

  /** Text without `%` decodes to itself. */
  lemma {:induction false} DecodePlain(s: string)
    requires '%' !in s
    ensures Decode(s) == Some(s)
    decreases |s|
  {
    if s != [] {
      DecodePlain(s[1..]);
      assert s == [s[0]] + s[1..];
    }
  }

  /** The characters the cookie syntax gives a meaning to never come out of
      the encoder. */
  lemma EncodedIsInert(s: string)
    ensures ';' !in Encode(s) && '=' !in Encode(s) && '\\' !in Encode(s)
    ensures forall k :: 0 <= k < |Encode(s)| ==> !IsWhiteSpace(Encode(s)[k])
  {
    var r := Encode(s);
    forall k | 0 <= k < |r|
      ensures r[k] != ';' && r[k] != '=' && r[k] != '\\' && !IsWhiteSpace(r[k])
    {
      InertChar(r[k]);
    }
  }

  lemma InertChar(c: char)
    requires IsUnreserved(c) || c == '%'
    ensures c != ';' && c != '=' && c != '\\' && !IsWhiteSpace(c)
  {
  }
}
