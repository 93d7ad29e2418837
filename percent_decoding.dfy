/** The inverse of the percent-encodings: `decodeURIComponent`, which the session
    routes apply to the cookie value, and the decoding a URL parser applies to a form
    value (`+` is a space). Every `%XY` run is read as UTF-8 bytes; a malformed escape
    or a byte run that is not the UTF-8 encoding of one Unicode scalar value is an
    error (`decodeURIComponent` throws `URIError`). */
module PercentDecoding {
  import opened Wrappers
  import opened PercentEncoding

  /** A hex digit of either case. */
  predicate IsHexDigit(c: char) {
    '0' <= c <= '9' || 'A' <= c <= 'F' || 'a' <= c <= 'f'
  }

  function HexValue(c: char): (d: nat)
    requires IsHexDigit(c)
    ensures d < 16
  {
    if '0' <= c <= '9' then c as int - '0' as int
    else if 'A' <= c <= 'F' then c as int - 'A' as int + 10
    else c as int - 'a' as int + 10
  }

  /** The digit the encoder writes reads back as its value. */
  lemma HexValueOfDigit(d: nat)
    requires d < 16
    ensures IsHexDigit(HexDigit(d)) && HexValue(HexDigit(d)) == d
  {
  }

  /** The byte written as `%XY` at the start of the text, if there is one. */
  function EscapedByte(s: string): (r: Option<nat>)
    ensures r.Some? ==> |s| >= 3 && s[0] == '%' && r.value < 256
  {
    if |s| >= 3 && s[0] == '%' && IsHexDigit(s[1]) && IsHexDigit(s[2])
    then Some(16 * HexValue(s[1]) + HexValue(s[2]))
    else None
  }

  /** `count` escaped bytes, one after the other, at the start of the text. */
  function EscapedBytes(s: string, count: nat): (r: Option<seq<nat>>)
    ensures r.Some? ==> |r.value| == count && 3 * count <= |s|
    ensures r.Some? ==> forall k :: 0 <= k < count ==> r.value[k] < 256
  {
    if count == 0 then Some([])
    else match EscapedByte(s)
      case None => None
      case Some(b) =>
        match EscapedBytes(s[3..], count - 1)
        case None => None
        case Some(bs) => Some([b] + bs)
  }

  /** The length of the UTF-8 sequence a lead byte opens; 0 when it opens none. */
  function SequenceLength(lead: nat): (n: nat)
    ensures n <= 4
  {
    if lead < 0x80 then 1
    else if 0xC0 <= lead < 0xE0 then 2
    else if 0xE0 <= lead < 0xF0 then 3
    else if 0xF0 <= lead < 0xF8 then 4
    else 0
  }

  /** The code point the payload bits of a byte sequence spell. */
  function CodePoint(b: seq<nat>): int
    requires 1 <= |b| <= 4
  {
    var b0 := b[0] as int;
    if |b| == 1 then b0
    else if |b| == 2 then (b0 - 0xC0) * 0x40 + Payload(b[1])
    else if |b| == 3 then (b0 - 0xE0) * 0x1000 + Payload(b[1]) * 0x40 + Payload(b[2])
    else (b0 - 0xF0) * 0x4_0000 + Payload(b[1]) * 0x1000 + Payload(b[2]) * 0x40 + Payload(b[3])
  }

  /** The six payload bits of a continuation byte. */
  function Payload(b: nat): int {
    b as int - 0x80
  }

  /** Values a `char` can hold: the Unicode scalar values. */
  predicate IsScalar(n: int) {
    0 <= n < 0xD800 || 0xE000 <= n < 0x11_0000
  }

  /** The character whose UTF-8 encoding the bytes are, if they are one. Overlong
      forms, surrogates and bad continuation bytes are all rejected, since they are
      not what `Utf8` writes. */
  function DecodeUtf8(b: seq<nat>): (r: Option<char>)
    requires 1 <= |b| <= 4
    ensures r.Some? ==> Utf8(r.value) == b
  {
    var n := CodePoint(b);
    if IsScalar(n) && Utf8(n as char) == b then Some(n as char) else None
  }

  /** Text as `decodeURIComponent` (`plusIsSpace` false) or a form-value parser
      (`plusIsSpace` true) reads it. */
  function DecodeWith(s: string, plusIsSpace: bool): (r: Option<string>)
    decreases |s|
  {
    if s == [] then Some([])
    else if s[0] != '%' then
      var c := if plusIsSpace && s[0] == '+' then ' ' else s[0];
      match DecodeWith(s[1..], plusIsSpace)
      case None => None
      case Some(t) => Some([c] + t)
    else
      match EscapedByte(s)
      case None => None
      case Some(lead) =>
        var len := SequenceLength(lead);
        if len == 0 then None
        else
          match EscapedBytes(s, len)
          case None => None
          case Some(bytes) =>
            match DecodeUtf8(bytes)
            case None => None
            case Some(c) =>
              match DecodeWith(s[3 * len..], plusIsSpace)
              case None => None
              case Some(t) => Some([c] + t)
  }

  /** `decodeURIComponent(s)`; `None` is the `URIError`. */
  function DecodeUriComponent(s: string): Option<string> {
    DecodeWith(s, false)
  }

  /** The form-value decoding of `s`. */
  function FormDecode(s: string): Option<string> {
    DecodeWith(s, true)
  }

  /** The escaped bytes `PercentBytes` writes read back. */
  lemma {:induction false} EscapedBytesOfPercentBytes(bytes: seq<nat>, rest: string)
    requires forall k :: 0 <= k < |bytes| ==> bytes[k] < 256
    ensures EscapedBytes(PercentBytes(bytes) + rest, |bytes|) == Some(bytes)
  {
    if bytes != [] {
      var b := bytes[0];
      var s := PercentBytes(bytes) + rest;
      var tail := PercentBytes(bytes[1..]) + rest;
      assert s == ['%', HexDigit(b / 16), HexDigit(b % 16)] + tail;
      HexValueOfDigit(b / 16);
      HexValueOfDigit(b % 16);
      assert EscapedByte(s) == Some(b);
      assert s[3..] == tail;
      EscapedBytesOfPercentBytes(bytes[1..], rest);
      assert bytes == [b] + bytes[1..];
    }
  }

  /** The lead byte `Utf8` writes announces the length it writes. */
  lemma SequenceLengthOfUtf8(c: char)
    ensures SequenceLength(Utf8(c)[0]) == |Utf8(c)|
  {
  }

  /** The payload bits of `Utf8(c)` spell `c`. */
  lemma CodePointOfUtf8(c: char)
    ensures CodePoint(Utf8(c)) == c as int
  {
    var n := c as int;
    if 0x80 <= n < 0x800 {
      CodePointOfTwoBytes(n, Utf8(c));
    } else if 0x800 <= n < 0x1_0000 {
      CodePointOfThreeBytes(n, Utf8(c));
    } else if 0x1_0000 <= n {
      CodePointOfFourBytes(n, Utf8(c));
    }
  }

  lemma CodePointOfTwoBytes(n: int, b: seq<nat>)
    requires 0 <= n && b == [0xC0 + n / 0x40, 0x80 + n % 0x40]
    ensures CodePoint(b) == n
  {
  }

  lemma CodePointOfThreeBytes(n: int, b: seq<nat>)
    requires 0 <= n < 0x1_0000 && b == [0xE0 + n / 0x1000, 0x80 + (n / 0x40) % 0x40, 0x80 + n % 0x40]
    ensures CodePoint(b) == n
  {
    var m := n / 0x40;
    assert n == m * 0x40 + n % 0x40;
    assert m == (m / 0x40) * 0x40 + m % 0x40;
    assert m / 0x40 == n / 0x1000;
  }

  lemma CodePointOfFourBytes(n: int, b: seq<nat>)
    requires 0 <= n < 0x11_0000
    requires b == [0xF0 + n / 0x4_0000, 0x80 + (n / 0x1000) % 0x40, 0x80 + (n / 0x40) % 0x40, 0x80 + n % 0x40]
    ensures CodePoint(b) == n
  {
    var m := n / 0x40;
    var q := n / 0x1000;
    assert n == m * 0x40 + n % 0x40;
    assert m == (m / 0x40) * 0x40 + m % 0x40;
    assert m / 0x40 == q;
    assert q == (q / 0x40) * 0x40 + q % 0x40;
    assert q / 0x40 == n / 0x4_0000;
  }

  /** Decoding undoes `Utf8`. */
  lemma DecodeUtf8OfUtf8(c: char)
    ensures DecodeUtf8(Utf8(c)) == Some(c)
  {
    CodePointOfUtf8(c);
  }

  /** A character written as escaped UTF-8 bytes decodes first. */
  lemma DecodeEscaped(c: char, rest: string, plusIsSpace: bool)
    ensures DecodeWith(PercentBytes(Utf8(c)) + rest, plusIsSpace) ==
      match DecodeWith(rest, plusIsSpace)
      case None => None
      case Some(t) => Some([c] + t)
  {
    var bytes := Utf8(c);
    var s := PercentBytes(bytes) + rest;
    EscapedBytesOfPercentBytes(bytes, rest);
    EscapedBytesOfPercentBytes([bytes[0]], PercentBytes(bytes[1..]) + rest);
    assert PercentBytes(bytes) == PercentBytes([bytes[0]]) + PercentBytes(bytes[1..]);
    assert EscapedByte(s) == Some(bytes[0]);
    SequenceLengthOfUtf8(c);
    DecodeUtf8OfUtf8(c);
    assert s[3 * |bytes|..] == rest;
  }

  /** `decodeURIComponent(encodeURIComponent(s)) === s`; the encoding has no `+`, so a
      form-value parser reads it back the same way. */
  lemma {:induction false} DecodeEncodeUriComponent(s: string, plusIsSpace: bool)
    ensures DecodeWith(EncodeUriComponent(s), plusIsSpace) == Some(s)
  {
    if s != [] {
      var c := s[0];
      var rest := EncodeUriComponent(s[1..]);
      DecodeEncodeUriComponent(s[1..], plusIsSpace);
      if IsUriUnreserved(c) {
        assert EncodeUriComponent(s) == [c] + rest;
        assert ([c] + rest)[1..] == rest;
      } else {
        DecodeEscaped(c, rest, plusIsSpace);
      }
      assert s == [c] + s[1..];
    }
  }

  /** A form value reads back as the text the serializer encoded. */
  lemma {:induction false} FormDecodeEncode(s: string)
    ensures FormDecode(FormEncode(s)) == Some(s)
  {
    if s != [] {
      var c := s[0];
      var rest := FormEncode(s[1..]);
      FormDecodeEncode(s[1..]);
      if c == ' ' {
        assert FormEncode(s) == "+" + rest;
        assert ("+" + rest)[1..] == rest;
      } else if IsFormSafe(c) {
        assert FormEncode(s) == [c] + rest;
        assert ([c] + rest)[1..] == rest;
      } else {
        DecodeEscaped(c, rest, true);
      }
      assert s == [c] + s[1..];
    }
  }
}
