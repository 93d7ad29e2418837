/** Percent-encoding of text as the JavaScript runtime does it: `encodeURIComponent`
    and the `application/x-www-form-urlencoded` serializer behind `URLSearchParams`.
    Characters are Unicode scalar values; each one that is not kept literally is
    written as its UTF-8 bytes, every byte as `%` and two upper-case hex digits. */
module PercentEncoding {

  predicate IsAsciiAlphanumeric(c: char) {
    'a' <= c <= 'z' || 'A' <= c <= 'Z' || '0' <= c <= '9'
  }

  /** The characters `encodeURIComponent` leaves alone. */
  predicate IsUriUnreserved(c: char) {
    IsAsciiAlphanumeric(c) || c == '-' || c == '_' || c == '.' || c == '!' || c == '~' ||
    c == '*' || c == '\'' || c == '(' || c == ')'
  }

  /** The characters the form serializer leaves alone (the space becomes `+`). */
  predicate IsFormSafe(c: char) {
    IsAsciiAlphanumeric(c) || c == '*' || c == '-' || c == '.' || c == '_'
  }

  predicate IsUpperHexDigit(c: char) {
    '0' <= c <= '9' || 'A' <= c <= 'F'
  }

  function HexDigit(d: nat): (c: char)
    requires d < 16
    ensures IsUpperHexDigit(c)
  {
    if d < 10 then ('0' as int + d) as char else ('A' as int + d - 10) as char
  }

  /** The UTF-8 encoding of one Unicode scalar value. */
  function Utf8(c: char): (bytes: seq<nat>)
    ensures 1 <= |bytes| <= 4
    ensures forall k :: 0 <= k < |bytes| ==> bytes[k] < 256
    ensures (c as int < 0x80) <==> |bytes| == 1
    ensures |bytes| == 1 ==> bytes[0] == c as int
  {
    var n := c as int;
    if n < 0x80 then [n]
    else if n < 0x800 then [0xC0 + n / 0x40, 0x80 + n % 0x40]
    else if n < 0x1_0000 then [0xE0 + n / 0x1000, 0x80 + (n / 0x40) % 0x40, 0x80 + n % 0x40]
    else [0xF0 + n / 0x4_0000, 0x80 + (n / 0x1000) % 0x40, 0x80 + (n / 0x40) % 0x40, 0x80 + n % 0x40]
  }

  /** `%XX` for every byte. */
  function PercentBytes(bytes: seq<nat>): (s: string)
    requires forall k :: 0 <= k < |bytes| ==> bytes[k] < 256
    ensures |s| == 3 * |bytes|
    ensures forall k :: 0 <= k < |s| ==> (k % 3 == 0 <==> s[k] == '%')
    ensures forall k :: 0 <= k < |s| && k % 3 != 0 ==> IsUpperHexDigit(s[k])
  {
    if bytes == [] then ""
    else
      var rest := PercentBytes(bytes[1..]);
      var head := ['%', HexDigit(bytes[0] / 16), HexDigit(bytes[0] % 16)];
      assert forall k :: 3 <= k < 3 + |rest| ==> (head + rest)[k] == rest[k - 3];
      head + rest
  }

  /** `encodeURIComponent(s)`. */
  function EncodeUriComponent(s: string): (r: string)
    ensures forall k :: 0 <= k < |r| ==> IsUriUnreserved(r[k]) || r[k] == '%' || IsUpperHexDigit(r[k])
  {
    if s == [] then ""
    else (if IsUriUnreserved(s[0]) then [s[0]] else PercentBytes(Utf8(s[0]))) + EncodeUriComponent(s[1..])
  }

  /** The form serializer's encoding of one name or value. */
  function FormEncode(s: string): (r: string)
    ensures forall k :: 0 <= k < |r| ==> IsFormSafe(r[k]) || r[k] == '+' || r[k] == '%' || IsUpperHexDigit(r[k])
  {
    if s == [] then ""
    else
      (if s[0] == ' ' then "+" else if IsFormSafe(s[0]) then [s[0]] else PercentBytes(Utf8(s[0])))
      + FormEncode(s[1..])
  }

  /** Text made of unreserved characters is left as it is. */
  lemma {:induction false} EncodeUriComponentOfUnreserved(s: string)
    requires forall k :: 0 <= k < |s| ==> IsUriUnreserved(s[k])
    ensures EncodeUriComponent(s) == s
  {
    if s != [] {
      EncodeUriComponentOfUnreserved(s[1..]);
    }
  }

  /** Text made of form-safe characters is left as it is by the form serializer. */
  lemma {:induction false} FormEncodeOfSafe(s: string)
    requires forall k :: 0 <= k < |s| ==> IsFormSafe(s[k])
    ensures FormEncode(s) == s
  {
    if s != [] {
      FormEncodeOfSafe(s[1..]);
    }
  }

  lemma {:induction false} EncodeUriComponentAppend(a: string, b: string)
    ensures EncodeUriComponent(a + b) == EncodeUriComponent(a) + EncodeUriComponent(b)
  {
    if a == [] {
      assert a + b == b;
    } else {
      assert (a + b)[1..] == a[1..] + b;
      EncodeUriComponentAppend(a[1..], b);
    }
  }

  /** A reserved ASCII character becomes `%` and its two hex digits. */
  lemma EncodeReservedAscii(c: char)
    requires c as int < 0x80 && !IsUriUnreserved(c)
    ensures EncodeUriComponent([c]) == ['%', HexDigit(c as int / 16), HexDigit(c as int % 16)]
  {
    assert [c][1..] == [];
    assert Utf8(c) == [c as int];
    assert PercentBytes([c as int]) == ['%', HexDigit(c as int / 16), HexDigit(c as int % 16)] + PercentBytes([]);
  }
}
