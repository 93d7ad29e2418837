/** Number routines of the JavaScript runtime: `Math.round`, the decimal form of an
    integer (`String(n)` / `n.toString()`), and `parseInt` without a radix. */
module JsNumber {
  import opened Wrappers
  import JsString

  /** `Math.round(x)`: the nearest integer, halves rounded towards +infinity. */
  function Round(x: real): (r: int)
    ensures x - 0.5 < r as real <= x + 0.5
  {
    (x + 0.5).Floor
  }

  lemma RoundMonotone(x: real, y: real)
    requires x <= y
    ensures Round(x) <= Round(y)
  {
  }

  predicate IsDecimalDigit(c: char) {
    '0' <= c <= '9'
  }

  function DigitChar(d: nat): (c: char)
    requires d < 10
    ensures IsDecimalDigit(c) && c as int - '0' as int == d
  {
    ('0' as int + d) as char
  }

  /** Decimal digits of n, most significant first, without leading zeros. */
  function NatToString(n: nat): (s: string)
    ensures |s| >= 1
    ensures forall k :: 0 <= k < |s| ==> IsDecimalDigit(s[k])
    ensures s[0] == '0' ==> n == 0
  {
    if n < 10 then [DigitChar(n)] else NatToString(n / 10) + [DigitChar(n % 10)]
  }

  /** `String(n)` for an integer n (below 10^21 in magnitude JavaScript prints it this way). */
  function IntToString(n: int): (s: string)
    ensures |s| >= 1
    ensures IsDecimalDigit(s[0]) <==> n >= 0
    ensures n < 0 ==> s[0] == '-'
    ensures forall k :: 0 <= k < |s| ==> IsDecimalDigit(s[k]) || (k == 0 && s[k] == '-')
  {
    if n < 0 then "-" + NatToString(-n) else NatToString(n)
  }

  /** A digit of the given radix (10 or 16), in either letter case. */
  predicate IsRadixDigit(c: char, radix: nat) {
    IsDecimalDigit(c) || (radix == 16 && ('a' <= c <= 'f' || 'A' <= c <= 'F'))
  }

  function DigitValue(c: char, radix: nat): (v: nat)
    requires IsRadixDigit(c, radix)
    ensures v < (if radix == 16 then 16 else 10)
  {
    if IsDecimalDigit(c) then c as int - '0' as int
    else if 'a' <= c <= 'f' then c as int - 'a' as int + 10
    else c as int - 'A' as int + 10
  }

  /** Length of the longest prefix of s made of radix digits. */
  function DigitPrefix(s: string, radix: nat): (n: nat)
    ensures n <= |s|
    ensures forall k :: 0 <= k < n ==> IsRadixDigit(s[k], radix)
    ensures n < |s| ==> !IsRadixDigit(s[n], radix)
  {
    if s != [] && IsRadixDigit(s[0], radix) then 1 + DigitPrefix(s[1..], radix) else 0
  }

  /** The value of a string of radix digits, most significant first. */
  function DigitsValue(s: string, radix: nat): nat
    requires forall k :: 0 <= k < |s| ==> IsRadixDigit(s[k], radix)
  {
    if s == [] then 0
    else DigitsValue(s[..|s| - 1], radix) * (if radix == 16 then 16 else 10) + DigitValue(s[|s| - 1], radix)
  }

  function TrimStart(s: string): (r: string)
    ensures |r| <= |s| && r == s[|s| - |r|..]
    ensures forall k :: 0 <= k < |s| - |r| ==> JsString.IsJsSpace(s[k])
    ensures r != [] ==> !JsString.IsJsSpace(r[0])
  {
    if s != [] && JsString.IsJsSpace(s[0]) then
      var r := TrimStart(s[1..]);
      assert forall k :: 1 <= k < |s| - |r| ==> s[k] == s[1..][k - 1];
      r
    else s
  }

  /** `parseInt(s)` with no radix argument; `None` stands for NaN.
      Leading white space is skipped, one sign is accepted, a `0x`/`0X` prefix
      selects base 16, and the longest digit prefix that follows is the value. */
  function ParseInt(s: string): (r: Option<int>)
    ensures r.None? <==> NoDigits(Unsigned(TrimStart(s)))
    ensures r.Some? ==> r.value == Signed(TrimStart(s), PrefixValue(Unsigned(TrimStart(s))))
  {
    ParseSigned(TrimStart(s))
  }

  /** The text after one optional sign. */
  function Unsigned(t: string): string {
    if t != [] && (t[0] == '-' || t[0] == '+') then t[1..] else t
  }

  /** The magnitude `m` with the sign `t` opens with. */
  function Signed(t: string, m: nat): int {
    if t != [] && t[0] == '-' then -(m as int) else m
  }

  /** A `0x`/`0X` prefix selects base 16, otherwise base 10. */
  predicate HasHexPrefix(u: string) {
    |u| >= 2 && u[0] == '0' && (u[1] == 'x' || u[1] == 'X')
  }

  function Radix(u: string): nat {
    if HasHexPrefix(u) then 16 else 10
  }

  /** The text whose leading digits are read: what follows the prefix. */
  function Body(u: string): string {
    if HasHexPrefix(u) then u[2..] else u
  }

  /** No digit of the radix opens the body: `parseInt` gives NaN. */
  predicate NoDigits(u: string) {
    Body(u) == [] || !IsRadixDigit(Body(u)[0], Radix(u))
  }

  /** The value of the longest digit prefix of the body. */
  function PrefixValue(u: string): nat {
    DigitsValue(Body(u)[..DigitPrefix(Body(u), Radix(u))], Radix(u))
  }

  /** An optional sign, then the magnitude. */
  function ParseSigned(t: string): (r: Option<int>)
    ensures r.None? <==> NoDigits(Unsigned(t))
    ensures r.Some? ==> r.value == Signed(t, PrefixValue(Unsigned(t)))
  {
    if t != [] && t[0] == '-' then
      match ParseMagnitude(t[1..])
      case None => None
      case Some(m) => Some(-(m as int))
    else if t != [] && t[0] == '+' then ParseMagnitude(t[1..])
    else ParseMagnitude(t)
  }

  /** The digits after the prefix, in the radix it selects. */
  function ParseMagnitude(u: string): (r: Option<nat>)
    ensures r.None? <==> NoDigits(u)
    ensures r.Some? ==> r.value == PrefixValue(u)
  {
    ParseDigits(Body(u), Radix(u))
  }

  /** The value of the longest digit prefix; `None` when there is none. */
  function ParseDigits(body: string, radix: nat): (r: Option<nat>)
    ensures r.None? <==> body == [] || !IsRadixDigit(body[0], radix)
    ensures r.Some? ==> r.value == DigitsValue(body[..DigitPrefix(body, radix)], radix)
  {
    var n := DigitPrefix(body, radix);
    if n == 0 then None else Some(DigitsValue(body[..n], radix))
  }

  lemma {:induction false} DigitsOfNatToString(n: nat)
    ensures DigitsValue(NatToString(n), 10) == n
  {
    var s := NatToString(n);
    if n >= 10 {
      DigitsOfNatToString(n / 10);
      assert s[..|s| - 1] == NatToString(n / 10);
    }
  }

  /** The digit prefix of a digit string followed by a non-digit is the digit string. */
  lemma {:induction false} DigitPrefixOfConcat(digits: string, rest: string, radix: nat)
    requires forall k :: 0 <= k < |digits| ==> IsRadixDigit(digits[k], radix)
    requires rest == [] || !IsRadixDigit(rest[0], radix)
    ensures DigitPrefix(digits + rest, radix) == |digits|
  {
    if digits != [] {
      assert (digits + rest)[1..] == digits[1..] + rest;
      DigitPrefixOfConcat(digits[1..], rest, radix);
    } else {
      assert digits + rest == rest;
    }
  }

  /** A digit string followed by a non-digit is read as the digit string. */
  lemma ParseDigitsOfConcat(digits: string, rest: string, radix: nat)
    requires digits != [] && forall k :: 0 <= k < |digits| ==> IsRadixDigit(digits[k], radix)
    requires rest == [] || !IsRadixDigit(rest[0], radix)
    ensures ParseDigits(digits + rest, radix) == Some(DigitsValue(digits, radix))
  {
    DigitPrefixOfConcat(digits, rest, radix);
    assert (digits + rest)[..|digits|] == digits;
  }

  /** The decimal form of a natural number, followed by a character that cannot
      continue it, is read back as that number. */
  lemma ParseMagnitudeOfNatToString(m: nat, rest: string)
    requires rest == [] || !IsDecimalDigit(rest[0])
    requires m == 0 && rest != [] ==> rest[0] != 'x' && rest[0] != 'X'
    ensures ParseMagnitude(NatToString(m) + rest) == Some(m)
  {
    var digits := NatToString(m);
    var u := digits + rest;
    assert u[0] == digits[0];
    assert |digits| == 1 && rest != [] ==> u[1] == rest[0];
    assert |digits| >= 2 ==> u[1] == digits[1];
    ParseDigitsOfConcat(digits, rest, 10);
    DigitsOfNatToString(m);
  }

  /** `parseInt` reads the decimal form of an integer back, and stops at the
      first character that cannot continue the number. */
  lemma ParseIntOfIntToStringThen(n: int, rest: string)
    requires rest == [] || !IsDecimalDigit(rest[0])
    requires n == 0 && rest != [] ==> rest[0] != 'x' && rest[0] != 'X'
    ensures ParseInt(IntToString(n) + rest) == Some(n)
  {
    if n < 0 {
      ParseIntOfNegative(-n, rest);
    } else {
      ParseIntOfNonNegative(n, rest);
    }
  }

  lemma ParseIntOfNegative(m: nat, rest: string)
    requires m > 0 && (rest == [] || !IsDecimalDigit(rest[0]))
    ensures ParseInt(IntToString(-(m as int)) + rest) == Some(-(m as int))
  {
    var u := NatToString(m) + rest;
    ParseMagnitudeOfNatToString(m, rest);
    ParseSignedNegative(u, m);
    NegativeText(m, rest);
  }

  lemma NegativeText(m: nat, rest: string)
    requires m > 0
    ensures IntToString(-(m as int)) + rest == "-" + (NatToString(m) + rest)
  {
  }

  lemma ParseIntOfNonNegative(m: nat, rest: string)
    requires rest == [] || !IsDecimalDigit(rest[0])
    requires m == 0 && rest != [] ==> rest[0] != 'x' && rest[0] != 'X'
    ensures ParseInt(IntToString(m) + rest) == Some(m)
  {
    var u := NatToString(m) + rest;
    ParseMagnitudeOfNatToString(m, rest);
    assert u[0] == NatToString(m)[0];
    ParseUnsigned(u);
  }

  /** Without a sign, the magnitude is the value. */
  lemma ParseUnsigned(u: string)
    requires u != [] && IsDecimalDigit(u[0])
    ensures ParseInt(u) == ParseMagnitude(u)
  {
    assert !JsString.IsJsSpace(u[0]);
    assert TrimStart(u) == u;
  }

  /** A leading minus sign negates the magnitude that follows it. */
  lemma ParseSignedNegative(u: string, m: nat)
    requires ParseMagnitude(u) == Some(m)
    ensures ParseInt("-" + u) == Some(-(m as int))
  {
    var t := "-" + u;
    assert t[0] == '-' && t[1..] == u;
    assert TrimStart(t) == t;
    assert Unsigned(t) == u;
  }

  /** Reading back the decimal form of an integer gives the integer. */
  lemma ParseIntOfIntToString(n: int)
    ensures ParseInt(IntToString(n)) == Some(n)
  {
    ParseIntOfIntToStringThen(n, []);
    assert IntToString(n) + [] == IntToString(n);
  }

  /** A missing `limit` parameter is read as `parseInt('10')`. */
  lemma ParseIntTen()
    ensures ParseInt("10") == Some(10)
  {
    TenText();
    ParseIntOfIntToString(10);
  }

  lemma TenText()
    ensures IntToString(10) == "10"
  {
    assert NatToString(1) == "1";
    assert NatToString(10) == NatToString(1) + [DigitChar(0)];
  }

  lemma ParseIntStopsAtNonDigit()
    ensures ParseInt("-7px") == Some(-7)
  {
    assert IntToString(-7) + "px" == "-7px";
    ParseIntOfIntToStringThen(-7, "px");
  }

  lemma ParseIntHexPrefix()
    ensures ParseInt("0x1A") == Some(26)
  {
    assert TrimStart("0x1A") == "0x1A";
    assert Unsigned("0x1A") == "0x1A";
    assert HasHexPrefix("0x1A") && Body("0x1A") == "1A";
    HexDigitsOneA();
  }

  lemma HexDigitsOneA()
    ensures DigitPrefix("1A", 16) == 2 && DigitsValue("1A", 16) == 26
  {
    assert "1A"[1..] == "A" && "A"[1..] == "";
    assert "1A"[..1] == "1" && "1"[..0] == "";
    assert DigitsValue("1", 16) == 1;
  }

  /** A string that starts with neither white space, a sign nor a digit is NaN. */
  lemma ParseIntNoDigits(s: string)
    requires s == [] || !(JsString.IsJsSpace(s[0]) || s[0] == '-' || s[0] == '+' || IsDecimalDigit(s[0]))
    ensures ParseInt(s) == None
  {
    assert TrimStart(s) == s;
  }

  lemma ParseIntOfWord()
    ensures ParseInt("abc") == None
  {
    ParseIntNoDigits("abc");
  }
}
