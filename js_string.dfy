/** String routines of the JavaScript runtime that the handlers rely on:
    the `\s` character class, ASCII lower-casing, `split(/\s+/)`, `join` and `split(',')`. */
module JsString {

  /** The characters matched by the regular-expression class `\s`
      (WhiteSpace and LineTerminator of ECMAScript). */
  predicate IsJsSpace(c: char) {
    c == '\t' || c == '\n' || c == '\U{000B}' || c == '\U{000C}' || c == '\r' || c == ' ' ||
    c == '\U{00A0}' || c == '\U{1680}' || ('\U{2000}' <= c <= '\U{200A}') ||
    c == '\U{2028}' || c == '\U{2029}' || c == '\U{202F}' || c == '\U{205F}' ||
    c == '\U{3000}' || c == '\U{FEFF}'
  }

  predicate NoSpace(s: string) {
    forall i :: 0 <= i < |s| ==> !IsJsSpace(s[i])
  }

  /** `toLowerCase` restricted to ASCII letters. */
  function LowerChar(c: char): (r: char)
    ensures 'A' <= c <= 'Z' ==> r as int == c as int + 32
    ensures !('A' <= c <= 'Z') ==> r == c
  {
    if 'A' <= c <= 'Z' then (c as int + 32) as char else c
  }

  function ToLowerAscii(s: string): (r: string)
    ensures |r| == |s|
    ensures forall i :: 0 <= i < |s| ==> r[i] == LowerChar(s[i])
  {
    if s == [] then [] else [LowerChar(s[0])] + ToLowerAscii(s[1..])
  }

  lemma {:induction false} ToLowerAsciiIdempotent(s: string)
    ensures ToLowerAscii(ToLowerAscii(s)) == ToLowerAscii(s)
  {
    var t := ToLowerAscii(s);
    assert forall i :: 0 <= i < |s| ==> LowerChar(t[i]) == t[i];
  }

  /** Index of the first `\s` character, or |s| when there is none. */
  function FirstSpace(s: string): (i: nat)
    ensures i <= |s|
    ensures forall k :: 0 <= k < i ==> !IsJsSpace(s[k])
    ensures i < |s| ==> IsJsSpace(s[i])
  {
    if s == [] then 0 else if IsJsSpace(s[0]) then 0 else 1 + FirstSpace(s[1..])
  }

  /** Length of the run of `\s` characters at the front of s. */
  function SpaceRun(s: string): (n: nat)
    ensures n <= |s|
    ensures forall k :: 0 <= k < n ==> IsJsSpace(s[k])
    ensures n < |s| ==> !IsJsSpace(s[n])
  {
    if s != [] && IsJsSpace(s[0]) then 1 + SpaceRun(s[1..]) else 0
  }

  /** `s.split(/\s+/)`: the pieces between maximal runs of white space.
      Leading or trailing white space yields an empty first or last piece,
      and the empty string splits to `[""]`. There is always at least one piece
      and no piece contains white space. */
  function SplitWhitespace(s: string): (r: seq<string>)
    ensures |r| >= 1
    ensures forall k :: 0 <= k < |r| ==> NoSpace(r[k])
    decreases |s|
  {
    var i := FirstSpace(s);
    if i == |s| then [s]
    else
      var j := i + SpaceRun(s[i..]);
      [s[..i]] + SplitWhitespace(s[j..])
  }

  /** All characters of all pieces, in order. */
  function Concat(xs: seq<string>): string {
    if xs == [] then "" else xs[0] + Concat(xs[1..])
  }

  /** s with every `\s` character removed. */
  function RemoveSpaces(s: string): (r: string)
    ensures NoSpace(r)
  {
    if s == [] then "" else (if IsJsSpace(s[0]) then "" else [s[0]]) + RemoveSpaces(s[1..])
  }

  lemma {:induction false} RemoveSpacesAppend(a: string, b: string)
    ensures RemoveSpaces(a + b) == RemoveSpaces(a) + RemoveSpaces(b)
  {
    if a != [] {
      assert (a + b)[1..] == a[1..] + b;
      RemoveSpacesAppend(a[1..], b);
    } else {
      assert a + b == b;
    }
  }

  lemma {:induction false} RemoveSpacesOfSpaces(s: string)
    requires forall k :: 0 <= k < |s| ==> IsJsSpace(s[k])
    ensures RemoveSpaces(s) == ""
  {
    if s != [] {
      RemoveSpacesOfSpaces(s[1..]);
    }
  }

  lemma {:induction false} RemoveSpacesOfNoSpace(s: string)
    requires NoSpace(s)
    ensures RemoveSpaces(s) == s
  {
    if s != [] {
      RemoveSpacesOfNoSpace(s[1..]);
    }
  }

  /** Splitting loses nothing but white space: the pieces put back together
      are the input with its white space removed. */
  lemma {:induction false} SplitWhitespaceKeepsText(s: string)
    ensures Concat(SplitWhitespace(s)) == RemoveSpaces(s)
    decreases |s|
  {
    var i := FirstSpace(s);
    if i == |s| {
      RemoveSpacesOfNoSpace(s);
      assert SplitWhitespace(s) == [s];
      assert Concat([s]) == s + Concat([]);
    } else {
      var j := i + SpaceRun(s[i..]);
      SplitWhitespaceKeepsText(s[j..]);
      SplitStep(s, i, j);
    }
  }

  /** One step of the split: the first piece, the white-space run, the rest. */
  lemma {:induction false} SplitStep(s: string, i: nat, j: nat)
    requires i == FirstSpace(s) < |s| && j == i + SpaceRun(s[i..])
    requires Concat(SplitWhitespace(s[j..])) == RemoveSpaces(s[j..])
    ensures Concat(SplitWhitespace(s)) == RemoveSpaces(s)
  {
    var rest := SplitWhitespace(s[j..]);
    var pieces := [s[..i]] + rest;
    assert SplitWhitespace(s) == pieces;
    assert pieces[1..] == rest;
    assert Concat(pieces) == s[..i] + Concat(rest);
    RemoveSpacesAround(s, i, j);
  }

  lemma {:induction false} RemoveSpacesAround(s: string, i: nat, j: nat)
    requires i <= j <= |s|
    requires NoSpace(s[..i])
    requires forall k :: i <= k < j ==> IsJsSpace(s[k])
    ensures RemoveSpaces(s) == s[..i] + RemoveSpaces(s[j..])
  {
    var a, b, c := s[..i], s[i..j], s[j..];
    assert b + c == s[i..];
    assert a + s[i..] == s;
    RemoveSpacesAppend(a, b + c);
    RemoveSpacesAppend(b, c);
    RemoveSpacesOfNoSpace(a);
    RemoveSpacesOfSpaces(b);
    assert RemoveSpaces(b) + RemoveSpaces(c) == RemoveSpaces(c);
  }

  /** The pieces of `s.split(/\s+/)` as a set: never empty, even for "". */
  function WordSet(s: string): (r: set<string>)
    ensures r != {}
  {
    var pieces := SplitWhitespace(s);
    var r := set k | 0 <= k < |pieces| :: pieces[k];
    assert pieces[0] in r;
    r
  }

  /** `xs.join(sep)`. */
  function Join(xs: seq<string>, sep: char): string {
    if xs == [] then "" else if |xs| == 1 then xs[0] else xs[0] + [sep] + Join(xs[1..], sep)
  }

  /** Index of the first `sep`, or |s| when there is none. */
  function FirstIndexOf(s: string, sep: char): (i: nat)
    ensures i <= |s|
    ensures forall k :: 0 <= k < i ==> s[k] != sep
    ensures i < |s| ==> s[i] == sep
  {
    if s == [] then 0 else if s[0] == sep then 0 else 1 + FirstIndexOf(s[1..], sep)
  }

  /** The first separator found is the first one there is. */
  lemma FirstIndexOfAt(s: string, sep: char, i: nat)
    requires i < |s| && s[i] == sep
    requires forall k :: 0 <= k < i ==> s[k] != sep
    ensures FirstIndexOf(s, sep) == i
  {
  }

  /** `s.split(sep)` for a one-character separator. */
  function SplitOn(s: string, sep: char): (r: seq<string>)
    ensures |r| >= 1
    decreases |s|
  {
    var i := FirstIndexOf(s, sep);
    if i == |s| then [s] else [s[..i]] + SplitOn(s[i + 1..], sep)
  }

  /** Splitting a joined list on its separator gives the list back,
      provided the list is non-empty and no element contains the separator. */
  lemma {:induction false} SplitOnJoin(xs: seq<string>, sep: char)
    requires |xs| >= 1
    requires forall k, j :: 0 <= k < |xs| && 0 <= j < |xs[k]| ==> xs[k][j] != sep
    ensures SplitOn(Join(xs, sep), sep) == xs
  {
    var s := Join(xs, sep);
    if |xs| == 1 {
      assert FirstIndexOf(s, sep) == |s|;
    } else {
      var restJoined := Join(xs[1..], sep);
      assert s == xs[0] + [sep] + restJoined;
      var i := FirstIndexOf(s, sep);
      assert s[|xs[0]|] == sep;
      assert i == |xs[0]|;
      assert s[..i] == xs[0];
      assert s[i + 1..] == restJoined;
      SplitOnJoin(xs[1..], sep);
      assert xs == [xs[0]] + xs[1..];
    }
  }
}
