/** The cookie lookup the auth routes share: the first match of the regular
    expression `(?:^|; )NAME=([^;]+)` in the `Cookie` header, and its captured value. */
module Cookies {
  import opened Wrappers
  import JsString

  /** `request.headers.get('cookie') || ''`. */
  function HeaderText(header: Option<string>): string {
    if header.Some? then header.value else ""
  }

  /** Position `k` starts the header or follows `"; "`. */
  predicate AtBoundary(h: string, k: nat) {
    k == 0 || (2 <= k <= |h| && h[k - 2] == ';' && h[k - 1] == ' ')
  }

  /** A match whose `NAME=` starts at `k`: at a boundary, spelled out in full, and
      followed by at least one character other than `;`. */
  predicate MatchesAt(h: string, name: string, k: nat) {
    && AtBoundary(h, k)
    && k + |name| + 1 < |h|
    && h[k..k + |name|] == name
    && h[k + |name|] == '='
    && h[k + |name| + 1] != ';'
  }

  /** The leftmost `k' >= k` at which a match starts. */
  function FirstMatch(h: string, name: string, k: nat): (r: Option<nat>)
    ensures r.Some? ==> k <= r.value && MatchesAt(h, name, r.value)
    ensures r.Some? ==> forall q :: k <= q < r.value ==> !MatchesAt(h, name, q)
    ensures r.None? ==> forall q :: k <= q ==> !MatchesAt(h, name, q)
    decreases |h| - k
  {
    if MatchesAt(h, name, k) then Some(k)
    else if k + |name| + 1 < |h| then FirstMatch(h, name, k + 1)
    else None
  }

  /** The captured group: the run of non-`;` characters starting at `j`. */
  function RunFrom(h: string, j: nat): (v: string)
    requires j <= |h|
    ensures forall i :: 0 <= i < |v| ==> v[i] != ';'
    ensures j + |v| <= |h| && h[j..j + |v|] == v
    ensures j + |v| == |h| || h[j + |v|] == ';'
  {
    var n := JsString.FirstIndexOf(h[j..], ';');
    h[j..j + n]
  }

  /** `header.match(/(?:^|; )NAME=([^;]+)/)?.[1]`. */
  function CookieValue(h: string, name: string): (r: Option<string>)
    ensures r.None? <==> forall q :: !MatchesAt(h, name, q)
  {
    match FirstMatch(h, name, 0)
    case None => None
    case Some(k) => Some(RunFrom(h, k + |name| + 1))
  }

  /** A captured value is non-empty, has no `;`, runs to the next `;` or the end, and
      comes from the leftmost match, which sits at index 0 or right after `"; "`. */
  lemma CookieValueShape(h: string, name: string)
    requires CookieValue(h, name).Some?
    ensures var v, k := CookieValue(h, name).value, FirstMatch(h, name, 0).value;
      && v != []
      && (forall i :: 0 <= i < |v| ==> v[i] != ';')
      && (k == 0 || (k >= 2 && h[k - 2..k] == "; "))
      && h[k..k + |name| + 1] == name + "="
      && h[k + |name| + 1..k + |name| + 1 + |v|] == v
      && (k + |name| + 1 + |v| == |h| || h[k + |name| + 1 + |v|] == ';')
      && forall q :: 0 <= q < k ==> !MatchesAt(h, name, q)
  {
    var k := FirstMatch(h, name, 0).value;
    MatchShape(h, name, k);
    var v := RunFrom(h, k + |name| + 1);
    assert v != [] by {
      assert h[k + |name| + 1] != ';';
    }
  }

  /** A match spells `"; "` (unless at the start), the name and `=`. */
  lemma MatchShape(h: string, name: string, k: nat)
    requires MatchesAt(h, name, k)
    ensures k == 0 || (k >= 2 && h[k - 2..k] == "; ")
    ensures h[k..k + |name| + 1] == name + "="
  {
    var j := k + |name| + 1;
    assert h[k..j] == h[k..k + |name|] + [h[k + |name|]];
    if k != 0 {
      assert h[k - 2..k] == [h[k - 2], h[k - 1]];
    }
  }

  /** The value is taken from a first entry without any prefix. */
  lemma FirstEntry(name: string, value: string, rest: string)
    requires value != [] && forall i :: 0 <= i < |value| ==> value[i] != ';'
    requires rest == [] || rest[0] == ';'
    ensures CookieValue(name + "=" + value + rest, name) == Some(value)
  {
    var h := name + "=" + value + rest;
    var j := |name| + 1;
    assert MatchesAt(h, name, 0) by {
      assert h[..|name|] == name;
      assert h[|name|] == '=';
      assert h[j] == value[0];
    }
    var t := h[j..];
    assert t == value + rest;
    assert forall i :: 0 <= i < |value| ==> t[i] == value[i];
    assert rest != [] ==> t[|value|] == rest[0];
    assert JsString.FirstIndexOf(t, ';') == |value|;
    assert h[j..j + |value|] == value;
  }

  /** `xsession=…`: the name must start the header or follow `"; "`. */
  lemma NoMatchInsideName(value: string)
    requires forall i :: 0 <= i < |value| ==> value[i] != ';'
    ensures CookieValue("xsession=" + value, "session") == None
  {
    forall q: nat
      ensures !MatchesAt("xsession=" + value, "session", q)
    {
      NoMatchInsideNameAt(value, q);
    }
  }

  lemma NoMatchInsideNameAt(value: string, q: nat)
    requires forall i :: 0 <= i < |value| ==> value[i] != ';'
    ensures !MatchesAt("xsession=" + value, "session", q)
  {
    var h := "xsession=" + value;
    if q == 0 {
      assert h[0..7][0] == 'x';
    } else if 2 <= q <= |h| {
      if q - 2 < 9 {
        assert h[q - 2] == "xsession="[q - 2];
      } else {
        assert h[q - 2] == value[q - 11];
      }
    }
  }

  /** `a=1;session=…`: a `;` without the following space is no boundary. */
  lemma NoMatchWithoutSpace(value: string)
    requires forall i :: 0 <= i < |value| ==> value[i] != ';'
    ensures CookieValue("a=1;session=" + value, "session") == None
  {
    forall q: nat
      ensures !MatchesAt("a=1;session=" + value, "session", q)
    {
      NoMatchWithoutSpaceAt(value, q);
    }
  }

  lemma NoMatchWithoutSpaceAt(value: string, q: nat)
    requires forall i :: 0 <= i < |value| ==> value[i] != ';'
    ensures !MatchesAt("a=1;session=" + value, "session", q)
  {
    var h := "a=1;session=" + value;
    if q == 0 {
      assert h[0..7][0] == 'a';
    } else if 2 <= q <= |h| {
      if q == 5 {
        assert h[4] == 's';
      } else if q - 2 < 12 {
        assert h[q - 2] == "a=1;session="[q - 2];
      } else {
        assert h[q - 2] == value[q - 14];
      }
    }
  }
}
