/** Ordered name/value lists: a `Record<string, string>` filled by `params[name] = value`,
    and a `URLSearchParams` filled by `set(name, value)`. Both keep names in insertion
    order and hold each name once; assigning an existing name replaces its value in place. */
module Params {
  import opened Wrappers
  import JsString
  import PercentEncoding

  type Params = seq<(string, string)>

  function Names(p: Params): (r: seq<string>)
    ensures |r| == |p|
    ensures forall k :: 0 <= k < |p| ==> r[k] == p[k].0
  {
    if p == [] then [] else [p[0].0] + Names(p[1..])
  }

  predicate UniqueNames(p: Params) {
    forall i, j :: 0 <= i < j < |p| ==> p[i].0 != p[j].0
  }

  /** The value held under a name, if the name is present. */
  function Lookup(p: Params, name: string): (r: Option<string>)
    ensures r.Some? <==> name in Names(p)
  {
    if p == [] then None
    else if p[0].0 == name then Some(p[0].1)
    else Lookup(p[1..], name)
  }

  /** `params[name] = value` / `params.set(name, value)`: a present name keeps its
      place and takes the new value; a new name goes at the end. */
  function Put(p: Params, name: string, value: string): (r: Params)
    ensures Names(r) == if name in Names(p) then Names(p) else Names(p) + [name]
  {
    if p == [] then [(name, value)]
    else if p[0].0 == name then
      assert Names(p[1..]) == Names(p)[1..];
      [(name, value)] + p[1..]
    else
      var rest := Put(p[1..], name, value);
      assert Names([p[0]] + rest) == [p[0].0] + Names(rest);
      assert Names(p) == [p[0].0] + Names(p[1..]);
      [p[0]] + rest
  }

  /** After `Put` the name reads back as the new value and every other name as before. */
  lemma {:induction false} PutLookup(p: Params, name: string, value: string, other: string)
    ensures Lookup(Put(p, name, value), name) == Some(value)
    ensures other != name ==> Lookup(Put(p, name, value), other) == Lookup(p, other)
  {
    if p != [] && p[0].0 != name {
      PutLookup(p[1..], name, value, other);
      assert Put(p, name, value) == [p[0]] + Put(p[1..], name, value);
    }
  }

  /** `Put` leaves every other name's value as it was. */
  lemma PutKeepsOthers(p: Params, name: string, value: string)
    ensures Lookup(Put(p, name, value), name) == Some(value)
    ensures forall other :: other != name ==> Lookup(Put(p, name, value), other) == Lookup(p, other)
  {
    PutLookup(p, name, value, name);
    forall other | other != name
      ensures Lookup(Put(p, name, value), other) == Lookup(p, other)
    {
      PutLookup(p, name, value, other);
    }
  }

  /** Assigning a name not yet present appends it. */
  lemma {:induction false} PutNew(p: Params, name: string, value: string)
    requires name !in Names(p)
    ensures Put(p, name, value) == p + [(name, value)]
  {
    if p != [] {
      assert Names(p)[0] == p[0].0;
      assert p[0].0 != name;
      assert Names(p[1..]) == Names(p)[1..];
      assert name !in Names(p[1..]);
      PutNew(p[1..], name, value);
      assert Put(p, name, value) == [p[0]] + Put(p[1..], name, value);
      assert [p[0]] + (p[1..] + [(name, value)]) == p + [(name, value)];
    }
  }

  lemma NamesConcat(a: Params, b: Params)
    ensures Names(a + b) == Names(a) + Names(b)
  {
    var l, r := Names(a + b), Names(a) + Names(b);
    assert |l| == |r|;
    forall k | 0 <= k < |l|
      ensures l[k] == r[k]
    {
      if k < |a| {
        assert (a + b)[k] == a[k];
      } else {
        assert (a + b)[k] == b[k - |a|];
      }
    }
  }

  /** Looking up through a list whose head part has at most one entry. */
  lemma LookupCons(e: Params, rest: Params, name: string)
    requires |e| <= 1
    ensures Lookup(e + rest, name) == if e != [] && e[0].0 == name then Some(e[0].1) else Lookup(rest, name)
  {
    if e == [] {
      assert e + rest == rest;
    } else {
      assert (e + rest)[0] == e[0];
      assert (e + rest)[1..] == rest;
    }
  }

  /** The value under the first entry with the name. */
  lemma {:induction false} LookupAt(p: Params, i: nat, name: string)
    requires i < |p| && p[i].0 == name
    requires forall k :: 0 <= k < i ==> p[k].0 != name
    ensures Lookup(p, name) == Some(p[i].1)
  {
    if i > 0 {
      LookupAt(p[1..], i - 1, name);
    }
  }

  lemma PutKeepsUnique(p: Params, name: string, value: string)
    requires UniqueNames(p)
    ensures UniqueNames(Put(p, name, value))
  {
    var r := Put(p, name, value);
    var nr := Names(r);
    assert forall i, j :: 0 <= i < j < |r| ==> r[i].0 == nr[i] && r[j].0 == nr[j];
    assert forall i, j :: 0 <= i < j < |p| ==> Names(p)[i] != Names(p)[j];
  }

  /** The `application/x-www-form-urlencoded` text of the list (`toString()`). */
  function Serialize(p: Params): string {
    JsString.Join(seq(|p|, k requires 0 <= k < |p| =>
      PercentEncoding.FormEncode(p[k].0) + "=" + PercentEncoding.FormEncode(p[k].1)), '&')
  }

  /** A one-entry list whose name and value need no encoding serializes as `name=value`. */
  lemma SerializeSingle(name: string, value: string)
    requires forall k :: 0 <= k < |name| ==> PercentEncoding.IsFormSafe(name[k])
    requires forall k :: 0 <= k < |value| ==> PercentEncoding.IsFormSafe(value[k])
    ensures Serialize([(name, value)]) == name + "=" + value
  {
    PercentEncoding.FormEncodeOfSafe(name);
    PercentEncoding.FormEncodeOfSafe(value);
    var p := [(name, value)];
    var parts := seq(|p|, k requires 0 <= k < |p| =>
      PercentEncoding.FormEncode(p[k].0) + "=" + PercentEncoding.FormEncode(p[k].1));
    assert parts == [name + "=" + value];
  }
}
