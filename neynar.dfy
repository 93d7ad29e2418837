/** The Farcaster graph client of lib/neynar.ts: the query parameters each call sends,
    the error rule every call shares, the follower-set logic of the mutual-follower and
    overlap calls, the engagement totals, and the lazily created shared client.
    The HTTP replies are given values; nothing is fetched. */
module Neynar {
  import opened Wrappers
  import JsNumber
  import JsString
  import Params
  import PercentEncoding
  import CollabScore

  const NEYNAR_API_BASE := "https://api.neynar.com"
  const USER_ENDPOINT := "/v2/farcaster/user"
  const FOLLOWERS_ENDPOINT := "/v2/farcaster/user/followers"
  const FOLLOWING_ENDPOINT := "/v2/farcaster/user/following"
  const FEED_ENDPOINT := "/v2/farcaster/feed/user"
  const BULK_USERS_ENDPOINT := "/v2/farcaster/user/bulk"
  const API_ERROR_PREFIX := "Neynar API error: "
  const API_KEY_REQUIRED := "NEYNAR_API_KEY environment variable is required"

  datatype NeynarUser = NeynarUser(
    fid: int,
    username: string,
    displayName: string,
    avatar: string,
    bio: Option<string>,
    followers: int,
    following: int,
    score: Option<real>,
    verified: bool)

  datatype Reactions = Reactions(likes: int, recasts: int, replies: int)

  datatype NeynarCast = NeynarCast(
    hash: string,
    author: NeynarUser,
    text: string,
    timestamp: string,
    reactions: Reactions,
    channel: Option<string>)

  // ---------------------------------------------------------------------------
  // `request`: the shared error rule
  // ---------------------------------------------------------------------------

  /** An HTTP reply as `fetch` reports it, with its already-decoded body. */
  datatype Reply<T> = Reply(status: int, statusText: string, body: T)

  /** `response.ok`: a status in the 2xx range. */
  predicate IsOk(status: int) {
    200 <= status <= 299
  }

  /** The URL a call requests: the endpoint under the API base, with the parameters
      appended as a form-encoded query when there are any. */
  function RequestUrl(endpoint: string, params: Params.Params): string {
    NEYNAR_API_BASE + endpoint + (if params == [] then "" else "?" + Params.Serialize(params))
  }

  /** `request`: the body of an ok reply, otherwise an error naming the status. */
  function Request<T>(reply: Reply<T>): (r: Result<T, string>)
    ensures r.Success? <==> IsOk(reply.status)
    ensures r.Success? ==> r.value == reply.body
    ensures r.Failure? ==>
      r.error == API_ERROR_PREFIX + (JsNumber.IntToString(reply.status) + (" " + reply.statusText))
  {
    if !IsOk(reply.status) then
      Failure(API_ERROR_PREFIX + (JsNumber.IntToString(reply.status) + (" " + reply.statusText)))
    else Success(reply.body)
  }

  /** The error message is the prefix followed by text from which `parseInt` reads
      back the status. */
  lemma RequestErrorNamesStatus<T>(reply: Reply<T>)
    requires !IsOk(reply.status)
    ensures var tail := JsNumber.IntToString(reply.status) + (" " + reply.statusText);
      && Request(reply).Failure? && Request(reply).error == API_ERROR_PREFIX + tail
      && JsNumber.ParseInt(tail) == Some(reply.status)
  {
    var rest := " " + reply.statusText;
    assert rest[0] == ' ';
    JsNumber.ParseIntOfIntToStringThen(reply.status, rest);
  }

  // ---------------------------------------------------------------------------
  // `getUser`: the fid written into the endpoint by hand
  // ---------------------------------------------------------------------------

  /** The endpoint `getUser` requests; it passes no parameter object. */
  function UserEndpoint(fid: int): string {
    USER_ENDPOINT + "?fid=" + JsNumber.IntToString(fid)
  }

  /** The hand-written query is the one a parameter object `{ fid }` would give, since
      the digits and sign of a fid need no encoding; `parseInt` reads the fid back from
      what follows `fid=`. */
  lemma UserUrlAsParams(fid: int)
    ensures RequestUrl(UserEndpoint(fid), []) == RequestUrl(USER_ENDPOINT, [("fid", JsNumber.IntToString(fid))])
    ensures JsNumber.ParseInt(UserEndpoint(fid)[|USER_ENDPOINT| + 5..]) == Some(fid)
  {
    var n := JsNumber.IntToString(fid);
    assert "?fid=" == "?" + "fid" + "=";
    assert UserEndpoint(fid) == USER_ENDPOINT + "?" + "fid" + "=" + n;
    QueryInEndpoint(USER_ENDPOINT, "fid", n);
    JsNumber.ParseIntOfIntToString(fid);
  }

  /** A single form-safe parameter written into the endpoint gives the URL the
      parameter list would give. */
  lemma QueryInEndpoint(e: string, name: string, value: string)
    requires forall k :: 0 <= k < |name| ==> PercentEncoding.IsFormSafe(name[k])
    requires forall k :: 0 <= k < |value| ==> PercentEncoding.IsFormSafe(value[k])
    ensures RequestUrl(e + "?" + name + "=" + value, []) == RequestUrl(e, [(name, value)])
    ensures (e + "?" + name + "=" + value)[|e| + |name| + 2..] == value
  {
    Params.SerializeSingle(name, value);
    var q := name + "=" + value;
    assert e + "?" + name + "=" + value == e + "?" + q;
    assert RequestUrl(e + "?" + q, []) == NEYNAR_API_BASE + (e + "?" + q) + "";
    assert RequestUrl(e, [(name, value)]) == NEYNAR_API_BASE + e + ("?" + q);
  }

  // ---------------------------------------------------------------------------
  // Query parameters
  // ---------------------------------------------------------------------------

  datatype SortType = Algorithmic | Recent

  function SortTypeName(t: SortType): string {
    match t
    case Algorithmic => "algorithmic"
    case Recent => "recent"
  }

  datatype FollowOptions = FollowOptions(
    limit: Option<int>, sortType: Option<SortType>, viewerFid: Option<int>, cursor: Option<string>)

  datatype FeedOptions = FeedOptions(limit: Option<int>, cursor: Option<string>)

  /** JavaScript truthiness of an optional number and an optional string. */
  predicate TruthyNumber(v: Option<int>) {
    v.Some? && v.value != 0
  }

  predicate TruthyString(v: Option<string>) {
    v.Some? && v.value != ""
  }

  /** The entry a truthy option contributes, or none. */
  function NumberEntry(name: string, v: Option<int>): (r: Params.Params)
    ensures |r| <= 1
  {
    if TruthyNumber(v) then [(name, JsNumber.IntToString(v.value))] else []
  }

  function StringEntry(name: string, v: Option<string>): (r: Params.Params)
    ensures |r| <= 1
  {
    if TruthyString(v) then [(name, v.value)] else []
  }

  function SortEntry(v: Option<SortType>): (r: Params.Params)
    ensures |r| <= 1
  {
    if v.Some? then [("sort_type", SortTypeName(v.value))] else []
  }

  /** The parameters of a follower or following call: `fid`, then the entry of each
      option in the order the code tests them. */
  function FollowParamsOf(fid: int, o: FollowOptions): Params.Params {
    [("fid", JsNumber.IntToString(fid))] + (NumberEntry("limit", o.limit) + (SortEntry(o.sortType)
      + (NumberEntry("viewer_fid", o.viewerFid) + StringEntry("cursor", o.cursor))))
  }

  function FeedParamsOf(fid: int, o: FeedOptions): Params.Params {
    [("fid", JsNumber.IntToString(fid))] + (NumberEntry("limit", o.limit) + StringEntry("cursor", o.cursor))
  }

  /** The parameter object `getFollowers` and `getFollowing` fill, one assignment per
      truthy option. */
  method FollowParams(fid: int, o: FollowOptions) returns (params: Params.Params)
    ensures params == FollowParamsOf(fid, o)
  {
    var f := [("fid", JsNumber.IntToString(fid))];
    assert Params.Names(f) == ["fid"];
    var head := AssignLimitAndSort(f, o);
    params := AssignViewerAndCursor(head, o);
    assert params == f + (NumberEntry("limit", o.limit) + SortEntry(o.sortType))
      + (NumberEntry("viewer_fid", o.viewerFid) + StringEntry("cursor", o.cursor));
  }

  /** The first two assignments of `FollowParams`. */
  method AssignLimitAndSort(p: Params.Params, o: FollowOptions) returns (r: Params.Params)
    requires Params.Names(p) == ["fid"]
    ensures r == p + (NumberEntry("limit", o.limit) + SortEntry(o.sortType))
    ensures "viewer_fid" !in Params.Names(r) && "cursor" !in Params.Names(r)
  {
    var a := AssignNumber(p, "limit", o.limit);
    r := AssignSortType(a, o.sortType);
    LaterNamesAbsent(TruthyNumber(o.limit), o.sortType.Some?);
  }

  /** Neither later name is among those the first two assignments can leave. */
  lemma LaterNamesAbsent(limit: bool, sort: bool)
    ensures var names := ["fid"] + (if limit then ["limit"] else []) + (if sort then ["sort_type"] else []);
      "viewer_fid" !in names && "cursor" !in names
  {
    assert |"fid"| == 3 && |"limit"| == 5 && |"sort_type"| == 9;
    assert |"viewer_fid"| == 10 && |"cursor"| == 6;
  }

  /** The last two assignments of `FollowParams`. */
  method AssignViewerAndCursor(p: Params.Params, o: FollowOptions) returns (r: Params.Params)
    requires "viewer_fid" !in Params.Names(p) && "cursor" !in Params.Names(p)
    ensures r == p + (NumberEntry("viewer_fid", o.viewerFid) + StringEntry("cursor", o.cursor))
  {
    var c := AssignNumber(p, "viewer_fid", o.viewerFid);
    r := AssignString(c, "cursor", o.cursor);
  }

  /** The parameter object of `getUserFeed`. */
  method FeedParams(fid: int, o: FeedOptions) returns (params: Params.Params)
    ensures params == FeedParamsOf(fid, o)
  {
    params := [("fid", JsNumber.IntToString(fid))];
    assert Params.Names(params) == ["fid"];
    params := AssignNumber(params, "limit", o.limit);
    params := AssignString(params, "cursor", o.cursor);
  }

  /** `if (options.x) params.name = options.x.toString()` on an object without `name`. */
  method AssignNumber(p: Params.Params, name: string, v: Option<int>) returns (r: Params.Params)
    requires name !in Params.Names(p)
    ensures r == p + NumberEntry(name, v)
    ensures Params.Names(r) == Params.Names(p) + (if TruthyNumber(v) then [name] else [])
  {
    r := p;
    if TruthyNumber(v) {
      Params.PutNew(p, name, JsNumber.IntToString(v.value));
      r := Params.Put(p, name, JsNumber.IntToString(v.value));
    }
  }

  method AssignString(p: Params.Params, name: string, v: Option<string>) returns (r: Params.Params)
    requires name !in Params.Names(p)
    ensures r == p + StringEntry(name, v)
    ensures Params.Names(r) == Params.Names(p) + (if TruthyString(v) then [name] else [])
  {
    r := p;
    if TruthyString(v) {
      Params.PutNew(p, name, v.value);
      r := Params.Put(p, name, v.value);
    }
  }

  method AssignSortType(p: Params.Params, v: Option<SortType>) returns (r: Params.Params)
    requires "sort_type" !in Params.Names(p)
    ensures r == p + SortEntry(v)
    ensures Params.Names(r) == Params.Names(p) + (if v.Some? then ["sort_type"] else [])
  {
    r := p;
    if v.Some? {
      Params.PutNew(p, "sort_type", SortTypeName(v.value));
      r := Params.Put(p, "sort_type", SortTypeName(v.value));
    }
  }

  /** Lookup through `fid` and four optional single entries. */
  lemma LookupEntries(f: Params.Params, a: Params.Params, b: Params.Params, c: Params.Params,
                      d: Params.Params, name: string)
    requires |f| == 1 && |a| <= 1 && |b| <= 1 && |c| <= 1 && |d| <= 1
    ensures Params.Lookup(f + (a + (b + (c + d))), name) ==
      if f[0].0 == name then Some(f[0].1)
      else if a != [] && a[0].0 == name then Some(a[0].1)
      else if b != [] && b[0].0 == name then Some(b[0].1)
      else if c != [] && c[0].0 == name then Some(c[0].1)
      else Params.Lookup(d, name)
  {
    Params.LookupCons(f, a + (b + (c + d)), name);
    Params.LookupCons(a, b + (c + d), name);
    Params.LookupCons(b, c + d, name);
    Params.LookupCons(c, d, name);
  }

  /** What a follower-call parameter list holds: always `fid`, and each option exactly
      when it is truthy, so a limit or viewer of 0 and an empty cursor are omitted. */
  lemma FollowParamsLookup(fid: int, o: FollowOptions)
    ensures var p := FollowParamsOf(fid, o);
      && Params.Lookup(p, "fid") == Some(JsNumber.IntToString(fid))
      && Params.Lookup(p, "limit") == (if TruthyNumber(o.limit) then Some(JsNumber.IntToString(o.limit.value)) else None)
      && Params.Lookup(p, "sort_type") == (if o.sortType.Some? then Some(SortTypeName(o.sortType.value)) else None)
      && Params.Lookup(p, "viewer_fid") == (if TruthyNumber(o.viewerFid) then Some(JsNumber.IntToString(o.viewerFid.value)) else None)
      && Params.Lookup(p, "cursor") == (if TruthyString(o.cursor) then Some(o.cursor.value) else None)
  {
    var f, a, b, c, d := [("fid", JsNumber.IntToString(fid))], NumberEntry("limit", o.limit),
      SortEntry(o.sortType), NumberEntry("viewer_fid", o.viewerFid), StringEntry("cursor", o.cursor);
    LookupEntries(f, a, b, c, d, "fid");
    LookupEntries(f, a, b, c, d, "limit");
    LookupEntries(f, a, b, c, d, "sort_type");
    LookupEntries(f, a, b, c, d, "viewer_fid");
    LookupEntries(f, a, b, c, d, "cursor");
  }

  /** What a feed parameter list holds. */
  lemma FeedParamsLookup(fid: int, o: FeedOptions)
    ensures var p := FeedParamsOf(fid, o);
      && Params.Lookup(p, "fid") == Some(JsNumber.IntToString(fid))
      && Params.Lookup(p, "limit") == (if TruthyNumber(o.limit) then Some(JsNumber.IntToString(o.limit.value)) else None)
      && Params.Lookup(p, "cursor") == (if TruthyString(o.cursor) then Some(o.cursor.value) else None)
  {
    var f, a, d := [("fid", JsNumber.IntToString(fid))], NumberEntry("limit", o.limit), StringEntry("cursor", o.cursor);
    var none: Params.Params := [];
    assert none + (none + d) == d;
    LookupEntries(f, a, none, none, d, "fid");
    LookupEntries(f, a, none, none, d, "limit");
    LookupEntries(f, a, none, none, d, "cursor");
  }

  // ---------------------------------------------------------------------------
  // `getBulkUsers`
  // ---------------------------------------------------------------------------

  function FidStrings(fids: seq<int>): (r: seq<string>)
    ensures |r| == |fids|
    ensures forall k :: 0 <= k < |fids| ==> r[k] == JsNumber.IntToString(fids[k])
  {
    seq(|fids|, k requires 0 <= k < |fids| => JsNumber.IntToString(fids[k]))
  }

  /** `{ fids: fids.join(',') }`. */
  function BulkUsersParams(fids: seq<int>): Params.Params {
    [("fids", JsString.Join(FidStrings(fids), ','))]
  }

  /** The `fids` parameter lists the fids in input order: splitting it on `,` gives one
      part per fid, and `parseInt` reads each fid back from its part. */
  lemma BulkUsersFidsRoundTrip(fids: seq<int>)
    requires |fids| >= 1
    ensures var parts := JsString.SplitOn(Params.Lookup(BulkUsersParams(fids), "fids").value, ',');
      && parts == FidStrings(fids)
      && forall k :: 0 <= k < |fids| ==> JsNumber.ParseInt(parts[k]) == Some(fids[k])
  {
    var xs := FidStrings(fids);
    forall k, j | 0 <= k < |xs| && 0 <= j < |xs[k]|
      ensures xs[k][j] != ','
    {
      assert JsNumber.IsDecimalDigit(xs[k][j]) || xs[k][j] == '-';
    }
    JsString.SplitOnJoin(xs, ',');
    forall k | 0 <= k < |fids|
      ensures JsNumber.ParseInt(xs[k]) == Some(fids[k])
    {
      JsNumber.ParseIntOfIntToString(fids[k]);
    }
  }

  // ---------------------------------------------------------------------------
  // Follower sets: `getMutualFollowers` and `calculateOverlap`
  // ---------------------------------------------------------------------------

  /** `users.map(u => u.fid)`. */
  function Fids(users: seq<NeynarUser>): (r: seq<int>)
    ensures |r| == |users|
    ensures forall k :: 0 <= k < |users| ==> r[k] == users[k].fid
  {
    seq(|users|, k requires 0 <= k < |users| => users[k].fid)
  }

  /** `new Set(s)` as a set. */
  function SetOf(s: seq<int>): set<int> {
    set x | x in s
  }

  /** `[...new Set(s)]`: each value once, in order of first appearance. */
  function Unique(s: seq<int>): (r: seq<int>)
    ensures forall x :: x in r <==> x in s
    ensures CollabScore.Distinct(r)
  {
    if s == [] then []
    else
      var init, last := s[..|s| - 1], s[|s| - 1];
      assert s == init + [last];
      if last in init then Unique(init) else Unique(init) + [last]
  }

  /** `s.filter(x => keep.has(x))`. */
  function Filter(s: seq<int>, keep: set<int>): (r: seq<int>)
    ensures forall x :: x in r <==> x in s && x in keep
  {
    if s == [] then []
    else
      assert s == [s[0]] + s[1..];
      (if s[0] in keep then [s[0]] else []) + Filter(s[1..], keep)
  }

  lemma {:induction false} FilterDistinct(s: seq<int>, keep: set<int>)
    requires CollabScore.Distinct(s)
    ensures CollabScore.Distinct(Filter(s, keep))
  {
    if s != [] {
      var t := s[1..];
      assert CollabScore.Distinct(t) by {
        forall i, j | 0 <= i < j < |t| ensures t[i] != t[j] {
          assert t[i] == s[i + 1] && t[j] == s[j + 1];
        }
      }
      FilterDistinct(t, keep);
      assert s[0] !in t by {
        forall m | 0 <= m < |t| ensures t[m] != s[0] {
          assert t[m] == s[m + 1];
        }
      }
    }
  }

  /** Position of the first occurrence of `x` in `s`. */
  function IndexOf(s: seq<int>, x: int): (i: nat)
    requires x in s
    ensures i < |s| && s[i] == x
    ensures forall k :: 0 <= k < i ==> s[k] != x
  {
    if s[0] == x then 0 else 1 + IndexOf(s[1..], x)
  }

  /** Every element of `r` occurs in `s`, and `r` lists them in the order of their
      first occurrences in `s`. */
  predicate InFirstAppearanceOrder(r: seq<int>, s: seq<int>) {
    (forall k :: 0 <= k < |r| ==> r[k] in s)
    && forall i, j :: 0 <= i < j < |r| ==> IndexOf(s, r[i]) < IndexOf(s, r[j])
  }

  lemma IndexOfInit(init: seq<int>, last: int, x: int)
    requires x in init
    ensures IndexOf(init + [last], x) == IndexOf(init, x)
  {
    var s := init + [last];
    var i, j := IndexOf(s, x), IndexOf(init, x);
    assert s[j] == x;
    assert i <= j;
    assert init[i] == x;
    assert j <= i;
  }

  lemma {:induction false} UniqueOrder(s: seq<int>)
    ensures InFirstAppearanceOrder(Unique(s), s)
  {
    if s != [] {
      var init, last := s[..|s| - 1], s[|s| - 1];
      assert s == init + [last];
      UniqueOrder(init);
      OrderAppendSource(Unique(init), init, last);
      if last !in init {
        OrderAppendNew(Unique(init), init, last);
      }
    }
  }

  /** Appending to the source keeps the order of what was already listed. */
  lemma OrderAppendSource(u: seq<int>, init: seq<int>, last: int)
    requires InFirstAppearanceOrder(u, init)
    ensures InFirstAppearanceOrder(u, init + [last])
    ensures forall k :: 0 <= k < |u| ==> IndexOf(init + [last], u[k]) < |init|
  {
    forall k | 0 <= k < |u|
      ensures IndexOf(init + [last], u[k]) == IndexOf(init, u[k]) < |init|
    {
      IndexOfInit(init, last, u[k]);
    }
  }

  /** A value new to the source goes last. */
  lemma OrderAppendNew(u: seq<int>, init: seq<int>, last: int)
    requires InFirstAppearanceOrder(u, init + [last]) && last !in init
    requires forall k :: 0 <= k < |u| ==> IndexOf(init + [last], u[k]) < |init|
    ensures InFirstAppearanceOrder(u + [last], init + [last])
  {
    var s := init + [last];
    assert IndexOf(s, last) == |init| by {
      assert forall k :: 0 <= k < |init| ==> s[k] == init[k];
    }
    var r := u + [last];
    forall i, j | 0 <= i < j < |r|
      ensures IndexOf(s, r[i]) < IndexOf(s, r[j])
    {
      if j < |u| {
        assert r[i] == u[i] && r[j] == u[j];
      } else {
        assert r[i] == u[i] && r[j] == last;
      }
    }
  }

  lemma {:induction false} FilterOrder(r: seq<int>, s: seq<int>, keep: set<int>)
    requires InFirstAppearanceOrder(r, s)
    ensures InFirstAppearanceOrder(Filter(r, keep), s)
  {
    if r != [] {
      var t := r[1..];
      OrderTail(r, s);
      FilterOrder(t, s, keep);
      var ft := Filter(t, keep);
      if r[0] in keep {
        HeadBeforeFiltered(r, s, keep);
        assert Filter(r, keep) == [r[0]] + ft;
        OrderCons(r[0], ft, s);
      } else {
        assert Filter(r, keep) == ft;
      }
    }
  }

  /** The head of an ordered list comes before everything kept from its tail. */
  lemma HeadBeforeFiltered(r: seq<int>, s: seq<int>, keep: set<int>)
    requires r != [] && InFirstAppearanceOrder(r, s)
    ensures forall y | y in Filter(r[1..], keep) :: IndexOf(s, r[0]) < IndexOf(s, y)
  {
    var t := r[1..];
    forall y | y in Filter(t, keep)
      ensures IndexOf(s, r[0]) < IndexOf(s, y)
    {
      var m :| 0 <= m < |t| && t[m] == y;
      assert r[m + 1] == y;
    }
  }

  /** Dropping the first element keeps the order. */
  lemma OrderTail(r: seq<int>, s: seq<int>)
    requires r != [] && InFirstAppearanceOrder(r, s)
    ensures InFirstAppearanceOrder(r[1..], s)
  {
    var t := r[1..];
    forall i, j | 0 <= i < j < |t|
      ensures IndexOf(s, t[i]) < IndexOf(s, t[j])
    {
      assert t[i] == r[i + 1] && t[j] == r[j + 1];
    }
  }

  /** An element that comes first in `s` may go in front. */
  lemma OrderCons(x: int, t: seq<int>, s: seq<int>)
    requires x in s && InFirstAppearanceOrder(t, s)
    requires forall y | y in t :: IndexOf(s, x) < IndexOf(s, y)
    ensures InFirstAppearanceOrder([x] + t, s)
  {
    var f := [x] + t;
    forall i, j | 0 <= i < j < |f|
      ensures IndexOf(s, f[i]) < IndexOf(s, f[j])
    {
      assert f[j] == t[j - 1];
      if i > 0 {
        assert f[i] == t[i - 1];
      }
    }
  }

  /** `[...followers1Set].filter(fid => followers2Set.has(fid))`. */
  function MutualFids(users1: seq<NeynarUser>, users2: seq<NeynarUser>): seq<int> {
    Filter(Unique(Fids(users1)), SetOf(Fids(users2)))
  }

  /** The mutual fids are the fids present in both lists, each once, in the order of
      their first appearance in the first list. */
  lemma MutualFidsSpec(users1: seq<NeynarUser>, users2: seq<NeynarUser>)
    ensures var m := MutualFids(users1, users2);
      && CollabScore.Distinct(m)
      && (forall x :: x in m <==> x in Fids(users1) && x in Fids(users2))
      && InFirstAppearanceOrder(m, Fids(users1))
  {
    var u := Unique(Fids(users1));
    FilterDistinct(u, SetOf(Fids(users2)));
    UniqueOrder(Fids(users1));
    FilterOrder(u, Fids(users1), SetOf(Fids(users2)));
  }

  datatype MutualOutcome = MutualOutcome(bulkParams: Option<Params.Params>, result: Result<seq<NeynarUser>, string>)

  /** `getMutualFollowers` on the two follower lists: no bulk request when nothing is
      shared, otherwise the bulk request for the mutual fids and its outcome. */
  function GetMutualFollowers(users1: seq<NeynarUser>, users2: seq<NeynarUser>, bulk: Reply<seq<NeynarUser>>): (r: MutualOutcome)
    ensures MutualFids(users1, users2) == [] ==> r == MutualOutcome(None, Success([]))
    ensures MutualFids(users1, users2) != [] ==>
      r.bulkParams == Some(BulkUsersParams(MutualFids(users1, users2))) && r.result == Request(bulk)
  {
    var mutual := MutualFids(users1, users2);
    if |mutual| == 0 then MutualOutcome(None, Success([]))
    else MutualOutcome(Some(BulkUsersParams(mutual)), Request(bulk))
  }

  lemma {:induction false} SetOfLength(s: seq<int>)
    ensures |SetOf(s)| <= |s|
    ensures CollabScore.Distinct(s) ==> |SetOf(s)| == |s|
  {
    if s != [] {
      var t := s[1..];
      SetOfLength(t);
      assert SetOf(s) == SetOf(t) + {s[0]} by {
        assert s == [s[0]] + t;
      }
      if CollabScore.Distinct(s) {
        assert CollabScore.Distinct(t) by {
          forall i, j | 0 <= i < j < |t| ensures t[i] != t[j] {
            assert t[i] == s[i + 1] && t[j] == s[j + 1];
          }
        }
        assert s[0] !in SetOf(t) by {
          forall m | 0 <= m < |t| ensures t[m] != s[0] {
            assert t[m] == s[m + 1];
          }
        }
      }
    }
  }

  datatype Overlap = Overlap(
    jaccardSimilarity: Option<real>, sharedFollowers: nat, totalFollowers1: nat, totalFollowers2: nat)

  /** `calculateOverlap` on the two follower lists. The quotient is `None` where the
      code divides 0 by 0, which happens exactly when both lists are empty. */
  function CalculateOverlap(users1: seq<NeynarUser>, users2: seq<NeynarUser>): (r: Overlap)
    ensures var s1, s2 := SetOf(Fids(users1)), SetOf(Fids(users2));
      && r.sharedFollowers == |s1 * s2|
      && (r.jaccardSimilarity.None? <==> users1 == [] && users2 == [])
      && (r.jaccardSimilarity.Some? ==> s1 + s2 != {} && r.jaccardSimilarity.value == CollabScore.Jaccard(s1, s2))
      && r.totalFollowers1 == |users1| && r.totalFollowers2 == |users2|
  {
    var s1, s2 := SetOf(Fids(users1)), SetOf(Fids(users2));
    var intersection := SetOf(MutualFids(users1, users2));
    var union := s1 + s2;
    MutualFidsSpec(users1, users2);
    assert intersection == s1 * s2;
    assert users1 != [] ==> Fids(users1)[0] in s1;
    assert users2 != [] ==> Fids(users2)[0] in s2;
    Overlap(if |union| == 0 then None else Some((|intersection| as real) / (|union| as real)),
      |intersection|, |users1|, |users2|)
  }

  /** Raw list lengths bound the distinct counts, which bound the shared count; the
      shared count is also the number of mutual fids. */
  lemma OverlapBounds(users1: seq<NeynarUser>, users2: seq<NeynarUser>)
    ensures var r, s1, s2 := CalculateOverlap(users1, users2), SetOf(Fids(users1)), SetOf(Fids(users2));
      && r.totalFollowers1 >= |s1| >= r.sharedFollowers
      && r.totalFollowers2 >= |s2| >= r.sharedFollowers
      && |MutualFids(users1, users2)| == r.sharedFollowers
  {
    var s1, s2 := SetOf(Fids(users1)), SetOf(Fids(users2));
    SetOfLength(Fids(users1));
    SetOfLength(Fids(users2));
    CollabScore.SubsetCardinality(s1 * s2, s1);
    CollabScore.SubsetCardinality(s1 * s2, s2);
    var m := MutualFids(users1, users2);
    MutualFidsSpec(users1, users2);
    SetOfLength(m);
    assert SetOf(m) == s1 * s2;
  }

  // ---------------------------------------------------------------------------
  // `getEngagementData`
  // ---------------------------------------------------------------------------

  datatype ReactionKind = Likes | Recasts | Replies

  function Count(r: Reactions, k: ReactionKind): int {
    match k
    case Likes => r.likes
    case Recasts => r.recasts
    case Replies => r.replies
  }

  /** The sum of one reaction count over the casts. */
  function Total(casts: seq<NeynarCast>, k: ReactionKind): int {
    if casts == [] then 0
    else Total(casts[..|casts| - 1], k) + Count(casts[|casts| - 1].reactions, k)
  }

  lemma {:induction false} TotalAppend(a: seq<NeynarCast>, b: seq<NeynarCast>, k: ReactionKind)
    ensures Total(a + b, k) == Total(a, k) + Total(b, k)
  {
    if b == [] {
      assert a + b == a;
    } else {
      TotalAppend(a, b[..|b| - 1], k);
      assert (a + b)[..|a + b| - 1] == a + b[..|b| - 1];
    }
  }

  lemma {:induction false} TotalNonNegative(casts: seq<NeynarCast>, k: ReactionKind)
    requires forall i :: 0 <= i < |casts| ==> Count(casts[i].reactions, k) >= 0
    ensures Total(casts, k) >= 0
  {
    if casts != [] {
      TotalNonNegative(casts[..|casts| - 1], k);
    }
  }

  const HOURS_PER_WEEK := 168
  const FEED_LIMIT := 100

  datatype Engagement = Engagement(
    totalReplies: int, totalLikes: int, totalRecasts: int, totalTips: int, hourlyEngagement: seq<int>)

  /** `getEngagementData`: the parameters of its feed request, then, on the feed it
      receives, the three reaction totals, no tips, and an all-zero week of hours. */
  method GetEngagementData(fid: int, feed: Result<seq<NeynarCast>, string>)
    returns (feedParams: Params.Params, r: Result<Engagement, string>)
    ensures feedParams == FeedParamsOf(fid, FeedOptions(Some(FEED_LIMIT), None))
    ensures feed.Failure? ==> r == Failure(feed.error)
    ensures feed.Success? ==> (
      && r.Success?
      && r.value.totalReplies == Total(feed.value, Replies)
      && r.value.totalLikes == Total(feed.value, Likes)
      && r.value.totalRecasts == Total(feed.value, Recasts)
      && r.value.totalTips == 0
      && |r.value.hourlyEngagement| == HOURS_PER_WEEK
      && forall h :: 0 <= h < |r.value.hourlyEngagement| ==> r.value.hourlyEngagement[h] == 0)
  {
    feedParams := FeedParams(fid, FeedOptions(Some(FEED_LIMIT), None));
    if feed.Failure? {
      return feedParams, Failure(feed.error);
    }
    var casts := feed.value;
    var totalReplies, totalLikes, totalRecasts, totalTips := 0, 0, 0, 0;
    for i := 0 to |casts|
      invariant totalReplies == Total(casts[..i], Replies)
      invariant totalLikes == Total(casts[..i], Likes)
      invariant totalRecasts == Total(casts[..i], Recasts)
    {
      assert casts[..i + 1][..i] == casts[..i];
      totalReplies := totalReplies + casts[i].reactions.replies;
      totalLikes := totalLikes + casts[i].reactions.likes;
      totalRecasts := totalRecasts + casts[i].reactions.recasts;
    }
    assert casts[..|casts|] == casts;
    var hourly := seq(HOURS_PER_WEEK, _ => 0);
    r := Success(Engagement(totalReplies, totalLikes, totalRecasts, totalTips, hourly));
  }

  // ---------------------------------------------------------------------------
  // `getNeynarAPI`: the lazily created shared client
  // ---------------------------------------------------------------------------

  class NeynarApi {
    const apiKey: string

    constructor(apiKey: string)
      ensures this.apiKey == apiKey
    {
      this.apiKey := apiKey;
    }
  }

  /** The module-level `neynarInstance` slot. */
  class NeynarSlot {
    var instance: Option<NeynarApi>

    /** The slot starts empty. */
    constructor()
      ensures instance == None && Valid()
    {
      instance := None;
    }

    /** A stored client always holds a non-empty key. */
    predicate Valid()
      reads this
    {
      instance.Some? ==> instance.value.apiKey != ""
    }

    /** `getNeynarAPI`, reading the environment's key only while the slot is empty:
        the first successful call stores a new client and every later call returns
        that same client. */
    method GetNeynarApi(envKey: Option<string>) returns (r: Result<NeynarApi, string>)
      requires Valid()
      modifies this
      ensures Valid()
      ensures r.Success? ==> r.value.apiKey != ""
      ensures old(instance).Some? ==> r == Success(old(instance).value) && instance == old(instance)
      ensures old(instance).None? && !TruthyString(envKey) ==> r == Failure(API_KEY_REQUIRED) && instance == None
      ensures old(instance).None? && TruthyString(envKey) ==>
        r.Success? && fresh(r.value) && r.value.apiKey == envKey.value && instance == Some(r.value)
    {
      if instance.None? {
        if !TruthyString(envKey) {
          return Failure(API_KEY_REQUIRED);
        }
        var api := new NeynarApi(envKey.value);
        instance := Some(api);
      }
      r := Success(instance.value);
    }
  }
}
