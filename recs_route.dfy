/** The collaborator-recommendation endpoint: `GET /api/collab/recs?fid=…&limit=…`.
    It validates `fid`, parses `limit` (default 10), ranks the candidate records by
    score, highest first, with a stable sort, keeps the first `limit` of them with the
    semantics of JavaScript's `slice(0, limit)`, and echoes the weight table. */
module RecsRoute {
  import opened Wrappers
  import JsNumber
  import Params
  import CollabScore

  datatype Recommendation = Recommendation(
    fid: int,
    username: string,
    displayName: string,
    avatar: string,
    score: int,
    reasons: seq<string>,
    overlap: real,
    engagementAffinity: real,
    topicSimilarity: real,
    audienceQuality: real,
    momentum: real,
    followers: int,
    verified: bool)

  datatype Algorithm = Algorithm(weights: CollabScore.Weights, version: string)

  datatype RecsResponse =
    | RecsError(status: int, error: string)
    | Recs(fid: Option<int>, recommendations: seq<Recommendation>, algorithm: Algorithm)

  const FID_REQUIRED := "fid parameter is required"

  // ---------------------------------------------------------------------------
  // Ranking: a stable sort by score, highest first
  // ---------------------------------------------------------------------------

  predicate SortedDesc(s: seq<Recommendation>) {
    forall i, j :: 0 <= i < j < |s| ==> s[i].score >= s[j].score
  }

  /** The records of `s` whose score is `v`, in the order they appear in `s`. */
  function WithScore(s: seq<Recommendation>, v: int): seq<Recommendation> {
    if s == [] then []
    else (if s[0].score == v then [s[0]] else []) + WithScore(s[1..], v)
  }

  /** Inserting `x` after every leading record whose score is at least `x.score`. */
  function InsertDesc(s: seq<Recommendation>, x: Recommendation): seq<Recommendation> {
    if s == [] then [x]
    else if s[0].score >= x.score then [s[0]] + InsertDesc(s[1..], x)
    else [x] + s
  }

  /** The reference ranking: insertion of each record, in input order, into the
      ranking of the records before it. */
  function SortDesc(xs: seq<Recommendation>): seq<Recommendation> {
    if xs == [] then []
    else InsertDesc(SortDesc(xs[..|xs| - 1]), xs[|xs| - 1])
  }

  lemma {:induction false} InsertDescSorted(s: seq<Recommendation>, x: Recommendation)
    requires SortedDesc(s)
    ensures SortedDesc(InsertDesc(s, x))
    ensures InsertDesc(s, x)[0].score == if s != [] && s[0].score >= x.score then s[0].score else x.score
  {
    if s != [] && s[0].score >= x.score {
      InsertDescSorted(s[1..], x);
      var t := InsertDesc(s[1..], x);
      assert forall k :: 0 <= k < |t| ==> t[0].score >= t[k].score;
    }
  }

  lemma {:induction false} InsertDescPermutes(s: seq<Recommendation>, x: Recommendation)
    ensures multiset(InsertDesc(s, x)) == multiset(s) + multiset{x}
  {
    if s != [] && s[0].score >= x.score {
      InsertDescPermutes(s[1..], x);
      assert s == [s[0]] + s[1..];
    }
  }

  /** The ranking holds exactly the input records. */
  lemma {:induction false} SortDescPermutes(xs: seq<Recommendation>)
    ensures multiset(SortDesc(xs)) == multiset(xs)
  {
    if xs != [] {
      SortDescPermutes(xs[..|xs| - 1]);
      InsertDescPermutes(SortDesc(xs[..|xs| - 1]), xs[|xs| - 1]);
      assert xs == xs[..|xs| - 1] + [xs[|xs| - 1]];
    }
  }

  /** The ranking is ordered by score, highest first. */
  lemma {:induction false} SortDescSorted(xs: seq<Recommendation>)
    ensures SortedDesc(SortDesc(xs))
  {
    if xs != [] {
      SortDescSorted(xs[..|xs| - 1]);
      InsertDescSorted(SortDesc(xs[..|xs| - 1]), xs[|xs| - 1]);
    }
  }

  lemma {:induction false} WithScoreAppend(a: seq<Recommendation>, b: seq<Recommendation>, v: int)
    ensures WithScore(a + b, v) == WithScore(a, v) + WithScore(b, v)
  {
    if a != [] {
      assert (a + b)[1..] == a[1..] + b;
      WithScoreAppend(a[1..], b, v);
    } else {
      assert a + b == b;
    }
  }

  lemma {:induction false} WithScoreNone(s: seq<Recommendation>, v: int)
    requires forall k :: 0 <= k < |s| ==> s[k].score != v
    ensures WithScore(s, v) == []
  {
    if s != [] {
      WithScoreNone(s[1..], v);
    }
  }

  lemma {:induction false} InsertDescWithScore(s: seq<Recommendation>, x: Recommendation, v: int)
    requires SortedDesc(s)
    ensures WithScore(InsertDesc(s, x), v) == WithScore(s, v) + (if x.score == v then [x] else [])
  {
    if s == [] {
    } else if s[0].score >= x.score {
      var t := InsertDesc(s[1..], x);
      var head := if s[0].score == v then [s[0]] else [];
      assert SortedDesc(s[1..]) by {
        forall i, j | 0 <= i < j < |s| - 1
          ensures s[1..][i].score >= s[1..][j].score
        {
          assert s[1..][i] == s[i + 1] && s[1..][j] == s[j + 1];
        }
      }
      InsertDescWithScore(s[1..], x, v);
      assert InsertDesc(s, x) == [s[0]] + t;
      assert ([s[0]] + t)[1..] == t;
      assert WithScore(InsertDesc(s, x), v) == head + WithScore(t, v);
      assert WithScore(s, v) == head + WithScore(s[1..], v);
    } else {
      assert InsertDesc(s, x) == [x] + s;
      assert ([x] + s)[1..] == s;
      if x.score == v {
        WithScoreNone(s, v);
      }
    }
  }

  /** Stability: records with equal scores keep their input order. */
  lemma {:induction false} SortDescStable(xs: seq<Recommendation>, v: int)
    ensures WithScore(SortDesc(xs), v) == WithScore(xs, v)
  {
    if xs != [] {
      var init, last := xs[..|xs| - 1], xs[|xs| - 1];
      SortDescStable(init, v);
      SortDescSorted(init);
      InsertDescWithScore(SortDesc(init), last, v);
      assert xs == init + [last];
      WithScoreAppend(init, [last], v);
      assert [last][1..] == [];
    }
  }

  lemma {:induction false} InsertDescAtEnd(s: seq<Recommendation>, x: Recommendation)
    requires forall k :: 0 <= k < |s| ==> s[k].score >= x.score
    ensures InsertDesc(s, x) == s + [x]
  {
    if s != [] {
      InsertDescAtEnd(s[1..], x);
      assert s == [s[0]] + s[1..];
    }
  }

  /** Input that is already ranked is returned unchanged. */
  lemma {:induction false} SortDescOfSorted(xs: seq<Recommendation>)
    requires SortedDesc(xs)
    ensures SortDesc(xs) == xs
  {
    if xs != [] {
      var init, last := xs[..|xs| - 1], xs[|xs| - 1];
      SortDescOfSorted(init);
      InsertDescAtEnd(init, last);
      assert xs == init + [last];
    }
  }

  lemma {:induction false} InsertDescAt(s: seq<Recommendation>, x: Recommendation, j: nat)
    requires j <= |s|
    requires forall k :: 0 <= k < j ==> s[k].score >= x.score
    requires j == |s| || s[j].score < x.score
    ensures InsertDesc(s, x) == s[..j] + [x] + s[j..]
  {
    if j > 0 {
      InsertDescAt(s[1..], x, j - 1);
      assert s[..j] == [s[0]] + s[1..][..j - 1];
      assert s[j..] == s[1..][j - 1..];
    }
  }

  /** The `.sort((a, b) => b.score - a.score)` step: a stable insertion sort. */
  method SortByScore(recs: seq<Recommendation>) returns (sorted: seq<Recommendation>)
    ensures sorted == SortDesc(recs)
  {
    sorted := [];
    for i := 0 to |recs|
      invariant sorted == SortDesc(recs[..i])
    {
      var x := recs[i];
      var j := 0;
      while j < |sorted| && sorted[j].score >= x.score
        invariant 0 <= j <= |sorted|
        invariant forall k :: 0 <= k < j ==> sorted[k].score >= x.score
      {
        j := j + 1;
      }
      InsertDescAt(sorted, x, j);
      sorted := sorted[..j] + [x] + sorted[j..];
      assert recs[..i + 1][..i] == recs[..i];
    }
    assert recs[..|recs|] == recs;
  }

  // ---------------------------------------------------------------------------
  // Truncation: `slice(0, limit)`
  // ---------------------------------------------------------------------------

  /** The end index `slice(0, end)` uses on a list of length `len`; a NaN end
      (`None`) counts as 0 and a negative one counts from the end. */
  function SliceEnd(len: nat, end: Option<int>): (r: nat)
    ensures r <= len
    ensures end.None? ==> r == 0
    ensures end.Some? && end.value >= 0 ==> r == if end.value < len then end.value else len
    ensures end.Some? && end.value < 0 ==> r == if len + end.value > 0 then len + end.value else 0
  {
    match end
    case None => 0
    case Some(e) =>
      if e < 0 then (if len + e > 0 then len + e else 0)
      else if e < len then e
      else len
  }

  function Slice(s: seq<Recommendation>, end: Option<int>): (r: seq<Recommendation>)
    ensures r == s[..SliceEnd(|s|, end)]
  {
    s[..SliceEnd(|s|, end)]
  }

  /** Sorting followed by truncation. */
  method RankAndTruncate(recs: seq<Recommendation>, limit: Option<int>) returns (top: seq<Recommendation>)
    ensures top == Slice(SortDesc(recs), limit)
  {
    var sorted := SortByScore(recs);
    top := sorted[..SliceEnd(|sorted|, limit)];
  }

  /** What the truncated ranking is: a prefix of the ranking, ordered, drawn from the
      input without duplication, of the length JavaScript's `slice` gives. */
  lemma RankedPrefix(recs: seq<Recommendation>, limit: Option<int>)
    ensures var top := Slice(SortDesc(recs), limit);
      && top <= SortDesc(recs)
      && SortedDesc(top)
      && multiset(top) <= multiset(recs)
      && (forall k :: 0 <= k < |top| ==> top[k] in recs)
      && |top| == SliceEnd(|recs|, limit)
  {
    var sorted := SortDesc(recs);
    SortDescPermutes(recs);
    assert |sorted| == |recs| by {
      assert |multiset(sorted)| == |multiset(recs)|;
    }
    var n := SliceEnd(|recs|, limit);
    SortDescSorted(recs);
    PrefixDrawnFrom(sorted, n, recs);
  }

  /** A prefix of a permutation of `recs` takes its records from `recs`, at most as
      often as they occur there. */
  lemma PrefixDrawnFrom(sorted: seq<Recommendation>, n: nat, recs: seq<Recommendation>)
    requires n <= |sorted| && multiset(sorted) == multiset(recs)
    ensures multiset(sorted[..n]) <= multiset(recs)
    ensures forall k :: 0 <= k < n ==> sorted[k] in recs
  {
    assert sorted == sorted[..n] + sorted[n..];
    assert multiset(sorted) == multiset(sorted[..n]) + multiset(sorted[n..]);
    forall k | 0 <= k < n
      ensures sorted[k] in recs
    {
      assert sorted[k] in multiset(sorted);
    }
  }

  // ---------------------------------------------------------------------------
  // The handler
  // ---------------------------------------------------------------------------

  /** `searchParams.get(name)` with `null` and `""` both falsy, as `|| '10'` and `!fid` test. */
  predicate Present(v: Option<string>) {
    v.Some? && v.value != ""
  }

  /** `parseInt(searchParams.get('limit') || '10')`. */
  function LimitOf(query: Params.Params): (r: Option<int>)
    ensures !Present(Params.Lookup(query, "limit")) ==> r == Some(10)
    ensures Present(Params.Lookup(query, "limit")) ==> r == JsNumber.ParseInt(Params.Lookup(query, "limit").value)
  {
    var v := Params.Lookup(query, "limit");
    JsNumber.ParseIntTen();
    JsNumber.ParseInt(if Present(v) then v.value else "10")
  }

  /** The weight table the response echoes; it is written out again in the handler. */
  function EchoedWeights(): (w: CollabScore.Weights)
    ensures w == CollabScore.CollabScoreWeights()
    ensures w.overlap + w.engagementAffinity + w.topicSimilarity + w.audienceQuality + w.momentum == 1.0
  {
    CollabScore.Weights(0.35, 0.20, 0.20, 0.15, 0.10)
  }

  const VERSION := "1.0"

  /** `GET`, ranking the fixed candidate list. */
  method Get(query: Params.Params) returns (resp: RecsResponse)
    ensures !Present(Params.Lookup(query, "fid")) ==> resp == RecsError(400, FID_REQUIRED)
    ensures Present(Params.Lookup(query, "fid")) ==>
      resp == Recs(JsNumber.ParseInt(Params.Lookup(query, "fid").value),
                   Slice(SortDesc(MockRecommendations()), LimitOf(query)),
                   Algorithm(CollabScore.CollabScoreWeights(), VERSION))
  {
    var fid := Params.Lookup(query, "fid");
    var limit := LimitOf(query);
    if !Present(fid) {
      return RecsError(400, FID_REQUIRED);
    }
    var top := RankAndTruncate(MockRecommendations(), limit);
    resp := Recs(JsNumber.ParseInt(fid.value), top, Algorithm(EchoedWeights(), VERSION));
  }

  function Avatar(seed: string): string {
    "https://api.dicebear.com/7.x/avataaars/svg?seed=" + seed
  }

  /** The fixed candidate list the handler ranks. */
  function MockRecommendations(): (r: seq<Recommendation>)
    ensures |r| == 5
  {
    [ Recommendation(1234, "alice.eth", "Alice Crypto", Avatar("alice"), 87,
        ["12% shared followers", "High overlap in /music channel", "Peak hours align Wed 18-21h",
         "Similar engagement patterns", "Complementary audience demographics"],
        0.12, 0.76, 0.68, 0.82, 0.45, 15420, true),
      Recommendation(5678, "bob.nft", "Bob the Builder", Avatar("bob"), 76,
        ["8% shared followers", "Similar engagement patterns", "Both active in /tech",
         "Different time zones (good for 24/7 coverage)", "High audience quality score"],
        0.08, 0.72, 0.75, 0.78, 0.52, 8920, false),
      Recommendation(9012, "carol.web3", "Carol Creator", Avatar("carol"), 65,
        ["5% shared followers", "Complementary audience", "Different time zones",
         "High engagement rate", "Growing momentum"],
        0.05, 0.58, 0.45, 0.85, 0.68, 23450, true),
      Recommendation(3456, "dave.defi", "Dave DeFi", Avatar("dave"), 58,
        ["6% shared followers", "Strong DeFi community overlap", "Similar posting frequency",
         "High tip engagement", "Verified creator"],
        0.06, 0.64, 0.82, 0.71, 0.38, 12500, true),
      Recommendation(7890, "eve.art", "Eve Artist", Avatar("eve"), 52,
        ["4% shared followers", "Art community crossover", "Different content style (complementary)",
         "High visual engagement", "Growing NFT audience"],
        0.04, 0.45, 0.35, 0.88, 0.72, 8900, false) ]
  }

  /** The fixed list is already ranked, so with the default limit the handler returns
      all five records in their written order. */
  lemma MockRankedByDefault(query: Params.Params)
    requires !Present(Params.Lookup(query, "limit"))
    ensures Slice(SortDesc(MockRecommendations()), LimitOf(query)) == MockRecommendations()
  {
    MockSorted();
    SortDescOfSorted(MockRecommendations());
  }

  /** The fixed list is already in descending score order. */
  lemma MockSorted()
    ensures SortedDesc(MockRecommendations())
  {
    var m := MockRecommendations();
    assert m[0].score == 87 && m[1].score == 76 && m[2].score == 65;
    assert m[3].score == 58 && m[4].score == 52;
    SortedOfFiveScores(m);
  }

  lemma SortedOfFiveScores(m: seq<Recommendation>)
    requires |m| == 5 && m[0].score >= m[1].score >= m[2].score >= m[3].score >= m[4].score
    ensures SortedDesc(m)
  {
  }
}
