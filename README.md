# Creator collaboration hub — a Dafny model of its scoring and routes

This project models the core of a Farcaster "creator growth" web app in Dafny and
proves properties of the model. The app has two parts: a root app and a mini app.
The modelled core is:

- **The collaborator score** (`lib/collabScore.ts`).
  - A weighted sum of five similarity signals, rounded to a whole number.
  - Reasons admitted by thresholds.
  - The signal calculators:
    - set Jaccard (follower overlap);
    - vector cosine (engagement affinity);
    - word-set Jaccard (topic similarity);
    - momentum.
- **The recommendation endpoint** (`app/api/collab/recs/route.ts`).
  - Validates `fid` and parses `limit` with `parseInt`.
  - Ranks the fixed candidate list by score with a stable sort.
  - Keeps `slice(0, limit)` of the ranking.
  - Echoes the weight table.
- **The Farcaster graph client** (`lib/neynar.ts`).
  - The shared error rule of every request.
  - The query parameters each call builds, one assignment per truthy option.
  - The comma-joined `fids` of the bulk call.
  - The follower-set logic of the mutual-follower and overlap calls. Distinct values are taken in first-appearance order, then filtered.
  - The engagement totals loop.
  - The lazily created shared client. This is a class holding the module-level slot.
- **The auth routes.**
  - The two `GET /api/auth/session` handlers.
    - Each takes the `session` cookie through the regular expression `(?:^|; )session=([^;]+)`, `decodeURIComponent` and `JSON.parse`.
    - The root app keeps five profile fields; the mini app returns the whole parsed value.
  - The OAuth callback.
    - The `state` check against the URI-decoded `oauth_state` cookie.
    - The five `URLSearchParams.set` calls of the code exchange.
    - The redirect that sets the session cookie and clears the state cookie.
- **The two `POST /api/collab/invite` handlers.**
  - They build Warpcast composer links.
  - The root app builds its link with `encodeURIComponent`; the mini app uses `URLSearchParams.set`.

The JavaScript runtime behaviour these handlers rely on is modelled concretely. Each part is in its own module:

- `parseInt` with no radix (`JsNumber`). It trims leading white space, accepts a sign, reads a `0x` prefix as base 16, takes the longest digit prefix, and gives NaN as `None`.
- `Math.round` and `String(n)` (`JsNumber`).
- `toLowerCase` restricted to ASCII, `split(/\s+/)`, `split(',')` and `join` (`JsString`).
- `encodeURIComponent` and the `application/x-www-form-urlencoded` serializer, both over UTF-8 with upper-case hex (`PercentEncoding`).
- The matching decoders (`PercentDecoding`).
- JavaScript truthiness, property access and `String(v)` on parsed JSON (`Json`).
- The ordered name/value lists behind `Record<string, string>` and `URLSearchParams` (`Params`).

How the model is built:

- Pure source functions are Dafny functions with lemmas.
- Code that works step by step is modelled as methods proved against a reference function:
  - the reason pushes;
  - the cosine accumulation loop;
  - the sort;
  - the parameter assignments;
  - the engagement loop;
  - the form `set` calls.
- The singleton is a class whose method updates the slot.
- I/O is replaced by parameters:
  - HTTP replies and the token endpoint's outcome are given values;
  - `JSON.parse` and `Math.sqrt` are given functions, each with the contract the runtime promises;
  - environment variables are optional strings.

Facts about the code worth knowing when reading the model:

- **Momentum.** `calculateMomentum` returns 0 when previous engagement is 0, whatever the recent engagement (`collabScore.ts` line 128).
- **Reason thresholds.** The reasons are tested at 0.1 (shared followers), 0.7, 0.6, 0.8 and 0.5, and a sixth "channels" reason at 0.05 (`collabScore.ts` lines 44-67).
- **Audience quality.** The code has no default for an absent audience quality; the signal is always a number.
- **Sources of data.** The recommendation endpoint ranks a fixed mock list (`recs/route.ts` lines 23-129).

## Model

| member | source | states |
|---|---|---|
| CollabScore.CollabScoreWeights | my-minikit-app/lib/collabScore.ts:21-27 | the five weights are positive and sum to exactly 1 |
| CollabScore.CalculateCollabScore | my-minikit-app/lib/collabScore.ts:29-80 | score is the rounded 100·weighted sum; reasons are the reasons whose thresholds hold, in evaluation order; each breakdown entry is the rounded percentage of its signal |
| CollabScore.CollectReasons | my-minikit-app/lib/collabScore.ts:41-67 | the six conditional pushes build exactly the selection of reason texts whose tests hold |
| CollabScore.ScoreInRange | my-minikit-app/lib/collabScore.ts:33-39 | with every signal in [0, 1] the rounded score lies in [0, 100] |
| CollabScore.ScoreMonotone | my-minikit-app/lib/collabScore.ts:33-39 | raising any signals never lowers the rounded score |
| CollabScore.SharedFollowersReasonIsDistinct | my-minikit-app/lib/collabScore.ts:44-67 | the "N% shared followers" text differs from each fixed reason text |
| CollabScore.ReasonTextsDistinct | my-minikit-app/lib/collabScore.ts:44-67 | the six candidate reason texts are pairwise different |
| CollabScore.ReasonsExactly | my-minikit-app/lib/collabScore.ts:44-67 | each reason is present if and only if its threshold test holds |
| CollabScore.ReasonsShape | my-minikit-app/lib/collabScore.ts:41-67 | at most six reasons, none repeated, in the fixed evaluation order |
| CollabScore.WideOverlapGivesBothReasons | my-minikit-app/lib/collabScore.ts:44-67 | an overlap of at least 0.1 yields the percentage reason first and the channels reason last |
| CollabScore.JaccardCardinalities | my-minikit-app/lib/collabScore.ts:83-87 | the intersection is no larger than the union, and as large exactly when the sets are equal |
| CollabScore.Jaccard | my-minikit-app/lib/collabScore.ts:83-87 | the quotient lies in [0, 1], is 1 exactly for equal sets and 0 exactly for disjoint ones |
| CollabScore.JaccardSymmetric | my-minikit-app/lib/collabScore.ts:83-87 | the Jaccard similarity does not depend on argument order |
| CollabScore.CalculateCosineSimilarity | my-minikit-app/lib/collabScore.ts:90-108 | the accumulation loop returns the reference cosine: the length error, 0 for a zero vector, else dot / (‖a‖·‖b‖) |
| CollabScore.CosineValue | my-minikit-app/lib/collabScore.ts:105-107 | for non-zero vectors of equal length the divisor is positive and the result is the quotient |
| CollabScore.RootProduct | my-minikit-app/lib/collabScore.ts:107 | both roots of non-zero squared norms, and their product, are positive |
| CollabScore.NormNonNegative | my-minikit-app/lib/collabScore.ts:101-102 | a squared norm is never negative |
| CollabScore.NormZeroIff | my-minikit-app/lib/collabScore.ts:105 | the squared norm is 0 if and only if every entry is 0 |
| CollabScore.DotSymmetric | my-minikit-app/lib/collabScore.ts:100 | the dot product does not depend on argument order |
| CollabScore.CosineSymmetric | my-minikit-app/lib/collabScore.ts:90-108 | the cosine result, error included, does not depend on argument order |
| CollabScore.CosineSelf | my-minikit-app/lib/collabScore.ts:90-108 | a non-zero vector has similarity exactly 1 with itself |
| CollabScore.CosineWithZero | my-minikit-app/lib/collabScore.ts:105 | a zero vector has similarity 0 with any vector of its length |
| CollabScore.CauchySchwarz | my-minikit-app/lib/collabScore.ts:99-103 | the squared dot product is at most the product of the squared norms |
| CollabScore.DotBoundedByNorms | my-minikit-app/lib/collabScore.ts:107 | the dot product lies between −‖a‖·‖b‖ and ‖a‖·‖b‖ |
| CollabScore.CosineBounded | my-minikit-app/lib/collabScore.ts:107 | every cosine similarity lies in [−1, 1] |
| CollabScore.TopicSimilarity | my-minikit-app/lib/collabScore.ts:111-121 | the word-set Jaccard lies in [0, 1]; the union is never empty because splitting always yields a piece |
| CollabScore.TopicSimilaritySelf | my-minikit-app/lib/collabScore.ts:111-121 | any text, the empty one included, has topic similarity 1 with itself |
| CollabScore.TopicSimilaritySymmetric | my-minikit-app/lib/collabScore.ts:111-121 | topic similarity does not depend on argument order |
| CollabScore.TopicSimilarityIgnoresCase | my-minikit-app/lib/collabScore.ts:114-115 | lower-casing an argument first does not change the result |
| CollabScore.CalculateMomentum | my-minikit-app/lib/collabScore.ts:124-131 | the result lies in [0, 1]; it is 0 when previous engagement is 0, and 0.5 when engagement did not change |
| CollabScore.MomentumClosedForm | my-minikit-app/lib/collabScore.ts:128-130 | away from zero, momentum is recent / (2·previous) clamped to [0, 1] |
| CollabScore.MomentumMonotone | my-minikit-app/lib/collabScore.ts:124-131 | with positive previous engagement, more recent engagement never lowers momentum |
| JsNumber.Round | my-minikit-app/lib/collabScore.ts:70 | `Math.round` gives the integer within one half below and above |
| JsNumber.RoundMonotone | my-minikit-app/lib/collabScore.ts:70 | rounding preserves order |
| JsNumber.IntToString | my-minikit-app/lib/collabScore.ts:45 | the decimal text is non-empty, digits with a leading `-` exactly for negatives |
| JsNumber.ParseInt | my-minikit-app/app/api/collab/recs/route.ts:7 | `parseInt` is NaN exactly when no digit of the selected radix follows the leading white space, one optional sign and an optional `0x`/`0X`; otherwise it is the value of the longest digit run, negated after a `-` |
| JsNumber.ParseSigned | my-minikit-app/app/api/collab/recs/route.ts:7 | after the white space: NaN exactly when no digit follows the sign and prefix; a `-` negates the digits' value and a `+` is skipped |
| JsNumber.ParseMagnitude | my-minikit-app/app/api/collab/recs/route.ts:7 | after the sign: `0x`/`0X` selects base 16; NaN exactly when no digit of that base follows; otherwise the longest digit run's value |
| JsNumber.ParseIntOfIntToString | my-minikit-app/app/api/collab/recs/route.ts:137 | `parseInt(String(n))` is n |
| JsNumber.ParseIntOfIntToStringThen | my-minikit-app/lib/neynar.ts:59 | `parseInt` reads n back from its decimal text followed by any non-digit text |
| JsNumber.ParseIntTen | my-minikit-app/app/api/collab/recs/route.ts:7 | the default `'10'` parses to 10 |
| JsNumber.ParseIntStopsAtNonDigit | my-minikit-app/app/api/collab/recs/route.ts:7 | `parseInt("-7px")` is −7 |
| JsNumber.ParseIntHexPrefix | my-minikit-app/app/api/collab/recs/route.ts:7 | `parseInt("0x1A")` is 26 |
| JsNumber.ParseIntNoDigits | my-minikit-app/app/api/collab/recs/route.ts:7 | text starting with no space, sign or digit parses to NaN |
| JsNumber.ParseIntOfWord | my-minikit-app/app/api/collab/recs/route.ts:7 | `parseInt("abc")` is NaN |
| JsString.ToLowerAscii | my-minikit-app/lib/collabScore.ts:114 | each character is lower-cased in place, and the length is kept |
| JsString.ToLowerAsciiIdempotent | my-minikit-app/lib/collabScore.ts:114 | lower-casing twice equals lower-casing once |
| JsString.SplitWhitespace | my-minikit-app/lib/collabScore.ts:114 | `split(/\s+/)` yields at least one piece, and no piece contains white space |
| JsString.SplitWhitespaceKeepsText | my-minikit-app/lib/collabScore.ts:114 | the pieces put back together are the text without its white space |
| JsString.WordSet | my-minikit-app/lib/collabScore.ts:114-115 | the word set of any text is non-empty |
| JsString.FirstIndexOf | app/api/auth/session/route.ts:3 | the index of the first separator, or the length when there is none |
| JsString.SplitOnJoin | my-minikit-app/lib/neynar.ts:128 | splitting a joined list on its separator, when no element contains it, gives the list back |
| PercentEncoding.EncodeUriComponent | my-minikit-app/app/api/auth/callback/route.ts:44 | the output holds only unreserved characters, `%` and upper-case hex digits |
| PercentEncoding.FormEncode | my-minikit-app/app/api/auth/callback/route.ts:17 | the output holds only form-safe characters, `+`, `%` and upper-case hex digits |
| PercentEncoding.Utf8 | my-minikit-app/app/api/auth/callback/route.ts:44 | one to four bytes, a single byte exactly for ASCII |
| PercentEncoding.PercentBytes | my-minikit-app/app/api/auth/callback/route.ts:44 | three characters per byte: `%` and two upper-case hex digits |
| PercentEncoding.EncodeUriComponentOfUnreserved | my-minikit-app/app/api/auth/callback/route.ts:44 | unreserved text is left unchanged |
| PercentEncoding.FormEncodeOfSafe | my-minikit-app/app/api/collab/invite/route.ts:8 | form-safe text is left unchanged |
| PercentEncoding.EncodeUriComponentAppend | my-minikit-app/app/api/auth/callback/route.ts:44 | encoding distributes over concatenation |
| PercentEncoding.EncodeReservedAscii | my-minikit-app/app/api/auth/callback/route.ts:44 | a reserved ASCII character becomes `%` and its two hex digits |
| PercentDecoding.HexValue | app/api/auth/session/route.ts:6 | a hex digit of either case has a value below 16 |
| PercentDecoding.DecodeUtf8 | app/api/auth/session/route.ts:6 | a decoded character is one whose UTF-8 encoding is exactly the bytes |
| PercentDecoding.EscapedBytesOfPercentBytes | app/api/auth/session/route.ts:6 | escaped bytes written by the encoder read back as the same bytes |
| PercentDecoding.CodePointOfUtf8 | app/api/auth/session/route.ts:6 | the payload bits of a UTF-8 encoding spell the character |
| PercentDecoding.DecodeUtf8OfUtf8 | app/api/auth/session/route.ts:6 | UTF-8 decoding undoes UTF-8 encoding |
| PercentDecoding.DecodeEncodeUriComponent | app/api/auth/session/route.ts:6 | `decodeURIComponent(encodeURIComponent(s))` is s, and so is form decoding of it |
| PercentDecoding.FormDecodeEncode | my-minikit-app/app/api/collab/invite/route.ts:8 | form decoding undoes form encoding |
| Params.Names | my-minikit-app/app/api/auth/callback/route.ts:7-12 | the names of the entries, in order |
| Params.Lookup | my-minikit-app/app/api/collab/recs/route.ts:6 | `get(name)` has a value exactly when the name is present |
| Params.Put | my-minikit-app/app/api/auth/callback/route.ts:8-12 | assigning keeps a present name in place and appends a new one |
| Params.PutLookup | my-minikit-app/app/api/auth/callback/route.ts:8-12 | after an assignment the name reads back as the new value and every other name as before |
| Params.PutKeepsOthers | my-minikit-app/lib/neynar.ts:82-85 | an assignment changes the lookup of no other name |
| Params.PutNew | my-minikit-app/lib/neynar.ts:82-85 | assigning an absent name appends exactly one entry |
| Params.PutKeepsUnique | my-minikit-app/app/api/auth/callback/route.ts:8-12 | assignments never create a second entry with the same name |
| Params.SerializeSingle | my-minikit-app/lib/neynar.ts:44-49 | a one-entry list needing no encoding serializes as `name=value` |
| Params.LookupAt | my-minikit-app/app/api/auth/callback/route.ts:8-12 | the value read for a name is the one of its first entry |
| Json.Field | app/api/auth/session/route.ts:10-14 | a property is defined exactly on an object holding that key |
| Cookies.FirstMatch | app/api/auth/session/route.ts:3 | the leftmost position at which the cookie pattern matches, if any |
| Cookies.RunFrom | app/api/auth/session/route.ts:3 | the captured group has no `;` and runs to the next `;` or the end |
| Cookies.CookieValue | app/api/auth/session/route.ts:3 | there is no value exactly when the pattern matches nowhere |
| Cookies.CookieValueShape | app/api/auth/session/route.ts:3 | the value is non-empty and free of `;`; it follows `name=` at the start or after `"; "`, comes from the leftmost match, and ends at `;` or the end |
| Cookies.MatchShape | app/api/auth/session/route.ts:3 | a match spells the `"; "` boundary (unless at the start), the name and `=` |
| Cookies.FirstEntry | app/api/auth/session/route.ts:3 | a header that starts with `name=value` gives that value |
| Cookies.NoMatchInsideName | app/api/auth/session/route.ts:3 | `xsession=…` does not count as the session cookie |
| Cookies.NoMatchWithoutSpace | app/api/auth/session/route.ts:3 | a `;` without the following space is no boundary |
| AppSessionRoute.Get | app/api/auth/session/route.ts:1-19 | no match gives unauthenticated; authenticated exactly when decoding and parsing succeed on a non-null value; then the five profile fields |
| AppSessionRoute.NoHeaderNoSession | app/api/auth/session/route.ts:2-4 | without a cookie header nobody is authenticated |
| AppSessionRoute.OnlyProfileFields | app/api/auth/session/route.ts:8-15 | parsed objects that agree on the five fields give the same response |
| MinikitSessionRoute.Get | my-minikit-app/app/api/auth/session/route.ts:1-12 | authenticated exactly when decoding and parsing succeed, returning the parsed value |
| MinikitSessionRoute.RoutesAgree | my-minikit-app/app/api/auth/session/route.ts:1-12 | the two session routes agree, except for a cookie parsing to `null`, which only the mini app accepts |
| OAuthCallback.OrElse | my-minikit-app/app/api/auth/callback/route.ts:2-5 | `v \|\| fallback`: a non-empty value, otherwise the fallback |
| OAuthCallback.ExchangeForm | my-minikit-app/app/api/auth/callback/route.ts:7-12 | the five `set` calls build the five-field form in order |
| OAuthCallback.Set | my-minikit-app/app/api/auth/callback/route.ts:8-12 | setting a new name appends it |
| OAuthCallback.ExchangeFormUnique | my-minikit-app/app/api/auth/callback/route.ts:7-12 | no form field is set twice |
| OAuthCallback.ExchangeFormFields | my-minikit-app/app/api/auth/callback/route.ts:7-12 | each field reads back as the value the code sets, with unset variables as `''` |
| OAuthCallback.CookieState | my-minikit-app/app/api/auth/callback/route.ts:28-30 | an absent `oauth_state` cookie gives `''` |
| OAuthCallback.AppendSetCookies | my-minikit-app/app/api/auth/callback/route.ts:42-47 | appending to an immutable header list throws at the first value; a mutable one ends with the values appended in order |
| OAuthCallback.RedirectWithCookies | my-minikit-app/app/api/auth/callback/route.ts:41-50 | with mutable headers, a 302 to the location carrying the cookie values; with immutable headers, the `catch`'s 500 "OAuth callback failed" |
| OAuthCallback.Handle | my-minikit-app/app/api/auth/callback/route.ts:24-52 | a throwing decode escapes the handler; the exchange happens exactly when code and state are present and the state equals the cookie, posting the five-field form of `exchangeCodeForToken` serialized to the token URL; otherwise 400; a failed exchange gives 500; a successful one gives the redirect tail for the headers' guard |
| OAuthCallback.GetAsWritten | my-minikit-app/app/api/auth/callback/route.ts:24-52 | the handler as written: the state check and exchange as in `Handle`, and every request that reaches the exchange answered 500, since the append on `Response.redirect`'s immutable headers throws; it never redirects |
| OAuthCallback.Get | my-minikit-app/app/api/auth/callback/route.ts:24-52 | the handler as intended: as `Handle`, and a successful exchange redirects to the public URL (`'/'` when unset) with the session cookie and then the state-clearing cookie |
| OAuthCallback.AcceptedRequest | my-minikit-app/app/api/auth/callback/route.ts:26-34 | a request with code `c`, state `s` and cookie `oauth_state=s`, answered 200 with JSON by the token endpoint, passes the state check and has a successful exchange |
| OAuthCallback.SessionJsonEscapes | my-minikit-app/app/api/auth/callback/route.ts:44 | `{`, `"`, `:` and `}` are escaped as `%7B`, `%22`, `%3A` and `%7D` |
| OAuthCallback.SessionJsonEncoded | my-minikit-app/app/api/auth/callback/route.ts:44 | `encodeURIComponent('{"oauth":true}')` escapes the braces, quotes and colon and keeps the words |
| OAuthCallback.SessionCookieReadsBack | my-minikit-app/app/api/auth/callback/route.ts:44 | the session routes' cookie pattern reads the whole encoded session back from the cookie set here |
| OAuthCallback.SessionReachesSessionRoute | my-minikit-app/app/api/auth/callback/route.ts:44 | the cookie set here, decoded by the session routes, gives `JSON.parse` the session text unchanged |
| RecsRoute.InsertDescSorted | my-minikit-app/app/api/collab/recs/route.ts:132-133 | inserting into a descending ranking keeps it descending |
| RecsRoute.InsertDescPermutes | my-minikit-app/app/api/collab/recs/route.ts:132-133 | insertion adds exactly the inserted record |
| RecsRoute.SortDescPermutes | my-minikit-app/app/api/collab/recs/route.ts:132-133 | the ranking is a permutation of the input |
| RecsRoute.SortDescSorted | my-minikit-app/app/api/collab/recs/route.ts:132-133 | the ranking is ordered by score, highest first |
| RecsRoute.SortDescStable | my-minikit-app/app/api/collab/recs/route.ts:132-133 | records of equal score keep their input order |
| RecsRoute.SortDescOfSorted | my-minikit-app/app/api/collab/recs/route.ts:132-133 | input already ranked is returned unchanged |
| RecsRoute.WithScoreAppend | my-minikit-app/app/api/collab/recs/route.ts:132-133 | the records of one score in a concatenation are those of each part in turn |
| RecsRoute.InsertDescWithScore | my-minikit-app/app/api/collab/recs/route.ts:132-133 | insertion places the new record after every earlier record of its score |
| RecsRoute.InsertDescAt | my-minikit-app/app/api/collab/recs/route.ts:132-133 | the insertion point is after the leading records scoring at least as much |
| RecsRoute.SortByScore | my-minikit-app/app/api/collab/recs/route.ts:132-133 | the sort loop computes the reference stable descending ranking |
| RecsRoute.SliceEnd | my-minikit-app/app/api/collab/recs/route.ts:134 | `slice(0, end)`: NaN counts as 0, a negative end counts from the back, a large one is capped at the length |
| RecsRoute.Slice | my-minikit-app/app/api/collab/recs/route.ts:134 | the slice is the prefix up to that end |
| RecsRoute.RankAndTruncate | my-minikit-app/app/api/collab/recs/route.ts:132-134 | sorting then slicing gives the prefix of the reference ranking |
| RecsRoute.RankedPrefix | my-minikit-app/app/api/collab/recs/route.ts:132-134 | the response list is a descending prefix of the ranking, drawn from the input without duplication, of `slice`'s length |
| RecsRoute.PrefixDrawnFrom | my-minikit-app/app/api/collab/recs/route.ts:132-134 | a prefix of a permutation takes its records from the input, no more often than they occur |
| RecsRoute.LimitOf | my-minikit-app/app/api/collab/recs/route.ts:7 | a missing or empty `limit` gives 10, otherwise `parseInt` of it |
| RecsRoute.EchoedWeights | my-minikit-app/app/api/collab/recs/route.ts:139-148 | the echoed table equals the score weights, which sum to 1 |
| RecsRoute.Get | my-minikit-app/app/api/collab/recs/route.ts:3-149 | a missing or empty `fid` gives 400; otherwise the parsed fid, the truncated ranking of the fixed list, and the weights with version "1.0" |
| RecsRoute.MockRecommendations | my-minikit-app/app/api/collab/recs/route.ts:23-129 | the fixed list has five records |
| RecsRoute.MockSorted | my-minikit-app/app/api/collab/recs/route.ts:23-129 | the fixed list is already in descending score order |
| RecsRoute.MockRankedByDefault | my-minikit-app/app/api/collab/recs/route.ts:23-134 | with the default limit all five records come back in their written order |
| Neynar.Request | my-minikit-app/lib/neynar.ts:43-63 | success if and only if the status is 2xx, with the body; otherwise the error names the status and status text |
| Neynar.RequestErrorNamesStatus | my-minikit-app/lib/neynar.ts:58-60 | `parseInt` reads the status back from the error text after its prefix |
| Neynar.UserUrlAsParams | my-minikit-app/lib/neynar.ts:66-68 | the hand-written `?fid=` query equals the URL built from a `{ fid }` parameter list, and the fid parses back |
| Neynar.QueryInEndpoint | my-minikit-app/lib/neynar.ts:44-49 | one form-safe parameter written into the endpoint gives the URL of the parameter list |
| Neynar.NumberEntry | my-minikit-app/lib/neynar.ts:82 | a numeric option contributes at most one entry |
| Neynar.StringEntry | my-minikit-app/lib/neynar.ts:85 | a string option contributes at most one entry |
| Neynar.SortEntry | my-minikit-app/lib/neynar.ts:83 | the sort option contributes at most one entry |
| Neynar.FollowParams | my-minikit-app/lib/neynar.ts:80-85 | the assignments build `fid` followed by each truthy option in the order tested |
| Neynar.AssignLimitAndSort | my-minikit-app/lib/neynar.ts:82-83 | the first two assignments append the limit and sort entries |
| Neynar.AssignViewerAndCursor | my-minikit-app/lib/neynar.ts:84-85 | the last two assignments append the viewer and cursor entries |
| Neynar.FeedParams | my-minikit-app/lib/neynar.ts:118-121 | the feed assignments build `fid`, then limit and cursor when truthy |
| Neynar.AssignNumber | my-minikit-app/lib/neynar.ts:82 | a truthy number is assigned as its decimal text, otherwise nothing changes |
| Neynar.AssignString | my-minikit-app/lib/neynar.ts:85 | a non-empty string is assigned, otherwise nothing changes |
| Neynar.AssignSortType | my-minikit-app/lib/neynar.ts:83 | a present sort type is assigned by name |
| Neynar.LookupEntries | my-minikit-app/lib/neynar.ts:80-85 | a lookup through `fid` and four optional entries finds the first entry with the name |
| Neynar.FollowParamsLookup | my-minikit-app/lib/neynar.ts:80-85 | `fid` is always sent; each option is sent exactly when truthy, so 0 and `''` are omitted |
| Neynar.FeedParamsLookup | my-minikit-app/lib/neynar.ts:118-121 | `fid` is always sent; limit and cursor exactly when truthy |
| Neynar.FidStrings | my-minikit-app/lib/neynar.ts:128 | each fid's decimal text, in order |
| Neynar.BulkUsersFidsRoundTrip | my-minikit-app/lib/neynar.ts:127-130 | splitting the `fids` parameter on `,` gives one part per fid, and each part parses back to its fid |
| Neynar.Fids | my-minikit-app/lib/neynar.ts:139-140 | `users.map(u => u.fid)` |
| Neynar.Unique | my-minikit-app/lib/neynar.ts:139 | the distinct values of the list, each once |
| Neynar.Filter | my-minikit-app/lib/neynar.ts:142 | the elements kept are exactly those in both the list and the set |
| Neynar.FilterDistinct | my-minikit-app/lib/neynar.ts:142 | filtering keeps a list duplicate-free |
| Neynar.IndexOf | my-minikit-app/lib/neynar.ts:139 | the position of the first occurrence |
| Neynar.UniqueOrder | my-minikit-app/lib/neynar.ts:139 | `[...new Set(s)]` lists values in order of first appearance |
| Neynar.OrderAppendSource | my-minikit-app/lib/neynar.ts:139 | appending to the source keeps the order of what was listed |
| Neynar.OrderAppendNew | my-minikit-app/lib/neynar.ts:139 | a value new to the source goes last |
| Neynar.FilterOrder | my-minikit-app/lib/neynar.ts:142 | filtering keeps the first-appearance order |
| Neynar.HeadBeforeFiltered | my-minikit-app/lib/neynar.ts:142 | the head of an ordered list precedes everything kept from its tail |
| Neynar.OrderTail | my-minikit-app/lib/neynar.ts:142 | dropping the first element keeps the order |
| Neynar.OrderCons | my-minikit-app/lib/neynar.ts:142 | an element that comes first in the source may go in front |
| Neynar.MutualFidsSpec | my-minikit-app/lib/neynar.ts:139-142 | the mutual fids are exactly those in both lists, each once, in first-list order |
| Neynar.GetMutualFollowers | my-minikit-app/lib/neynar.ts:133-147 | no mutual fid means no bulk request and `[]`; otherwise the bulk request for the mutual fids and its outcome |
| Neynar.SetOfLength | my-minikit-app/lib/neynar.ts:161-162 | a set built from a list is no larger than the list, and as large for a duplicate-free list |
| Neynar.CalculateOverlap | my-minikit-app/lib/neynar.ts:150-173 | the shared count is the intersection size; the quotient is the Jaccard of the sets, and NaN exactly when both lists are empty; the totals are the raw list lengths |
| Neynar.OverlapBounds | my-minikit-app/lib/neynar.ts:161-171 | raw lengths ≥ distinct counts ≥ shared count, which equals the number of mutual fids |
| Neynar.TotalAppend | my-minikit-app/lib/neynar.ts:191-196 | the totals add up over concatenated feeds |
| Neynar.TotalNonNegative | my-minikit-app/lib/neynar.ts:191-196 | non-negative counts give a non-negative total |
| Neynar.GetEngagementData | my-minikit-app/lib/neynar.ts:176-209 | the feed request asks for 100 casts; a failed feed propagates; otherwise the three reaction totals, no tips, and 168 zero hours |
| Neynar.NeynarApi.constructor | my-minikit-app/lib/neynar.ts:39-41 | the client stores the given key |
| Neynar.NeynarSlot.constructor | my-minikit-app/lib/neynar.ts:213 | the slot starts empty |
| Neynar.NeynarSlot.GetNeynarApi | my-minikit-app/lib/neynar.ts:215-224 | a filled slot returns its client unchanged; an empty slot with no key fails and stays empty; otherwise a new client with the key is stored and returned; a returned client always holds a non-empty key |
| AppInviteRoute.MessageOrDefault | app/api/collab/invite/route.ts:16 | a truthy message is used as its string, any falsy one gives the default sentence |
| AppInviteRoute.InviteTextParts | app/api/collab/invite/route.ts:16 | the text is the greeting naming the target, exactly the message, then the hashtags |
| AppInviteRoute.Post | app/api/collab/invite/route.ts:3-31 | a null or unparsable body gives 500; a falsy fid or username gives 400; otherwise success with the encoded composer link |
| AppInviteRoute.DeepLinkCarriesText | app/api/collab/invite/route.ts:15-17 | the link's `text` value has no `&` or `#`, and decoding it gives the composed text |
| AppInviteRoute.EncodedValueReadsBack | app/api/collab/invite/route.ts:15-17 | an `encodeURIComponent` value after a prefix is one query value that decodes back |
| MinikitInviteRoute.Recipient | my-minikit-app/app/api/collab/invite/route.ts:4 | `@username` when truthy, else `fid:N` when the fid is truthy, else `a creator` |
| MinikitInviteRoute.Message | my-minikit-app/app/api/collab/invite/route.ts:5 | a truthy text as given, otherwise the default sentence naming the recipient and ending with the base URL |
| MinikitInviteRoute.Post | my-minikit-app/app/api/collab/invite/route.ts:7-9 | the URL is the composer URL with the single form-encoded `text` parameter |
| MinikitInviteRoute.TextQuerySerialized | my-minikit-app/app/api/collab/invite/route.ts:8 | `set('text', m)` on an empty query serializes to `text=` and the encoded message |
| MinikitInviteRoute.ComposerTextReadsBack | my-minikit-app/app/api/collab/invite/route.ts:7-9 | the URL has exactly one query parameter, named `text`, and its value decodes to the message |
| MinikitInviteRoute.TextUrlReadsBack | my-minikit-app/app/api/collab/invite/route.ts:7-9 | any prefix followed by `text=` and an encoded message reads back as that message |
| MinikitInviteRoute.TextQuery | my-minikit-app/app/api/collab/invite/route.ts:8 | `text=<value>` with no `&` in the value is one pair, named `text` |

## Left out

- HTTP itself is not modelled: requests, `fetch`, headers, `NextResponse`/`Response.json`, `cache` and the `Content-Type` headers. Replies are given values, and responses are datatypes.
- `Promise.all` and asynchrony are not modelled. When both follower calls fail, which error is reported is not modelled; the follower lists are given.
- Console logging in the catch blocks has no effect on the result and is not modelled.
- `new URL(request.url)` is not modelled: parsing, normalisation, and duplicate query names. The query is given as an already-parsed name/value list whose `get` returns the first entry.
- `Response.redirect` is modelled only through the guard of its headers. Whether a relative location such as `'/'` is accepted is runtime-specific; the model returns the location as given.
- OAuthCallback.Get: it models the intended redirect. Under the Fetch standard the `append` at `callback/route.ts` line 42 throws, so a conforming runtime answers as OAuthCallback.GetAsWritten does (see "## Findings").
- The recommendation endpoint's `try/catch` 500 answer is not modelled: nothing inside its `try` can throw in the model.
- `getEngagementData`'s `days` parameter is unused by the source and not modelled.
- `JSON.parse`, `request.json()` and `JSON.stringify` are not modelled as code. Parsing is a given partial function, or a given parsed body. The only stringified value, `{ oauth: true }`, is written out as its text.
- JSON numbers are integers. Fractional numbers and the way `String(x)` prints them are not modelled, so a numeric fid or username prints as an integer.
- Floating point is not modelled: signals, weights and scores are exact reals. `0.35 + 0.20 …` sums to exactly 1, and rounding effects of IEEE doubles are absent.
- `Math.sqrt` is a given function with the square-root contract. It is not computed.
- CollabScore.Jaccard: requires a non-empty union, because the code divides 0 by 0 (NaN) for two empty sets. `calculateOverlap` models the same case as `None`.
- `toLowerCase` is modelled on ASCII letters only; Unicode case mapping is not modelled.
- `\s` is modelled in full: the ASCII white space, NBSP, BOM, U+2028/U+2029 and every Unicode space separator (U+1680, U+2000–U+200A, U+202F, U+205F, U+3000).
- Strings are sequences of Unicode scalar values. JavaScript's UTF-16 code units, and lone surrogates (which make `encodeURIComponent` throw), are not modelled.
- PercentDecoding.FormDecode: the decoding a URL parser applies to a form value is modelled strictly. A malformed escape gives `None`, where `URLSearchParams` would keep it literally or substitute U+FFFD. It is used only on values the serializer produced.
- The session routes take `decodeURIComponent` as a parameter so every decoder behaviour is covered. The concrete decoder is supplied by `PercentDecoding.DecodeUriComponent` and used in OAuthCallback.SessionReachesSessionRoute.
- OAuthCallback.Get: the token endpoint's JSON body is not used by the handler, and it is not modelled beyond whether it parses.
- `NeynarAPI.getFollowers`, `getFollowing`, `getUserFeed` and `getBulkUsers` are modelled through their parameter lists and the shared `Request` rule. The endpoint constants are given; the network call is not modelled.
- `String(n)` is modelled for integers as plain decimal digits. Exponent notation at or above 10^21 is not modelled.

## Findings

| source | as written | input that shows it | evidently intended | confidence | as-written member | corrected member |
|---|---|---|---|---|---|---|
| my-minikit-app/app/api/auth/callback/route.ts:41-50 | `Response.redirect(...)` creates a response whose headers have the Fetch standard's "immutable" guard, so `res.headers.append('Set-Cookie', …)` throws `TypeError` inside the `try`, and the `catch` answers 500 | query `code=c&state=s`, cookie `oauth_state=s`, token endpoint answering 200 with JSON (OAuthCallback.AcceptedRequest) | a 302 to the public URL that sets the session cookie and clears the state cookie | not executed; follows from the Fetch standard's definition of `Response.redirect` | OAuthCallback.GetAsWritten | OAuthCallback.Get |
