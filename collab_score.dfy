/** The collaborator score of lib/collabScore.ts: a fixed weighted sum of five
    similarity signals rounded to a whole number, threshold-driven reasons, and the
    signal calculators (set Jaccard, vector cosine, word-set Jaccard, momentum).
    Numbers are reals; no floating-point effect is modelled. */
module CollabScore {
  import opened Wrappers
  import JsNumber
  import JsString

  datatype Weights = Weights(
    overlap: real, engagementAffinity: real, topicSimilarity: real,
    audienceQuality: real, momentum: real)

  /** `COLLAB_SCORE_WEIGHTS`: five positive weights summing to exactly one. */
  function CollabScoreWeights(): (w: Weights)
    ensures w.overlap + w.engagementAffinity + w.topicSimilarity + w.audienceQuality + w.momentum == 1.0
    ensures w.overlap > 0.0 && w.engagementAffinity > 0.0 && w.topicSimilarity > 0.0
    ensures w.audienceQuality > 0.0 && w.momentum > 0.0
  {
    Weights(0.35, 0.20, 0.20, 0.15, 0.10)
  }

  datatype ScoreInput = ScoreInput(
    overlap: real, engagementAffinity: real, topicSimilarity: real,
    audienceQuality: real, momentum: real)

  datatype Breakdown = Breakdown(
    overlap: int, engagementAffinity: int, topicSimilarity: int,
    audienceQuality: int, momentum: int)

  datatype ScoreResult = ScoreResult(score: int, reasons: seq<string>, breakdown: Breakdown)

  function WeightedSum(w: Weights, x: ScoreInput): real {
    w.overlap * x.overlap + w.engagementAffinity * x.engagementAffinity +
    w.topicSimilarity * x.topicSimilarity + w.audienceQuality * x.audienceQuality +
    w.momentum * x.momentum
  }

  /** The score before rounding: one hundred times the weighted sum. */
  function RawScore(x: ScoreInput): real {
    100.0 * WeightedSum(CollabScoreWeights(), x)
  }

  predicate InUnitRange(x: ScoreInput) {
    0.0 <= x.overlap <= 1.0 && 0.0 <= x.engagementAffinity <= 1.0 &&
    0.0 <= x.topicSimilarity <= 1.0 && 0.0 <= x.audienceQuality <= 1.0 &&
    0.0 <= x.momentum <= 1.0
  }

  /** Each signal of a is at most the same signal of b. */
  predicate AtMost(a: ScoreInput, b: ScoreInput) {
    a.overlap <= b.overlap && a.engagementAffinity <= b.engagementAffinity &&
    a.topicSimilarity <= b.topicSimilarity && a.audienceQuality <= b.audienceQuality &&
    a.momentum <= b.momentum
  }

  // The reason texts.
  const ENGAGEMENT_REASON := "High overlap in engagement patterns"
  const TOPICS_REASON := "Similar content topics"
  const QUALITY_REASON := "High-quality shared audience"
  const MOMENTUM_REASON := "Growing engagement momentum"
  const CHANNELS_REASON := "Active in similar channels"

  /** "N% shared followers", N being the overlap as a rounded percentage. */
  function SharedFollowersReason(overlap: real): string {
    JsNumber.IntToString(JsNumber.Round(overlap * 100.0)) + "% shared followers"
  }

  /** Every reason `calculateCollabScore` can give, in the order it tests them. */
  function ReasonTexts(x: ScoreInput): seq<string> {
    [SharedFollowersReason(x.overlap), ENGAGEMENT_REASON, TOPICS_REASON,
     QUALITY_REASON, MOMENTUM_REASON, CHANNELS_REASON]
  }

  /** The test that admits each reason of `ReasonTexts`. */
  function ReasonTests(x: ScoreInput): seq<bool> {
    [x.overlap >= 0.1, x.engagementAffinity >= 0.7, x.topicSimilarity >= 0.6,
     x.audienceQuality >= 0.8, x.momentum >= 0.5, x.overlap >= 0.05]
  }

  /** The reasons whose test holds, in evaluation order. */
  function Reasons(x: ScoreInput): seq<string> {
    Select(ReasonTexts(x), ReasonTests(x))
  }

  /** `calculateCollabScore`: the rounded weighted score, the reasons pushed one
      test at a time, and each signal as a rounded percentage. */
  method CalculateCollabScore(x: ScoreInput) returns (result: ScoreResult)
    ensures result.score == JsNumber.Round(RawScore(x))
    ensures result.reasons == Reasons(x)
    ensures result.breakdown.overlap == JsNumber.Round(x.overlap * 100.0)
    ensures result.breakdown.engagementAffinity == JsNumber.Round(x.engagementAffinity * 100.0)
    ensures result.breakdown.topicSimilarity == JsNumber.Round(x.topicSimilarity * 100.0)
    ensures result.breakdown.audienceQuality == JsNumber.Round(x.audienceQuality * 100.0)
    ensures result.breakdown.momentum == JsNumber.Round(x.momentum * 100.0)
  {
    var w := CollabScoreWeights();
    var score := 100.0 * (
      w.overlap * x.overlap +
      w.engagementAffinity * x.engagementAffinity +
      w.topicSimilarity * x.topicSimilarity +
      w.audienceQuality * x.audienceQuality +
      w.momentum * x.momentum);

    var reasons := CollectReasons(x);
    result := ScoreResult(
      JsNumber.Round(score),
      reasons,
      Breakdown(
        JsNumber.Round(x.overlap * 100.0),
        JsNumber.Round(x.engagementAffinity * 100.0),
        JsNumber.Round(x.topicSimilarity * 100.0),
        JsNumber.Round(x.audienceQuality * 100.0),
        JsNumber.Round(x.momentum * 100.0)));
  }

  /** The reason tests of `calculateCollabScore`, one `if ... push` after another. */
  method CollectReasons(x: ScoreInput) returns (reasons: seq<string>)
    ensures reasons == Reasons(x)
  {
    reasons := [];
    reasons := PushIf(reasons, x.overlap >= 0.1, SharedFollowersReason(x.overlap));
    reasons := PushIf(reasons, x.engagementAffinity >= 0.7, ENGAGEMENT_REASON);
    reasons := PushIf(reasons, x.topicSimilarity >= 0.6, TOPICS_REASON);
    reasons := PushIf(reasons, x.audienceQuality >= 0.8, QUALITY_REASON);
    reasons := PushIf(reasons, x.momentum >= 0.5, MOMENTUM_REASON);
    reasons := PushIf(reasons, x.overlap >= 0.05, CHANNELS_REASON);
    SelectSix(ReasonTexts(x), ReasonTests(x));
  }

  /** `if (test) reasons.push(text)`. */
  method PushIf(reasons: seq<string>, test: bool, text: string) returns (r: seq<string>)
    ensures r == reasons + Opt(test, text)
  {
    r := reasons;
    if test {
      r := r + [text];
    }
  }

  /** With every signal in [0, 1] the score lies in [0, 100]; nothing clamps it otherwise. */
  lemma ScoreInRange(x: ScoreInput)
    requires InUnitRange(x)
    ensures 0 <= JsNumber.Round(RawScore(x)) <= 100
  {
    var w := CollabScoreWeights();
    assert 0.0 <= w.overlap * x.overlap <= w.overlap;
    assert 0.0 <= w.engagementAffinity * x.engagementAffinity <= w.engagementAffinity;
    assert 0.0 <= w.topicSimilarity * x.topicSimilarity <= w.topicSimilarity;
    assert 0.0 <= w.audienceQuality * x.audienceQuality <= w.audienceQuality;
    assert 0.0 <= w.momentum * x.momentum <= w.momentum;
    assert 0.0 <= RawScore(x) <= 100.0;
  }

  /** Raising any signals, the others held fixed, never lowers the score. */
  lemma ScoreMonotone(a: ScoreInput, b: ScoreInput)
    requires AtMost(a, b)
    ensures JsNumber.Round(RawScore(a)) <= JsNumber.Round(RawScore(b))
  {
    var w := CollabScoreWeights();
    assert w.overlap * a.overlap <= w.overlap * b.overlap;
    assert w.engagementAffinity * a.engagementAffinity <= w.engagementAffinity * b.engagementAffinity;
    assert w.topicSimilarity * a.topicSimilarity <= w.topicSimilarity * b.topicSimilarity;
    assert w.audienceQuality * a.audienceQuality <= w.audienceQuality * b.audienceQuality;
    assert w.momentum * a.momentum <= w.momentum * b.momentum;
    JsNumber.RoundMonotone(RawScore(a), RawScore(b));
  }

  /** The shared-followers text starts with a digit or a minus sign, so it differs
      from every fixed reason text. */
  lemma SharedFollowersReasonIsDistinct(overlap: real)
    ensures SharedFollowersReason(overlap) != ENGAGEMENT_REASON
    ensures SharedFollowersReason(overlap) != TOPICS_REASON
    ensures SharedFollowersReason(overlap) != QUALITY_REASON
    ensures SharedFollowersReason(overlap) != MOMENTUM_REASON
    ensures SharedFollowersReason(overlap) != CHANNELS_REASON
  {
    var s := SharedFollowersReason(overlap);
    var n := JsNumber.IntToString(JsNumber.Round(overlap * 100.0));
    assert s[0] == n[0];
    assert JsNumber.IsDecimalDigit(s[0]) || s[0] == '-';
  }

  // ---------------------------------------------------------------------------
  // Set similarity

  lemma SubsetCardinality<T>(x: set<T>, y: set<T>)
    requires x <= y
    ensures |x| <= |y|
    ensures |x| == |y| ==> x == y
  {
    assert y == x + (y - x);
    assert x * (y - x) == {};
    assert |y| == |x| + |y - x|;
    if |x| == |y| {
      assert |y - x| == 0;
      assert y - x == {};
    }
  }

  lemma JaccardCardinalities<T>(a: set<T>, b: set<T>)
    ensures |a * b| <= |a + b|
    ensures |a * b| == |a + b| <==> a == b
  {
    SubsetCardinality(a * b, a + b);
    if |a * b| == |a + b| {
      assert a * b == a + b;
      assert a == b;
    }
    if a == b {
      assert a * b == a + b;
    }
  }

  /** `calculateJaccardSimilarity`: |A ∩ B| / |A ∪ B|. The code has no guard for two
      empty sets (0 / 0 is NaN), so the union must not be empty. The result lies in
      [0, 1], is 1 exactly for equal sets and 0 exactly for disjoint ones. */
  function Jaccard<T>(a: set<T>, b: set<T>): (r: real)
    requires a + b != {}
    ensures 0.0 <= r <= 1.0
    ensures r == 1.0 <==> a == b
    ensures r == 0.0 <==> a * b == {}
  {
    JaccardCardinalities(a, b);
    assert |a * b| == 0 <==> a * b == {};
    QuotientOfCounts(|a * b|, |a + b|);
    (|a * b| as real) / (|a + b| as real)
  }

  /** The quotient of a count by a positive count no smaller. */
  lemma QuotientOfCounts(i: nat, u: nat)
    requires i <= u && u > 0
    ensures 0.0 <= (i as real) / (u as real) <= 1.0
    ensures (i as real) / (u as real) == 1.0 <==> i == u
    ensures (i as real) / (u as real) == 0.0 <==> i == 0
  {
  }

  lemma JaccardSymmetric<T>(a: set<T>, b: set<T>)
    requires a + b != {}
    ensures Jaccard(a, b) == Jaccard(b, a)
  {
    assert a * b == b * a && a + b == b + a;
  }

  // ---------------------------------------------------------------------------
  // Vector similarity
  //
  // The arithmetic lemmas below compare with 0 through `<`, `>` and `!=`
  // (`!(x < 0.0)` for "x is not negative"); around products the solver closes
  // those forms more reliably than `<=`, `>=` and `==` against a literal.

  /** What `Math.sqrt` promises: a non-negative root of every non-negative number. */
  ghost predicate IsSquareRoot(sqrt: real -> real) {
    forall x :: !(x < 0.0) ==> !(sqrt(x) < 0.0) && sqrt(x) * sqrt(x) == x
  }

  /** Sum of a[i] * b[i], accumulated from the front. */
  function Dot(a: seq<real>, b: seq<real>): real
    requires |a| == |b|
  {
    if a == [] then 0.0
    else Dot(a[..|a| - 1], b[..|b| - 1]) + a[|a| - 1] * b[|b| - 1]
  }

  function Norm2(a: seq<real>): real {
    Dot(a, a)
  }

  /** The value `calculateCosineSimilarity` returns, or the error it throws. */
  function Cosine(a: seq<real>, b: seq<real>, sqrt: real -> real): Result<real, string>
    requires IsSquareRoot(sqrt)
  {
    if |a| != |b| then Failure("Vectors must have the same length")
    else if Norm2(a) == 0.0 || Norm2(b) == 0.0 then Success(0.0)
    else
      RootProduct(a, b, sqrt);
      Success(Dot(a, b) / (sqrt(Norm2(a)) * sqrt(Norm2(b))))
  }

  /** `calculateCosineSimilarity`: one pass accumulating the dot product and both
      squared norms, then the guarded division. */
  method CalculateCosineSimilarity(a: seq<real>, b: seq<real>, sqrt: real -> real)
    returns (r: Result<real, string>)
    requires IsSquareRoot(sqrt)
    ensures r == Cosine(a, b, sqrt)
  {
    if |a| != |b| {
      return Failure("Vectors must have the same length");
    }
    var dotProduct, normA, normB := 0.0, 0.0, 0.0;
    for i := 0 to |a|
      invariant dotProduct == Dot(a[..i], b[..i])
      invariant normA == Norm2(a[..i])
      invariant normB == Norm2(b[..i])
    {
      assert a[..i + 1][..i] == a[..i] && b[..i + 1][..i] == b[..i];
      dotProduct := dotProduct + a[i] * b[i];
      normA := normA + a[i] * a[i];
      normB := normB + b[i] * b[i];
    }
    assert a[..|a|] == a && b[..|b|] == b;
    if normA == 0.0 || normB == 0.0 {
      return Success(0.0);
    }
    CosineValue(a, b, sqrt);
    var denominator := sqrt(normA) * sqrt(normB);
    assert denominator == sqrt(Norm2(a)) * sqrt(Norm2(b));
    r := Success(dotProduct / denominator);
  }

  /** A product of two positive numbers is positive. */
  lemma Pos(x: real, y: real)
    requires x > 0.0 && y > 0.0
    ensures x * y > 0.0
  {
  }

  /** A product of two numbers that are not negative is not negative. */
  lemma NonNegProduct(p: real, q: real)
    requires !(p < 0.0) && !(q < 0.0)
    ensures !(p * q < 0.0)
  {
    if p > 0.0 && q > 0.0 {
      Pos(p, q);
    }
  }

  /** A product that is not zero has no zero factor. */
  lemma NonZeroFactor(x: real, y: real)
    ensures x * y != 0.0 ==> x != 0.0 && y != 0.0
  {
  }

  /** x² is never negative. */
  lemma SquareNonNegative(x: real)
    ensures !(x * x < 0.0)
  {
    if x < 0.0 {
      var y := -x;
      assert y * y > 0.0;
      assert x * x == y * y;
    }
  }

  /** The root of a positive number is positive. */
  lemma RootPositive(n: real, sqrt: real -> real)
    requires IsSquareRoot(sqrt) && n > 0.0
    ensures sqrt(n) > 0.0
  {
    assert sqrt(n) * sqrt(n) == n;
    NonZeroFactor(sqrt(n), sqrt(n));
  }

  /** With both squared norms non-zero, the divisor of the cosine is positive. */
  lemma RootProduct(a: seq<real>, b: seq<real>, sqrt: real -> real)
    requires IsSquareRoot(sqrt) && Norm2(a) != 0.0 && Norm2(b) != 0.0
    ensures sqrt(Norm2(a)) > 0.0 && sqrt(Norm2(b)) > 0.0
    ensures sqrt(Norm2(a)) * sqrt(Norm2(b)) > 0.0
  {
    NormNonNegative(a);
    NormNonNegative(b);
    RootPositive(Norm2(a), sqrt);
    RootPositive(Norm2(b), sqrt);
    Pos(sqrt(Norm2(a)), sqrt(Norm2(b)));
  }

  lemma {:induction false} NormNonNegative(a: seq<real>)
    ensures !(Norm2(a) < 0.0)
  {
    if a != [] {
      NormNonNegative(a[..|a| - 1]);
      SquareNonNegative(a[|a| - 1]);
    }
  }

  /** The zero vector has squared norm 0. */
  lemma {:induction false} NormOfZeros(a: seq<real>)
    requires forall k :: 0 <= k < |a| ==> a[k] == 0.0
    ensures Norm2(a) == 0.0
  {
    if a != [] {
      var init := a[..|a| - 1];
      assert forall k :: 0 <= k < |init| ==> init[k] == a[k];
      NormOfZeros(init);
    }
  }

  /** A non-zero number has a positive square. */
  lemma SquarePositive(x: real)
    requires x != 0.0
    ensures x * x > 0.0
  {
  }

  /** Adding a positive product to a non-negative number gives a positive sum. The
      product's two factors are separate parameters, so the solver does not rewrite
      it as a square. */
  lemma AddProductPositive(n: real, x: real, y: real)
    requires !(n < 0.0) && x * y > 0.0
    ensures n + x * y > 0.0
  {
  }

  /** A vector with a non-zero entry has a positive squared norm. */
  lemma {:induction false} NormPositive(a: seq<real>, k: nat)
    requires k < |a| && a[k] != 0.0
    ensures Norm2(a) > 0.0
  {
    var init, last := a[..|a| - 1], a[|a| - 1];
    NormNonNegative(init);
    if k < |a| - 1 {
      assert init[k] == a[k];
      NormPositive(init, k);
      SquareNonNegative(last);
    } else {
      SquarePositive(last);
      AddProductPositive(Norm2(init), last, last);
    }
  }

  /** The squared norm is zero exactly for the zero vector. */
  lemma NormZeroIff(a: seq<real>)
    ensures Norm2(a) == 0.0 <==> forall k :: 0 <= k < |a| ==> a[k] == 0.0
  {
    if forall k :: 0 <= k < |a| ==> a[k] == 0.0 {
      NormOfZeros(a);
    } else {
      var k :| 0 <= k < |a| && a[k] != 0.0;
      NormPositive(a, k);
    }
  }

  lemma {:induction false} DotSymmetric(a: seq<real>, b: seq<real>)
    requires |a| == |b|
    ensures Dot(a, b) == Dot(b, a)
  {
    if a != [] {
      DotSymmetric(a[..|a| - 1], b[..|b| - 1]);
    }
  }

  /** The dot product with a zero vector is 0. */
  lemma {:induction false} DotWithZeros(a: seq<real>, b: seq<real>)
    requires |a| == |b| && forall k :: 0 <= k < |a| ==> a[k] == 0.0
    ensures Dot(a, b) == 0.0
  {
    if a != [] {
      var init := a[..|a| - 1];
      assert forall k :: 0 <= k < |init| ==> init[k] == a[k];
      DotWithZeros(init, b[..|b| - 1]);
    }
  }

  /** The value of a defined, non-degenerate cosine similarity. */
  lemma CosineValue(a: seq<real>, b: seq<real>, sqrt: real -> real)
    requires IsSquareRoot(sqrt) && |a| == |b| && Norm2(a) != 0.0 && Norm2(b) != 0.0
    ensures sqrt(Norm2(a)) * sqrt(Norm2(b)) > 0.0
    ensures Cosine(a, b, sqrt) == Success(Dot(a, b) / (sqrt(Norm2(a)) * sqrt(Norm2(b))))
  {
    RootProduct(a, b, sqrt);
  }

  /** Cosine similarity does not depend on the order of its arguments. */
  lemma CosineSymmetric(a: seq<real>, b: seq<real>, sqrt: real -> real)
    requires IsSquareRoot(sqrt)
    ensures Cosine(a, b, sqrt) == Cosine(b, a, sqrt)
  {
    if |a| == |b| {
      DotSymmetric(a, b);
    }
  }

  /** A non-zero vector has similarity 1 with itself. */
  lemma CosineSelf(v: seq<real>, sqrt: real -> real)
    requires IsSquareRoot(sqrt)
    requires exists k :: 0 <= k < |v| && v[k] != 0.0
    ensures Cosine(v, v, sqrt) == Success(1.0)
  {
    var k :| 0 <= k < |v| && v[k] != 0.0;
    NormPositive(v, k);
    CosineValue(v, v, sqrt);
    var n := Norm2(v);
    var s := sqrt(n);
    var q := s * s;
    assert q == n;
    assert Dot(v, v) == n;
    assert n / q == 1.0;
  }

  /** A vector of zeros has similarity 0 with any vector of its length. */
  lemma CosineWithZero(v: seq<real>, zero: seq<real>, sqrt: real -> real)
    requires IsSquareRoot(sqrt)
    requires |zero| == |v| && forall k :: 0 <= k < |zero| ==> zero[k] == 0.0
    ensures Cosine(v, zero, sqrt) == Success(0.0)
  {
    NormOfZeros(zero);
  }

  /** Cauchy-Schwarz: the squared dot product is at most the product of the squared norms. */
  lemma {:induction false} CauchySchwarz(a: seq<real>, b: seq<real>)
    requires |a| == |b|
    ensures !(Norm2(a) * Norm2(b) < Dot(a, b) * Dot(a, b))
  {
    if a != [] {
      var a', b' := a[..|a| - 1], b[..|b| - 1];
      CauchySchwarz(a', b');
      NormNonNegative(a');
      NormNonNegative(b');
      if Norm2(a') == 0.0 {
        NormZeroIff(a');
        DotWithZeros(a', b');
      }
      CauchyStep(Norm2(a'), Norm2(b'), Dot(a', b'), a[|a| - 1], b[|b| - 1]);
    }
  }

  /** The induction step of Cauchy-Schwarz: appending x to one vector and y to
      the other keeps the inequality. */
  lemma CauchyStep(A: real, B: real, D: real, x: real, y: real)
    requires !(A < 0.0) && !(B < 0.0) && !(A * B < D * D)
    requires A != 0.0 || D == 0.0
    ensures !((A + x * x) * (B + y * y) < (D + x * y) * (D + x * y))
  {
    assert (D + x * y) * (D + x * y) == D * D + 2.0 * D * x * y + x * x * y * y;
    assert (A + x * x) * (B + y * y) == A * B + A * y * y + B * x * x + x * x * y * y;
    if A > 0.0 {
      CrossTermPositive(A, B, D, x, y);
    } else {
      CrossTermDegenerate(B, x, y);
    }
  }

  /** 2·D·x·y <= A·y² + B·x² when A > 0 and D² <= A·B. */
  lemma CrossTermPositive(A: real, B: real, D: real, x: real, y: real)
    requires A > 0.0 && !(A * B < D * D)
    ensures !(A * y * y + B * x * x < 2.0 * D * x * y)
  {
    var gap := A * y * y + B * x * x - 2.0 * D * x * y;
    assert A * gap == (A * y - D * x) * (A * y - D * x) + (A * B - D * D) * x * x;
    SquareNonNegative(A * y - D * x);
    SquareNonNegative(x);
    NonNegProduct(A * B - D * D, x * x);
    assert (A * B - D * D) * x * x == (A * B - D * D) * (x * x);
    assert A * (-gap) == -(A * gap);
    if gap < 0.0 {
      Pos(A, -gap);
    }
  }

  /** With A = D = 0 the cross-term inequality reduces to 0 <= B·x². */
  lemma CrossTermDegenerate(B: real, x: real, y: real)
    requires !(B < 0.0)
    ensures !(B * x * x < 0.0)
  {
    SquareNonNegative(x);
    NonNegProduct(B, x * x);
    assert B * x * x == B * (x * x);
  }

  /** |d| <= sa·sb whenever d² <= (sa·sb)² and both factors are positive. */
  lemma AbsFromSquare(d: real, sa: real, sb: real)
    requires sa > 0.0 && sb > 0.0
    requires !((sa * sa) * (sb * sb) < d * d)
    ensures -(sa * sb) <= d <= sa * sb
  {
    Pos(sa, sb);
    assert (sa * sa) * (sb * sb) == (sa * sb) * (sa * sb);
    assert (d - sa * sb) * (d + sa * sb) == d * d - (sa * sb) * (sa * sb);
    assert (-d - sa * sb) * (-d + sa * sb) == d * d - (sa * sb) * (sa * sb);
    if d > sa * sb {
      Pos(d - sa * sb, d + sa * sb);
    }
    if d < -(sa * sb) {
      Pos(-d - sa * sb, -d + sa * sb);
    }
  }

  /** A quotient whose numerator is bounded by its positive divisor lies in [-1, 1]. */
  lemma DivBounded(d: real, p: real)
    requires p > 0.0 && !(d < -p) && !(d > p)
    ensures !(d / p < -1.0) && !(d / p > 1.0)
  {
  }

  /** The dot product is bounded in absolute value by the product of the two
      norms: Cauchy-Schwarz with square roots taken. */
  lemma DotBoundedByNorms(a: seq<real>, b: seq<real>, sqrt: real -> real)
    requires IsSquareRoot(sqrt) && |a| == |b| && Norm2(a) != 0.0 && Norm2(b) != 0.0
    ensures sqrt(Norm2(a)) > 0.0 && sqrt(Norm2(b)) > 0.0
    ensures -(sqrt(Norm2(a)) * sqrt(Norm2(b))) <= Dot(a, b) <= sqrt(Norm2(a)) * sqrt(Norm2(b))
  {
    RootProduct(a, b, sqrt);
    CauchySchwarz(a, b);
    NormNonNegative(a);
    NormNonNegative(b);
    assert sqrt(Norm2(a)) * sqrt(Norm2(a)) == Norm2(a);
    assert sqrt(Norm2(b)) * sqrt(Norm2(b)) == Norm2(b);
    AbsFromSquare(Dot(a, b), sqrt(Norm2(a)), sqrt(Norm2(b)));
  }

  /** Every cosine similarity lies in [-1, 1]. */
  lemma CosineBounded(a: seq<real>, b: seq<real>, sqrt: real -> real)
    requires IsSquareRoot(sqrt) && |a| == |b|
    ensures -1.0 <= Cosine(a, b, sqrt).value <= 1.0
  {
    if Norm2(a) != 0.0 && Norm2(b) != 0.0 {
      CosineValue(a, b, sqrt);
      DotBoundedByNorms(a, b, sqrt);
      DivBounded(Dot(a, b), sqrt(Norm2(a)) * sqrt(Norm2(b)));
    }
  }

  // ---------------------------------------------------------------------------
  // Topic similarity

  /** `calculateTopicSimilarity`: Jaccard similarity of the lower-cased
      `split(/\s+/)` word sets. Splitting always yields a word, so the union is
      never empty and no guard is needed. */
  function TopicSimilarity(textA: string, textB: string): (r: real)
    ensures 0.0 <= r <= 1.0
  {
    Jaccard(JsString.WordSet(JsString.ToLowerAscii(textA)), JsString.WordSet(JsString.ToLowerAscii(textB)))
  }

  /** Any text, the empty one included, is fully similar to itself. */
  lemma TopicSimilaritySelf(text: string)
    ensures TopicSimilarity(text, text) == 1.0
  {
  }

  lemma TopicSimilaritySymmetric(textA: string, textB: string)
    ensures TopicSimilarity(textA, textB) == TopicSimilarity(textB, textA)
  {
    JaccardSymmetric(JsString.WordSet(JsString.ToLowerAscii(textA)), JsString.WordSet(JsString.ToLowerAscii(textB)));
  }

  /** Letter case does not matter: lower-casing an argument first changes nothing. */
  lemma TopicSimilarityIgnoresCase(textA: string, textB: string)
    ensures TopicSimilarity(JsString.ToLowerAscii(textA), textB) == TopicSimilarity(textA, textB)
  {
    JsString.ToLowerAsciiIdempotent(textA);
  }

  // ---------------------------------------------------------------------------
  // Momentum

  function Clamp01(v: real): (r: real)
    ensures 0.0 <= r <= 1.0
  {
    if v < 0.0 then 0.0 else if v > 1.0 then 1.0 else v
  }

  /** `calculateMomentum`: 0 when there is no previous engagement (whatever the
      recent one), otherwise the growth ratio mapped by (g + 1) / 2 and clamped to [0, 1]. */
  function CalculateMomentum(recent: real, previous: real): (r: real)
    ensures 0.0 <= r <= 1.0
    ensures previous == 0.0 ==> r == 0.0
    ensures previous != 0.0 && recent == previous ==> r == 0.5
  {
    if previous == 0.0 then 0.0
    else
      var growth := (recent - previous) / previous;
      var m := (growth + 1.0) / 2.0;
      if m < 0.0 then 0.0 else if 1.0 < m then 1.0 else m
  }

  /** Away from zero previous engagement, momentum is recent / (2 · previous), clamped. */
  lemma MomentumClosedForm(recent: real, previous: real)
    requires previous != 0.0
    ensures CalculateMomentum(recent, previous) == Clamp01(recent / (2.0 * previous))
  {
    var growth := (recent - previous) / previous;
    var q := recent / (2.0 * previous);
    assert growth * previous == recent - previous;
    assert q * (2.0 * previous) == recent;
    var m := (growth + 1.0) / 2.0;
    assert m * (2.0 * previous) == recent;
    assert (m - q) * (2.0 * previous) == 0.0;
    assert m == q;
  }

  /** With positive previous engagement, more recent engagement never lowers momentum. */
  lemma MomentumMonotone(recent1: real, recent2: real, previous: real)
    requires previous > 0.0 && recent1 <= recent2
    ensures CalculateMomentum(recent1, previous) <= CalculateMomentum(recent2, previous)
  {
    MomentumClosedForm(recent1, previous);
    MomentumClosedForm(recent2, previous);
    assert recent1 / (2.0 * previous) <= recent2 / (2.0 * previous);
  }

  lemma ReasonTextsDistinct(x: ScoreInput)
    ensures Distinct(ReasonTexts(x))
  {
    SharedFollowersReasonIsDistinct(x.overlap);
  }

  /** Each reason is present exactly when its test holds. */
  lemma ReasonsExactly(x: ScoreInput)
    ensures SharedFollowersReason(x.overlap) in Reasons(x) <==> x.overlap >= 0.1
    ensures ENGAGEMENT_REASON in Reasons(x) <==> x.engagementAffinity >= 0.7
    ensures TOPICS_REASON in Reasons(x) <==> x.topicSimilarity >= 0.6
    ensures QUALITY_REASON in Reasons(x) <==> x.audienceQuality >= 0.8
    ensures MOMENTUM_REASON in Reasons(x) <==> x.momentum >= 0.5
    ensures CHANNELS_REASON in Reasons(x) <==> x.overlap >= 0.05
  {
    var texts, tests := ReasonTexts(x), ReasonTests(x);
    ReasonTextsDistinct(x);
    SelectMember(texts, tests, 0);
    SelectMember(texts, tests, 1);
    SelectMember(texts, tests, 2);
    SelectMember(texts, tests, 3);
    SelectMember(texts, tests, 4);
    SelectMember(texts, tests, 5);
  }

  /** There are at most six reasons, none appears twice, and they keep the fixed
      evaluation order (a subsequence of `ReasonTexts`). */
  lemma ReasonsShape(x: ScoreInput)
    ensures |Reasons(x)| <= 6
    ensures Distinct(Reasons(x))
    ensures IsSubsequence(Reasons(x), ReasonTexts(x))
  {
    ReasonTextsDistinct(x);
    SelectShape(ReasonTexts(x), ReasonTests(x));
  }

  /** An overlap of at least 0.1 brings both overlap-derived reasons, the
      percentage first and the channels reason last. */
  lemma WideOverlapGivesBothReasons(x: ScoreInput)
    requires x.overlap >= 0.1
    ensures |Reasons(x)| >= 2
    ensures Reasons(x)[0] == SharedFollowersReason(x.overlap)
    ensures Reasons(x)[|Reasons(x)| - 1] == CHANNELS_REASON
  {
    var texts, tests := ReasonTexts(x), ReasonTests(x);
    SelectSnoc(texts, tests, 5);
    assert texts[..6] == texts && tests[..6] == tests;
    assert Select(texts[..5], tests[..5]) == [texts[0]] + Select(texts[..5][1..], tests[..5][1..]);
  }

  predicate Distinct<T(==)>(s: seq<T>) {
    forall i, j :: 0 <= i < j < |s| ==> s[i] != s[j]
  }

  /** a can be obtained from b by deleting elements. */
  predicate IsSubsequence<T(==)>(a: seq<T>, b: seq<T>) {
    if a == [] then true
    else if b == [] then false
    else if a[0] == b[0] then IsSubsequence(a[1..], b[1..])
    else IsSubsequence(a, b[1..])
  }

  /** The elements of xs whose flag is set, in order. */
  function Select<T>(xs: seq<T>, keep: seq<bool>): seq<T>
    requires |keep| == |xs|
  {
    if xs == [] then [] else (if keep[0] then [xs[0]] else []) + Select(xs[1..], keep[1..])
  }

  function Opt<T>(keep: bool, x: T): seq<T> {
    if keep then [x] else []
  }

  /** A selection from six entries, written out. */
  lemma SelectSix<T>(xs: seq<T>, keep: seq<bool>)
    requires |xs| == 6 && |keep| == 6
    ensures Select(xs, keep) == [] + Opt(keep[0], xs[0]) + Opt(keep[1], xs[1]) + Opt(keep[2], xs[2]) +
      Opt(keep[3], xs[3]) + Opt(keep[4], xs[4]) + Opt(keep[5], xs[5])
  {
    SelectFirstThree(xs, keep);
    SelectSnoc(xs, keep, 3);
    SelectSnoc(xs, keep, 4);
    SelectSnoc(xs, keep, 5);
    assert xs[..6] == xs && keep[..6] == keep;
  }

  lemma SelectFirstThree<T>(xs: seq<T>, keep: seq<bool>)
    requires |xs| == 6 && |keep| == 6
    ensures Select(xs[..3], keep[..3]) == [] + Opt(keep[0], xs[0]) + Opt(keep[1], xs[1]) + Opt(keep[2], xs[2])
  {
    assert xs[..0] == [] && keep[..0] == [];
    SelectSnoc(xs, keep, 0);
    SelectSnoc(xs, keep, 1);
    SelectSnoc(xs, keep, 2);
  }

  /** Extending both lists by one entry extends the selection by that entry when it is kept. */
  lemma {:induction false} SelectSnoc<T>(xs: seq<T>, keep: seq<bool>, n: nat)
    requires |keep| == |xs| && n < |xs|
    ensures Select(xs[..n + 1], keep[..n + 1]) ==
      Select(xs[..n], keep[..n]) + Opt(keep[n], xs[n])
  {
    if n > 0 {
      SelectSnoc(xs[1..], keep[1..], n - 1);
      assert xs[..n + 1][1..] == xs[1..][..n];
      assert keep[..n + 1][1..] == keep[1..][..n];
      assert xs[..n][1..] == xs[1..][..n - 1];
      assert keep[..n][1..] == keep[1..][..n - 1];
    } else {
      assert xs[..1][1..] == [] && keep[..1][1..] == [];
    }
  }

  /** With distinct elements, xs[i] is selected exactly when its flag is set. */
  lemma {:induction false} SelectMember<T>(xs: seq<T>, keep: seq<bool>, i: nat)
    requires |keep| == |xs| && i < |xs| && Distinct(xs)
    ensures xs[i] in Select(xs, keep) <==> keep[i]
  {
    SelectFrom(xs, keep, xs[i]);
  }

  /** Everything selected comes from a kept position, and every kept element is selected. */
  lemma {:induction false} SelectFrom<T>(xs: seq<T>, keep: seq<bool>, y: T)
    requires |keep| == |xs|
    ensures y in Select(xs, keep) <==> exists k :: 0 <= k < |xs| && keep[k] && xs[k] == y
  {
    if xs != [] {
      SelectFrom(xs[1..], keep[1..], y);
      if y in Select(xs[1..], keep[1..]) {
        var k :| 0 <= k < |xs[1..]| && keep[1..][k] && xs[1..][k] == y;
        assert keep[k + 1] && xs[k + 1] == y;
      }
      if exists k :: 0 <= k < |xs| && keep[k] && xs[k] == y {
        var k :| 0 <= k < |xs| && keep[k] && xs[k] == y;
        if k > 0 {
          assert keep[1..][k - 1] && xs[1..][k - 1] == y;
        }
      }
    }
  }

  lemma {:induction false} SelectShape<T>(xs: seq<T>, keep: seq<bool>)
    requires |keep| == |xs| && Distinct(xs)
    ensures |Select(xs, keep)| <= |xs|
    ensures Distinct(Select(xs, keep))
    ensures IsSubsequence(Select(xs, keep), xs)
  {
    if xs != [] {
      var rest := Select(xs[1..], keep[1..]);
      SelectShape(xs[1..], keep[1..]);
      if keep[0] {
        var s := [xs[0]] + rest;
        assert s[1..] == rest;
        SelectFrom(xs[1..], keep[1..], xs[0]);
        assert xs[0] !in rest;
        assert forall j :: 0 < j < |s| ==> s[j] == rest[j - 1];
      } else {
        assert Select(xs, keep) == rest;
        IsSubsequenceOfCons(rest, xs[0], xs[1..]);
        assert [xs[0]] + xs[1..] == xs;
      }
    }
  }

  lemma {:induction false} IsSubsequenceOfCons<T>(a: seq<T>, h: T, b: seq<T>)
    requires IsSubsequence(a, b)
    ensures IsSubsequence(a, [h] + b)
    decreases |b|, 1
  {
    var hb := [h] + b;
    assert hb[1..] == b;
    if a != [] && a[0] == h {
      SubsequenceDropHead(a, b);
    }
  }

  lemma {:induction false} SubsequenceDropHead<T>(a: seq<T>, b: seq<T>)
    requires a != [] && IsSubsequence(a, b)
    ensures IsSubsequence(a[1..], b)
    decreases |b|, 0
  {
    if a[0] == b[0] {
      IsSubsequenceOfCons(a[1..], b[0], b[1..]);
    } else {
      SubsequenceDropHead(a, b[1..]);
      IsSubsequenceOfCons(a[1..], b[0], b[1..]);
    }
    assert [b[0]] + b[1..] == b;
  }
}
