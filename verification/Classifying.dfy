/** Regression verdicts from raw and noise counts (src/analysis/classify.rs), over exact percentages. */
module Classifying {
  datatype FieldCounts = FieldCounts(rawCount: nat, noiseCount: nat) {

    function Gap(): real {
      var d := rawCount - noiseCount;
      (if d < 0 then -d else d) as real
    }

    function RelativeDifference(): real {
      if rawCount + noiseCount == 0 then 0.0 else Gap() / (rawCount + noiseCount) as real * 100.0
    }

    function AbsoluteDifference(endpointTotal: nat): real {
      if endpointTotal == 0 then 0.0 else Gap() / endpointTotal as real * 100.0
    }
  }

  datatype RegressionClassifier = RegressionClassifier(relativeThreshold: real, absoluteThreshold: real) {

    predicate IsRegression(field: FieldCounts, endpointTotal: nat) {
      && field.rawCount > field.noiseCount
      && field.RelativeDifference() > relativeThreshold
      && field.AbsoluteDifference(endpointTotal) > absoluteThreshold
    }
  }

  datatype EndpointClassifiers = EndpointClassifiers(
    perEndpoint: map<string, RegressionClassifier>, default: RegressionClassifier)
  {

    function ForEndpoint(endpoint: string): RegressionClassifier {
      if endpoint in perEndpoint then perEndpoint[endpoint] else default
    }
  }

  // ---------- arithmetic ----------

  lemma QuotientLe(a: real, b: real, c: real, d: real)
    requires b > 0.0 && d > 0.0 && a * d <= c * b
    ensures a / b <= c / d
  {
    var x, y := a / b, c / d;
    assert x * b == a && y * d == c;
    assert x * (b * d) == a * d && y * (b * d) == c * b;
    if x > y { ScaledLt(y, x, b * d); }
  }

  lemma ScaledLt(y: real, x: real, k: real)
    requires y < x && k > 0.0
    ensures y * k < x * k
  {}

  /** Both percentages stay within 0 and 100 as long as neither count exceeds the number of samples. */
  lemma PercentagesBounded(c: FieldCounts, total: nat)
    requires c.rawCount <= total && c.noiseCount <= total
    ensures 0.0 <= c.RelativeDifference() <= 100.0
    ensures 0.0 <= c.AbsoluteDifference(total) <= 100.0
  {
    if c.rawCount + c.noiseCount > 0 {
      PercentageBounded(c.Gap(), (c.rawCount + c.noiseCount) as real);
      PercentageBounded(c.Gap(), total as real);
    }
  }

  lemma PercentageBounded(part: real, whole: real)
    requires 0.0 <= part <= whole && whole > 0.0
    ensures 0.0 <= part / whole * 100.0 <= 100.0
  {
    QuotientLe(part, whole, 1.0, 1.0);
    QuotientLe(0.0, 1.0, part, whole);
  }

  /** What the percentages are: the difference of the counts, either way, in hundredths of both and of all samples. */
  lemma PercentagesExactly(c: FieldCounts, total: nat)
    ensures var difference :=
        if c.rawCount >= c.noiseCount then c.rawCount - c.noiseCount else c.noiseCount - c.rawCount;
      && c.RelativeDifference() * (c.rawCount + c.noiseCount) as real == difference as real * 100.0
      && (total > 0 ==> c.AbsoluteDifference(total) * total as real == difference as real * 100.0)
      && (c.rawCount + c.noiseCount == 0 ==> c.RelativeDifference() == 0.0)
      && (total == 0 ==> c.AbsoluteDifference(total) == 0.0)
  {
    if c.rawCount + c.noiseCount > 0 { ScaledBack(c.Gap(), (c.rawCount + c.noiseCount) as real); }
    if total > 0 { ScaledBack(c.Gap(), total as real); }
  }

  lemma ScaledBack(part: real, whole: real)
    requires whole != 0.0
    ensures part / whole * 100.0 * whole == part * 100.0
  {
    var x := part / whole;
    assert x * whole == part;
    assert x * 100.0 * whole == x * whole * 100.0;
  }

  lemma ScaledGt(a: real, b: real, k: real)
    requires b > 0.0
    ensures a / b * 100.0 > k <==> a * 100.0 > k * b
  {
    var x := a / b;
    assert x * b == a;
    if x * 100.0 > k { ScaledLt(k, x * 100.0, b); }
    if a * 100.0 > k * b && x * 100.0 <= k { Cross'(x * 100.0, k, b); }
  }

  lemma Cross'(a: real, b: real, k: real)
    requires a <= b && k > 0.0
    ensures a * k <= b * k
  {}

  /** The verdict without divisions: candidate divergence must exceed control divergence, by more than the relative
      share of both together and by more than the absolute share of all samples. */
  lemma VerdictByCrossMultiplication(k: RegressionClassifier, c: FieldCounts, total: nat)
    requires c.rawCount <= total && c.noiseCount <= total
    ensures k.IsRegression(c, total) <==>
      var excess := (c.rawCount - c.noiseCount) as real * 100.0;
      && c.rawCount > c.noiseCount
      && excess > k.relativeThreshold * (c.rawCount + c.noiseCount) as real
      && excess > k.absoluteThreshold * total as real
  {
    if c.rawCount > c.noiseCount {
      ScaledGt(c.Gap(), (c.rawCount + c.noiseCount) as real, k.relativeThreshold);
      ScaledGt(c.Gap(), total as real, k.absoluteThreshold);
    }
  }

  // ---------- which sample can move a verdict ----------

  /** Counts after one more sample that diverges on the candidate (`raw`) and on the control (`noise`). */
  function Count(c: FieldCounts, raw: bool, noise: bool): FieldCounts {
    FieldCounts(c.rawCount + (if raw then 1 else 0), c.noiseCount + (if noise then 1 else 0))
  }

  /** Divergence on the candidate alone never lowers either percentage. */
  lemma CandidateAloneRaises(c: FieldCounts, total: nat)
    requires c.noiseCount < c.rawCount <= total
    ensures c.RelativeDifference() <= Count(c, true, false).RelativeDifference()
    ensures c.AbsoluteDifference(total) <= Count(c, true, false).AbsoluteDifference(total + 1)
  {
    var r, n, t := c.rawCount as real, c.noiseCount as real, total as real;
    assert (r - n) * (r + n + 1.0) <= (r - n + 1.0) * (r + n);
    QuotientLe(r - n, r + n, r - n + 1.0, r + n + 1.0);
    assert (r - n) * (t + 1.0) <= (r - n + 1.0) * t;
    QuotientLe(r - n, t, r - n + 1.0, t + 1.0);
  }

  /** Any other sample leaves the excess no larger and raises neither percentage. */
  lemma OtherSamplesLower(c: FieldCounts, total: nat, raw: bool, noise: bool)
    requires c.rawCount <= total && !(raw && !noise)
    requires Count(c, raw, noise).rawCount > Count(c, raw, noise).noiseCount
    ensures c.rawCount > c.noiseCount
    ensures Count(c, raw, noise).RelativeDifference() <= c.RelativeDifference()
    ensures Count(c, raw, noise).AbsoluteDifference(total + 1) <= c.AbsoluteDifference(total)
  {
    var d := Count(c, raw, noise);
    var g, s, t := (c.rawCount - c.noiseCount) as real, (c.rawCount + c.noiseCount) as real, total as real;
    var g', s' := (d.rawCount - d.noiseCount) as real, (d.rawCount + d.noiseCount) as real;
    assert g' <= g && s <= s';
    Cross(g', g, s, s');
    QuotientLe(g', s', g, s);
    Cross(g', g, t, t + 1.0);
    QuotientLe(g', t + 1.0, g, t);
  }

  lemma Cross(a: real, b: real, s: real, s': real)
    requires 0.0 <= a <= b && 0.0 <= s <= s'
    ensures a * s <= b * s'
  {
    assert a * s <= b * s;
    assert b * s <= b * s';
  }

  /** Whatever the thresholds, one sample turns a path into a regression only if it diverges there on the
      candidate and not on the control, and such a sample never clears a regression. */
  lemma OnlyRightEvidenceMoves(k: RegressionClassifier, c: FieldCounts, total: nat, raw: bool, noise: bool)
    requires c.rawCount <= total && c.noiseCount <= total
    ensures !k.IsRegression(c, total) && k.IsRegression(Count(c, raw, noise), total + 1) ==> raw && !noise
    ensures k.IsRegression(c, total) && raw && !noise ==> k.IsRegression(Count(c, raw, noise), total + 1)
  {
    if raw && !noise {
      if c.rawCount > c.noiseCount { CandidateAloneRaises(c, total); }
    } else if Count(c, raw, noise).rawCount > Count(c, raw, noise).noiseCount {
      OtherSamplesLower(c, total, raw, noise);
    }
  }

  // ---------- one sample in place of another ----------

  /** How much a sample speaks for a regression: most if only the candidate diverges, then if neither side does,
      then if both do, and least if only the control diverges. */
  function Rank(raw: bool, noise: bool): nat {
    if raw then if noise then 1 else 3 else if noise then 0 else 2
  }

  /** A larger excess over a no larger share of it keeps a regression. */
  lemma StrongerKeepsRegression(k: RegressionClassifier, c: FieldCounts, d: FieldCounts, total: nat)
    requires k.IsRegression(c, total) && c.rawCount <= total && d.rawCount <= total
    requires c.rawCount - c.noiseCount <= d.rawCount - d.noiseCount
    requires (c.rawCount - c.noiseCount) * (d.rawCount + d.noiseCount) <=
             (d.rawCount - d.noiseCount) * (c.rawCount + c.noiseCount)
    ensures k.IsRegression(d, total)
  {
    var g, s, t := (c.rawCount - c.noiseCount) as real, (c.rawCount + c.noiseCount) as real, total as real;
    var g', s' := (d.rawCount - d.noiseCount) as real, (d.rawCount + d.noiseCount) as real;
    assert g * s' <= g' * s;
    QuotientLe(g, s, g', s');
    Cross'(g, g', t);
    QuotientLe(g, t, g', t);
  }

  lemma Mediant(excess: int, sum: int)
    requires excess <= sum
    ensures excess * (sum + 1) <= (excess + 1) * sum
  {
    assert excess * (sum + 1) == excess * sum + excess && (excess + 1) * sum == excess * sum + sum;
  }

  lemma Wider(excess: nat, sum: nat)
    ensures excess * sum <= excess * (sum + 2)
  {
    assert excess * (sum + 2) == excess * sum + 2 * excess;
  }

  /** A sample of the next higher rank in place of another keeps a regression. */
  lemma NextRankKeepsRegression(k: RegressionClassifier, c: FieldCounts, total: nat, raw: bool, noise: bool,
                                raw': bool, noise': bool)
    requires c.rawCount < total && c.noiseCount < total && Rank(raw', noise') == Rank(raw, noise) + 1
    requires k.IsRegression(Count(c, raw, noise), total)
    ensures k.IsRegression(Count(c, raw', noise'), total)
  {
    var before, after := Count(c, raw, noise), Count(c, raw', noise');
    var excess, sum := before.rawCount - before.noiseCount, before.rawCount + before.noiseCount;
    if Rank(raw, noise) == 1 { Wider(excess, sum - 2); } else { Mediant(excess, sum); }
    StrongerKeepsRegression(k, before, after, total);
  }

  lemma {:induction false} HigherRankKeepsRegression(k: RegressionClassifier, c: FieldCounts, total: nat,
                                                     raw: bool, noise: bool, raw': bool, noise': bool)
    requires c.rawCount < total && c.noiseCount < total && Rank(raw, noise) <= Rank(raw', noise')
    requires k.IsRegression(Count(c, raw, noise), total)
    ensures k.IsRegression(Count(c, raw', noise'), total)
    decreases Rank(raw', noise') - Rank(raw, noise)
  {
    if Rank(raw, noise) < Rank(raw', noise') {
      var raw1, noise1 := Rank(raw, noise) != 1, Rank(raw, noise) == 0;
      NextRankKeepsRegression(k, c, total, raw, noise, raw1, noise1);
      HigherRankKeepsRegression(k, c, total, raw1, noise1, raw', noise');
    }
  }

  /** With another last sample the counts make a regression that they did not make. */
  predicate Raises(k: RegressionClassifier, c: FieldCounts, total: nat, raw: bool, noise: bool,
                   raw': bool, noise': bool)
  {
    && c.rawCount < total && c.noiseCount < total
    && !k.IsRegression(Count(c, raw, noise), total) && k.IsRegression(Count(c, raw', noise'), total)
  }

  /** Thresholds and counts at which a sample of higher rank makes the difference. */
  function Tipping(raw: bool, noise: bool, raw': bool, noise': bool): (RegressionClassifier, FieldCounts) {
    (RegressionClassifier(if Rank(raw', noise') == 2 && Rank(raw, noise) == 1 then 50.0 else 0.0, 0.0),
     FieldCounts(if Rank(raw', noise') == 3 then 0 else 1, 0))
  }

  lemma TippingRaises(raw: bool, noise: bool, raw': bool, noise': bool)
    requires Rank(raw', noise') > Rank(raw, noise)
    ensures var (k, c) := Tipping(raw, noise, raw', noise');
      Raises(k, c, 2, raw, noise, raw', noise')
  {}

  lemma LowerRankNeverRaises(k: RegressionClassifier, c: FieldCounts, total: nat, raw: bool, noise: bool,
                             raw': bool, noise': bool)
    requires Rank(raw', noise') <= Rank(raw, noise)
    ensures !Raises(k, c, total, raw, noise, raw', noise')
  {
    if c.rawCount < total && c.noiseCount < total && k.IsRegression(Count(c, raw', noise'), total) {
      HigherRankKeepsRegression(k, c, total, raw', noise', raw, noise);
    }
  }

  /** One sample in place of another can make a regression iff it ranks higher. */
  lemma {:induction false} ReplacementRaisesExactly(raw: bool, noise: bool, raw': bool, noise': bool)
    ensures (exists k, c, total :: Raises(k, c, total, raw, noise, raw', noise')) <==>
      Rank(raw', noise') > Rank(raw, noise)
  {
    if Rank(raw', noise') > Rank(raw, noise) {
      TippingRaises(raw, noise, raw', noise');
    } else {
      forall k, c, total { LowerRankNeverRaises(k, c, total, raw, noise, raw', noise'); }
    }
  }
}
