/** Softmax attention written out as sums over keys and features, and what follows for the output row. */
module AttentionMeaning {
  import opened SoftmaxTheory
  import opened AttentionRows

  /** a[0]*b[0] + ... + a[n-1]*b[n-1] */
  function SumOfProducts(a: seq<real>, b: seq<real>, n: nat): real
    requires n <= |a| && n <= |b|
  {
    if n == 0 then 0.0 else SumOfProducts(a, b, n - 1) + a[n - 1] * b[n - 1]
  }

  ghost function KeyScore(p: Problem, i: nat): real
    requires p.Valid() && i < |p.key|
  {
    SumOfProducts(p.key[i], p.query, |p.query|) * p.scale
  }

  /** The exponentials of the scores of the first n keys. */
  ghost function SumOfWeights(exp: real -> real, p: Problem, n: nat): real
    requires p.Valid() && n <= |p.key|
  {
    if n == 0 then 0.0 else SumOfWeights(exp, p, n - 1) + exp(KeyScore(p, n - 1))
  }

  /** The same times feature d of the values. */
  ghost function SumOfValues(exp: real -> real, p: Problem, d: nat, n: nat): real
    requires p.Valid() && n <= |p.key| && d < |p.query|
  {
    if n == 0 then 0.0 else SumOfValues(exp, p, d, n - 1) + exp(KeyScore(p, n - 1)) * p.value[n - 1][d]
  }

  /** Feature d of the row is the average of feature d of the values, weighted by the exponentials of the scores. */
  ghost predicate IsAverage(exp: real -> real, p: Problem, row: seq<real>)
    requires p.Valid()
  {
    && |row| == |p.query| && SumOfWeights(exp, p, |p.key|) > 0.0
    && forall d {:trigger row[d]} :: 0 <= d < |row| ==>
      row[d] * SumOfWeights(exp, p, |p.key|) == SumOfValues(exp, p, d, |p.key|)
  }

  lemma {:induction false} DotIsSum(a: seq<real>, b: seq<real>, n: nat)
    requires n <= |a| == |b|
    ensures Dot(a[..n], b[..n]) == SumOfProducts(a, b, n)
    decreases n
  {
    if n > 0 {
      DotIsSum(a, b, n - 1);
      DotSnoc(a, b, n - 1);
    }
  }

  lemma ScoreIs(p: Problem, i: nat)
    requires p.Valid() && i < |p.key|
    ensures p.Score(i) == KeyScore(p, i)
  {
    DotIsSum(p.key[i], p.query, |p.query|);
    assert p.key[i][..|p.query|] == p.key[i] && p.query[..|p.query|] == p.query;
  }

  /** One more score and one more value. */
  lemma WeightedSnoc(exp: real -> real, s: seq<real>, v: seq<real>, x: seq<real>, y: seq<real>, term: real)
    requires |s| == |v| && |x| == |y| == 1 && term == exp(x[0]) * y[0]
    ensures Weighted(exp, s + x, v + y, 0.0) == Weighted(exp, s, v, 0.0) + term
  {
    WeightedConcat(exp, s, v, x, y, 0.0);
    WeightedOne(exp, x, y, term);
  }

  lemma WeightedOne(exp: real -> real, s: seq<real>, v: seq<real>, term: real)
    requires |s| == |v| == 1 && term == exp(s[0]) * v[0]
    ensures Weighted(exp, s, v, 0.0) == term
  {
    var e := At(exp, s[0] - 0.0);
    assert s[0] - 0.0 == s[0];
    assert Weighted(exp, s, v, 0.0) == e * v[0] + 0.0;
  }

  lemma {:induction false} TotalIsSum(exp: real -> real, p: Problem, n: nat)
    requires p.Valid() && n <= |p.key|
    ensures Total(exp, p.Scores(0, n), 0.0) == SumOfWeights(exp, p, n)
    decreases n
  {
    if n > 0 {
      TotalIsSum(exp, p, n - 1);
      ScoreIs(p, n - 1);
      assert p.Scores(0, n) == p.Scores(0, n - 1) + [p.Score(n - 1)];
      assert Ones(n) == Ones(n - 1) + [1.0];
      WeightedSnoc(exp, p.Scores(0, n - 1), Ones(n - 1), [p.Score(n - 1)], [1.0], exp(KeyScore(p, n - 1)));
    }
  }

  lemma {:induction false} WeightedIsSum(exp: real -> real, p: Problem, d: nat, n: nat)
    requires p.Valid() && n <= |p.key| && d < |p.query|
    ensures Weighted(exp, p.Scores(0, n), p.Column(d, 0, n), 0.0) == SumOfValues(exp, p, d, n)
    decreases n
  {
    if n > 0 {
      WeightedIsSum(exp, p, d, n - 1);
      ScoreIs(p, n - 1);
      assert p.Scores(0, n) == p.Scores(0, n - 1) + [p.Score(n - 1)];
      assert p.Column(d, 0, n) == p.Column(d, 0, n - 1) + [p.value[n - 1][d]];
      WeightedSnoc(exp, p.Scores(0, n - 1), p.Column(d, 0, n - 1), [p.Score(n - 1)], [p.value[n - 1][d]],
                   exp(KeyScore(p, n - 1)) * p.value[n - 1][d]);
    }
  }

  lemma QuotientOf(w: real, t: real, x: real)
    requires t > 0.0 && x == w / t
    ensures x * t == w
  {
  }

  /** Main result: the attention row is that average. */
  lemma AttentionIsAverage(exp: real -> real, p: Problem)
    requires IsExp(exp) && p.Valid() && |p.key| > 0
    ensures IsAverage(exp, p, AttentionRow(exp, p))
  {
    var n, row := |p.key|, AttentionRow(exp, p);
    TotalPositive(exp, p.Scores(0, n), 0.0);
    TotalIsSum(exp, p, n);
    forall d | 0 <= d < |row|
      ensures row[d] * SumOfWeights(exp, p, n) == SumOfValues(exp, p, d, n)
    {
      FeatureIsAverage(exp, p, d, Total(exp, p.Scores(0, n), 0.0));
    }
  }

  lemma FeatureIsAverage(exp: real -> real, p: Problem, d: nat, t: real)
    requires IsExp(exp) && p.Valid() && |p.key| > 0 && d < |p.query| && t == Total(exp, p.Scores(0, |p.key|), 0.0) > 0.0
    ensures p.Attention(exp, d) * t == SumOfValues(exp, p, d, |p.key|)
  {
    var n := |p.key|;
    SoftmaxAverage(exp, p.Scores(0, n), p.Column(d, 0, n), t);
    WeightedIsSum(exp, p, d, n);
    QuotientOf(SumOfValues(exp, p, d, n), t, p.Attention(exp, d));
  }

  lemma SameQuotient(x: real, y: real, t: real)
    requires t > 0.0 && x * t == y * t
    ensures x == y
  {
    assert x == x * t / t && y == y * t / t;
  }

  // ----- rows whose answer is known -----

  predicate EqualRows(rows: seq<seq<real>>) {
    forall i :: 0 <= i < |rows| ==> rows[i] == rows[0]
  }

  lemma {:induction false} EqualValuesSum(exp: real -> real, p: Problem, d: nat, n: nat)
    requires p.Valid() && n <= |p.key| && |p.key| > 0 && d < |p.query| && EqualRows(p.value)
    ensures SumOfValues(exp, p, d, n) == p.value[0][d] * SumOfWeights(exp, p, n)
    decreases n
  {
    if n > 0 {
      EqualValuesSum(exp, p, d, n - 1);
      assert p.value[n - 1] == p.value[0];
      DistributeReal(p.value[0][d], SumOfWeights(exp, p, n - 1), exp(KeyScore(p, n - 1)));
    }
  }

  lemma DistributeReal(x: real, y: real, z: real)
    ensures x * (y + z) == x * y + z * x
  {
  }

  /** If all value rows are equal, the average is that row. */
  lemma EqualValues(exp: real -> real, p: Problem, row: seq<real>)
    requires p.Valid() && |p.key| > 0 && IsAverage(exp, p, row) && EqualRows(p.value)
    ensures row == p.value[0]
  {
    forall d | 0 <= d < |row|
      ensures row[d] == p.value[0][d]
    {
      EqualValuesSum(exp, p, d, |p.key|);
      SameQuotient(row[d], p.value[0][d], SumOfWeights(exp, p, |p.key|));
    }
  }

  /** The rows differ at most in other features of the values. */
  ghost predicate SameFeature(p: Problem, q: Problem, d: nat)
    requires p.Valid() && q.Valid()
  {
    && p.query == q.query && p.key == q.key && p.scale == q.scale && d < |p.query|
    && forall i {:trigger p.value[i]} :: 0 <= i < |p.value| ==> p.value[i][d] == q.value[i][d]
  }

  lemma {:induction false} SameFeatureSums(exp: real -> real, p: Problem, q: Problem, d: nat, n: nat)
    requires p.Valid() && q.Valid() && SameFeature(p, q, d) && n <= |p.key|
    ensures SumOfWeights(exp, p, n) == SumOfWeights(exp, q, n)
    ensures SumOfValues(exp, p, d, n) == SumOfValues(exp, q, d, n)
    decreases n
  {
    if n > 0 {
      SameFeatureSums(exp, p, q, d, n - 1);
      assert KeyScore(p, n - 1) == KeyScore(q, n - 1);
      assert p.value[n - 1][d] == q.value[n - 1][d];
    }
  }

  /** An output feature depends on no other feature of the values. */
  lemma OtherFeaturesIgnored(exp: real -> real, p: Problem, q: Problem, d: nat, row: seq<real>, other: seq<real>)
    requires p.Valid() && q.Valid() && SameFeature(p, q, d) && IsAverage(exp, p, row) && IsAverage(exp, q, other)
    ensures row[d] == other[d]
  {
    SameFeatureSums(exp, p, q, d, |p.key|);
    SameQuotient(row[d], other[d], SumOfWeights(exp, p, |p.key|));
  }
}
