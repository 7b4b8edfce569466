/** Softmax attention of one query row, and what the tile-by-tile kernel makes of it when its chunked
    reductions read past the end of a tile. */
module AttentionRows {
  import opened SoftmaxTheory

  const CHUNK_SIZE: nat := 16

  /** One query row against s keys of e features, with s value rows. */
  datatype Problem = Problem(query: seq<real>, key: seq<seq<real>>, value: seq<seq<real>>, scale: real) {
    ghost predicate Valid() {
      && |key| == |value|
      && (forall i :: 0 <= i < |key| ==> |key[i]| == |query|)
      && (forall i :: 0 <= i < |value| ==> |value[i]| == |query|)
    }

    /** The scaled score of key i. */
    ghost function Score(i: nat): real
      requires Valid() && i < |key|
    {
      Dot(key[i], query) * scale
    }

    ghost function Scores(lo: nat, hi: nat): (r: seq<real>)
      requires Valid() && lo <= hi <= |key|
      ensures |r| == hi - lo
    {
      seq(hi - lo, i requires 0 <= i < hi - lo => Score(lo + i))
    }

    ghost function Column(d: nat, lo: nat, hi: nat): (r: seq<real>)
      requires Valid() && d < |query| && lo <= hi <= |key|
      ensures |r| == hi - lo
    {
      seq(hi - lo, i requires 0 <= i < hi - lo => value[lo + i][d])
    }

    /** Softmax attention: feature d of the average of the value rows. */
    ghost function Attention(exp: real -> real, d: nat): real
      requires Valid() && d < |query| && |key| > 0 && IsExp(exp)
    {
      TotalPositive(exp, Scores(0, |key|), 0.0);
      Dot(Softmax(exp, Scores(0, |key|)), Column(d, 0, |key|))
    }
  }

  // ----- the accumulators -----

  /** sum and out are the softmax denominator and numerators over the first t keys, shifted by m. */
  ghost predicate State(exp: real -> real, p: Problem, t: nat, m: real, sum: real, out: seq<real>)
    requires p.Valid() && t <= |p.key| && |out| == |p.query|
  {
    && sum == Total(exp, p.Scores(0, t), m)
    && forall d {:trigger p.Column(d, 0, t)} :: 0 <= d < |out| ==>
      out[d] == Weighted(exp, p.Scores(0, t), p.Column(d, 0, t), m)
  }

  function Times(f: real, s: seq<real>): (r: seq<real>)
    ensures |r| == |s|
  {
    seq(|s|, i requires 0 <= i < |s| => f * s[i])
  }

  lemma StateRescaled(exp: real -> real, p: Problem, t: nat, m: real, n: real, f: real, sum: real, out: seq<real>)
    requires IsExp(exp) && p.Valid() && t <= |p.key| && |out| == |p.query|
    requires State(exp, p, t, m, sum, out) && f == At(exp, m - n)
    ensures State(exp, p, t, n, f * sum, Times(f, out))
  {
    RescaleValue(exp, p.Scores(0, t), Ones(t), m, n, f, sum, f * sum);
    forall d | 0 <= d < |out|
      ensures Times(f, out)[d] == Weighted(exp, p.Scores(0, t), p.Column(d, 0, t), n)
    {
      RescaleValue(exp, p.Scores(0, t), p.Column(d, 0, t), m, n, f, out[d], Times(f, out)[d]);
    }
  }

  /** mul holds the exponentials of the scores shifted by m. */
  ghost predicate ExpOf(exp: real -> real, s: seq<real>, m: real, mul: seq<real>) {
    |mul| == |s| && forall i :: 0 <= i < |s| ==> mul[i] == At(exp, s[i] - m)
  }

  ghost predicate ValuesAdded(p: Problem, t: nat, tile: nat, mul: seq<real>, out: seq<real>, out': seq<real>)
    requires p.Valid() && t + tile <= |p.key| && |mul| == tile
  {
    && |out| == |out'| == |p.query|
    && forall d {:trigger p.Column(d, t, t + tile)} :: 0 <= d < |out| ==>
      out'[d] == out[d] + Dot(mul, p.Column(d, t, t + tile))
  }

  lemma StateExtended(exp: real -> real, p: Problem, t: nat, tile: nat, m: real,
                      sum: real, out: seq<real>, mul: seq<real>, sum': real, out': seq<real>)
    requires IsExp(exp) && p.Valid() && t + tile <= |p.key| && |out| == |p.query| && |mul| == tile
    requires State(exp, p, t, m, sum, out)
    requires ExpOf(exp, p.Scores(t, t + tile), m, mul)
    requires ValuesAdded(p, t, tile, mul, out, out') && sum' == Reduce(Add, mul) + sum
    ensures State(exp, p, t + tile, m, sum', out')
  {
    SumExtended(exp, p, t, tile, m, sum, mul, sum');
    forall d | 0 <= d < |out|
      ensures out'[d] == Weighted(exp, p.Scores(0, t + tile), p.Column(d, 0, t + tile), m)
    {
      FeatureExtended(exp, p, t, tile, m, d, out[d], mul, out'[d]);
    }
  }

  lemma SumExtended(exp: real -> real, p: Problem, t: nat, tile: nat, m: real, sum: real, mul: seq<real>, sum': real)
    requires p.Valid() && t + tile <= |p.key| && |mul| == tile
    requires sum == Total(exp, p.Scores(0, t), m) && sum' == Reduce(Add, mul) + sum
    requires ExpOf(exp, p.Scores(t, t + tile), m, mul)
    ensures sum' == Total(exp, p.Scores(0, t + tile), m)
  {
    SumIsDot(mul);
    assert Ones(t + tile) == Ones(t) + Ones(tile);
    ValueExtended(exp, p, t, tile, m, mul, Ones(t), Ones(tile));
  }

  lemma FeatureExtended(exp: real -> real, p: Problem, t: nat, tile: nat, m: real, d: nat, w: real, mul: seq<real>,
                        w': real)
    requires p.Valid() && t + tile <= |p.key| && |mul| == tile && d < |p.query|
    requires w == Weighted(exp, p.Scores(0, t), p.Column(d, 0, t), m)
    requires w' == w + Dot(mul, p.Column(d, t, t + tile))
    requires ExpOf(exp, p.Scores(t, t + tile), m, mul)
    ensures w' == Weighted(exp, p.Scores(0, t + tile), p.Column(d, 0, t + tile), m)
  {
    assert p.Column(d, 0, t + tile) == p.Column(d, 0, t) + p.Column(d, t, t + tile);
    ValueExtended(exp, p, t, tile, m, mul, p.Column(d, 0, t), p.Column(d, t, t + tile));
  }

  lemma ValueExtended(exp: real -> real, p: Problem, t: nat, tile: nat, m: real, mul: seq<real>, v0: seq<real>,
                      v1: seq<real>)
    requires p.Valid() && t + tile <= |p.key| && |mul| == |v1| == tile && |v0| == t
    requires ExpOf(exp, p.Scores(t, t + tile), m, mul)
    ensures Weighted(exp, p.Scores(0, t + tile), v0 + v1, m) == Weighted(exp, p.Scores(0, t), v0, m) + Dot(mul, v1)
  {
    assert p.Scores(0, t + tile) == p.Scores(0, t) + p.Scores(t, t + tile);
    WeightedConcat(exp, p.Scores(0, t), v0, p.Scores(t, t + tile), v1, m);
    ExpDot(exp, p.Scores(t, t + tile), mul, m, v1);
  }

  lemma RescaleValue(exp: real -> real, s: seq<real>, v: seq<real>, m: real, n: real, e: real, w: real, r: real)
    requires IsExp(exp) && |s| == |v| && e == At(exp, m - n) && w == Weighted(exp, s, v, m) && r == e * w
    ensures r == Weighted(exp, s, v, n)
  {
    Rescale(exp, s, v, m, n, m - n);
  }

  /** A dot product with exponentials is a weighted sum. */
  lemma {:induction false} ExpDot(exp: real -> real, s: seq<real>, e: seq<real>, m: real, v: seq<real>)
    requires |s| == |e| == |v|
    requires forall i :: 0 <= i < |s| ==> e[i] == At(exp, s[i] - m)
    ensures Dot(e, v) == Weighted(exp, s, v, m)
    decreases |s|
  {
    if |s| > 0 {
      ExpDot(exp, s[1..], e[1..], m, v[1..]);
    }
  }

  lemma {:induction false} SumIsDot(e: seq<real>)
    ensures Reduce(Add, e) == Dot(e, Ones(|e|))
    decreases |e|
  {
    if |e| > 0 {
      assert Ones(|e|)[1..] == Ones(|e[1..]|);
      SumIsDot(e[1..]);
    }
  }

  // ----- what the kernel computes -----

  /** How many words the loops over chunks of 16 read for a tile. */
  function ReadWidth(tile: nat): (w: nat)
    ensures tile <= w < tile + CHUNK_SIZE && w % CHUNK_SIZE == 0
    ensures w == tile <==> tile % CHUNK_SIZE == 0
  {
    if tile % CHUNK_SIZE == 0 then tile else tile + (CHUNK_SIZE - tile % CHUNK_SIZE)
  }

  /** A row for the kernel: tiles fill the keys, and beyond holds the words read after the scores of a tile. */
  ghost predicate IsInput(p: Problem, tile: nat, beyond: seq<real>) {
    p.Valid() && tile > 0 && |p.key| > 0 && |p.key| % tile == 0 && |beyond| == ReadWidth(tile) - tile
  }

  /** The maximum buffer after the first t keys: foreign words take part once a tile was read. */
  ghost function RunningMax(p: Problem, beyond: seq<real>, t: nat): real
    requires p.Valid() && t <= |p.key|
  {
    if t == 0 then FLOOR else Apply(Max, Reduce(Max, p.Scores(0, t)), Reduce(Max, beyond))
  }

  /** A value accumulated under the shift m, rescaled to the shift n. */
  function Rescaled(exp: real -> real, m: real, n: real, x: real): real {
    At(exp, m - n) * x
  }

  /** What the foreign words contribute to the sum buffer after the first t keys. */
  ghost function Extra(exp: real -> real, p: Problem, tile: nat, beyond: seq<real>, t: nat): real
    requires p.Valid() && tile > 0 && t <= |p.key|
    decreases t
  {
    if t < tile then 0.0
    else
      Rescaled(exp, RunningMax(p, beyond, t - tile), RunningMax(p, beyond, t), Extra(exp, p, tile, beyond, t - tile))
      + Reduce(Add, beyond)
  }

  lemma ExtraStep(exp: real -> real, p: Problem, tile: nat, beyond: seq<real>, t: nat, m: real, n: real)
    returns (rescaled: real)
    requires p.Valid() && tile > 0 && t + tile <= |p.key|
    requires m == RunningMax(p, beyond, t) && n == RunningMax(p, beyond, t + tile)
    ensures rescaled == Rescaled(exp, m, n, Extra(exp, p, tile, beyond, t))
    ensures Extra(exp, p, tile, beyond, t + tile) == rescaled + Reduce(Add, beyond)
  {
    rescaled := Rescaled(exp, m, n, Extra(exp, p, tile, beyond, t));
  }

  lemma SameSign(exp: real -> real, m: real, n: real, x: real)
    requires IsExp(exp)
    ensures (x >= 0.0 ==> Rescaled(exp, m, n, x) >= 0.0) && (x <= 0.0 ==> Rescaled(exp, m, n, x) <= 0.0)
  {
    SignOfProduct(At(exp, m - n), x);
  }

  lemma SignOfProduct(f: real, x: real)
    requires f > 0.0
    ensures (x >= 0.0 ==> f * x >= 0.0) && (x <= 0.0 ==> f * x <= 0.0)
  {
  }

  /** Rescaling never cancels the foreign words: from the first tile on they contribute with their sign. */
  lemma {:induction false} ExtraSign(exp: real -> real, p: Problem, tile: nat, beyond: seq<real>, t: nat)
    requires IsExp(exp) && p.Valid() && tile > 0 && t <= |p.key|
    ensures var g, x := Reduce(Add, beyond), Extra(exp, p, tile, beyond, t);
            && (g == 0.0 ==> x == 0.0)
            && (g > 0.0 ==> x >= 0.0 && (t >= tile ==> x > 0.0))
            && (g < 0.0 ==> x <= 0.0 && (t >= tile ==> x < 0.0))
    decreases t
  {
    if t >= tile {
      ExtraSign(exp, p, tile, beyond, t - tile);
      SameSign(exp, RunningMax(p, beyond, t - tile), RunningMax(p, beyond, t), Extra(exp, p, tile, beyond, t - tile));
    }
  }

  /** The sum buffer at the end of the row. */
  ghost function RowSum(exp: real -> real, p: Problem, tile: nat, beyond: seq<real>): real
    requires p.Valid() && tile > 0
  {
    var n := |p.key|;
    Total(exp, p.Scores(0, n), RunningMax(p, beyond, n)) + Extra(exp, p, tile, beyond, n)
  }

  datatype Row = NotFinite | Finite(out: seq<real>)

  /** The output row; a zero sum has no reciprocal. */
  ghost function KernelRow(exp: real -> real, p: Problem, tile: nat, beyond: seq<real>): Row
    requires p.Valid() && tile > 0
  {
    var n, sum := |p.key|, RowSum(exp, p, tile, beyond);
    if sum == 0.0 then NotFinite
    else
      Finite(seq(|p.query|, d requires 0 <= d < |p.query| =>
        1.0 / sum * Weighted(exp, p.Scores(0, n), p.Column(d, 0, n), RunningMax(p, beyond, n))))
  }

  ghost function AttentionRow(exp: real -> real, p: Problem): (r: seq<real>)
    requires p.Valid() && |p.key| > 0 && IsExp(exp)
    ensures |r| == |p.query|
  {
    seq(|p.query|, d requires 0 <= d < |p.query| => p.Attention(exp, d))
  }

  // ----- when that is attention -----

  /** A quotient by t + g is the quotient by t exactly when g is zero or there is nothing to divide. */
  lemma QuotientMoves(w: real, t: real, g: real)
    requires t > 0.0 && t + g != 0.0
    ensures 1.0 / (t + g) * w == w * (1.0 / t) <==> g == 0.0 || w == 0.0
  {
    var x, y := 1.0 / (t + g) * w, w * (1.0 / t);
    assert y * t == w * (1.0 / t * t) == w;
    assert x * (t + g) == w * (1.0 / (t + g) * (t + g)) == w;
    if x == y && g != 0.0 {
      assert x * t + x * g == x * t;
      ZeroFactor(x, g);
    }
  }

  lemma ZeroFactor(x: real, g: real)
    requires x * g == 0.0 && g != 0.0
    ensures x == 0.0
  {
    assert x * g / g == x;
  }

  lemma FeatureExact(exp: real -> real, p: Problem, d: nat, m: real, t: real, g: real)
    requires IsExp(exp) && p.Valid() && |p.key| > 0 && d < |p.query|
    requires t == Total(exp, p.Scores(0, |p.key|), m) && t + g != 0.0
    ensures t > 0.0
    ensures 1.0 / (t + g) * Weighted(exp, p.Scores(0, |p.key|), p.Column(d, 0, |p.key|), m) == p.Attention(exp, d)
       <==> g == 0.0 || p.Attention(exp, d) == 0.0
  {
    var s, v := p.Scores(0, |p.key|), p.Column(d, 0, |p.key|);
    var w := Weighted(exp, s, v, m);
    ShiftedAverage(exp, s, v, m);
    QuotientMoves(w, t, g);
    assert w * (1.0 / t) == 0.0 <==> w == 0.0 by {
      assert w * (1.0 / t) * t == w * (1.0 / t * t) == w;
    }
  }

  ghost predicate AllZero(s: seq<real>) {
    forall i :: 0 <= i < |s| ==> s[i] == 0.0
  }

  lemma KernelOut(exp: real -> real, p: Problem, tile: nat, beyond: seq<real>, m: real, sum: real, d: nat)
    requires p.Valid() && tile > 0 && d < |p.query| && m == RunningMax(p, beyond, |p.key|)
    requires sum == RowSum(exp, p, tile, beyond) && sum != 0.0
    ensures KernelRow(exp, p, tile, beyond).Finite? && |KernelRow(exp, p, tile, beyond).out| == |p.query|
    ensures KernelRow(exp, p, tile, beyond).out[d]
         == 1.0 / sum * Weighted(exp, p.Scores(0, |p.key|), p.Column(d, 0, |p.key|), m)
  {
  }

  lemma RowExact(exp: real -> real, p: Problem, tile: nat, beyond: seq<real>, m: real, t: real, g: real)
    requires IsExp(exp) && p.Valid() && tile > 0 && |p.key| > 0 && m == RunningMax(p, beyond, |p.key|)
    requires t == Total(exp, p.Scores(0, |p.key|), m) && t + g == RowSum(exp, p, tile, beyond) && t + g != 0.0
    ensures KernelRow(exp, p, tile, beyond) == Finite(AttentionRow(exp, p))
       <==> g == 0.0 || AllZero(AttentionRow(exp, p))
  {
    var out := KernelRow(exp, p, tile, beyond).out;
    forall d | 0 <= d < |p.query|
      ensures out[d] == AttentionRow(exp, p)[d] <==> g == 0.0 || AttentionRow(exp, p)[d] == 0.0
    {
      KernelOut(exp, p, tile, beyond, m, t + g, d);
      FeatureExact(exp, p, d, m, t, g);
    }
    RowsAgree(out, AttentionRow(exp, p), g == 0.0);
  }

  /** Main result for given foreign words: the row is attention exactly when their sum is zero, or when the
      attention itself is zero and the row sum is not. */
  lemma KernelExactIff(exp: real -> real, p: Problem, tile: nat, beyond: seq<real>)
    requires IsExp(exp) && IsInput(p, tile, beyond)
    ensures KernelRow(exp, p, tile, beyond) == Finite(AttentionRow(exp, p)) <==>
      || Reduce(Add, beyond) == 0.0
      || (RowSum(exp, p, tile, beyond) != 0.0 && AllZero(AttentionRow(exp, p)))
  {
    var n, m := |p.key|, RunningMax(p, beyond, |p.key|);
    var t, g := Total(exp, p.Scores(0, n), m), Extra(exp, p, tile, beyond, n);
    LastTileFits(n, tile);
    ExtraSign(exp, p, tile, beyond, n);
    TotalPositive(exp, p.Scores(0, n), m);
    if RowSum(exp, p, tile, beyond) != 0.0 {
      RowExact(exp, p, tile, beyond, m, t, g);
    }
  }

  lemma RowsAgree(a: seq<real>, b: seq<real>, always: bool)
    requires |a| == |b| && forall d :: 0 <= d < |a| ==> (a[d] == b[d] <==> always || b[d] == 0.0)
    ensures a == b <==> always || AllZero(b)
  {
  }

  lemma LastTileFits(n: nat, tile: nat)
    requires tile > 0 && n > 0 && n % tile == 0
    ensures n >= tile
  {
  }

  /** A row whose attention is 1. */
  function UnitProblem(tile: nat): (p: Problem)
    ensures p.Valid() && |p.key| == tile && |p.query| == 1
  {
    Problem([0.0], seq(tile, _ => [0.0]), seq(tile, _ => [1.0]), 1.0)
  }

  lemma UnitAttention(exp: real -> real, tile: nat)
    requires IsExp(exp) && tile > 0
    ensures AttentionRow(exp, UnitProblem(tile)) == [1.0]
  {
    var p := UnitProblem(tile);
    assert p.Column(0, 0, tile) == Ones(tile);
    SoftmaxSumsToOne(exp, p.Scores(0, tile));
    assert AttentionRow(exp, p)[0] == 1.0;
  }

  /** One foreign word 1 and zeros. */
  function OneWord(n: nat): (r: seq<real>)
    ensures |r| == n
  {
    seq(n, i => if i == 0 then 1.0 else 0.0)
  }

  lemma {:induction false} ZerosAddUp(n: nat)
    ensures Reduce(Add, seq(n, _ => 0.0)) == 0.0
    decreases n
  {
    if n > 0 {
      assert seq(n, _ => 0.0)[1..] == seq(n - 1, _ => 0.0);
      ZerosAddUp(n - 1);
    }
  }

  lemma OneWordSum(n: nat)
    requires n > 0
    ensures Reduce(Add, OneWord(n)) == 1.0
  {
    ZerosAddUp(n - 1);
    assert OneWord(n)[1..] == seq(n - 1, _ => 0.0);
  }

  /** A tile that is no multiple of 16: foreign words that spoil the row of UnitProblem. */
  lemma OddTileFails(exp: real -> real, tile: nat)
    requires IsExp(exp) && tile > 0 && tile % CHUNK_SIZE != 0
    ensures var p, beyond := UnitProblem(tile), OneWord(ReadWidth(tile) - tile);
            IsInput(p, tile, beyond) && KernelRow(exp, p, tile, beyond) != Finite(AttentionRow(exp, p))
  {
    var p, beyond := UnitProblem(tile), OneWord(ReadWidth(tile) - tile);
    OneWordSum(|beyond|);
    UnitAttention(exp, tile);
    assert AttentionRow(exp, p)[0] == 1.0;
    KernelExactIff(exp, p, tile, beyond);
  }

  /** The shipped configuration with eight lanes selects tiles of eight keys. */
  lemma EightLanesFail(exp: real -> real)
    requires IsExp(exp)
    ensures ReadWidth(8) == 16
    ensures exists p, beyond :: IsInput(p, 8, beyond) && KernelRow(exp, p, 8, beyond) != Finite(AttentionRow(exp, p))
  {
    OddTileFails(exp, 8);
  }

  lemma WholeChunksExact(exp: real -> real, p: Problem, tile: nat, beyond: seq<real>)
    requires IsExp(exp) && IsInput(p, tile, beyond) && tile % CHUNK_SIZE == 0
    ensures KernelRow(exp, p, tile, beyond) == Finite(AttentionRow(exp, p))
  {
    assert beyond == [];
    KernelExactIff(exp, p, tile, beyond);
  }

  /** Main result: the kernel computes attention for every row and whatever lies behind the score buffer,
      exactly for the tile sizes that are multiples of 16. */
  lemma AttentionIffWholeChunks(exp: real -> real, tile: nat)
    requires IsExp(exp) && tile > 0
    ensures (forall p, beyond :: IsInput(p, tile, beyond) ==>
               KernelRow(exp, p, tile, beyond) == Finite(AttentionRow(exp, p)))
       <==> tile % CHUNK_SIZE == 0
  {
    if tile % CHUNK_SIZE == 0 {
      forall p, beyond | IsInput(p, tile, beyond)
        ensures KernelRow(exp, p, tile, beyond) == Finite(AttentionRow(exp, p))
      {
        WholeChunksExact(exp, p, tile, beyond);
      }
    } else {
      OddTileFails(exp, tile);
    }
  }

  /** For one row: if some feature of its attention is not zero, only whole chunks are right for all foreign words. */
  lemma RowExactIff(exp: real -> real, p: Problem, tile: nat)
    requires IsExp(exp) && p.Valid() && tile > 0 && |p.key| > 0 && |p.key| % tile == 0
    requires !AllZero(AttentionRow(exp, p))
    ensures (forall beyond :: IsInput(p, tile, beyond) ==>
               KernelRow(exp, p, tile, beyond) == Finite(AttentionRow(exp, p)))
       <==> tile % CHUNK_SIZE == 0
  {
    if tile % CHUNK_SIZE == 0 {
      AttentionIffWholeChunks(exp, tile);
    } else {
      var beyond := OneWord(ReadWidth(tile) - tile);
      OneWordSum(|beyond|);
      KernelExactIff(exp, p, tile, beyond);
      assert IsInput(p, tile, beyond);
    }
  }

  /** The chunked reduction is the plain one for all foreign words exactly when there are none. */
  lemma ReductionExactIff(op: Op, tile: nat, s: seq<real>)
    requires |s| == tile
    ensures (forall beyond: seq<real> :: |beyond| == ReadWidth(tile) - tile ==> Reduce(op, s + beyond) == Reduce(op, s))
       <==> tile % CHUNK_SIZE == 0
  {
    if tile % CHUNK_SIZE == 0 {
      forall beyond: seq<real> | |beyond| == 0
        ensures s + beyond == s
      {
      }
    } else {
      var top := Reduce(Max, s) + 1.0;
      var beyond := if op.Add? then OneWord(ReadWidth(tile) - tile) else seq(ReadWidth(tile) - tile, _ => top);
      ReduceConcat(op, s, beyond);
      if op.Add? {
        OneWordSum(|beyond|);
      } else {
        MaxBounds(beyond);
        assert beyond[0] == top;
      }
    }
  }
}
