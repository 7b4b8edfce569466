/** The streaming-softmax attention kernel on one query row (one vector lane of the template):
    keys and values arrive tile by tile; running maximum, running sum and output are rescaled. */
module FlashAttention {
  import opened Arithmetic
  import opened SoftmaxTheory
  import opened AttentionRows
  import opened AttentionTiles
  import opened AttentionMeaning

  class RowKernel {
    const exp: real -> real
    /** The row that is asked for, and the foreign key and value rows that its last tile takes in. */
    const asked: Problem
    const keys: seq<seq<real>>
    const values: seq<seq<real>>
    /** The row as it is loaded. */
    const p: Problem
    const tile: nat
    /** The words that lie behind the scores of a tile as far as the chunk loops read; the kernel never writes them. */
    const beyond: seq<real>
    /** The score buffer and the words behind it. */
    const mulBuffer: array<real>
    const maxBuffer: array<real>
    const sumBuffer: array<real>
    const outBuffer: array<real>

    ghost predicate Valid() {
      && IsInput(p, tile, beyond) && IsExp(exp)
      && mulBuffer.Length == ReadWidth(tile) && outBuffer.Length == |p.query|
      && maxBuffer.Length == 2 && sumBuffer.Length == 2
      && mulBuffer != maxBuffer && mulBuffer != sumBuffer && mulBuffer != outBuffer
      && maxBuffer != sumBuffer && maxBuffer != outBuffer && sumBuffer != outBuffer
    }

    constructor (exp: real -> real, asked: Problem, keys: seq<seq<real>>, values: seq<seq<real>>,
                 tile: nat, beyond: seq<real>)
      requires IsRequest(asked, tile, keys, values, beyond) && IsExp(exp)
      ensures Valid() && ForeignKept() && Loads()
      ensures this.exp == exp && this.tile == tile && this.beyond == beyond
      ensures this.asked == asked && this.keys == keys && this.values == values
      ensures fresh(mulBuffer) && fresh(maxBuffer) && fresh(sumBuffer) && fresh(outBuffer)
    {
      LoadedIsInput(asked, tile, keys, values, beyond);
      this.exp, this.p, this.tile, this.beyond := exp, Loaded(asked, keys, values), tile, beyond;
      this.asked, this.keys, this.values := asked, keys, values;
      mulBuffer := new real[ReadWidth(tile)](i requires 0 <= i < ReadWidth(tile) =>
        if i < tile then 0.0 else beyond[i - tile]);
      maxBuffer, sumBuffer, outBuffer := new real[2], new real[2], new real[|asked.query|];
    }

    /** The tiles are loaded from the row that is asked for and what lies behind it. */
    ghost predicate Loads() {
      IsRequest(asked, tile, keys, values, beyond) && p == Loaded(asked, keys, values)
    }

    ghost predicate ForeignKept()
      requires Valid()
      reads mulBuffer
    {
      mulBuffer[tile..] == beyond
    }

    /** The sum, without the share of the foreign words, and the output over the first t keys, shifted by m. */
    ghost predicate Accumulated(t: nat, m: real, extra: real)
      requires Valid() && t <= |p.key|
      reads sumBuffer, outBuffer
    {
      sumBuffer[0] == sumBuffer[1] && State(exp, p, t, m, sumBuffer[0] - extra, outBuffer[..])
    }

    /** What the buffers hold after the first t keys. */
    ghost predicate Streamed(t: nat)
      requires Valid() && t <= |p.key|
      reads maxBuffer, sumBuffer, outBuffer
    {
      var m := RunningMax(p, beyond, t);
      maxBuffer[0] == maxBuffer[1] == m && Accumulated(t, m, Extra(exp, p, tile, beyond, t))
    }

    method Initialize()
      requires Valid()
      modifies maxBuffer, sumBuffer, outBuffer
      ensures Streamed(0)
    {
      Fill(outBuffer, 0, outBuffer.Length, 0.0);
      Fill(maxBuffer, 0, 2, FLOOR);
      Fill(sumBuffer, 0, 2, 0.0);
    }

    method DotRow(i: nat, init: real) returns (acc: real)
      requires Valid() && i < |p.key|
      ensures acc == init + Dot(p.key[i], p.query)
    {
      acc := init;
      var row := p.key[i];
      for d := 0 to |p.query|
        invariant acc == init + Dot(row[..d], p.query[..d])
      {
        DotSnoc(row, p.query, d);
        acc := acc + row[d] * p.query[d];
      }
      assert row[..|p.query|] == row && p.query[..|p.query|] == p.query;
    }

    /** key @ query.t and scaling, for the keys [t, t + tile). */
    method ScoreTile(t: nat)
      requires Valid() && ForeignKept() && t + tile <= |p.key|
      modifies mulBuffer
      ensures mulBuffer[..tile] == p.Scores(t, t + tile) && ForeignKept()
    {
      Fill(mulBuffer, 0, tile, 0.0);
      MultiplyKeys(t);
      ScaleScores(t);
    }

    method ScaleScores(t: nat)
      requires Valid() && ForeignKept() && t + tile <= |p.key|
      requires forall k :: 0 <= k < tile ==> mulBuffer[k] == Dot(p.key[t + k], p.query)
      modifies mulBuffer
      ensures mulBuffer[..tile] == p.Scores(t, t + tile) && ForeignKept()
    {
      ghost var dots, scores := mulBuffer[..tile], p.Scores(t, t + tile);
      forall k | 0 <= k < tile
        ensures scores[k] == dots[k] * p.scale
      {
        ScoreAt(t + k);
      }
      for i := 0 to tile
        invariant forall k :: 0 <= k < i ==> mulBuffer[k] == scores[k]
        invariant forall k :: i <= k < tile ==> mulBuffer[k] == dots[k]
        invariant ForeignKept()
      {
        mulBuffer[i] := mulBuffer[i] * p.scale;
      }
    }

    lemma ScoreAt(i: nat)
      requires Valid() && i < |p.key|
      ensures p.Score(i) == Dot(p.key[i], p.query) * p.scale
    {
    }

    /** The products of the keys with the query, added to zeros. */
    method MultiplyKeys(t: nat)
      requires Valid() && ForeignKept() && t + tile <= |p.key|
      requires forall k :: 0 <= k < tile ==> mulBuffer[k] == 0.0
      modifies mulBuffer
      ensures forall k :: 0 <= k < tile ==> mulBuffer[k] == Dot(p.key[t + k], p.query)
      ensures ForeignKept()
    {
      for i := 0 to tile
        invariant forall k :: 0 <= k < i ==> mulBuffer[k] == Dot(p.key[t + k], p.query)
        invariant forall k :: i <= k < tile ==> mulBuffer[k] == 0.0
        invariant ForeignKept()
      {
        var acc := DotRow(t + i, mulBuffer[i]);
        mulBuffer[i] := acc;
      }
    }

    /** The chunked reduction: 16 lanes wide, folded 8x2, shuffled. It reduces whole chunks, that is the tile
        and the words behind it, and both lanes end equal. */
    method ReduceTile(op: Op) returns (lane0: real, lane1: real)
      requires Valid() && ForeignKept()
      ensures lane0 == lane1 == Apply(op, Reduce(op, mulBuffer[..tile]), Reduce(op, beyond))
      ensures tile % CHUNK_SIZE == 0 ==> lane0 == Reduce(op, mulBuffer[..tile])
    {
      var iter := ReduceChunks(op);
      ghost var words := mulBuffer[..];
      assert words == mulBuffer[..tile] + beyond;
      ReduceConcat(op, mulBuffer[..tile], beyond);
      var fold0, fold1 := FoldPairs(op, iter, 0), FoldPairs(op, iter, 1);
      FoldPairsReduces(op, iter);
      lane0, lane1 := Apply(op, fold0, fold1), Apply(op, fold1, fold0);
      MaxBounds(mulBuffer[..tile]);
    }

    /** The loop over chunks, lane by lane. */
    method ReduceChunks(op: Op) returns (iter: seq<real>)
      requires Valid()
      ensures |iter| == CHUNK_SIZE && Reduce(op, iter) == Reduce(op, mulBuffer[..])
    {
      iter := seq(CHUNK_SIZE, _ => Unit(op));
      UnitVector(op, CHUNK_SIZE);
      ghost var words := mulBuffer[..];
      var at := 0;
      while at < tile
        invariant 0 <= at <= ReadWidth(tile) && at % CHUNK_SIZE == 0 && |iter| == CHUNK_SIZE
        invariant Reduce(op, iter) == Reduce(op, words[..at])
      {
        ChunkPlace(at, tile);
        var chunk := mulBuffer[at..at + CHUNK_SIZE];
        assert chunk == words[at..at + CHUNK_SIZE];
        ChunkStep(op, words, at, iter);
        iter := LaneApply(op, chunk, iter);
        at := at + CHUNK_SIZE;
      }
      ChunkPlace(at, tile);
      assert words[..at] == words;
    }

    /** Rescales the accumulators from the old maximum to the new one. */
    method RescaleAccumulators(t: nat, oldMax: real, newMax: real, ghost extra: real, ghost rescaled: real)
      requires Valid() && t <= |p.key| && Accumulated(t, oldMax, extra)
      requires rescaled == Rescaled(exp, oldMax, newMax, extra)
      modifies outBuffer, sumBuffer
      ensures Accumulated(t, newMax, rescaled)
    {
      var factor := At(exp, oldMax - newMax);
      ghost var plain := sumBuffer[0] - extra;
      StateRescaled(exp, p, t, oldMax, newMax, factor, plain, outBuffer[..]);
      Scale(outBuffer, factor);
      RescaleSum(factor, extra, rescaled);
    }

    method RescaleSum(factor: real, ghost extra: real, ghost rescaled: real)
      requires Valid() && sumBuffer[0] == sumBuffer[1] && rescaled == factor * extra
      modifies sumBuffer
      ensures sumBuffer[0] == sumBuffer[1]
      ensures sumBuffer[0] - rescaled == factor * (old(sumBuffer[0]) - extra)
    {
      FactorOut(factor, sumBuffer[0], extra);
      sumBuffer[0], sumBuffer[1] := factor * sumBuffer[0], factor * sumBuffer[1];
    }

    /** exp(score - max) for the whole tile: the exponents, and that none is positive. */
    method ExpTile(newMax: real) returns (ghost exponents: seq<real>)
      requires Valid() && ForeignKept()
      requires forall i :: 0 <= i < tile ==> mulBuffer[i] <= newMax
      modifies mulBuffer
      ensures ForeignKept() && ExpOf(exp, old(mulBuffer[..tile]), newMax, mulBuffer[..tile])
      ensures |exponents| == tile
      ensures forall i :: 0 <= i < tile ==> exponents[i] <= 0.0 && mulBuffer[i] == At(exp, exponents[i])
    {
      exponents := seq(tile, i requires 0 <= i < tile reads mulBuffer => mulBuffer[i] - newMax);
      for i := 0 to tile
        invariant forall k :: 0 <= k < i ==> mulBuffer[k] == At(exp, old(mulBuffer[k]) - newMax)
        invariant forall k :: i <= k < tile ==> mulBuffer[k] == old(mulBuffer[k])
        invariant ForeignKept()
      {
        mulBuffer[i] := At(exp, mulBuffer[i] - newMax);
      }
    }

    method DotColumn(t: nat, d: nat, init: real) returns (acc: real)
      requires Valid() && t + tile <= |p.key| && d < |p.query|
      ensures acc == init + Dot(mulBuffer[..tile], p.Column(d, t, t + tile))
    {
      ghost var mul, col := mulBuffer[..tile], p.Column(d, t, t + tile);
      acc := init;
      for i := 0 to tile
        invariant acc == init + Dot(mul[..i], col[..i])
      {
        DotSnoc(mul, col, i);
        acc := acc + p.value[t + i][d] * mulBuffer[i];
      }
      assert mul[..tile] == mul && col[..tile] == col;
    }

    /** value.t @ mul, accumulated into the output. */
    method AccumulateValues(t: nat)
      requires Valid() && t + tile <= |p.key|
      modifies outBuffer
      ensures ValuesAdded(p, t, tile, mulBuffer[..tile], old(outBuffer[..]), outBuffer[..])
    {
      ghost var mul, out := mulBuffer[..tile], outBuffer[..];
      for d := 0 to |p.query|
        invariant mulBuffer[..tile] == mul
        invariant forall k :: 0 <= k < d ==> outBuffer[k] == out[k] + Dot(mul, p.Column(k, t, t + tile))
        invariant forall k :: d <= k < |p.query| ==> outBuffer[k] == out[k]
      {
        var acc := DotColumn(t, d, outBuffer[d]);
        outBuffer[d] := acc;
      }
    }

    /** Finds the new maximum of a tile; it bounds every score and every foreign word seen so far. */
    method UpdateMax(t: nat) returns (oldMax: real, newMax: real)
      requires Valid() && ForeignKept() && t + tile <= |p.key|
      requires mulBuffer[..tile] == p.Scores(t, t + tile)
      requires maxBuffer[0] == maxBuffer[1] == RunningMax(p, beyond, t)
      modifies maxBuffer
      ensures oldMax == old(maxBuffer[0]) <= newMax
      ensures maxBuffer[0] == maxBuffer[1] == newMax == RunningMax(p, beyond, t + tile)
      ensures forall i :: 0 <= i < tile ==> mulBuffer[i] <= newMax
    {
      oldMax := maxBuffer[0];
      var max0, max1 := ReduceTile(Max);
      newMax := Apply(Max, max0, oldMax);
      MaxOfTiles(p, beyond, t, tile);
      MaxBounds(mulBuffer[..tile]);
      assert forall i :: 0 <= i < tile ==> mulBuffer[i] == mulBuffer[..tile][i];
      maxBuffer[0], maxBuffer[1] := newMax, Apply(Max, max1, maxBuffer[1]);
    }

    /** Adds the exponentials of a tile to accumulators that are already shifted by m. */
    method AddTile(t: nat, m: real, ghost extra: real)
      requires Valid() && ForeignKept() && t + tile <= |p.key| && Accumulated(t, m, extra)
      requires mulBuffer[..tile] == p.Scores(t, t + tile)
      requires forall i :: 0 <= i < tile ==> mulBuffer[i] <= m
      modifies mulBuffer, sumBuffer, outBuffer
      ensures ForeignKept() && Accumulated(t + tile, m, extra + Reduce(Add, beyond))
    {
      ghost var exponents := ExpTile(m);
      AddExponentials(t, m, extra);
    }

    method AddExponentials(t: nat, m: real, ghost extra: real)
      requires Valid() && ForeignKept() && t + tile <= |p.key| && Accumulated(t, m, extra)
      requires ExpOf(exp, p.Scores(t, t + tile), m, mulBuffer[..tile])
      modifies sumBuffer, outBuffer
      ensures ForeignKept() && Accumulated(t + tile, m, extra + Reduce(Add, beyond))
    {
      ghost var before, out, mul := sumBuffer[0] - extra, outBuffer[..], mulBuffer[..tile];
      AddSums();
      AccumulateValues(t);
      ghost var after := sumBuffer[0] - (extra + Reduce(Add, beyond));
      StateExtended(exp, p, t, tile, m, before, out, mul, after, outBuffer[..]);
    }

    method AddSums()
      requires Valid() && ForeignKept() && sumBuffer[0] == sumBuffer[1]
      modifies sumBuffer
      ensures sumBuffer[0] == sumBuffer[1]
      ensures sumBuffer[0] == Reduce(Add, mulBuffer[..tile]) + Reduce(Add, beyond) + old(sumBuffer[0])
    {
      var sum0, sum1 := ReduceTile(Add);
      sumBuffer[0], sumBuffer[1] := sum0 + sumBuffer[0], sum1 + sumBuffer[1];
    }

    /** One iteration of the loop over key tiles. */
    method StreamTile(t: nat)
      requires Valid() && ForeignKept() && t + tile <= |p.key| && Streamed(t)
      modifies mulBuffer, maxBuffer, sumBuffer, outBuffer
      ensures ForeignKept() && Streamed(t + tile)
      // the maximum never falls, so no rescale exponent is positive ...
      ensures old(maxBuffer[0]) - maxBuffer[0] <= 0.0
      // ... and it bounds every score so far
      ensures forall i: nat :: i < t + tile ==> p.Score(i) - maxBuffer[0] <= 0.0
    {
      ScoreTile(t);
      var oldMax, newMax := UpdateMax(t);
      MoveShift(t, oldMax, newMax);
      ScoresBounded(p, beyond, t + tile);
    }

    /** The accumulators move to the new maximum and take in the tile. */
    method MoveShift(t: nat, oldMax: real, newMax: real)
      requires Valid() && ForeignKept() && t + tile <= |p.key|
      requires oldMax == RunningMax(p, beyond, t) && newMax == RunningMax(p, beyond, t + tile)
      requires Accumulated(t, oldMax, Extra(exp, p, tile, beyond, t)) && mulBuffer[..tile] == p.Scores(t, t + tile)
      requires forall i :: 0 <= i < tile ==> mulBuffer[i] <= newMax
      modifies mulBuffer, sumBuffer, outBuffer
      ensures ForeignKept() && Accumulated(t + tile, newMax, Extra(exp, p, tile, beyond, t + tile))
    {
      ghost var extra := Extra(exp, p, tile, beyond, t);
      ghost var rescaled := ExtraStep(exp, p, tile, beyond, t, oldMax, newMax);
      RescaleAccumulators(t, oldMax, newMax, extra, rescaled);
      AddTile(t, newMax, rescaled);
    }

    /** Once a score above the floor was seen that no foreign word exceeds, and the foreign words do not add
        up to less than zero, the running sum is at least 1. */
    lemma RunningSumBound(t: nat)
      requires Valid() && t <= |p.key| && Streamed(t)
      requires exists i: nat :: i < t && p.Score(i) > FLOOR && p.Score(i) >= Reduce(Max, beyond)
      requires Reduce(Add, beyond) >= 0.0
      ensures sumBuffer[0] >= 1.0
    {
      var s := p.Scores(0, t);
      var i: nat :| i < t && p.Score(i) > FLOOR && p.Score(i) >= Reduce(Max, beyond);
      assert s[i] == p.Score(i);
      MaxBounds(s);
      TotalPositive(exp, s, Reduce(Max, s));
      ExtraSign(exp, p, tile, beyond, t);
    }

    /** The whole row: the output is the row of the specification, which is softmax attention whatever the
        tile size when neither foreign words nor foreign rows are read. */
    method Run() returns (finite: bool)
      requires Valid() && ForeignKept() && Loads()
      modifies mulBuffer, maxBuffer, sumBuffer, outBuffer
      ensures KernelRow(exp, Loaded(asked, keys, values), tile, beyond)
           == if finite then Finite(outBuffer[..]) else NotFinite
      ensures tile % CHUNK_SIZE == 0 && |asked.key| % tile == 0 ==> finite && outBuffer[..] == AttentionRow(exp, asked)
      // then each feature is the weighted average of that feature of the values: equal value rows come out as they
      // are, and no other feature of the values matters
      ensures tile % CHUNK_SIZE == 0 && |asked.key| % tile == 0 ==>
        && IsAverage(exp, asked, outBuffer[..])
        && (EqualRows(asked.value) ==> outBuffer[..] == asked.value[0])
        && forall q: Problem, d: nat :: q.Valid() && SameFeature(asked, q, d) ==>
          outBuffer[d] == AttentionRow(exp, q)[d]
    {
      Initialize();
      StreamAll();
      finite := Divide();
      if tile % CHUNK_SIZE == 0 && |asked.key| % tile == 0 {
        WholeTilesExact(exp, asked, tile, keys, values, beyond);
        RowMeans(exp, asked, outBuffer[..]);
      }
    }

    /** Between two tiles. */
    ghost predicate Streaming(t: nat)
      requires Valid()
      reads mulBuffer, maxBuffer, sumBuffer, outBuffer
    {
      IsTileStart(t, tile, |p.key|) && Streamed(t) && ForeignKept()
    }

    method StreamNext(t: nat)
      requires Valid() && Streaming(t) && t < |p.key|
      modifies mulBuffer, maxBuffer, sumBuffer, outBuffer
      ensures Streaming(t + tile)
    {
      NextTileStart(t, tile, |p.key|);
      StreamTile(t);
    }

    /** The loop over key tiles. */
    method StreamAll()
      requires Valid() && ForeignKept() && Streamed(0)
      modifies mulBuffer, maxBuffer, sumBuffer, outBuffer
      ensures Streamed(|p.key|)
    {
      var t := 0;
      while t < |p.key|
        invariant Streaming(t)
      {
        StreamNext(t);
        t := t + tile;
      }
    }

    /** out @ row_sum^(-1); a zero sum has no reciprocal. */
    method Divide() returns (finite: bool)
      requires Valid() && Streamed(|p.key|)
      modifies outBuffer
      ensures KernelRow(exp, p, tile, beyond) == if finite then Finite(outBuffer[..]) else NotFinite
    {
      finite := sumBuffer[0] != 0.0;
      ghost var out, sum := outBuffer[..], sumBuffer[0];
      assert sum == RowSum(exp, p, tile, beyond);
      if finite {
        var reciprocal := 1.0 / sumBuffer[0];
        Scale(outBuffer, reciprocal);
        KernelRowIs(exp, p, tile, beyond, sum, out);
      }
    }
  }

  method Scale(a: array<real>, f: real)
    modifies a
    ensures a[..] == Times(f, old(a[..]))
  {
    for i := 0 to a.Length
      invariant forall k :: 0 <= k < i ==> a[k] == Times(f, old(a[..]))[k]
      invariant forall k :: i <= k < a.Length ==> a[k] == old(a[k])
    {
      a[i] := f * a[i];
    }
  }

  lemma FactorOut(f: real, sum: real, extra: real)
    ensures f * sum - f * extra == f * (sum - extra)
  {
  }

  predicate IsTileStart(t: nat, tile: nat, n: nat)
    requires tile > 0
  {
    t % tile == 0 && t <= n
  }

  lemma NextTileStart(t: nat, tile: nat, n: nat)
    requires tile > 0 && n % tile == 0 && IsTileStart(t, tile, n) && t < n
    ensures t + tile <= n && IsTileStart(t + tile, tile, n)
  {
    NextMultiple(t, n, tile);
  }

  /** The chunks fill the words that are read exactly. */
  lemma ChunkPlace(at: nat, tile: nat)
    requires at <= ReadWidth(tile) && at % CHUNK_SIZE == 0
    ensures at < tile ==> at + CHUNK_SIZE <= ReadWidth(tile) && (at + CHUNK_SIZE) % CHUNK_SIZE == 0
    ensures at >= tile ==> at == ReadWidth(tile)
  {
  }

  /** One more chunk, folded into the lanes. */
  lemma ChunkStep(op: Op, words: seq<real>, at: nat, iter: seq<real>)
    requires at + CHUNK_SIZE <= |words| && |iter| == CHUNK_SIZE && Reduce(op, iter) == Reduce(op, words[..at])
    ensures Reduce(op, LaneApply(op, words[at..at + CHUNK_SIZE], iter)) == Reduce(op, words[..at + CHUNK_SIZE])
  {
    var chunk := words[at..at + CHUNK_SIZE];
    ReduceLanes(op, chunk, iter);
    assert words[..at + CHUNK_SIZE] == words[..at] + chunk;
    ReduceConcat(op, words[..at], chunk);
  }

  /** The running maximum after one more tile. */
  lemma MaxOfTiles(p: Problem, beyond: seq<real>, t: nat, tile: nat)
    requires p.Valid() && tile > 0 && t + tile <= |p.key|
    ensures var tileMax := Apply(Max, Reduce(Max, p.Scores(t, t + tile)), Reduce(Max, beyond));
            RunningMax(p, beyond, t + tile) == Apply(Max, tileMax, RunningMax(p, beyond, t))
  {
    assert p.Scores(0, t + tile) == p.Scores(0, t) + p.Scores(t, t + tile);
    ReduceConcat(Max, p.Scores(0, t), p.Scores(t, t + tile));
    MaxBounds(p.Scores(0, t));
    MaxBounds(beyond);
  }

  lemma ScoresBounded(p: Problem, beyond: seq<real>, t: nat)
    requires p.Valid() && 0 < t <= |p.key|
    ensures forall i: nat :: i < t ==> p.Score(i) <= RunningMax(p, beyond, t)
  {
    MaxBounds(p.Scores(0, t));
    assert forall i: nat :: i < t ==> p.Scores(0, t)[i] == p.Score(i);
  }

  /** Scaling the accumulated output by the reciprocal of the sum gives the row of the specification. */
  lemma KernelRowIs(exp: real -> real, p: Problem, tile: nat, beyond: seq<real>, sum: real, out: seq<real>)
    requires p.Valid() && tile > 0 && |out| == |p.query| && sum == RowSum(exp, p, tile, beyond) && sum != 0.0
    requires forall d {:trigger p.Column(d, 0, |p.key|)} :: 0 <= d < |out| ==>
      out[d] == Weighted(exp, p.Scores(0, |p.key|), p.Column(d, 0, |p.key|), RunningMax(p, beyond, |p.key|))
    ensures KernelRow(exp, p, tile, beyond) == Finite(Times(1.0 / sum, out))
  {
    var row := KernelRow(exp, p, tile, beyond).out;
    forall d | 0 <= d < |out|
      ensures Times(1.0 / sum, out)[d] == row[d]
    {
      assert out[d] == Weighted(exp, p.Scores(0, |p.key|), p.Column(d, 0, |p.key|), RunningMax(p, beyond, |p.key|));
    }
  }

  method Fill(a: array<real>, lo: nat, hi: nat, v: real)
    requires lo <= hi <= a.Length
    modifies a
    ensures forall i :: lo <= i < hi ==> a[i] == v
    ensures forall i :: 0 <= i < a.Length && !(lo <= i < hi) ==> a[i] == old(a[i])
  {
    for i := lo to hi
      invariant forall k :: lo <= k < i ==> a[k] == v
      invariant forall k :: 0 <= k < a.Length && !(lo <= k < i) ==> a[k] == old(a[k])
    {
      a[i] := v;
    }
  }

  lemma {:induction false} UnitVector(op: Op, n: nat)
    ensures Reduce(op, seq(n, _ => Unit(op))) == Unit(op)
    decreases n
  {
    if n > 0 {
      assert seq(n, _ => Unit(op))[1..] == seq(n - 1, _ => Unit(op));
      UnitVector(op, n - 1);
    }
  }

  lemma RowMeans(exp: real -> real, p: Problem, row: seq<real>)
    requires IsExp(exp) && p.Valid() && |p.key| > 0 && row == AttentionRow(exp, p)
    ensures IsAverage(exp, p, row)
    ensures EqualRows(p.value) ==> row == p.value[0]
    ensures forall q: Problem, d: nat :: q.Valid() && SameFeature(p, q, d) ==> row[d] == AttentionRow(exp, q)[d]
  {
    AttentionIsAverage(exp, p);
    if EqualRows(p.value) {
      EqualValues(exp, p, row);
    }
    forall q: Problem, d: nat | q.Valid() && SameFeature(p, q, d)
      ensures row[d] == AttentionRow(exp, q)[d]
    {
      AttentionIsAverage(exp, q);
      OtherFeaturesIgnored(exp, p, q, d, row, AttentionRow(exp, q));
    }
  }
}
