/** The last tile of a row: when the tiles do not fill the keys, it takes in foreign key and value rows. */
module AttentionTiles {
  import opened Arithmetic
  import opened SoftmaxTheory
  import opened AttentionRows

  /** How many rows the last tile reads beyond the n keys. */
  function Missing(n: nat, tile: nat): (k: nat)
    requires tile > 0
    ensures k < tile && (n + k) % tile == 0
    ensures k == 0 <==> n % tile == 0
  {
    if n % tile == 0 then 0
    else
      FillsUp(n, tile);
      tile - n % tile
  }

  lemma FillsUp(n: nat, tile: nat)
    requires tile > 0
    ensures (n + (tile - n % tile)) % tile == 0
  {
    assert n + (tile - n % tile) == (n / tile + 1) * tile + 0 by {
      Distribute(n / tile, 1, tile);
    }
    DivMod(n / tile + 1, tile, 0);
  }

  /** A row for the kernel, with what lies behind its keys, its values and its score buffer. */
  ghost predicate IsRequest(p: Problem, tile: nat, keys: seq<seq<real>>, values: seq<seq<real>>, beyond: seq<real>) {
    && p.Valid() && tile > 0 && |p.key| > 0
    && |keys| == |values| == Missing(|p.key|, tile) && |beyond| == ReadWidth(tile) - tile
    && (forall i :: 0 <= i < |keys| ==> |keys[i]| == |p.query|)
    && forall i :: 0 <= i < |values| ==> |values[i]| == |p.query|
  }

  /** The row as the tiles are loaded. */
  function Loaded(p: Problem, keys: seq<seq<real>>, values: seq<seq<real>>): Problem {
    Problem(p.query, p.key + keys, p.value + values, p.scale)
  }

  lemma LoadedIsInput(p: Problem, tile: nat, keys: seq<seq<real>>, values: seq<seq<real>>, beyond: seq<real>)
    requires IsRequest(p, tile, keys, values, beyond)
    ensures IsInput(Loaded(p, keys, values), tile, beyond)
    ensures |p.key| % tile == 0 ==> Loaded(p, keys, values) == p
  {
    assert |keys| == 0 ==> p.key + keys == p.key && p.value + values == p.value;
  }

  lemma WholeTilesExact(exp: real -> real, p: Problem, tile: nat, keys: seq<seq<real>>, values: seq<seq<real>>,
                        beyond: seq<real>)
    requires IsExp(exp) && IsRequest(p, tile, keys, values, beyond)
    requires tile % CHUNK_SIZE == 0 && |p.key| % tile == 0
    ensures KernelRow(exp, Loaded(p, keys, values), tile, beyond) == Finite(AttentionRow(exp, p))
  {
    LoadedIsInput(p, tile, keys, values, beyond);
    WholeChunksExact(exp, p, tile, beyond);
  }

  // ----- rows that go wrong -----

  lemma {:induction false} DotPositive(w: seq<real>, v: seq<real>)
    requires |w| == |v| > 0 && (forall i :: 0 <= i < |w| ==> w[i] > 0.0)
    requires (forall i :: 0 <= i < |v| ==> v[i] >= 0.0) && v[|v| - 1] > 0.0
    ensures Dot(w, v) > 0.0
    decreases |w|
  {
    TermSign(w[0], v[0]);
    if |w| > 1 {
      DotPositive(w[1..], v[1..]);
    }
  }

  lemma TermSign(a: real, b: real)
    requires a > 0.0 && b >= 0.0
    ensures a * b >= 0.0 && (b > 0.0 ==> a * b > 0.0)
  {
  }

  lemma {:induction false} DotZero(w: seq<real>, v: seq<real>)
    requires |w| == |v| && forall i :: 0 <= i < |v| ==> v[i] == 0.0
    ensures Dot(w, v) == 0.0
    decreases |w|
  {
    if |w| > 0 {
      DotZero(w[1..], v[1..]);
    }
  }

  /** n keys and values that are all zero. */
  function ZeroProblem(n: nat): (p: Problem)
    ensures p.Valid() && |p.key| == n && |p.query| == 1
  {
    Problem([0.0], Column(n, 0.0), Column(n, 0.0), 1.0)
  }

  function Column(n: nat, x: real): (rows: seq<seq<real>>)
    ensures |rows| == n && forall i :: 0 <= i < n ==> rows[i] == [x]
  {
    seq(n, _ => [x])
  }

  lemma ZeroAttention(exp: real -> real, n: nat)
    requires IsExp(exp) && n > 0
    ensures AttentionRow(exp, ZeroProblem(n))[0] == 0.0
  {
    var p := ZeroProblem(n);
    SoftmaxSumsToOne(exp, p.Scores(0, n));
    DotZero(Softmax(exp, p.Scores(0, n)), p.Column(0, 0, n));
  }

  /** Foreign values 1 pull the average up. */
  lemma ForeignRowsCount(exp: real -> real, n: nat, k: nat)
    requires IsExp(exp) && n > 0 && k > 0
    ensures Loaded(ZeroProblem(n), Column(k, 0.0), Column(k, 1.0)).Valid()
    ensures AttentionRow(exp, Loaded(ZeroProblem(n), Column(k, 0.0), Column(k, 1.0)))[0] > 0.0
  {
    var p := Loaded(ZeroProblem(n), Column(k, 0.0), Column(k, 1.0));
    assert p.Valid() && |p.key| == n + k;
    SoftmaxSumsToOne(exp, p.Scores(0, n + k));
    var w, v := Softmax(exp, p.Scores(0, n + k)), p.Column(0, 0, n + k);
    forall i | 0 <= i < n + k
      ensures w[i] > 0.0 && v[i] >= 0.0
    {
      assert w[i] in w;
      assert v[i] == p.value[i][0];
    }
    DotPositive(w, v);
  }

  /** A tile that does not divide the length: zero foreign words, but foreign rows that count. */
  lemma PartTileFails(exp: real -> real, n: nat, tile: nat)
    returns (p: Problem, keys: seq<seq<real>>, values: seq<seq<real>>, beyond: seq<real>)
    requires IsExp(exp) && n > 0 && tile > 0 && n % tile != 0
    ensures IsRequest(p, tile, keys, values, beyond) && |p.key| == n
    ensures KernelRow(exp, Loaded(p, keys, values), tile, beyond) != Finite(AttentionRow(exp, p))
  {
    var k := Missing(n, tile);
    p, beyond := ZeroProblem(n), seq(ReadWidth(tile) - tile, _ => 0.0);
    keys, values := Column(k, 0.0), Column(k, 1.0);
    assert IsRequest(p, tile, keys, values, beyond);
    LoadedIsInput(p, tile, keys, values, beyond);
    ZerosAddUp(|beyond|);
    KernelExactIff(exp, Loaded(p, keys, values), tile, beyond);
    ZeroAttention(exp, n);
    ForeignRowsCount(exp, n, k);
  }

  /** A tile that divides the length but is no multiple of 16. */
  lemma PartChunkFails(exp: real -> real, n: nat, tile: nat)
    returns (p: Problem, keys: seq<seq<real>>, values: seq<seq<real>>, beyond: seq<real>)
    requires IsExp(exp) && n > 0 && tile > 0 && n % tile == 0 && tile % CHUNK_SIZE != 0
    ensures IsRequest(p, tile, keys, values, beyond) && |p.key| == n
    ensures KernelRow(exp, Loaded(p, keys, values), tile, beyond) != Finite(AttentionRow(exp, p))
  {
    p, keys, values := UnitProblem(n), [], [];
    UnitAttention(exp, n);
    assert AttentionRow(exp, p)[0] == 1.0;
    RowExactIff(exp, p, tile);
    beyond :| IsInput(p, tile, beyond) && KernelRow(exp, p, tile, beyond) != Finite(AttentionRow(exp, p));
    LoadedIsInput(p, tile, keys, values, beyond);
  }

  /** Main result: for a length and a tile the kernel computes attention for every row, whatever lies behind its keys,
      its values and its score buffer, exactly when the tile is a multiple of 16 and divides the length. */
  lemma AttentionIffTilesFit(exp: real -> real, n: nat, tile: nat)
    requires IsExp(exp) && n > 0 && tile > 0
    ensures (forall p, keys, values, beyond :: IsRequest(p, tile, keys, values, beyond) && |p.key| == n ==>
               KernelRow(exp, Loaded(p, keys, values), tile, beyond) == Finite(AttentionRow(exp, p)))
       <==> tile % CHUNK_SIZE == 0 && n % tile == 0
  {
    if tile % CHUNK_SIZE == 0 && n % tile == 0 {
      forall p, keys, values, beyond | IsRequest(p, tile, keys, values, beyond) && |p.key| == n
        ensures KernelRow(exp, Loaded(p, keys, values), tile, beyond) == Finite(AttentionRow(exp, p))
      {
        WholeTilesExact(exp, p, tile, keys, values, beyond);
      }
    } else if n % tile != 0 {
      var p, keys, values, beyond := PartTileFails(exp, n, tile);
    } else {
      var p, keys, values, beyond := PartChunkFails(exp, n, tile);
    }
  }
}
