/** gemm_combination_mapping: the search for tile sizes of a matrix product that fit the scratchpad twice. */
module GemmMapping {
  import opened Arithmetic

  /** The hardware, the number of fused input and output nodes, and the bytes per element. */
  datatype Setup = Setup(lane: nat, spadPerLane: nat, prologues: nat, extras: nat, precision: nat)

  datatype Tile = Tile(m: nat, n: nat, k: nat)

  // ----- padding -----

  function Padded(dim: nat, factor: nat): nat
    requires factor > 0
  {
    CeilDiv(dim, factor) * factor
  }

  /** The padded size of M and of N. */
  function PaddedSide(dim: nat, lane: nat): nat
    requires lane > 0
  {
    Padded(dim, if dim > lane then lane else 8)
  }

  /** K is raised to 8 after its padding factor was chosen. */
  function RaisedK(k: nat): nat {
    if k < 8 then 8 else k
  }

  function PaddedK(k: nat, lane: nat, padK: bool): nat
    requires lane > 0
  {
    Padded(RaisedK(k), if k > lane then lane else if padK then 8 else 1)
  }

  predicate IsDivisor(n: nat, d: nat) {
    1 <= d <= n && n % d == 0
  }

  /** The tile sizes tried for a dimension: multiples of the lane count, or the whole padded dimension. */
  ghost predicate IsTileSize(dim: nat, padded: nat, lane: nat, tile: nat)
    requires lane > 0
  {
    if dim > lane then exists d: nat :: IsDivisor(padded / lane, d) && tile == d * lane else tile == padded
  }

  /** Full tiles of this size make up the padded dimension, and no fewer cover the dimension. */
  predicate Covers(dim: nat, padded: nat, tile: nat) {
    tile > 0 && padded % tile == 0 && CeilDiv(dim, tile) * tile == padded
  }

  lemma CeilIs(dim: nat, t: nat, e: nat)
    requires t > 0 && e > 0 && (e - 1) * t < dim <= e * t
    ensures CeilDiv(dim, t) == e
  {
    var r := dim - 1 - (e - 1) * t;
    Distribute(e - 1, 1, t);
    DivMod(e, t, r);
  }

  lemma CeilBounds(dim: nat, t: nat)
    requires t > 0 && dim > 0
    ensures CeilDiv(dim, t) > 0 && (CeilDiv(dim, t) - 1) * t < dim <= CeilDiv(dim, t) * t
  {
    var q := CeilDiv(dim, t);
    assert dim + t - 1 == q * t + (dim + t - 1) % t;
    Distribute(q - 1, 1, t);
  }

  lemma MultipleCovers(dim: nat, lane: nat, d: nat, tile: nat)
    requires dim > 0 && lane > 0 && IsDivisor(CeilDiv(dim, lane), d) && tile == d * lane
    ensures Covers(dim, Padded(dim, lane), tile)
  {
    var q := CeilDiv(dim, lane);
    var e := q / d;
    assert q == e * d;
    Associate(e, d, lane);
    CeilBounds(dim, lane);
    MulMonotone(1, d, lane);
    Distribute(q - 1, 1, lane);
    assert e > 0;
    Distribute(e - 1, 1, tile);
    CeilIs(dim, tile, e);
    DivMod(e, tile, 0);
  }

  lemma WholeCovers(dim: nat, padded: nat)
    requires 0 < dim <= padded
    ensures Covers(dim, padded, padded)
  {
    CeilIs(dim, padded, 1);
  }

  lemma PaddedQuotient(dim: nat, lane: nat)
    requires lane > 0
    ensures Padded(dim, lane) / lane == CeilDiv(dim, lane)
  {
    DivMod(CeilDiv(dim, lane), lane, 0);
  }

  /** Every tile size tried for M or N divides the padded size and covers the dimension. */
  lemma SideCovered(dim: nat, lane: nat, tile: nat)
    requires dim > 0 && lane > 0 && IsTileSize(dim, PaddedSide(dim, lane), lane, tile)
    ensures Covers(dim, PaddedSide(dim, lane), tile)
  {
    if dim > lane {
      PaddedQuotient(dim, lane);
      var d: nat :| IsDivisor(PaddedSide(dim, lane) / lane, d) && tile == d * lane;
      MultipleCovers(dim, lane, d, tile);
    } else {
      CeilBounds(dim, 8);
      WholeCovers(dim, tile);
    }
  }

  ghost predicate AllCoverK(k: nat, lane: nat, padK: bool)
    requires lane > 0
  {
    forall tile: nat :: IsTileSize(RaisedK(k), PaddedK(k, lane, padK), lane, tile) ==>
      Covers(RaisedK(k), PaddedK(k, lane, padK), tile)
  }

  lemma CoveredK(k: nat, lane: nat, padK: bool, tile: nat)
    requires lane > 0 && (lane < 8 && k <= lane ==> 8 % lane == 0)
    requires IsTileSize(RaisedK(k), PaddedK(k, lane, padK), lane, tile)
    ensures Covers(RaisedK(k), PaddedK(k, lane, padK), tile)
  {
    var dim, padded := RaisedK(k), PaddedK(k, lane, padK);
    if dim > lane {
      if k <= lane {
        assert padded == 8 == CeilDiv(8, lane) * lane;
      }
      assert padded == Padded(dim, lane);
      PaddedQuotient(dim, lane);
      var d: nat :| IsDivisor(padded / lane, d) && tile == d * lane;
      MultipleCovers(dim, lane, d, tile);
    } else {
      CeilBounds(dim, if padK then 8 else 1);
      WholeCovers(dim, tile);
    }
  }

  /** The same for K fails exactly when K is raised past a lane count that does not divide 8. */
  lemma KCoveredIff(k: nat, lane: nat, padK: bool)
    requires lane > 0
    ensures AllCoverK(k, lane, padK) <==> (lane < 8 && k <= lane ==> 8 % lane == 0)
  {
    if lane < 8 && k <= lane && 8 % lane != 0 {
      var tile := 1 * lane;
      assert PaddedK(k, lane, padK) == 8;
      assert IsDivisor(8 / lane, 1);
      assert IsTileSize(RaisedK(k), 8, lane, tile);
      assert !Covers(RaisedK(k), 8, tile);
    } else {
      forall tile: nat | IsTileSize(RaisedK(k), PaddedK(k, lane, padK), lane, tile)
        ensures Covers(RaisedK(k), PaddedK(k, lane, padK), tile)
      {
        CoveredK(k, lane, padK, tile);
      }
    }
  }

  // ----- fitting the scratchpad -----

  /** get_spad_size_per_lane: the columns are dealt out to the lanes. */
  function SpadPerLane(rows: nat, cols: nat, lane: nat): nat
    requires lane > 0
  {
    var size := rows * CeilDiv(cols, lane);
    if size < 2 then 2 else size
  }

  /** used_spad_size, in bytes. */
  function Used(u: Setup, t: Tile): nat {
    (t.m * t.k * (1 + u.prologues) + t.k * t.n + t.m * t.n * (1 + u.extras)) * u.precision
  }

  function UsedPerLane(u: Setup, t: Tile): nat
    requires u.lane > 0
  {
    ( SpadPerLane(t.k, t.n, u.lane)
    + SpadPerLane(t.m * (1 + u.prologues), t.k, u.lane)
    + SpadPerLane(t.m * (1 + u.extras), t.n, u.lane)) * u.precision
  }

  /** check_spad_size. */
  predicate Fits(u: Setup, t: Tile)
    requires u.lane > 0
  {
    Used(u, t) < u.spadPerLane * u.lane / 2 && UsedPerLane(u, t) < u.spadPerLane / 2
  }

  lemma SpreadHolds(rows: nat, cols: nat, lane: nat)
    requires lane > 0
    ensures rows * cols <= SpadPerLane(rows, cols, lane) * lane
  {
    var c := CeilDiv(cols, lane);
    if cols > 0 {
      CeilBounds(cols, lane);
      MulMonotone(cols, c * lane, rows);
      assert rows * (c * lane) == (rows * c) * lane;
    }
    MulMonotone(rows * c, SpadPerLane(rows, cols, lane), lane);
  }

  lemma CeilIsLeast(cols: nat, lane: nat, c: nat)
    requires lane > 0 && cols <= c * lane
    ensures CeilDiv(cols, lane) <= c
  {
    if cols > 0 {
      CeilBounds(cols, lane);
      if CeilDiv(cols, lane) > c {
        MulMonotone(c, CeilDiv(cols, lane) - 1, lane);
      }
    } else {
      DivMod(0, lane, lane - 1);
    }
  }

  /** No lane gets less than two words. */
  function AtLeastTwo(words: nat): nat {
    if words < 2 then 2 else words
  }

  /** No way to deal out the columns needs less. */
  lemma SpreadIsLeast(rows: nat, cols: nat, lane: nat, c: nat)
    requires lane > 0 && cols <= c * lane
    ensures SpadPerLane(rows, cols, lane) <= AtLeastTwo(rows * c)
  {
    CeilIsLeast(cols, lane, c);
    MulMonotone(CeilDiv(cols, lane), c, rows);
  }

  /** Each lane holds w columns of the weights, x of the inputs and y of the outputs, with their fused copies, within
      half of its scratchpad. */
  predicate IsDealt(u: Setup, t: Tile, w: nat, x: nat, y: nat) {
    && t.n <= w * u.lane && t.k <= x * u.lane && t.n <= y * u.lane
    && var words := AtLeastTwo(t.k * w) + AtLeastTwo(t.m * (1 + u.prologues) * x)
                  + AtLeastTwo(t.m * (1 + u.extras) * y);
       words * u.precision < u.spadPerLane / 2
  }

  ghost predicate CanBeDealt(u: Setup, t: Tile) {
    exists w: nat, x: nat, y: nat :: IsDealt(u, t, w, x, y)
  }

  lemma ColumnsSuffice(cols: nat, lane: nat)
    requires lane > 0
    ensures cols <= CeilDiv(cols, lane) * lane
  {
    if cols > 0 {
      CeilBounds(cols, lane);
    }
  }

  /** Main result: a tile fits exactly when its three matrices can be dealt out to the lanes in some way. */
  lemma FitsIffDealt(u: Setup, t: Tile)
    requires u.lane > 0
    ensures Fits(u, t) <==> CanBeDealt(u, t)
  {
    PerLaneTestSuffices(u, t);
    if Fits(u, t) {
      ColumnsSuffice(t.n, u.lane);
      ColumnsSuffice(t.k, u.lane);
      assert IsDealt(u, t, CeilDiv(t.n, u.lane), CeilDiv(t.k, u.lane), CeilDiv(t.n, u.lane));
    }
    if CanBeDealt(u, t) {
      var w: nat, x: nat, y: nat :| IsDealt(u, t, w, x, y);
      DealtFits(u, t, w, x, y);
    }
  }

  lemma DealtFits(u: Setup, t: Tile, w: nat, x: nat, y: nat)
    requires u.lane > 0 && IsDealt(u, t, w, x, y)
    ensures UsedPerLane(u, t) < u.spadPerLane / 2
  {
    SpreadIsLeast(t.k, t.n, u.lane, w);
    SpreadIsLeast(t.m * (1 + u.prologues), t.k, u.lane, x);
    SpreadIsLeast(t.m * (1 + u.extras), t.n, u.lane, y);
    var need := SpadPerLane(t.k, t.n, u.lane) + SpadPerLane(t.m * (1 + u.prologues), t.k, u.lane)
              + SpadPerLane(t.m * (1 + u.extras), t.n, u.lane);
    var dealt := AtLeastTwo(t.k * w) + AtLeastTwo(t.m * (1 + u.prologues) * x) + AtLeastTwo(t.m * (1 + u.extras) * y);
    MulMonotone(need, dealt, u.precision);
  }

  lemma HalfOfAllLanes(perLane: nat, lane: nat, spad: nat)
    requires lane > 0 && perLane < spad / 2
    ensures perLane * lane < spad * lane / 2
  {
    MulMonotone(2 * perLane + 2, spad, lane);
  }

  lemma UsedBelowLanes(u: Setup, a: nat, b: nat, c: nat, x: nat, y: nat, z: nat)
    requires a <= x * u.lane && b <= y * u.lane && c <= z * u.lane
    ensures (a + b + c) * u.precision <= ((x + y + z) * u.precision) * u.lane
  {
    Distribute(x, y, u.lane);
    Distribute(x + y, z, u.lane);
    MulMonotone(a + b + c, (x + y + z) * u.lane, u.precision);
    assert ((x + y + z) * u.lane) * u.precision == ((x + y + z) * u.precision) * u.lane;
  }

  lemma Swap(m: nat, x: nat, p: nat)
    ensures m * x * p == (m * p) * x
  {
  }

  /** Main result: a tile that fits one lane's scratchpad twice fits the whole scratchpad twice, so the test
      on the total never rejects a tile. */
  lemma PerLaneTestSuffices(u: Setup, t: Tile)
    requires u.lane > 0
    ensures Fits(u, t) <==> UsedPerLane(u, t) < u.spadPerLane / 2
  {
    if UsedPerLane(u, t) < u.spadPerLane / 2 {
      SpreadHolds(t.k, t.n, u.lane);
      SpreadHolds(t.m * (1 + u.prologues), t.k, u.lane);
      SpreadHolds(t.m * (1 + u.extras), t.n, u.lane);
      Swap(t.m, t.k, 1 + u.prologues);
      Swap(t.m, t.n, 1 + u.extras);
      UsedBelowLanes(u, (t.m * (1 + u.prologues)) * t.k, t.k * t.n, (t.m * (1 + u.extras)) * t.n,
        SpadPerLane(t.m * (1 + u.prologues), t.k, u.lane), SpadPerLane(t.k, t.n, u.lane),
        SpadPerLane(t.m * (1 + u.extras), t.n, u.lane));
      HalfOfAllLanes(UsedPerLane(u, t), u.lane, u.spadPerLane);
    }
  }

  // ----- the sizes tried, in closed form -----

  /** Multiples of the lane count that fill all lane blocks of the padded dimension, or all of it. */
  predicate OnGrid(dim: nat, padded: nat, lane: nat, tile: nat)
    requires lane > 0
  {
    var blocks := padded / lane * lane;
    if dim > lane then 0 < tile <= blocks && tile % lane == 0 && blocks % tile == 0 else tile == padded
  }

  lemma BlocksBelow(blocks: nat, lane: nat, d: nat)
    requires lane > 0
    ensures d <= blocks <==> d * lane <= blocks * lane
    ensures d > 0 <==> d * lane > 0
  {
    if d <= blocks {
      MulMonotone(d, blocks, lane);
    } else {
      MulMonotone(blocks + 1, d, lane);
      Distribute(blocks, 1, lane);
    }
    if d > 0 {
      MulMonotone(1, d, lane);
    }
  }

  lemma BlocksDivide(blocks: nat, lane: nat, d: nat)
    requires lane > 0 && d > 0
    ensures d * lane > 0
    ensures (blocks * lane) % (d * lane) == 0 <==> blocks % d == 0
  {
    var q, r := blocks / d, blocks % d;
    assert blocks == q * d + r;
    Distribute(q * d, r, lane);
    Associate(q, d, lane);
    BlocksBelow(d, lane, r);
    BlocksBelow(d, lane, d);
    assert r * lane < d * lane by {
      MulMonotone(r + 1, d, lane);
      Distribute(r, 1, lane);
    }
    DivMod(q, d * lane, r * lane);
  }

  lemma TileSizeIff(dim: nat, padded: nat, lane: nat, tile: nat)
    requires lane > 0
    ensures IsTileSize(dim, padded, lane, tile) <==> OnGrid(dim, padded, lane, tile)
  {
    if dim > lane {
      if IsTileSize(dim, padded, lane, tile) {
        var d: nat :| IsDivisor(padded / lane, d) && tile == d * lane;
        BlocksBelow(padded / lane, lane, d);
        BlocksDivide(padded / lane, lane, d);
        DivMod(d, lane, 0);
      }
      if OnGrid(dim, padded, lane, tile) {
        var d := tile / lane;
        assert tile == d * lane;
        BlocksBelow(padded / lane, lane, d);
        BlocksDivide(padded / lane, lane, d);
        assert IsDivisor(padded / lane, d);
      }
    }
  }

  // ----- what is counted as used -----

  /** The elements of some copies of a matrix, by copy, row and column. */
  ghost function Box(copies: nat, rows: nat, cols: nat): set<(int, int, int)> {
    set copy, row, col | 0 <= copy < copies && 0 <= row < rows && 0 <= col < cols :: (copy, row, col)
  }

  ghost function Sheet(copy: int, rows: nat, cols: nat): set<(int, int, int)> {
    set row, col | 0 <= row < rows && 0 <= col < cols :: (copy, row, col)
  }

  ghost function Line(copy: int, row: int, cols: nat): set<(int, int, int)> {
    set col | 0 <= col < cols :: (copy, row, col)
  }

  lemma {:induction false} LineCount(copy: int, row: int, cols: nat)
    ensures |Line(copy, row, cols)| == cols
    decreases cols
  {
    if cols == 0 {
      assert Line(copy, row, 0) == {};
    } else {
      LineCount(copy, row, cols - 1);
      assert Line(copy, row, cols) == Line(copy, row, cols - 1) + {(copy, row, cols - 1)};
    }
  }

  lemma {:induction false} SheetCount(copy: int, rows: nat, cols: nat)
    ensures |Sheet(copy, rows, cols)| == rows * cols
    decreases rows
  {
    if rows == 0 {
      assert Sheet(copy, 0, cols) == {};
    } else {
      SheetCount(copy, rows - 1, cols);
      LineCount(copy, rows - 1, cols);
      assert Sheet(copy, rows, cols) == Sheet(copy, rows - 1, cols) + Line(copy, rows - 1, cols);
      assert Sheet(copy, rows - 1, cols) !! Line(copy, rows - 1, cols);
      Distribute(rows - 1, 1, cols);
    }
  }

  lemma BoxGrows(copies: nat, rows: nat, cols: nat)
    requires copies > 0
    ensures |Box(copies, rows, cols)| == |Box(copies - 1, rows, cols)| + |Sheet(copies - 1, rows, cols)|
  {
    assert Box(copies, rows, cols) == Box(copies - 1, rows, cols) + Sheet(copies - 1, rows, cols);
    assert Box(copies - 1, rows, cols) !! Sheet(copies - 1, rows, cols);
  }

  lemma {:induction false} BoxCount(copies: nat, rows: nat, cols: nat)
    ensures |Box(copies, rows, cols)| == copies * (rows * cols)
    decreases copies
  {
    if copies == 0 {
      assert Box(0, rows, cols) == {};
    } else {
      BoxCount(copies - 1, rows, cols);
      SheetCount(copies - 1, rows, cols);
      BoxGrows(copies, rows, cols);
      Distribute(copies - 1, 1, rows * cols);
    }
  }

  /** How many elements the tile holds: the input with one more copy for each fused producer, the weights, and the
      output with one more copy for each fused consumer. */
  ghost function CellCount(u: Setup, t: Tile): nat {
    |Box(1 + u.prologues, t.m, t.k)| + |Box(1, t.k, t.n)| + |Box(1 + u.extras, t.m, t.n)|
  }

  lemma TurnProduct(m: nat, k: nat, p: nat)
    ensures m * k * p == p * (m * k)
  {
  }

  lemma UsedIs(u: Setup, t: Tile, x: nat, y: nat, z: nat)
    requires x == (1 + u.prologues) * (t.m * t.k) && y == t.k * t.n && z == (1 + u.extras) * (t.m * t.n)
    ensures Used(u, t) == (x + y + z) * u.precision
  {
    TurnProduct(t.m, t.k, 1 + u.prologues);
    TurnProduct(t.m, t.n, 1 + u.extras);
  }

  /** What counts as used is the bytes of these elements. */
  lemma UsedCountsCells(u: Setup, t: Tile)
    ensures Used(u, t) == CellCount(u, t) * u.precision
  {
    BoxCount(1 + u.prologues, t.m, t.k);
    BoxCount(1, t.k, t.n);
    BoxCount(1 + u.extras, t.m, t.n);
    UsedIs(u, t, |Box(1 + u.prologues, t.m, t.k)|, |Box(1, t.k, t.n)|, |Box(1 + u.extras, t.m, t.n)|);
  }
}
