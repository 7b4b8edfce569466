/** The nested loops of gemm_combination_mapping and the order of their result. */
module GemmSearch {
  import opened GemmMapping
  import Arithmetic

  // ----- divisors -----

  /** sympy.divisors. */
  method Divisors(n: nat) returns (ds: seq<nat>)
    ensures forall d: nat :: d in ds <==> IsDivisor(n, d)
    ensures forall a, b :: 0 <= a < b < |ds| ==> ds[a] < ds[b]
  {
    ds := [];
    for d := 1 to n + 1
      invariant forall x: nat :: x in ds <==> x < d && IsDivisor(n, x)
      invariant forall a, b :: 0 <= a < b < |ds| ==> ds[a] < ds[b]
    {
      if n % d == 0 {
        assert forall a :: 0 <= a < |ds| ==> ds[a] in ds;
        ds := ds + [d];
      }
    }
  }

  function SizeOf(dim: nat, padded: nat, lane: nat, f: nat): nat {
    if dim > lane then f * lane else padded
  }

  /** The three sizes of the problem, with K raised, and the padded sizes. */
  datatype Problem = Problem(m: nat, n: nat, k: nat, padM: nat, padN: nat, padK: nat)

  function TileAt(u: Setup, q: Problem, i: nat, j: nat, k: nat): Tile {
    Tile(SizeOf(q.m, q.padM, u.lane, i), SizeOf(q.n, q.padN, u.lane, j), SizeOf(q.k, q.padK, u.lane, k))
  }

  // ----- the loops -----

  function Pick(u: Setup, t: Tile): seq<Tile>
    requires u.lane > 0
  {
    if Fits(u, t) then [t] else []
  }

  function Row(u: Setup, q: Problem, k: nat, i: nat, ns: seq<nat>): seq<Tile>
    requires u.lane > 0
  {
    if |ns| == 0 then [] else Row(u, q, k, i, ns[..|ns| - 1]) + Pick(u, TileAt(u, q, i, ns[|ns| - 1], k))
  }

  function Plane(u: Setup, q: Problem, k: nat, ms: seq<nat>, ns: seq<nat>): seq<Tile>
    requires u.lane > 0
  {
    if |ms| == 0 then [] else Plane(u, q, k, ms[..|ms| - 1], ns) + Row(u, q, k, ms[|ms| - 1], ns)
  }

  function Cube(u: Setup, q: Problem, ks: seq<nat>, ms: seq<nat>, ns: seq<nat>): seq<Tile>
    requires u.lane > 0
  {
    if |ks| == 0 then [] else Cube(u, q, ks[..|ks| - 1], ms, ns) + Plane(u, q, ks[|ks| - 1], ms, ns)
  }

  method SearchRow(u: Setup, q: Problem, k: nat, i: nat, ns: seq<nat>) returns (found: seq<Tile>)
    requires u.lane > 0
    ensures found == Row(u, q, k, i, ns)
  {
    found := [];
    for c := 0 to |ns|
      invariant found == Row(u, q, k, i, ns[..c])
    {
      assert ns[..c + 1][..c] == ns[..c];
      var t := TileAt(u, q, i, ns[c], k);
      if Fits(u, t) {
        found := found + [t];
      }
    }
    assert ns[..|ns|] == ns;
  }

  method SearchPlane(u: Setup, q: Problem, k: nat, ms: seq<nat>, ns: seq<nat>) returns (found: seq<Tile>)
    requires u.lane > 0
    ensures found == Plane(u, q, k, ms, ns)
  {
    found := [];
    for b := 0 to |ms|
      invariant found == Plane(u, q, k, ms[..b], ns)
    {
      assert ms[..b + 1][..b] == ms[..b];
      var row := SearchRow(u, q, k, ms[b], ns);
      found := found + row;
    }
    assert ms[..|ms|] == ms;
  }

  method SearchAll(u: Setup, q: Problem, ks: seq<nat>, ms: seq<nat>, ns: seq<nat>) returns (found: seq<Tile>)
    requires u.lane > 0
    ensures found == Cube(u, q, ks, ms, ns)
  {
    found := [];
    for a := 0 to |ks|
      invariant found == Cube(u, q, ks[..a], ms, ns)
    {
      assert ks[..a + 1][..a] == ks[..a];
      var plane := SearchPlane(u, q, ks[a], ms, ns);
      found := found + plane;
    }
    assert ks[..|ks|] == ks;
  }

  // ----- completeness -----

  /** The size comes from one of the factors. */
  ghost predicate SizeIn(dim: nat, padded: nat, lane: nat, fs: seq<nat>, size: nat) {
    exists f :: f in fs && size == SizeOf(dim, padded, lane, f)
  }

  lemma SizeInSnoc(dim: nat, padded: nat, lane: nat, fs: seq<nat>, size: nat)
    requires |fs| > 0
    ensures SizeIn(dim, padded, lane, fs, size) <==>
      SizeIn(dim, padded, lane, fs[..|fs| - 1], size) || size == SizeOf(dim, padded, lane, fs[|fs| - 1])
  {
    assert fs == fs[..|fs| - 1] + [fs[|fs| - 1]];
  }

  lemma {:induction false} InRow(u: Setup, q: Problem, k: nat, i: nat, ns: seq<nat>, t: Tile)
    requires u.lane > 0
    ensures t in Row(u, q, k, i, ns) <==>
      && Fits(u, t) && SizeIn(q.n, q.padN, u.lane, ns, t.n)
      && t.m == SizeOf(q.m, q.padM, u.lane, i) && t.k == SizeOf(q.k, q.padK, u.lane, k)
    decreases |ns|
  {
    if |ns| > 0 {
      InRow(u, q, k, i, ns[..|ns| - 1], t);
      SizeInSnoc(q.n, q.padN, u.lane, ns, t.n);
    }
  }

  lemma {:induction false} InPlane(u: Setup, q: Problem, k: nat, ms: seq<nat>, ns: seq<nat>, t: Tile)
    requires u.lane > 0
    ensures t in Plane(u, q, k, ms, ns) <==>
      && Fits(u, t) && SizeIn(q.n, q.padN, u.lane, ns, t.n)
      && SizeIn(q.m, q.padM, u.lane, ms, t.m) && t.k == SizeOf(q.k, q.padK, u.lane, k)
    decreases |ms|
  {
    if |ms| > 0 {
      InPlane(u, q, k, ms[..|ms| - 1], ns, t);
      InRow(u, q, k, ms[|ms| - 1], ns, t);
      SizeInSnoc(q.m, q.padM, u.lane, ms, t.m);
    }
  }

  lemma {:induction false} InCube(u: Setup, q: Problem, ks: seq<nat>, ms: seq<nat>, ns: seq<nat>, t: Tile)
    requires u.lane > 0
    ensures t in Cube(u, q, ks, ms, ns) <==>
      && Fits(u, t) && SizeIn(q.n, q.padN, u.lane, ns, t.n)
      && SizeIn(q.m, q.padM, u.lane, ms, t.m) && SizeIn(q.k, q.padK, u.lane, ks, t.k)
    decreases |ks|
  {
    if |ks| > 0 {
      InCube(u, q, ks[..|ks| - 1], ms, ns, t);
      InPlane(u, q, ks[|ks| - 1], ms, ns, t);
      SizeInSnoc(q.k, q.padK, u.lane, ks, t.k);
    }
  }

  // ----- sorting the candidates -----

  predicate Descending(key: Tile -> nat, ts: seq<Tile>) {
    forall a, b :: 0 <= a < b < |ts| ==> key(ts[a]) >= key(ts[b])
  }

  /** Python's stable sort with reverse: equal keys keep their order. */
  function InsertBy(key: Tile -> nat, ts: seq<Tile>, t: Tile): (out: seq<Tile>)
    ensures multiset(out) == multiset(ts) + multiset{t}
  {
    if |ts| == 0 then [t]
    else if key(ts[|ts| - 1]) < key(t) then
      assert ts == ts[..|ts| - 1] + [ts[|ts| - 1]];
      InsertBy(key, ts[..|ts| - 1], t) + [ts[|ts| - 1]]
    else ts + [t]
  }

  function SortBy(key: Tile -> nat, ts: seq<Tile>): seq<Tile> {
    if |ts| == 0 then [] else InsertBy(key, SortBy(key, ts[..|ts| - 1]), ts[|ts| - 1])
  }

  /** The tiles of one key, in order. */
  function WithKey(key: Tile -> nat, ts: seq<Tile>, k: nat): seq<Tile> {
    if |ts| == 0 then []
    else
      var last := ts[|ts| - 1];
      WithKey(key, ts[..|ts| - 1], k) + (if key(last) == k then [last] else [])
  }

  lemma WithKeySnoc(key: Tile -> nat, ts: seq<Tile>, t: Tile, k: nat)
    ensures WithKey(key, ts + [t], k) == WithKey(key, ts, k) + (if key(t) == k then [t] else [])
  {
    assert (ts + [t])[..|ts|] == ts;
  }

  lemma DescendingSnoc(key: Tile -> nat, ts: seq<Tile>, t: Tile)
    requires Descending(key, ts) && forall a :: 0 <= a < |ts| ==> key(ts[a]) >= key(t)
    ensures Descending(key, ts + [t])
  {
  }

  lemma InsertAbove(key: Tile -> nat, ts: seq<Tile>, t: Tile, k: nat)
    requires key(t) >= k && forall a :: 0 <= a < |ts| ==> key(ts[a]) >= k
    ensures forall a :: 0 <= a < |InsertBy(key, ts, t)| ==> key(InsertBy(key, ts, t)[a]) >= k
  {
    var out := InsertBy(key, ts, t);
    forall a | 0 <= a < |out|
      ensures key(out[a]) >= k
    {
      assert out[a] in multiset(ts) + multiset{t};
    }
  }

  lemma {:induction false} InsertDescends(key: Tile -> nat, ts: seq<Tile>, t: Tile)
    requires Descending(key, ts)
    ensures Descending(key, InsertBy(key, ts, t))
    decreases |ts|
  {
    if |ts| > 0 {
      var front, last := ts[..|ts| - 1], ts[|ts| - 1];
      if key(last) < key(t) {
        InsertDescends(key, front, t);
        InsertAbove(key, front, t, key(last));
        DescendingSnoc(key, InsertBy(key, front, t), last);
      } else {
        DescendingSnoc(key, ts, t);
      }
    }
  }

  lemma {:induction false} InsertIsStable(key: Tile -> nat, ts: seq<Tile>, t: Tile, k: nat)
    ensures WithKey(key, InsertBy(key, ts, t), k) == WithKey(key, ts, k) + (if key(t) == k then [t] else [])
    decreases |ts|
  {
    WithKeySnoc(key, ts, t, k);
    if |ts| == 0 {
      assert ts + [t] == [t];
    } else if key(ts[|ts| - 1]) < key(t) {
      var front := ts[..|ts| - 1];
      InsertIsStable(key, front, t, k);
      WithKeySnoc(key, InsertBy(key, front, t), ts[|ts| - 1], k);
    }
  }

  lemma {:induction false} SortIsStable(key: Tile -> nat, ts: seq<Tile>, k: nat)
    ensures Descending(key, SortBy(key, ts)) && multiset(SortBy(key, ts)) == multiset(ts)
    ensures WithKey(key, SortBy(key, ts), k) == WithKey(key, ts, k)
    decreases |ts|
  {
    if |ts| > 0 {
      var front, last := ts[..|ts| - 1], ts[|ts| - 1];
      assert ts == front + [last];
      SortIsStable(key, front, k);
      InsertDescends(key, SortBy(key, front), last);
      InsertIsStable(key, SortBy(key, front), last, k);
    }
  }

  // ----- no candidate is found twice -----

  /** What Factors returns: different factors give different sizes. */
  ghost predicate Spread(dim: nat, lane: nat, fs: seq<nat>) {
    && (forall a, b :: 0 <= a < b < |fs| ==> fs[a] < fs[b])
    && (dim <= lane ==> |fs| <= 1)
  }

  lemma SizesDiffer(dim: nat, padded: nat, lane: nat, fs: seq<nat>, a: nat, b: nat)
    requires Spread(dim, lane, fs) && a < b < |fs| && lane > 0
    ensures SizeOf(dim, padded, lane, fs[a]) != SizeOf(dim, padded, lane, fs[b])
  {
    if SizeOf(dim, padded, lane, fs[a]) == SizeOf(dim, padded, lane, fs[b]) {
      assert (fs[b] - fs[a]) * lane == 0;
      Arithmetic.SmallMultiple(fs[b] - fs[a], lane, 0);
    }
  }

  lemma LastSizeIsNew(dim: nat, padded: nat, lane: nat, fs: seq<nat>)
    requires Spread(dim, lane, fs) && |fs| > 0 && lane > 0
    ensures Spread(dim, lane, fs[..|fs| - 1])
    ensures !SizeIn(dim, padded, lane, fs[..|fs| - 1], SizeOf(dim, padded, lane, fs[|fs| - 1]))
  {
    forall a | 0 <= a < |fs| - 1
      ensures SizeOf(dim, padded, lane, fs[a]) != SizeOf(dim, padded, lane, fs[|fs| - 1])
    {
      SizesDiffer(dim, padded, lane, fs, a, |fs| - 1);
    }
  }

  lemma {:induction false} RowOnce(u: Setup, q: Problem, k: nat, i: nat, ns: seq<nat>, t: Tile)
    requires u.lane > 0 && Spread(q.n, u.lane, ns)
    ensures multiset(Row(u, q, k, i, ns))[t] <= 1
    decreases |ns|
  {
    if |ns| > 0 {
      LastSizeIsNew(q.n, q.padN, u.lane, ns);
      RowOnce(u, q, k, i, ns[..|ns| - 1], t);
      InRow(u, q, k, i, ns[..|ns| - 1], t);
    }
  }

  lemma {:induction false} PlaneOnce(u: Setup, q: Problem, k: nat, ms: seq<nat>, ns: seq<nat>, t: Tile)
    requires u.lane > 0 && Spread(q.n, u.lane, ns) && Spread(q.m, u.lane, ms)
    ensures multiset(Plane(u, q, k, ms, ns))[t] <= 1
    decreases |ms|
  {
    if |ms| > 0 {
      LastSizeIsNew(q.m, q.padM, u.lane, ms);
      PlaneOnce(u, q, k, ms[..|ms| - 1], ns, t);
      RowOnce(u, q, k, ms[|ms| - 1], ns, t);
      InPlane(u, q, k, ms[..|ms| - 1], ns, t);
      InRow(u, q, k, ms[|ms| - 1], ns, t);
    }
  }

  lemma {:induction false} CubeOnce(u: Setup, q: Problem, ks: seq<nat>, ms: seq<nat>, ns: seq<nat>, t: Tile)
    requires u.lane > 0 && Spread(q.n, u.lane, ns) && Spread(q.m, u.lane, ms) && Spread(q.k, u.lane, ks)
    ensures multiset(Cube(u, q, ks, ms, ns))[t] <= 1
    decreases |ks|
  {
    if |ks| > 0 {
      LastSizeIsNew(q.k, q.padK, u.lane, ks);
      CubeOnce(u, q, ks[..|ks| - 1], ms, ns, t);
      PlaneOnce(u, q, ks[|ks| - 1], ms, ns, t);
      InCube(u, q, ks[..|ks| - 1], ms, ns, t);
      InPlane(u, q, ks[|ks| - 1], ms, ns, t);
    }
  }

  // ----- the result -----

  /** The tiles that the search must find. */
  ghost predicate IsCandidate(u: Setup, q: Problem, t: Tile)
    requires u.lane > 0
  {
    && IsTileSize(q.m, q.padM, u.lane, t.m) && IsTileSize(q.n, q.padN, u.lane, t.n)
    && IsTileSize(q.k, q.padK, u.lane, t.k) && Fits(u, t)
  }

  /** The same without the search: sizes on the grid whose matrices can be dealt out to the lanes. */
  ghost predicate IsWanted(u: Setup, q: Problem, t: Tile)
    requires u.lane > 0
  {
    && OnGrid(q.m, q.padM, u.lane, t.m) && OnGrid(q.n, q.padN, u.lane, t.n) && OnGrid(q.k, q.padK, u.lane, t.k)
    && CanBeDealt(u, t)
  }

  lemma CandidateIff(u: Setup, q: Problem, t: Tile)
    requires u.lane > 0
    ensures IsCandidate(u, q, t) <==> IsWanted(u, q, t)
  {
    TileSizeIff(q.m, q.padM, u.lane, t.m);
    TileSizeIff(q.n, q.padN, u.lane, t.n);
    TileSizeIff(q.k, q.padK, u.lane, t.k);
    FitsIffDealt(u, t);
  }

  ghost predicate AreFactors(dim: nat, padded: nat, lane: nat, fs: seq<nat>)
    requires lane > 0
  {
    forall f :: f in fs <==> if dim > lane then IsDivisor(padded / lane, f) else f == 1
  }

  lemma SizeFromFactor(dim: nat, padded: nat, lane: nat, fs: seq<nat>, size: nat)
    requires lane > 0 && AreFactors(dim, padded, lane, fs)
    ensures IsTileSize(dim, padded, lane, size) <==> SizeIn(dim, padded, lane, fs, size)
  {
    if dim > lane {
      if IsTileSize(dim, padded, lane, size) {
        var d: nat :| IsDivisor(padded / lane, d) && size == d * lane;
        assert d in fs;
      }
    } else {
      assert 1 in fs;
    }
  }

  lemma CandidatesFound(u: Setup, q: Problem, ks: seq<nat>, ms: seq<nat>, ns: seq<nat>, t: Tile)
    requires u.lane > 0 && AreFactors(q.m, q.padM, u.lane, ms) && AreFactors(q.n, q.padN, u.lane, ns)
    requires AreFactors(q.k, q.padK, u.lane, ks)
    ensures t in Cube(u, q, ks, ms, ns) <==> IsCandidate(u, q, t)
  {
    SizeFromFactor(q.m, q.padM, u.lane, ms, t.m);
    SizeFromFactor(q.n, q.padN, u.lane, ns, t.n);
    SizeFromFactor(q.k, q.padK, u.lane, ks, t.k);
    InCube(u, q, ks, ms, ns, t);
  }

  lemma SortedCandidates(u: Setup, q: Problem, ks: seq<nat>, ms: seq<nat>, ns: seq<nat>, found: seq<Tile>, t: Tile)
    requires u.lane > 0 && AreFactors(q.m, q.padM, u.lane, ms) && AreFactors(q.n, q.padN, u.lane, ns)
    requires AreFactors(q.k, q.padK, u.lane, ks)
    requires Spread(q.n, u.lane, ns) && Spread(q.m, u.lane, ms) && Spread(q.k, u.lane, ks)
    requires multiset(found) == multiset(Cube(u, q, ks, ms, ns))
    ensures t in found <==> IsCandidate(u, q, t)
    ensures multiset(found)[t] <= 1
  {
    CandidatesFound(u, q, ks, ms, ns, t);
    CubeOnce(u, q, ks, ms, ns, t);
    assert t in found <==> t in multiset(found);
    assert t in Cube(u, q, ks, ms, ns) <==> t in multiset(Cube(u, q, ks, ms, ns));
  }

  /** The factors tried for a dimension. */
  method Factors(dim: nat, padded: nat, lane: nat) returns (fs: seq<nat>)
    requires lane > 0
    ensures AreFactors(dim, padded, lane, fs) && Spread(dim, lane, fs)
  {
    if dim > lane {
      fs := Divisors(padded / lane);
    } else {
      fs := [1];
    }
  }

  function ProblemOf(u: Setup, m: nat, n: nat, k: nat, padK: bool): Problem
    requires u.lane > 0
  {
    Problem(m, n, RaisedK(k), PaddedSide(m, u.lane), PaddedSide(n, u.lane), PaddedK(k, u.lane, padK))
  }

  /** gemm_combination_mapping: all tiles on the grid that can be dealt out within half of each lane's scratchpad,
      each once, by decreasing number of bytes. */
  method GemmCombinationMapping(u: Setup, m: nat, n: nat, k: nat, padK: bool) returns (tiles: seq<Tile>)
    requires u.lane > 0
    ensures forall a, b :: 0 <= a < b < |tiles| ==>
              && Used(u, tiles[a]) >= Used(u, tiles[b])
              && CellCount(u, tiles[a]) * u.precision >= CellCount(u, tiles[b]) * u.precision
    ensures forall t :: t in tiles <==> IsCandidate(u, ProblemOf(u, m, n, k, padK), t)
    ensures forall t :: t in tiles <==> IsWanted(u, ProblemOf(u, m, n, k, padK), t)
    ensures forall t :: multiset(tiles)[t] <= 1
  {
    var q := ProblemOf(u, m, n, k, padK);
    var ms := Factors(q.m, q.padM, u.lane);
    var ns := Factors(q.n, q.padN, u.lane);
    var ks := Factors(q.k, q.padK, u.lane);
    var found := SearchAll(u, q, ks, ms, ns);
    var key := t => Used(u, t);
    tiles := SortBy(key, found);
    SortIsStable(key, found, 0);
    forall t
      ensures t in tiles <==> IsCandidate(u, q, t)
      ensures t in tiles <==> IsWanted(u, q, t)
      ensures multiset(tiles)[t] <= 1
    {
      SortedCandidates(u, q, ks, ms, ns, tiles, t);
      CandidateIff(u, q, t);
    }
    forall a, b | 0 <= a < b < |tiles|
      ensures Used(u, tiles[a]) >= Used(u, tiles[b])
      ensures CellCount(u, tiles[a]) * u.precision >= CellCount(u, tiles[b]) * u.precision
    {
      UsedCountsCells(u, tiles[a]);
      UsedCountsCells(u, tiles[b]);
      assert key(tiles[a]) >= key(tiles[b]);
    }
  }

  /** Main result: every candidate covers the padded problem and fits twice; for K, exactly unless K was
      raised past a lane count that does not divide 8. */
  lemma CandidatesCover(u: Setup, m: nat, n: nat, k: nat, padK: bool, t: Tile)
    requires u.lane > 0 && m > 0 && n > 0 && IsCandidate(u, ProblemOf(u, m, n, k, padK), t)
    ensures Covers(m, PaddedSide(m, u.lane), t.m) && Covers(n, PaddedSide(n, u.lane), t.n)
    ensures (u.lane < 8 && k <= u.lane ==> 8 % u.lane == 0) ==>
      Covers(RaisedK(k), PaddedK(k, u.lane, padK), t.k)
    ensures 2 * Used(u, t) <= u.spadPerLane * u.lane && 2 * UsedPerLane(u, t) <= u.spadPerLane
  {
    SideCovered(m, u.lane, t.m);
    SideCovered(n, u.lane, t.n);
    if u.lane < 8 && k <= u.lane ==> 8 % u.lane == 0 {
      CoveredK(k, u.lane, padK, t.k);
    }
  }
}
