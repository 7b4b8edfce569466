/** Whole runs over a tile subgraph: which graphs are run correctly in every interleaving. */
module TileRuns {
  import opened TileScheduler
  import opened TileOrders
  import opened Sequences

  /** A subgraph from fresh tiles and edges, with all tiles added. */
  method Build(tiles: seq<Tile>, edges: seq<(nat, nat)>) returns (g: TileSubGraph)
    requires Distinct(tiles)
    requires forall t <- tiles :: t.readyCounter == 0 && t.childTiles == []
    requires forall e <- edges :: e.0 < |tiles| && e.1 < |tiles|
    modifies set t | t in tiles
    ensures fresh(g) && g.Valid() && g.tiles == tiles && g.running == {} && g.order == []
    ensures ListsAre(tiles, g.kids, edges)
  {
    Connect(tiles, edges);
    g := new TileSubGraph(tiles);
    forall i, c | 0 <= i < |g.kids| && c in g.kids[i]
      ensures c in tiles
    {
      ChildIsHead(tiles, edges, i, c);
    }
    assert g.Done() == {};
    g.AddAll();
  }

  /** One tile that was handed out: the subgraph reports its end while the tile is still running. */
  method EndBeforeLastTile() returns (g: TileSubGraph, t: Tile?)
    ensures g.Valid() && g.IsFinished()
    ensures t != null && t in g.tiles && t in g.running && t !in g.order
  {
    var only := new Tile(0);
    var tiles := [only];
    g := Build(tiles, []);
    NoEdges(tiles, g.kids, only);
    assert g.Done() == {};
    assert only in tiles && only in g.readyTileQueue;
    t := g.GetTile();
    assert t == only;
    EndMeansHandedOut(g.tiles, g.kids, g.order, g.running, g.readyTileQueue, g.tileSet);
  }

  const TWICE: seq<(nat, nat)> := [(0, 1), (0, 1)]

  lemma TwinList(tiles: seq<Tile>, i: nat)
    requires |tiles| == 2
    ensures ChildrenOf(tiles, TWICE, i) == if i == 0 then [tiles[1], tiles[1]] else []
  {
    var once: seq<(nat, nat)> := [(0, 1)];
    assert TWICE[..1] == once && once[..0] == [];
    assert ChildrenOf(tiles, once, i) == if i == 0 then [tiles[1]] else [];
  }

  /** Two tiles, the second of which the first one lists twice. */
  lemma TwinGraph(tiles: seq<Tile>, ks: Kids)
    requires |tiles| == |ks| == 2 && Distinct(tiles) && ks[0] == [tiles[1], tiles[1]] && ks[1] == []
    ensures Pending(tiles, ks, {}, tiles[0]) == 0 && Pending(tiles, ks, {}, tiles[1]) > 0
    ensures Freed(ks[0], tiles, ks, {tiles[0]}) == [tiles[1], tiles[1]]
  {
    var p, c := tiles[0], tiles[1];
    PendingZero(tiles, ks, {}, p);
    PendingZero(tiles, ks, {}, c);
    PendingZero(tiles, ks, {p}, c);
    assert [c, c][1..] == [c] && [c][1..] == [];
    assert Freed([c], tiles, ks, {p}) == [c];
  }

  lemma OnlyOne(q: seq<Tile>, p: Tile)
    requires Distinct(q) && p in q && forall t <- q :: t == p
    ensures q == [p]
  {
    DistinctBounded(q, [p]);
    assert q[0] in q;
  }

  lemma TwinQueue(g: TileSubGraph, p: Tile, c: Tile)
    requires g.Valid() && g.tiles == [p, c] && g.kids == [[c, c], []] && g.running == {} && g.order == []
    ensures g.readyTileQueue == [p]
  {
    TwinGraph(g.tiles, g.kids);
    assert g.Done() == {} && p in g.tiles && c in g.tiles;
    OnlyOne(g.readyTileQueue, p);
  }

  lemma TwinKids(p: Tile, c: Tile, ks: Kids)
    requires |ks| == 2 && ListsAre([p, c], ks, TWICE)
    ensures ks == [[c, c], []]
  {
    TwinList([p, c], 0);
    TwinList([p, c], 1);
  }

  /** Builds the two tiles and hands out the first one. */
  method StartTwin() returns (g: TileSubGraph, p: Tile, c: Tile)
    ensures fresh(g) && fresh(p) && fresh(c) && g.Valid() && g.tiles == [p, c] && g.kids == [[c, c], []]
    ensures g.running == {p} && g.order == [] && g.readyTileQueue == []
  {
    p := new Tile(0);
    c := new Tile(0);
    g := Build([p, c], TWICE);
    TwinKids(p, c, g.kids);
    TwinQueue(g, p, c);
    var t := g.GetTile();
  }

  /** A tile that lists its only child twice: finishing it queues the child twice. */
  method ChildQueuedTwice() returns (g: TileSubGraph, c: Tile)
    ensures g.Sound() && g.readyTileQueue == [c, c]
  {
    var p;
    g, p, c := StartTwin();
    TwinGraph(g.tiles, g.kids);
    assert p.childTiles == g.kids[0];
    var exits := g.FinishTile(p);
    assert g.Done() == {p};
  }

  /** The tiles handed out and not yet finished. */
  ghost predicate InFlight(g: TileSubGraph, inFlight: seq<Tile>)
    reads g, set t | t in g.tiles
  {
    && g.Valid() && Distinct(inFlight)
    && (forall t <- inFlight :: t in g.running) && (forall t <- g.running :: t in inFlight)
    && |inFlight| <= |g.tiles| && |g.order| <= |g.tiles|
  }

  method HandOut(g: TileSubGraph, inFlight: seq<Tile>) returns (r: seq<Tile>, got: bool)
    requires InFlight(g, inFlight)
    modifies g`readyTileQueue, g`running
    ensures InFlight(g, r)
    ensures got ==> |r| == |inFlight| + 1
    ensures !got ==> r == inFlight && g.readyTileQueue == []
  {
    var t := g.GetTile();
    if t == null {
      return inFlight, false;
    }
    assert t !in inFlight;
    r, got := inFlight + [t], true;
    DistinctConcat(inFlight, [t]);
    DistinctBounded(r, g.tiles);
  }

  /** Finishing a running tile of a covered graph never queues a tile twice. */
  method FinishOne(g: TileSubGraph, inFlight: seq<Tile>, k: nat) returns (r: seq<Tile>)
    requires InFlight(g, inFlight) && k < |inFlight| && Covered(g.tiles, g.kids)
    modifies g, set t | t in g.tiles
    ensures InFlight(g, r) && |g.order| == |old(g.order)| + 1
  {
    RunningHasNoTwin(g, inFlight[k]);
    var exits := g.FinishTile(inFlight[k]);
    TakeOne(inFlight, k);
    r := inFlight[..k] + inFlight[k + 1..];
    DistinctBounded(g.order, g.tiles);
  }

  /** The test before a finish, in terms of the graph. */
  lemma TwinTest(g: TileSubGraph, i: nat)
    requires g.Sound() && i < |g.tiles| && g.tiles[i] !in g.order
    ensures g.NoTwin(g.tiles[i]) <==> !TwinFor(g.tiles, g.kids, SetOf(g.order), i)
  {
    assert g.Done() == SetOf(g.order);
    g.TwinCounters(i);
    var cs, done := g.kids[i], g.Done() + {g.tiles[i]};
    forall c <- cs
      ensures multiset(cs)[c] >= 1
      ensures Twin(g.tiles, g.kids, SetOf(g.order), i, c)
         <==> multiset(cs)[c] != 1 && Pending(g.tiles, g.kids, done, c) == 0
    {
    }
  }

  lemma RunningHasNoTwin(g: TileSubGraph, t: Tile)
    requires g.Valid() && Covered(g.tiles, g.kids) && t in g.running
    ensures g.NoTwin(t)
  {
    var i: nat :| i < |g.tiles| && g.tiles[i] == t;
    CoveredHasNoTwin(g.tiles, g.kids, g.order, i);
    TwinTest(g, i);
  }

  /** A whole run: tiles may be handed out ahead of finishing others, in any interleaving.
      Every tile finishes exactly once and after all its parents, and no counter underflows. */
  method Run(g: TileSubGraph, ghost rank: seq<nat>) returns (ghost order: seq<Tile>)
    requires g.Valid() && g.order == [] && g.running == {}
    requires Ranked(g.tiles, g.kids, rank) && Covered(g.tiles, g.kids)
    modifies g, set t | t in g.tiles
    ensures order == g.order && multiset(order) == multiset(g.tiles)
    ensures |g.kids| == |g.tiles| && ParentsFirst(g.tiles, g.kids, order)
    ensures g.IsFinished()
  {
    var inFlight: seq<Tile> := [];
    var done := false;
    while !done
      invariant InFlight(g, inFlight)
      invariant done ==> inFlight == [] && g.readyTileQueue == []
      decreases |g.tiles| - |g.order|, |g.tiles| - |inFlight|, !done
    {
      var handOut, got := *, false;
      if |inFlight| == 0 || handOut {
        inFlight, got := HandOut(g, inFlight);
      }
      if !got {
        if |inFlight| == 0 {
          done := true;
        } else {
          var k: nat :| k < |inFlight|;
          inFlight := FinishOne(g, inFlight, k);
        }
      }
    }
    order := g.order;
    AllFinished(g, rank);
  }

  lemma AllFinished(g: TileSubGraph, rank: seq<nat>)
    requires g.Valid() && Ranked(g.tiles, g.kids, rank)
    requires g.running == {} && g.readyTileQueue == []
    ensures multiset(g.order) == multiset(g.tiles) && g.tileSet == {}
  {
    if exists t :: t in g.tiles && t !in g.order {
      SomeTileIsReady(g.tiles, g.kids, rank, g.order, g.readyTileQueue, g.tileSet);
    }
    SameTiles(g.order, g.tiles);
    FinishedMeansAll(g.tiles, g.kids, g.order, g.running, g.readyTileQueue, g.tileSet);
  }

  // ----- from an edge list to the end of a run -----

  /** Fresh tiles, wired by an edge list whose edges rise in rank, and run: each tile finishes once and every
      edge is respected. */
  method BuildAndRun(tiles: seq<Tile>, edges: seq<(nat, nat)>, ghost rank: seq<nat>) returns (g: TileSubGraph)
    requires Distinct(tiles)
    requires forall t <- tiles :: t.readyCounter == 0 && t.childTiles == []
    requires forall e <- edges :: e.0 < |tiles| && e.1 < |tiles|
    requires |rank| == |tiles| && forall e <- edges :: rank[e.0] < rank[e.1]
    requires forall a, b :: 0 <= a < b < |edges| ==> edges[a] != edges[b]
    modifies set t | t in tiles
    ensures multiset(g.order) == multiset(tiles) && g.IsFinished()
    ensures forall e <- edges :: FinishedBefore(g.order, tiles[e.0], tiles[e.1])
  {
    g := Build(tiles, edges);
    RanksRise(tiles, g.kids, edges, rank);
    SimpleEdgesCover(tiles, g.kids, edges);
    ghost var order := Run(g, rank);
    EdgesRespected(tiles, g.kids, edges, order);
  }

  lemma SimpleEdgesCover(tiles: seq<Tile>, ks: Kids, edges: seq<(nat, nat)>)
    requires Distinct(tiles) && |ks| == |tiles|
    requires forall e <- edges :: e.0 < |tiles| && e.1 < |tiles|
    requires forall a, b :: 0 <= a < b < |edges| ==> edges[a] != edges[b]
    requires ListsAre(tiles, ks, edges)
    ensures Covered(tiles, ks)
  {
    forall i | 0 <= i < |ks|
      ensures Distinct(ks[i])
    {
      DistinctEdges(tiles, edges, i);
    }
    SimpleIsCovered(tiles, ks);
  }

  /** Both tiles have finished, the first one earlier. */
  ghost predicate FinishedBefore(order: seq<Tile>, first: Tile, second: Tile) {
    exists a, b :: 0 <= a < b < |order| && order[a] == first && order[b] == second
  }

  lemma RanksRise(tiles: seq<Tile>, ks: Kids, edges: seq<(nat, nat)>, rank: seq<nat>)
    requires Distinct(tiles) && |ks| == |tiles| == |rank|
    requires forall e <- edges :: e.0 < |tiles| && e.1 < |tiles| && rank[e.0] < rank[e.1]
    requires ListsAre(tiles, ks, edges)
    ensures Ranked(tiles, ks, rank)
  {
    forall i, j | 0 <= i < |tiles| && 0 <= j < |tiles| && tiles[j] in ks[i]
      ensures rank[i] < rank[j]
    {
      ChildIsHead(tiles, edges, i, tiles[j]);
      var e :| e in edges && e.0 == i && tiles[e.1] == tiles[j];
    }
  }

  lemma EdgesRespected(tiles: seq<Tile>, ks: Kids, edges: seq<(nat, nat)>, order: seq<Tile>)
    requires |ks| == |tiles| && ParentsFirst(tiles, ks, order) && multiset(order) == multiset(tiles)
    requires forall e <- edges :: e.0 < |tiles| && e.1 < |tiles|
    requires ListsAre(tiles, ks, edges)
    ensures forall e <- edges :: FinishedBefore(order, tiles[e.0], tiles[e.1])
  {
    forall e <- edges
      ensures FinishedBefore(order, tiles[e.0], tiles[e.1])
    {
      var child := tiles[e.1];
      ChildIsHead(tiles, edges, e.0, child);
      assert child in multiset(tiles) && child in multiset(order);
      var b :| 0 <= b < |order| && order[b] == child;
      assert tiles[e.0] in order[..b];
      var a :| 0 <= a < b && order[..b][a] == tiles[e.0];
      assert order[a] == tiles[e.0];
    }
  }

  // ----- every legal order is a run -----

  /** Hands out tiles until the given one is running. */
  method HandOutUntil(g: TileSubGraph, inFlight: seq<Tile>, t: Tile) returns (r: seq<Tile>)
    requires InFlight(g, inFlight) && t in g.tiles && t !in g.order
    requires Pending(g.tiles, g.kids, SetOf(g.order), t) == 0
    modifies g`readyTileQueue, g`running
    ensures InFlight(g, r) && t in r
  {
    r := inFlight;
    assert g.Done() == SetOf(g.order);
    while t !in r
      invariant InFlight(g, r)
      decreases |g.tiles| - |r|
    {
      assert t !in g.tileSet && t in g.readyTileQueue;
      var got;
      r, got := HandOut(g, r);
    }
  }

  /** One finish of a replay. */
  method ReplayStep(g: TileSubGraph, inFlight: seq<Tile>, t: Tile) returns (r: seq<Tile>, twice: bool)
    requires InFlight(g, inFlight) && t in g.tiles && t !in g.order
    requires Pending(g.tiles, g.kids, SetOf(g.order), t) == 0
    modifies g, set x | x in g.tiles
    ensures g.Sound() && g.order == old(g.order) + [t]
    ensures twice <==> TwinAfter(g.tiles, g.kids, old(g.order), t)
    ensures twice <==> !Distinct(g.readyTileQueue)
    ensures !twice ==> InFlight(g, r)
  {
    r := HandOutUntil(g, inFlight, t);
    ghost var i: nat :| i < |g.tiles| && g.tiles[i] == t;
    TwinTest(g, i);
    twice := !g.NoTwin(t);
    var at: nat :| at < |r| && r[at] == t;
    TakeOne(r, at);
    var exits := g.FinishTile(t);
    r := r[..at] + r[at + 1..];
    DistinctBounded(g.order, g.tiles);
  }

  /** Finishing t after the given order queues a tile twice. */
  ghost predicate TwinAfter(tiles: seq<Tile>, ks: Kids, order: seq<Tile>, t: Tile)
    requires |ks| == |tiles|
  {
    exists i: nat :: i < |tiles| && tiles[i] == t && TwinFor(tiles, ks, SetOf(order), i)
  }

  /** Finishes the tiles of a legal order one after the other, up to the first finish that queues a tile twice. */
  method Replay(g: TileSubGraph, order: seq<Tile>) returns (twice: bool)
    requires g.Valid() && g.order == [] && g.running == {} && LegalOrder(g.tiles, g.kids, order)
    modifies g, set t | t in g.tiles
    ensures g.Sound() && (twice <==> !Distinct(g.readyTileQueue))
    ensures g.order <= order && (!twice ==> g.order == order)
    ensures twice <==> HasTwin(g.tiles, g.kids, order)
  {
    var inFlight: seq<Tile> := [];
    for k := 0 to |order|
      invariant InFlight(g, inFlight) && g.order == order[..k]
      invariant NoTwinYet(g.tiles, g.kids, order, k)
    {
      ReplayTurn(g.tiles, g.kids, order, k);
      inFlight, twice := ReplayStep(g, inFlight, order[k]);
      if twice {
        return;
      }
    }
    assert order[..|order|] == order;
    twice := false;
    NoTwinFound(g.tiles, g.kids, order);
  }

  /** None of the first k finishes queues a tile twice. */
  ghost predicate NoTwinYet(tiles: seq<Tile>, ks: Kids, order: seq<Tile>, k: nat)
    requires |ks| == |tiles| && k <= |order|
  {
    forall l: nat {:trigger order[l]} :: l < k ==> !TwinAfter(tiles, ks, order[..l], order[l])
  }

  /** What finish k of a legal order needs, and what it tells about the order. */
  lemma ReplayTurn(tiles: seq<Tile>, ks: Kids, order: seq<Tile>, k: nat)
    requires |ks| == |tiles| && LegalOrder(tiles, ks, order) && k < |order| && NoTwinYet(tiles, ks, order, k)
    ensures order[k] in tiles && order[k] !in order[..k]
    ensures Pending(tiles, ks, SetOf(order[..k]), order[k]) == 0
    ensures order[..k] + [order[k]] == order[..k + 1] <= order
    ensures if TwinAfter(tiles, ks, order[..k], order[k]) then HasTwin(tiles, ks, order)
            else NoTwinYet(tiles, ks, order, k + 1)
  {
    NextIsFree(tiles, ks, order, k);
  }

  lemma NoTwinFound(tiles: seq<Tile>, ks: Kids, order: seq<Tile>)
    requires |ks| == |tiles| && NoTwinYet(tiles, ks, order, |order|)
    ensures !HasTwin(tiles, ks, order)
  {
    forall k: nat, i: nat | k < |order| && i < |tiles| && order[k] == tiles[i]
      ensures !TwinFor(tiles, ks, SetOf(order[..k]), i)
    {
      assert !TwinAfter(tiles, ks, order[..k], order[k]);
    }
  }

  lemma NextIsFree(tiles: seq<Tile>, ks: Kids, order: seq<Tile>, k: nat)
    requires |ks| == |tiles| && LegalOrder(tiles, ks, order) && k < |order|
    ensures order[k] in tiles && order[k] !in order[..k] && Pending(tiles, ks, SetOf(order[..k]), order[k]) == 0
  {
    PendingZero(tiles, ks, SetOf(order[..k]), order[k]);
  }
}
