/** Tiles of a subgraph and their ready counters: who may run, and when a tile becomes ready. */
module TileScheduler {
  import opened Sequences


  class Tile {
    var readyCounter: nat
    var childTiles: seq<Tile>
    const requiredSramSize: nat

    constructor (requiredSramSize: nat)
      ensures readyCounter == 0 && childTiles == [] && this.requiredSramSize == requiredSramSize
    {
      readyCounter, childTiles := 0, [];
      this.requiredSramSize := requiredSramSize;
    }

    method IncReadyCounter()
      modifies this`readyCounter
      ensures readyCounter == old(readyCounter) + 1
    {
      readyCounter := readyCounter + 1;
    }

    /** Leaves the process when the counter is already zero. */
    method DecReadyCounter() returns (exits: bool)
      modifies this`readyCounter
      ensures exits <==> old(readyCounter) == 0
      ensures readyCounter == if exits then 0 else old(readyCounter) - 1
    {
      if readyCounter == 0 {
        return true;
      }
      readyCounter := readyCounter - 1;
      return false;
    }

    method AppendChild(child: Tile)
      modifies this`childTiles, child`readyCounter
      ensures childTiles == old(childTiles) + [child]
      ensures child.readyCounter == old(child.readyCounter) + 1
    {
      child.IncReadyCounter();
      childTiles := childTiles + [child];
    }

    /** Takes one off the counter of every child, once per edge; leaves the process at the first underflow. */
    method FinishTile() returns (exits: bool)
      modifies set c | c in childTiles
      ensures childTiles == old(childTiles)
      ensures forall c <- childTiles :: c.childTiles == old(c.childTiles)
      ensures !exits <==> forall c <- childTiles :: multiset(childTiles)[c] <= old(c.readyCounter)
      ensures !exits ==> forall c <- childTiles :: c.readyCounter == old(c.readyCounter) - multiset(childTiles)[c]
    {
      ghost var cs := childTiles;
      for k := 0 to |childTiles|
        invariant childTiles == cs
        invariant forall c <- cs :: c.childTiles == old(c.childTiles)
        invariant forall c <- cs :: multiset(cs[..k])[c] <= old(c.readyCounter)
        invariant forall c <- cs :: c.readyCounter == old(c.readyCounter) - multiset(cs[..k])[c]
      {
        assert cs[..k + 1] == cs[..k] + [cs[k]];
        var child := childTiles[k];
        var underflow := child.DecReadyCounter();
        if underflow {
          assert cs == cs[..k + 1] + cs[k + 1..];
          assert multiset(cs)[child] > old(child.readyCounter);
          return true;
        }
      }
      assert cs[..|cs|] == cs;
      return false;
    }
  }

  type Kids = seq<seq<Tile>>

  /** Edges into c from the tiles of ts (with child lists ks) that are not finished. */
  ghost function Pending(ts: seq<Tile>, ks: Kids, done: set<Tile>, c: Tile): nat
    requires |ks| == |ts|
  {
    if |ts| == 0 then 0
    else (if ts[0] in done then 0 else multiset(ks[0])[c]) + Pending(ts[1..], ks[1..], done, c)
  }

  lemma {:induction false} PendingSame(ts: seq<Tile>, ks: Kids, done: set<Tile>, p: Tile, c: Tile)
    requires |ks| == |ts| && p !in ts
    ensures Pending(ts, ks, done + {p}, c) == Pending(ts, ks, done, c)
    decreases |ts|
  {
    if |ts| > 0 {
      PendingSame(ts[1..], ks[1..], done, p, c);
    }
  }

  /** Finishing tile k removes exactly its edges. */
  lemma {:induction false} PendingDrops(ts: seq<Tile>, ks: Kids, done: set<Tile>, k: nat, c: Tile)
    requires |ks| == |ts| && Distinct(ts) && k < |ts| && ts[k] !in done
    ensures Pending(ts, ks, done, c) == Pending(ts, ks, done + {ts[k]}, c) + multiset(ks[k])[c]
    decreases |ts|
  {
    if k == 0 {
      PendingSame(ts[1..], ks[1..], done, ts[0], c);
    } else {
      PendingDrops(ts[1..], ks[1..], done, k - 1, c);
    }
  }

  /** No pending edge means that every parent is finished, and conversely. */
  lemma {:induction false} PendingZero(ts: seq<Tile>, ks: Kids, done: set<Tile>, c: Tile)
    requires |ks| == |ts|
    ensures Pending(ts, ks, done, c) == 0 <==> forall i :: 0 <= i < |ts| && c in ks[i] ==> ts[i] in done
    decreases |ts|
  {
    if |ts| > 0 {
      PendingZero(ts[1..], ks[1..], done, c);
      assert forall i :: 1 <= i < |ts| ==> ts[i] == ts[1..][i - 1] && ks[i] == ks[1..][i - 1];
      assert c in ks[0] <==> multiset(ks[0])[c] > 0;
    }
  }

  ghost function ChildLists(tiles: seq<Tile>): (ks: Kids)
    reads tiles
    ensures |ks| == |tiles|
  {
    seq(|tiles|, i requires 0 <= i < |tiles| reads tiles => tiles[i].childTiles)
  }

  /** A new edge from tile k to x adds one to the count of x only. */
  lemma {:induction false} PendingAppend(ts: seq<Tile>, ks: Kids, k: nat, x: Tile, c: Tile)
    requires |ks| == |ts| && k < |ts|
    ensures Pending(ts, ks[k := ks[k] + [x]], {}, c) == Pending(ts, ks, {}, c) + (if c == x then 1 else 0)
    decreases |ts|
  {
    var ks' := ks[k := ks[k] + [x]];
    if k == 0 {
      assert ks'[1..] == ks[1..];
    } else {
      assert ks'[1..] == ks[1..][k - 1 := ks[1..][k - 1] + [x]];
      PendingAppend(ts[1..], ks[1..], k - 1, x, c);
    }
  }

  lemma PendingAppendAll(ts: seq<Tile>, ks: Kids, k: nat, x: Tile)
    requires |ks| == |ts| && k < |ts|
    ensures forall c <- ts ::
      Pending(ts, ks[k := ks[k] + [x]], {}, c) == Pending(ts, ks, {}, c) + (if c == x then 1 else 0)
  {
    forall c <- ts
      ensures Pending(ts, ks[k := ks[k] + [x]], {}, c) == Pending(ts, ks, {}, c) + (if c == x then 1 else 0)
    {
      PendingAppend(ts, ks, k, x, c);
    }
  }

  lemma {:induction false} NoEdges(ts: seq<Tile>, ks: Kids, c: Tile)
    requires |ks| == |ts| && forall i :: 0 <= i < |ks| ==> ks[i] == []
    ensures Pending(ts, ks, {}, c) == 0
    decreases |ts|
  {
    if |ts| > 0 {
      NoEdges(ts[1..], ks[1..], c);
    }
  }

  /** The heads of the edges that leave tile i, in order. */
  ghost function ChildrenOf(tiles: seq<Tile>, edges: seq<(nat, nat)>, i: nat): seq<Tile>
    requires forall e <- edges :: e.1 < |tiles|
  {
    if |edges| == 0 then []
    else
      var front, last := edges[..|edges| - 1], edges[|edges| - 1];
      assert last in edges;
      ChildrenOf(tiles, front, i) + (if last.0 == i then [tiles[last.1]] else [])
  }

  lemma ChildrenSnoc(tiles: seq<Tile>, edges: seq<(nat, nat)>, k: nat, i: nat)
    requires k < |edges| && forall e <- edges :: e.1 < |tiles|
    ensures edges[k] in edges
    ensures ChildrenOf(tiles, edges[..k + 1], i)
         == ChildrenOf(tiles, edges[..k], i) + (if edges[k].0 == i then [tiles[edges[k].1]] else [])
  {
    assert edges[..k + 1][..k] == edges[..k];
  }

  lemma {:induction false} ChildIsHead(tiles: seq<Tile>, edges: seq<(nat, nat)>, i: nat, c: Tile)
    requires forall e <- edges :: e.1 < |tiles|
    ensures c in ChildrenOf(tiles, edges, i) <==> exists e <- edges :: e.0 == i && tiles[e.1] == c
    decreases |edges|
  {
    if |edges| > 0 {
      var front, last := edges[..|edges| - 1], edges[|edges| - 1];
      assert edges == front + [last];
      ChildIsHead(tiles, front, i, c);
    }
  }

  /** Different edges give child lists without repetition. */
  lemma {:induction false} DistinctEdges(tiles: seq<Tile>, edges: seq<(nat, nat)>, i: nat)
    requires Distinct(tiles) && forall e <- edges :: e.1 < |tiles|
    requires forall a, b :: 0 <= a < b < |edges| ==> edges[a] != edges[b]
    ensures Distinct(ChildrenOf(tiles, edges, i))
    decreases |edges|
  {
    if |edges| > 0 {
      var front, last := edges[..|edges| - 1], edges[|edges| - 1];
      DistinctEdges(tiles, front, i);
      if last.0 == i {
        ChildIsHead(tiles, front, i, tiles[last.1]);
        DistinctConcat(ChildrenOf(tiles, front, i), [tiles[last.1]]);
      }
    }
  }

  /** The child lists that the first k edges give. */
  ghost predicate ListsAre(tiles: seq<Tile>, ks: Kids, edges: seq<(nat, nat)>)
    requires |ks| == |tiles| && forall e <- edges :: e.1 < |tiles|
  {
    forall i :: 0 <= i < |tiles| ==> ks[i] == ChildrenOf(tiles, edges, i)
  }

  lemma ListsStep(tiles: seq<Tile>, ks: Kids, edges: seq<(nat, nat)>, k: nat)
    requires |ks| == |tiles| && k < |edges| && forall e <- edges :: e.0 < |tiles| && e.1 < |tiles|
    requires ListsAre(tiles, ks, edges[..k])
    ensures edges[k] in edges
    ensures ListsAre(tiles, ks[edges[k].0 := ks[edges[k].0] + [tiles[edges[k].1]]], edges[..k + 1])
  {
    var ks' := ks[edges[k].0 := ks[edges[k].0] + [tiles[edges[k].1]]];
    forall i | 0 <= i < |tiles|
      ensures ks'[i] == ChildrenOf(tiles, edges[..k + 1], i)
    {
      ChildrenSnoc(tiles, edges, k, i);
    }
  }

  /** One append_child between two tiles. */
  method ConnectEdge(tiles: seq<Tile>, parent: nat, child: nat)
    requires Distinct(tiles) && parent < |tiles| && child < |tiles|
    requires forall c <- tiles :: c.readyCounter == Pending(tiles, ChildLists(tiles), {}, c)
    modifies set t | t in tiles
    ensures ChildLists(tiles) == old(ChildLists(tiles))[parent := old(ChildLists(tiles))[parent] + [tiles[child]]]
    ensures forall c <- tiles :: c.readyCounter == Pending(tiles, ChildLists(tiles), {}, c)
  {
    ghost var ks := ChildLists(tiles);
    PendingAppendAll(tiles, ks, parent, tiles[child]);
    tiles[parent].AppendChild(tiles[child]);
    assert ChildLists(tiles) == ks[parent := ks[parent] + [tiles[child]]];
  }

  /** Wiring fresh tiles with append_child: every child list holds the heads of the tile's edges in order,
      and every counter is the number of edges into the tile. */
  method Connect(tiles: seq<Tile>, edges: seq<(nat, nat)>)
    requires Distinct(tiles)
    requires forall t <- tiles :: t.readyCounter == 0 && t.childTiles == []
    requires forall e <- edges :: e.0 < |tiles| && e.1 < |tiles|
    modifies set t | t in tiles
    ensures ListsAre(tiles, ChildLists(tiles), edges)
    ensures forall c <- tiles :: c.readyCounter == Pending(tiles, ChildLists(tiles), {}, c)
  {
    forall c <- tiles
      ensures c.readyCounter == Pending(tiles, ChildLists(tiles), {}, c)
    {
      NoEdges(tiles, ChildLists(tiles), c);
    }
    for k := 0 to |edges|
      invariant ListsAre(tiles, ChildLists(tiles), edges[..k])
      invariant forall c <- tiles :: c.readyCounter == Pending(tiles, ChildLists(tiles), {}, c)
    {
      ListsStep(tiles, ChildLists(tiles), edges, k);
      ConnectEdge(tiles, edges[k].0, edges[k].1);
    }
    assert edges[..|edges|] == edges;
  }

  /** Every tile is finished, running, queued or waiting, and waits exactly while edges into it are pending. */
  ghost predicate Located(tiles: seq<Tile>, ks: Kids, order: seq<Tile>, running: set<Tile>, queue: seq<Tile>,
                          waiting: set<Tile>)
    requires |ks| == |tiles|
  {
    var done := set t | t in order;
    && Distinct(order) && (forall t <- order :: t in tiles)
    && (forall t <- queue :: t in tiles && t !in order && t !in running)
    && (forall t <- running :: t in tiles && t !in order)
    && (forall t <- waiting :: t in tiles)
    && (forall t <- tiles :: t in waiting <==> Pending(tiles, ks, done, t) > 0)
    && (forall t <- tiles :: t in waiting <==> t !in order && t !in running && t !in queue)
  }

  /** All parents of a finished tile were finished before it. */
  ghost predicate ParentsFirst(tiles: seq<Tile>, ks: Kids, order: seq<Tile>)
    requires |ks| == |tiles|
  {
    forall j, i :: 0 <= j < |order| && 0 <= i < |tiles| && order[j] in ks[i] ==> tiles[i] in order[..j]
  }

  /** The children of cs, in order, that have no pending edge left. */
  ghost function Freed(cs: seq<Tile>, tiles: seq<Tile>, ks: Kids, done: set<Tile>): (r: seq<Tile>)
    requires |ks| == |tiles|
    ensures forall c <- r :: c in cs && Pending(tiles, ks, done, c) == 0
    ensures forall c <- cs :: Pending(tiles, ks, done, c) == 0 ==> c in r
  {
    if |cs| == 0 then []
    else (if Pending(tiles, ks, done, cs[0]) == 0 then [cs[0]] else []) + Freed(cs[1..], tiles, ks, done)
  }

  ghost function SetOf(q: seq<Tile>): set<Tile> {
    set x | x in q
  }

  lemma SetOfSnoc(q: seq<Tile>, t: Tile)
    ensures SetOf(q + [t]) == SetOf(q) + {t}
  {
  }

  class TileSubGraph {
    const tiles: seq<Tile>
    /** The child lists; they do not change once the graph is built. */
    ghost const kids: Kids
    var readyTileQueue: seq<Tile>
    var tileSet: set<Tile>
    /** Tiles handed out and not yet finished, and the tiles finished so far in order. */
    ghost var running: set<Tile>
    ghost var order: seq<Tile>

    ghost function Done(): set<Tile>
      reads this
    {
      set t | t in order
    }

    /** Edges stay inside the subgraph; a tile may list a child more than once. */
    ghost predicate Wired()
      reads tiles
    {
      && Distinct(tiles) && |kids| == |tiles|
      && (forall i :: 0 <= i < |tiles| ==> tiles[i].childTiles == kids[i])
      && forall i :: 0 <= i < |kids| ==> forall c <- kids[i] :: c in tiles
    }

    /** Each ready counter is the number of edges from unfinished parents. */
    ghost predicate CountersExact()
      requires |kids| == |tiles|
      reads this, tiles
    {
      forall c <- tiles :: c.readyCounter == Pending(tiles, kids, Done(), c)
    }

    /** All of the invariant but that the queue holds a tile once only. */
    ghost predicate Sound()
      reads this, tiles
    {
      && Wired() && CountersExact()
      && Located(tiles, kids, order, running, readyTileQueue, tileSet)
      && ParentsFirst(tiles, kids, order)
    }

    ghost predicate Valid()
      reads this, tiles
    {
      Sound() && Distinct(readyTileQueue)
    }

    predicate IsFinished()
      reads this
    {
      readyTileQueue == [] && tileSet == {}
    }

    constructor (tiles: seq<Tile>)
      ensures this.tiles == tiles && readyTileQueue == [] && tileSet == {} && running == {} && order == []
      ensures kids == ChildLists(tiles)
    {
      this.tiles := tiles;
      this.kids := ChildLists(tiles);
      readyTileQueue, tileSet, running, order := [], {}, {}, [];
    }

    method AddTile(t: Tile)
      modifies this`readyTileQueue, this`tileSet
      ensures readyTileQueue == if t.readyCounter == 0 then old(readyTileQueue) + [t] else old(readyTileQueue)
      ensures tileSet == if t.readyCounter == 0 then old(tileSet) else old(tileSet) + {t}
    {
      if t.readyCounter == 0 {
        readyTileQueue := readyTileQueue + [t];
      } else {
        tileSet := tileSet + {t};
      }
    }

    /** Adding every tile of a graph whose counters are in-degrees gives a valid start. */
    method AddAll()
      requires Wired() && CountersExact()
      requires readyTileQueue == [] && tileSet == {} && running == {} && order == []
      modifies this`readyTileQueue, this`tileSet
      ensures Valid() && running == {} && order == []
    {
      ghost var done := Done();
      assert done == {};
      for k := 0 to |tiles|
        invariant forall c <- tiles :: c.readyCounter == Pending(tiles, kids, done, c)
        invariant Distinct(readyTileQueue)
        invariant forall t :: t in readyTileQueue <==> t in tiles[..k] && Pending(tiles, kids, done, t) == 0
        invariant forall t :: t in tileSet <==> t in tiles[..k] && Pending(tiles, kids, done, t) > 0
      {
        assert tiles[..k + 1] == tiles[..k] + [tiles[k]];
        assert tiles[k] !in tiles[..k] && tiles[k] in tiles;
        DistinctConcat(readyTileQueue, [tiles[k]]);
        AddTile(tiles[k]);
      }
      assert tiles[..|tiles|] == tiles;
      assert Located(tiles, kids, order, running, readyTileQueue, tileSet);
    }

    /** std::priority_queue::top: some ready tile with the least scratchpad need. */
    method TopIndex() returns (k: nat)
      requires |readyTileQueue| > 0
      ensures k < |readyTileQueue|
      ensures forall j :: 0 <= j < |readyTileQueue| ==>
                readyTileQueue[k].requiredSramSize <= readyTileQueue[j].requiredSramSize
    {
      k := 0;
      for j := 1 to |readyTileQueue|
        invariant k < |readyTileQueue|
        invariant forall i :: 0 <= i < j ==> readyTileQueue[k].requiredSramSize <= readyTileQueue[i].requiredSramSize
      {
        if readyTileQueue[j].requiredSramSize < readyTileQueue[k].requiredSramSize {
          k := j;
        }
      }
    }

    /** Hands out a ready tile; null stands for the EMPTY tile. */
    method GetTile() returns (t: Tile?)
      requires Valid()
      modifies this`readyTileQueue, this`running
      ensures Valid()
      ensures t == null <==> old(readyTileQueue) == []
      ensures t == null ==> readyTileQueue == [] && running == old(running)
      ensures t != null ==> t in old(readyTileQueue) && running == old(running) + {t}
      ensures t != null ==> multiset(readyTileQueue) == multiset(old(readyTileQueue)) - multiset{t}
      // no queued tile needs less scratchpad
      ensures t != null ==> forall q <- old(readyTileQueue) :: t.requiredSramSize <= q.requiredSramSize
      // every parent of the tile handed out has finished
      ensures t != null ==> forall i :: 0 <= i < |tiles| && t in kids[i] ==> tiles[i] in order
    {
      t := null;
      if |readyTileQueue| > 0 {
        assert readyTileQueue[0] in readyTileQueue;
        var k := TopIndex();
        t := readyTileQueue[k];
        TakeOne(readyTileQueue, k);
        PendingZero(tiles, kids, Done(), t);
        readyTileQueue := readyTileQueue[..k] + readyTileQueue[k + 1..];
        running := running + {t};
      }
    }

    /** Tile::finish_tile inside the subgraph: every counter loses the edges of t, and none underflows. */
    method LowerCounters(t: Tile, ghost k: nat) returns (exits: bool)
      requires Wired() && CountersExact() && k < |tiles| && tiles[k] == t && t !in order
      modifies set x | x in tiles
      ensures !exits && Wired()
      ensures forall c <- tiles :: c.readyCounter == Pending(tiles, kids, Done() + {t}, c)
    {
      FinishFacts(tiles, kids, Done(), k);
      assert forall c <- t.childTiles :: c in tiles;
      exits := t.FinishTile();
      forall c <- tiles
        ensures c.readyCounter == Pending(tiles, kids, Done() + {t}, c)
      {
        if c !in kids[k] {
          assert multiset(kids[k])[c] == 0;
        }
      }
    }

    /** One child: it enters the queue when no parent is pending. */
    method ReleaseChild(child: Tile)
      modifies this`readyTileQueue, this`tileSet
      ensures readyTileQueue == old(readyTileQueue) + (if child.readyCounter == 0 then [child] else [])
      ensures tileSet == old(tileSet) - (if child.readyCounter == 0 then {child} else {})
    {
      if child.readyCounter == 0 {
        readyTileQueue := readyTileQueue + [child];
        tileSet := tileSet - {child};
      }
    }

    /** The loop over the children: those without pending parents enter the queue. */
    method ReleaseChildren(t: Tile)
      requires Wired() && CountersExact() && t in tiles && forall c <- t.childTiles :: c in tiles
      modifies this`readyTileQueue, this`tileSet
      ensures readyTileQueue == old(readyTileQueue) + Freed(t.childTiles, tiles, kids, Done())
      ensures tileSet == old(tileSet) - SetOf(Freed(t.childTiles, tiles, kids, Done()))
    {
      ghost var cs, queue, waiting, done := t.childTiles, readyTileQueue, tileSet, Done();
      for j := 0 to |t.childTiles|
        invariant forall c <- cs :: c.readyCounter == Pending(tiles, kids, done, c)
        invariant readyTileQueue == queue + Freed(cs[..j], tiles, kids, done)
        invariant tileSet == waiting - SetOf(Freed(cs[..j], tiles, kids, done))
      {
        assert cs[j] in cs;
        FreedSnoc(cs, tiles, kids, done, j);
        ReleasedSnoc(queue, waiting, Freed(cs[..j], tiles, kids, done), cs[j]);
        ReleaseChild(t.childTiles[j]);
      }
      assert cs[..|cs|] == cs;
    }

    /** Every child for which t holds all the edges that are still pending is listed by t once. */
    predicate NoTwin(t: Tile)
      reads this, t, set c | c in t.childTiles
    {
      forall c <- t.childTiles :: c.readyCounter == multiset(t.childTiles)[c] ==> c.readyCounter == 1
    }

    /** TileSubGraph::finish_tile: children without pending parents become ready. No counter underflows, and
        a tile is queued twice exactly when t lists a child twice that only t was keeping back. */
    method FinishTile(t: Tile) returns (exits: bool)
      requires Valid() && t in running
      modifies this`readyTileQueue, this`tileSet, this`running, this`order, set x | x in tiles
      ensures !exits && Sound()
      ensures Valid() <==> old(NoTwin(t))
      ensures order == old(order) + [t] && running == old(running) - {t}
      ensures readyTileQueue == old(readyTileQueue) + Freed(t.childTiles, tiles, kids, Done())
    {
      ghost var k :| 0 <= k < |tiles| && tiles[k] == t;
      FinishPlaces(k);
      exits := Retire(t, k);
      ReleaseChildren(t);
    }

    /** Tile t leaves the running tiles and all its edges are gone. */
    method Retire(t: Tile, ghost k: nat) returns (exits: bool)
      requires Wired() && CountersExact() && k < |tiles| && tiles[k] == t && t !in order
      modifies this`running, this`order, set x | x in tiles
      ensures !exits && Wired() && CountersExact()
      ensures order == old(order) + [t] && running == old(running) - {t} && Done() == old(Done()) + {t}
    {
      exits := LowerCounters(t, k);
      ghost var done := Done();
      order := order + [t];
      running := running - {t};
      assert Done() == done + {t};
    }

    /** What finishing tile k makes of the order, the running tiles, the queue and the waiting tiles. */
    lemma FinishPlaces(k: nat)
      requires Valid() && k < |tiles| && tiles[k] in running
      ensures var t := tiles[k];
              var freed := Freed(kids[k], tiles, kids, Done() + {t});
              && Located(tiles, kids, order + [t], running - {t}, readyTileQueue + freed, tileSet - SetOf(freed))
              && ParentsFirst(tiles, kids, order + [t])
              && (Distinct(readyTileQueue + freed) <==> NoTwin(t))
    {
      LocatedAfter(tiles, kids, order, running, readyTileQueue, tileSet, k);
      TwinFreed(tiles, kids, Done(), readyTileQueue, tileSet, k);
      TwinCounters(k);
    }

    /** The test on the counters is the one on the pending edges. */
    lemma TwinCounters(k: nat)
      requires Wired() && CountersExact() && k < |tiles| && tiles[k] !in order
      ensures NoTwin(tiles[k]) == ListedOnce(kids[k], tiles, kids, Done() + {tiles[k]})
    {
      forall c <- kids[k]
        ensures multiset(kids[k])[c] > 0
        ensures c.readyCounter == multiset(kids[k])[c] <==> Pending(tiles, kids, Done() + {tiles[k]}, c) == 0
      {
        PendingDrops(tiles, kids, Done(), k, c);
      }
    }
  }

  /** No child that has no pending edge left is listed more than once. */
  ghost predicate ListedOnce(cs: seq<Tile>, tiles: seq<Tile>, ks: Kids, done: set<Tile>)
    requires |ks| == |tiles|
  {
    forall c <- cs :: Pending(tiles, ks, done, c) == 0 ==> multiset(cs)[c] == 1
  }

  lemma TakeOne(q: seq<Tile>, k: nat)
    requires k < |q| && Distinct(q)
    ensures var r := q[..k] + q[k + 1..];
            && Distinct(r) && multiset(r) == multiset(q) - multiset{q[k]}
            && forall x :: x in r <==> x in q && x != q[k]
  {
    var front, x, back := q[..k], q[k], q[k + 1..];
    assert q == front + [x] + back;
    DistinctParts(front, x, back);
  }

  lemma DistinctParts(front: seq<Tile>, x: Tile, back: seq<Tile>)
    requires Distinct(front + [x] + back)
    ensures Distinct(front + back) && forall y :: y in front + back <==> y in front + [x] + back && y != x
  {
    var q, r := front + [x] + back, front + back;
    forall a | 0 <= a < |r|
      ensures r[a] == q[if a < |front| then a else a + 1]
    {
    }
    assert q[|front|] == x;
  }

  lemma ReleasedSnoc(queue: seq<Tile>, waiting: set<Tile>, freed: seq<Tile>, c: Tile)
    ensures queue + freed + [c] == queue + (freed + [c]) && queue + freed + [] == queue + (freed + [])
    ensures waiting - SetOf(freed) - {c} == waiting - SetOf(freed + [c])
    ensures waiting - SetOf(freed) - {} == waiting - SetOf(freed + [])
  {
    SetOfSnoc(freed, c);
    assert freed + [] == freed;
  }

  lemma FreedSnoc(cs: seq<Tile>, tiles: seq<Tile>, ks: Kids, done: set<Tile>, j: nat)
    requires |ks| == |tiles| && j < |cs|
    ensures Freed(cs[..j + 1], tiles, ks, done)
         == Freed(cs[..j], tiles, ks, done) + (if Pending(tiles, ks, done, cs[j]) == 0 then [cs[j]] else [])
    decreases j
  {
    if j > 0 {
      assert cs[..j + 1][1..] == cs[1..][..j] && cs[..j][1..] == cs[1..][..j - 1];
      FreedSnoc(cs[1..], tiles, ks, done, j - 1);
    } else {
      assert cs[..1][1..] == [];
    }
  }

  /** Finishing tile k lowers every count by its edges; in particular no child counter underflows. */
  lemma FinishFacts(tiles: seq<Tile>, ks: Kids, done: set<Tile>, k: nat)
    requires |ks| == |tiles| && Distinct(tiles) && k < |tiles| && tiles[k] !in done
    ensures forall c: Tile ::
              Pending(tiles, ks, done, c) == Pending(tiles, ks, done + {tiles[k]}, c) + multiset(ks[k])[c]
  {
    forall c: Tile
      ensures Pending(tiles, ks, done, c) == Pending(tiles, ks, done + {tiles[k]}, c) + multiset(ks[k])[c]
    {
      PendingDrops(tiles, ks, done, k, c);
    }
  }

  /** A freed child was waiting for its last edge. */
  lemma FreedWaited(tiles: seq<Tile>, ks: Kids, done: set<Tile>, waiting: set<Tile>, k: nat)
    requires |ks| == |tiles| && Distinct(tiles) && k < |tiles| && tiles[k] !in done
    requires forall c <- ks[k] :: c in tiles
    requires forall t <- tiles :: t in waiting <==> Pending(tiles, ks, done, t) > 0
    ensures forall c <- Freed(ks[k], tiles, ks, done + {tiles[k]}) :: c in waiting && c in tiles
  {
    var done' := done + {tiles[k]};
    forall c <- Freed(ks[k], tiles, ks, done')
      ensures c in waiting && c in tiles
    {
      assert multiset(ks[k])[c] > 0;
      PendingDrops(tiles, ks, done, k, c);
    }
  }

  lemma StillWaiting(tiles: seq<Tile>, ks: Kids, done: set<Tile>, waiting: set<Tile>, k: nat, c: Tile)
    requires |ks| == |tiles| && Distinct(tiles) && k < |tiles| && tiles[k] !in done && c in tiles
    requires c in waiting <==> Pending(tiles, ks, done, c) > 0
    ensures var done' := done + {tiles[k]};
            (c in waiting && c !in Freed(ks[k], tiles, ks, done')) <==> Pending(tiles, ks, done', c) > 0
  {
    PendingDrops(tiles, ks, done, k, c);
    if c !in ks[k] {
      assert multiset(ks[k])[c] == 0;
    }
  }

  lemma ParentsFirstAfter(tiles: seq<Tile>, ks: Kids, order: seq<Tile>, t: Tile)
    requires |ks| == |tiles| && ParentsFirst(tiles, ks, order)
    requires Pending(tiles, ks, (set x | x in order), t) == 0
    ensures ParentsFirst(tiles, ks, order + [t])
  {
    var done, order' := (set x | x in order), order + [t];
    PendingZero(tiles, ks, done, t);
    forall j, i | 0 <= j < |order'| && 0 <= i < |tiles| && order'[j] in ks[i]
      ensures tiles[i] in order'[..j]
    {
      if j < |order| {
        assert order'[..j] == order[..j];
      } else {
        assert order'[..j] == order && tiles[i] in done;
      }
    }
  }

  /** A finish queues a freed child as often as the finished tile lists it. */
  lemma {:induction false} QueuedPerEdge(cs: seq<Tile>, tiles: seq<Tile>, ks: Kids, done: set<Tile>, c: Tile)
    requires |ks| == |tiles|
    ensures multiset(Freed(cs, tiles, ks, done))[c] == if Pending(tiles, ks, done, c) == 0 then multiset(cs)[c] else 0
    decreases |cs|
  {
    if |cs| > 0 {
      QueuedPerEdge(cs[1..], tiles, ks, done, c);
      assert cs == [cs[0]] + cs[1..];
    }
  }

  lemma LocatedAfter(tiles: seq<Tile>, ks: Kids, order: seq<Tile>, running: set<Tile>, queue: seq<Tile>,
                     waiting: set<Tile>, k: nat)
    requires |ks| == |tiles| && Distinct(tiles) && k < |tiles| && tiles[k] in running
    requires forall c <- ks[k] :: c in tiles
    requires Located(tiles, ks, order, running, queue, waiting) && ParentsFirst(tiles, ks, order)
    ensures var t := tiles[k];
            var done := (set t | t in order) + {t};
            var freed := Freed(ks[k], tiles, ks, done);
            && Located(tiles, ks, order + [t], running - {t}, queue + freed, waiting - SetOf(freed))
            && ParentsFirst(tiles, ks, order + [t])
  {
    var t := tiles[k];
    var done := set t | t in order;
    var done' := done + {t};
    var order' := order + [t];
    assert (set t | t in order') == done';
    var freed := Freed(ks[k], tiles, ks, done');
    FreedWaited(tiles, ks, done, waiting, k);
    ParentsFirstAfter(tiles, ks, order, t);
    var waiting' := waiting - SetOf(freed);
    forall c <- tiles
      ensures c in waiting' <==> Pending(tiles, ks, done', c) > 0
    {
      StillWaiting(tiles, ks, done, waiting, k, c);
    }
    QueueAfter(tiles, order, running, queue, waiting, freed, t);
  }

  /** The place of every tile after t has moved to the finished ones and the freed tiles to the queue. */
  lemma QueueAfter(tiles: seq<Tile>, order: seq<Tile>, running: set<Tile>, queue: seq<Tile>, waiting: set<Tile>,
                   freed: seq<Tile>, t: Tile)
    requires t in running && t !in waiting
    requires forall c <- freed :: c in waiting && c in tiles
    requires forall c <- queue :: c in tiles && c !in order && c !in running
    requires forall c <- tiles :: c in waiting <==> c !in order && c !in running && c !in queue
    ensures forall c <- queue + freed :: c in tiles && c !in order + [t] && c !in running - {t}
    ensures forall c <- tiles ::
              c in waiting - SetOf(freed) <==> c !in order + [t] && c !in running - {t} && c !in queue + freed
  {
  }

  /** The queue stays free of repetitions exactly when no freed child is listed twice. */
  lemma TwinFreed(tiles: seq<Tile>, ks: Kids, done: set<Tile>, queue: seq<Tile>, waiting: set<Tile>, k: nat)
    requires |ks| == |tiles| && Distinct(tiles) && k < |tiles| && tiles[k] !in done
    requires forall c <- ks[k] :: c in tiles
    requires forall t <- tiles :: t in waiting <==> Pending(tiles, ks, done, t) > 0
    requires Distinct(queue) && forall t <- queue :: t !in waiting
    ensures var done' := done + {tiles[k]};
            Distinct(queue + Freed(ks[k], tiles, ks, done')) <==> ListedOnce(ks[k], tiles, ks, done')
  {
    var done' := done + {tiles[k]};
    var freed := Freed(ks[k], tiles, ks, done');
    FreedWaited(tiles, ks, done, waiting, k);
    FreedTwice(ks[k], tiles, ks, done');
    if Distinct(freed) {
      DistinctConcat(queue, freed);
    } else {
      var a, b :| 0 <= a < b < |freed| && freed[a] == freed[b];
      assert (queue + freed)[|queue| + a] == (queue + freed)[|queue| + b];
    }
  }

  lemma FreedTwice(cs: seq<Tile>, tiles: seq<Tile>, ks: Kids, done: set<Tile>)
    requires |ks| == |tiles|
    ensures Distinct(Freed(cs, tiles, ks, done)) <==> ListedOnce(cs, tiles, ks, done)
  {
    var freed := Freed(cs, tiles, ks, done);
    if Distinct(freed) {
      forall c <- cs | Pending(tiles, ks, done, c) == 0
        ensures multiset(cs)[c] == 1
      {
        QueuedPerEdge(cs, tiles, ks, done, c);
        OnceEach(freed, c);
      }
    } else {
      var a, b :| 0 <= a < b < |freed| && freed[a] == freed[b];
      QueuedPerEdge(cs, tiles, ks, done, freed[a]);
      TwiceInMultiset(freed, a, b);
    }
  }

  lemma DistinctConcat(a: seq<Tile>, b: seq<Tile>)
    requires Distinct(a) && Distinct(b) && forall c <- b :: c !in a
    ensures Distinct(a + b)
  {
    var s := a + b;
    forall i, j | 0 <= i < j < |s|
      ensures s[i] != s[j]
    {
      if i < |a| <= j {
        assert s[i] in a && s[j] in b;
      }
    }
  }

  // ----- progress: on an acyclic graph some unfinished tile is always available -----

  /** Edges go up in rank. */
  ghost predicate Ranked(tiles: seq<Tile>, ks: Kids, rank: seq<nat>)
    requires |ks| == |tiles|
  {
    && |rank| == |tiles|
    && forall i, j :: 0 <= i < |tiles| && 0 <= j < |tiles| && tiles[j] in ks[i] ==> rank[i] < rank[j]
  }

  lemma {:induction false} LeastUnfinished(tiles: seq<Tile>, done: set<Tile>, rank: seq<nat>, n: nat) returns (k: nat)
    requires |rank| == |tiles| && n <= |tiles| && exists i :: 0 <= i < n && tiles[i] !in done
    ensures k < n && tiles[k] !in done
    ensures forall i :: 0 <= i < n && tiles[i] !in done ==> rank[k] <= rank[i]
    decreases n
  {
    if exists i :: 0 <= i < n - 1 && tiles[i] !in done {
      k := LeastUnfinished(tiles, done, rank, n - 1);
      if tiles[n - 1] !in done && rank[n - 1] < rank[k] {
        k := n - 1;
      }
    } else {
      k := n - 1;
    }
  }

  /** While a tile is unfinished and none is running, the ready queue is not empty. */
  lemma SomeTileIsReady(tiles: seq<Tile>, ks: Kids, rank: seq<nat>, order: seq<Tile>, queue: seq<Tile>,
                        waiting: set<Tile>)
    requires |ks| == |tiles| && Ranked(tiles, ks, rank)
    requires Located(tiles, ks, order, {}, queue, waiting)
    requires exists t :: t in tiles && t !in order
    ensures queue != []
  {
    var done := set t | t in order;
    var u :| u in tiles && u !in order;
    var i :| 0 <= i < |tiles| && tiles[i] == u;
    var k := LeastUnfinished(tiles, done, rank, |tiles|);
    var t := tiles[k];
    PendingZero(tiles, ks, done, t);
    assert t !in waiting;
    assert t in queue;
  }

  /** is_finished holds exactly when every tile has been handed out, whether it is finished or still running. */
  lemma EndMeansHandedOut(tiles: seq<Tile>, ks: Kids, order: seq<Tile>, running: set<Tile>, queue: seq<Tile>,
                          waiting: set<Tile>)
    requires |ks| == |tiles| && Located(tiles, ks, order, running, queue, waiting)
    ensures queue == [] && waiting == {} <==> forall t <- tiles :: t in order || t in running
  {
    if forall t <- tiles :: t in order || t in running {
      if queue != [] {
        assert queue[0] in queue;
      }
    }
  }

  /** So the report means that all tiles are finished exactly when no tile is running at that time. */
  lemma FinishedMeansAll(tiles: seq<Tile>, ks: Kids, order: seq<Tile>, running: set<Tile>, queue: seq<Tile>,
                         waiting: set<Tile>)
    requires |ks| == |tiles| && Located(tiles, ks, order, running, queue, waiting)
    ensures (queue == [] && waiting == {} ==> forall t <- tiles :: t in order)
       <==> (queue == [] && waiting == {} ==> running == {})
    ensures (forall t <- tiles :: t in order) ==> queue == [] && waiting == {} && running == {}
  {
    EndMeansHandedOut(tiles, ks, order, running, queue, waiting);
    assert forall t <- running :: t in tiles && t !in order;
  }

  lemma DistinctBounded(s: seq<Tile>, tiles: seq<Tile>)
    requires Distinct(s) && forall t <- s :: t in tiles
    ensures |s| <= |tiles|
  {
    var a, b := set t | t in s, set t | t in tiles;
    DistinctSize(s);
    SetSize(tiles);
    SubsetSize(a, b);
  }

  lemma {:induction false} DistinctSize(s: seq<Tile>)
    requires Distinct(s)
    ensures |set t | t in s| == |s|
    decreases |s|
  {
    if |s| > 0 {
      DistinctSize(s[1..]);
      assert s[0] !in s[1..];
      assert (set t | t in s) == {s[0]} + (set t | t in s[1..]);
    }
  }

  lemma {:induction false} SetSize(s: seq<Tile>)
    ensures |set t | t in s| <= |s|
    decreases |s|
  {
    if |s| > 0 {
      SetSize(s[1..]);
      assert (set t | t in s) == {s[0]} + (set t | t in s[1..]);
    }
  }

  lemma SubsetSize(a: set<Tile>, b: set<Tile>)
    requires a <= b
    ensures |a| <= |b|
  {
    assert b == a + (b - a);
  }

  lemma {:induction false} OnceEach(s: seq<Tile>, t: Tile)
    requires Distinct(s)
    ensures multiset(s)[t] == if t in s then 1 else 0
    decreases |s|
  {
    if |s| > 0 {
      OnceEach(s[1..], t);
      assert s == [s[0]] + s[1..];
      assert s[0] !in s[1..];
    }
  }

  lemma SameTiles(a: seq<Tile>, b: seq<Tile>)
    requires Distinct(a) && Distinct(b) && (forall t <- a :: t in b) && (forall t <- b :: t in a)
    ensures multiset(a) == multiset(b)
  {
    forall t: Tile
      ensures multiset(a)[t] == multiset(b)[t]
    {
      OnceEach(a, t);
      OnceEach(b, t);
    }
  }
}
