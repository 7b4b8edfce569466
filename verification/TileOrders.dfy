/** Orders in which the tiles of a graph can finish, and which graphs never queue a tile twice. */
module TileOrders {
  import opened TileScheduler
  import opened Sequences

  ghost predicate Edge(tiles: seq<Tile>, ks: Kids, i: nat, j: nat)
    requires |ks| == |tiles|
  {
    i < |tiles| && j < |tiles| && tiles[j] in ks[i]
  }

  ghost predicate IsPath(tiles: seq<Tile>, ks: Kids, path: seq<nat>)
    requires |ks| == |tiles|
  {
    && |path| > 0 && (forall k :: 0 <= k < |path| ==> path[k] < |tiles|)
    && forall k {:trigger path[k]} :: 0 < k < |path| ==> Edge(tiles, ks, path[k - 1], path[k])
  }

  /** Tile j is tile i or one of its descendants. */
  ghost predicate Reach(tiles: seq<Tile>, ks: Kids, i: nat, j: nat)
    requires |ks| == |tiles|
  {
    exists path: seq<nat> :: IsPath(tiles, ks, path) && path[0] == i && path[|path| - 1] == j
  }

  lemma ReachSelf(tiles: seq<Tile>, ks: Kids, i: nat)
    requires |ks| == |tiles| && i < |tiles|
    ensures Reach(tiles, ks, i, i)
  {
    assert IsPath(tiles, ks, [i]);
  }

  lemma ReachOn(tiles: seq<Tile>, ks: Kids, i: nat, j: nat, k: nat)
    requires |ks| == |tiles| && Reach(tiles, ks, i, j) && Edge(tiles, ks, j, k)
    ensures Reach(tiles, ks, i, k)
  {
    var path: seq<nat> :| IsPath(tiles, ks, path) && path[0] == i && path[|path| - 1] == j;
    var next := path + [k];
    forall l | 0 < l < |next|
      ensures Edge(tiles, ks, next[l - 1], next[l])
    {
      if l < |path| {
        assert path[l] == next[l];
      }
    }
    assert IsPath(tiles, ks, next);
  }

  lemma {:induction false} PathRises(tiles: seq<Tile>, ks: Kids, rank: seq<nat>, path: seq<nat>)
    requires |ks| == |tiles| && Ranked(tiles, ks, rank) && IsPath(tiles, ks, path)
    ensures rank[path[0]] <= rank[path[|path| - 1]]
    decreases |path|
  {
    var n := |path| - 1;
    if n > 0 {
      assert path[n] == path[n];
      PathPrefix(tiles, ks, path);
      PathRises(tiles, ks, rank, path[..n]);
    }
  }

  lemma PathPrefix(tiles: seq<Tile>, ks: Kids, path: seq<nat>)
    requires |ks| == |tiles| && IsPath(tiles, ks, path) && |path| > 1
    ensures IsPath(tiles, ks, path[..|path| - 1])
  {
    var front := path[..|path| - 1];
    forall k | 0 < k < |front|
      ensures Edge(tiles, ks, front[k - 1], front[k])
    {
      assert path[k] == front[k];
    }
  }

  // ----- orders -----

  /** Tiles can finish in this order: no tile twice, and parents first. */
  ghost predicate LegalOrder(tiles: seq<Tile>, ks: Kids, order: seq<Tile>)
    requires |ks| == |tiles|
  {
    Distinct(order) && (forall t <- order :: t in tiles) && ParentsFirst(tiles, ks, order)
  }

  /** When a tile has finished, so have all the tiles it descends from. */
  lemma {:induction false} AncestorsFinished(tiles: seq<Tile>, ks: Kids, order: seq<Tile>, path: seq<nat>)
    requires |ks| == |tiles| && ParentsFirst(tiles, ks, order) && IsPath(tiles, ks, path)
    requires tiles[path[|path| - 1]] in order
    ensures tiles[path[0]] in order
    decreases |path|
  {
    var n := |path| - 1;
    if n > 0 {
      assert path[n] == path[n];
      var j :| 0 <= j < |order| && order[j] == tiles[path[n]];
      assert tiles[path[n - 1]] in order[..j];
      PathPrefix(tiles, ks, path);
      AncestorsFinished(tiles, ks, order, path[..n]);
    }
  }

  /** Finishing tile i after the tiles of done frees child c, which i lists at least twice. */
  ghost predicate Twin(tiles: seq<Tile>, ks: Kids, done: set<Tile>, i: nat, c: Tile)
    requires |ks| == |tiles| && i < |tiles|
  {
    multiset(ks[i])[c] >= 2 && Pending(tiles, ks, done + {tiles[i]}, c) == 0
  }

  ghost predicate TwinFor(tiles: seq<Tile>, ks: Kids, done: set<Tile>, i: nat)
    requires |ks| == |tiles| && i < |tiles|
  {
    exists c <- ks[i] :: Twin(tiles, ks, done, i, c)
  }

  /** Some finish of the order queues a tile twice. */
  ghost predicate HasTwin(tiles: seq<Tile>, ks: Kids, order: seq<Tile>)
    requires |ks| == |tiles|
  {
    exists k: nat, i: nat :: k < |order| && i < |tiles| && order[k] == tiles[i]
      && TwinFor(tiles, ks, SetOf(order[..k]), i)
  }

  /** Whenever a tile lists a child more than once, another parent of the child descends from that tile. */
  ghost predicate Covered(tiles: seq<Tile>, ks: Kids)
    requires |ks| == |tiles|
  {
    forall i: nat {:trigger ks[i]} :: i < |tiles| ==>
      forall c <- ks[i] :: multiset(ks[i])[c] >= 2 ==> HasLaterParent(tiles, ks, i, c)
  }

  ghost predicate HasLaterParent(tiles: seq<Tile>, ks: Kids, i: nat, c: Tile)
    requires |ks| == |tiles|
  {
    exists j: nat :: j < |tiles| && j != i && c in ks[j] && Reach(tiles, ks, i, j)
  }

  /** With a later parent unfinished, tile i never is the last one to keep c back. */
  lemma LaterParentKeeps(tiles: seq<Tile>, ks: Kids, order: seq<Tile>, i: nat, c: Tile)
    requires |ks| == |tiles| && Distinct(tiles) && ParentsFirst(tiles, ks, order)
    requires i < |tiles| && tiles[i] !in order && HasLaterParent(tiles, ks, i, c)
    ensures Pending(tiles, ks, SetOf(order) + {tiles[i]}, c) > 0
  {
    var j: nat :| j < |tiles| && j != i && c in ks[j] && Reach(tiles, ks, i, j);
    var path: seq<nat> :| IsPath(tiles, ks, path) && path[0] == i && path[|path| - 1] == j;
    PendingZero(tiles, ks, SetOf(order) + {tiles[i]}, c);
    if tiles[j] in order {
      AncestorsFinished(tiles, ks, order, path);
    }
  }

  lemma CoveredHasNoTwin(tiles: seq<Tile>, ks: Kids, order: seq<Tile>, i: nat)
    requires |ks| == |tiles| && Distinct(tiles) && ParentsFirst(tiles, ks, order) && Covered(tiles, ks)
    requires i < |tiles| && tiles[i] !in order
    ensures !TwinFor(tiles, ks, SetOf(order), i)
  {
    forall c <- ks[i]
      ensures !Twin(tiles, ks, SetOf(order), i, c)
    {
      if multiset(ks[i])[c] >= 2 {
        LaterParentKeeps(tiles, ks, order, i, c);
      }
    }
  }

  lemma PrefixParentsFirst(tiles: seq<Tile>, ks: Kids, order: seq<Tile>, k: nat)
    requires |ks| == |tiles| && ParentsFirst(tiles, ks, order) && k <= |order|
    ensures ParentsFirst(tiles, ks, order[..k])
  {
    forall j, i | 0 <= j < k && 0 <= i < |tiles| && order[..k][j] in ks[i]
      ensures tiles[i] in order[..k][..j]
    {
      assert order[..k][..j] == order[..j] && order[..k][j] == order[j];
    }
  }

  // ----- a legal order that ends with a twin -----

  /** No index twice, and lower ranks first. */
  ghost predicate ByRank(rank: seq<nat>, p: seq<nat>) {
    && (forall k :: 0 <= k < |p| ==> p[k] < |rank|)
    && forall a, b :: 0 <= a < b < |p| ==> p[a] != p[b] && rank[p[a]] <= rank[p[b]]
  }

  lemma {:induction false} RankedList(rank: seq<nat>, s: set<nat>) returns (p: seq<nat>)
    requires forall x <- s :: x < |rank|
    ensures ByRank(rank, p) && forall x :: x in p <==> x in s
    decreases |s|
  {
    if s == {} {
      p := [];
    } else {
      var top := HighestRank(rank, s);
      var front := RankedList(rank, s - {top});
      p := front + [top];
      forall a | 0 <= a < |front|
        ensures front[a] in s - {top}
      {
        assert front[a] in front;
      }
    }
  }

  lemma {:induction false} HighestRank(rank: seq<nat>, s: set<nat>) returns (top: nat)
    requires s != {} && forall x <- s :: x < |rank|
    ensures top in s && forall x <- s :: rank[x] <= rank[top]
    decreases |s|
  {
    top :| top in s;
    var rest := s - {top};
    if rest != {} {
      var other := HighestRank(rank, rest);
      if rank[top] < rank[other] {
        top := other;
      }
    }
  }

  function TilesAt(tiles: seq<Tile>, p: seq<nat>): (r: seq<Tile>)
    requires forall x <- p :: x < |tiles|
    ensures |r| == |p|
  {
    seq(|p|, k requires 0 <= k < |p| => assert p[k] in p; tiles[p[k]])
  }

  /** A set of tiles that is closed under parents can finish in order of rank. */
  lemma ClosedSetIsLegal(tiles: seq<Tile>, ks: Kids, rank: seq<nat>, p: seq<nat>)
    requires |ks| == |tiles| && Distinct(tiles) && Ranked(tiles, ks, rank)
    requires forall x <- p :: x < |tiles|
    requires ByRank(rank, p)
    requires forall i: nat, j: nat :: Edge(tiles, ks, i, j) && j in p ==> i in p
    ensures LegalOrder(tiles, ks, TilesAt(tiles, p))
  {
    var order := TilesAt(tiles, p);
    forall a | 0 <= a < |order|
      ensures order[a] in tiles
    {
      assert p[a] in p;
    }
    forall a, b | 0 <= a < b < |order|
      ensures order[a] != order[b]
    {
      assert p[a] in p && p[b] in p;
    }
    forall k, i | 0 <= k < |order| && 0 <= i < |tiles| && order[k] in ks[i]
      ensures tiles[i] in order[..k]
    {
      assert p[k] in p && Edge(tiles, ks, i, p[k]);
      var a :| 0 <= a < |p| && p[a] == i;
      assert order[..k][a] == tiles[i];
    }
  }

  /** When no later parent exists, everything that does not descend from tile i can finish, and then tile i. */
  lemma UncoveredOrder(tiles: seq<Tile>, ks: Kids, rank: seq<nat>, i: nat, c: Tile) returns (order: seq<Tile>)
    requires |ks| == |tiles| && Distinct(tiles) && Ranked(tiles, ks, rank)
    requires i < |tiles| && c in ks[i] && multiset(ks[i])[c] >= 2 && !HasLaterParent(tiles, ks, i, c)
    ensures LegalOrder(tiles, ks, order) && HasTwin(tiles, ks, order)
  {
    var s := set j: nat | j < |tiles| && !Reach(tiles, ks, i, j);
    var p := RankedList(rank, s);
    var q := p + [i];
    ReachSelf(tiles, ks, i);
    AllButDescendants(tiles, ks, rank, i, p);
    ClosedSetIsLegal(tiles, ks, rank, p);
    order := TilesAt(tiles, p) + [tiles[i]];
    AppendLegal(tiles, ks, rank, i, p);
    LastIsTwin(tiles, ks, i, c, p);
  }

  lemma AllButDescendants(tiles: seq<Tile>, ks: Kids, rank: seq<nat>, i: nat, p: seq<nat>)
    requires |ks| == |tiles| && Ranked(tiles, ks, rank) && i < |tiles|
    requires forall j: nat :: j in p <==> j < |tiles| && !Reach(tiles, ks, i, j)
    ensures forall a: nat, b: nat :: Edge(tiles, ks, a, b) && (b in p || b == i) ==> a in p
  {
    forall a: nat, b: nat | Edge(tiles, ks, a, b) && (b in p || b == i)
      ensures a in p
    {
      if Reach(tiles, ks, i, a) {
        ReachOn(tiles, ks, i, a, b);
        var path: seq<nat> :| IsPath(tiles, ks, path) && path[0] == i && path[|path| - 1] == a;
        PathRises(tiles, ks, rank, path);
      }
    }
  }

  lemma AppendLegal(tiles: seq<Tile>, ks: Kids, rank: seq<nat>, i: nat, p: seq<nat>)
    requires |ks| == |tiles| && Distinct(tiles) && i < |tiles| && i !in p
    requires (forall x <- p :: x < |tiles|) && LegalOrder(tiles, ks, TilesAt(tiles, p))
    requires forall a: nat :: Edge(tiles, ks, a, i) ==> a in p
    ensures LegalOrder(tiles, ks, TilesAt(tiles, p) + [tiles[i]])
  {
    var front := TilesAt(tiles, p);
    forall a | 0 <= a < |front|
      ensures front[a] != tiles[i]
    {
      assert p[a] in p;
    }
    DistinctConcat(front, [tiles[i]]);
    forall a | 0 <= a < |tiles| && tiles[i] in ks[a]
      ensures tiles[a] in front
    {
      assert Edge(tiles, ks, a, i);
      var k :| 0 <= k < |p| && p[k] == a;
      assert front[k] == tiles[a];
    }
    PendingZero(tiles, ks, SetOf(front), tiles[i]);
    ParentsFirstAfter(tiles, ks, front, tiles[i]);
  }

  lemma LastIsTwin(tiles: seq<Tile>, ks: Kids, i: nat, c: Tile, p: seq<nat>)
    requires |ks| == |tiles| && i < |tiles| && c in ks[i] && multiset(ks[i])[c] >= 2
    requires !HasLaterParent(tiles, ks, i, c)
    requires forall j: nat :: j in p <==> j < |tiles| && !Reach(tiles, ks, i, j)
    ensures HasTwin(tiles, ks, TilesAt(tiles, p) + [tiles[i]])
  {
    var front := TilesAt(tiles, p);
    var order := front + [tiles[i]];
    forall j | 0 <= j < |tiles| && c in ks[j]
      ensures tiles[j] in SetOf(front) + {tiles[i]}
    {
      if j != i {
        assert !Reach(tiles, ks, i, j);
        var k :| 0 <= k < |p| && p[k] == j;
        assert front[k] == tiles[j];
      }
    }
    PendingZero(tiles, ks, SetOf(front) + {tiles[i]}, c);
    assert order[..|front|] == front;
    assert Twin(tiles, ks, SetOf(front), i, c);
    assert TwinFor(tiles, ks, SetOf(order[..|front|]), i);
  }

  /** Main result: no order of finishing ever queues a tile twice, exactly when every child that a tile lists
      more than once has another parent that descends from that tile. */
  lemma TwinFreeIffCovered(tiles: seq<Tile>, ks: Kids, rank: seq<nat>)
    requires |ks| == |tiles| && Distinct(tiles) && Ranked(tiles, ks, rank)
    ensures Covered(tiles, ks) ==> forall order :: LegalOrder(tiles, ks, order) ==> !HasTwin(tiles, ks, order)
    ensures !Covered(tiles, ks) ==> exists order :: LegalOrder(tiles, ks, order) && HasTwin(tiles, ks, order)
  {
    if Covered(tiles, ks) {
      forall order | LegalOrder(tiles, ks, order)
        ensures !HasTwin(tiles, ks, order)
      {
        forall k: nat, i: nat | k < |order| && i < |tiles| && order[k] == tiles[i]
          ensures !TwinFor(tiles, ks, SetOf(order[..k]), i)
        {
          PrefixParentsFirst(tiles, ks, order, k);
          CoveredHasNoTwin(tiles, ks, order[..k], i);
        }
      }
    } else {
      var i: nat :| i < |tiles| && exists c <- ks[i] :: multiset(ks[i])[c] >= 2 && !HasLaterParent(tiles, ks, i, c);
      var c :| c in ks[i] && multiset(ks[i])[c] >= 2 && !HasLaterParent(tiles, ks, i, c);
      var order := UncoveredOrder(tiles, ks, rank, i, c);
    }
  }

  /** Graphs without double edges are covered. */
  lemma SimpleIsCovered(tiles: seq<Tile>, ks: Kids)
    requires |ks| == |tiles| && forall i :: 0 <= i < |ks| ==> Distinct(ks[i])
    ensures Covered(tiles, ks)
  {
    forall i: nat, c | i < |tiles| && c in ks[i]
      ensures multiset(ks[i])[c] < 2
    {
      OnceEach(ks[i], c);
    }
  }
}
