/** The edges of a parsed graph: each one stays inside the loop nest, and which records have an edge out. */
module TogEdges {
  import opened TogDump
  import opened TogWalk
  import opened TogWiring
  import opened TogOrder

  // ----- edges stay inside the loop nest -----

  /** The edge leads from a loop to its body, to a node of the same body, or to the end of that body. The stale end
      node of an empty loop is a node of the body that the loop stands in. */
  predicate Inside(dump: seq<Rec>, x: Node, y: Node) {
    var loop := if y.Node? then y.parent else y.loop;
    x.parent == loop || (x.Node? && x.id == loop) || (Stale(dump, y) && x.parent == y.parent)
  }

  ghost predicate IsMade(dump: seq<Rec>, x: Node) {
    exists k: nat :: MadeFor(dump, x, k)
  }

  ghost predicate Local(dump: seq<Rec>, e: (int, int)) {
    exists x, y :: LocalPair(dump, x, y, e)
  }

  ghost predicate LocalPair(dump: seq<Rec>, x: Node, y: Node, e: (int, int)) {
    IsMade(dump, x) && IsMade(dump, y) && x.id == e.0 && y.id == e.1 && Inside(dump, x, y)
  }

  ghost predicate AllLocal(dump: seq<Rec>, edges: Edges) {
    forall e {:trigger Local(dump, e)} :: e in edges ==> Local(dump, e)
  }

  lemma SameId(dump: seq<Rec>, x: Node, y: Node)
    requires IsMade(dump, x) && IsMade(dump, y) && x.id == y.id
    ensures x == y
  {
    var k: nat :| MadeFor(dump, x, k);
    var l: nat :| MadeFor(dump, y, l);
    IdsTell(dump, x, k, y, l);
  }

  lemma RecordIsMade(dump: seq<Rec>, j: nat)
    requires j < |dump|
    ensures IsMade(dump, NodeOf(dump, j))
  {
    assert MadeFor(dump, NodeOf(dump, j), j);
  }

  lemma EndIsMade(dump: seq<Rec>, end: Node)
    requires IsLoopEnd(dump, end)
    ensures IsMade(dump, end)
  {
    assert MadeFor(dump, end, end.loop);
  }

  // ----- the run of siblings -----

  /** Records j, ..., i are siblings, one directly after the other. */
  predicate SameRun(dump: seq<Rec>, j: nat, i: nat) {
    j <= i < |dump| && forall k {:trigger dump[k]} :: j < k <= i ==> dump[k].parent == dump[k - 1].parent
  }

  /** Records j + 1, ..., i are loads. */
  predicate LoadsBehind(dump: seq<Rec>, j: nat, i: nat) {
    j <= i < |dump| && forall k {:trigger dump[k]} :: j < k <= i ==> dump[k].kind == Load
  }

  lemma {:induction false} RunHolds(dump: seq<Rec>, i: nat, j: nat)
    requires i < |dump| && j < |dump|
    ensures NodeOf(dump, j) in RunAt(dump, i) <==> SameRun(dump, j, i)
    decreases i
  {
    if i > 0 {
      RunHolds(dump, i - 1, j);
    }
  }

  lemma {:induction false} RunIsMade(dump: seq<Rec>, i: nat, u: Node)
    requires i < |dump| && u in RunAt(dump, i)
    ensures 0 <= u.id <= i && u == NodeOf(dump, u.id) && u.parent == dump[i].parent
    decreases i
  {
    if u != NodeOf(dump, i) {
      RunIsMade(dump, i - 1, u);
    }
  }

  lemma {:induction false} LastRunSubset(prev: seq<Node>, u: Node)
    requires (forall v <- prev :: v.Node?) && u in LastRun(prev)
    ensures u in prev
    decreases |prev|
  {
    if u != prev[|prev| - 1] {
      LastRunSubset(prev[..|prev| - 1], u);
    }
  }

  /** The trailing run holds j when all records behind j are loads. */
  lemma {:induction false} LastRunHolds(dump: seq<Rec>, i: nat, j: nat)
    requires i < |dump| && j < |dump|
    ensures NodeOf(dump, j) in LastRun(RunAt(dump, i)) <==> SameRun(dump, j, i) && LoadsBehind(dump, j, i)
    decreases i
  {
    if i > 0 && dump[i].parent == dump[i - 1].parent {
      LastRunStep(RunAt(dump, i - 1), NodeOf(dump, i), NodeOf(dump, j));
      LastRunHolds(dump, i - 1, j);
    } else {
      LastRunStep([], NodeOf(dump, i), NodeOf(dump, j));
      assert RunAt(dump, i) == [] + [NodeOf(dump, i)];
    }
    TrailingStep(dump, j, i);
  }

  lemma TrailingStep(dump: seq<Rec>, j: nat, i: nat)
    requires i < |dump| && j < |dump|
    ensures SameRun(dump, j, i) && LoadsBehind(dump, j, i)
       <==> j == i || (j < i && dump[i].parent == dump[i - 1].parent && dump[i].kind == Load
                       && SameRun(dump, j, i - 1) && LoadsBehind(dump, j, i - 1))
  {
  }

  lemma LastRunStep(us: seq<Node>, x: Node, u: Node)
    requires x.Node? && forall v <- us :: v.Node?
    ensures u in LastRun(us + [x]) <==> u == x || (x.kind == Load && u in LastRun(us))
  {
    assert (us + [x])[..|us|] == us;
  }

  // ----- the end nodes on the stack -----

  /** The loop whose body continues after record i; 0 outside all loops. */
  function OpenAfter(dump: seq<Rec>, i: nat): int
    requires i < |dump|
  {
    if dump[i].kind == Loop || i == 0 then i else dump[i].parent
  }

  /** End nodes, from the top: of loop `open` and of the loops around it, with stale ones of each body before. */
  ghost predicate Nested(dump: seq<Rec>, ends: seq<Node>, open: int) {
    if |ends| == 0 then open == 0
    else
      var top, front := ends[|ends| - 1], ends[..|ends| - 1];
      && IsLoopEnd(dump, top)
      && if top.loop == open then Nested(dump, front, top.parent)
         else Stale(dump, top) && top.parent == open && Nested(dump, front, open)
  }

  lemma {:induction false} FitsNests(dump: seq<Rec>, ends: seq<Node>, c: seq<int>)
    requires Fits(dump, ends, c) && |c| > 0 && c[0] == 0
    ensures Nested(dump, ends, c[|c| - 1])
    decreases |ends|
  {
    if |ends| > 0 {
      var top, front := ends[|ends| - 1], ends[..|ends| - 1];
      FitsNests(dump, front, if top.loop == c[|c| - 1] then c[..|c| - 1] else c);
    }
  }

  /** The stack after record i, for every dump. */
  lemma {:induction false} StackNests(dump: seq<Rec>, i: nat)
    requires PreorderDump(dump) && i < |dump|
    ensures StackAfter(dump, i).Ends? && Nested(dump, StackAfter(dump, i).ends, OpenAfter(dump, i))
    ensures var ends := StackAfter(dump, i).ends;
            i > 0 && dump[i].kind == Loop ==> |ends| > 0 && ends[|ends| - 1] == EndOf(dump, i)
  {
    StackFits(dump, i);
    ChainHasShape(dump, i);
    FitsNests(dump, StackAfter(dump, i).ends, Chain(dump, i));
    if i > 0 && dump[i].kind == Loop {
      TopAfterLoop(dump, i);
    }
  }

  // ----- every edge is local -----

  lemma LocalEdge(dump: seq<Rec>, x: Node, y: Node)
    requires IsMade(dump, x) && IsMade(dump, y) && Inside(dump, x, y)
    ensures Local(dump, (x.id, y.id))
  {
    assert LocalPair(dump, x, y, (x.id, y.id));
  }

  lemma {:induction false} PoppedLocal(dump: seq<Rec>, ends: seq<Node>, open: int, x: Node)
    requires Nested(dump, ends, open) && PopTo(ends, x.parent).Ends? && x.Node? && IsMade(dump, x)
    ensures AllLocal(dump, ChainEdges(PoppedEnds(ends, x.parent), x.id))
    decreases |ends|
  {
    var top, front := ends[|ends| - 1], ends[..|ends| - 1];
    PopStep(ends, x.parent);
    EndIsMade(dump, top);
    if top.parent == x.parent {
      LocalEdge(dump, top, x);
    } else {
      PoppedLocal(dump, front, top.parent, x);
      ChainStep(top, PoppedEnds(front, x.parent), x.id);
      EndIsMade(dump, front[|front| - 1]);
      LocalEdge(dump, top, front[|front| - 1]);
    }
  }

  lemma {:induction false} LinkedLocal(dump: seq<Rec>, ends: seq<Node>, open: int, first: Node)
    requires Nested(dump, ends, open) && IsMade(dump, first)
    requires first.parent == open || (first.Node? && first.id == open)
    requires first.parent != open && |ends| > 0 ==> ends[|ends| - 1].End? && ends[|ends| - 1].loop == open
    ensures AllLocal(dump, LinkedBehind(first, Remaining(ends)))
    decreases |ends|
  {
    if |ends| > 0 {
      var top, front := ends[|ends| - 1], ends[..|ends| - 1];
      EndIsMade(dump, top);
      LinkedLocal(dump, front, top.parent, top);
      LinkedStep(first, top, Remaining(front));
      LocalEdge(dump, first, top);
    }
  }

  /** The trailing run leads to the end node of the open loop, or to a stale one of its body. */
  lemma RunLocal(dump: seq<Rec>, i: nat, end: Node)
    requires 0 < i < |dump| && end.End? && IsMade(dump, end)
    requires end.loop == OpenAfter(dump, i) || (Stale(dump, end) && end.parent == OpenAfter(dump, i))
    requires dump[i].kind == Loop ==> end.loop == i
    ensures AllLocal(dump, FanIn(LastRun(RunAt(dump, i)), end.id))
  {
    forall u <- LastRun(RunAt(dump, i))
      ensures Local(dump, (u.id, end.id))
    {
      LastRunSubset(RunAt(dump, i), u);
      RunIsMade(dump, i, u);
      RecordIsMade(dump, u.id);
      LastRunHolds(dump, i, u.id);
      LocalEdge(dump, u, end);
    }
  }

  lemma ClosingLocal(dump: seq<Rec>, i: nat, before: Edges, after: Edges)
    requires PreorderDump(dump) && 1 <= i < |dump| && Closes(dump, i)
    requires StackAfter(dump, i - 1).Ends? && StackAfter(dump, i).Ends?
    requires AllLocal(dump, before) && EdgesStep(dump, i, before, after)
    ensures AllLocal(dump, after)
  {
    StackNests(dump, i - 1);
    var ends, x := StackAfter(dump, i - 1).ends, NodeOf(dump, i);
    RecordIsMade(dump, i);
    PoppedLocal(dump, ends, OpenAfter(dump, i - 1), x);
    EndIsMade(dump, ends[|ends| - 1]);
    RunLocal(dump, i - 1, ends[|ends| - 1]);
  }

  lemma SiblingLocal(dump: seq<Rec>, i: nat, before: Edges, after: Edges)
    requires 1 <= i < |dump| && dump[i].parent == dump[i - 1].parent
    requires AllLocal(dump, before) && SiblingEdges(RunAt(dump, i - 1), NodeOf(dump, i), before, after)
    ensures AllLocal(dump, after)
  {
    var prev, x, last := RunAt(dump, i - 1), NodeOf(dump, i), NodeOf(dump, i - 1);
    RecordIsMade(dump, i);
    RecordIsMade(dump, i - 1);
    forall e | e in after && e !in before
      ensures Local(dump, e)
    {
      if last.kind == x.kind && (x.kind == Load || x.kind == Wait) {
        assert Local(dump, (e.0, last.id));
        var u, v :| LocalPair(dump, u, v, (e.0, last.id));
        SameId(dump, v, last);
        LocalEdge(dump, u, x);
      } else if e.0 == last.id {
        LocalEdge(dump, last, x);
      } else {
        var u :| u in prev && u.id == e.0;
        RunIsMade(dump, i - 1, u);
        RecordIsMade(dump, u.id);
        LocalEdge(dump, u, x);
      }
    }
  }

  lemma StepLocal(dump: seq<Rec>, i: nat, before: Edges, after: Edges)
    requires PreorderDump(dump) && 1 <= i < |dump|
    requires StackAfter(dump, i - 1).Ends? && StackAfter(dump, i).Ends?
    requires AllLocal(dump, before) && EdgesStep(dump, i, before, after)
    ensures AllLocal(dump, after)
  {
    if dump[i].parent == dump[i - 1].parent {
      SiblingLocal(dump, i, before, after);
    } else if dump[i].parent == i - 1 {
      RecordIsMade(dump, i);
      RecordIsMade(dump, i - 1);
      LocalEdge(dump, NodeOf(dump, i - 1), NodeOf(dump, i));
    } else {
      ClosingLocal(dump, i, before, after);
    }
  }

  lemma {:induction false} EdgesLocal(dump: seq<Rec>, i: nat, edges: Edges)
    requires PreorderDump(dump) && i < |dump|
    requires StackAfter(dump, i).Ends? && EdgesAfter(dump, i, edges)
    ensures AllLocal(dump, edges)
    decreases i
  {
    if i > 0 {
      var before := EdgesBefore(dump, i, edges);
      EdgesLocal(dump, i - 1, before);
      StepLocal(dump, i, before, edges);
    }
  }

  lemma {:induction false} AllEdgesLocal(dump: seq<Rec>, edges: Edges)
    requires PreorderDump(dump) && AllEdges(dump, edges)
    ensures AllLocal(dump, edges)
  {
    var n := |dump| - 1;
    var before := EdgesBefore(dump, n + 1, edges);
    EdgesLocal(dump, n, before);
    StackNests(dump, n);
    RecordIsMade(dump, n);
    LinkedLocal(dump, StackAfter(dump, n).ends, OpenAfter(dump, n), NodeOf(dump, n));
  }

  // ----- edges out of a record -----

  ghost predicate HasOut(edges: Edges, id: int) {
    exists e <- edges :: e.0 == id
  }

  predicate IsTransfer(kind: Kind) {
    kind == Load || kind == Wait
  }

  /** Whether record k takes an edge out of record j, as the run of siblings before k decides. */
  predicate Feeds(dump: seq<Rec>, j: nat, k: nat)
    requires j < k < |dump|
  {
    var last, x := dump[k - 1], dump[k];
    if x.parent == last.parent then
      if IsTransfer(x.kind) && x.kind == last.kind then false
      else if IsTransfer(last.kind) && x.kind == Compute then SameRun(dump, j, k - 1) && IsTransfer(dump[j].kind)
      else j == k - 1
    else if x.parent == k - 1 then j == k - 1
    else SameRun(dump, j, k - 1) && LoadsBehind(dump, j, k - 1)
  }

  /** Some record up to record i takes an edge out of record j. */
  predicate Fed(dump: seq<Rec>, j: nat, i: nat)
    requires i < |dump|
  {
    exists k {:trigger Feeds(dump, j, k)} :: j < k <= i && Feeds(dump, j, k)
  }

  lemma FedStep(dump: seq<Rec>, j: nat, i: nat)
    requires 1 <= i < |dump|
    ensures Fed(dump, j, i) <==> Fed(dump, j, i - 1) || (j < i && Feeds(dump, j, i))
  {
  }

  /** Later records follow, but none of them takes an edge out of record j. */
  predicate Stranded(dump: seq<Rec>, j: nat)
    requires j < |dump|
  {
    j + 1 < |dump| && !Fed(dump, j, |dump| - 1)
  }

  /** The end nodes have ids above those of the records. */
  predicate EndIds(dump: seq<Rec>, ends: seq<Node>) {
    forall x <- ends :: x.End? && x.id > |dump|
  }

  lemma {:induction false} NestedEndIds(dump: seq<Rec>, ends: seq<Node>, open: int)
    requires Nested(dump, ends, open)
    ensures EndIds(dump, ends)
    decreases |ends|
  {
    if |ends| > 0 {
      var top := ends[|ends| - 1];
      NestedEndIds(dump, ends[..|ends| - 1], top.parent);
      assert ends == ends[..|ends| - 1] + [top];
    }
  }

  lemma {:induction false} PoppedAreEnds(ends: seq<Node>, p: int)
    ensures forall x <- PoppedEnds(ends, p) :: x in ends
    ensures PopTo(ends, p).Ends? ==> |PoppedEnds(ends, p)| > 0
    decreases |ends|
  {
    if |ends| > 0 && ends[|ends| - 1].parent != p {
      PoppedAreEnds(ends[..|ends| - 1], p);
    }
  }

  /** The sources of a chain of edges are its nodes. */
  lemma {:induction false} ChainSources(ends: seq<Node>, next: int, id: int)
    ensures HasOut(ChainEdges(ends, next), id) <==> exists x <- ends :: x.id == id
    decreases |ends|
  {
    if |ends| > 0 {
      ChainSources(ends[1..], next, id);
      var e := (ends[0].id, if |ends| == 1 then next else ends[1].id);
      assert e in ChainEdges(ends, next);
      assert ends == [ends[0]] + ends[1..];
    }
  }

  lemma HasOutUnion(a: Edges, b: Edges, id: int)
    ensures HasOut(a + b, id) <==> HasOut(a, id) || HasOut(b, id)
  {
    if HasOut(a, id) {
      var e :| e in a && e.0 == id;
      assert e in a + b;
    }
    if HasOut(b, id) {
      var e :| e in b && e.0 == id;
      assert e in a + b;
    }
  }

  lemma HasOutUnions(a: Edges, b: Edges, c: Edges, id: int)
    ensures HasOut(a + b + c, id) <==> HasOut(a, id) || HasOut(b, id) || HasOut(c, id)
  {
    HasOutUnion(a + b, c, id);
    HasOutUnion(a, b, id);
  }

  lemma HasOutOne(u: int, v: int, id: int)
    ensures HasOut({(u, v)}, id) <==> u == id
  {
    assert (u, v) in {(u, v)};
  }

  /** A run feeds one node from record j exactly when it holds record j. */
  lemma FanInSource(dump: seq<Rec>, us: seq<Node>, i: nat, j: nat, id: int)
    requires i < |dump| && j < |dump| && forall u <- us :: u in RunAt(dump, i)
    ensures HasOut(FanIn(us, id), j) <==> NodeOf(dump, j) in us
  {
    if NodeOf(dump, j) in us {
      assert (j, id) in FanIn(us, id);
    }
    forall u <- us
      ensures u.id == j ==> u == NodeOf(dump, j)
    {
      RunIsMade(dump, i, u);
    }
  }

  lemma TransferSource(dump: seq<Rec>, i: nat, j: nat, id: int)
    requires i < |dump| && j < |dump|
    ensures HasOut(Transfers(RunAt(dump, i), id), j) <==> NodeOf(dump, j) in RunAt(dump, i) && IsTransfer(dump[j].kind)
  {
    var us := RunAt(dump, i);
    if NodeOf(dump, j) in us && IsTransfer(dump[j].kind) {
      assert (j, id) in Transfers(us, id);
    }
    forall u <- us
      ensures u.id == j ==> u == NodeOf(dump, j)
    {
      RunIsMade(dump, i, u);
    }
  }

  lemma RunFeeds(dump: seq<Rec>, i: nat, j: nat, id: int)
    requires i < |dump| && j < |dump|
    ensures HasOut(FanIn(LastRun(RunAt(dump, i)), id), j) <==> SameRun(dump, j, i) && LoadsBehind(dump, j, i)
  {
    var us := LastRun(RunAt(dump, i));
    forall u <- us
      ensures u in RunAt(dump, i)
    {
      LastRunSubset(RunAt(dump, i), u);
    }
    FanInSource(dump, us, i, j, id);
    LastRunHolds(dump, i, j);
  }

  lemma PoppedFeedNone(dump: seq<Rec>, ends: seq<Node>, p: int, next: int, j: nat)
    requires EndIds(dump, ends) && j < |dump|
    ensures !HasOut(ChainEdges(PoppedEnds(ends, p), next), j)
  {
    PoppedAreEnds(ends, p);
    ChainSources(PoppedEnds(ends, p), next, j);
  }

  lemma ClosingFeeds(dump: seq<Rec>, i: nat, j: nat, before: Edges, after: Edges)
    requires 1 <= i < |dump| && j < |dump| && Closes(dump, i)
    requires StackAfter(dump, i - 1).Ends? && EndIds(dump, StackAfter(dump, i - 1).ends)
    requires EdgesStep(dump, i, before, after)
    ensures HasOut(after, j) <==> HasOut(before, j) || (j < i && Feeds(dump, j, i))
  {
    var ends, p := StackAfter(dump, i - 1).ends, dump[i].parent;
    FanFeeds(dump, i, j, before, ends, p, PoppedEnds(ends, p)[0].id, after);
  }

  lemma FanFeeds(dump: seq<Rec>, i: nat, j: nat, before: Edges, ends: seq<Node>, p: int, id: int, after: Edges)
    requires 1 <= i < |dump| && j < |dump| && Closes(dump, i) && EndIds(dump, ends)
    requires after == before + FanIn(LastRun(RunAt(dump, i - 1)), id) + ChainEdges(PoppedEnds(ends, p), i)
    ensures HasOut(after, j) <==> HasOut(before, j) || (j < i && Feeds(dump, j, i))
  {
    RunFeeds(dump, i - 1, j, id);
    PoppedFeedNone(dump, ends, p, i, j);
    HasOutUnions(before, FanIn(LastRun(RunAt(dump, i - 1)), id), ChainEdges(PoppedEnds(ends, p), i), j);
  }

  lemma SiblingFeeds(dump: seq<Rec>, i: nat, j: nat, before: Edges, after: Edges)
    requires 1 <= i < |dump| && j < |dump| && dump[i].parent == dump[i - 1].parent
    requires SiblingEdges(RunAt(dump, i - 1), NodeOf(dump, i), before, after)
    ensures HasOut(after, j) <==> HasOut(before, j) || (j < i && Feeds(dump, j, i))
  {
    var last, x := NodeOf(dump, i - 1), NodeOf(dump, i);
    if last.kind == x.kind && IsTransfer(x.kind) {
      var p :| (p, last.id) in before && after == before + {(p, x.id)};
      HasOutUnion(before, {(p, x.id)}, j);
      HasOutOne(p, x.id, j);
    } else if IsTransfer(last.kind) && x.kind == Compute {
      RunHolds(dump, i - 1, j);
      TransferSource(dump, i - 1, j, i);
      HasOutUnion(before, Transfers(RunAt(dump, i - 1), i), j);
    } else {
      HasOutUnion(before, {(i - 1, i)}, j);
      HasOutOne(i - 1, i, j);
    }
  }

  /** What record i does to the edges out of the records before it. */
  lemma StepFeeds(dump: seq<Rec>, i: nat, j: nat, before: Edges, after: Edges)
    requires 1 <= i < |dump| && j < |dump|
    requires StackAfter(dump, i - 1).Ends? && EndIds(dump, StackAfter(dump, i - 1).ends)
    requires EdgesStep(dump, i, before, after)
    ensures HasOut(after, j) <==> HasOut(before, j) || (j < i && Feeds(dump, j, i))
  {
    if dump[i].parent == dump[i - 1].parent {
      SiblingFeeds(dump, i, j, before, after);
    } else if dump[i].parent == i - 1 {
      HasOutUnion(before, {(i - 1, i)}, j);
      HasOutOne(i - 1, i, j);
    } else {
      ClosingFeeds(dump, i, j, before, after);
    }
  }

  lemma {:induction false} StackEndIds(dump: seq<Rec>, i: nat)
    requires PreorderDump(dump) && i < |dump|
    ensures StackAfter(dump, i).Ends? && EndIds(dump, StackAfter(dump, i).ends)
  {
    StackNests(dump, i);
    NestedEndIds(dump, StackAfter(dump, i).ends, OpenAfter(dump, i));
  }

  lemma {:induction false} OutIff(dump: seq<Rec>, i: nat, j: nat, edges: Edges)
    requires PreorderDump(dump) && i < |dump| && j < |dump|
    requires StackAfter(dump, i).Ends? && EdgesAfter(dump, i, edges)
    ensures HasOut(edges, j) <==> Fed(dump, j, i)
    decreases i
  {
    if i > 0 {
      var before := EdgesBefore(dump, i, edges);
      OutIff(dump, i - 1, j, before);
      StackEndIds(dump, i - 1);
      StepFeeds(dump, i, j, before, edges);
      FedStep(dump, j, i);
    }
  }

  /** The sources of a linked list of nodes are all nodes but the last one. */
  lemma {:induction false} LinkedSources(first: Node, rest: seq<Node>, id: int)
    ensures HasOut(LinkedBehind(first, rest), id) <==> exists k :: 0 <= k < |rest| && ([first] + rest)[k].id == id
    decreases |rest|
  {
    if |rest| > 0 {
      LinkedSources(rest[0], rest[1..], id);
      HasOutOne(first.id, rest[0].id, id);
      HasOutUnion({(first.id, rest[0].id)}, LinkedBehind(rest[0], rest[1..]), id);
      var tail := [rest[0]] + rest[1..];
      assert tail == rest;
      forall k | 0 <= k < |rest| - 1
        ensures tail[k] == ([first] + rest)[k + 1]
      {
      }
      assert ([first] + rest)[0] == first;
    }
  }

  lemma {:induction false} RemainingAt(ends: seq<Node>, k: nat)
    requires k < |ends|
    ensures Remaining(ends)[k] == ends[|ends| - 1 - k]
    decreases |ends|
  {
    if k > 0 {
      RemainingAt(ends[..|ends| - 1], k - 1);
    }
  }

  lemma {:induction false} OutermostEnd(dump: seq<Rec>, ends: seq<Node>, open: int)
    requires Nested(dump, ends, open) && |ends| > 0
    ensures ends[0].parent == 0
    decreases |ends|
  {
    if |ends| > 1 {
      OutermostEnd(dump, ends[..|ends| - 1], ends[|ends| - 1].parent);
    }
  }

  lemma RemainingEndIds(dump: seq<Rec>, ends: seq<Node>)
    requires EndIds(dump, ends)
    ensures EndIds(dump, Remaining(ends))
  {
    forall x <- Remaining(ends)
      ensures x in ends
    {
      var k :| 0 <= k < |Remaining(ends)| && Remaining(ends)[k] == x;
      RemainingAt(ends, k);
    }
  }

  /** Linking end nodes behind a record gives an edge out of that record only. */
  lemma RestOut(dump: seq<Rec>, rest: seq<Node>, first: Node, j: nat)
    requires EndIds(dump, rest) && j < |dump|
    ensures HasOut(LinkedBehind(first, rest), j) <==> |rest| > 0 && first.id == j
  {
    LinkedSources(first, rest, j);
    forall k | 0 < k < |rest|
      ensures ([first] + rest)[k].id != j
    {
      assert rest[k - 1] in rest;
    }
    assert ([first] + rest)[0] == first;
  }

  lemma LastFed(dump: seq<Rec>, j: nat)
    requires j + 1 == |dump|
    ensures !Fed(dump, j, |dump| - 1)
  {
  }

  /** Main step: inside a loop a record has an edge out exactly when it is not stranded. */
  lemma {:induction false} RecordOut(dump: seq<Rec>, j: nat, edges: Edges)
    requires PreorderDump(dump) && 1 <= j < |dump| && dump[j].parent >= 1
    requires AllEdges(dump, edges)
    ensures HasOut(edges, j) <==> !Stranded(dump, j)
  {
    var n := |dump| - 1;
    var before := EdgesBefore(dump, n + 1, edges);
    var ends, last := StackAfter(dump, n).ends, NodeOf(dump, n);
    OutIff(dump, n, j, before);
    StackNests(dump, n);
    StackEndIds(dump, n);
    RemainingEndIds(dump, ends);
    RestOut(dump, Remaining(ends), last, j);
    HasOutUnion(before, LinkedBehind(last, Remaining(ends)), j);
    assert j == n ==> |ends| > 0;
    if j == n {
      LastFed(dump, j);
    }
  }

  /** An emitted end node has an edge out. */
  lemma {:induction false} EmittedEndOut(dump: seq<Rec>, i: nat, edges: Edges, x: Node)
    requires i < |dump| && StackAfter(dump, i).Ends? && EdgesAfter(dump, i, edges)
    requires x in Emitted(dump, i) && x.End?
    ensures HasOut(edges, x.id)
    decreases i
  {
    if i > 0 {
      var before := EdgesBefore(dump, i, edges);
      assert before <= edges;
      if x in Emitted(dump, i - 1) {
        EmittedEndOut(dump, i - 1, before, x);
        var e :| e in before && e.0 == x.id;
        assert e in edges;
      } else {
        var popped := PoppedEnds(StackAfter(dump, i - 1).ends, dump[i].parent);
        assert x in popped;
        ChainSources(popped, i, x.id);
        HasOutUnion(edges, ChainEdges(popped, i), x.id);
        assert edges + ChainEdges(popped, i) == edges;
      }
    }
  }

  /** Inside a loop every end node has an edge out. */
  lemma {:induction false} EndOut(dump: seq<Rec>, edges: Edges, x: Node)
    requires PreorderDump(dump) && AllEdges(dump, edges)
    requires x in AllEmitted(dump) && x.End? && x.parent >= 1
    ensures HasOut(edges, x.id)
  {
    var n := |dump| - 1;
    var before := EdgesBefore(dump, n + 1, edges);
    var ends := StackAfter(dump, n).ends;
    var last, rest := NodeOf(dump, n), Remaining(ends);
    HasOutUnion(before, LinkedBehind(last, rest), x.id);
    if x in Emitted(dump, n) {
      EmittedEndOut(dump, n, before, x);
    } else {
      var k :| 0 <= k < |rest| && rest[k] == x;
      StackNests(dump, n);
      OutermostEnd(dump, ends, OpenAfter(dump, n));
      RemainingAt(ends, k);
      assert k + 1 < |rest| && ([last] + rest)[k + 1].id == x.id;
      LinkedSources(last, rest, x.id);
    }
  }
}
