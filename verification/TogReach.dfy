/** Which nodes of a parsed graph lead to the end node of their loop: all of them, exactly when every record inside
    a loop has an edge out. */
module TogReach {
  import opened TogDump
  import opened TogWalk
  import opened TogWiring
  import opened TogOrder
  import opened TogEdges

  // ----- leading to the end of the loop -----

  ghost predicate LeadsTo(edges: Edges, u: int, v: int) {
    exists path: seq<int> :: IsPath(edges, path) && path[0] == u && path[|path| - 1] == v
  }

  lemma PathSteps(edges: Edges, p: seq<int>, q: seq<int>)
    requires IsPath(edges, p) && IsPath(edges, q) && p[|p| - 1] == q[0]
    ensures IsPath(edges, p + q[1..])
  {
    var path := p + q[1..];
    forall k | 0 < k < |path|
      ensures (path[k - 1], path[k]) in edges
    {
      if k < |p| {
        assert p[k] == path[k];
      } else {
        assert q[k - |p| + 1] == path[k];
        assert path[k - 1] == q[k - |p|];
      }
    }
  }

  lemma LeadsOn(edges: Edges, u: int, v: int, w: int)
    requires LeadsTo(edges, u, v) && LeadsTo(edges, v, w)
    ensures LeadsTo(edges, u, w)
  {
    var p: seq<int> :| IsPath(edges, p) && p[0] == u && p[|p| - 1] == v;
    var q: seq<int> :| IsPath(edges, q) && q[0] == v && q[|q| - 1] == w;
    PathSteps(edges, p, q);
    var path := p + q[1..];
    assert path[0] == u && path[|path| - 1] == w;
  }

  lemma EdgeLeads(edges: Edges, u: int, v: int)
    requires (u, v) in edges
    ensures LeadsTo(edges, u, v)
  {
    var path := [u, v];
    assert IsPath(edges, path);
  }

  /** The graph that parsing builds, with what is known about all of its edges. */
  ghost predicate Parsed(dump: seq<Rec>, nodes: seq<Node>, edges: Edges) {
    && PreorderDump(dump) && Wired(nodes, edges) && DistinctIds(nodes) && AllLocal(dump, edges)
    && forall x {:trigger IsMade(dump, x)} :: x in nodes ==> IsMade(dump, x)
  }

  /** Node x leads to the end node of the loop around it. */
  ghost predicate Finishes(dump: seq<Rec>, edges: Edges, x: Node) {
    1 <= x.parent ==> x.parent < |dump| && LeadsTo(edges, x.id, EndOf(dump, x.parent).id)
  }

  /** Every node inside a loop has an edge out. */
  ghost predicate Continues(nodes: seq<Node>, edges: Edges) {
    forall x {:trigger HasOut(edges, x.id)} :: x in nodes && 1 <= x.parent ==> HasOut(edges, x.id)
  }

  lemma {:induction false} ParentIsLoop(dump: seq<Rec>, j: nat)
    requires PreorderDump(dump) && 1 <= j < |dump| && dump[j].parent >= 1
    ensures dump[j].parent < |dump| && dump[dump[j].parent].kind == Loop
  {
    var c := Chain(dump, j - 1);
    ChainHasShape(dump, j - 1);
    assert ParentOpen(dump, j);
    var k :| 0 <= k < |c| && c[k] == dump[j].parent;
    assert dump[c[k]].kind == Loop;
  }

  /** Where an edge leads: to a later node of the list. */
  lemma EdgeAhead(dump: seq<Rec>, nodes: seq<Node>, edges: Edges, a: nat, w: int) returns (b: nat)
    requires Parsed(dump, nodes, edges) && a < |nodes| && (nodes[a].id, w) in edges
    ensures a < b < |nodes| && nodes[b].id == w && Inside(dump, nodes[a], nodes[b])
  {
    var e := (nodes[a].id, w);
    assert Forward(nodes, e);
    var c, d :| 0 <= c < d < |nodes| && nodes[c].id == e.0 && nodes[d].id == e.1;
    assert c == a;
    assert Local(dump, e);
    var x, y :| LocalPair(dump, x, y, e);
    SameId(dump, x, nodes[a]);
    SameId(dump, y, nodes[d]);
    b := d;
  }

  /** A node reached over a path stands later in the list. */
  lemma PathAhead(nodes: seq<Node>, edges: Edges, a: nat, v: int) returns (b: nat)
    requires Wired(nodes, edges) && DistinctIds(nodes) && a < |nodes| && v != nodes[a].id
    requires LeadsTo(edges, nodes[a].id, v)
    ensures a < b < |nodes| && nodes[b].id == v
  {
    var path: seq<int> :| IsPath(edges, path) && path[0] == nodes[a].id && path[|path| - 1] == v;
    PathAdvances(nodes, edges, path);
    var c, d :| 0 <= c < d < |nodes| && nodes[c].id == path[0] && nodes[d].id == path[|path| - 1];
    assert c == a;
    b := d;
  }

  lemma EndNode(dump: seq<Rec>, y: Node)
    requires y.End? && IsMade(dump, y)
    ensures 1 <= y.loop < |dump| && y == EndOf(dump, y.loop) && y.parent == dump[y.loop].parent && y.id > |dump|
  {
    var k: nat :| MadeFor(dump, y, k);
  }

  lemma RecordNode(dump: seq<Rec>, x: Node)
    requires x.Node? && IsMade(dump, x)
    ensures 0 <= x.id < |dump| && x == NodeOf(dump, x.id)
  {
    var k: nat :| MadeFor(dump, x, k);
  }

  /** The edge from x enters the body of loop x, whose nodes lead to its end node. */
  lemma ThroughBody(dump: seq<Rec>, nodes: seq<Node>, edges: Edges, a: nat, b: nat) returns (c: nat)
    requires Parsed(dump, nodes, edges) && a < b < |nodes| && nodes[a].Node? && nodes[b].Node?
    requires nodes[b].parent == nodes[a].id >= 1 && Finishes(dump, edges, nodes[b])
    ensures b < c < |nodes| && nodes[c].parent == nodes[a].parent && LeadsTo(edges, nodes[b].id, nodes[c].id)
  {
    RecordNode(dump, nodes[a]);
    RecordNode(dump, nodes[b]);
    ParentIsLoop(dump, nodes[b].id);
    var id := nodes[a].id;
    var end := EndOf(dump, id);
    c := PathAhead(nodes, edges, b, end.id);
    if nodes[c].Node? {
      RecordNode(dump, nodes[c]);
    }
    EndNode(dump, nodes[c]);
    SameLoop(dump, nodes[c], id);
  }

  lemma {:induction false} SameLoop(dump: seq<Rec>, y: Node, i: nat)
    requires y.End? && IsMade(dump, y) && 1 <= i < |dump| && dump[i].kind == Loop && y.id == EndOf(dump, i).id
    ensures y == EndOf(dump, i)
  {
    var k: nat :| MadeFor(dump, y, k);
    assert MadeFor(dump, EndOf(dump, i), i);
    IdsTell(dump, y, k, EndOf(dump, i), i);
  }

  /** Following edges from a node inside a loop ends at the end node of that loop. */
  lemma {:induction false} BodyFinishes(dump: seq<Rec>, nodes: seq<Node>, edges: Edges, a: nat)
    requires Parsed(dump, nodes, edges) && Continues(nodes, edges) && a < |nodes|
    ensures Finishes(dump, edges, nodes[a])
    decreases |nodes| - a
  {
    var x := nodes[a];
    if x.parent >= 1 {
      assert HasOut(edges, x.id);
      var e :| e in edges && e.0 == x.id;
      var b := EdgeAhead(dump, nodes, edges, a, e.1);
      EdgeLeads(edges, x.id, nodes[b].id);
      BodyFinishes(dump, nodes, edges, b);
      var y := nodes[b];
      if y.End? && y.loop == x.parent {
        EndNode(dump, y);
      } else if y.parent != x.parent {
        if y.End? {
          EndNode(dump, y);
          RecordNode(dump, x);
        } else {
          RecordNode(dump, x);
          var c := ThroughBody(dump, nodes, edges, a, b);
          BodyFinishes(dump, nodes, edges, c);
          LeadsOn(edges, x.id, y.id, nodes[c].id);
          LeadsOn(edges, x.id, nodes[c].id, EndOf(dump, x.parent).id);
        }
      } else {
        LeadsOn(edges, x.id, y.id, EndOf(dump, x.parent).id);
      }
    }
  }

  // ----- main result -----

  lemma {:induction false} HoldsRecord(dump: seq<Rec>, i: nat, j: nat)
    requires j <= i < |dump|
    ensures NodeOf(dump, j) in Made(dump, i)
    decreases i
  {
    if j < i {
      HoldsRecord(dump, i - 1, j);
    } else {
      assert NodeOf(dump, i) in MadeAt(dump, i);
    }
  }

  lemma HoldsMade(dump: seq<Rec>, n: nat, nodes: seq<Node>)
    requires n < |dump| && multiset(nodes) == Made(dump, n)
    ensures forall x {:trigger IsMade(dump, x)} :: x in nodes ==> IsMade(dump, x)
    ensures forall j :: 0 <= j <= n ==> NodeOf(dump, j) in nodes
  {
    forall x <- nodes
      ensures IsMade(dump, x)
    {
      assert x in multiset(nodes);
      MadeHasSource(dump, n, x);
    }
    forall j: nat | j <= n
      ensures NodeOf(dump, j) in nodes
    {
      HoldsRecord(dump, n, j);
      assert NodeOf(dump, j) in multiset(nodes);
    }
  }

  /** No record inside a loop is stranded. */
  predicate NoneStranded(dump: seq<Rec>) {
    forall j: nat {:trigger Stranded(dump, j)} :: j < |dump| && dump[j].parent >= 1 ==> !Stranded(dump, j)
  }

  ghost predicate AllFinish(dump: seq<Rec>, nodes: seq<Node>, edges: Edges) {
    forall x {:trigger Finishes(dump, edges, x)} :: x in nodes ==> Finishes(dump, edges, x)
  }

  /** A record that leads to the end node of its loop has an edge out. */
  lemma FinishesHasOut(dump: seq<Rec>, edges: Edges, j: nat)
    requires j < |dump| && dump[j].parent >= 1 && Finishes(dump, edges, NodeOf(dump, j))
    ensures HasOut(edges, j)
  {
    var path: seq<int> :| IsPath(edges, path) && path[0] == j && path[|path| - 1] == EndOf(dump, dump[j].parent).id;
    assert |path| > 1 && path[1] == path[1];
    assert (j, path[1]) in edges;
  }

  /** What the list of all made nodes holds. */
  ghost predicate Complete(dump: seq<Rec>, nodes: seq<Node>) {
    && DistinctIds(nodes)
    && (forall x {:trigger IsMade(dump, x)} :: x in nodes ==> IsMade(dump, x))
    && forall j: nat {:trigger NodeOf(dump, j)} :: j < |dump| ==> NodeOf(dump, j) in nodes
  }

  lemma {:induction false} MadeIsComplete(dump: seq<Rec>, n: nat, nodes: seq<Node>)
    requires n + 1 == |dump| && multiset(nodes) == Made(dump, n)
    ensures Complete(dump, nodes)
  {
    MadeIdsDistinct(dump, n, nodes);
    HoldsMade(dump, n, nodes);
  }

  lemma {:induction false} MadeEndOut(dump: seq<Rec>, edges: Edges, x: Node)
    requires PreorderDump(dump) && AllEdges(dump, edges)
    requires x in Made(dump, |dump| - 1) && x.End? && x.parent >= 1
    ensures HasOut(edges, x.id)
  {
    AllEmittedIsMade(dump, AllEmitted(dump));
    assert x in multiset(AllEmitted(dump));
    EndOut(dump, edges, x);
  }

  /** If no record inside a loop is stranded, every node inside a loop has an edge out. */
  lemma {:induction false} AllContinue(dump: seq<Rec>, nodes: seq<Node>, edges: Edges)
    requires PreorderDump(dump)
    requires AllEdges(dump, edges) && multiset(nodes) == Made(dump, |dump| - 1) && NoneStranded(dump)
    ensures Continues(nodes, edges)
  {
    forall x <- nodes | 1 <= x.parent
      ensures HasOut(edges, x.id)
    {
      assert x in multiset(nodes);
      NodeContinues(dump, edges, x);
    }
  }

  lemma {:induction false} NodeContinues(dump: seq<Rec>, edges: Edges, x: Node)
    requires PreorderDump(dump) && AllEdges(dump, edges) && NoneStranded(dump)
    requires x in Made(dump, |dump| - 1) && x.parent >= 1
    ensures HasOut(edges, x.id)
  {
    MadeHasSource(dump, |dump| - 1, x);
    if x.End? {
      MadeEndOut(dump, edges, x);
    } else {
      RecordNode(dump, x);
      RecordOut(dump, x.id, edges);
    }
  }

  lemma {:induction false} ContinuedFinish(dump: seq<Rec>, n: nat, nodes: seq<Node>, edges: Edges)
    requires PreorderDump(dump) && n + 1 == |dump| && multiset(nodes) == Made(dump, n)
    requires Wired(nodes, edges) && AllLocal(dump, edges) && Continues(nodes, edges)
    ensures AllFinish(dump, nodes, edges)
  {
    MadeIsComplete(dump, n, nodes);
    forall x <- nodes
      ensures Finishes(dump, edges, x)
    {
      var a :| 0 <= a < |nodes| && nodes[a] == x;
      BodyFinishes(dump, nodes, edges, a);
    }
  }

  lemma {:induction false} BodiesFinish(dump: seq<Rec>, nodes: seq<Node>, edges: Edges)
    requires PreorderDump(dump)
    requires multiset(nodes) == Made(dump, |dump| - 1) && Wired(nodes, edges) && AllEdges(dump, edges)
    requires NoneStranded(dump)
    ensures AllFinish(dump, nodes, edges)
  {
    AllEdgesLocal(dump, edges);
    AllContinue(dump, nodes, edges);
    ContinuedFinish(dump, |dump| - 1, nodes, edges);
  }

  lemma {:induction false} StrandedFails(dump: seq<Rec>, nodes: seq<Node>, edges: Edges, j: nat)
    requires PreorderDump(dump)
    requires multiset(nodes) == Made(dump, |dump| - 1) && AllEdges(dump, edges)
    requires j < |dump| && dump[j].parent >= 1 && Stranded(dump, j)
    ensures !AllFinish(dump, nodes, edges)
  {
    RecordOut(dump, j, edges);
    HoldsMade(dump, |dump| - 1, nodes);
    assert NodeOf(dump, j) in nodes;
    if Finishes(dump, edges, NodeOf(dump, j)) {
      FinishesHasOut(dump, edges, j);
    }
  }

  /** Main result: when the edges of a dump follow the list of its nodes, every node inside a loop leads to the end
      node of that loop, exactly when no record inside a loop is stranded. */
  lemma {:induction false} BodiesFinishIff(dump: seq<Rec>, nodes: seq<Node>, edges: Edges)
    requires PreorderDump(dump)
    requires multiset(nodes) == Made(dump, |dump| - 1) && Wired(nodes, edges) && AllEdges(dump, edges)
    ensures AllFinish(dump, nodes, edges) <==> NoneStranded(dump)
  {
    if NoneStranded(dump) {
      BodiesFinish(dump, nodes, edges);
    } else {
      var j: nat :| j < |dump| && dump[j].parent >= 1 && Stranded(dump, j);
      StrandedFails(dump, nodes, edges, j);
    }
  }

  /** Only a load directly followed by a load, or a wait followed by a wait, can be stranded. */
  lemma OnlyTransfersStrand(dump: seq<Rec>, j: nat)
    requires j < |dump| && Stranded(dump, j)
    ensures IsTransfer(dump[j].kind) && dump[j + 1] == dump[j]
  {
    assert !Feeds(dump, j, j + 1);
  }

  /** Two loads and a store in a loop. */
  function TwoLoads(): seq<Rec> {
    [Rec(Plain, -1), Rec(Loop, 0), Rec(Load, 1), Rec(Load, 1), Rec(Plain, 1)]
  }

  lemma TwoLoadsChain()
    ensures PreorderDump(TwoLoads()) && NoLoopThenSibling(TwoLoads())
  {
    var dump := TwoLoads();
    assert Chain(dump, 0) == [0];
    assert UpTo([0], 0) == [0];
    assert Chain(dump, 1) == [0, 1];
    assert UpTo([0, 1], 1) == [0, 1];
    assert Chain(dump, 2) == [0, 1];
    assert Chain(dump, 3) == [0, 1];
  }

  /** The first load leads nowhere: the loop may end before it is done. */
  lemma {:induction false} FirstLoadStrands(edges: Edges)
    requires AllEdges(TwoLoads(), edges)
    ensures PreorderDump(TwoLoads()) && NoLoopThenSibling(TwoLoads()) && Stranded(TwoLoads(), 2)
    ensures !Finishes(TwoLoads(), edges, NodeOf(TwoLoads(), 2))
  {
    var dump := TwoLoads();
    TwoLoadsChain();
    assert !Feeds(dump, 2, 3) && !Feeds(dump, 2, 4);
    RecordOut(dump, 2, edges);
    if Finishes(dump, edges, NodeOf(dump, 2)) {
      FinishesHasOut(dump, edges, 2);
    }
  }
}
