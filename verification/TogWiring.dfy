/** The edges that parsing adds, record by record. */
module TogWiring {
  import opened TogDump
  import opened TogWalk

  type Edges = set<(int, int)>

  ghost predicate Known(nodes: seq<Node>, id: int) {
    exists a :: 0 <= a < |nodes| && nodes[a].id == id
  }

  /** The edge leads from an earlier node of the list to a later one. */
  ghost predicate Forward(nodes: seq<Node>, e: (int, int)) {
    exists a, b :: 0 <= a < b < |nodes| && nodes[a].id == e.0 && nodes[b].id == e.1
  }

  ghost predicate HasParent(edges: Edges, id: int) {
    exists e <- edges :: e.1 == id
  }

  /** All edges follow the order of the list, and every node but the first one is reached. */
  ghost predicate Wired(nodes: seq<Node>, edges: Edges) {
    && (forall e {:trigger Forward(nodes, e)} :: e in edges ==> Forward(nodes, e))
    && (forall b {:trigger Reached(nodes, edges, b)} :: 1 <= b < |nodes| ==> Reached(nodes, edges, b))
  }

  ghost predicate Reached(nodes: seq<Node>, edges: Edges, b: int)
    requires 0 <= b < |nodes|
  {
    HasParent(edges, nodes[b].id)
  }

  /** The edges were extended, by edges from known nodes into id only. */
  ghost predicate Into(nodes: seq<Node>, before: Edges, after: Edges, id: int) {
    before <= after && forall e <- after - before :: e.1 == id && Known(nodes, e.0)
  }

  lemma IntoStep(nodes: seq<Node>, before: Edges, after: Edges, u: int, id: int)
    requires Into(nodes, before, after, id) && Known(nodes, u)
    ensures Into(nodes, before, after + {(u, id)}, id) && HasParent(after + {(u, id)}, id)
  {
    assert (u, id) in after + {(u, id)};
  }

  lemma KnownBefore(nodes: seq<Node>, x: Node, u: int)
    requires Known(nodes, u)
    ensures Forward(nodes + [x], (u, x.id))
  {
    var a :| 0 <= a < |nodes| && nodes[a].id == u;
    assert (nodes + [x])[a].id == u && (nodes + [x])[|nodes|].id == x.id;
  }

  lemma ForwardStays(nodes: seq<Node>, x: Node, e: (int, int))
    requires Forward(nodes, e)
    ensures Forward(nodes + [x], e)
  {
    var a, b :| 0 <= a < b < |nodes| && nodes[a].id == e.0 && nodes[b].id == e.1;
    assert (nodes + [x])[a].id == e.0 && (nodes + [x])[b].id == e.1;
  }

  /** A node that got edges from known nodes may be appended. */
  lemma Append(nodes: seq<Node>, x: Node, before: Edges, after: Edges)
    requires Wired(nodes, before) && Into(nodes, before, after, x.id) && HasParent(after, x.id)
    ensures Wired(nodes + [x], after)
  {
    forall e <- after
      ensures Forward(nodes + [x], e)
    {
      if e in before {
        assert Forward(nodes, e);
        ForwardStays(nodes, x, e);
      } else {
        KnownBefore(nodes, x, e.0);
      }
    }
    forall b | 1 <= b < |nodes + [x]|
      ensures Reached(nodes + [x], after, b)
    {
      if b < |nodes| {
        assert Reached(nodes, before, b);
        var e :| e in before && e.1 == nodes[b].id;
        assert e in after;
      }
    }
  }

  lemma LastKnown(nodes: seq<Node>, x: Node)
    ensures Known(nodes + [x], x.id)
  {
    assert (nodes + [x])[|nodes|].id == x.id;
  }

  lemma KnownStays(nodes: seq<Node>, more: seq<Node>, us: seq<Node>)
    requires AllKnown(nodes, us)
    ensures AllKnown(nodes + more, us)
  {
    forall u <- us
      ensures Known(nodes + more, u.id)
    {
      var k :| 0 <= k < |nodes| && nodes[k].id == u.id;
      assert (nodes + more)[k] == nodes[k];
    }
  }

  ghost predicate AllKnown(nodes: seq<Node>, us: seq<Node>) {
    forall u <- us :: Known(nodes, u.id)
  }

  predicate IsRecordRun(us: seq<Node>) {
    |us| > 0 && forall u <- us :: u.Node?
  }

  lemma ParentKnown(nodes: seq<Node>, edges: Edges, e: (int, int))
    requires Wired(nodes, edges) && e in edges
    ensures Known(nodes, e.0)
  {
    assert Forward(nodes, e);
  }

  /** Nodes that a compute node waits for. */
  function Transfers(prev: seq<Node>, id: int): Edges
    requires IsRecordRun(prev)
  {
    set u <- prev | u.kind == Load || u.kind == Wait :: (u.id, id)
  }

  /** The last node of a run and, as long as these are loads, the nodes before it. */
  function LastRun(prev: seq<Node>): seq<Node>
    requires forall u <- prev :: u.Node?
  {
    if |prev| == 0 then []
    else
      var last := prev[|prev| - 1];
      [last] + (if last.kind == Load then LastRun(prev[..|prev| - 1]) else [])
  }

  /** Edges from all nodes of the list to one node. */
  function FanIn(us: seq<Node>, id: int): Edges {
    set u <- us :: (u.id, id)
  }

  /** Each node leads to the next one, the last one to the given id. */
  function ChainEdges(ends: seq<Node>, next: int): Edges {
    if |ends| == 0 then {}
    else {(ends[0].id, if |ends| == 1 then next else ends[1].id)} + ChainEdges(ends[1..], next)
  }

  lemma ChainStep(top: Node, rest: seq<Node>, next: int)
    ensures ChainEdges([top] + rest, next)
         == {(top.id, if |rest| == 0 then next else rest[0].id)} + ChainEdges(rest, next)
  {
    assert ([top] + rest)[1..] == rest;
  }

  /** A node followed by a chain of nodes. */
  function LinkedBehind(first: Node, rest: seq<Node>): Edges
    decreases |rest|
  {
    if |rest| == 0 then {} else {(first.id, rest[0].id)} + LinkedBehind(rest[0], rest[1..])
  }

  lemma LinkedStep(first: Node, next: Node, rest: seq<Node>)
    ensures LinkedBehind(first, [next] + rest) == {(first.id, next.id)} + LinkedBehind(next, rest)
  {
    assert ([next] + rest)[1..] == rest;
  }

  /** The edges of a sibling x after a run of siblings. */
  ghost predicate SiblingEdges(prev: seq<Node>, x: Node, before: Edges, after: Edges)
    requires IsRecordRun(prev) && x.Node?
  {
    var last := prev[|prev| - 1];
    if last.kind == x.kind && (x.kind == Load || x.kind == Wait) then
      exists p :: (p, last.id) in before && after == before + {(p, x.id)}
    else if (last.kind == Load || last.kind == Wait) && x.kind == Compute then
      after == before + Transfers(prev, x.id)
    else
      after == before + {(last.id, x.id)}
  }

  /** The edges when x closes the popped loops. */
  ghost predicate ClosingEdges(prev: seq<Node>, popped: seq<Node>, x: Node, before: Edges, after: Edges)
    requires IsRecordRun(prev)
  {
    |popped| > 0 && after == before + FanIn(LastRun(prev), popped[0].id) + ChainEdges(popped, x.id)
  }

  /** The edges that record x adds, given the run of siblings before it and the stack. */
  ghost predicate StepEdges(prev: seq<Node>, ends: seq<Node>, x: Node, before: Edges, after: Edges)
    requires IsRecordRun(prev) && x.Node?
  {
    var last := prev[|prev| - 1];
    if last.parent == x.parent then SiblingEdges(prev, x, before, after)
    else if last.id == x.parent then after == before + {(last.id, x.id)}
    else ClosingEdges(prev, PoppedEnds(ends, x.parent), x, before, after)
  }

  /** prev_node after record i: record i and the siblings directly before it. */
  function RunAt(dump: seq<Rec>, i: nat): (us: seq<Node>)
    requires i < |dump|
    ensures IsRecordRun(us) && us[|us| - 1] == NodeOf(dump, i)
  {
    if i > 0 && dump[i].parent == dump[i - 1].parent then RunAt(dump, i - 1) + [NodeOf(dump, i)] else [NodeOf(dump, i)]
  }

  /** The edges that record i adds; in the last step the last record and the end nodes that are left form a chain. */
  ghost predicate EdgesStep(dump: seq<Rec>, i: nat, before: Edges, after: Edges) {
    && 1 <= i <= |dump| && StackAfter(dump, i - 1).Ends?
    && var last, ends := NodeOf(dump, i - 1), StackAfter(dump, i - 1).ends;
       if i < |dump| then StepEdges(RunAt(dump, i - 1), ends, NodeOf(dump, i), before, after)
       else after == before + LinkedBehind(last, Remaining(ends))
  }

  ghost predicate StepAt(dump: seq<Rec>, trace: seq<Edges>, i: nat)
    requires 1 <= i < |trace|
  {
    EdgesStep(dump, i, trace[i - 1], trace[i])
  }

  /** The edges after each step, from the empty set on. */
  ghost predicate History(dump: seq<Rec>, trace: seq<Edges>) {
    && |trace| > 0 && trace[0] == {}
    && forall i {:trigger StepAt(dump, trace, i)} :: 1 <= i < |trace| ==> StepAt(dump, trace, i)
  }

  /** The edges after step i. */
  ghost predicate EdgesAfter(dump: seq<Rec>, i: nat, edges: Edges) {
    exists trace {:trigger History(dump, trace)} :: History(dump, trace) && |trace| == i + 1 && trace[i] == edges
  }

  /** The edges at the end. */
  ghost predicate AllEdges(dump: seq<Rec>, edges: Edges) {
    EdgesAfter(dump, |dump|, edges)
  }

  lemma NoEdgesYet(dump: seq<Rec>)
    ensures EdgesAfter(dump, 0, {})
  {
    assert History(dump, [{}]);
  }

  lemma EdgesNext(dump: seq<Rec>, i: nat, before: Edges, after: Edges)
    requires i > 0 && EdgesAfter(dump, i - 1, before) && EdgesStep(dump, i, before, after)
    ensures EdgesAfter(dump, i, after)
  {
    var trace :| History(dump, trace) && |trace| == i && trace[i - 1] == before;
    var next := trace + [after];
    forall k | 1 <= k < |next|
      ensures StepAt(dump, next, k)
    {
      if k < i {
        assert StepAt(dump, trace, k);
      }
    }
    assert History(dump, next);
  }

  lemma EdgesBefore(dump: seq<Rec>, i: nat, edges: Edges) returns (before: Edges)
    requires i > 0 && EdgesAfter(dump, i, edges)
    ensures EdgesAfter(dump, i - 1, before) && EdgesStep(dump, i, before, edges)
  {
    var trace :| History(dump, trace) && |trace| == i + 1 && trace[i] == edges;
    assert StepAt(dump, trace, i);
    before := trace[i - 1];
    var front := trace[..i];
    forall k | 1 <= k < |front|
      ensures StepAt(dump, front, k)
    {
      assert StepAt(dump, trace, k);
    }
    assert History(dump, front);
  }

  /** One turn of the popping loop that does not stop: what the rest of the stack still contributes. */
  lemma PopTurn(ends: seq<Node>, rest: seq<Node>, p: int, next: int, nodes: seq<Node>)
    requires |ends| > 0 && rest == ends[..|ends| - 1] && ends[|ends| - 1].parent != p
    ensures PopTo(ends, p) == PopTo(rest, p)
    ensures nodes + PoppedEnds(ends, p) == (nodes + [ends[|ends| - 1]]) + PoppedEnds(rest, p)
    ensures |rest| > 0 ==>
      ChainEdges(PoppedEnds(ends, p), next)
      == {(ends[|ends| - 1].id, rest[|rest| - 1].id)} + ChainEdges(PoppedEnds(rest, p), next)
  {
    var top := ends[|ends| - 1];
    PopStep(ends, p);
    Regroup(nodes, top, PoppedEnds(rest, p));
    ChainStep(top, PoppedEnds(rest, p), next);
  }

  lemma Grows(dump: seq<Rec>, i: nat, nodes: seq<Node>, us: seq<Node>)
    requires 1 <= i < |dump| && StackAfter(dump, i).Ends? && nodes == Emitted(dump, i - 1) && AllKnown(nodes, us)
    ensures AllKnown(Emitted(dump, i), us) && Known(Emitted(dump, i), i)
  {
    var ends := StackAfter(dump, i - 1).ends;
    var more := if Closes(dump, i) then PoppedEnds(ends, dump[i].parent) else [];
    KnownStays(nodes, more, us);
    KnownStays(nodes + more, [NodeOf(dump, i)], us);
    LastKnown(nodes + more, NodeOf(dump, i));
  }
}
