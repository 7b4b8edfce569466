/** tog_generator: turns a preorder dump into nodes in file order with dependency edges. */
module TogGenerator {
  import opened TogDump
  import opened TogWalk
  import opened TogWiring
  import opened TogOrder
  import opened TogReach
  import opened TogPreds
  import opened TogEnds
  import opened Wrappers

  class TogGenerator {
    const dump: seq<Rec>
    /** node_dict in insertion order. */
    var nodeDict: seq<Node>
    /** The parent and child sets of all nodes, as (parent, child) pairs. */
    var edges: Edges
    var newNodeId: int
    var loopEndStack: seq<Node>

    constructor (dump: seq<Rec>)
      ensures this.dump == dump && nodeDict == [] && edges == {} && loopEndStack == [] && newNodeId == 0
    {
      this.dump := dump;
      nodeDict, edges, loopEndStack, newNodeId := [], {}, [], 0;
    }

    /** connect_nodes. */
    method Connect(parentId: int, childId: int)
      modifies this`edges
      ensures edges == old(edges) + {(parentId, childId)}
    {
      edges := edges + {(parentId, childId)};
    }

    /** get_parent()[-1] of a connected node: some element of its parent set. */
    method SomeParent(id: int) returns (p: int)
      requires HasParent(edges, id)
      ensures (p, id) in edges
    {
      ghost var w :| w in edges && w.1 == id;
      assert (w.0, id) in edges;
      var e :| e in edges && e.1 == id;
      p := e.0;
    }

    /** A compute node waits for all loads and waits of the run. */
    method ConnectTransfers(prev: seq<Node>, id: int)
      requires IsRecordRun(prev)
      modifies this`edges
      ensures edges == old(edges) + Transfers(prev, id)
    {
      for k := 0 to |prev|
        invariant edges == old(edges)
                         + set j | 0 <= j < k && (prev[j].kind == Load || prev[j].kind == Wait) :: (prev[j].id, id)
      {
        if prev[k].kind == Load || prev[k].kind == Wait {
          Connect(prev[k].id, id);
        }
      }
    }

    /** Siblings: runs of loads (or waits) share a parent, a compute node waits for the whole run. */
    method ConnectSibling(prev: seq<Node>, x: Node)
      requires IsRecordRun(prev) && AllKnown(nodeDict, prev) && x.Node?
      requires prev[|prev| - 1].kind != Plain ==> HasParent(edges, prev[|prev| - 1].id)
      requires Wired(nodeDict, edges)
      modifies this`edges
      ensures SiblingEdges(prev, x, old(edges), edges)
      ensures Wired(nodeDict + [x], edges) && HasParent(edges, x.id)
    {
      var last := prev[|prev| - 1];
      assert last in prev;
      if last.kind == x.kind && (x.kind == Load || x.kind == Wait) {
        var p := SomeParent(last.id);
        ParentKnown(nodeDict, edges, (p, last.id));
        IntoStep(nodeDict, edges, edges, p, x.id);
        Connect(p, x.id);
      } else if (last.kind == Load || last.kind == Wait) && x.kind == Compute {
        ConnectTransfers(prev, x.id);
        assert (last.id, x.id) in edges;
      } else {
        IntoStep(nodeDict, edges, edges, last.id, x.id);
        Connect(last.id, x.id);
      }
      Append(nodeDict, x, old(edges), edges);
    }

    /** The trailing run of loads, and the node before it, feed the first end node. */
    method ConnectRun(prev: seq<Node>, end: Node)
      requires IsRecordRun(prev) && AllKnown(nodeDict, prev) && Wired(nodeDict, edges)
      modifies this`edges
      ensures edges == old(edges) + FanIn(LastRun(prev), end.id)
      ensures Wired(nodeDict + [end], edges) && HasParent(edges, end.id)
    {
      var k := |prev| - 1;
      assert prev[..k + 1] == prev;
      while k >= 0
        invariant -1 <= k < |prev|
        invariant edges + FanIn(LastRun(prev[..k + 1]), end.id) == old(edges) + FanIn(LastRun(prev), end.id)
        invariant Into(nodeDict, old(edges), edges, end.id)
        invariant k < |prev| - 1 ==> HasParent(edges, end.id)
      {
        assert prev[k] in prev && prev[..k + 1][..k] == prev[..k];
        IntoStep(nodeDict, old(edges), edges, prev[k].id, end.id);
        Connect(prev[k].id, end.id);
        if prev[k].kind != Load {
          break;
        }
        k := k - 1;
      }
      Append(nodeDict, end, old(edges), edges);
    }

    /** One turn of the closing loop: emits lastEnd and connects it to the next end node or to the new node. */
    method EmitEnd(lastEnd: Node, next: Node)
      requires Wired(nodeDict + [lastEnd], edges)
      modifies this`edges, this`nodeDict
      ensures nodeDict == old(nodeDict) + [lastEnd]
      ensures edges == old(edges) + {(lastEnd.id, next.id)}
      ensures Wired(nodeDict + [next], edges) && HasParent(edges, next.id)
    {
      LastKnown(nodeDict, lastEnd);
      nodeDict := nodeDict + [lastEnd];
      IntoStep(nodeDict, edges, edges, lastEnd.id, next.id);
      Connect(lastEnd.id, next.id);
      Append(nodeDict, next, old(edges), edges);
    }

    /** Closes loops until the end node of a sibling of x was emitted; fails on an empty stack. */
    method CloseLoops(prev: seq<Node>, x: Node) returns (ok: bool)
      requires IsRecordRun(prev) && AllKnown(nodeDict, prev) && Wired(nodeDict, edges)
      modifies this`edges, this`nodeDict, this`loopEndStack
      ensures ok <==> PopTo(old(loopEndStack), x.parent).Ends?
      ensures ok ==> loopEndStack == PopTo(old(loopEndStack), x.parent).ends
      ensures ok ==> nodeDict == old(nodeDict) + PoppedEnds(old(loopEndStack), x.parent)
      ensures ok ==> ClosingEdges(prev, PoppedEnds(old(loopEndStack), x.parent), x, old(edges), edges)
      ensures ok ==> Wired(nodeDict + [x], edges) && HasParent(edges, x.id)
    {
      if |loopEndStack| == 0 {
        return false;
      }
      var lastEnd := loopEndStack[|loopEndStack| - 1];
      loopEndStack := loopEndStack[..|loopEndStack| - 1];
      ConnectRun(prev, lastEnd);
      ok := CloseFrom(lastEnd, x, old(loopEndStack));
    }

    /** The closing loop, from lastEnd on; `all` is the stack with lastEnd on top. */
    method CloseFrom(lastEnd: Node, x: Node, ghost all: seq<Node>) returns (ok: bool)
      requires |all| > 0 && all[|all| - 1] == lastEnd && loopEndStack == all[..|all| - 1]
      requires Wired(nodeDict + [lastEnd], edges)
      modifies this`edges, this`nodeDict, this`loopEndStack
      ensures ok <==> PopTo(all, x.parent).Ends?
      ensures ok ==> loopEndStack == PopTo(all, x.parent).ends
      ensures ok ==> nodeDict == old(nodeDict) + PoppedEnds(all, x.parent)
      ensures ok ==> edges == old(edges) + ChainEdges(PoppedEnds(all, x.parent), x.id)
      ensures ok ==> Wired(nodeDict + [x], edges) && HasParent(edges, x.id)
    {
      ghost var target, emitted := PopTo(all, x.parent), nodeDict + PoppedEnds(all, x.parent);
      ghost var wired := edges + ChainEdges(PoppedEnds(all, x.parent), x.id);
      ghost var left := all;
      var end := lastEnd;
      while end.parent != x.parent
        invariant |left| > 0 && left[|left| - 1] == end && loopEndStack == left[..|left| - 1]
        invariant PopTo(left, x.parent) == target && nodeDict + PoppedEnds(left, x.parent) == emitted
        invariant edges + ChainEdges(PoppedEnds(left, x.parent), x.id) == wired
        invariant Wired(nodeDict + [end], edges)
        decreases |loopEndStack|
      {
        PopTurn(left, loopEndStack, x.parent, x.id, nodeDict);
        if |loopEndStack| == 0 {
          return false;
        }
        var next := loopEndStack[|loopEndStack| - 1];
        EmitEnd(end, next);
        left := loopEndStack;
        loopEndStack := loopEndStack[..|loopEndStack| - 1];
        end := next;
      }
      PopStep(left, x.parent);
      EmitEnd(end, x);
      ok := true;
    }

    /** create_node for record i > 0, given the run of siblings that ends with record i - 1. */
    method CreateNode(i: nat, prev: seq<Node>) returns (ok: bool, x: Node)
      requires 1 <= i < |dump| && Wired(nodeDict, edges) && newNodeId == |dump| + 1 + LoopsBefore(dump, i)
      requires IsRecordRun(prev) && AllKnown(nodeDict, prev) && prev[|prev| - 1] == NodeOf(dump, i - 1)
      requires prev[|prev| - 1].kind != Plain ==> HasParent(edges, i - 1)
      modifies this`edges, this`nodeDict, this`loopEndStack, this`newNodeId
      ensures x == NodeOf(dump, i) && newNodeId == |dump| + 1 + LoopsBefore(dump, i + 1)
      ensures ok <==> NextStack(dump, i, old(loopEndStack)).Ends?
      ensures ok ==> loopEndStack == NextStack(dump, i, old(loopEndStack)).ends
      ensures ok ==> nodeDict == NextNodes(dump, i, old(nodeDict), old(loopEndStack))
      ensures ok ==> StepEdges(prev, old(loopEndStack), x, old(edges), edges)
      ensures ok ==> Wired(nodeDict, edges) && HasParent(edges, i)
    {
      x := Node(i, dump[i].kind, dump[i].parent);
      var end := End(newNodeId, i, dump[i].parent);
      if x.kind == Loop {
        newNodeId := newNodeId + 1;
      }
      var last := prev[|prev| - 1];
      assert last in prev;
      ok := true;
      if last.parent == x.parent {
        ConnectSibling(prev, x);
      } else if last.id == x.parent {
        IntoStep(nodeDict, edges, edges, last.id, x.id);
        Append(nodeDict, x, edges, edges + {(last.id, x.id)});
        Connect(last.id, x.id);
      } else {
        ok := CloseLoops(prev, x);
        if !ok {
          return;
        }
      }
      if x.kind == Loop {
        loopEndStack := loopEndStack + [end];
      }
      nodeDict := nodeDict + [x];
    }

    /** Links what is left on the stack. */
    method CloseRest(last: Node)
      requires Wired(nodeDict, edges) && Known(nodeDict, last.id)
      modifies this`edges, this`nodeDict, this`loopEndStack
      ensures Wired(nodeDict, edges) && loopEndStack == []
      ensures nodeDict == old(nodeDict) + Remaining(old(loopEndStack))
      ensures edges == old(edges) + LinkedBehind(last, Remaining(old(loopEndStack)))
    {
      var prev := last;
      ghost var target := nodeDict + Remaining(loopEndStack);
      while |loopEndStack| > 0
        invariant Wired(nodeDict, edges) && Known(nodeDict, prev.id)
        invariant nodeDict + Remaining(loopEndStack) == target
        invariant edges + LinkedBehind(prev, Remaining(loopEndStack))
               == old(edges) + LinkedBehind(last, Remaining(old(loopEndStack)))
      {
        var end := loopEndStack[|loopEndStack| - 1];
        loopEndStack := loopEndStack[..|loopEndStack| - 1];
        Regroup(nodeDict, end, Remaining(loopEndStack));
        LinkedStep(prev, end, Remaining(loopEndStack));
        IntoStep(nodeDict, edges, edges, prev.id, end.id);
        Append(nodeDict, end, edges, edges + {(prev.id, end.id)});
        LastKnown(nodeDict, end);
        Connect(prev.id, end.id);
        nodeDict := nodeDict + [end];
        prev := end;
      }
    }

    /** The state after record i. */
    ghost predicate After(i: nat)
      reads this
    {
      && i < |dump| && StackAfter(dump, i) == Ends(loopEndStack)
      && nodeDict == Emitted(dump, i)
      && newNodeId == |dump| + 1 + LoopsBefore(dump, i + 1)
      && Wired(nodeDict, edges) && EdgesAfter(dump, i, edges)
    }

    /** One turn of the loop of parse_graph: record i joins the run of its siblings or starts a new one. */
    method AddRecord(i: nat, prev: seq<Node>) returns (ok: bool, run: seq<Node>)
      requires 1 <= i < |dump| && After(i - 1)
      requires prev == RunAt(dump, i - 1) && AllKnown(nodeDict, prev) && (i > 1 ==> HasParent(edges, i - 1))
      requires dump[0].kind == Plain
      modifies this`edges, this`nodeDict, this`loopEndStack, this`newNodeId
      ensures ok <==> StackAfter(dump, i).Ends?
      ensures ok ==> After(i) && run == RunAt(dump, i) && AllKnown(nodeDict, run) && HasParent(edges, i)
    {
      var x;
      ok, x := CreateNode(i, prev);
      if !ok {
        return false, [];
      }
      Grows(dump, i, old(nodeDict), prev);
      EdgesNext(dump, i, old(edges), edges);
      run := if prev[|prev| - 1].parent == x.parent then prev + [x] else [x];
    }

    /** The loop of parse_graph: for a preorder dump every record can be added. */
    method AddRecords() returns (ok: bool, last: Node)
      requires PreorderDump(dump) && nodeDict == [] && edges == {} && loopEndStack == []
      modifies this
      ensures ok && After(|dump| - 1) && last == NodeOf(dump, |dump| - 1) && Known(nodeDict, last.id)
    {
      newNodeId := |dump| + 1;
      var x := Node(0, dump[0].kind, dump[0].parent);
      LastKnown([], x);
      NoEdgesYet(dump);
      nodeDict := [x];
      var prev := [x];
      ok := true;
      for i := 1 to |dump|
        invariant ok && After(i - 1)
        invariant prev == RunAt(dump, i - 1) && AllKnown(nodeDict, prev) && (i > 1 ==> HasParent(edges, i - 1))
      {
        NoPopFails(dump, i);
        ok, prev := AddRecord(i, prev);
      }
      last := prev[|prev| - 1];
      assert last in prev;
    }

    /** parse_graph: for every preorder dump no pop fails, each node is made once, the edges follow the insertion
        order and form no cycle, and the dump tells what each node follows. The order is the walk over the loop nest
        exactly when no loop is directly followed by a sibling; every body leads to the end of its loop exactly when
        no record in it is stranded. */
    method ParseGraph() returns (ok: bool)
      requires PreorderDump(dump) && nodeDict == [] && edges == {} && loopEndStack == []
      modifies this
      ensures ok && nodeDict == AllEmitted(dump) && AllEdges(dump, edges) && loopEndStack == []
      ensures multiset(nodeDict) == Made(dump, |dump| - 1) && Wired(nodeDict, edges) && Acyclic(edges)
      ensures Walk(nodeDict) == Some([]) <==> NoLoopThenSibling(dump)
      ensures AllFinish(dump, nodeDict, edges) <==> NoneStranded(dump)
      ensures forall k, p {:trigger RecordRule(dump, edges, k, p)} :: 1 <= k < |dump| ==> RecordRule(dump, edges, k, p)
      ensures forall k, p {:trigger Follows(edges, p, k)} :: 1 <= k < |dump| ==>
                 (Follows(edges, p, k) <==> p in Preds(dump, k))
      ensures forall a, p {:trigger RuleAt(dump, nodeDict, edges, a, p)} :: 1 <= a < |nodeDict| ==>
                 RuleAt(dump, nodeDict, edges, a, p)
    {
      var last;
      ok, last := AddRecords();
      ghost var before := edges;
      CloseRest(last);
      EdgesNext(dump, |dump|, before, edges);
      GraphFacts(dump, nodeDict, edges);
      EdgeFacts(dump, nodeDict, edges);
    }
  }

  lemma {:induction false} GraphFacts(dump: seq<Rec>, nodes: seq<Node>, edges: Edges)
    requires PreorderDump(dump) && nodes == AllEmitted(dump) && Wired(nodes, edges) && AllEdges(dump, edges)
    ensures multiset(nodes) == Made(dump, |dump| - 1) && Acyclic(edges)
    ensures Walk(nodes) == Some([]) <==> NoLoopThenSibling(dump)
    ensures AllFinish(dump, nodes, edges) <==> NoneStranded(dump)
  {
    AllEmittedIsMade(dump, nodes);
    NoCycle(dump, nodes, edges);
    WalkIff(dump);
    BodiesFinishIff(dump, nodes, edges);
  }

  lemma {:induction false} EdgeFacts(dump: seq<Rec>, nodes: seq<Node>, edges: Edges)
    requires PreorderDump(dump) && nodes == AllEmitted(dump) && AllEdges(dump, edges)
    ensures forall k, p {:trigger RecordRule(dump, edges, k, p)} :: 1 <= k < |dump| ==> RecordRule(dump, edges, k, p)
    ensures forall k, p {:trigger Follows(edges, p, k)} :: 1 <= k < |dump| ==>
               (Follows(edges, p, k) <==> p in Preds(dump, k))
    ensures forall a, p {:trigger RuleAt(dump, nodes, edges, a, p)} :: 1 <= a < |nodes| ==>
               RuleAt(dump, nodes, edges, a, p)
  {
    forall k, p | 1 <= k < |dump|
      ensures RecordRule(dump, edges, k, p) && (Follows(edges, p, k) <==> p in Preds(dump, k))
    {
      RuleOfRecord(dump, edges, k, p);
      IntoRecord(dump, edges, p, k);
    }
    forall a, p | 1 <= a < |nodes|
      ensures RuleAt(dump, nodes, edges, a, p)
    {
      IntoEnd(dump, edges, a, p);
    }
  }
}
