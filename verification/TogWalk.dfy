/** The order in which parsing emits nodes, and the walk over the loop nest that it should be. */
module TogWalk {
  import opened TogDump
  import opened Wrappers

  // ----- the reference order: a walk over the loop nest -----

  /** The end nodes popped on the way to a node with parent p, innermost first. */
  function PoppedEnds(ends: seq<Node>, p: int): seq<Node> {
    if |ends| == 0 then []
    else if ends[|ends| - 1].parent == p then [ends[|ends| - 1]]
    else [ends[|ends| - 1]] + PoppedEnds(ends[..|ends| - 1], p)
  }

  /** Whether record i closes loops before it is connected. */
  predicate Closes(dump: seq<Rec>, i: nat)
    requires 1 <= i < |dump|
  {
    dump[i].parent != dump[i - 1].parent && dump[i].parent != i - 1
  }

  function NodeOf(dump: seq<Rec>, i: nat): Node
    requires i < |dump|
  {
    Node(i, dump[i].kind, dump[i].parent)
  }

  /** node_dict in insertion order after record i, given node_dict and the stack before. */
  function NextNodes(dump: seq<Rec>, i: nat, nodes: seq<Node>, ends: seq<Node>): seq<Node>
    requires 1 <= i < |dump|
  {
    nodes + (if Closes(dump, i) then PoppedEnds(ends, dump[i].parent) else []) + [NodeOf(dump, i)]
  }

  /** node_dict in insertion order after record i. */
  function Emitted(dump: seq<Rec>, i: nat): seq<Node>
    requires i < |dump| && StackAfter(dump, i).Ends?
  {
    if i == 0 then [NodeOf(dump, 0)]
    else NextNodes(dump, i, Emitted(dump, i - 1), StackAfter(dump, i - 1).ends)
  }

  /** Reading nodes as brackets: the loops that are open at the end. Every node must stand directly
      inside its parent, and every end node must close the innermost open loop. */
  function Walk(nodes: seq<Node>): Option<seq<int>> {
    if |nodes| == 0 then Some([])
    else
      var front, x := Walk(nodes[..|nodes| - 1]), nodes[|nodes| - 1];
      if front == None then None
      else if |nodes| == 1 then
        (if x == Node(0, Plain, -1) then Some([]) else None)
      else
        WalkOn(front.value, x)
  }

  function Innermost(open: seq<int>): int {
    if |open| == 0 then 0 else open[|open| - 1]
  }

  /** The walk one node further. */
  function WalkOn(open: seq<int>, x: Node): Option<seq<int>> {
    match x
    case Node(id, kind, parent) =>
      if parent != Innermost(open) then None
      else if kind == Loop then Some(open + [id]) else Some(open)
    case End(id, loop, parent) =>
      if |open| == 0 || open[|open| - 1] != loop || parent != Innermost(open[..|open| - 1]) then None
      else Some(open[..|open| - 1])
  }

  lemma WalkSnoc(nodes: seq<Node>, x: Node, open: seq<int>)
    requires |nodes| > 0 && Walk(nodes) == Some(open)
    ensures Walk(nodes + [x]) == WalkOn(open, x)
  {
    assert (nodes + [x])[..|nodes|] == nodes;
  }

  /** The ends of a chain, each with its parent. */
  ghost predicate Closable(dump: seq<Rec>, ends: seq<Node>, c: seq<int>) {
    && |c| > 0 && c[0] == 0 && EndsOfChain(dump, ends, c)
    && forall k {:trigger ends[k].parent} :: 0 <= k < |ends| ==> ends[k].parent == c[k]
  }

  lemma InnermostOfChain(c: seq<int>)
    requires |c| > 0 && c[0] == 0
    ensures Innermost(c[1..]) == c[|c| - 1]
  {
  }

  lemma CloseTop(c: seq<int>, x: Node)
    requires |c| > 1 && c[0] == 0 && x.End? && x.loop == c[|c| - 1] && x.parent == c[|c| - 2]
    ensures WalkOn(c[1..], x) == Some(c[..|c| - 1][1..])
  {
    var front := c[..|c| - 1];
    InnermostOfChain(front);
    assert c[1..][..|c| - 2] == front[1..];
  }

  /** Emitting the innermost end node closes the innermost loop. */
  lemma WalkEnd(dump: seq<Rec>, nodes: seq<Node>, ends: seq<Node>, c: seq<int>)
    requires |nodes| > 0 && |ends| > 0 && Closable(dump, ends, c) && Walk(nodes) == Some(c[1..])
    ensures Closable(dump, ends[..|ends| - 1], c[..|c| - 1])
    ensures Walk(nodes + [ends[|ends| - 1]]) == Some(c[..|c| - 1][1..])
  {
    var n := |ends| - 1;
    assert IsEndOf(dump, ends[n], c[n + 1]) && ends[n].parent == c[n];
    WalkSnoc(nodes, ends[n], c[1..]);
    CloseTop(c, ends[n]);
    EndsPrefix(dump, ends, c, n);
  }

  /** Emitting the end nodes of the open loops, innermost first, closes them one by one. */
  lemma {:induction false} WalkPops(dump: seq<Rec>, nodes: seq<Node>, ends: seq<Node>, c: seq<int>, p: int)
    requires |nodes| > 0 && Closable(dump, ends, c) && Walk(nodes) == Some(c[1..])
    requires p in c && p != c[|c| - 1]
    ensures |UpTo(c, p)| > 0 && Walk(nodes + PoppedEnds(ends, p)) == Some(UpTo(c, p)[1..])
    decreases |c|
  {
    var top, front := ends[|ends| - 1], c[..|c| - 1];
    WalkEnd(dump, nodes, ends, c);
    assert top.parent == front[|front| - 1];
    if top.parent != p {
      WalkPops(dump, nodes + [top], ends[..|ends| - 1], front, p);
      Regroup(nodes, top, PoppedEnds(ends[..|ends| - 1], p));
    }
  }

  lemma OpenNode(u: seq<int>, id: int, kind: Kind)
    requires |u| > 0 && u[0] == 0
    ensures WalkOn(u[1..], Node(id, kind, u[|u| - 1])) == Some((u + (if kind == Loop then [id] else []))[1..])
  {
    InnermostOfChain(u);
    assert (u + [id])[1..] == u[1..] + [id];
    assert u + [] == u;
  }

  lemma WalkNode(dump: seq<Rec>, nodes: seq<Node>, u: seq<int>, i: nat)
    requires i < |dump| && |nodes| > 0 && |u| > 0 && u[0] == 0 && u[|u| - 1] == dump[i].parent
    requires Walk(nodes) == Some(u[1..])
    ensures Walk(nodes + [NodeOf(dump, i)]) == Some((u + (if dump[i].kind == Loop then [i] else []))[1..])
  {
    WalkSnoc(nodes, NodeOf(dump, i), u[1..]);
    OpenNode(u, i, dump[i].kind);
  }

  /** The nodes emitted before record i, read as brackets, leave open what is open around its parent. */
  lemma WalkBefore(dump: seq<Rec>, i: nat, nodes: seq<Node>, ends: seq<Node>, c: seq<int>)
    requires PreorderDump(dump) && 1 <= i < |dump| && !LoopThenSibling(dump, i) && c == Chain(dump, i - 1)
    requires |nodes| > 0 && EndsOfChain(dump, ends, c) && |c| > 0 && Walk(nodes) == Some(c[1..])
    ensures var u := UpTo(c, dump[i].parent);
            && |u| > 0 && u[0] == 0 && u[|u| - 1] == dump[i].parent
            && Walk(nodes + (if Closes(dump, i) then PoppedEnds(ends, dump[i].parent) else [])) == Some(u[1..])
  {
    UpToParent(dump, i);
    if Closes(dump, i) {
      EndParents(dump, ends, c, i - 1);
      WalkPops(dump, nodes, ends, c, dump[i].parent);
    } else {
      assert nodes + [] == nodes;
    }
  }

  ghost predicate WalksTo(dump: seq<Rec>, i: nat)
    requires i < |dump|
  {
    StackIsChain(dump, i) && |Emitted(dump, i)| > 0 && Walk(Emitted(dump, i)) == Some(Chain(dump, i)[1..])
  }

  lemma {:induction false} WalkStep(dump: seq<Rec>, i: nat)
    requires PreorderDump(dump) && 1 <= i < |dump| && !LoopThenSibling(dump, i)
    requires StackIsChain(dump, i) && WalksTo(dump, i - 1)
    ensures WalksTo(dump, i)
  {
    var c, ends, nodes := Chain(dump, i - 1), StackAfter(dump, i - 1).ends, Emitted(dump, i - 1);
    WalkBefore(dump, i, nodes, ends, c);
    var before := nodes + (if Closes(dump, i) then PoppedEnds(ends, dump[i].parent) else []);
    WalkNode(dump, before, UpTo(c, dump[i].parent), i);
  }

  lemma {:induction false} WalkStart(dump: seq<Rec>)
    requires PreorderDump(dump)
    ensures WalksTo(dump, 0)
  {
    assert Emitted(dump, 0)[..0] == [];
    assert Walk([]) == Some([]) && Chain(dump, 0)[1..] == [];
  }

  /** Main result on order: the insertion order is the walk over the loop nest of the dump. */
  lemma {:induction false} EmittedIsWalk(dump: seq<Rec>, i: nat)
    requires PreorderDump(dump) && NoLoopThenSibling(dump) && i < |dump|
    ensures WalksTo(dump, i)
    decreases i
  {
    if i == 0 {
      WalkStart(dump);
    } else {
      EmittedIsWalk(dump, i - 1);
      StackIsAlwaysChain(dump);
      assert !LoopThenSibling(dump, i);
      WalkStep(dump, i);
    }
  }

  /** The end nodes left on the stack at the end, innermost first. */
  function Remaining(ends: seq<Node>): (r: seq<Node>)
    ensures |r| == |ends|
  {
    if |ends| == 0 then [] else [ends[|ends| - 1]] + Remaining(ends[..|ends| - 1])
  }

  function AllEmitted(dump: seq<Rec>): seq<Node>
    requires PreorderDump(dump)
  {
    NoPopFails(dump, |dump| - 1);
    Emitted(dump, |dump| - 1) + Remaining(StackAfter(dump, |dump| - 1).ends)
  }

  lemma {:induction false} WalkRemaining(dump: seq<Rec>, nodes: seq<Node>, ends: seq<Node>, c: seq<int>)
    requires |nodes| > 0 && Closable(dump, ends, c) && Walk(nodes) == Some(c[1..])
    ensures Walk(nodes + Remaining(ends)) == Some([])
    decreases |c|
  {
    if |ends| == 0 {
      assert nodes + [] == nodes && c[1..] == [];
    } else {
      var top := ends[|ends| - 1];
      WalkEnd(dump, nodes, ends, c);
      WalkRemaining(dump, nodes + [top], ends[..|ends| - 1], c[..|c| - 1]);
      Regroup(nodes, top, Remaining(ends[..|ends| - 1]));
    }
  }

  lemma {:induction false} ClosedAfter(dump: seq<Rec>, i: nat)
    requires PreorderDump(dump) && NoLoopThenSibling(dump) && i < |dump|
    ensures StackAfter(dump, i).Ends?
    ensures Walk(Emitted(dump, i) + Remaining(StackAfter(dump, i).ends)) == Some([])
  {
    EmittedIsWalk(dump, i);
    ChainHasShape(dump, i);
    EndParents(dump, StackAfter(dump, i).ends, Chain(dump, i), i);
    WalkRemaining(dump, Emitted(dump, i), StackAfter(dump, i).ends, Chain(dump, i));
  }

  /** All loops are closed at the end, each by its own end node, innermost first. */
  lemma {:induction false} AllEmittedIsWalk(dump: seq<Rec>)
    requires PreorderDump(dump) && NoLoopThenSibling(dump)
    ensures Walk(AllEmitted(dump)) == Some([])
  {
    ClosedAfter(dump, |dump| - 1);
  }

  // ----- which dumps give a walk -----

  lemma {:induction false} WalkPrefix(nodes: seq<Node>, more: seq<Node>)
    requires Walk(nodes) == None
    ensures Walk(nodes + more) == None
    decreases |more|
  {
    if |more| == 0 {
      assert nodes + more == nodes;
    } else {
      WalkPrefix(nodes, more[..|more| - 1]);
      assert (nodes + more)[..|nodes + more| - 1] == nodes + more[..|more| - 1];
    }
  }

  /** A loop node can only be followed by a node of its body or by its end node. */
  lemma WalkAfterLoop(nodes: seq<Node>, loop: Node, x: Node, longer: seq<Node>)
    requires |nodes| > 0 && loop.Node? && loop.kind == Loop && x.Node? && x.parent != loop.id
    requires longer == nodes + [loop] + [x]
    ensures Walk(longer) == None
  {
    var all := nodes + [loop];
    assert all[..|all| - 1] == nodes && longer[..|longer| - 1] == all;
    if Walk(nodes).Some? && Walk(all).Some? {
      assert Walk(all) == WalkOn(Walk(nodes).value, loop);
    }
  }

  lemma {:induction false} EmittedGrows(dump: seq<Rec>, i: nat, n: nat)
    requires i <= n < |dump| && StackAfter(dump, i).Ends? && StackAfter(dump, n).Ends?
    ensures Emitted(dump, i) <= Emitted(dump, n)
    decreases n
  {
    if i < n {
      EmittedGrows(dump, i, n - 1);
    }
  }

  /** Record i is emitted last; if it closes nothing, right after what was emitted before. */
  lemma {:induction false} EmittedLast(dump: seq<Rec>, i: nat) returns (before: seq<Node>)
    requires 1 <= i < |dump| && StackAfter(dump, i).Ends?
    ensures |before| > 0 && Emitted(dump, i) == before + [NodeOf(dump, i)] && StackAfter(dump, i - 1).Ends?
    ensures !Closes(dump, i) ==> before == Emitted(dump, i - 1)
  {
    var ends := StackAfter(dump, i - 1).ends;
    before := Emitted(dump, i - 1) + (if Closes(dump, i) then PoppedEnds(ends, dump[i].parent) else []);
    EmittedNotEmpty(dump, i - 1);
  }

  /** A sibling right behind a loop stands where the walk expects the body of the loop. */
  lemma {:induction false} SiblingEndsWalk(dump: seq<Rec>, i: nat)
    requires 2 <= i < |dump| && LoopThenSibling(dump, i) && dump[i].parent != i - 1
    requires StackAfter(dump, i).Ends?
    ensures Walk(Emitted(dump, i)) == None
  {
    var before := EmittedLast(dump, i);
    var front := EmittedLast(dump, i - 1);
    WalkAfterLoop(front, NodeOf(dump, i - 1), NodeOf(dump, i), Emitted(dump, i));
  }

  lemma {:induction false} EmittedNotEmpty(dump: seq<Rec>, i: nat)
    requires i < |dump| && StackAfter(dump, i).Ends?
    ensures |Emitted(dump, i)| > 0
  {
  }

  lemma {:induction false} NoWalkLater(first: seq<Node>, all: seq<Node>, rest: seq<Node>)
    requires Walk(first) == None && first <= all
    ensures Walk(all + rest) == None
  {
    assert all + rest == first + (all[|first|..] + rest);
    WalkPrefix(first, all[|first|..] + rest);
  }

  lemma ParentBefore(dump: seq<Rec>, i: nat)
    requires PreorderDump(dump) && 1 <= i < |dump|
    ensures dump[i].parent < i
  {
    ParentInChain(dump, i, Chain(dump, i - 1));
  }

  lemma {:induction false} NoWalkAfter(dump: seq<Rec>, i: nat)
    requires PreorderDump(dump) && 1 <= i < |dump| && LoopThenSibling(dump, i)
    ensures StackAfter(dump, i).Ends? && Walk(Emitted(dump, i)) == None
  {
    NoPopFails(dump, i - 2);
    NoPopFails(dump, i - 1);
    NoPopFails(dump, i);
    ParentBefore(dump, i - 1);
    SiblingEndsWalk(dump, i);
  }

  lemma {:induction false} SiblingBreaksWalk(dump: seq<Rec>, i: nat)
    requires PreorderDump(dump) && 1 <= i < |dump| && LoopThenSibling(dump, i)
    ensures Walk(AllEmitted(dump)) == None
  {
    NoPopFails(dump, |dump| - 1);
    NoWalkAfter(dump, i);
    EmittedGrows(dump, i, |dump| - 1);
    NoWalkLater(Emitted(dump, i), Emitted(dump, |dump| - 1), Remaining(StackAfter(dump, |dump| - 1).ends));
  }

  /** Main result: the insertion order of a preorder dump is the walk over its loop nest exactly when no loop is
      directly followed by a sibling. */
  lemma {:induction false} WalkIff(dump: seq<Rec>)
    requires PreorderDump(dump)
    ensures Walk(AllEmitted(dump)) == Some([]) <==> NoLoopThenSibling(dump)
  {
    if NoLoopThenSibling(dump) {
      AllEmittedIsWalk(dump);
    } else {
      var i: nat :| 1 <= i < |dump| && LoopThenSibling(dump, i);
      SiblingBreaksWalk(dump, i);
    }
  }

  // ----- popping, step by step -----

  lemma PopStep(ends: seq<Node>, p: int)
    requires |ends| > 0
    ensures var top, front := ends[|ends| - 1], ends[..|ends| - 1];
            if top.parent == p then PopTo(ends, p) == Ends(front) && PoppedEnds(ends, p) == [top]
            else PopTo(ends, p) == PopTo(front, p) && PoppedEnds(ends, p) == [top] + PoppedEnds(front, p)
  {
  }

  lemma Regroup(nodes: seq<Node>, top: Node, rest: seq<Node>)
    ensures nodes + ([top] + rest) == (nodes + [top]) + rest
  {
  }
}
