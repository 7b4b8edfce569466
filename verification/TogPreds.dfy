/** Which nodes each record of a parsed graph follows, read off the dump. */
module TogPreds {
  import opened TogDump
  import opened TogWalk
  import opened TogWiring
  import opened TogEdges

  // ----- the predecessors of a record -----

  /** The loop that record k closes last: the one around record k - 1 that is a sibling of record k. */
  function ClosedLoop(dump: seq<Rec>, k: nat): (l: nat)
    requires PreorderDump(dump) && 1 <= k < |dump| && Closes(dump, k)
    ensures l < |dump| && l in Chain(dump, k - 1) && dump[l].kind == Loop && dump[l].parent == dump[k].parent
  {
    var c := Chain(dump, k - 1);
    UpToParent(dump, k);
    ParentInChain(dump, k, c);
    assert dump[c[|UpTo(c, dump[k].parent)|]].kind == Loop;
    c[|UpTo(c, dump[k].parent)|]
  }

  lemma SiblingIsLater(dump: seq<Rec>, k: nat)
    requires PreorderDump(dump) && 1 <= k < |dump| && dump[k].parent == dump[k - 1].parent
    ensures k >= 2
  {
    ParentInChain(dump, k, Chain(dump, k - 1));
  }

  /** The ids of the nodes that record k follows. */
  function Preds(dump: seq<Rec>, k: nat): set<int>
    requires PreorderDump(dump) && 1 <= k < |dump|
    decreases k
  {
    var last, x := dump[k - 1], dump[k];
    if x.parent == last.parent then
      SiblingIsLater(dump, k);
      // a load behind a load, and a wait behind a wait, follows the same node
      if IsTransfer(x.kind) && x.kind == last.kind then Preds(dump, k - 1)
      // a compute node follows all loads and waits of the siblings right before it
      else if IsTransfer(last.kind) && x.kind == Compute then
        set j: nat | j < k && SameRun(dump, j, k - 1) && IsTransfer(dump[j].kind)
      else {k - 1}
    else if x.parent == k - 1 then {k - 1}
    else {EndOf(dump, ClosedLoop(dump, k)).id}
  }

  /** A load or a wait follows exactly one node. */
  lemma {:induction false} TransferFollowsOne(dump: seq<Rec>, k: nat) returns (p: int)
    requires PreorderDump(dump) && 1 <= k < |dump| && IsTransfer(dump[k].kind)
    ensures Preds(dump, k) == {p}
    decreases k
  {
    if dump[k].parent == dump[k - 1].parent && dump[k].kind == dump[k - 1].kind {
      SiblingIsLater(dump, k);
      p := TransferFollowsOne(dump, k - 1);
    } else if dump[k].parent == dump[k - 1].parent || dump[k].parent == k - 1 {
      p := k - 1;
    } else {
      p := EndOf(dump, ClosedLoop(dump, k)).id;
    }
  }

  // ----- the targets of the edges of one step -----

  lemma {:induction false} ChainTargets(dump: seq<Rec>, ends: seq<Node>, next: nat, id: int, k: nat)
    requires EndIds(dump, ends) && next < |dump| && k < |dump|
    ensures (id, k) in ChainEdges(ends, next) <==> k == next && |ends| > 0 && id == ends[|ends| - 1].id
    decreases |ends|
  {
    if |ends| > 0 {
      assert ends == [ends[0]] + ends[1..];
      if |ends| > 1 {
        assert ends[1] in ends;
      }
      ChainTargets(dump, ends[1..], next, id, k);
    }
  }

  lemma {:induction false} LinkedTargets(dump: seq<Rec>, first: Node, rest: seq<Node>, id: int, k: nat)
    requires EndIds(dump, rest) && k < |dump|
    ensures (id, k) !in LinkedBehind(first, rest)
    decreases |rest|
  {
    if |rest| > 0 {
      assert rest == [rest[0]] + rest[1..] && rest[0] in rest;
      LinkedTargets(dump, rest[0], rest[1..], id, k);
    }
  }

  /** The last end node popped is that of the closed sibling. */
  lemma {:induction false} PoppedLast(dump: seq<Rec>, ends: seq<Node>, c: seq<int>, p: int)
    requires Fits(dump, ends, c) && |c| > 0 && p in c && p != c[|c| - 1]
    requires forall j, k :: 0 <= j < k < |c| ==> c[j] < c[k]
    ensures var popped, u := PoppedEnds(ends, p), UpTo(c, p);
            && |popped| > 0 && |u| < |c| && 0 <= c[|u|] < |dump| && popped[|popped| - 1] == EndOf(dump, c[|u|])
    decreases |ends|
  {
    var top, front := ends[|ends| - 1], ends[..|ends| - 1];
    PopStep(ends, p);
    if top.loop == c[|c| - 1] {
      UpToFront(c, p);
      if top.parent != p {
        PoppedLast(dump, front, c[..|c| - 1], p);
      } else {
        assert UpTo(c[..|c| - 1], p) == c[..|c| - 1];
      }
    } else {
      PoppedLast(dump, front, c, p);
    }
  }

  lemma TransfersInto(dump: seq<Rec>, k: nat, id: int)
    requires 1 <= k < |dump|
    ensures (id, k) in Transfers(RunAt(dump, k - 1), k)
       <==> 0 <= id < k && SameRun(dump, id, k - 1) && IsTransfer(dump[id].kind)
  {
    var run := RunAt(dump, k - 1);
    forall u <- run
      ensures 0 <= u.id < k && u == NodeOf(dump, u.id)
    {
      RunIsMade(dump, k - 1, u);
    }
    if 0 <= id < k {
      RunHolds(dump, k - 1, id);
    }
  }

  predicate Follows(edges: Edges, p: int, k: int) {
    (p, k) in edges
  }

  /** Record k follows the nodes that the dump names. */
  ghost predicate PredsKnown(dump: seq<Rec>, edges: Edges, k: nat)
    requires PreorderDump(dump) && 1 <= k < |dump|
  {
    forall p {:trigger Follows(edges, p, k)} :: Follows(edges, p, k) <==> p in Preds(dump, k)
  }

  ghost predicate NoneInto(edges: Edges, k: nat) {
    forall p {:trigger Follows(edges, p, k)} :: !Follows(edges, p, k)
  }

  lemma SiblingInto(dump: seq<Rec>, i: nat, before: Edges, after: Edges, id: int)
    requires PreorderDump(dump) && 1 <= i < |dump| && dump[i].parent == dump[i - 1].parent
    requires (i >= 2 ==> PredsKnown(dump, before, i - 1)) && NoneInto(before, i)
    requires SiblingEdges(RunAt(dump, i - 1), NodeOf(dump, i), before, after)
    ensures Follows(after, id, i) <==> id in Preds(dump, i)
  {
    SiblingIsLater(dump, i);
    var last, x := NodeOf(dump, i - 1), NodeOf(dump, i);
    if last.kind == x.kind && IsTransfer(x.kind) {
      var p :| (p, last.id) in before && after == before + {(p, x.id)};
      var q := TransferFollowsOne(dump, i - 1);
      assert Follows(before, p, i - 1) && !Follows(before, id, i);
    } else if IsTransfer(last.kind) && x.kind == Compute {
      TransfersInto(dump, i, id);
      assert !Follows(before, id, i);
    } else {
      assert !Follows(before, id, i);
    }
  }

  /** A step adds edges into its own record and into end nodes only. */
  lemma SiblingOthers(dump: seq<Rec>, i: nat, before: Edges, after: Edges, id: int, k: nat)
    requires 1 <= i < |dump| && SiblingEdges(RunAt(dump, i - 1), NodeOf(dump, i), before, after) && k != i
    ensures Follows(after, id, k) <==> Follows(before, id, k)
  {
  }

  /** The end nodes popped by record i. */
  function PoppedAt(dump: seq<Rec>, i: nat): seq<Node>
    requires 1 <= i < |dump| && StackAfter(dump, i - 1).Ends?
  {
    PoppedEnds(StackAfter(dump, i - 1).ends, dump[i].parent)
  }

  lemma PoppedAtIds(dump: seq<Rec>, i: nat)
    requires PreorderDump(dump) && 1 <= i < |dump|
    ensures StackAfter(dump, i - 1).Ends? && EndIds(dump, PoppedAt(dump, i))
  {
    StackEndIds(dump, i - 1);
    PoppedAreEnds(StackAfter(dump, i - 1).ends, dump[i].parent);
  }

  lemma PoppedAtLast(dump: seq<Rec>, i: nat)
    requires PreorderDump(dump) && 1 <= i < |dump| && Closes(dump, i)
    ensures StackAfter(dump, i - 1).Ends?
    ensures var popped := PoppedAt(dump, i);
            |popped| > 0 && popped[|popped| - 1] == EndOf(dump, ClosedLoop(dump, i))
  {
    StackFits(dump, i - 1);
    LastOf(dump, i, StackAfter(dump, i - 1).ends, Chain(dump, i - 1));
  }

  lemma LastOf(dump: seq<Rec>, i: nat, ends: seq<Node>, c: seq<int>)
    requires PreorderDump(dump) && 1 <= i < |dump| && Closes(dump, i) && c == Chain(dump, i - 1) && Fits(dump, ends, c)
    ensures var popped := PoppedEnds(ends, dump[i].parent);
            |popped| > 0 && popped[|popped| - 1] == EndOf(dump, ClosedLoop(dump, i))
  {
    ParentInChain(dump, i, c);
    PoppedLast(dump, ends, c, dump[i].parent);
  }

  lemma PoppedInto(dump: seq<Rec>, i: nat, id: int, k: nat)
    requires PreorderDump(dump) && 1 <= i < |dump| && Closes(dump, i) && k < |dump|
    ensures StackAfter(dump, i - 1).Ends? && |PoppedAt(dump, i)| > 0 && PoppedAt(dump, i)[0].id > |dump|
    ensures (id, k) in ChainEdges(PoppedAt(dump, i), i) <==> k == i && id in Preds(dump, i)
  {
    PoppedAtLast(dump, i);
    PoppedAtIds(dump, i);
    assert PoppedAt(dump, i)[0] in PoppedAt(dump, i);
    ChainTargets(dump, PoppedAt(dump, i), i, id, k);
  }

  lemma ClosingInto(dump: seq<Rec>, i: nat, before: Edges, after: Edges, id: int, k: nat)
    requires PreorderDump(dump) && 1 <= i < |dump| && Closes(dump, i) && k < |dump|
    requires EdgesStep(dump, i, before, after)
    ensures Follows(after, id, k) <==> Follows(before, id, k) || (k == i && id in Preds(dump, i))
  {
    PoppedInto(dump, i, id, k);
  }

  lemma StepInto(dump: seq<Rec>, i: nat, before: Edges, after: Edges, id: int, k: nat)
    requires PreorderDump(dump) && 1 <= i < |dump| && 1 <= k < |dump| && EdgesStep(dump, i, before, after)
    requires (i >= 2 ==> PredsKnown(dump, before, i - 1)) && NoneInto(before, i)
    ensures Follows(after, id, k) <==> Follows(before, id, k) || (k == i && id in Preds(dump, i))
  {
    if dump[i].parent == dump[i - 1].parent {
      if k == i {
        SiblingInto(dump, i, before, after, id);
      } else {
        SiblingOthers(dump, i, before, after, id, k);
      }
    } else if dump[i].parent != i - 1 {
      ClosingInto(dump, i, before, after, id, k);
    }
  }

  lemma {:induction false} IntoAfter(dump: seq<Rec>, i: nat, edges: Edges, id: int, k: nat)
    requires PreorderDump(dump) && i < |dump| && 1 <= k < |dump| && EdgesAfter(dump, i, edges)
    ensures Follows(edges, id, k) <==> k <= i && id in Preds(dump, k)
    decreases i
  {
    if i > 0 {
      var before := EdgesBefore(dump, i, edges);
      IntoAfter(dump, i - 1, before, id, k);
      forall p
        ensures !Follows(before, p, i)
      {
        IntoAfter(dump, i - 1, before, p, i);
      }
      if i >= 2 {
        var m := i - 1;
        forall p
          ensures Follows(before, p, m) <==> p in Preds(dump, m)
        {
          IntoAfter(dump, m, before, p, m);
        }
        assert PredsKnown(dump, before, i - 1);
      }
      StepInto(dump, i, before, edges, id, k);
    }
  }

  /** Main result: the edges into a record are those from the nodes that the dump names. */
  lemma {:induction false} IntoRecord(dump: seq<Rec>, edges: Edges, id: int, k: nat)
    requires PreorderDump(dump) && 1 <= k < |dump| && AllEdges(dump, edges)
    ensures (id, k) in edges <==> id in Preds(dump, k)
  {
    var n := |dump| - 1;
    var before := EdgesBefore(dump, n + 1, edges);
    IntoAfter(dump, n, before, id, k);
    StackEndIds(dump, n);
    RemainingEndIds(dump, StackAfter(dump, n).ends);
    LinkedTargets(dump, NodeOf(dump, n), Remaining(StackAfter(dump, n).ends), id, k);
  }

  /** What the sibling or first child k follows, in terms of record k - 1 and its siblings. */
  ghost predicate RecordRule(dump: seq<Rec>, edges: Edges, k: nat, p: int)
    requires 1 <= k < |dump|
  {
    var last, x := dump[k - 1], dump[k];
    if x.parent == last.parent && IsTransfer(x.kind) && x.kind == last.kind then
      (p, k) in edges <==> (p, k - 1) in edges
    else if x.parent == last.parent && IsTransfer(last.kind) && x.kind == Compute then
      (p, k) in edges <==> 0 <= p < k && SameRun(dump, p, k - 1) && IsTransfer(dump[p].kind)
    else if x.parent == last.parent || x.parent == k - 1 then
      (p, k) in edges <==> p == k - 1
    else
      (p, k) in edges ==> p > |dump|
  }

  /** A load behind a load and a wait behind a wait share their parent, a compute node has the loads and waits of its
      siblings, any other sibling and any first child has the record before it, and all others have end nodes. */
  lemma RuleOfRecord(dump: seq<Rec>, edges: Edges, k: nat, p: int)
    requires PreorderDump(dump) && 1 <= k < |dump| && AllEdges(dump, edges)
    ensures RecordRule(dump, edges, k, p)
  {
    IntoRecord(dump, edges, p, k);
    if dump[k].parent == dump[k - 1].parent {
      SiblingIsLater(dump, k);
      IntoRecord(dump, edges, p, k - 1);
    }
  }

  /** A loop around two loads, two waits and a compute node. */
  function TwoWaits(): seq<Rec> {
    [Rec(Plain, -1), Rec(Loop, 0), Rec(Load, 1), Rec(Load, 1), Rec(Wait, 1), Rec(Wait, 1), Rec(Compute, 1)]
  }

  lemma {:induction false} TwoWaitsChain(i: nat)
    requires 1 <= i < |TwoWaits()|
    ensures Chain(TwoWaits(), i) == [0, 1] && TwoWaits()[i].parent in Chain(TwoWaits(), i - 1)
    decreases i
  {
    if i == 1 {
      assert Chain(TwoWaits(), 0) == [0] && UpTo([0], 0) == [0];
    } else {
      TwoWaitsChain(i - 1);
      assert UpTo([0, 1], 1) == [0, 1];
    }
  }

  /** Both waits follow the second load, and the compute node follows both loads and both waits. */
  lemma WaitsFollowLoad(edges: Edges)
    requires AllEdges(TwoWaits(), edges)
    ensures PreorderDump(TwoWaits())
    ensures forall p :: (Follows(edges, p, 4) <==> p == 3) && (Follows(edges, p, 5) <==> p == 3)
                     && (Follows(edges, p, 6) <==> 2 <= p <= 5)
  {
    var dump := TwoWaits();
    forall i: nat | 1 <= i < |dump|
      ensures ParentOpen(dump, i)
    {
      TwoWaitsChain(i);
    }
    forall p
      ensures (Follows(edges, p, 4) <==> p == 3) && (Follows(edges, p, 5) <==> p == 3)
      ensures Follows(edges, p, 6) <==> 2 <= p <= 5
    {
      RuleOfRecord(dump, edges, 4, p);
      RuleOfRecord(dump, edges, 5, p);
      RuleOfRecord(dump, edges, 6, p);
    }
  }
}
