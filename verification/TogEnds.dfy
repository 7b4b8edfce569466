/** Which nodes the end nodes of a parsed graph follow, read off the emission order. */
module TogEnds {
  import opened TogDump
  import opened TogWalk
  import opened TogWiring
  import opened TogOrder
  import opened TogEdges
  import opened TogPreds

  /** What an end node follows, given the node emitted before it: that node, and when it is the last record of a
      closed body, also its siblings going back for as long as loads are passed. */
  predicate LeadsIn(dump: seq<Rec>, prev: Node, u: int) {
    if prev.End? || prev.id < 0 || prev.id + 1 >= |dump| then u == prev.id
    else u >= 0 && SameRun(dump, u, prev.id) && LoadsBehind(dump, u, prev.id)
  }

  // ----- edges into the nodes of a chain -----

  lemma {:induction false} ChainAt(ends: seq<Node>, next: int, u: int, m: nat)
    requires DistinctIds(ends) && m < |ends| && forall x <- ends :: x.id != next
    ensures Follows(ChainEdges(ends, next), u, ends[m].id) <==> m > 0 && u == ends[m - 1].id
    decreases |ends|
  {
    assert ends == [ends[0]] + ends[1..] && ends[m] in ends;
    if m == 0 {
      ChainMisses(ends[1..], next, u, ends[0].id);
    } else {
      ChainAt(ends[1..], next, u, m - 1);
    }
  }

  /** No edge leads to an id that is neither the next one nor behind the first node. */
  lemma {:induction false} ChainMisses(ends: seq<Node>, next: int, u: int, v: int)
    requires v != next && forall k :: 1 <= k < |ends| ==> ends[k].id != v
    ensures !Follows(ChainEdges(ends, next), u, v)
    decreases |ends|
  {
    if |ends| > 0 {
      ChainMisses(ends[1..], next, u, v);
    }
  }

  lemma {:induction false} LinkedAt(first: Node, rest: seq<Node>, u: int, m: nat)
    requires DistinctIds(rest) && m < |rest|
    ensures Follows(LinkedBehind(first, rest), u, rest[m].id) <==> u == ([first] + rest)[m].id
    decreases |rest|
  {
    assert rest == [rest[0]] + rest[1..];
    if m == 0 {
      LinkedMisses(rest[0], rest[1..], u, rest[0].id);
    } else {
      LinkedAt(rest[0], rest[1..], u, m - 1);
      assert ([rest[0]] + rest[1..])[m - 1] == ([first] + rest)[m];
    }
  }

  lemma {:induction false} LinkedMisses(first: Node, rest: seq<Node>, u: int, v: int)
    requires forall k :: 0 <= k < |rest| ==> rest[k].id != v
    ensures !Follows(LinkedBehind(first, rest), u, v)
    decreases |rest|
  {
    if |rest| > 0 {
      LinkedMisses(rest[0], rest[1..], u, v);
    }
  }

  lemma FanInto(dump: seq<Rec>, i: nat, t: int, u: int)
    requires i < |dump|
    ensures Follows(FanIn(LastRun(RunAt(dump, i)), t), u, t)
       <==> u >= 0 && SameRun(dump, u, i) && LoadsBehind(dump, u, i)
  {
    var us := LastRun(RunAt(dump, i));
    forall x <- us
      ensures 0 <= x.id <= i && x == NodeOf(dump, x.id)
    {
      LastRunSubset(RunAt(dump, i), x);
      RunIsMade(dump, i, x);
    }
    if 0 <= u <= i {
      LastRunHolds(dump, i, u);
    }
  }

  // ----- all emitted ids are distinct, and edges lead to emitted nodes -----

  lemma {:induction false} EmittedDistinct(dump: seq<Rec>, i: nat)
    requires i < |dump| && StackAfter(dump, i).Ends?
    ensures DistinctIds(Emitted(dump, i))
  {
    var front, ends := Emitted(dump, i), StackAfter(dump, i).ends;
    forall x
      ensures Times(front + ends, x) == Made(dump, i)[x]
    {
      EmissionConserves(dump, i, x);
      TimesConcat(front, ends, x);
    }
    SameTimes(front + ends, Made(dump, i));
    MadeIdsDistinct(dump, i, front + ends);
    DistinctPrefix(front, ends);
  }

  lemma DistinctPrefix(front: seq<Node>, rest: seq<Node>)
    requires DistinctIds(front + rest)
    ensures DistinctIds(front) && DistinctIds(rest)
    ensures forall a, b :: 0 <= a < |front| && 0 <= b < |rest| ==> front[a].id != rest[b].id
  {
    var all := front + rest;
    assert forall a :: 0 <= a < |front| ==> all[a] == front[a];
    assert forall b :: 0 <= b < |rest| ==> all[|front| + b] == rest[b];
  }

  ghost predicate AmongIds(nodes: seq<Node>, v: int) {
    exists a :: 0 <= a < |nodes| && nodes[a].id == v
  }

  lemma NotBefore(front: seq<Node>, rest: seq<Node>, m: nat)
    requires m < |rest| && forall a, b :: 0 <= a < |front| && 0 <= b < |rest| ==> front[a].id != rest[b].id
    ensures !AmongIds(front, rest[m].id)
  {
  }

  lemma AmongMore(nodes: seq<Node>, more: seq<Node>, v: int)
    ensures AmongIds(nodes + more, v) <==> AmongIds(nodes, v) || AmongIds(more, v)
  {
    var all := nodes + more;
    if AmongIds(nodes, v) {
      var a :| 0 <= a < |nodes| && nodes[a].id == v;
      assert all[a].id == v;
    }
    if AmongIds(more, v) {
      var a :| 0 <= a < |more| && more[a].id == v;
      assert all[|nodes| + a].id == v;
    }
  }

  /** A step adds edges into its own record and into the end nodes that it pops. */
  lemma StepTargets(dump: seq<Rec>, i: nat, before: Edges, after: Edges, u: int, v: int)
    requires 1 <= i < |dump| && EdgesStep(dump, i, before, after)
    requires PoppedFrom(dump, i, StackAfter(dump, i - 1).ends).Ends?
    requires v != i && !(Closes(dump, i) && AmongIds(PoppedAt(dump, i), v))
    ensures Follows(after, u, v) <==> Follows(before, u, v)
  {
    if Closes(dump, i) {
      var popped := PoppedAt(dump, i);
      PoppedAreEnds(StackAfter(dump, i - 1).ends, dump[i].parent);
      assert forall k :: 0 <= k < |popped| ==> popped[k].id != v;
      ChainMisses(popped, i, u, v);
    }
  }

  /** What record i emits. */
  lemma {:induction false} EmittedStep(dump: seq<Rec>, i: nat) returns (front: seq<Node>, gone: seq<Node>)
    requires PreorderDump(dump) && 1 <= i < |dump|
    ensures StackAfter(dump, i - 1).Ends? && StackAfter(dump, i).Ends?
    ensures front == Emitted(dump, i - 1) && |front| > 0 && front[|front| - 1] == NodeOf(dump, i - 1)
    ensures gone == (if Closes(dump, i) then PoppedAt(dump, i) else [])
    ensures Emitted(dump, i) == front + (gone + [NodeOf(dump, i)])
  {
    NoPopFails(dump, i - 1);
    NoPopFails(dump, i);
    front, gone := Emitted(dump, i - 1), if Closes(dump, i) then PoppedAt(dump, i) else [];
    LastEmitted(dump, i - 1);
    assert front + gone + [NodeOf(dump, i)] == front + (gone + [NodeOf(dump, i)]);
  }

  lemma {:induction false} LastEmitted(dump: seq<Rec>, i: nat)
    requires i < |dump| && StackAfter(dump, i).Ends?
    ensures |Emitted(dump, i)| > 0 && Emitted(dump, i)[|Emitted(dump, i)| - 1] == NodeOf(dump, i)
  {
    if i > 0 {
      var before := EmittedLast(dump, i);
    }
  }

  lemma {:induction false} TargetsEmitted(dump: seq<Rec>, i: nat, edges: Edges, u: int, v: int)
    requires PreorderDump(dump) && i < |dump| && EdgesAfter(dump, i, edges) && Follows(edges, u, v)
    ensures StackAfter(dump, i).Ends? && AmongIds(Emitted(dump, i), v)
    decreases i
  {
    NoPopFails(dump, i);
    if i > 0 {
      var before := EdgesBefore(dump, i, edges);
      var front, gone := EmittedStep(dump, i);
      AmongMore(front, gone + [NodeOf(dump, i)], v);
      AmongMore(gone, [NodeOf(dump, i)], v);
      if Follows(before, u, v) {
        TargetsEmitted(dump, i - 1, before, u, v);
      } else if v == i {
        assert [NodeOf(dump, i)][0].id == v;
      } else if !AmongIds(gone, v) {
        StepTargets(dump, i, before, edges, u, v);
      }
    }
  }

  /** An edge into a popped end node comes from the run before, or from the end node popped before it. */
  lemma PoppedSources(us: seq<Node>, popped: seq<Node>, next: int, before: Edges, u: int, m: nat)
    requires DistinctIds(popped) && m < |popped| && forall x <- popped :: x.id != next
    requires !Follows(before, u, popped[m].id)
    ensures Follows(before + FanIn(us, popped[0].id) + ChainEdges(popped, next), u, popped[m].id)
       <==> if m == 0 then Follows(FanIn(us, popped[0].id), u, popped[0].id) else u == popped[m - 1].id
  {
    ChainAt(popped, next, u, m);
  }

  /** The edges that a closing record adds into an end node. */
  lemma ClosingAt(dump: seq<Rec>, i: nat, before: Edges, after: Edges, u: int, m: nat)
    requires PreorderDump(dump) && 1 <= i < |dump| && Closes(dump, i) && EdgesStep(dump, i, before, after)
    requires m < |PoppedAt(dump, i)| && DistinctIds(PoppedAt(dump, i))
    requires !Follows(before, u, PoppedAt(dump, i)[m].id)
    ensures var popped := PoppedAt(dump, i);
            Follows(after, u, popped[m].id)
            <==> LeadsIn(dump, if m == 0 then NodeOf(dump, i - 1) else popped[m - 1], u)
  {
    var popped := PoppedAt(dump, i);
    PoppedAtIds(dump, i);
    assert forall x <- popped :: x.id != i;
    PoppedSources(LastRun(RunAt(dump, i - 1)), popped, i, before, u, m);
    if m == 0 {
      FanInto(dump, i - 1, popped[0].id, u);
    } else {
      assert popped[m - 1] in popped;
    }
  }

  /** The rule holds for an end node of the list after record i. */
  ghost predicate RuleAt(dump: seq<Rec>, nodes: seq<Node>, edges: Edges, a: nat, u: int)
    requires 1 <= a < |nodes|
  {
    nodes[a].End? ==> (Follows(edges, u, nodes[a].id) <==> LeadsIn(dump, nodes[a - 1], u))
  }

  lemma {:induction false} RuleAfter(dump: seq<Rec>, i: nat, edges: Edges, a: nat, u: int)
    requires PreorderDump(dump) && i < |dump| && EdgesAfter(dump, i, edges)
    requires StackAfter(dump, i).Ends? && 1 <= a < |Emitted(dump, i)|
    ensures RuleAt(dump, Emitted(dump, i), edges, a, u)
    decreases i
  {
    if i > 0 {
      var before := EdgesBefore(dump, i, edges);
      var front, gone := EmittedStep(dump, i);
      EmittedDistinct(dump, i);
      var rest := gone + [NodeOf(dump, i)];
      DistinctPrefix(front, rest);
      DistinctPrefix(gone, [NodeOf(dump, i)]);
      if a < |front| {
        RuleAfter(dump, i - 1, before, a, u);
        RuleStays(dump, i, before, edges, front, gone, a, u);
      } else if a - |front| < |gone| {
        var m := a - |front|;
        NotBefore(front, rest, m);
        if Follows(before, u, gone[m].id) {
          TargetsEmitted(dump, i - 1, before, u, gone[m].id);
        }
        ClosingAt(dump, i, before, edges, u, m);
      }
    }
  }

  lemma RuleStays(dump: seq<Rec>, i: nat, before: Edges, after: Edges, front: seq<Node>, gone: seq<Node>, a: nat,
                  u: int)
    requires PreorderDump(dump) && 1 <= i < |dump| && EdgesStep(dump, i, before, after) && 1 <= a < |front|
    requires PoppedFrom(dump, i, StackAfter(dump, i - 1).ends).Ends?
    requires gone == if Closes(dump, i) then PoppedAt(dump, i) else []
    requires forall c, b :: 0 <= c < |front| && 0 <= b < |gone + [NodeOf(dump, i)]| ==>
               front[c].id != (gone + [NodeOf(dump, i)])[b].id
    requires RuleAt(dump, front, before, a, u)
    ensures RuleAt(dump, front + (gone + [NodeOf(dump, i)]), after, a, u)
  {
    var rest := gone + [NodeOf(dump, i)];
    assert rest[|gone|].id == i;
    assert forall b :: 0 <= b < |gone| ==> rest[b] == gone[b];
    StepTargets(dump, i, before, after, u, front[a].id);
  }

  /** Main result: the edges into an end node are those from the nodes that the emission order names. */
  lemma {:induction false} IntoEnd(dump: seq<Rec>, edges: Edges, a: nat, u: int)
    requires PreorderDump(dump) && AllEdges(dump, edges) && 1 <= a < |AllEmitted(dump)|
    ensures RuleAt(dump, AllEmitted(dump), edges, a, u)
  {
    var n := |dump| - 1;
    var before := EdgesBefore(dump, n + 1, edges);
    NoPopFails(dump, n);
    var front, rest := Emitted(dump, n), Remaining(StackAfter(dump, n).ends);
    AllDistinct(dump, n);
    DistinctPrefix(front, rest);
    LastEmitted(dump, n);
    if a < |front| {
      RuleAfter(dump, n, before, a, u);
      LinkedMisses(NodeOf(dump, n), rest, u, front[a].id);
    } else {
      NotBefore(front, rest, a - |front|);
      if Follows(before, u, rest[a - |front|].id) {
        TargetsEmitted(dump, n, before, u, rest[a - |front|].id);
      }
      var m := a - |front|;
      LinkedAt(NodeOf(dump, n), rest, u, m);
      StackEndIds(dump, n);
      RemainingEndIds(dump, StackAfter(dump, n).ends);
      assert m > 0 ==> rest[m - 1] in rest;
      assert AllEmitted(dump)[a - 1] == ([NodeOf(dump, n)] + rest)[m];
    }
  }

  /** The nodes emitted by the records and those left at the end have distinct ids. */
  lemma {:induction false} AllDistinct(dump: seq<Rec>, n: nat)
    requires n < |dump| && StackAfter(dump, n).Ends?
    ensures DistinctIds(Emitted(dump, n) + Remaining(StackAfter(dump, n).ends))
  {
    var all := Emitted(dump, n) + Remaining(StackAfter(dump, n).ends);
    forall x
      ensures Times(all, x) == Made(dump, n)[x]
    {
      AllTimes(dump, n, x);
    }
    SameTimes(all, Made(dump, n));
    MadeIdsDistinct(dump, n, all);
  }
}
