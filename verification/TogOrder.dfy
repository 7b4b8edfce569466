/** The emitted node list holds every record and one end node per loop exactly once, so edges that follow
    it form no cycle. */
module TogOrder {
  import opened TogDump
  import opened TogWalk
  import opened TogWiring
  import opened Sequences

  /** The nodes made for record i. */
  function MadeAt(dump: seq<Rec>, i: nat): multiset<Node>
    requires i < |dump|
  {
    if i > 0 && dump[i].kind == Loop then multiset{NodeOf(dump, i), EndOf(dump, i)} else multiset{NodeOf(dump, i)}
  }

  /** All nodes made for the first i + 1 records. */
  function Made(dump: seq<Rec>, i: nat): multiset<Node>
    requires i < |dump|
  {
    if i == 0 then MadeAt(dump, 0) else Made(dump, i - 1) + MadeAt(dump, i)
  }

  function Times(s: seq<Node>, x: Node): nat {
    if |s| == 0 then 0 else Times(s[..|s| - 1], x) + (if s[|s| - 1] == x then 1 else 0)
  }

  lemma TimesSnoc(s: seq<Node>, y: Node, x: Node)
    ensures Times(s + [y], x) == Times(s, x) + (if y == x then 1 else 0)
  {
    assert (s + [y])[..|s|] == s;
  }

  lemma {:induction false} TimesConcat(s: seq<Node>, t: seq<Node>, x: Node)
    ensures Times(s + t, x) == Times(s, x) + Times(t, x)
    decreases |t|
  {
    if |t| == 0 {
      assert s + t == s;
    } else {
      var front, y := t[..|t| - 1], t[|t| - 1];
      assert s + t == (s + front) + [y];
      TimesSnoc(s + front, y, x);
      TimesConcat(s, front, x);
    }
  }

  lemma {:induction false} TimesIsMultiset(s: seq<Node>, x: Node)
    ensures multiset(s)[x] == Times(s, x)
    decreases |s|
  {
    if |s| > 0 {
      assert s == s[..|s| - 1] + [s[|s| - 1]];
      TimesIsMultiset(s[..|s| - 1], x);
    }
  }

  lemma {:induction false} PopConserves(ends: seq<Node>, p: int, x: Node)
    requires PopTo(ends, p).Ends?
    ensures Times(ends, x) == Times(PopTo(ends, p).ends, x) + Times(PoppedEnds(ends, p), x)
    decreases |ends|
  {
    var front, top := ends[..|ends| - 1], ends[|ends| - 1];
    PopStep(ends, p);
    TimesSnoc([], top, x);
    assert [] + [top] == [top];
    if top.parent != p {
      PopConserves(front, p, x);
      TimesConcat([top], PoppedEnds(front, p), x);
    }
  }

  lemma PoppedConserves(dump: seq<Rec>, i: nat, ends: seq<Node>, gone: seq<Node>, x: Node)
    requires 1 <= i < |dump| && PoppedFrom(dump, i, ends).Ends?
    requires gone == if Closes(dump, i) then PoppedEnds(ends, dump[i].parent) else []
    ensures Times(ends, x) == Times(PoppedFrom(dump, i, ends).ends, x) + Times(gone, x)
  {
    if Closes(dump, i) {
      PopConserves(ends, dump[i].parent, x);
    }
  }

  lemma NodesCount(nodes: seq<Node>, gone: seq<Node>, node: Node, x: Node)
    ensures Times(nodes + gone + [node], x) == Times(nodes, x) + Times(gone, x) + (if node == x then 1 else 0)
  {
    TimesConcat(nodes, gone, x);
    TimesSnoc(nodes + gone, node, x);
  }

  lemma MadeCount(dump: seq<Rec>, i: nat, top: seq<Node>, x: Node)
    requires 1 <= i < |dump| && top == if dump[i].kind == Loop then [EndOf(dump, i)] else []
    ensures MadeAt(dump, i)[x] == (if NodeOf(dump, i) == x then 1 else 0) + Times(top, x)
  {
    TimesIsMultiset(top, x);
  }

  lemma StepConserves(dump: seq<Rec>, i: nat, nodes: seq<Node>, ends: seq<Node>, x: Node)
    requires 1 <= i < |dump| && NextStack(dump, i, ends).Ends?
    ensures Times(NextNodes(dump, i, nodes, ends), x) + Times(NextStack(dump, i, ends).ends, x)
         == Times(nodes, x) + Times(ends, x) + MadeAt(dump, i)[x]
  {
    var popped := PoppedFrom(dump, i, ends).ends;
    var gone := if Closes(dump, i) then PoppedEnds(ends, dump[i].parent) else [];
    var top := if dump[i].kind == Loop then [EndOf(dump, i)] else [];
    PoppedConserves(dump, i, ends, gone, x);
    MadeCount(dump, i, top, x);
    NodesCount(nodes, gone, NodeOf(dump, i), x);
    TimesConcat(popped, top, x);
  }

  /** Emitted nodes and the stack together are all nodes made so far, for every dump. */
  lemma {:induction false} EmissionConserves(dump: seq<Rec>, i: nat, x: Node)
    requires i < |dump| && StackAfter(dump, i).Ends?
    ensures Times(Emitted(dump, i), x) + Times(StackAfter(dump, i).ends, x) == Made(dump, i)[x]
    decreases i
  {
    if i > 0 {
      EmissionConserves(dump, i - 1, x);
      StepConserves(dump, i, Emitted(dump, i - 1), StackAfter(dump, i - 1).ends, x);
    } else {
      TimesSnoc([], NodeOf(dump, 0), x);
      assert [] + [NodeOf(dump, 0)] == [NodeOf(dump, 0)];
    }
  }

  lemma {:induction false} RemainingConserves(ends: seq<Node>, x: Node)
    ensures Times(Remaining(ends), x) == Times(ends, x)
    decreases |ends|
  {
    if |ends| > 0 {
      var front, top := ends[..|ends| - 1], ends[|ends| - 1];
      RemainingConserves(front, x);
      TimesSnoc([], top, x);
      assert [] + [top] == [top];
      TimesConcat([top], Remaining(front), x);
    }
  }

  lemma AllTimes(dump: seq<Rec>, n: nat, x: Node)
    requires n < |dump| && StackAfter(dump, n).Ends?
    ensures Times(Emitted(dump, n) + Remaining(StackAfter(dump, n).ends), x) == Made(dump, n)[x]
  {
    EmissionConserves(dump, n, x);
    TimesConcat(Emitted(dump, n), Remaining(StackAfter(dump, n).ends), x);
    RemainingConserves(StackAfter(dump, n).ends, x);
  }

  lemma SameTimes(s: seq<Node>, m: multiset<Node>)
    requires forall x {:trigger Times(s, x)} :: Times(s, x) == m[x]
    ensures multiset(s) == m
  {
    forall x
      ensures multiset(s)[x] == m[x]
    {
      TimesIsMultiset(s, x);
    }
  }

  /** Main result: for every preorder dump each record and one end node per loop is emitted, once. */
  lemma {:induction false} AllEmittedIsMade(dump: seq<Rec>, nodes: seq<Node>)
    requires PreorderDump(dump) && nodes == AllEmitted(dump)
    ensures multiset(nodes) == Made(dump, |dump| - 1)
  {
    NoPopFails(dump, |dump| - 1);
    forall x
      ensures Times(nodes, x) == Made(dump, |dump| - 1)[x]
    {
      AllTimes(dump, |dump| - 1, x);
    }
    SameTimes(nodes, Made(dump, |dump| - 1));
  }

  lemma {:induction false} LoopsGrow(dump: seq<Rec>, i: nat, j: nat)
    requires i <= j <= |dump|
    ensures LoopsBefore(dump, i) <= LoopsBefore(dump, j)
    decreases j
  {
    if i < j {
      LoopsGrow(dump, i, j - 1);
    }
  }

  /** A node made for one of the first i + 1 records. */
  ghost predicate MadeFor(dump: seq<Rec>, x: Node, i: nat) {
    i < |dump| && (x == NodeOf(dump, i) || (i > 0 && dump[i].kind == Loop && x == EndOf(dump, i)))
  }

  lemma {:induction false} MadeHasSource(dump: seq<Rec>, i: nat, x: Node)
    requires i < |dump| && x in Made(dump, i)
    ensures exists k: nat :: k <= i && MadeFor(dump, x, k)
    decreases i
  {
    if MadeFor(dump, x, i) {
    } else {
      MadeHasSource(dump, i - 1, x);
    }
  }

  lemma IdsTell(dump: seq<Rec>, x: Node, i: nat, y: Node, j: nat)
    requires MadeFor(dump, x, i) && MadeFor(dump, y, j) && x.id == y.id
    ensures x == y && i == j
  {
    if x.End? && y.End? {
      if i < j {
        LoopsGrow(dump, i + 1, j);
      } else if j < i {
        LoopsGrow(dump, j + 1, i);
      }
    }
  }

  /** Different nodes have different ids. */
  lemma MadeIdsTell(dump: seq<Rec>, i: nat, x: Node, y: Node)
    requires i < |dump| && x in Made(dump, i) && y in Made(dump, i) && x.id == y.id
    ensures x == y
  {
    MadeHasSource(dump, i, x);
    MadeHasSource(dump, i, y);
    var k: nat :| k <= i && MadeFor(dump, x, k);
    var l: nat :| l <= i && MadeFor(dump, y, l);
    IdsTell(dump, x, k, y, l);
  }

  /** No node is made twice. */
  lemma {:induction false} MadeOnce(dump: seq<Rec>, i: nat, x: Node)
    requires i < |dump|
    ensures Made(dump, i)[x] <= 1
    decreases i
  {
    if i > 0 {
      MadeOnce(dump, i - 1, x);
      if x in Made(dump, i - 1) && x in MadeAt(dump, i) {
        MadeHasSource(dump, i - 1, x);
        var k: nat :| k <= i - 1 && MadeFor(dump, x, k);
        IdsTell(dump, x, k, x, i);
      }
    }
  }

  ghost predicate DistinctIds(nodes: seq<Node>) {
    forall a, b :: 0 <= a < b < |nodes| ==> nodes[a].id != nodes[b].id
  }

  lemma IdsDiffer(dump: seq<Rec>, i: nat, nodes: seq<Node>, a: nat, b: nat)
    requires i < |dump| && multiset(nodes) == Made(dump, i) && a < b < |nodes|
    ensures nodes[a].id != nodes[b].id
  {
    var x, y := nodes[a], nodes[b];
    assert x in multiset(nodes) && y in multiset(nodes);
    if x.id == y.id {
      MadeIdsTell(dump, i, x, y);
      MadeOnce(dump, i, x);
      TwiceInMultiset(nodes, a, b);
    }
  }

  /** All emitted ids are distinct: end nodes get fresh ids. */
  lemma {:induction false} MadeIdsDistinct(dump: seq<Rec>, i: nat, nodes: seq<Node>)
    requires i < |dump| && multiset(nodes) == Made(dump, i)
    ensures DistinctIds(nodes)
  {
    forall a, b | 0 <= a < b < |nodes|
      ensures nodes[a].id != nodes[b].id
    {
      IdsDiffer(dump, i, nodes, a, b);
    }
  }

  ghost predicate IsPath(edges: Edges, path: seq<int>) {
    |path| > 0 && forall k {:trigger path[k]} :: 0 < k < |path| ==> (path[k - 1], path[k]) in edges
  }

  lemma {:induction false} PathAdvances(nodes: seq<Node>, edges: Edges, path: seq<int>)
    requires Wired(nodes, edges) && DistinctIds(nodes) && IsPath(edges, path) && |path| >= 2
    ensures exists a, b :: 0 <= a < b < |nodes| && nodes[a].id == path[0] && nodes[b].id == path[|path| - 1]
    decreases |path|
  {
    var n := |path| - 1;
    assert path[n] == path[n];
    var e := (path[n - 1], path[n]);
    assert Forward(nodes, e);
    var a, b :| 0 <= a < b < |nodes| && nodes[a].id == e.0 && nodes[b].id == e.1;
    if n > 1 {
      var front := path[..n];
      assert IsPath(edges, front) by {
        forall k | 0 < k < |front|
          ensures (front[k - 1], front[k]) in edges
        {
          assert path[k] == front[k];
        }
      }
      PathAdvances(nodes, edges, front);
      var c, d :| 0 <= c < d < |nodes| && nodes[c].id == path[0] && nodes[d].id == front[n - 1];
      assert d == a;
      assert nodes[c].id == path[0] && nodes[b].id == path[n];
    }
  }

  /** No path leads back to where it starts. */
  ghost predicate Acyclic(edges: Edges) {
    forall path {:trigger IsPath(edges, path)} :: IsPath(edges, path) && |path| >= 2 ==> path[0] != path[|path| - 1]
  }

  /** Main result: edges that follow the insertion order of the made nodes form no cycle. */
  lemma {:induction false} NoCycle(dump: seq<Rec>, nodes: seq<Node>, edges: Edges)
    requires |dump| > 0 && multiset(nodes) == Made(dump, |dump| - 1) && Wired(nodes, edges)
    ensures Acyclic(edges)
  {
    MadeIdsDistinct(dump, |dump| - 1, nodes);
    forall path | IsPath(edges, path) && |path| >= 2
      ensures path[0] != path[|path| - 1]
    {
      PathAdvances(nodes, edges, path);
    }
  }
}
