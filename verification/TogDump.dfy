/** Preorder dumps of a tile operation graph, and the loop-end stack that parsing them builds. */
module TogDump {
  datatype Kind = Plain | Load | Wait | Compute | Loop

  /** One dumped node; its id is its position, its parent the id of the enclosing loop or of the root. */
  datatype Rec = Rec(kind: Kind, parent: int)

  /** A created node, or the end node of a loop. */
  datatype Node = Node(id: int, kind: Kind, parent: int) | End(id: int, loop: int, parent: int)

  /** The ids that may still take children after record i: the root and the open loops. */
  function Chain(dump: seq<Rec>, i: nat): (c: seq<int>)
    requires i < |dump|
  {
    if i == 0 then [0]
    else UpTo(Chain(dump, i - 1), dump[i].parent) + (if dump[i].kind == Loop then [i] else [])
  }

  /** The part of a chain that stays open when the next node has parent p. */
  function UpTo(chain: seq<int>, p: int): seq<int> {
    if |chain| == 0 then []
    else if chain[|chain| - 1] == p then chain
    else UpTo(chain[..|chain| - 1], p)
  }

  predicate ParentOpen(dump: seq<Rec>, i: nat)
    requires 1 <= i < |dump|
  {
    dump[i].parent in Chain(dump, i - 1)
  }

  /** The dump lists a tree in preorder: every parent is still open when its child appears. */
  predicate PreorderDump(dump: seq<Rec>) {
    && |dump| > 0 && dump[0].kind == Plain && dump[0].parent == -1
    && forall i: nat {:trigger ParentOpen(dump, i)} :: 1 <= i < |dump| ==> ParentOpen(dump, i)
  }

  predicate LoopThenSibling(dump: seq<Rec>, i: nat)
    requires 1 <= i < |dump|
  {
    dump[i - 1].kind == Loop && dump[i].parent == dump[i - 1].parent
  }

  /** No loop node is directly followed by a node with the same parent. */
  predicate NoLoopThenSibling(dump: seq<Rec>) {
    forall i: nat {:trigger LoopThenSibling(dump, i)} :: 1 <= i < |dump| ==> !LoopThenSibling(dump, i)
  }

  datatype Stack = Crash | Ends(ends: seq<Node>)

  /** Popping until the end node of a child of p was popped. */
  function PopTo(ends: seq<Node>, p: int): Stack {
    if |ends| == 0 then Crash
    else if ends[|ends| - 1].parent == p then Ends(ends[..|ends| - 1])
    else PopTo(ends[..|ends| - 1], p)
  }

  /** How many loops the first i records contain. */
  function LoopsBefore(dump: seq<Rec>, i: nat): nat
    requires i <= |dump|
  {
    if i == 0 then 0 else LoopsBefore(dump, i - 1) + (if dump[i - 1].kind == Loop then 1 else 0)
  }

  /** The end node made for loop i. */
  function EndOf(dump: seq<Rec>, i: nat): Node
    requires i < |dump|
  {
    End(|dump| + 1 + LoopsBefore(dump, i), i, dump[i].parent)
  }

  /** The stack after the pops of record i, given the stack before. */
  function PoppedFrom(dump: seq<Rec>, i: nat, ends: seq<Node>): Stack
    requires 1 <= i < |dump|
  {
    if dump[i].parent == dump[i - 1].parent || dump[i].parent == i - 1 then Ends(ends)
    else PopTo(ends, dump[i].parent)
  }

  /** The stack after record i, given the stack before. */
  function NextStack(dump: seq<Rec>, i: nat, ends: seq<Node>): Stack
    requires 1 <= i < |dump|
  {
    var popped := PoppedFrom(dump, i, ends);
    if popped == Crash then Crash
    else Ends(popped.ends + (if dump[i].kind == Loop then [EndOf(dump, i)] else []))
  }

  /** loop_end_stack after record i. */
  function StackAfter(dump: seq<Rec>, i: nat): Stack
    requires i < |dump|
  {
    if i == 0 then Ends([])
    else
      var before := StackAfter(dump, i - 1);
      if before == Crash then Crash else NextStack(dump, i, before.ends)
  }

  ghost predicate IsEndOf(dump: seq<Rec>, end: Node, i: int) {
    0 <= i < |dump| && end == EndOf(dump, i)
  }

  /** The end nodes of the loops of a chain, innermost last. */
  ghost predicate EndsOfChain(dump: seq<Rec>, ends: seq<Node>, c: seq<int>) {
    && |ends| + 1 == |c|
    && forall j {:trigger ends[j]} :: 0 <= j < |ends| ==> IsEndOf(dump, ends[j], c[j + 1])
  }

  /** The stack holds exactly the end nodes of the open loops. */
  ghost predicate StackIsChain(dump: seq<Rec>, i: nat)
    requires i < |dump|
  {
    StackAfter(dump, i).Ends? && EndsOfChain(dump, StackAfter(dump, i).ends, Chain(dump, i))
  }

  lemma {:induction false} UpToPrefix(chain: seq<int>, p: int)
    requires p in chain
    ensures var u := UpTo(chain, p);
            0 < |u| <= |chain| && u == chain[..|u|] && u[|u| - 1] == p
    decreases |chain|
  {
    if chain[|chain| - 1] != p {
      var front := chain[..|chain| - 1];
      UpToPrefix(front, p);
    }
  }

  /** Chains start at the root, only grow by larger ids, and link each loop to its parent. */
  ghost predicate Increasing(c: seq<int>, top: int) {
    && |c| > 0 && c[0] == 0
    && (forall j :: 0 <= j < |c| ==> 0 <= c[j] <= top)
    && (forall j, k :: 0 <= j < k < |c| ==> c[j] < c[k])
  }

  ghost predicate Linked(dump: seq<Rec>, c: seq<int>)
    requires forall j :: 0 <= j < |c| ==> 0 <= c[j] < |dump|
  {
    forall j {:trigger dump[c[j]]} :: 1 <= j < |c| ==> dump[c[j]].kind == Loop && dump[c[j]].parent == c[j - 1]
  }

  ghost predicate ChainShape(dump: seq<Rec>, i: nat)
    requires i < |dump|
  {
    var c := Chain(dump, i);
    && Increasing(c, i) && Linked(dump, c)
    && c[|c| - 1] == if dump[i].kind == Loop || i == 0 then i else dump[i].parent
  }

  lemma ShapeStep(dump: seq<Rec>, c: seq<int>, u: seq<int>, next: seq<int>, i: nat)
    requires 1 <= i < |dump| && Increasing(c, i - 1) && Linked(dump, c)
    requires 0 < |u| <= |c| && u == c[..|u|] && u[|u| - 1] == dump[i].parent
    requires next == u + (if dump[i].kind == Loop then [i] else [])
    ensures Increasing(next, i) && Linked(dump, next)
    ensures next[|next| - 1] == if dump[i].kind == Loop then i else dump[i].parent
  {
    assert forall j :: 0 <= j < |u| ==> u[j] == c[j];
  }

  lemma {:induction false} ChainHasShape(dump: seq<Rec>, i: nat)
    requires PreorderDump(dump) && i < |dump|
    ensures ChainShape(dump, i)
    decreases i
  {
    if i > 0 {
      ChainHasShape(dump, i - 1);
      assert ParentOpen(dump, i);
      var c, p := Chain(dump, i - 1), dump[i].parent;
      UpToPrefix(c, p);
      ShapeStep(dump, c, UpTo(c, p), Chain(dump, i), i);
    }
  }

  /** Popping stops at the end node of the open child of p. */
  lemma {:induction false} PopToChild(ends: seq<Node>, j: nat)
    requires j < |ends|
    requires forall k :: j < k < |ends| ==> ends[k].parent != ends[j].parent
    ensures PopTo(ends, ends[j].parent) == Ends(ends[..j])
    decreases |ends|
  {
    if j < |ends| - 1 {
      var front := ends[..|ends| - 1];
      PopToChild(front, j);
      assert front[..j] == ends[..j];
    }
  }

  lemma EndParents(dump: seq<Rec>, ends: seq<Node>, c: seq<int>, top: int)
    requires Increasing(c, top) && top < |dump| && Linked(dump, c) && EndsOfChain(dump, ends, c)
    ensures forall k :: 0 <= k < |ends| ==> ends[k].parent == c[k]
  {
    forall k | 0 <= k < |ends|
      ensures ends[k].parent == c[k]
    {
      assert IsEndOf(dump, ends[k], c[k + 1]);
      assert dump[c[k + 1]].parent == c[k];
    }
  }

  lemma EndsPrefix(dump: seq<Rec>, ends: seq<Node>, c: seq<int>, n: nat)
    requires EndsOfChain(dump, ends, c) && n <= |ends|
    ensures EndsOfChain(dump, ends[..n], c[..n + 1])
  {
    forall j | 0 <= j < n
      ensures IsEndOf(dump, ends[..n][j], c[..n + 1][j + 1])
    {
      assert IsEndOf(dump, ends[j], c[j + 1]);
    }
  }

  /** Popping to p leaves the end nodes of the part of the chain up to p. */
  lemma PopToIsUpTo(dump: seq<Rec>, ends: seq<Node>, c: seq<int>, top: int, p: int)
    requires Increasing(c, top) && top < |dump| && Linked(dump, c) && EndsOfChain(dump, ends, c)
    requires p in c && p != c[|c| - 1]
    ensures PopTo(ends, p).Ends? && EndsOfChain(dump, PopTo(ends, p).ends, UpTo(c, p))
  {
    UpToPrefix(c, p);
    var j := |UpTo(c, p)| - 1;
    assert c[j] == p;
    EndParents(dump, ends, c, top);
    PopToChild(ends, j);
    EndsPrefix(dump, ends, c, j);
  }

  lemma PushEnd(dump: seq<Rec>, ends: seq<Node>, c: seq<int>, i: nat)
    requires i < |dump| && EndsOfChain(dump, ends, c)
    ensures EndsOfChain(dump, ends + [EndOf(dump, i)], c + [i])
  {
    var ends', c' := ends + [EndOf(dump, i)], c + [i];
    forall j | 0 <= j < |ends'|
      ensures IsEndOf(dump, ends'[j], c'[j + 1])
    {
      if j < |ends| {
        assert IsEndOf(dump, ends[j], c[j + 1]);
      }
    }
  }

  /** The prefix of the chain that ends at the parent, and where that is the whole chain. */
  lemma UpToParent(dump: seq<Rec>, i: nat)
    requires PreorderDump(dump) && 1 <= i < |dump|
    ensures ChainShape(dump, i - 1) && dump[i].parent in Chain(dump, i - 1)
    ensures var c, p := Chain(dump, i - 1), dump[i].parent;
            var u := UpTo(c, p);
            && 0 < |u| <= |c| && u == c[..|u|] && u[|u| - 1] == p
            && (p == c[|c| - 1] ==> u == c)
            && (p != c[|c| - 1] ==> |u| < |c|)
  {
    ChainHasShape(dump, i - 1);
    assert ParentOpen(dump, i);
    UpToPrefix(Chain(dump, i - 1), dump[i].parent);
    UpToTop(Chain(dump, i - 1), |UpTo(Chain(dump, i - 1), dump[i].parent)|);
  }

  lemma PoppedIsUpTo(dump: seq<Rec>, i: nat, ends: seq<Node>, c: seq<int>)
    requires PreorderDump(dump) && 1 <= i < |dump| && c == Chain(dump, i - 1) && EndsOfChain(dump, ends, c)
    requires !LoopThenSibling(dump, i)
    ensures PoppedFrom(dump, i, ends).Ends?
    ensures EndsOfChain(dump, PoppedFrom(dump, i, ends).ends, UpTo(c, dump[i].parent))
  {
    UpToParent(dump, i);
    if dump[i].parent != c[|c| - 1] {
      PopToIsUpTo(dump, ends, c, i - 1, dump[i].parent);
    }
  }

  /** One record keeps the stack equal to the chain, unless it is a sibling that directly follows a loop. */
  lemma StackStep(dump: seq<Rec>, i: nat)
    requires PreorderDump(dump) && 1 <= i < |dump| && StackIsChain(dump, i - 1)
    ensures StackAfter(dump, i).Ends?
    ensures StackIsChain(dump, i) <==> !LoopThenSibling(dump, i)
  {
    var ends, c := StackAfter(dump, i - 1).ends, Chain(dump, i - 1);
    if LoopThenSibling(dump, i) {
      UpToParent(dump, i);
    } else {
      PoppedIsUpTo(dump, i, ends, c);
      var popped, u := PoppedFrom(dump, i, ends).ends, UpTo(c, dump[i].parent);
      PushEnd(dump, popped, u, i);
      assert popped + [] == popped && u + [] == u;
    }
  }

  /** In a chain of increasing ids an id has one place. */
  lemma UpToTop(c: seq<int>, n: nat)
    requires 0 < n <= |c| && forall j, k :: 0 <= j < k < |c| ==> c[j] < c[k]
    ensures c[n - 1] == c[|c| - 1] ==> n == |c|
  {
  }

  /** Main result: the stack is the chain of open loops throughout, exactly when no loop is directly
      followed by a sibling. (An empty loop that is the last child is closed correctly.) */
  lemma {:induction false} StackIsAlwaysChain(dump: seq<Rec>)
    requires PreorderDump(dump)
    ensures (forall i: nat :: i < |dump| ==> StackIsChain(dump, i)) <==> NoLoopThenSibling(dump)
  {
    if NoLoopThenSibling(dump) {
      for i := 0 to |dump|
        invariant forall k: nat :: k < i ==> StackIsChain(dump, k)
      {
        if i > 0 {
          StackStep(dump, i);
        }
      }
    } else {
      var i: nat :| 1 <= i < |dump| && LoopThenSibling(dump, i);
      if StackIsChain(dump, i - 1) {
        StackStep(dump, i);
      }
    }
  }

  // ----- every dump: the stack with the end nodes of empty loops -----

  ghost predicate IsLoopEnd(dump: seq<Rec>, end: Node) {
    end.End? && 0 < end.loop < |dump| && dump[end.loop].kind == Loop && end == EndOf(dump, end.loop)
  }

  /** The end node of an empty loop that a sibling follows: it stays on the stack. */
  predicate Stale(dump: seq<Rec>, end: Node) {
    end.End? && 0 <= end.loop < |dump| - 1 && LoopThenSibling(dump, end.loop + 1)
  }

  /** From the top: each end node closes the last loop of the chain, or is a stale one from the body of that loop. */
  ghost predicate Fits(dump: seq<Rec>, ends: seq<Node>, c: seq<int>) {
    if |ends| == 0 then |c| == 1
    else
      var top, front := ends[|ends| - 1], ends[..|ends| - 1];
      && |c| > 0 && IsLoopEnd(dump, top)
      && if top.loop == c[|c| - 1] then |c| > 1 && top.parent == c[|c| - 2] && Fits(dump, front, c[..|c| - 1])
         else Stale(dump, top) && top.parent == c[|c| - 1] && Fits(dump, front, c)
  }

  lemma UpToFront(c: seq<int>, p: int)
    requires |c| > 0 && p != c[|c| - 1]
    ensures UpTo(c, p) == UpTo(c[..|c| - 1], p)
  {
  }

  /** Popping to an outer loop of the chain ends there. */
  lemma {:induction false} PopFits(dump: seq<Rec>, ends: seq<Node>, c: seq<int>, p: int)
    requires Fits(dump, ends, c) && |c| > 0 && p in c && p != c[|c| - 1]
    requires forall j, k :: 0 <= j < k < |c| ==> c[j] < c[k]
    ensures PopTo(ends, p).Ends? && Fits(dump, PopTo(ends, p).ends, UpTo(c, p))
    decreases |ends|
  {
    var top, front := ends[|ends| - 1], ends[..|ends| - 1];
    if top.loop == c[|c| - 1] {
      var inner := c[..|c| - 1];
      UpToFront(c, p);
      if top.parent != p {
        PopFits(dump, front, inner, p);
      }
    } else {
      PopFits(dump, front, c, p);
    }
  }

  lemma PushFits(dump: seq<Rec>, ends: seq<Node>, u: seq<int>, i: nat)
    requires 0 < i < |dump| && dump[i].kind == Loop
    requires Fits(dump, ends, u) && |u| > 0 && u[|u| - 1] == dump[i].parent
    ensures Fits(dump, ends + [EndOf(dump, i)], u + [i])
  {
    assert (ends + [EndOf(dump, i)])[..|ends|] == ends && (u + [i])[..|u|] == u;
  }

  /** After an empty loop with a sibling behind it the loop is closed, but its end node stays. */
  lemma StayFits(dump: seq<Rec>, ends: seq<Node>, u: seq<int>, i: nat)
    requires 2 <= i < |dump| && LoopThenSibling(dump, i) && |u| > 0 && u[|u| - 1] == dump[i].parent
    requires dump[i].parent < i - 1
    requires |ends| > 0 && ends[|ends| - 1] == EndOf(dump, i - 1) && Fits(dump, ends, u + [i - 1])
    ensures Fits(dump, ends, u)
  {
    assert (u + [i - 1])[..|u|] == u;
  }

  lemma {:induction false} TopAfterLoop(dump: seq<Rec>, i: nat)
    requires 1 <= i < |dump| && StackAfter(dump, i).Ends? && dump[i].kind == Loop
    ensures var ends := StackAfter(dump, i).ends; |ends| > 0 && ends[|ends| - 1] == EndOf(dump, i)
  {
  }

  /** The part of the chain that stays open, where the stack is not popped. */
  lemma KeptFits(dump: seq<Rec>, i: nat, ends: seq<Node>, c: seq<int>)
    requires PreorderDump(dump) && 1 <= i < |dump| && c == Chain(dump, i - 1) && Fits(dump, ends, c)
    requires LoopThenSibling(dump, i) && |ends| > 0 && ends[|ends| - 1] == EndOf(dump, i - 1)
    ensures Fits(dump, ends, UpTo(c, dump[i].parent))
  {
    UpToParent(dump, i);
    var p := dump[i].parent;
    assert c[|c| - 1] == i - 1 && c[|c| - 2] == p;
    UpToFront(c, p);
    assert c == c[..|c| - 1] + [i - 1];
    StayFits(dump, ends, c[..|c| - 1], i);
  }

  lemma ParentInChain(dump: seq<Rec>, i: nat, c: seq<int>)
    requires PreorderDump(dump) && 1 <= i < |dump| && c == Chain(dump, i - 1)
    ensures Increasing(c, i - 1) && dump[i].parent in c
    ensures c[|c| - 1] == if dump[i - 1].kind == Loop || i == 1 then i - 1 else dump[i - 1].parent
  {
    ChainHasShape(dump, i - 1);
    assert ParentOpen(dump, i);
  }

  lemma OuterFits(dump: seq<Rec>, i: nat, ends: seq<Node>, c: seq<int>)
    requires 1 <= i < |dump| && Fits(dump, ends, c) && Increasing(c, i - 1) && dump[i].parent in c
    requires c[|c| - 1] == if dump[i - 1].kind == Loop || i == 1 then i - 1 else dump[i - 1].parent
    requires !LoopThenSibling(dump, i) && dump[0].kind == Plain && dump[0].parent == -1
    ensures PoppedFrom(dump, i, ends).Ends?
    ensures Fits(dump, PoppedFrom(dump, i, ends).ends, UpTo(c, dump[i].parent))
  {
    if dump[i].parent != c[|c| - 1] {
      PopFits(dump, ends, c, dump[i].parent);
    }
  }

  /** The stack before a push fits the part of the chain up to the parent of record i. */
  lemma PoppedFits(dump: seq<Rec>, i: nat, ends: seq<Node>, c: seq<int>)
    requires PreorderDump(dump) && 1 <= i < |dump| && c == Chain(dump, i - 1) && Fits(dump, ends, c)
    requires dump[i - 1].kind == Loop ==> |ends| > 0 && ends[|ends| - 1] == EndOf(dump, i - 1)
    ensures PoppedFrom(dump, i, ends).Ends?
    ensures Fits(dump, PoppedFrom(dump, i, ends).ends, UpTo(c, dump[i].parent))
  {
    if LoopThenSibling(dump, i) {
      KeptFits(dump, i, ends, c);
    } else {
      ParentInChain(dump, i, c);
      OuterFits(dump, i, ends, c);
    }
  }

  lemma NextFits(dump: seq<Rec>, i: nat, popped: seq<Node>, u: seq<int>)
    requires 0 < i < |dump| && Fits(dump, popped, u) && |u| > 0 && u[|u| - 1] == dump[i].parent
    ensures Fits(dump, popped + (if dump[i].kind == Loop then [EndOf(dump, i)] else []),
                 u + (if dump[i].kind == Loop then [i] else []))
  {
    if dump[i].kind == Loop {
      PushFits(dump, popped, u, i);
    } else {
      assert popped + [] == popped && u + [] == u;
    }
  }

  ghost predicate FitsAfter(dump: seq<Rec>, i: nat)
    requires i < |dump|
  {
    StackAfter(dump, i).Ends? && Fits(dump, StackAfter(dump, i).ends, Chain(dump, i))
  }

  lemma StepFits(dump: seq<Rec>, i: nat)
    requires PreorderDump(dump) && 1 <= i < |dump| && FitsAfter(dump, i - 1)
    ensures FitsAfter(dump, i)
  {
    var ends, c := StackAfter(dump, i - 1).ends, Chain(dump, i - 1);
    if dump[i - 1].kind == Loop {
      TopAfterLoop(dump, i - 1);
    }
    PoppedFits(dump, i, ends, c);
    UpToParent(dump, i);
    NextFits(dump, i, PoppedFrom(dump, i, ends).ends, UpTo(c, dump[i].parent));
  }

  /** Main result for every preorder dump: no pop fails, and the stack holds the end nodes of the open loops and of
      the empty loops in their bodies. */
  lemma {:induction false} StackFits(dump: seq<Rec>, i: nat)
    requires PreorderDump(dump) && i < |dump|
    ensures FitsAfter(dump, i)
    decreases i
  {
    if i > 0 {
      StackFits(dump, i - 1);
      StepFits(dump, i);
    }
  }

  /** No pop fails. */
  lemma NoPopFails(dump: seq<Rec>, i: nat)
    requires PreorderDump(dump) && i < |dump|
    ensures StackAfter(dump, i).Ends?
  {
    StackFits(dump, i);
  }

  /** An empty loop before a sibling leaves its end node on the stack. */
  lemma EmptyLoopBreaksTheStack()
    ensures var dump := [Rec(Plain, -1), Rec(Loop, 0), Rec(Compute, 0)];
            PreorderDump(dump) && !StackIsChain(dump, 2) && StackAfter(dump, 2) == Ends([EndOf(dump, 1)])
  {
    var dump := [Rec(Plain, -1), Rec(Loop, 0), Rec(Compute, 0)];
    assert Chain(dump, 0) == [0];
    assert UpTo([0], 0) == [0];
    assert Chain(dump, 1) == [0, 1];
    assert UpTo([0, 1], 0) == UpTo([0, 1][..1], 0) == [0];
    assert Chain(dump, 2) == [0];
    assert StackAfter(dump, 1) == Ends([EndOf(dump, 1)]);
  }
}
