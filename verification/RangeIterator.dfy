/** TileGraph::Iterator: an odometer over loop ranges. */
module RangeIterator {
  import opened Arithmetic
  import opened MixedRadix

  datatype Range = Range(start: int, end: int, step: int)

  /** How many values one wheel shows. A range that is empty still shows its start. */
  function Values(r: Range): (n: nat)
    requires r.step > 0
    ensures n > 0
  {
    if r.start >= r.end then 1 else (r.end - r.start + r.step - 1) / r.step
  }

  function ValueAt(r: Range, k: nat): int {
    r.start + k * r.step
  }

  /** The wheel has another value exactly while the next one is below the end. */
  lemma HasNext(r: Range, k: nat)
    requires r.step > 0 && k < Values(r)
    ensures k + 1 < Values(r) <==> ValueAt(r, k + 1) < r.end
  {
    var span, n := r.end - r.start, Values(r);
    Distribute(k, 1, r.step);
    if span > 0 {
      var x := span + r.step - 1;
      assert x == n * r.step + x % r.step;
      if k + 1 < n {
        MulMonotone(k + 2, n, r.step);
        Distribute(k, 2, r.step);
      } else {
        MulMonotone(n, k + 1, r.step);
      }
    } else {
      MulMonotone(0, k, r.step);
    }
  }

  predicate Steps(ranges: seq<Range>) {
    forall i :: 0 <= i < |ranges| ==> ranges[i].step > 0
  }

  function Sizes(ranges: seq<Range>): (s: seq<nat>)
    requires Steps(ranges)
    ensures |s| == |ranges| && Positive(s)
  {
    seq(|ranges|, i requires 0 <= i < |ranges| => Values(ranges[i]))
  }

  /** The indices shown when wheel i is at position d[i]. */
  function Shown(ranges: seq<Range>, d: seq<nat>): (r: seq<int>)
    requires |d| == |ranges|
    ensures |r| == |d|
  {
    seq(|d|, i requires 0 <= i < |d| => ValueAt(ranges[i], d[i]))
  }

  /** How many points the iteration visits, and the t-th of them. */
  function Count(ranges: seq<Range>): nat
    requires Steps(ranges)
  {
    Prod(Sizes(ranges))
  }

  function Point(ranges: seq<Range>, t: nat): (r: seq<int>)
    requires Steps(ranges)
    ensures |r| == |ranges|
  {
    Shown(ranges, Decode(t, Sizes(ranges)))
  }

  class Iterator {
    const ranges: seq<Range>
    var indices: seq<int>
    var finished: bool
    /** How often the iterator was advanced. */
    ghost var t: nat

    ghost predicate Valid()
      reads this
    {
      && Steps(ranges)
      && if finished then t >= Count(ranges) else t < Count(ranges) && indices == Point(ranges, t)
    }

    constructor (ranges: seq<Range>)
      requires Steps(ranges)
      ensures Valid() && this.ranges == ranges && !finished && t == 0
    {
      this.ranges := ranges;
      indices := seq(|ranges|, i requires 0 <= i < |ranges| => ranges[i].start);
      finished, t := false, 0;
      new;
      var s := Sizes(ranges);
      ProdPositive(s);
      AllZero(|s|, s);
      assert InBox(seq(|s|, _ => 0), s);
      DecodeEncode(seq(|s|, _ => 0), s);
    }

    /** operator++: advances the last wheel; a wheel that runs out restarts and carries over. */
    method Advance()
      requires Valid() && !finished
      modifies this
      ensures Valid() && t == old(t) + 1
      ensures finished <==> t == Count(ranges)
    {
      ghost var d := Decode(t, Sizes(ranges));
      EncodeDecode(t, Sizes(ranges));
      var i := |indices| - 1;
      while i >= 0
        invariant -1 <= i < |ranges| && !finished && t == old(t)
        invariant MaxFrom(d, Sizes(ranges), i + 1)
        invariant indices == Shown(ranges, ZeroFrom(d, i + 1))
      {
        var current := indices[i] + ranges[i].step;
        WheelStep(ranges, d, i, t);
        if current < ranges[i].end {
          indices := indices[i := current];
          t := t + 1;
          return;
        }
        indices := indices[i := ranges[i].start];
        i := i - 1;
      }
      finished := true;
      AllMaximal(d, Sizes(ranges));
      t := t + 1;
    }
  }

  /** What one turn of wheel i does when all later wheels have rolled over. */
  lemma WheelStep(ranges: seq<Range>, d: seq<nat>, i: nat, t: nat)
    requires Steps(ranges) && InBox(d, Sizes(ranges)) && i < |d| && MaxFrom(d, Sizes(ranges), i + 1)
    requires t == Encode(d, Sizes(ranges))
    ensures var shown := Shown(ranges, ZeroFrom(d, i + 1));
            var current := shown[i] + ranges[i].step;
            if current < ranges[i].end
            then t + 1 < Count(ranges) && Point(ranges, t + 1) == shown[i := current]
            else MaxFrom(d, Sizes(ranges), i) && Shown(ranges, ZeroFrom(d, i)) == shown[i := ranges[i].start]
  {
    WheelValue(ranges, d, i);
    HasNext(ranges[i], d[i]);
    if d[i] + 1 < Values(ranges[i]) {
      WheelUp(ranges, d, i, t);
    } else {
      WheelFull(ranges, d, i);
      WheelRoll(ranges, d, i);
    }
  }

  lemma WheelFull(ranges: seq<Range>, d: seq<nat>, i: nat)
    requires Steps(ranges) && InBox(d, Sizes(ranges)) && i < |d| && MaxFrom(d, Sizes(ranges), i + 1)
    requires d[i] + 1 >= Values(ranges[i])
    ensures MaxFrom(d, Sizes(ranges), i)
  {
    assert Sizes(ranges)[i] == Values(ranges[i]);
  }

  lemma WheelValue(ranges: seq<Range>, d: seq<nat>, i: nat)
    requires Steps(ranges) && |d| == |ranges| && i < |d|
    ensures Shown(ranges, ZeroFrom(d, i + 1))[i] + ranges[i].step == ValueAt(ranges[i], d[i] + 1)
  {
    Distribute(d[i], 1, ranges[i].step);
  }

  lemma PointOfCode(ranges: seq<Range>, d: seq<nat>, t: nat)
    requires Steps(ranges) && InBox(d, Sizes(ranges)) && t == Encode(d, Sizes(ranges))
    ensures t < Count(ranges) && Point(ranges, t) == Shown(ranges, d)
  {
    DecodeEncode(d, Sizes(ranges));
    EncodeBound(d, Sizes(ranges));
  }

  lemma WheelUp(ranges: seq<Range>, d: seq<nat>, i: nat, t: nat)
    requires Steps(ranges) && InBox(d, Sizes(ranges)) && i < |d| && MaxFrom(d, Sizes(ranges), i + 1)
    requires d[i] + 1 < Values(ranges[i]) && t == Encode(d, Sizes(ranges))
    ensures t + 1 < Count(ranges)
    ensures Point(ranges, t + 1) == Shown(ranges, ZeroFrom(d, i + 1))[i := ValueAt(ranges[i], d[i] + 1)]
  {
    Successor(d, Sizes(ranges), i);
    PointOfCode(ranges, ZeroFrom(d[i := d[i] + 1], i + 1), t + 1);
    ShownUp(ranges, d, i);
  }

  lemma WheelRoll(ranges: seq<Range>, d: seq<nat>, i: nat)
    requires |d| == |ranges| && i < |d|
    ensures Shown(ranges, ZeroFrom(d, i)) == Shown(ranges, ZeroFrom(d, i + 1))[i := ranges[i].start]
  {
  }

  lemma ShownUp(ranges: seq<Range>, d: seq<nat>, i: nat)
    requires |d| == |ranges| && i < |d|
    ensures Shown(ranges, ZeroFrom(d[i := d[i] + 1], i + 1))
         == Shown(ranges, ZeroFrom(d, i + 1))[i := ValueAt(ranges[i], d[i] + 1)]
  {
  }

  /** `for (auto it = begin(); it != end(); ++it)`: the sequence of points visited. */
  method IterateAll(ranges: seq<Range>) returns (visited: seq<seq<int>>)
    requires Steps(ranges)
    ensures |visited| == Count(ranges)
    ensures forall t :: 0 <= t < |visited| ==> visited[t] == Point(ranges, t)
    // the points of the nest in order, where an empty range counts as its start alone
    ensures NestInOrder(AllVisited(ranges), visited)
  {
    visited := [];
    var it := new Iterator(ranges);
    while !it.finished
      invariant it.Valid() && it.ranges == ranges && |visited| == it.t
      invariant it.finished ==> it.t == Count(ranges)
      invariant forall t :: 0 <= t < |visited| ==> visited[t] == Point(ranges, t)
      decreases Count(ranges) - it.t
    {
      visited := visited + [it.indices];
      it.Advance();
    }
    SamePoints(ranges);
    VisitsNestInOrder(AllVisited(ranges), visited);
  }

  // ----- which points these are -----

  /** A point of the loop nest: every index is start + k*step below the end. */
  ghost predicate InLoopNest(ranges: seq<Range>, p: seq<int>)
    requires Steps(ranges)
  {
    |p| == |ranges| && forall i :: 0 <= i < |p| ==> InLoop(ranges[i], p[i])
  }

  ghost predicate InLoop(r: Range, x: int)
    requires r.step > 0
  {
    exists k: nat :: x == ValueAt(r, k) && x < r.end
  }

  lemma ValueInjective(r: Range, a: nat, b: nat)
    requires r.step > 0 && ValueAt(r, a) == ValueAt(r, b)
    ensures a == b
  {
    SmallMultiple(a - b, r.step, 0);
  }

  lemma ShownInjective(ranges: seq<Range>, a: seq<nat>, b: seq<nat>)
    requires Steps(ranges) && |a| == |b| == |ranges| && Shown(ranges, a) == Shown(ranges, b)
    ensures a == b
  {
    forall i | 0 <= i < |a|
      ensures a[i] == b[i]
    {
      assert Shown(ranges, a)[i] == Shown(ranges, b)[i];
      ValueInjective(ranges[i], a[i], b[i]);
    }
  }

  /** No point is visited twice, and the points come in lexicographic order of their wheel positions. */
  lemma VisitsOnce(ranges: seq<Range>, a: nat, b: nat)
    requires Steps(ranges) && a < Count(ranges) && b < Count(ranges) && Point(ranges, a) == Point(ranges, b)
    ensures a == b
  {
    var s := Sizes(ranges);
    ShownInjective(ranges, Decode(a, s), Decode(b, s));
    EncodeDecode(a, s);
    EncodeDecode(b, s);
  }

  /** Earlier in lexicographic order, in terms of the shown indices. */
  ghost predicate PointLess(a: seq<int>, b: seq<int>)
    requires |a| == |b|
  {
    exists k :: 0 <= k < |a| && a[..k] == b[..k] && a[k] < b[k]
  }

  lemma VisitsInOrder(ranges: seq<Range>, a: nat, b: nat)
    requires Steps(ranges) && a < Count(ranges) && b < Count(ranges) && PointLess(Point(ranges, a), Point(ranges, b))
    ensures a < b
  {
    var s := Sizes(ranges);
    var x, y := Decode(a, s), Decode(b, s);
    var p, q := Point(ranges, a), Point(ranges, b);
    EncodeDecode(a, s);
    EncodeDecode(b, s);
    var k :| 0 <= k < |p| && p[..k] == q[..k] && p[k] < q[k];
    DigitsLess(ranges, x, y, k);
    LexIncreases(x, y, s);
  }

  /** The first value that differs comes from the first digit that differs. */
  lemma DigitsLess(ranges: seq<Range>, x: seq<nat>, y: seq<nat>, k: nat)
    requires Steps(ranges) && |x| == |y| == |ranges| && k < |x|
    requires Shown(ranges, x)[..k] == Shown(ranges, y)[..k] && Shown(ranges, x)[k] < Shown(ranges, y)[k]
    ensures x[..k] == y[..k] && x[k] < y[k]
  {
    var p, q := Shown(ranges, x), Shown(ranges, y);
    forall i | 0 <= i < k
      ensures x[i] == y[i]
    {
      assert p[i] == p[..k][i] && q[i] == q[..k][i];
      ValueInjective(ranges[i], x[i], y[i]);
    }
    if x[k] >= y[k] {
      MulMonotone(y[k], x[k], ranges[k].step);
    }
  }

  lemma LoopValue(r: Range, k: nat)
    requires r.step > 0 && r.start < r.end
    ensures k < Values(r) <==> ValueAt(r, k) < r.end
  {
    var span, n := r.end - r.start, Values(r);
    var x := span + r.step - 1;
    assert x == n * r.step + x % r.step;
    if k < n {
      MulMonotone(k + 1, n, r.step);
      Distribute(k, 1, r.step);
    } else {
      MulMonotone(n, k, r.step);
    }
  }

  /** With non-empty ranges every point of the loop nest is visited. */
  lemma VisitsAll(ranges: seq<Range>, p: seq<int>) returns (t: nat)
    requires Steps(ranges) && InLoopNest(ranges, p)
    ensures t < Count(ranges) && Point(ranges, t) == p
  {
    var s := Sizes(ranges);
    var d := seq(|p|, i requires 0 <= i < |p| =>
      assert InLoop(ranges[i], p[i]); var k: nat :| p[i] == ValueAt(ranges[i], k) && p[i] < ranges[i].end; k);
    forall i | 0 <= i < |p|
      ensures p[i] == ValueAt(ranges[i], d[i]) && d[i] < s[i]
    {
      MulMonotone(0, d[i], ranges[i].step);
      LoopValue(ranges[i], d[i]);
    }
    EncodeBound(d, s);
    DecodeEncode(d, s);
    t := Encode(d, s);
    assert Shown(ranges, d) == p;
  }

  /** The iteration visits only points of the loop nest exactly when no range is empty:
      the begin iterator shows the start of a range without looking at its end. */
  lemma VisitsOnlyTheNest(ranges: seq<Range>)
    requires Steps(ranges)
    ensures (forall t: nat :: t < Count(ranges) ==> InLoopNest(ranges, Point(ranges, t)))
       <==> (forall i :: 0 <= i < |ranges| ==> ranges[i].start < ranges[i].end)
  {
    var s := Sizes(ranges);
    ProdPositive(s);
    if forall i :: 0 <= i < |ranges| ==> ranges[i].start < ranges[i].end {
      forall t: nat | t < Count(ranges)
        ensures InLoopNest(ranges, Point(ranges, t))
      {
        EncodeDecode(t, s);
        var d := Decode(t, s);
        forall i | 0 <= i < |ranges|
          ensures InLoop(ranges[i], Point(ranges, t)[i])
        {
          LoopValue(ranges[i], d[i]);
        }
      }
    } else {
      var i :| 0 <= i < |ranges| && ranges[i].start >= ranges[i].end;
      var p := Point(ranges, 0);
      EncodeDecode(0, s);
      forall k: nat
        ensures !(p[i] == ValueAt(ranges[i], k) && p[i] < ranges[i].end)
      {
        MulMonotone(0, k, ranges[i].step);
      }
      assert !InLoop(ranges[i], p[i]);
      assert !InLoopNest(ranges, p);
    }
  }

  // ----- the nest written out -----

  /** The loop visits x, in plain arithmetic. */
  predicate OnLoop(r: Range, x: int)
    requires r.step > 0
  {
    r.start <= x < r.end && (x - r.start) % r.step == 0
  }

  predicate OnNest(ranges: seq<Range>, p: seq<int>)
    requires Steps(ranges)
  {
    |p| == |ranges| && forall i :: 0 <= i < |p| ==> OnLoop(ranges[i], p[i])
  }

  lemma LoopIff(r: Range, x: int)
    requires r.step > 0
    ensures InLoop(r, x) <==> OnLoop(r, x)
  {
    if InLoop(r, x) {
      var k: nat :| x == ValueAt(r, k) && x < r.end;
      MulMonotone(0, k, r.step);
      DivMod(k, r.step, 0);
    }
    if OnLoop(r, x) {
      var k := (x - r.start) / r.step;
      assert x - r.start == k * r.step;
      assert x == ValueAt(r, k);
    }
  }

  lemma NestIff(ranges: seq<Range>, p: seq<int>)
    requires Steps(ranges)
    ensures InLoopNest(ranges, p) <==> OnNest(ranges, p)
  {
    forall i | 0 <= i < |p| && |p| == |ranges|
      ensures InLoop(ranges[i], p[i]) <==> OnLoop(ranges[i], p[i])
    {
      LoopIff(ranges[i], p[i]);
    }
  }

  /** Exactly the points of the nest, each once and in lexicographic order. */
  ghost predicate NestInOrder(ranges: seq<Range>, visited: seq<seq<int>>)
    requires Steps(ranges)
  {
    && (forall p :: p in visited <==> OnNest(ranges, p))
    && forall a, b :: 0 <= a < b < |visited| ==> |visited[a]| == |visited[b]| && PointLess(visited[a], visited[b])
  }

  lemma {:induction false} PointsCompare(a: seq<int>, b: seq<int>)
    requires |a| == |b| && a != b
    ensures PointLess(a, b) || PointLess(b, a)
    decreases |a|
  {
    if a[0] != b[0] {
      assert a[..0] == b[..0];
    } else {
      assert a == [a[0]] + a[1..] && b == [b[0]] + b[1..];
      PointsCompare(a[1..], b[1..]);
      if PointLess(a[1..], b[1..]) {
        LessBehind(a, b);
      } else {
        LessBehind(b, a);
      }
    }
  }

  lemma LessBehind(a: seq<int>, b: seq<int>)
    requires |a| == |b| > 0 && a[0] == b[0] && PointLess(a[1..], b[1..])
    ensures PointLess(a, b)
  {
    var k :| 0 <= k < |a| - 1 && a[1..][..k] == b[1..][..k] && a[1..][k] < b[1..][k];
    assert a[..k + 1] == [a[0]] + a[1..][..k] && b[..k + 1] == [b[0]] + b[1..][..k];
    assert a[k + 1] < b[k + 1];
  }

  /** An empty range is visited once, at its start. */
  function Visited(r: Range): Range {
    if r.start >= r.end then Range(r.start, r.start + 1, r.step) else r
  }

  function AllVisited(ranges: seq<Range>): (vs: seq<Range>)
    requires Steps(ranges)
    ensures |vs| == |ranges| && Steps(vs) && forall i :: 0 <= i < |vs| ==> vs[i].start < vs[i].end
  {
    seq(|ranges|, i requires 0 <= i < |ranges| => Visited(ranges[i]))
  }

  lemma VisitedValues(r: Range)
    requires r.step > 0
    ensures Values(Visited(r)) == Values(r)
  {
    if r.start >= r.end {
      DivMod(1, r.step, 0);
    }
  }

  lemma SamePoints(ranges: seq<Range>)
    requires Steps(ranges)
    ensures Count(AllVisited(ranges)) == Count(ranges)
    ensures forall t: nat :: t < Count(ranges) ==> Point(AllVisited(ranges), t) == Point(ranges, t)
  {
    forall i | 0 <= i < |ranges|
      ensures Values(AllVisited(ranges)[i]) == Values(ranges[i])
    {
      VisitedValues(ranges[i]);
    }
    assert Sizes(AllVisited(ranges)) == Sizes(ranges);
    forall t: nat | t < Count(ranges)
      ensures Point(AllVisited(ranges), t) == Point(ranges, t)
    {
      EncodeDecode(t, Sizes(ranges));
    }
  }

  /** Main result: when no range is empty, the iteration is the loop nest. */
  lemma VisitsNestInOrder(ranges: seq<Range>, visited: seq<seq<int>>)
    requires Steps(ranges) && |visited| == Count(ranges)
    requires forall t :: 0 <= t < |visited| ==> visited[t] == Point(ranges, t)
    requires forall i :: 0 <= i < |ranges| ==> ranges[i].start < ranges[i].end
    ensures NestInOrder(ranges, visited)
  {
    VisitsOnlyTheNest(ranges);
    forall p
      ensures p in visited <==> OnNest(ranges, p)
    {
      NestIff(ranges, p);
      if p in visited {
        var t :| 0 <= t < |visited| && visited[t] == p;
        assert InLoopNest(ranges, Point(ranges, t));
      }
      if OnNest(ranges, p) {
        var t := VisitsAll(ranges, p);
        assert visited[t] == p;
      }
    }
    forall a, b | 0 <= a < b < |visited|
      ensures |visited[a]| == |visited[b]| && PointLess(visited[a], visited[b])
    {
      if visited[a] == visited[b] {
        VisitsOnce(ranges, a, b);
      }
      PointsCompare(visited[a], visited[b]);
      if PointLess(visited[b], visited[a]) {
        VisitsInOrder(ranges, b, a);
      }
    }
  }
}
