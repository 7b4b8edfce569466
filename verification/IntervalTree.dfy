/** The interval tree: a search index over intervals that must agree with a linear scan. */
module IntervalTrees {
  const SCALAR_LIMIT: int := 0x1_0000_0000_0000_0000

  type Scalar = x: nat | x < SCALAR_LIMIT

  datatype Interval = Interval(start: Scalar, stop: Scalar, value: int)

  /** The public way to make an interval orders its ends. */
  function MakeInterval(s: Scalar, e: Scalar, v: int): (i: Interval)
    ensures i.start <= i.stop && {i.start, i.stop} == {s, e} && i.value == v
  {
    Interval(if e < s then e else s, if s < e then e else s, v)
  }

  ghost predicate SortedByStart(s: seq<Interval>) {
    forall i, j :: 0 <= i < j < |s| ==> s[i].start <= s[j].start
  }

  predicate IsSortedByStart(s: seq<Interval>)
    ensures IsSortedByStart(s) <==> SortedByStart(s)
  {
    if |s| < 2 then true
    else
      assert s[0] in s && s[1] in s;
      && s[0].start <= s[1].start
      && (assert IsSortedByStart(s[1..]) ==> forall j :: 1 <= j < |s| ==> s[1..][j - 1] == s[j];
          IsSortedByStart(s[1..]))
  }

  method InsertByStart(r: seq<Interval>, x: Interval) returns (r': seq<Interval>)
    requires SortedByStart(r)
    ensures SortedByStart(r') && multiset(r') == multiset(r) + multiset{x}
  {
    var at := 0;
    while at < |r| && r[at].start <= x.start
      invariant 0 <= at <= |r|
      invariant forall j :: 0 <= j < at ==> r[j].start <= x.start
    {
      at := at + 1;
    }
    assert r == r[..at] + r[at..];
    r' := r[..at] + [x] + r[at..];
  }

  /** std::sort by start: some sorted permutation. */
  method SortByStart(s: seq<Interval>) returns (r: seq<Interval>)
    ensures SortedByStart(r) && multiset(r) == multiset(s)
  {
    r := [];
    for k := 0 to |s|
      invariant SortedByStart(r) && multiset(r) == multiset(s[..k])
    {
      assert s[..k + 1] == s[..k] + [s[k]];
      r := InsertByStart(r, s[k]);
    }
    assert s[..|s|] == s;
  }

  /** The linear scan that the tree stands for. */
  function Filter(s: seq<Interval>, keep: Interval -> bool): seq<Interval> {
    if |s| == 0 then [] else (if keep(s[0]) then [s[0]] else []) + Filter(s[1..], keep)
  }

  lemma {:induction false} FilterConcat(a: seq<Interval>, b: seq<Interval>, keep: Interval -> bool)
    ensures Filter(a + b, keep) == Filter(a, keep) + Filter(b, keep)
    decreases |a|
  {
    if |a| == 0 {
      assert a + b == b;
    } else {
      assert (a + b)[1..] == a[1..] + b && (a + b)[0] == a[0];
      FilterConcat(a[1..], b, keep);
      Associate([], if keep(a[0]) then [a[0]] else [], Filter(a[1..], keep), Filter(b, keep));
    }
  }

  lemma FilterThree(a: seq<Interval>, b: seq<Interval>, c: seq<Interval>, keep: Interval -> bool)
    ensures Filter(a + b + c, keep) == Filter(a, keep) + Filter(b, keep) + Filter(c, keep)
  {
    FilterConcat(a + b, c, keep);
    FilterConcat(a, b, keep);
  }

  lemma Associate(a: seq<Interval>, b: seq<Interval>, c: seq<Interval>, d: seq<Interval>)
    ensures ((a + b) + c) + d == a + (b + c + d) == a + (b + (c + d))
    ensures b + c + d == b + (c + d)
  {
  }

  lemma {:induction false} FilterNone(s: seq<Interval>, keep: Interval -> bool)
    requires forall i <- s :: !keep(i)
    ensures Filter(s, keep) == []
    decreases |s|
  {
    if |s| > 0 {
      FilterNone(s[1..], keep);
    }
  }

  lemma {:induction false} FilterFinds(s: seq<Interval>, keep: Interval -> bool)
    ensures Filter(s, keep) != [] <==> exists i <- s :: keep(i)
    decreases |s|
  {
    if |s| > 0 {
      FilterFinds(s[1..], keep);
      assert s == [s[0]] + s[1..];
    }
  }

  /** What a filter keeps depends on the multiset only. */
  lemma {:induction false} FilterMultiset(s: seq<Interval>, keep: Interval -> bool, x: Interval)
    ensures multiset(Filter(s, keep))[x] == if keep(x) then multiset(s)[x] else 0
    decreases |s|
  {
    if |s| > 0 {
      FilterMultiset(s[1..], keep, x);
      assert s == [s[0]] + s[1..];
    }
  }

  lemma FilterOfPermutation(s: seq<Interval>, t: seq<Interval>, keep: Interval -> bool)
    requires multiset(s) == multiset(t)
    ensures multiset(Filter(s, keep)) == multiset(Filter(t, keep))
  {
    forall x: Interval
      ensures multiset(Filter(s, keep))[x] == multiset(Filter(t, keep))[x]
    {
      FilterMultiset(s, keep, x);
      FilterMultiset(t, keep, x);
    }
  }

  function Overlaps(start: Scalar, stop: Scalar): Interval -> bool {
    (i: Interval) => i.stop >= start && i.start <= stop
  }

  function ContainedIn(start: Scalar, stop: Scalar): Interval -> bool {
    (i: Interval) => start <= i.start && i.stop <= stop
  }

  /** Which intervals overlap the closed range, written out. */
  lemma OverlappingCount(s: seq<Interval>, start: Scalar, stop: Scalar)
    ensures forall x: Interval :: multiset(Filter(s, Overlaps(start, stop)))[x]
                               == if x.stop >= start && x.start <= stop then multiset(s)[x] else 0
  {
    forall x: Interval
      ensures multiset(Filter(s, Overlaps(start, stop)))[x]
           == if x.stop >= start && x.start <= stop then multiset(s)[x] else 0
    {
      FilterMultiset(s, Overlaps(start, stop), x);
    }
  }

  /** Which intervals lie inside the closed range, written out. */
  lemma ContainedCount(s: seq<Interval>, start: Scalar, stop: Scalar)
    ensures forall x: Interval :: multiset(Filter(s, ContainedIn(start, stop)))[x]
                               == if start <= x.start && x.stop <= stop then multiset(s)[x] else 0
  {
    forall x: Interval
      ensures multiset(Filter(s, ContainedIn(start, stop)))[x]
           == if start <= x.start && x.stop <= stop then multiset(s)[x] else 0
    {
      FilterMultiset(s, ContainedIn(start, stop), x);
    }
  }

  function MinStart(s: seq<Interval>): (m: Scalar)
    requires |s| > 0
    ensures forall i <- s :: m <= i.start
    ensures exists i <- s :: m == i.start
  {
    if |s| == 1 then s[0].start
    else
      assert s == [s[0]] + s[1..];
      var m := MinStart(s[1..]);
      if s[0].start <= m then s[0].start else m
  }

  function MaxStop(s: seq<Interval>): (m: Scalar)
    requires |s| > 0
    ensures forall i <- s :: i.stop <= m
    ensures exists i <- s :: m == i.stop
  {
    if |s| == 1 then s[0].stop
    else
      assert s == [s[0]] + s[1..];
      var m := MaxStop(s[1..]);
      if s[0].stop >= m then s[0].stop else m
  }

  function ScalarMin(a: Scalar, b: Scalar): Scalar {
    if b < a then b else a
  }

  /** The filter keeps nothing that does not overlap the query. */
  ghost predicate Wants(keep: Interval -> bool, start: Scalar, stop: Scalar) {
    forall i: Interval :: keep(i) ==> i.stop >= start && i.start <= stop
  }

  /** Where an interval goes relative to the centre. */
  datatype Side = GoesLeft | Stays | GoesRight

  function SideOf(i: Interval, center: Scalar): Side {
    if i.stop < center then GoesLeft else if i.start > center then GoesRight else Stays
  }

  class IntervalTree {
    const intervals: seq<Interval>
    const left: IntervalTree?
    const right: IntervalTree?
    const center: Scalar
    ghost const height: nat

    /** The children are smaller, so recursion over the tree ends. */
    ghost predicate WellFounded()
      decreases height
    {
      && (left != null ==> left.height < height && left.WellFounded())
      && (right != null ==> right.height < height && right.WellFounded())
    }

    ghost function LeftContents(): seq<Interval>
      requires WellFounded()
      decreases height, 0
    {
      if left == null then [] else left.Contents()
    }

    ghost function RightContents(): seq<Interval>
      requires WellFounded()
      decreases height, 0
    {
      if right == null then [] else right.Contents()
    }

    /** All intervals: this node, then the left subtree, then the right one. */
    ghost function Contents(): seq<Interval>
      requires WellFounded()
      decreases height, 1
    {
      intervals + LeftContents() + RightContents()
    }

    ghost predicate Valid()
      decreases height
    {
      && WellFounded()
      && SortedByStart(intervals)
      && (forall i <- intervals :: SideOf(i, center) == Stays || (left == null && right == null))
      && (left != null ==> left.Valid() && |left.Contents()| > 0
                           && forall i <- left.Contents() :: SideOf(i, center) == GoesLeft)
      && (right != null ==> right.Valid() && |right.Contents()| > 0
                            && forall i <- right.Contents() :: SideOf(i, center) == GoesRight)
    }

    constructor (ivals: seq<Interval>, depth: Scalar, minbucket: Scalar, maxbucket: Scalar,
                 leftextent: Scalar, rightextent: Scalar)
      // an inner node reads the first interval
      requires ivals != [] || depth == 1 || (minbucket > 0 && maxbucket > 0)
      // children receive sorted intervals
      requires leftextent != 0 || rightextent != 0 ==> SortedByStart(ivals)
      ensures Valid()
      ensures multiset(Contents()) == multiset(ivals)
      decreases if depth == 0 then SCALAR_LIMIT else depth, 0
    {
      var d, c, own, lefts, rights, leftp, rightp :=
        Distribute(ivals, depth, minbucket, maxbucket, leftextent, rightextent);
      var l := Child(lefts, d, minbucket, maxbucket, leftp, c);
      var r := Child(rights, d, minbucket, maxbucket, c, rightp);
      intervals, left, right, center := own, l, r, c;
      height := (if l == null then 0 else l.height + 1) + (if r == null then 0 else r.height + 1);
      new;
      assert multiset(Contents()) == multiset(own) + multiset(lefts) + multiset(rights);
    }

    /** The constructor up to the recursive calls: centre, sorting, and what goes where. */
    static method Distribute(ivals: seq<Interval>, depth: Scalar, minbucket: Scalar, maxbucket: Scalar,
                             leftextent: Scalar, rightextent: Scalar)
      returns (d: Scalar, c: Scalar, own: seq<Interval>, lefts: seq<Interval>, rights: seq<Interval>, leftp: Scalar,
               rightp: Scalar)
      requires ivals != [] || depth == 1 || (minbucket > 0 && maxbucket > 0)
      requires leftextent != 0 || rightextent != 0 ==> SortedByStart(ivals)
      ensures multiset(own) + multiset(lefts) + multiset(rights) == multiset(ivals)
      ensures SortedByStart(lefts) && SortedByStart(own) && SortedByStart(rights)
      ensures lefts == rights == [] || forall i <- own :: SideOf(i, c) == Stays
      ensures forall i <- lefts :: SideOf(i, c) == GoesLeft
      ensures forall i <- rights :: SideOf(i, c) == GoesRight
      ensures d == 0 ==> lefts == rights == []
      ensures d == if depth == 0 then SCALAR_LIMIT - 1 else depth - 1
    {
      d := if depth == 0 then SCALAR_LIMIT - 1 else depth - 1;
      c := *;
      if ivals != [] {
        c := (MinStart(ivals) + MaxStop(ivals)) % SCALAR_LIMIT / 2;
      }
      var sorted := ivals;
      if leftextent == 0 && rightextent == 0 {
        sorted := SortByStart(ivals);
      } else {
        assert IsSortedByStart(sorted);
      }
      SameSize(sorted, ivals);
      lefts, rights, leftp, rightp := [], [], leftextent, rightextent;
      if d == 0 || (|sorted| < minbucket && |sorted| < maxbucket) {
        own := SortByStart(sorted);
      } else {
        if leftextent == 0 && rightextent == 0 {
          leftp, rightp := sorted[0].start, MaxStop(sorted);
        }
        lefts, own, rights := Split(sorted, c);
      }
    }

    /** A subtree is built only for a non-empty side. */
    static method Child(ivals: seq<Interval>, depth: Scalar, minbucket: Scalar, maxbucket: Scalar,
                        leftextent: Scalar, rightextent: Scalar) returns (t: IntervalTree?)
      requires SortedByStart(ivals) && (ivals != [] ==> depth > 0)
      ensures t == null <==> ivals == []
      ensures t != null ==> t.Valid() && multiset(t.Contents()) == multiset(ivals)
      ensures t != null ==> |t.Contents()| > 0 && forall i <- t.Contents() :: i in ivals
      decreases if depth == 0 then 0 else depth, 1
    {
      t := null;
      if ivals != [] {
        t := new IntervalTree(ivals, depth, minbucket, maxbucket, leftextent, rightextent);
        SameElements(t.Contents(), ivals);
      }
    }

    ghost function OwnNear(stop: Scalar): seq<Interval> {
      if |intervals| > 0 && !(stop < intervals[0].start) then intervals else []
    }

    ghost function LeftNear(start: Scalar, stop: Scalar): seq<Interval>
      requires WellFounded()
      decreases height, 0
    {
      if left != null && start <= center then left.VisitNear(start, stop) else []
    }

    ghost function RightNear(start: Scalar, stop: Scalar): seq<Interval>
      requires WellFounded()
      decreases height, 0
    {
      if right != null && stop >= center then right.VisitNear(start, stop) else []
    }

    /** The intervals handed to the visitor: a node is skipped when it starts after the query,
        a subtree when the query lies on the other side of the centre. */
    ghost function VisitNear(start: Scalar, stop: Scalar): seq<Interval>
      requires WellFounded()
      decreases height, 1
    {
      OwnNear(stop) + LeftNear(start, stop) + RightNear(start, stop)
    }

    method VisitOwn(keep: Interval -> bool, found: seq<Interval>) returns (result: seq<Interval>)
      ensures result == found + Filter(intervals, keep)
    {
      result := found;
      for k := 0 to |intervals|
        invariant result == found + Filter(intervals[..k], keep)
      {
        assert intervals[..k + 1] == intervals[..k] + [intervals[k]];
        FilterConcat(intervals[..k], [intervals[k]], keep);
        if keep(intervals[k]) {
          result := result + [intervals[k]];
        }
      }
      assert intervals[..|intervals|] == intervals;
    }

    method VisitLeft(start: Scalar, stop: Scalar, keep: Interval -> bool, found: seq<Interval>)
      returns (result: seq<Interval>)
      requires WellFounded()
      ensures result == found + Filter(LeftNear(start, stop), keep)
      decreases height, 0
    {
      result := found;
      if left != null && start <= center {
        result := left.Visit(start, stop, keep, result);
      }
    }

    method VisitRight(start: Scalar, stop: Scalar, keep: Interval -> bool, found: seq<Interval>)
      returns (result: seq<Interval>)
      requires WellFounded()
      ensures result == found + Filter(RightNear(start, stop), keep)
      decreases height, 0
    {
      result := found;
      if right != null && stop >= center {
        result := right.Visit(start, stop, keep, result);
      }
    }

    /** visit_near with a visitor that collects what it wants to keep. */
    method Visit(start: Scalar, stop: Scalar, keep: Interval -> bool, found: seq<Interval>)
      returns (result: seq<Interval>)
      requires WellFounded()
      ensures result == found + Filter(VisitNear(start, stop), keep)
      decreases height, 1
    {
      ghost var near, l, r := OwnNear(stop), LeftNear(start, stop), RightNear(start, stop);
      result := found;
      if |intervals| > 0 && !(stop < intervals[0].start) {
        result := VisitOwn(keep, result);
      }
      assert result == found + Filter(near, keep);
      result := VisitLeft(start, stop, keep, result);
      result := VisitRight(start, stop, keep, result);
      FilterThree(near, l, r, keep);
      Associate(found, Filter(near, keep), Filter(l, keep), Filter(r, keep));
    }

    lemma OwnFinds(start: Scalar, stop: Scalar, keep: Interval -> bool)
      requires Wants(keep, start, stop) && SortedByStart(intervals)
      ensures Filter(OwnNear(stop), keep) == Filter(intervals, keep)
    {
      if OwnNear(stop) != intervals {
        FilterNone(intervals, keep);
      }
    }

    lemma LeftFinds(start: Scalar, stop: Scalar, keep: Interval -> bool)
      requires Valid() && Wants(keep, start, stop)
      ensures Filter(LeftNear(start, stop), keep) == Filter(LeftContents(), keep)
      decreases height, 0
    {
      if left != null {
        if start <= center {
          left.NearFinds(start, stop, keep);
        } else {
          FilterNone(left.Contents(), keep);
        }
      }
    }

    lemma RightFinds(start: Scalar, stop: Scalar, keep: Interval -> bool)
      requires Valid() && Wants(keep, start, stop)
      ensures Filter(RightNear(start, stop), keep) == Filter(RightContents(), keep)
      decreases height, 0
    {
      if right != null {
        if stop >= center {
          right.NearFinds(start, stop, keep);
        } else {
          FilterNone(right.Contents(), keep);
        }
      }
    }

    /** Pruning never loses an interval that the query wants. */
    lemma {:induction false} NearFinds(start: Scalar, stop: Scalar, keep: Interval -> bool)
      requires Valid() && Wants(keep, start, stop)
      ensures Filter(VisitNear(start, stop), keep) == Filter(Contents(), keep)
      decreases height, 1
    {
      OwnFinds(start, stop, keep);
      LeftFinds(start, stop, keep);
      RightFinds(start, stop, keep);
      FilterThree(OwnNear(stop), LeftNear(start, stop), RightNear(start, stop), keep);
      FilterThree(intervals, LeftContents(), RightContents(), keep);
    }

    /** Exactly the overlapping intervals, in the order of the linear scan over Contents(). */
    method FindOverlapping(start: Scalar, stop: Scalar) returns (result: seq<Interval>)
      requires Valid()
      ensures result == Filter(Contents(), Overlaps(start, stop))
      ensures forall x: Interval ::
                multiset(result)[x] == if x.stop >= start && x.start <= stop then multiset(Contents())[x] else 0
    {
      result := Visit(start, stop, Overlaps(start, stop), []);
      NearFinds(start, stop, Overlaps(start, stop));
      OverlappingCount(Contents(), start, stop);
    }

    /** Exactly the contained intervals. Intervals made by MakeInterval need no other condition. */
    method FindContained(start: Scalar, stop: Scalar) returns (result: seq<Interval>)
      requires Valid() && forall i <- Contents() :: i.start <= i.stop
      ensures result == Filter(Contents(), ContainedIn(start, stop))
      ensures forall x: Interval ::
                multiset(result)[x] == if start <= x.start && x.stop <= stop then multiset(Contents())[x] else 0
    {
      result := Visit(start, stop, ContainedIn(start, stop), []);
      ContainedFinds(start, stop);
      ContainedCount(Contents(), start, stop);
    }

    lemma ContainedFinds(start: Scalar, stop: Scalar)
      requires Valid() && forall i <- Contents() :: i.start <= i.stop
      ensures Filter(VisitNear(start, stop), ContainedIn(start, stop)) == Filter(Contents(), ContainedIn(start, stop))
    {
      var keep := (i: Interval) => i.start <= i.stop && start <= i.start && i.stop <= stop;
      NearFinds(start, stop, keep);
      NearIsPart(start, stop);
      FilterAgrees(Contents(), keep, ContainedIn(start, stop));
      FilterAgrees(VisitNear(start, stop), keep, ContainedIn(start, stop));
    }

    lemma {:induction false} NearIsPart(start: Scalar, stop: Scalar)
      requires WellFounded()
      ensures forall i <- VisitNear(start, stop) :: i in Contents()
      decreases height
    {
      if left != null {
        left.NearIsPart(start, stop);
      }
      assert forall i <- LeftNear(start, stop) :: i in LeftContents();
      if right != null {
        right.NearIsPart(start, stop);
      }
      assert forall i <- RightNear(start, stop) :: i in RightContents();
    }

    method VisitAll(found: seq<Interval>) returns (result: seq<Interval>)
      requires WellFounded()
      ensures multiset(result) == multiset(found) + multiset(Contents())
      decreases height
    {
      result := found;
      if left != null {
        result := left.VisitAll(result);
      }
      result := result + intervals;
      if right != null {
        result := right.VisitAll(result);
      }
    }

    method Empty() returns (b: bool)
      requires WellFounded()
      ensures b <==> Contents() == []
      decreases height
    {
      if left != null {
        var e := left.Empty();
        if !e {
          return false;
        }
      }
      if intervals != [] {
        return false;
      }
      if right != null {
        var e := right.Empty();
        if !e {
          return false;
        }
      }
      return true;
    }

    /** What the check looks at: the own intervals are sorted, everything in the right subtree starts after the
        centre, and the centre is not zero when there is a left subtree. The stops do not matter, because the
        greatest stop of a subtree is computed as zero. */
    ghost predicate Accepted()
      requires WellFounded()
      decreases height
    {
      && SortedByStart(intervals)
      && (left != null ==> left.Accepted() && center > 0)
      && (right != null ==> right.Accepted() && StartAfter(right.Contents(), center))
    }

    /** The part of the check about the left subtree. */
    method CheckLeft(first0: Scalar, second0: Scalar) returns (ok: bool, first: Scalar, second: Scalar)
      requires WellFounded() && second0 == 0 && IsFirst(first0, intervals)
      ensures second == 0 && (ok <==> left == null || (left.Accepted() && center > 0))
      ensures ok ==> IsFirst(first, intervals + LeftContents())
      decreases height, 0
    {
      ok, first, second := true, first0, second0;
      if left == null {
        assert intervals + LeftContents() == intervals;
      } else {
        var valid, f, s := left.IsValid();
        if valid {
          FirstOfConcat(first, intervals, f, left.Contents());
        }
        ok, first, second := valid, ScalarMin(first, f), ScalarMin(second, s);
        if s >= center {
          ok := false;
        }
      }
    }

    /** The part of the check about the right subtree; seen is what was checked before. */
    method CheckRight(first0: Scalar, second0: Scalar, ghost seen: seq<Interval>)
        returns (ok: bool, first: Scalar, second: Scalar)
      requires WellFounded() && second0 == 0 && IsFirst(first0, seen)
      ensures second == 0 && (ok <==> right == null || (right.Accepted() && StartAfter(right.Contents(), center)))
      ensures ok ==> IsFirst(first, seen + RightContents())
      decreases height, 0
    {
      ok, first, second := true, first0, second0;
      if right == null {
        assert seen + RightContents() == seen;
      } else {
        var valid, f, s := right.IsValid();
        if valid {
          FirstOfConcat(first, seen, f, right.Contents());
          FirstAfter(f, right.Contents(), center);
        }
        ok, first, second := valid, ScalarMin(first, f), ScalarMin(second, s);
        if f <= center {
          ok := false;
        }
      }
    }

    /** The structural check with its extent computation, on any tree; it accepts every valid tree. */
    method IsValid() returns (ok: bool, first: Scalar, second: Scalar)
      requires WellFounded()
      ensures second == 0 && (ok <==> Accepted())
      ensures ok ==> IsFirst(first, Contents())
      ensures Valid() ==> ok
      decreases height, 1
    {
      first, second := SCALAR_LIMIT - 1, 0;
      if intervals != [] {
        first := ScalarMin(first, MinStart(intervals));
        second := ScalarMin(second, MaxStop(intervals));
      }
      ok, first, second := CheckLeft(first, second);
      if ok {
        ok, first, second := CheckRight(first, second, intervals + LeftContents());
      }
      if ok && !IsSortedByStart(intervals) {
        ok := false;
      }
      ghost var valid := Valid();
      if valid {
        ValidIsAccepted();
      }
    }

    lemma ValidIsAccepted()
      requires Valid()
      ensures Accepted()
      decreases height
    {
      if left != null {
        left.ValidIsAccepted();
        assert left.Contents()[0] in left.Contents();
      }
      if right != null {
        right.ValidIsAccepted();
        assert right.Contents()[0] in right.Contents();
      }
    }
  }

  /** All intervals start after the centre, and some scalar does. */
  ghost predicate StartAfter(s: seq<Interval>, center: Scalar) {
    center < SCALAR_LIMIT - 1 && forall i <- s :: center < i.start
  }

  /** The smallest start, or the largest scalar when there is none. */
  ghost predicate IsFirst(first: Scalar, s: seq<Interval>) {
    && (forall i <- s :: first <= i.start)
    && (first == SCALAR_LIMIT - 1 || exists i <- s :: first == i.start)
  }

  lemma FirstOfConcat(f: Scalar, a: seq<Interval>, g: Scalar, b: seq<Interval>)
    requires IsFirst(f, a) && IsFirst(g, b)
    ensures IsFirst(ScalarMin(f, g), a + b)
  {
    var m := ScalarMin(f, g);
    if m != SCALAR_LIMIT - 1 {
      var i :| i in a + b && m == i.start;
    }
  }

  lemma FirstAfter(f: Scalar, s: seq<Interval>, center: Scalar)
    requires IsFirst(f, s)
    ensures f > center <==> StartAfter(s, center)
  {
  }

  lemma {:induction false} FilterAgrees(s: seq<Interval>, a: Interval -> bool, b: Interval -> bool)
    requires forall i <- s :: a(i) == b(i)
    ensures Filter(s, a) == Filter(s, b)
    decreases |s|
  {
    if |s| > 0 {
      FilterAgrees(s[1..], a, b);
    }
  }

  lemma SameSize(a: seq<Interval>, b: seq<Interval>)
    requires multiset(a) == multiset(b)
    ensures |a| == |b|
  {
    assert |multiset(a)| == |a| && |multiset(b)| == |b|;
  }

  lemma SameElements(a: seq<Interval>, b: seq<Interval>)
    requires multiset(a) == multiset(b)
    ensures |a| == |b| && forall i <- a :: i in b
  {
    SameSize(a, b);
    forall i <- a
      ensures i in b
    {
      assert i in multiset(a);
    }
  }

  /** The intervals on one side, in order. */
  function OfSide(s: seq<Interval>, center: Scalar, side: Side): seq<Interval> {
    if |s| == 0 then []
    else
      var last := s[|s| - 1];
      OfSide(s[..|s| - 1], center, side) + (if SideOf(last, center) == side then [last] else [])
  }

  lemma {:induction false} OfSideSorted(s: seq<Interval>, center: Scalar, side: Side)
    requires SortedByStart(s)
    ensures SortedByStart(OfSide(s, center, side))
    ensures forall i <- OfSide(s, center, side) :: SideOf(i, center) == side
    ensures |s| > 0 ==> StartsBy(OfSide(s, center, side), s[|s| - 1].start)
    decreases |s|
  {
    if |s| > 0 {
      OfSideSorted(s[..|s| - 1], center, side);
    }
  }

  ghost predicate StartsBy(s: seq<Interval>, bound: Scalar) {
    forall j :: 0 <= j < |s| ==> s[j].start <= bound
  }

  lemma {:induction false} SideCount(s: seq<Interval>, center: Scalar, side: Side, x: Interval)
    ensures multiset(OfSide(s, center, side))[x] == if SideOf(x, center) == side then multiset(s)[x] else 0
    decreases |s|
  {
    if |s| > 0 {
      var front, last := s[..|s| - 1], s[|s| - 1];
      SideCount(front, center, side, x);
      assert multiset(s) == multiset(front) + multiset{last} by {
        assert s == front + [last];
      }
    }
  }

  lemma SidesTogether(s: seq<Interval>, center: Scalar)
    ensures multiset(OfSide(s, center, Stays)) + multiset(OfSide(s, center, GoesLeft))
          + multiset(OfSide(s, center, GoesRight)) == multiset(s)
  {
    forall x: Interval
      ensures multiset(OfSide(s, center, Stays))[x] + multiset(OfSide(s, center, GoesLeft))[x]
            + multiset(OfSide(s, center, GoesRight))[x] == multiset(s)[x]
    {
      SideCount(s, center, Stays, x);
      SideCount(s, center, GoesLeft, x);
      SideCount(s, center, GoesRight, x);
    }
  }

  /** The distribution loop of an inner node. */
  method Split(s: seq<Interval>, center: Scalar)
    returns (lefts: seq<Interval>, own: seq<Interval>, rights: seq<Interval>)
    requires SortedByStart(s)
    ensures multiset(own) + multiset(lefts) + multiset(rights) == multiset(s)
    ensures SortedByStart(lefts) && forall i <- lefts :: SideOf(i, center) == GoesLeft
    ensures SortedByStart(own) && forall i <- own :: SideOf(i, center) == Stays
    ensures SortedByStart(rights) && forall i <- rights :: SideOf(i, center) == GoesRight
  {
    lefts, own, rights := [], [], [];
    for k := 0 to |s|
      invariant lefts == OfSide(s[..k], center, GoesLeft)
      invariant own == OfSide(s[..k], center, Stays)
      invariant rights == OfSide(s[..k], center, GoesRight)
    {
      assert s[..k + 1][..k] == s[..k];
      var interval := s[k];
      if interval.stop < center {
        lefts := lefts + [interval];
      } else if interval.start > center {
        rights := rights + [interval];
      } else {
        own := own + [interval];
      }
    }
    assert s[..|s|] == s;
    SidesTogether(s, center);
    OfSideSorted(s, center, GoesLeft);
    OfSideSorted(s, center, Stays);
    OfSideSorted(s, center, GoesRight);
  }

  const DEPTH: Scalar := 16
  const MIN_BUCKET: Scalar := 64
  const MAX_BUCKET: Scalar := 512

  /** TileGraph::init_cache_plan: a tree with the default settings. */
  method InitCachePlan(ivals: seq<Interval>) returns (plan: IntervalTree)
    ensures plan.Valid() && multiset(plan.Contents()) == multiset(ivals)
  {
    plan := new IntervalTree(ivals, DEPTH, MIN_BUCKET, MAX_BUCKET, 0, 0);
  }

  /** From the interval list to the answer: the intervals that a scan of the list keeps, as a multiset. */
  method OverlappingIn(ivals: seq<Interval>, start: Scalar, stop: Scalar) returns (result: seq<Interval>)
    ensures multiset(result) == multiset(Filter(ivals, Overlaps(start, stop)))
    ensures forall x: Interval ::
              multiset(result)[x] == if x.stop >= start && x.start <= stop then multiset(ivals)[x] else 0
  {
    var plan := InitCachePlan(ivals);
    result := plan.FindOverlapping(start, stop);
    FilterOfPermutation(plan.Contents(), ivals, Overlaps(start, stop));
  }

  /** The same for containment, for intervals with ordered ends. */
  method ContainedInList(ivals: seq<Interval>, start: Scalar, stop: Scalar) returns (result: seq<Interval>)
    requires forall i <- ivals :: i.start <= i.stop
    ensures multiset(result) == multiset(Filter(ivals, ContainedIn(start, stop)))
    ensures forall x: Interval ::
              multiset(result)[x] == if start <= x.start && x.stop <= stop then multiset(ivals)[x] else 0
  {
    var plan := InitCachePlan(ivals);
    SameElements(plan.Contents(), ivals);
    result := plan.FindContained(start, stop);
    FilterOfPermutation(plan.Contents(), ivals, ContainedIn(start, stop));
  }

  /** is_cacheable on a plan made from a list. */
  method IsCacheableIn(ivals: seq<Interval>, start: Scalar, end: Scalar) returns (b: bool)
    ensures b <==> exists i <- ivals :: i.stop >= start && i.start <= end
  {
    var plan := InitCachePlan(ivals);
    b := IsCacheable(plan, start, end);
    SameElements(plan.Contents(), ivals);
    SameElements(ivals, plan.Contents());
  }

  /** TileSubGraph::is_cacheable over a cache plan. */
  method IsCacheable(plan: IntervalTree, start: Scalar, end: Scalar) returns (b: bool)
    requires plan.Valid()
    ensures b <==> exists i <- plan.Contents() :: i.stop >= start && i.start <= end
  {
    var found := plan.FindOverlapping(start, end);
    b := |found| != 0;
    FilterFinds(plan.Contents(), Overlaps(start, end));
  }
}
