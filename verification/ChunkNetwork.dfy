/** The second network: whole chunks are the cells and merge-split is the comparator. */
module ChunkNetwork {
  import opened Arithmetic
  import opened BitonicLanes
  import opened LaneSums
  import opened PairOrder
  import opened Sequences
  import V = VectorSort
  import CN = CountNetwork

  /** Lane-wise merge of two vectors sorted the same way: the right one is reversed first. */
  function MergeSorted(left: seq<Elem>, right: seq<Elem>, stable: bool, descending: bool): (r: (seq<Elem>, seq<Elem>))
    requires |left| == |right|
    ensures |r.0| == |r.1| == |left|
  {
    var rev := Reversed(right);
    (seq(|left|, l requires 0 <= l < |left| => if Before(stable, descending, left[l], rev[l]) then left[l] else rev[l]),
     seq(|left|, l requires 0 <= l < |left| => if Before(stable, descending, left[l], rev[l]) then rev[l] else left[l]))
  }

  /** The comparator on chunks: normalise both, merge lane-wise, sort both results. */
  function MergeSplit(left: seq<Elem>, right: seq<Elem>, stable: bool, descending: bool): (r: (seq<Elem>, seq<Elem>))
    requires |left| == |right| && IsPow2(|left|)
    ensures |r.0| == |r.1| == |left|
  {
    var l, r := V.SortPair(left, stable, descending), V.SortPair(right, stable, descending);
    var m := MergeSorted(l, r, stable, descending);
    (V.SortPair(m.0, stable, descending), V.SortPair(m.1, stable, descending))
  }

  type Chunks = seq<seq<Elem>>

  predicate Uniform(st: Chunks, w: nat) {
    IsPow2(w) && forall l :: 0 <= l < |st| ==> |st[l]| == w
  }

  function Cell(st: Chunks, w: nat, size: nat, stride: nat, stable: bool, descending: bool, l: nat): (c: seq<Elem>)
    requires Uniform(st, w) && StageShape(|st|, size, stride) && l < |st|
    ensures |c| == w
  {
    PartnerProperties(|st|, size, stride, descending, l);
    var p, down := Partner(l, stride), !CN.Up(l, size, descending);
    if IsLower(l, stride) then MergeSplit(st[l], st[p], stable, down).0
    else MergeSplit(st[p], st[l], stable, down).1
  }

  function Stage(st: Chunks, w: nat, size: nat, stride: nat, stable: bool, descending: bool): (r: Chunks)
    requires Uniform(st, w) && StageShape(|st|, size, stride)
    ensures |r| == |st| && Uniform(r, w)
  {
    seq(|st|, l requires 0 <= l < |st| => Cell(st, w, size, stride, stable, descending, l))
  }

  function Merge(st: Chunks, w: nat, size: nat, stride: nat, stable: bool, descending: bool): (r: Chunks)
    requires Uniform(st, w) && CN.PhaseShape(|st|, size, stride)
    ensures |r| == |st| && Uniform(r, w)
    decreases stride
  {
    if stride == 0 then st
    else Merge(Stage(st, w, size, stride, stable, descending), w, size, stride / 2, stable, descending)
  }

  function Network(st: Chunks, w: nat, size: nat, stable: bool, descending: bool): (r: Chunks)
    requires Uniform(st, w) && IsPow2(|st|) && IsPow2(size) && size >= 2
    ensures |r| == |st| && Uniform(r, w)
    decreases if size <= |st| then |st| + 1 - size else 0
  {
    Pow2Pos(size);
    if size > |st| then st
    else Network(Merge(st, w, size, size / 2, stable, descending), w, 2 * size, stable, descending)
  }

  function LocalSort(st: Chunks, w: nat, stable: bool, descending: bool): (r: Chunks)
    requires Uniform(st, w)
    ensures |r| == |st| && Uniform(r, w)
  {
    seq(|st|, l requires 0 <= l < |st| => V.SortPair(st[l], stable, descending))
  }

  /** Both steps of the kernel. */
  function KernelSort(st: Chunks, w: nat, stable: bool, descending: bool): (r: Chunks)
    requires Uniform(st, w) && IsPow2(|st|)
    ensures |r| == |st| && Uniform(r, w)
  {
    Network(LocalSort(st, w, stable, descending), w, 2, stable, descending)
  }

  // ----- merge-split on counts -----

  /** Ones exactly in [lo, hi). */
  lemma {:induction false} IntervalSum(b: seq<nat>, lo: int, hi: int)
    requires forall i :: 0 <= i < |b| ==> b[i] == if lo <= i < hi then 1 else 0
    requires lo >= 0 && hi <= |b|
    ensures Sum(b) == if lo < hi then hi - lo else 0
    decreases |b|
  {
    if |b| > 0 {
      IntervalSum(b[1..], if lo == 0 then 0 else lo - 1, hi - 1);
    }
  }

  lemma SortedBitsPosition(b: seq<nat>, up: bool)
    requires |b| > 0 && CN.Bounded(b, 1) && CN.Sorted(b, 1, up)
    ensures Sum(b) <= |b|
    ensures forall i :: 0 <= i < |b| ==> b[i] == if (if up then i >= |b| - Sum(b) else i < Sum(b)) then 1 else 0
  {
    var p: nat :| if up then CN.RisesAt(b, 1, p) else CN.FallsAt(b, 1, p);
    if up {
      IntervalSum(b, p + 1 - b[p], |b|);
    } else {
      IntervalSum(b, 0, p + b[p]);
    }
  }

  /** After a vector sort the elements above a threshold form one end of the vector. */
  lemma SortPairPosition(s: seq<Elem>, stable: bool, descending: bool, P: Elem -> bool)
    requires IsPow2(|s|) && V.UpClosed(P, stable, descending)
    ensures var r, c := V.SortPair(s, stable, descending), Count(s, P);
            Count(r, P) == c && SplitAt(r, P, c, descending)
  {
    var r := V.SortPair(s, stable, descending);
    V.NetworkBits(s, 2, stable, descending, P);
    CN.NetworkSorts(Bits(s, P), 1, descending);
    SortedBitsPosition(Bits(r, P), !descending);
    V.NetworkConserves(s, 2, stable, descending, P);
    assert forall i :: 0 <= i < |s| ==> (P(r[i]) <==> Bits(r, P)[i] == 1);
  }

  /** Where the elements above a threshold stand in a vector sorted in the given direction. */
  ghost predicate SplitAt(s: seq<Elem>, P: Elem -> bool, c: nat, descending: bool) {
    c <= |s| && forall i :: 0 <= i < |s| ==> (P(s[i]) <==> if descending then i < c else i >= |s| - c)
  }

  lemma MergeLane(l: Elem, r: Elem, stable: bool, descending: bool, P: Elem -> bool)
    requires V.UpClosed(P, stable, descending)
    ensures var fst := if Before(stable, descending, l, r) then l else r;
            var snd := if Before(stable, descending, l, r) then r else l;
            && (P(fst) <==> if descending then P(l) || P(r) else P(l) && P(r))
            && (P(snd) <==> if descending then P(l) && P(r) else P(l) || P(r))
  {
    assert MinSide(stable, descending, l, r) || MinSide(stable, descending, r, l);
    assert Before(stable, descending, l, r)
      == if descending then MinSide(stable, descending, r, l) else MinSide(stable, descending, l, r);
  }

  /** Lane-wise merging sends as many elements above the threshold as fit to the max side. */
  lemma MergeSortedCounts(l: seq<Elem>, r: seq<Elem>, stable: bool, descending: bool, P: Elem -> bool, x: nat, y: nat)
    requires |l| == |r| && V.UpClosed(P, stable, descending)
    requires SplitAt(l, P, x, descending) && SplitAt(r, P, y, descending)
    ensures var m, w := MergeSorted(l, r, stable, descending), |l|;
            && Count(m.0, P) == (if descending then CN.Hi(x, y, w) else CN.Lo(x, y, w))
            && Count(m.1, P) == (if descending then CN.Lo(x, y, w) else CN.Hi(x, y, w))
  {
    var w, m, rev := |l|, MergeSorted(l, r, stable, descending), Reversed(r);
    var b0, b1 := Bits(m.0, P), Bits(m.1, P);
    forall i | 0 <= i < w
      ensures b0[i] == if descending then (if i < x || i >= w - y then 1 else 0) else (if w - x <= i < y then 1 else 0)
      ensures b1[i] == if descending then (if w - y <= i < x then 1 else 0) else (if i < y || i >= w - x then 1 else 0)
    {
      assert rev[i] == r[w - 1 - i];
      MergeLane(l[i], rev[i], stable, descending, P);
    }
    if descending {
      IntervalSum(b1, w - y, x);
      EndsSum(b0, x, w - y);
    } else {
      IntervalSum(b0, w - x, y);
      EndsSum(b1, y, w - x);
    }
  }

  /** Merge-split moves the elements above a threshold to the max side as far as they fit. */
  lemma MergeSplitCounts(left: seq<Elem>, right: seq<Elem>, stable: bool, descending: bool, P: Elem -> bool)
    requires |left| == |right| && IsPow2(|left|) && V.UpClosed(P, stable, descending)
    ensures var m, w := MergeSplit(left, right, stable, descending), |left|;
            var x, y := Count(left, P), Count(right, P);
            && x <= w && y <= w
            && Count(m.0, P) == (if descending then CN.Hi(x, y, w) else CN.Lo(x, y, w))
            && Count(m.1, P) == (if descending then CN.Lo(x, y, w) else CN.Hi(x, y, w))
  {
    var l, r := V.SortPair(left, stable, descending), V.SortPair(right, stable, descending);
    SortPairPosition(left, stable, descending, P);
    SortPairPosition(right, stable, descending, P);
    var m := MergeSorted(l, r, stable, descending);
    MergeSortedCounts(l, r, stable, descending, P, Count(left, P), Count(right, P));
    SortPairPosition(m.0, stable, descending, P);
    SortPairPosition(m.1, stable, descending, P);
  }

  /** Ones exactly in [0, a) and [b, end). */
  lemma {:induction false} EndsSum(s: seq<nat>, a: nat, b: nat)
    requires a <= |s| && b <= |s|
    requires forall i :: 0 <= i < |s| ==> s[i] == if i < a || i >= b then 1 else 0
    ensures Sum(s) == if a < b then a + |s| - b else |s|
    decreases |s|
  {
    if |s| > 0 {
      EndsSum(s[1..], if a == 0 then 0 else a - 1, if b == 0 then 0 else b - 1);
    }
  }

  function Counts(st: Chunks, P: Elem -> bool): (c: seq<nat>)
    ensures |c| == |st|
  {
    seq(|st|, l requires 0 <= l < |st| => Count(st[l], P))
  }

  /** P is a threshold of every comparator used by phases up to n: below n both directions occur. */
  ghost predicate Threshold(P: Elem -> bool, stable: bool, descending: bool, size: nat, n: nat) {
    V.UpClosed(P, stable, descending) && (size < n ==> V.UpClosed(P, stable, !descending))
  }

  lemma DirectionUsed(n: nat, size: nat, descending: bool, l: nat)
    requires IsPow2(size) && l < n
    ensures CN.Up(l, size, descending) != descending || size < n
  {
    if size >= n {
      DivMod(0, size, l);
    }
  }

  lemma StageCounts(st: Chunks, w: nat, size: nat, stride: nat, stable: bool, descending: bool, P: Elem -> bool)
    requires Uniform(st, w) && StageShape(|st|, size, stride) && Threshold(P, stable, descending, size, |st|)
    ensures Counts(Stage(st, w, size, stride, stable, descending), P)
         == CN.Stage(Counts(st, P), w, size, stride, descending)
  {
    var r, c := Counts(Stage(st, w, size, stride, stable, descending), P), Counts(st, P);
    forall l: nat | l < |st|
      ensures r[l] == CN.Cell(c, w, size, stride, descending, l)
    {
      PartnerProperties(|st|, size, stride, descending, l);
      DirectionUsed(|st|, size, descending, l);
      var p, down := Partner(l, stride), !CN.Up(l, size, descending);
      if IsLower(l, stride) {
        MergeSplitCounts(st[l], st[p], stable, down, P);
      } else {
        MergeSplitCounts(st[p], st[l], stable, down, P);
      }
    }
  }

  lemma {:induction false} MergeCounts(st: Chunks, w: nat, size: nat, stride: nat, stable: bool, descending: bool,
                                       P: Elem -> bool)
    requires Uniform(st, w) && CN.PhaseShape(|st|, size, stride) && Threshold(P, stable, descending, size, |st|)
    ensures Counts(Merge(st, w, size, stride, stable, descending), P)
         == CN.Merge(Counts(st, P), w, size, stride, descending)
    decreases stride
  {
    if stride > 0 {
      StageCounts(st, w, size, stride, stable, descending, P);
      MergeCounts(Stage(st, w, size, stride, stable, descending), w, size, stride / 2, stable, descending, P);
    }
  }

  lemma {:induction false} NetworkCounts(st: Chunks, w: nat, size: nat, stable: bool, descending: bool, P: Elem -> bool)
    requires Uniform(st, w) && IsPow2(|st|) && IsPow2(size) && size >= 2 && Threshold(P, stable, descending, size, |st|)
    ensures Counts(Network(st, w, size, stable, descending), P) == CN.Network(Counts(st, P), w, size, descending)
    decreases if size <= |st| then |st| + 1 - size else 0
  {
    Pow2Pos(size);
    if size <= |st| {
      MergeCounts(st, w, size, size / 2, stable, descending, P);
      NetworkCounts(Merge(st, w, size, size / 2, stable, descending), w, 2 * size, stable, descending, P);
    }
  }

  // ----- order inside and across chunks -----

  lemma {:induction false} MergeInOrder(st: Chunks, w: nat, size: nat, stride: nat, stable: bool, descending: bool)
    requires Uniform(st, w) && CN.PhaseShape(|st|, size, stride)
    requires stride == 0 ==> forall l: nat :: l < |st| ==> InOrder(st[l], stable, !CN.Up(l, size, descending))
    ensures forall l: nat :: l < |st| ==>
      InOrder(Merge(st, w, size, stride, stable, descending)[l], stable, !CN.Up(l, size, descending))
    decreases stride
  {
    if stride > 0 {
      var r := Stage(st, w, size, stride, stable, descending);
      forall l: nat | l < |st|
        ensures InOrder(r[l], stable, !CN.Up(l, size, descending))
      {
        PartnerProperties(|st|, size, stride, descending, l);
        var p, down := Partner(l, stride), !CN.Up(l, size, descending);
        var a, b := if IsLower(l, stride) then st[l] else st[p], if IsLower(l, stride) then st[p] else st[l];
        var m := MergeSorted(V.SortPair(a, stable, down), V.SortPair(b, stable, down), stable, down);
        V.SortPairInOrder(m.0, stable, down);
        V.SortPairInOrder(m.1, stable, down);
      }
      MergeInOrder(r, w, size, stride / 2, stable, descending);
    }
  }

  ghost predicate ChunksInOrder(st: Chunks, stable: bool, descending: bool) {
    forall l :: 0 <= l < |st| ==> InOrder(st[l], stable, descending)
  }

  lemma {:induction false} NetworkInOrder(st: Chunks, w: nat, size: nat, stable: bool, descending: bool)
    requires Uniform(st, w) && IsPow2(|st|) && IsPow2(size) && size >= 2
    requires size > |st| ==> ChunksInOrder(st, stable, descending)
    ensures ChunksInOrder(Network(st, w, size, stable, descending), stable, descending)
    decreases if size <= |st| then |st| + 1 - size else 0
  {
    Pow2Pos(size);
    if size <= |st| {
      var r := Merge(st, w, size, size / 2, stable, descending);
      MergeInOrder(st, w, size, size / 2, stable, descending);
      if 2 * size > |st| {
        LastPhase(|st|, size);
        forall l: nat | l < |st|
          ensures InOrder(r[l], stable, descending)
        {
          DirectionUsed(|st|, size, descending, l);
        }
      }
      NetworkInOrder(r, w, 2 * size, stable, descending);
    }
  }

  lemma LastPhase(n: nat, size: nat)
    requires IsPow2(n) && IsPow2(size) && size <= n < 2 * size
    ensures size == n
  {
    var m := Pow2Quotient(size, n);
    if m >= 2 {
      MulMonotone(2, m, size);
    }
  }

  lemma SortedCountsEnds(c: seq<nat>, w: nat, up: bool, i: nat, j: nat)
    requires CN.Sorted(c, w, up) && i < j < |c|
    ensures if up then c[i] == 0 || c[j] == w else c[i] == w || c[j] == 0
  {
    var p: nat :| if up then CN.RisesAt(c, w, p) else CN.FallsAt(c, w, p);
  }

  lemma {:induction false} CountBounds<T>(s: seq<T>, P: T -> bool, k: nat)
    requires k < |s|
    ensures Count(s, P) <= |s|
    ensures P(s[k]) ==> Count(s, P) > 0
    ensures !P(s[k]) ==> Count(s, P) < |s|
  {
    assert s == s[..k] + ([s[k]] + s[k + 1..]);
    CountConcat(s[..k], [s[k]] + s[k + 1..], P);
    CountConcat([s[k]], s[k + 1..], P);
    CountAtMost(s[..k], P);
    CountAtMost(s[k + 1..], P);
    var b := Bits([s[k]], P);
    assert Sum(b) == b[0] + Sum(b[1..]) == b[0];
  }

  lemma {:induction false} CountAtMost<T>(s: seq<T>, P: T -> bool)
    ensures Count(s, P) <= |s|
    decreases |s|
  {
    if |s| > 0 {
      assert Bits(s, P)[1..] == Bits(s[1..], P);
      CountAtMost(s[1..], P);
    }
  }

  /** Which order is guaranteed across chunks: ties only for at most two chunks. */
  predicate TiesAcross(stable: bool, n: nat) {
    stable && n <= 2
  }

  /** The elements strictly above z, seen by the comparator with or without tie-breaking. */
  ghost function Above(ties: bool, descending: bool, z: Elem): Elem -> bool {
    x => !MinSide(ties, descending, x, z)
  }

  lemma AboveIsThreshold(stable: bool, descending: bool, n: nat, z: Elem)
    ensures Threshold(Above(TiesAcross(stable, n), descending, z), stable, descending, 2, n)
  {
    var ties := TiesAcross(stable, n);
    forall x: Elem, y: Elem | MinSide(stable, descending, x, y) && !MinSide(ties, descending, x, z)
      ensures !MinSide(ties, descending, y, z)
    {
    }
    if 2 < n {
      forall x: Elem, y: Elem | MinSide(stable, !descending, x, y) && !MinSide(ties, descending, x, z)
        ensures !MinSide(ties, descending, y, z)
      {
      }
    }
  }

  lemma KernelCountsSorted(st: Chunks, w: nat, stable: bool, descending: bool, P: Elem -> bool)
    requires Uniform(st, w) && IsPow2(|st|) && Threshold(P, stable, descending, 2, |st|)
    ensures CN.Sorted(Counts(KernelSort(st, w, stable, descending), P), w, !descending)
  {
    var s0 := LocalSort(st, w, stable, descending);
    NetworkCounts(s0, w, 2, stable, descending, P);
    forall l | 0 <= l < |st|
      ensures Count(s0[l], P) <= w
    {
      CountAtMost(s0[l], P);
    }
    CN.NetworkSorts(Counts(s0, P), w, descending);
  }

  lemma AcrossChunks(st: Chunks, w: nat, stable: bool, descending: bool, i: nat, j: nat, a: nat, b: nat)
    requires Uniform(st, w) && IsPow2(|st|) && i < j < |st| && a < w && b < w
    ensures var r := KernelSort(st, w, stable, descending);
            Before(TiesAcross(stable, |st|), descending, r[i][a], r[j][b])
  {
    var r := KernelSort(st, w, stable, descending);
    var ties := TiesAcross(stable, |st|);
    var z := if descending then r[i][a] else r[j][b];
    var P := Above(ties, descending, z);
    AboveIsThreshold(stable, descending, |st|, z);
    KernelCountsSorted(st, w, stable, descending, P);
    SortedCountsEnds(Counts(r, P), w, !descending, i, j);
    CountBounds(r[i], P, a);
    CountBounds(r[j], P, b);
  }

  /** Main result on order: the kernel sorts, by value for any number of chunks,
      with ties by increasing index inside every chunk and, for up to two chunks, everywhere. */
  lemma KernelSorts(st: Chunks, w: nat, stable: bool, descending: bool)
    requires Uniform(st, w) && IsPow2(|st|)
    ensures var r := KernelSort(st, w, stable, descending);
            && ChunksInOrder(r, stable, descending)
            && forall i: nat, j: nat, a: nat, b: nat :: i < j < |st| && a < w && b < w ==>
              Before(TiesAcross(stable, |st|), descending, r[i][a], r[j][b])
  {
    var s0 := LocalSort(st, w, stable, descending);
    forall l | 0 <= l < |st|
      ensures InOrder(s0[l], stable, descending)
    {
      V.SortPairInOrder(st[l], stable, descending);
    }
    NetworkInOrder(s0, w, 2, stable, descending);
    forall i: nat, j: nat, a: nat, b: nat | i < j < |st| && a < w && b < w
      ensures var s := KernelSort(st, w, stable, descending);
              Before(TiesAcross(stable, |st|), descending, s[i][a], s[j][b])
    {
      AcrossChunks(st, w, stable, descending, i, j, a, b);
    }
  }
}
