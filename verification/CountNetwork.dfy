/** The bitonic network on counts. A cell holds how many of its w elements lie above a fixed
    threshold; a comparator moves as many of them as fit to its "max" cell. With w == 1 this is
    the network on bits, with w == 16 it is the merge-split network on whole chunks. */
module CountNetwork {
  import opened Arithmetic
  import opened BitonicLanes

  function Lo(x: nat, y: nat, w: nat): nat {
    if x + y > w then x + y - w else 0
  }

  function Hi(x: nat, y: nat, w: nat): nat {
    if x + y > w then w else x + y
  }

  function Cell(c: seq<nat>, w: nat, size: nat, stride: nat, descending: bool, lane: nat): nat
    requires StageShape(|c|, size, stride) && lane < |c|
  {
    PartnerProperties(|c|, size, stride, descending, lane);
    var p := Partner(lane, stride);
    if SelectMin(lane, size, stride, descending) then Lo(c[lane], c[p], w) else Hi(c[lane], c[p], w)
  }

  function Stage(c: seq<nat>, w: nat, size: nat, stride: nat, descending: bool): (r: seq<nat>)
    requires StageShape(|c|, size, stride)
    ensures |r| == |c|
  {
    seq(|c|, lane requires 0 <= lane < |c| => Cell(c, w, size, stride, descending, lane))
  }

  /** A phase may continue at `stride`: either stages are left or the phase is over. */
  predicate PhaseShape(n: nat, size: nat, stride: nat) {
    IsPow2(n) && IsPow2(size) && size <= n && (stride == 0 || (IsPow2(stride) && 2 * stride <= size))
  }

  /** The stages stride, stride/2, ..., 1 of one phase. */
  function Merge(c: seq<nat>, w: nat, size: nat, stride: nat, descending: bool): (r: seq<nat>)
    requires PhaseShape(|c|, size, stride)
    ensures |r| == |c|
    decreases stride
  {
    if stride == 0 then c else Merge(Stage(c, w, size, stride, descending), w, size, stride / 2, descending)
  }

  /** The phases size, 2*size, ..., n. */
  function Network(c: seq<nat>, w: nat, size: nat, descending: bool): (r: seq<nat>)
    requires IsPow2(|c|) && IsPow2(size) && size >= 2
    ensures |r| == |c|
    decreases if size <= |c| then |c| + 1 - size else 0
  {
    Pow2Pos(size);
    if size > |c| then c
    else Network(Merge(c, w, size, size / 2, descending), w, 2 * size, descending)
  }

  predicate Bounded(c: seq<nat>, w: nat) {
    forall i :: 0 <= i < |c| ==> c[i] <= w
  }

  /** All cells of [lo, hi) hold the same count. */
  predicate Flat(c: seq<nat>, lo: int, hi: int, v: nat) {
    forall i :: 0 <= i < |c| && lo <= i < hi ==> c[i] == v
  }

  /** Empty cells, one partial cell p, full cells. */
  predicate RisesAt(c: seq<nat>, w: nat, p: nat) {
    p < |c| && Flat(c, 0, p, 0) && Flat(c, p + 1, |c|, w)
  }

  predicate FallsAt(c: seq<nat>, w: nat, p: nat) {
    p < |c| && Flat(c, 0, p, w) && Flat(c, p + 1, |c|, 0)
  }

  ghost predicate Sorted(c: seq<nat>, w: nat, up: bool) {
    exists p: nat :: if up then RisesAt(c, w, p) else FallsAt(c, w, p)
  }

  /** Two partial cells p and q, `inner` between them and `outer` outside. */
  predicate TwoEdges(c: seq<nat>, outer: nat, inner: nat, p: nat, q: nat) {
    p <= q < |c| && Flat(c, 0, p, outer) && Flat(c, p + 1, q, inner) && Flat(c, q + 1, |c|, outer)
  }

  ghost predicate Bitonic(c: seq<nat>, w: nat) {
    exists p: nat, q: nat :: TwoEdges(c, 0, w, p, q) || TwoEdges(c, w, 0, p, q)
  }

  function Complement(c: seq<nat>, w: nat): (r: seq<nat>)
    requires Bounded(c, w)
    ensures |r| == |c| && Bounded(r, w)
  {
    seq(|c|, i requires 0 <= i < |c| => w - c[i])
  }

  /** Half-cleaning the halves x, y of a bitonic sequence: u collects the minima, v the maxima. */
  ghost predicate HalfCleaned(x: seq<nat>, y: seq<nat>, u: seq<nat>, v: seq<nat>, w: nat) {
    && |x| == |y| == |u| == |v| > 0
    && Bounded(x, w) && Bounded(y, w)
    && forall i :: 0 <= i < |x| ==> u[i] == Lo(x[i], y[i], w) && v[i] == Hi(x[i], y[i], w)
  }

  ghost predicate Separated(u: seq<nat>, v: seq<nat>, w: nat) {
    Flat(u, 0, |u|, 0) || Flat(v, 0, |v|, w)
  }

  /** One half is empty: the other one moves to the maxima unchanged. */
  lemma HalfCleanEmpty(x: seq<nat>, y: seq<nat>, u: seq<nat>, v: seq<nat>, w: nat, p: nat, q: nat)
    requires HalfCleaned(x, y, u, v, w)
    requires (Flat(x, 0, |x|, 0) && TwoEdges(y, 0, w, p, q)) || (Flat(y, 0, |y|, 0) && TwoEdges(x, 0, w, p, q))
    ensures Bitonic(u, w) && Bitonic(v, w) && Separated(u, v, w)
  {
    assert Flat(u, 0, |u|, 0);
    assert TwoEdges(u, 0, w, 0, 0);
    assert TwoEdges(v, 0, w, p, q);
  }

  /** The left half rises at p and the right half falls at q. */
  lemma HalfCleanAcross(x: seq<nat>, y: seq<nat>, u: seq<nat>, v: seq<nat>, w: nat, p: nat, q: nat)
    requires HalfCleaned(x, y, u, v, w)
    requires RisesAt(x, w, p) && FallsAt(y, w, q)
    ensures Bitonic(u, w) && Bitonic(v, w) && Separated(u, v, w)
  {
    if p < q {
      assert TwoEdges(u, 0, w, p, q);
      assert Flat(v, 0, |v|, w);
      assert TwoEdges(v, w, 0, p, p);
    } else if p == q {
      assert TwoEdges(u, 0, w, p, p);
      assert TwoEdges(v, w, 0, p, p);
      assert u[p] == 0 || v[p] == w;
    } else {
      assert Flat(u, 0, |u|, 0);
      assert TwoEdges(u, 0, w, 0, 0);
      assert TwoEdges(v, w, 0, q, p);
    }
  }

  lemma HalfCleanHill(x: seq<nat>, y: seq<nat>, u: seq<nat>, v: seq<nat>, w: nat, p: nat, q: nat)
    requires HalfCleaned(x, y, u, v, w)
    requires TwoEdges(x + y, 0, w, p, q)
    ensures Bitonic(u, w) && Bitonic(v, w) && Separated(u, v, w)
  {
    var h := |x|;
    assert forall i :: 0 <= i < h ==> x[i] == (x + y)[i];
    assert forall i :: 0 <= i < h ==> y[i] == (x + y)[h + i];
    if q < h {
      HalfCleanEmpty(x, y, u, v, w, p, q);
    } else if p >= h {
      HalfCleanEmpty(x, y, u, v, w, p - h, q - h);
    } else {
      HalfCleanAcross(x, y, u, v, w, p, q - h);
    }
  }

  lemma HalfClean(x: seq<nat>, y: seq<nat>, u: seq<nat>, v: seq<nat>, w: nat)
    requires HalfCleaned(x, y, u, v, w)
    requires Bitonic(x + y, w)
    ensures Bitonic(u, w) && Bitonic(v, w) && Separated(u, v, w)
  {
    var p: nat, q: nat :| TwoEdges(x + y, 0, w, p, q) || TwoEdges(x + y, w, 0, p, q);
    if TwoEdges(x + y, 0, w, p, q) {
      HalfCleanHill(x, y, u, v, w, p, q);
    } else {
      HalfCleanValley(x, y, u, v, w, p, q);
    }
  }

  /** Complementing swaps minima and maxima, hills and valleys. */
  lemma HalfCleanValley(x: seq<nat>, y: seq<nat>, u: seq<nat>, v: seq<nat>, w: nat, p: nat, q: nat)
    requires HalfCleaned(x, y, u, v, w)
    requires TwoEdges(x + y, w, 0, p, q)
    ensures Bitonic(u, w) && Bitonic(v, w) && Separated(u, v, w)
  {
    ComplementCleaned(x, y, u, v, w);
    var x', y', u', v' := Complement(x, w), Complement(y, w), Complement(v, w), Complement(u, w);
    assert forall i :: 0 <= i < |x + y| ==> (x' + y')[i] == w - (x + y)[i];
    HalfCleanHill(x', y', u', v', w, p, q);
    ComplementBitonic(u', w);
    ComplementBitonic(v', w);
    ComplementTwice(u, w);
    ComplementTwice(v, w);
    ComplementFlat(v, w, w);
    ComplementFlat(u, 0, w);
  }

  lemma ComplementCleaned(x: seq<nat>, y: seq<nat>, u: seq<nat>, v: seq<nat>, w: nat)
    requires HalfCleaned(x, y, u, v, w)
    ensures Bounded(u, w) && Bounded(v, w)
    ensures HalfCleaned(Complement(x, w), Complement(y, w), Complement(v, w), Complement(u, w), w)
  {
  }

  lemma ComplementTwice(c: seq<nat>, w: nat)
    requires Bounded(c, w)
    ensures Complement(Complement(c, w), w) == c
  {
  }

  lemma ComplementFlat(c: seq<nat>, v: nat, w: nat)
    requires Bounded(c, w) && v <= w
    ensures Flat(Complement(c, w), 0, |c|, w - v) ==> Flat(c, 0, |c|, v)
  {
    assert forall i :: 0 <= i < |c| ==> Complement(c, w)[i] == w - c[i];
  }

  lemma ComplementBitonic(c: seq<nat>, w: nat)
    requires Bounded(c, w) && Bitonic(c, w)
    ensures Bitonic(Complement(c, w), w)
  {
    var p: nat, q: nat :| TwoEdges(c, 0, w, p, q) || TwoEdges(c, w, 0, p, q);
    var d := Complement(c, w);
    assert TwoEdges(d, 0, w, p, q) || TwoEdges(d, w, 0, p, q);
  }

  /** Whether the network sorts the block around `lane` upwards. */
  predicate Up(lane: nat, size: nat, descending: bool)
    requires size > 0
  {
    InAscendingBlock(lane, size) != descending
  }

  /** Cells a, ..., a + size - 1 are one of the groups of `size` cells that tile n cells. */
  predicate GroupAt(n: nat, a: nat, size: nat) {
    size > 0 && a % size == 0 && a + size <= n
  }

  function Span(c: seq<nat>, a: nat, size: nat): (s: seq<nat>)
    requires a + size <= |c|
    ensures |s| == size
  {
    c[a..a + size]
  }

  lemma SpanHalves(c: seq<nat>, a: nat, h: nat)
    requires a + 2 * h <= |c|
    ensures Span(c, a, 2 * h) == Span(c, a, h) + Span(c, a + h, h)
  {
  }

  /** The halves of a group are groups, an even and an odd one. */
  lemma GroupHalves(n: nat, a: nat, h: nat)
    requires GroupAt(n, a, 2 * h)
    ensures h > 0 && GroupAt(n, a, h) && GroupAt(n, a + h, h)
    ensures a / h % 2 == 0 && (a + h) / h % 2 == 1
  {
    var t := a / (2 * h);
    HalfStarts(t, h, a);
    DivMod(2 * t, h, 0);
    DivMod(2 * t + 1, h, 0);
  }

  lemma HalfStarts(t: nat, h: nat, a: nat)
    requires a == t * (2 * h)
    ensures a == (2 * t) * h && a + h == (2 * t + 1) * h
  {
    Distribute(2 * t, 1, h);
  }

  lemma StageBounded(c: seq<nat>, w: nat, size: nat, stride: nat, descending: bool)
    requires StageShape(|c|, size, stride) && Bounded(c, w)
    ensures Bounded(Stage(c, w, size, stride, descending), w)
  {
    forall lane | 0 <= lane < |c|
      ensures Cell(c, w, size, stride, descending, lane) <= w
    {
      PartnerProperties(|c|, size, stride, descending, lane);
    }
  }

  /** The comparator between cells a + i and a + stride + i of the group at a. */
  lemma StageOnPair(n: nat, size: nat, stride: nat, descending: bool, a: nat, i: nat)
    requires StageShape(n, size, stride) && GroupAt(n, a, 2 * stride) && i < stride
    ensures var up := Up(a, size, descending);
            && SelectMin(a + i, size, stride, descending) == up && Partner(a + i, stride) == a + stride + i
            && SelectMin(a + stride + i, size, stride, descending) == !up && Partner(a + stride + i, stride) == a + i
  {
    var t := a / (2 * stride);
    assert a == t * (2 * stride);
    PairLanes(t, stride, i);
    GroupLanes(size, stride, t, a, a + i);
    GroupLanes(size, stride, t, a, a + stride + i);
  }

  lemma GroupLanes(size: nat, stride: nat, t: nat, a: nat, lane: nat)
    requires IsPow2(size) && IsPow2(stride) && 2 * stride <= size
    requires a == t * (2 * stride) && a <= lane < a + 2 * stride
    ensures size > 0 && lane / size == a / size
  {
    Distribute(t, 1, 2 * stride);
    GroupInBlock(size, stride, t, lane);
  }

  /** The comparator between cells a + i and b + i has put the minimum first or last. */
  predicate CellsCleaned(c: seq<nat>, r: seq<nat>, w: nat, a: nat, b: nat, i: nat, up: bool)
    requires a + i < |c| == |r| && b + i < |c|
  {
    var lo, hi := Lo(c[a + i], c[b + i], w), Hi(c[a + i], c[b + i], w);
    if up then r[a + i] == lo && r[b + i] == hi else r[a + i] == hi && r[b + i] == lo
  }

  lemma StageCells(c: seq<nat>, w: nat, size: nat, stride: nat, descending: bool, a: nat, b: nat, i: nat)
    requires StageShape(|c|, size, stride) && GroupAt(|c|, a, 2 * stride) && i < stride && b == a + stride
    ensures CellsCleaned(c, Stage(c, w, size, stride, descending), w, a, b, i, Up(a, size, descending))
  {
    StageOnPair(|c|, size, stride, descending, a, i);
  }

  /** A stage half-cleans every group of 2*stride cells, in the direction of its block. */
  lemma StageOnGroup(c: seq<nat>, w: nat, size: nat, stride: nat, descending: bool, a: nat)
    requires StageShape(|c|, size, stride) && Bounded(c, w) && GroupAt(|c|, a, 2 * stride)
    ensures var r := Stage(c, w, size, stride, descending);
            var x, y := Span(c, a, stride), Span(c, a + stride, stride);
            var u, v := Span(r, a, stride), Span(r, a + stride, stride);
            if Up(a, size, descending) then HalfCleaned(x, y, u, v, w) else HalfCleaned(x, y, v, u, w)
  {
    StageCleans(c, w, size, stride, descending, a, a + stride);
    CleanedSpans(c, Stage(c, w, size, stride, descending), w, a, a + stride, stride, Up(a, size, descending));
  }

  lemma StageCleans(c: seq<nat>, w: nat, size: nat, stride: nat, descending: bool, a: nat, b: nat)
    requires StageShape(|c|, size, stride) && GroupAt(|c|, a, 2 * stride) && b == a + stride
    ensures var r, up := Stage(c, w, size, stride, descending), Up(a, size, descending);
            forall i: nat :: i < stride ==> CellsCleaned(c, r, w, a, b, i, up)
  {
    var r, up := Stage(c, w, size, stride, descending), Up(a, size, descending);
    forall i: nat | i < stride
      ensures CellsCleaned(c, r, w, a, b, i, up)
    {
      StageCells(c, w, size, stride, descending, a, b, i);
    }
  }

  lemma CleanedSpans(c: seq<nat>, r: seq<nat>, w: nat, a: nat, b: nat, stride: nat, up: bool)
    requires b == a + stride && b + stride <= |c| == |r| && stride > 0 && Bounded(c, w)
    requires forall i: nat :: i < stride ==> CellsCleaned(c, r, w, a, b, i, up)
    ensures var x, y, u, v := Span(c, a, stride), Span(c, b, stride), Span(r, a, stride), Span(r, b, stride);
            if up then HalfCleaned(x, y, u, v, w) else HalfCleaned(x, y, v, u, w)
  {
    var x, y, u, v := Span(c, a, stride), Span(c, b, stride), Span(r, a, stride), Span(r, b, stride);
    forall i | 0 <= i < stride
      ensures u[i] == (if up then Lo(x[i], y[i], w) else Hi(x[i], y[i], w))
      ensures v[i] == (if up then Hi(x[i], y[i], w) else Lo(x[i], y[i], w))
    {
      assert CellsCleaned(c, r, w, a, b, i, up);
    }
  }

  lemma SortedConcat(u: seq<nat>, v: seq<nat>, w: nat, up: bool)
    requires Sorted(u, w, up) && Sorted(v, w, up)
    requires if up then Separated(u, v, w) else Separated(v, u, w)
    ensures Sorted(u + v, w, up)
  {
    var p: nat :| if up then RisesAt(u, w, p) else FallsAt(u, w, p);
    var q: nat :| if up then RisesAt(v, w, q) else FallsAt(v, w, q);
    var s := u + v;
    if up {
      assert RisesAt(s, w, p) || RisesAt(s, w, |u| + q);
    } else {
      assert FallsAt(s, w, p) || FallsAt(s, w, |u| + q);
    }
  }

  /** The halves of a group are the groups at half the stride, in the same block. */
  lemma SubGroups(n: nat, size: nat, stride: nat, descending: bool, a: nat) returns (h: nat)
    requires PhaseShape(n, size, stride) && stride > 1 && GroupAt(n, a, 2 * stride)
    ensures 1 <= h < stride && 2 * h == stride && PhaseShape(n, size, h)
    ensures GroupAt(n, a, stride) && GroupAt(n, a + stride, stride)
    ensures Up(a + stride, size, descending) == Up(a, size, descending)
  {
    h := stride / 2;
    GroupHalves(n, a, stride);
    GroupLanes(size, stride, a / (2 * stride), a, a + stride);
  }

  /** Merging keeps a group of empty (or of full) cells as it is. */
  lemma {:induction false} MergeFlat(c: seq<nat>, w: nat, size: nat, stride: nat, descending: bool, a: nat, v: nat)
    requires PhaseShape(|c|, size, stride) && stride >= 1 && Bounded(c, w)
    requires GroupAt(|c|, a, 2 * stride) && (v == 0 || v == w)
    requires Flat(Span(c, a, 2 * stride), 0, 2 * stride, v)
    ensures Flat(Span(Merge(c, w, size, stride, descending), a, 2 * stride), 0, 2 * stride, v)
    decreases stride
  {
    var r, m := Stage(c, w, size, stride, descending), Merge(c, w, size, stride, descending);
    StageFlat(c, w, size, stride, descending, a, v);
    SpanHalves(m, a, stride);
    if stride == 1 {
      assert m == r;
    } else {
      StageBounded(c, w, size, stride, descending);
      var h := SubGroups(|c|, size, stride, descending, a);
      MergeFlat(r, w, size, h, descending, a, v);
      MergeFlat(r, w, size, h, descending, a + stride, v);
    }
  }

  lemma StageFlat(c: seq<nat>, w: nat, size: nat, stride: nat, descending: bool, a: nat, v: nat)
    requires StageShape(|c|, size, stride) && Bounded(c, w)
    requires GroupAt(|c|, a, 2 * stride) && (v == 0 || v == w)
    requires Flat(Span(c, a, 2 * stride), 0, 2 * stride, v)
    ensures var r := Stage(c, w, size, stride, descending);
            Flat(Span(r, a, stride), 0, stride, v) && Flat(Span(r, a + stride, stride), 0, stride, v)
  {
    StageOnGroup(c, w, size, stride, descending, a);
    var x, y, z := Span(c, a, stride), Span(c, a + stride, stride), Span(c, a, 2 * stride);
    assert forall i :: 0 <= i < stride ==> x[i] == z[i];
    assert forall i :: 0 <= i < stride ==> y[i] == z[stride + i];
  }

  /** Half-cleaning a bitonic group leaves two bitonic groups in the right order. */
  lemma StageSeparates(c: seq<nat>, w: nat, size: nat, stride: nat, descending: bool, a: nat)
    requires StageShape(|c|, size, stride) && Bounded(c, w)
    requires GroupAt(|c|, a, 2 * stride) && Bitonic(Span(c, a, 2 * stride), w)
    ensures var r := Stage(c, w, size, stride, descending);
            var u, v := Span(r, a, stride), Span(r, a + stride, stride);
            && Bitonic(u, w) && Bitonic(v, w)
            && if Up(a, size, descending) then Separated(u, v, w) else Separated(v, u, w)
  {
    var r := Stage(c, w, size, stride, descending);
    StageOnGroup(c, w, size, stride, descending, a);
    SpanHalves(c, a, stride);
    var x, y, u, v := Span(c, a, stride), Span(c, a + stride, stride), Span(r, a, stride), Span(r, a + stride, stride);
    if Up(a, size, descending) {
      HalfClean(x, y, u, v, w);
    } else {
      HalfClean(x, y, v, u, w);
    }
  }

  /** Merging sorts every bitonic group in the direction of its block. */
  lemma {:induction false} MergeSorts(c: seq<nat>, w: nat, size: nat, stride: nat, descending: bool, a: nat)
    requires PhaseShape(|c|, size, stride) && stride >= 1 && Bounded(c, w)
    requires GroupAt(|c|, a, 2 * stride) && Bitonic(Span(c, a, 2 * stride), w)
    ensures Sorted(Span(Merge(c, w, size, stride, descending), a, 2 * stride), w, Up(a, size, descending))
    decreases stride
  {
    var up := Up(a, size, descending);
    var r, m := Stage(c, w, size, stride, descending), Merge(c, w, size, stride, descending);
    StageSeparates(c, w, size, stride, descending, a);
    if stride == 1 {
      assert m == r;
      SingleSorted(Span(m, a, 1), w, up);
      SingleSorted(Span(m, a + 1, 1), w, up);
    } else {
      StageBounded(c, w, size, stride, descending);
      var h := SubGroups(|c|, size, stride, descending, a);
      MergeSorts(r, w, size, h, descending, a);
      MergeSorts(r, w, size, h, descending, a + stride);
      MergeKeepsApart(r, w, size, h, descending, a, a + stride);
    }
    JoinHalves(m, w, stride, a, up);
  }

  lemma JoinHalves(m: seq<nat>, w: nat, stride: nat, a: nat, up: bool)
    requires a + 2 * stride <= |m|
    ensures var u, v := Span(m, a, stride), Span(m, a + stride, stride);
            Sorted(u, w, up) && Sorted(v, w, up) && (if up then Separated(u, v, w) else Separated(v, u, w)) ==>
              Sorted(Span(m, a, 2 * stride), w, up)
  {
    SpanHalves(m, a, stride);
    var u, v := Span(m, a, stride), Span(m, a + stride, stride);
    if Sorted(u, w, up) && Sorted(v, w, up) && (if up then Separated(u, v, w) else Separated(v, u, w)) {
      SortedConcat(u, v, w, up);
    }
  }

  lemma SingleSorted(c: seq<nat>, w: nat, up: bool)
    requires |c| == 1
    ensures Sorted(c, w, up)
  {
    assert if up then RisesAt(c, w, 0) else FallsAt(c, w, 0);
  }

  lemma MergeKeepsFlat(c: seq<nat>, w: nat, size: nat, stride: nat, descending: bool, a: nat)
    requires PhaseShape(|c|, size, stride) && stride >= 1 && Bounded(c, w) && GroupAt(|c|, a, 2 * stride)
    ensures var s, m := Span(c, a, 2 * stride), Span(Merge(c, w, size, stride, descending), a, 2 * stride);
            && (Flat(s, 0, |s|, 0) ==> Flat(m, 0, |m|, 0))
            && (Flat(s, 0, |s|, w) ==> Flat(m, 0, |m|, w))
  {
    var s := Span(c, a, 2 * stride);
    if Flat(s, 0, |s|, 0) {
      MergeFlat(c, w, size, stride, descending, a, 0);
    }
    if Flat(s, 0, |s|, w) {
      MergeFlat(c, w, size, stride, descending, a, w);
    }
  }

  lemma MergeKeepsApart(c: seq<nat>, w: nat, size: nat, stride: nat, descending: bool, a: nat, b: nat)
    requires PhaseShape(|c|, size, stride) && stride >= 1 && Bounded(c, w)
    requires GroupAt(|c|, a, 2 * stride) && GroupAt(|c|, b, 2 * stride)
    ensures var m := Merge(c, w, size, stride, descending);
            var u, v := Span(c, a, 2 * stride), Span(c, b, 2 * stride);
            var u', v' := Span(m, a, 2 * stride), Span(m, b, 2 * stride);
            (Separated(u, v, w) ==> Separated(u', v', w)) && (Separated(v, u, w) ==> Separated(v', u', w))
  {
    MergeKeepsFlat(c, w, size, stride, descending, a);
    MergeKeepsFlat(c, w, size, stride, descending, b);
  }

  /** Blocks of `size` cells are sorted alternately up and down. */
  ghost predicate BlocksSorted(c: seq<nat>, w: nat, size: nat, descending: bool) {
    forall a: nat :: GroupAt(|c|, a, size) ==> Sorted(Span(c, a, size), w, Up(a, size, descending))
  }

  lemma UpDownIsBitonic(u: seq<nat>, v: seq<nat>, w: nat, up: bool)
    requires Sorted(u, w, up) && Sorted(v, w, !up)
    ensures Bitonic(u + v, w)
  {
    var p: nat :| if up then RisesAt(u, w, p) else FallsAt(u, w, p);
    var q: nat :| if !up then RisesAt(v, w, q) else FallsAt(v, w, q);
    if up {
      assert TwoEdges(u + v, 0, w, p, |u| + q);
    } else {
      assert TwoEdges(u + v, w, 0, p, |u| + q);
    }
  }

  lemma {:induction false} MergeBounded(c: seq<nat>, w: nat, size: nat, stride: nat, descending: bool)
    requires PhaseShape(|c|, size, stride) && Bounded(c, w)
    ensures Bounded(Merge(c, w, size, stride, descending), w)
    decreases stride
  {
    if stride > 0 {
      StageBounded(c, w, size, stride, descending);
      MergeBounded(Stage(c, w, size, stride, descending), w, size, stride / 2, descending);
    }
  }

  /** One phase turns alternately sorted half-blocks into alternately sorted blocks. */
  lemma PhaseSorts(c: seq<nat>, w: nat, size: nat, descending: bool)
    requires PhaseShape(|c|, size, size / 2) && size >= 2 && Bounded(c, w)
    requires BlocksSorted(c, w, size / 2, descending)
    ensures BlocksSorted(Merge(c, w, size, size / 2, descending), w, size, descending)
  {
    var h, m := size / 2, Merge(c, w, size, size / 2, descending);
    forall a: nat | GroupAt(|c|, a, size)
      ensures Sorted(Span(m, a, size), w, Up(a, size, descending))
    {
      GroupHalves(|c|, a, h);
      SpanHalves(c, a, h);
      UpDownIsBitonic(Span(c, a, h), Span(c, a + h, h), w, !descending);
      MergeSorts(c, w, size, h, descending, a);
    }
  }

  lemma {:induction false} NetworkBlocks(c: seq<nat>, w: nat, size: nat, descending: bool)
    requires IsPow2(|c|) && IsPow2(size) && 2 <= size <= 2 * |c| && Bounded(c, w)
    requires BlocksSorted(c, w, size / 2, descending)
    ensures BlocksSorted(Network(c, w, size, descending), w, |c|, descending)
    decreases 2 * |c| - size
  {
    Pow2Pos(size);
    if size <= |c| {
      PhaseSorts(c, w, size, descending);
      MergeBounded(c, w, size, size / 2, descending);
      NetworkBlocks(Merge(c, w, size, size / 2, descending), w, 2 * size, descending);
    } else {
      var m := Pow2Quotient(size / 2, |c|);
      assert m == 1 by {
        if m >= 2 {
          MulMonotone(2, m, size / 2);
        }
      }
    }
  }

  /** The counting network sorts: empty cells, one partial cell, full cells. */
  lemma NetworkSorts(c: seq<nat>, w: nat, descending: bool)
    requires IsPow2(|c|) && Bounded(c, w)
    ensures Sorted(Network(c, w, 2, descending), w, !descending)
  {
    forall a: nat | GroupAt(|c|, a, 1)
      ensures Sorted(Span(c, a, 1), w, Up(a, 1, descending))
    {
      SingleSorted(Span(c, a, 1), w, Up(a, 1, descending));
    }
    NetworkBlocks(c, w, 2, descending);
    var r := Network(c, w, 2, descending);
    assert GroupAt(|r|, 0, |r|) && Span(r, 0, |r|) == r;
  }
}
