/** When the stable template is stable: for every input exactly when there are at most two chunks.
    Blocks sorted downwards keep equal values in increasing index order, which is not the reverse of
    the upward order, so a later merge can put the second half of a run of equal values first. */
module SortStability {
  import opened Arithmetic
  import opened BitonicLanes
  import opened PairOrder
  import opened ChunkNetwork
  import opened ChunkConservation
  import opened SortKernel
  import opened Sequences
  import V = VectorSort
  import CN = CountNetwork

  /** The row that the stable kernel leaves in the buffers. */
  function StableRow(x: seq<real>, n: nat, descending: bool): seq<Elem>
    requires IsPow2(n) && |x| == 16 * n
  {
    Flatten(KernelSort(Input(x, n), 16, true, descending))
  }

  /** What a stable sort promises: ordered by value, ties by original index. */
  ghost predicate StableOn(x: seq<real>, n: nat, descending: bool)
    requires IsPow2(n) && |x| == 16 * n
  {
    InOrder(StableRow(x, n, descending), true, descending)
  }

  // ----- a vector that is already in order is left alone -----

  lemma BeforeAntisymmetric(descending: bool, x: Elem, y: Elem)
    requires Before(true, descending, x, y) && Before(true, descending, y, x)
    ensures x == y
  {
  }

  lemma FirstComesFirst(a: seq<Elem>, e: Elem, descending: bool)
    requires InOrder(a, true, descending) && e in multiset(a)
    ensures a[0] == e || Before(true, descending, a[0], e)
  {
    var j :| 0 <= j < |a| && a[j] == e;
  }

  lemma {:induction false} InOrderUnique(a: seq<Elem>, b: seq<Elem>, descending: bool)
    requires InOrder(a, true, descending) && InOrder(b, true, descending) && multiset(a) == multiset(b)
    ensures a == b
    decreases |a|
  {
    SameLength(a, b);
    if |a| > 0 {
      assert a[0] in multiset(a) && b[0] in multiset(b);
      FirstComesFirst(a, b[0], descending);
      FirstComesFirst(b, a[0], descending);
      if a[0] != b[0] {
        BeforeAntisymmetric(descending, a[0], b[0]);
      }
      TailMultiset(a);
      TailMultiset(b);
      InOrderUnique(a[1..], b[1..], descending);
      assert a == [a[0]] + a[1..] && b == [b[0]] + b[1..];
    }
  }

  lemma SameLength(a: seq<Elem>, b: seq<Elem>)
    requires multiset(a) == multiset(b)
    ensures |a| == |b|
  {
    assert |multiset(a)| == |a| && |multiset(b)| == |b|;
  }

  lemma SortedStays(s: seq<Elem>, t: seq<Elem>, descending: bool)
    requires IsPow2(|s|) && multiset(s) == multiset(t) && InOrder(t, true, descending)
    ensures V.SortPair(s, true, descending) == t
  {
    V.SortPairInOrder(s, true, descending);
    V.StableSortPairPermutes(s, descending);
    InOrderUnique(V.SortPair(s, true, descending), t, descending);
  }

  // ----- chunks that hold one value and consecutive indices -----

  /** Sixteen copies of e.v, indices from 16 * e.i on. */
  function Run(e: Elem): (s: seq<Elem>)
    ensures |s| == 16
  {
    seq(16, l => Elem(e.v, e.i * 16 + l))
  }

  function Runs(k: seq<Elem>): (st: Chunks)
    ensures |st| == |k| && Uniform(st, 16)
  {
    Sixteen();
    seq(|k|, l requires 0 <= l < |k| => Run(k[l]))
  }

  lemma {:induction false} ReversePermutes(s: seq<Elem>)
    ensures multiset(Reversed(s)) == multiset(s)
    decreases |s|
  {
    if |s| > 0 {
      assert Reversed(s) == Reversed(s[1..]) + [s[0]];
      ReversePermutes(s[1..]);
      assert s == [s[0]] + s[1..];
    }
  }

  /** On such chunks a merge-split is a compare-exchange of whole chunks. */
  lemma MergeSplitRuns(x: Elem, y: Elem, down: bool)
    requires x.v != y.v || x.i != y.i
    ensures IsPow2(16)
    ensures MergeSplit(Run(x), Run(y), true, down)
         == if Before(true, down, x, y) then (Run(x), Run(y)) else (Run(y), Run(x))
  {
    Sixteen();
    SortedStays(Run(x), Run(x), down);
    SortedStays(Run(y), Run(y), down);
    var rev := Reversed(Run(y));
    ReversePermutes(Run(y));
    var m := MergeSorted(Run(x), Run(y), true, down);
    if Before(true, down, x, y) {
      assert m.0 == Run(x) && m.1 == rev;
    } else {
      assert m.0 == rev && m.1 == Run(x);
    }
    SortedStays(rev, Run(y), down);
  }

  /** The labels after a stage, given which pairs are exchanged. */
  ghost predicate Exchanged(k: seq<Elem>, r: seq<Elem>, size: nat, stride: nat, descending: bool)
    requires StageShape(|k|, size, stride) && |r| == |k|
  {
    forall l: nat :: l < |k| && IsLower(l, stride) && l + stride < |k| ==>
      var x, y, down := k[l], k[l + stride], !CN.Up(l, size, descending);
      && (x.v != y.v || x.i != y.i)
      && (r[l], r[l + stride]) == if Before(true, down, x, y) then (x, y) else (y, x)
  }

  lemma StageRuns(k: seq<Elem>, r: seq<Elem>, size: nat, stride: nat, descending: bool)
    requires StageShape(|k|, size, stride) && |r| == |k| && Exchanged(k, r, size, stride, descending)
    ensures Stage(Runs(k), 16, size, stride, true, descending) == Runs(r)
  {
    var st := Runs(k);
    forall l: nat | l < |k|
      ensures Cell(st, 16, size, stride, true, descending, l) == Run(r[l])
    {
      PartnerProperties(|k|, size, stride, descending, l);
      var p := Partner(l, stride);
      PartnerProperties(|k|, size, stride, descending, p);
      var lo, hi := if IsLower(l, stride) then l else p, if IsLower(l, stride) then p else l;
      assert IsLower(lo, stride) && hi == lo + stride;
      MergeSplitRuns(k[lo], k[hi], !CN.Up(lo, size, descending));
    }
  }

  // ----- the witness: quarters of the row hold 0, 2, 1 and 1 (negated when descending) -----

  function QuarterValue(quarter: nat, descending: bool): real {
    var t := if quarter == 0 then 0.0 else if quarter == 1 then 2.0 else 1.0;
    if descending then -t else t
  }

  function Before4(q: nat, descending: bool): (k: seq<Elem>)
    requires q > 0
    ensures |k| == 4 * q
  {
    seq(4 * q, l requires l >= 0 => Elem(QuarterValue(l / q, descending), l))
  }

  /** After the first stage of the last phase the second and the fourth quarter have changed places. */
  function After4(q: nat, descending: bool): (k: seq<Elem>)
    requires q > 0
    ensures |k| == 4 * q
  {
    seq(4 * q, l requires l >= 0 =>
      if l / q == 1 then Elem(QuarterValue(3, descending), l + 2 * q)
      else if l / q == 3 then Elem(QuarterValue(1, descending), l - 2 * q)
      else Elem(QuarterValue(l / q, descending), l))
  }

  function Witness(n: nat, descending: bool): (x: seq<real>)
    requires n >= 4
    ensures |x| == 16 * n
  {
    seq(16 * n, i requires i >= 0 => QuarterValue(i / 16 / (n / 4), descending))
  }

  lemma QuarterOf(q: nat, quarter: nat, l: nat)
    requires quarter * q <= l < quarter * q + q
    ensures q > 0 && l / q == quarter
  {
    Distribute(quarter, 1, q);
    InBlock(quarter, q, l);
  }

  lemma StrideIsQuarterOrHalf(q: nat, stride: nat)
    requires IsPow2(q) && IsPow2(stride) && q < 2 * stride <= 4 * q
    ensures stride == q || stride == 2 * q
  {
    if stride <= q {
      LastPhase(q, stride);
    } else {
      var m := Pow2Quotient(q, stride);
      if m >= 3 {
        MulMonotone(3, m, q);
      }
    }
  }

  lemma QuarterRange(q: nat, l: nat)
    requires q > 0 && l < 4 * q
    ensures l / q <= 3 && l / q * q <= l < l / q * q + q
  {
    var quarter := l / q;
    assert l == quarter * q + l % q;
    if quarter >= 4 {
      MulMonotone(4, quarter, q);
    }
  }

  function Quarter(q: nat, l: nat): nat
    requires q > 0
  {
    l / q
  }

  lemma SameQuarter(q: nat, stride: nat, l: nat)
    requires IsPow2(q) && IsPow2(stride) && 2 * stride <= q && IsLower(l, stride)
    ensures l / q == (l + stride) / q
  {
    var group, r := LaneOfGroup(l, stride);
    Distribute(group, 1, 2 * stride);
    GroupInBlock(q, stride, group, l);
    GroupInBlock(q, stride, group, l + stride);
  }

  lemma NextQuarter(q: nat, l: nat)
    requires q > 0 && l + q < 4 * q && l / q % 2 == 0
    ensures (l / q == 0 || l / q == 2) && (l + q) / q == l / q + 1
  {
    QuarterRange(q, l);
    Distribute(l / q, 1, q);
    QuarterOf(q, l / q + 1, l + q);
  }

  lemma QuarterOfHalf(q: nat, l: nat)
    requires q > 0 && l + 2 * q < 4 * q
    ensures l / q <= 1 && (l + 2 * q) / q == l / q + 2
  {
    QuarterRange(q, l);
    if l / q >= 2 {
      MulMonotone(2, l / q, q);
    }
    Distribute(l / q, 2, q);
    QuarterOf(q, l / q + 2, l + 2 * q);
  }

  /** Where the two lanes of a pair lie: in one quarter, in neighbouring quarters, or half a row apart. */
  predicate PairPlace(q: nat, stride: nat, a: nat, b: nat) {
    a <= 3 && (
      || a == b
      || (stride == q && (a == 0 || a == 2) && b == a + 1)
      || (stride == 2 * q && a <= 1 && b == a + 2))
  }

  lemma FarPair(q: nat, stride: nat, l: nat)
    requires q > 0 && (stride == q || stride == 2 * q)
    requires l + stride < 4 * q && IsLower(l, stride)
    ensures PairPlace(q, stride, Quarter(q, l), Quarter(q, l + stride))
  {
    if stride == q {
      NextQuarter(q, l);
    } else {
      QuarterOfHalf(q, l);
    }
  }

  lemma NearPair(q: nat, stride: nat, l: nat)
    requires q > 0 && l + stride < 4 * q && Quarter(q, l) == Quarter(q, l + stride)
    ensures PairPlace(q, stride, Quarter(q, l), Quarter(q, l + stride))
  {
    QuarterRange(q, l);
  }

  lemma PairQuarters(q: nat, stride: nat, l: nat) returns (a: nat, b: nat)
    requires q > 0 && IsPow2(q) && IsPow2(stride) && 2 * stride <= 4 * q
    requires l + stride < 4 * q && IsLower(l, stride)
    ensures a == Quarter(q, l) && b == Quarter(q, l + stride) && PairPlace(q, stride, a, b)
  {
    a, b := Quarter(q, l), Quarter(q, l + stride);
    if 2 * stride <= q {
      SameQuarter(q, stride, l);
      NearPair(q, stride, l);
    } else {
      StrideIsQuarterOrHalf(q, stride);
      FarPair(q, stride, l);
    }
  }

  /** Labels whose pairs are all in order: the stage changes nothing. */
  lemma OrderedStageStays(k: seq<Elem>, size: nat, stride: nat, descending: bool)
    requires StageShape(|k|, size, stride)
    requires forall l: nat :: l < |k| && IsLower(l, stride) && l + stride < |k| ==>
      (k[l].v != k[l + stride].v || k[l].i != k[l + stride].i)
      && Before(true, !CN.Up(l, size, descending), k[l], k[l + stride])
    ensures Stage(Runs(k), 16, size, stride, true, descending) == Runs(k)
  {
    StageRuns(k, k, size, stride, descending);
  }

  lemma TopBlock(q: nat, size: nat, descending: bool, l: nat)
    requires q > 0 && ((size == 4 * q && l < 4 * q) || (size == 2 * q && l < 2 * q))
    ensures CN.Up(l, size, descending) == !descending
  {
    DivMod(0, size, l);
  }

  lemma LabelAt(q: nat, descending: bool, l: nat)
    requires q > 0 && l < 4 * q
    ensures Before4(q, descending)[l] == Elem(QuarterValue(l / q, descending), l)
    ensures After4(q, descending)[l] == LabelAfter(q, descending, l / q, l)
  {
  }

  /** What chunk l of quarter a holds after the first stage of the last phase. */
  function LabelAfter(q: nat, descending: bool, a: nat, l: nat): Elem {
    if a == 1 then Elem(QuarterValue(3, descending), l + 2 * q)
    else if a == 3 then Elem(QuarterValue(1, descending), l - 2 * q)
    else Elem(QuarterValue(a, descending), l)
  }

  lemma LateLabels(q: nat, stride: nat, descending: bool, a: nat, b: nat, l: nat)
    requires 0 < stride <= q && PairPlace(q, stride, a, b)
    ensures var x, y := LabelAfter(q, descending, a, l), LabelAfter(q, descending, b, l + stride);
            (x.v != y.v || x.i != y.i) && Before(true, descending, x, y)
  {
  }

  lemma EarlyPair(q: nat, size: nat, stride: nat, descending: bool, l: nat)
    requires IsPow2(q) && IsPow2(4 * q) && StageShape(4 * q, size, stride) && size <= 2 * q
    requires l + stride < 4 * q && IsLower(l, stride)
    ensures var x, y := Before4(q, descending)[l], Before4(q, descending)[l + stride];
            x.i != y.i && Before(true, !CN.Up(l, size, descending), x, y)
  {
    Pow2Pos(q);
    Pow2Pos(stride);
    var a, b := PairQuarters(q, stride, l);
    LabelAt(q, descending, l);
    LabelAt(q, descending, l + stride);
    if a == 0 && b == 1 {
      QuarterRange(q, l);
      TopBlock(q, size, descending, l);
    }
  }

  /** All stages of the phases below the last one leave the witness as it is. */
  lemma EarlyStage(q: nat, size: nat, stride: nat, descending: bool)
    requires IsPow2(q) && IsPow2(4 * q) && StageShape(4 * q, size, stride) && size <= 2 * q
    ensures Stage(Runs(Before4(q, descending)), 16, size, stride, true, descending) == Runs(Before4(q, descending))
  {
    var k := Before4(q, descending);
    forall l: nat | l < 4 * q && IsLower(l, stride) && l + stride < 4 * q
      ensures k[l].i != k[l + stride].i && Before(true, !CN.Up(l, size, descending), k[l], k[l + stride])
    {
      EarlyPair(q, size, stride, descending, l);
    }
    OrderedStageStays(k, size, stride, descending);
  }

  lemma HalfPair(q: nat, descending: bool, l: nat)
    requires IsPow2(q) && StageShape(4 * q, 4 * q, 2 * q)
    requires l + 2 * q < 4 * q && IsLower(l, 2 * q)
    ensures q > 0
    ensures var x, y := Before4(q, descending)[l], Before4(q, descending)[l + 2 * q];
            var down := !CN.Up(l, 4 * q, descending);
            && x.i != y.i
            && (After4(q, descending)[l], After4(q, descending)[l + 2 * q])
               == if Before(true, down, x, y) then (x, y) else (y, x)
  {
    Pow2Pos(q);
    var a, b := PairQuarters(q, 2 * q, l);
    QuarterOfHalf(q, l);
    LabelAt(q, descending, l);
    LabelAt(q, descending, l + 2 * q);
    TopBlock(q, 4 * q, descending, l);
  }

  /** The first stage of the last phase exchanges the second and the fourth quarter. */
  lemma HalfStage(q: nat, descending: bool)
    requires IsPow2(q) && StageShape(4 * q, 4 * q, 2 * q)
    ensures q > 0
    ensures Stage(Runs(Before4(q, descending)), 16, 4 * q, 2 * q, true, descending) == Runs(After4(q, descending))
  {
    Pow2Pos(q);
    var k, r := Before4(q, descending), After4(q, descending);
    forall l: nat | l < 4 * q && IsLower(l, 2 * q) && l + 2 * q < 4 * q
      ensures var x, y, down := k[l], k[l + 2 * q], !CN.Up(l, 4 * q, descending);
              && x.i != y.i && (r[l], r[l + 2 * q]) == if Before(true, down, x, y) then (x, y) else (y, x)
    {
      HalfPair(q, descending, l);
    }
    StageRuns(k, r, 4 * q, 2 * q, descending);
  }

  lemma LatePair(q: nat, stride: nat, descending: bool, l: nat)
    requires IsPow2(q) && StageShape(4 * q, 4 * q, stride) && stride <= q
    requires l + stride < 4 * q && IsLower(l, stride)
    ensures q > 0
    ensures var x, y := After4(q, descending)[l], After4(q, descending)[l + stride];
            (x.v != y.v || x.i != y.i) && Before(true, !CN.Up(l, 4 * q, descending), x, y)
  {
    Pow2Pos(q);
    Pow2Pos(stride);
    var a, b := PairQuarters(q, stride, l);
    LateLabels(q, stride, descending, a, b, l);
    LabelAt(q, descending, l);
    LabelAt(q, descending, l + stride);
    TopBlock(q, 4 * q, descending, l);
  }

  /** The remaining stages of the last phase change nothing. */
  lemma LateStage(q: nat, stride: nat, descending: bool)
    requires IsPow2(q) && StageShape(4 * q, 4 * q, stride) && stride <= q
    ensures q > 0
    ensures Stage(Runs(After4(q, descending)), 16, 4 * q, stride, true, descending) == Runs(After4(q, descending))
  {
    Pow2Pos(q);
    var k := After4(q, descending);
    forall l: nat | l < 4 * q && IsLower(l, stride) && l + stride < 4 * q
      ensures (k[l].v != k[l + stride].v || k[l].i != k[l + stride].i)
           && Before(true, !CN.Up(l, 4 * q, descending), k[l], k[l + stride])
    {
      LatePair(q, stride, descending, l);
    }
    OrderedStageStays(k, 4 * q, stride, descending);
  }

  lemma {:induction false} EarlyPhase(q: nat, size: nat, stride: nat, descending: bool)
    requires IsPow2(q) && IsPow2(4 * q) && CN.PhaseShape(4 * q, size, stride) && size <= 2 * q
    ensures var st := Runs(Before4(q, descending)); Merge(st, 16, size, stride, true, descending) == st
    decreases stride
  {
    if stride > 0 {
      EarlyStage(q, size, stride, descending);
      EarlyPhase(q, size, stride / 2, descending);
    }
  }

  lemma {:induction false} LatePhase(q: nat, stride: nat, descending: bool)
    requires IsPow2(q) && CN.PhaseShape(4 * q, 4 * q, stride) && stride <= q
    ensures var st := Runs(After4(q, descending)); Merge(st, 16, 4 * q, stride, true, descending) == st
    decreases stride
  {
    if stride > 0 {
      LateStage(q, stride, descending);
      LatePhase(q, stride / 2, descending);
    }
  }

  lemma MergeUnfold(st: Chunks, size: nat, stride: nat, half: nat, descending: bool)
    requires Uniform(st, 16) && CN.PhaseShape(|st|, size, stride) && stride == 2 * half > 0
    ensures Merge(st, 16, size, stride, true, descending)
         == Merge(Stage(st, 16, size, stride, true, descending), 16, size, half, true, descending)
  {
  }

  lemma LastMerge(q: nat, descending: bool)
    requires IsPow2(q) && CN.PhaseShape(4 * q, 4 * q, 2 * q)
    ensures q > 0
    ensures Merge(Runs(Before4(q, descending)), 16, 4 * q, 2 * q, true, descending) == Runs(After4(q, descending))
  {
    Pow2Pos(q);
    MergeUnfold(Runs(Before4(q, descending)), 4 * q, 2 * q, q, descending);
    HalfStage(q, descending);
    LatePhase(q, q, descending);
  }

  lemma OnlyPhase(st: Chunks, n: nat, half: nat, descending: bool)
    requires Uniform(st, 16) && IsPow2(n) && n == |st| == 2 * half && n >= 2 && CN.PhaseShape(n, n, half)
    ensures Network(st, 16, n, true, descending) == Merge(st, 16, n, half, true, descending)
  {
    Pow2Pos(n);
    var r := Merge(st, 16, n, half, true, descending);
    assert Network(r, 16, 2 * n, true, descending) == r;
  }

  lemma LastPhaseOfWitness(q: nat, descending: bool)
    requires IsPow2(q) && IsPow2(4 * q)
    ensures q > 0
    ensures Network(Runs(Before4(q, descending)), 16, 4 * q, true, descending) == Runs(After4(q, descending))
  {
    Pow2Pos(q);
    LastMerge(q, descending);
    OnlyPhase(Runs(Before4(q, descending)), 4 * q, 2 * q, descending);
  }

  lemma {:induction false} WitnessNetwork(q: nat, size: nat, descending: bool)
    requires IsPow2(q) && IsPow2(4 * q) && IsPow2(size) && 2 <= size <= 4 * q
    ensures Network(Runs(Before4(q, descending)), 16, size, true, descending) == Runs(After4(q, descending))
    decreases 4 * q - size
  {
    Pow2Pos(q);
    Pow2Pos(2 * q);
    Pow2Pos(size);
    if size <= 2 * q {
      EarlyPhase(q, size, size / 2, descending);
      WitnessNetwork(q, 2 * size, descending);
    } else {
      StrideIsQuarterOrHalf(2 * q, size);
      LastPhaseOfWitness(q, descending);
    }
  }

  lemma WitnessCell(q: nat, descending: bool, c: nat, l: nat)
    requires q > 0 && c < 4 * q && l < 16
    ensures c * 16 + l < 16 * (4 * q)
    ensures Witness(4 * q, descending)[c * 16 + l] == Before4(q, descending)[c].v
  {
    DivMod(c, 16, l);
  }

  lemma WitnessChunk(q: nat, descending: bool, c: nat)
    requires IsPow2(q) && IsPow2(4 * q) && c < 4 * q
    ensures q > 0
    ensures Input(Witness(4 * q, descending), 4 * q)[c] == Run(Before4(q, descending)[c])
  {
    Pow2Pos(q);
    var x, e := Witness(4 * q, descending), Before4(q, descending)[c];
    var chunk := ChunkOf(x, c);
    forall l: nat | l < 16
      ensures chunk[l] == e.v
    {
      WitnessCell(q, descending, c, l);
    }
    var s := Zip(chunk, seq(16, l => c * 16 + l));
    assert forall l :: 0 <= l < 16 ==> s[l] == Run(e)[l];
  }

  lemma WitnessInput(q: nat, descending: bool)
    requires IsPow2(q) && IsPow2(4 * q)
    ensures var st := Runs(Before4(q, descending));
            Input(Witness(4 * q, descending), 4 * q) == st && LocalSort(st, 16, true, descending) == st
  {
    var x, k := Witness(4 * q, descending), Before4(q, descending);
    forall c: nat | c < 4 * q
      ensures Input(x, 4 * q)[c] == Run(k[c])
      ensures V.SortPair(Run(k[c]), true, descending) == Run(k[c])
    {
      WitnessChunk(q, descending, c);
      Sixteen();
      SortedStays(Run(k[c]), Run(k[c]), descending);
    }
  }

  /** The first element of chunk c of the row. */
  lemma RunHead(k: seq<Elem>, c: nat)
    requires c < |k|
    ensures |Flatten(Runs(k))| == 16 * |k| && Flatten(Runs(k))[16 * c] == Elem(k[c].v, k[c].i * 16)
  {
    FlattenAt(Runs(k), 16 * c);
    DivMod(c, 16, 0);
  }

  lemma AfterOutOfOrder(q: nat, descending: bool)
    requires IsPow2(q)
    ensures q > 0 && |Flatten(Runs(After4(q, descending)))| == 64 * q
    ensures var s := Flatten(Runs(After4(q, descending)));
            !Before(true, descending, s[16 * (2 * q - 1)], s[16 * (2 * q)])
  {
    Pow2Pos(q);
    MiddleOutOfOrder(q, descending, 2 * q - 1, 2 * q);
    HeadsOutOfOrder(After4(q, descending), 2 * q - 1, 2 * q, descending);
  }

  lemma HeadsOutOfOrder(k: seq<Elem>, c: nat, d: nat, descending: bool)
    requires c < |k| && d < |k| && k[c].v == k[d].v && k[c].i > k[d].i
    ensures var s := Flatten(Runs(k));
            |s| == 16 * |k| && !Before(true, descending, s[16 * c], s[16 * d])
  {
    RunHead(k, c);
    RunHead(k, d);
  }

  /** The last chunk of the second quarter and the first one of the third. */
  lemma MiddleOutOfOrder(q: nat, descending: bool, c: nat, d: nat)
    requires q > 0 && c + 1 == d == 2 * q
    ensures var k := After4(q, descending); k[c].v == k[d].v && k[c].i > k[d].i
  {
    QuarterOf(q, 1, c);
    QuarterOf(q, 2, d);
    LabelAt(q, descending, c);
    LabelAt(q, descending, d);
  }

  lemma QuarterOfPow2(n: nat) returns (q: nat)
    requires IsPow2(n) && n >= 4
    ensures IsPow2(q) && IsPow2(4 * q) && n == 4 * q && q == n / 4
  {
    q := n / 4;
    assert IsPow2(n / 2) && IsPow2(q) && n == 4 * q;
  }

  /** With four or more chunks some row is sorted with equal values out of index order. */
  lemma UnstableAbove(n: nat, descending: bool)
    requires IsPow2(n) && n >= 4
    ensures !StableOn(Witness(n, descending), n, descending)
  {
    var q := QuarterOfPow2(n);
    WitnessInput(q, descending);
    WitnessNetwork(q, 2, descending);
    AfterOutOfOrder(q, descending);
    assert StableRow(Witness(n, descending), n, descending) == Flatten(Runs(After4(q, descending)));
  }

  lemma StableUpToTwo(x: seq<real>, n: nat, descending: bool)
    requires IsPow2(n) && n <= 2 && |x| == 16 * n
    ensures StableOn(x, n, descending)
  {
    var s := StableRow(x, n, descending);
    FlattenLength(KernelSort(Input(x, n), 16, true, descending));
    forall i, j | 0 <= i < j < |s|
      ensures Before(true, descending, s[i], s[j])
    {
      RowOrder(x, n, true, descending, s, i, j);
    }
  }

  /** The stable template is a stable sort for every input exactly when the row has at most two chunks. */
  lemma StableIffAtMostTwoChunks(n: nat, descending: bool)
    requires IsPow2(n)
    ensures (forall x: seq<real> :: |x| == 16 * n ==> StableOn(x, n, descending)) <==> n <= 2
  {
    if n <= 2 {
      forall x: seq<real> | |x| == 16 * n
        ensures StableOn(x, n, descending)
      {
        StableUpToTwo(x, n, descending);
      }
    } else {
      assert n >= 4;
      UnstableAbove(n, descending);
      assert |Witness(n, descending)| == 16 * n;
    }
  }
}
