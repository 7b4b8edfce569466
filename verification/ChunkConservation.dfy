/** What the chunk network keeps: the counts of tie-respecting predicates, hence the multiset of
    values (and of whole pairs in stable mode), and the link from each index to its value. */
module ChunkConservation {
  import opened BitonicLanes
  import opened LaneSums
  import opened PairOrder
  import opened ChunkNetwork
  import opened Sequences
  import V = VectorSort
  import CN = CountNetwork

  lemma {:induction false} ReverseCount(s: seq<Elem>, P: Elem -> bool)
    ensures Count(Reversed(s), P) == Count(s, P)
    decreases |s|
  {
    if |s| > 0 {
      assert Reversed(s) == Reversed(s[1..]) + [s[0]];
      ReverseCount(s[1..], P);
      CountConcat(Reversed(s[1..]), [s[0]], P);
      assert s == [s[0]] + s[1..];
      CountConcat([s[0]], s[1..], P);
    }
  }

  ghost predicate RespectsAllTies(P: Elem -> bool, stable: bool) {
    V.RespectsTies(P, stable, false) && V.RespectsTies(P, stable, true)
  }

  lemma MergeSortedConserves(l: seq<Elem>, r: seq<Elem>, stable: bool, descending: bool, P: Elem -> bool)
    requires |l| == |r|
    ensures var m := MergeSorted(l, r, stable, descending);
            Count(m.0, P) + Count(m.1, P) == Count(l, P) + Count(r, P)
  {
    ReverseCount(r, P);
    var m := MergeSorted(l, r, stable, descending);
    SumPairwise(Bits(l, P), Bits(Reversed(r), P), Bits(m.0, P), Bits(m.1, P));
  }

  lemma SortPairConserves(s: seq<Elem>, stable: bool, descending: bool, P: Elem -> bool)
    requires IsPow2(|s|) && RespectsAllTies(P, stable)
    ensures Count(V.SortPair(s, stable, descending), P) == Count(s, P)
  {
    V.NetworkConserves(s, 2, stable, descending, P);
  }

  lemma MergeSplitConserves(left: seq<Elem>, right: seq<Elem>, stable: bool, descending: bool, P: Elem -> bool)
    requires |left| == |right| && IsPow2(|left|) && RespectsAllTies(P, stable)
    ensures var m := MergeSplit(left, right, stable, descending);
            Count(m.0, P) + Count(m.1, P) == Count(left, P) + Count(right, P)
  {
    var l, r := V.SortPair(left, stable, descending), V.SortPair(right, stable, descending);
    SortPairConserves(left, stable, descending, P);
    SortPairConserves(right, stable, descending, P);
    MergeSortedConserves(l, r, stable, descending, P);
    var m := MergeSorted(l, r, stable, descending);
    SortPairConserves(m.0, stable, descending, P);
    SortPairConserves(m.1, stable, descending, P);
  }

  lemma StageConserves(st: Chunks, w: nat, size: nat, stride: nat, stable: bool, descending: bool, P: Elem -> bool)
    requires Uniform(st, w) && StageShape(|st|, size, stride) && RespectsAllTies(P, stable)
    ensures Sum(Counts(Stage(st, w, size, stride, stable, descending), P)) == Sum(Counts(st, P))
  {
    var r := Stage(st, w, size, stride, stable, descending);
    forall l: nat | l < |st| && IsLower(l, stride)
      ensures l + stride < |st|
           && Counts(r, P)[l] + Counts(r, P)[l + stride] == Counts(st, P)[l] + Counts(st, P)[l + stride]
    {
      PartnerProperties(|st|, size, stride, descending, l);
      PartnerProperties(|st|, size, stride, descending, l + stride);
      MergeSplitConserves(st[l], st[l + stride], stable, !CN.Up(l, size, descending), P);
    }
    SumConserved(Counts(st, P), Counts(r, P), size, stride);
  }

  lemma {:induction false} MergeConserves(st: Chunks, w: nat, size: nat, stride: nat, stable: bool, descending: bool,
                                          P: Elem -> bool)
    requires Uniform(st, w) && CN.PhaseShape(|st|, size, stride) && RespectsAllTies(P, stable)
    ensures Sum(Counts(Merge(st, w, size, stride, stable, descending), P)) == Sum(Counts(st, P))
    decreases stride
  {
    if stride > 0 {
      StageConserves(st, w, size, stride, stable, descending, P);
      MergeConserves(Stage(st, w, size, stride, stable, descending), w, size, stride / 2, stable, descending, P);
    }
  }

  lemma {:induction false} NetworkConserves(st: Chunks, w: nat, size: nat, stable: bool, descending: bool,
                                            P: Elem -> bool)
    requires Uniform(st, w) && IsPow2(|st|) && IsPow2(size) && size >= 2 && RespectsAllTies(P, stable)
    ensures Sum(Counts(Network(st, w, size, stable, descending), P)) == Sum(Counts(st, P))
    decreases if size <= |st| then |st| + 1 - size else 0
  {
    Pow2Pos(size);
    if size <= |st| {
      MergeConserves(st, w, size, size / 2, stable, descending, P);
      NetworkConserves(Merge(st, w, size, size / 2, stable, descending), w, 2 * size, stable, descending, P);
    }
  }

  lemma LocalConserves(st: Chunks, w: nat, stable: bool, descending: bool, P: Elem -> bool)
    requires Uniform(st, w) && RespectsAllTies(P, stable)
    ensures Counts(LocalSort(st, w, stable, descending), P) == Counts(st, P)
  {
    var s0 := LocalSort(st, w, stable, descending);
    forall l | 0 <= l < |st|
      ensures Count(s0[l], P) == Count(st[l], P)
    {
      V.NetworkConserves(st[l], 2, stable, descending, P);
    }
  }

  lemma KernelConserves(st: Chunks, w: nat, stable: bool, descending: bool, P: Elem -> bool)
    requires Uniform(st, w) && IsPow2(|st|) && RespectsAllTies(P, stable)
    ensures Sum(Counts(KernelSort(st, w, stable, descending), P)) == Sum(Counts(st, P))
  {
    LocalConserves(st, w, stable, descending, P);
    NetworkConserves(LocalSort(st, w, stable, descending), w, 2, stable, descending, P);
  }

  /** The buffer as one sequence. */
  function Flatten(st: Chunks): seq<Elem> {
    if |st| == 0 then [] else st[0] + Flatten(st[1..])
  }

  lemma {:induction false} FlattenCount(st: Chunks, P: Elem -> bool)
    ensures Count(Flatten(st), P) == Sum(Counts(st, P))
    decreases |st|
  {
    if |st| > 0 {
      CountConcat(st[0], Flatten(st[1..]), P);
      FlattenCount(st[1..], P);
      assert Counts(st, P)[1..] == Counts(st[1..], P);
    }
  }

  lemma KernelFlatCount(st: Chunks, w: nat, stable: bool, descending: bool, P: Elem -> bool)
    requires Uniform(st, w) && IsPow2(|st|) && RespectsAllTies(P, stable)
    ensures Count(Flatten(KernelSort(st, w, stable, descending)), P) == Count(Flatten(st), P)
  {
    KernelConserves(st, w, stable, descending, P);
    FlattenCount(st, P);
    FlattenCount(KernelSort(st, w, stable, descending), P);
  }

  ghost function HasValue(v: real): Elem -> bool {
    (x: Elem) => x.v == v
  }

  lemma ValueCount(s: seq<Elem>, v: real)
    ensures Count(Values(s), Is(v)) == Count(s, HasValue(v))
  {
    assert Bits(Values(s), Is(v)) == Bits(s, HasValue(v));
  }

  lemma HasValueRespectsTies(v: real, stable: bool)
    ensures RespectsAllTies(HasValue(v), stable)
  {
  }

  lemma KernelValueCount(st: Chunks, w: nat, stable: bool, descending: bool, v: real)
    requires Uniform(st, w) && IsPow2(|st|)
    ensures Count(Values(Flatten(KernelSort(st, w, stable, descending))), Is(v)) == Count(Values(Flatten(st)), Is(v))
  {
    var a, b := Flatten(KernelSort(st, w, stable, descending)), Flatten(st);
    HasValueRespectsTies(v, stable);
    KernelFlatCount(st, w, stable, descending, HasValue(v));
    ValueCount(a, v);
    ValueCount(b, v);
  }

  /** Main result on contents: values are permuted; in stable mode whole pairs are. */
  lemma KernelPermutes(st: Chunks, w: nat, stable: bool, descending: bool)
    requires Uniform(st, w) && IsPow2(|st|)
    ensures var r := KernelSort(st, w, stable, descending);
            && multiset(Values(Flatten(r))) == multiset(Values(Flatten(st)))
            && (stable ==> multiset(Flatten(r)) == multiset(Flatten(st)))
  {
    var a, b := Flatten(KernelSort(st, w, stable, descending)), Flatten(st);
    forall v: real
      ensures Count(Values(a), Is(v)) == Count(Values(b), Is(v))
    {
      KernelValueCount(st, w, stable, descending, v);
    }
    SameCountsSameMultiset(Values(a), Values(b));
    if stable {
      forall x: Elem
        ensures Count(a, Is(x)) == Count(b, Is(x))
      {
        KernelFlatCount(st, w, true, descending, Is(x));
      }
      SameCountsSameMultiset(a, b);
    }
  }

  // ----- every element of the result comes from the input -----

  /** All elements of all chunks satisfy P. */
  ghost predicate Everywhere(st: Chunks, P: Elem -> bool) {
    forall l :: 0 <= l < |st| ==> Holds(st[l], P)
  }

  ghost predicate Holds(s: seq<Elem>, P: Elem -> bool) {
    forall e <- s :: P(e)
  }

  lemma SortPairHolds(s: seq<Elem>, stable: bool, descending: bool, P: Elem -> bool)
    requires IsPow2(|s|) && Holds(s, P)
    ensures Holds(V.SortPair(s, stable, descending), P)
  {
    V.NetworkSelects(s, 2, stable, descending);
  }

  lemma MergeSortedHolds(l: seq<Elem>, r: seq<Elem>, stable: bool, descending: bool, P: Elem -> bool)
    requires |l| == |r| && Holds(l, P) && Holds(r, P)
    ensures var m := MergeSorted(l, r, stable, descending); Holds(m.0, P) && Holds(m.1, P)
  {
    var rev, m := Reversed(r), MergeSorted(l, r, stable, descending);
    forall i | 0 <= i < |l|
      ensures P(m.0[i]) && P(m.1[i])
    {
      assert rev[i] == r[|r| - 1 - i];
    }
  }

  lemma MergeSplitHolds(left: seq<Elem>, right: seq<Elem>, stable: bool, descending: bool, P: Elem -> bool)
    requires |left| == |right| && IsPow2(|left|) && Holds(left, P) && Holds(right, P)
    ensures var m := MergeSplit(left, right, stable, descending); Holds(m.0, P) && Holds(m.1, P)
  {
    var l, r := V.SortPair(left, stable, descending), V.SortPair(right, stable, descending);
    SortPairHolds(left, stable, descending, P);
    SortPairHolds(right, stable, descending, P);
    MergeSortedHolds(l, r, stable, descending, P);
    var m := MergeSorted(l, r, stable, descending);
    SortPairHolds(m.0, stable, descending, P);
    SortPairHolds(m.1, stable, descending, P);
  }

  lemma {:induction false} MergeHolds(st: Chunks, w: nat, size: nat, stride: nat, stable: bool, descending: bool,
                                      P: Elem -> bool)
    requires Uniform(st, w) && CN.PhaseShape(|st|, size, stride) && Everywhere(st, P)
    ensures Everywhere(Merge(st, w, size, stride, stable, descending), P)
    decreases stride
  {
    if stride > 0 {
      var r := Stage(st, w, size, stride, stable, descending);
      forall l: nat | l < |st|
        ensures Holds(r[l], P)
      {
        PartnerProperties(|st|, size, stride, descending, l);
        var p, down := Partner(l, stride), !CN.Up(l, size, descending);
        var lower := IsLower(l, stride);
        MergeSplitHolds(if lower then st[l] else st[p], if lower then st[p] else st[l], stable, down, P);
      }
      MergeHolds(r, w, size, stride / 2, stable, descending, P);
    }
  }

  lemma {:induction false} NetworkHolds(st: Chunks, w: nat, size: nat, stable: bool, descending: bool, P: Elem -> bool)
    requires Uniform(st, w) && IsPow2(|st|) && IsPow2(size) && size >= 2 && Everywhere(st, P)
    ensures Everywhere(Network(st, w, size, stable, descending), P)
    decreases if size <= |st| then |st| + 1 - size else 0
  {
    Pow2Pos(size);
    if size <= |st| {
      MergeHolds(st, w, size, size / 2, stable, descending, P);
      NetworkHolds(Merge(st, w, size, size / 2, stable, descending), w, 2 * size, stable, descending, P);
    }
  }

  /** Whatever holds of every input pair holds of every output pair. */
  lemma KernelHolds(st: Chunks, w: nat, stable: bool, descending: bool, P: Elem -> bool)
    requires Uniform(st, w) && IsPow2(|st|) && Everywhere(st, P)
    ensures Everywhere(KernelSort(st, w, stable, descending), P)
  {
    var s0 := LocalSort(st, w, stable, descending);
    forall l | 0 <= l < |st|
      ensures Holds(s0[l], P)
    {
      SortPairHolds(st[l], stable, descending, P);
    }
    NetworkHolds(s0, w, 2, stable, descending, P);
  }
}
