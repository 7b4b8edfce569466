/** (value, index) pairs and the two tie-breaking comparators of the sort templates. */
module PairOrder {
  datatype Elem = Elem(v: real, i: int)

  predicate PairLessEqual(x: Elem, y: Elem) {
    x.v < y.v || (x.v == y.v && x.i <= y.i)
  }

  predicate PairGreaterEqual(x: Elem, y: Elem) {
    x.v > y.v || (x.v == y.v && x.i <= y.i)
  }

  /** The `cmp` of a vector sort: x may go to the min side when it meets y. */
  predicate MinSide(stable: bool, descending: bool, x: Elem, y: Elem) {
    if !stable then x.v <= y.v
    else if descending then x.v < y.v || (x.v == y.v && x.i >= y.i)
    else PairLessEqual(x, y)
  }

  /** The order promised to the caller: x may stand before y in the result. */
  predicate Before(stable: bool, descending: bool, x: Elem, y: Elem) {
    if descending then (if stable then PairGreaterEqual(x, y) else x.v >= y.v)
    else (if stable then PairLessEqual(x, y) else x.v <= y.v)
  }

  ghost predicate InOrder(s: seq<Elem>, stable: bool, descending: bool) {
    forall i, j :: 0 <= i < j < |s| ==> Before(stable, descending, s[i], s[j])
  }

  function Zip(v: seq<real>, i: seq<int>): (s: seq<Elem>)
    requires |v| == |i|
    ensures |s| == |v|
  {
    seq(|v|, l requires 0 <= l < |v| => Elem(v[l], i[l]))
  }

  function Values(s: seq<Elem>): (v: seq<real>)
    ensures |v| == |s|
  {
    seq(|s|, l requires 0 <= l < |s| => s[l].v)
  }

  function Indices(s: seq<Elem>): (v: seq<int>)
    ensures |v| == |s|
  {
    seq(|s|, l requires 0 <= l < |s| => s[l].i)
  }
}

/** Sorting one vector of (value, index) pairs with the generated stages. */
module VectorSort {
  import opened BitonicLanes
  import opened LaneSums
  import opened PairOrder
  import CN = CountNetwork

  function Min(stable: bool, descending: bool, cur: Elem, shuf: Elem): Elem {
    if MinSide(stable, descending, cur, shuf) then cur else shuf
  }

  function Max(stable: bool, descending: bool, cur: Elem, shuf: Elem): Elem {
    if MinSide(stable, descending, cur, shuf) then shuf else cur
  }

  function Lane(s: seq<Elem>, size: nat, stride: nat, stable: bool, descending: bool, l: nat): Elem
    requires StageShape(|s|, size, stride) && l < |s|
  {
    PartnerProperties(|s|, size, stride, descending, l);
    var p := Partner(l, stride);
    if SelectMin(l, size, stride, descending) then Min(stable, descending, s[l], s[p])
    else Max(stable, descending, s[l], s[p])
  }

  function Stage(s: seq<Elem>, size: nat, stride: nat, stable: bool, descending: bool): (r: seq<Elem>)
    requires StageShape(|s|, size, stride)
    ensures |r| == |s|
  {
    seq(|s|, l requires 0 <= l < |s| => Lane(s, size, stride, stable, descending, l))
  }

  function Merge(s: seq<Elem>, size: nat, stride: nat, stable: bool, descending: bool): (r: seq<Elem>)
    requires CN.PhaseShape(|s|, size, stride)
    ensures |r| == |s|
    decreases stride
  {
    if stride == 0 then s
    else Merge(Stage(s, size, stride, stable, descending), size, stride / 2, stable, descending)
  }

  function Network(s: seq<Elem>, size: nat, stable: bool, descending: bool): (r: seq<Elem>)
    requires IsPow2(|s|) && IsPow2(size) && size >= 2
    ensures |r| == |s|
    decreases if size <= |s| then |s| + 1 - size else 0
  {
    Pow2Pos(size);
    if size > |s| then s
    else Network(Merge(s, size, size / 2, stable, descending), 2 * size, stable, descending)
  }

  /** The vector sort: what BitonicSortPair computes. */
  function SortPair(s: seq<Elem>, stable: bool, descending: bool): (r: seq<Elem>)
    requires IsPow2(|s|)
    ensures |r| == |s|
  {
    Network(s, 2, stable, descending)
  }

  // ----- thresholds: the pair network simulates the network on bits -----

  /** P marks the elements above a threshold of the comparator. */
  ghost predicate UpClosed(P: Elem -> bool, stable: bool, descending: bool) {
    forall x: Elem, y: Elem :: MinSide(stable, descending, x, y) && P(x) ==> P(y)
  }

  lemma StageBits(s: seq<Elem>, size: nat, stride: nat, stable: bool, descending: bool, P: Elem -> bool)
    requires StageShape(|s|, size, stride) && UpClosed(P, stable, descending)
    ensures Bits(Stage(s, size, stride, stable, descending), P) == CN.Stage(Bits(s, P), 1, size, stride, descending)
  {
    var r, c := Bits(Stage(s, size, stride, stable, descending), P), Bits(s, P);
    forall l: nat | l < |s|
      ensures r[l] == CN.Cell(c, 1, size, stride, descending, l)
    {
      PartnerProperties(|s|, size, stride, descending, l);
      var x, y := s[l], s[Partner(l, stride)];
      assert MinSide(stable, descending, x, y) || MinSide(stable, descending, y, x);
    }
  }

  lemma {:induction false} MergeBits(s: seq<Elem>, size: nat, stride: nat, stable: bool, descending: bool,
                                     P: Elem -> bool)
    requires CN.PhaseShape(|s|, size, stride) && UpClosed(P, stable, descending)
    ensures Bits(Merge(s, size, stride, stable, descending), P) == CN.Merge(Bits(s, P), 1, size, stride, descending)
    decreases stride
  {
    if stride > 0 {
      StageBits(s, size, stride, stable, descending, P);
      MergeBits(Stage(s, size, stride, stable, descending), size, stride / 2, stable, descending, P);
    }
  }

  lemma {:induction false} NetworkBits(s: seq<Elem>, size: nat, stable: bool, descending: bool, P: Elem -> bool)
    requires IsPow2(|s|) && IsPow2(size) && size >= 2 && UpClosed(P, stable, descending)
    ensures Bits(Network(s, size, stable, descending), P) == CN.Network(Bits(s, P), 1, size, descending)
    decreases if size <= |s| then |s| + 1 - size else 0
  {
    Pow2Pos(size);
    if size <= |s| {
      MergeBits(s, size, size / 2, stable, descending, P);
      NetworkBits(Merge(s, size, size / 2, stable, descending), 2 * size, stable, descending, P);
    }
  }

  lemma SortedBits(b: seq<nat>, up: bool, i: nat, j: nat)
    requires CN.Sorted(b, 1, up) && i < j < |b| && b[i] <= 1 && b[j] <= 1
    ensures if up then b[i] <= b[j] else b[i] >= b[j]
  {
    var p: nat :| if up then CN.RisesAt(b, 1, p) else CN.FallsAt(b, 1, p);
  }

  /** The 0-1 principle: no threshold separates a pair the wrong way round, so none is. */
  lemma SortPairInOrder(s: seq<Elem>, stable: bool, descending: bool)
    requires IsPow2(|s|)
    ensures InOrder(SortPair(s, stable, descending), stable, descending)
  {
    var r := SortPair(s, stable, descending);
    forall i, j | 0 <= i < j < |r|
      ensures Before(stable, descending, r[i], r[j])
    {
      var z := if descending then r[i] else r[j];
      var P := (x: Elem) => !MinSide(stable, descending, x, z);
      NetworkBits(s, 2, stable, descending, P);
      CN.NetworkSorts(Bits(s, P), 1, descending);
      SortedBits(Bits(r, P), !descending, i, j);
    }
  }

  // ----- conservation: what is counted stays -----

  /** P does not tell elements apart that the comparator ties. */
  ghost predicate RespectsTies(P: Elem -> bool, stable: bool, descending: bool) {
    forall x: Elem, y: Elem ::
      MinSide(stable, descending, x, y) && MinSide(stable, descending, y, x) ==> P(x) == P(y)
  }

  lemma StageConserves(s: seq<Elem>, size: nat, stride: nat, stable: bool, descending: bool, P: Elem -> bool)
    requires StageShape(|s|, size, stride) && RespectsTies(P, stable, descending)
    ensures Count(Stage(s, size, stride, stable, descending), P) == Count(s, P)
  {
    var r := Stage(s, size, stride, stable, descending);
    forall l: nat | l < |s| && IsLower(l, stride)
      ensures l + stride < |s| && Bits(r, P)[l] + Bits(r, P)[l + stride] == Bits(s, P)[l] + Bits(s, P)[l + stride]
    {
      PartnerProperties(|s|, size, stride, descending, l);
      var x, y := s[l], s[l + stride];
      assert MinSide(stable, descending, x, y) || MinSide(stable, descending, y, x);
    }
    SumConserved(Bits(s, P), Bits(r, P), size, stride);
  }

  lemma {:induction false} MergeConserves(s: seq<Elem>, size: nat, stride: nat, stable: bool, descending: bool,
                                          P: Elem -> bool)
    requires CN.PhaseShape(|s|, size, stride) && RespectsTies(P, stable, descending)
    ensures Count(Merge(s, size, stride, stable, descending), P) == Count(s, P)
    decreases stride
  {
    if stride > 0 {
      StageConserves(s, size, stride, stable, descending, P);
      MergeConserves(Stage(s, size, stride, stable, descending), size, stride / 2, stable, descending, P);
    }
  }

  lemma {:induction false} NetworkConserves(s: seq<Elem>, size: nat, stable: bool, descending: bool, P: Elem -> bool)
    requires IsPow2(|s|) && IsPow2(size) && size >= 2 && RespectsTies(P, stable, descending)
    ensures Count(Network(s, size, stable, descending), P) == Count(s, P)
    decreases if size <= |s| then |s| + 1 - size else 0
  {
    Pow2Pos(size);
    if size <= |s| {
      MergeConserves(s, size, size / 2, stable, descending, P);
      NetworkConserves(Merge(s, size, size / 2, stable, descending), 2 * size, stable, descending, P);
    }
  }

  /** Every element of the result is an element of the input, so (value, index) pairs stay together. */
  ghost predicate AllIn(r: seq<Elem>, s: seq<Elem>) {
    forall e <- r :: e in s
  }

  lemma StageSelects(s: seq<Elem>, size: nat, stride: nat, stable: bool, descending: bool)
    requires StageShape(|s|, size, stride)
    ensures AllIn(Stage(s, size, stride, stable, descending), s)
  {
    forall l: nat | l < |s|
      ensures Lane(s, size, stride, stable, descending, l) in s
    {
      PartnerProperties(|s|, size, stride, descending, l);
    }
  }

  lemma {:induction false} MergeSelects(s: seq<Elem>, size: nat, stride: nat, stable: bool, descending: bool)
    requires CN.PhaseShape(|s|, size, stride)
    ensures AllIn(Merge(s, size, stride, stable, descending), s)
    decreases stride
  {
    if stride > 0 {
      StageSelects(s, size, stride, stable, descending);
      MergeSelects(Stage(s, size, stride, stable, descending), size, stride / 2, stable, descending);
    }
  }

  lemma {:induction false} NetworkSelects(s: seq<Elem>, size: nat, stable: bool, descending: bool)
    requires IsPow2(|s|) && IsPow2(size) && size >= 2
    ensures AllIn(Network(s, size, stable, descending), s)
    decreases if size <= |s| then |s| + 1 - size else 0
  {
    Pow2Pos(size);
    if size <= |s| {
      MergeSelects(s, size, size / 2, stable, descending);
      NetworkSelects(Merge(s, size, size / 2, stable, descending), 2 * size, stable, descending);
    }
  }

  /** Values are permuted in both modes. */
  lemma SortPairPermutesValues(s: seq<Elem>, stable: bool, descending: bool)
    requires IsPow2(|s|)
    ensures multiset(Values(SortPair(s, stable, descending))) == multiset(Values(s))
  {
    var r := SortPair(s, stable, descending);
    forall v: real
      ensures Count(Values(r), Is(v)) == Count(Values(s), Is(v))
    {
      var P := (x: Elem) => x.v == v;
      NetworkConserves(s, 2, stable, descending, P);
      assert Bits(Values(r), Is(v)) == Bits(r, P) && Bits(Values(s), Is(v)) == Bits(s, P);
    }
    SameCountsSameMultiset(Values(r), Values(s));
  }

  /** In stable mode whole pairs are permuted. */
  lemma StableSortPairPermutes(s: seq<Elem>, descending: bool)
    requires IsPow2(|s|)
    ensures multiset(SortPair(s, true, descending)) == multiset(s)
  {
    var r := SortPair(s, true, descending);
    forall x: Elem
      ensures Count(r, Is(x)) == Count(s, Is(x))
    {
      NetworkConserves(s, 2, true, descending, Is(x));
    }
    SameCountsSameMultiset(r, s);
  }
}
