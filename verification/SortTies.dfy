/** Which vectors the non-stable sort permutes: a comparison of two equal values keeps one pair twice and loses the
    other one, and every two equal values meet at some comparison. */
module SortTies {
  import opened BitonicLanes
  import opened LaneSums
  import opened PairOrder
  import opened VectorSort
  import opened Permutations
  import opened Sequences
  import CN = CountNetwork

  ghost predicate DistinctValues(s: seq<Elem>) {
    forall i, j :: 0 <= i < j < |s| ==> s[i].v != s[j].v
  }

  // ----- one stage -----

  /** Where two equal values meet, both lanes get the pair of the min lane. */
  lemma TieDoubles(s: seq<Elem>, size: nat, stride: nat, descending: bool, a: nat)
    requires StageShape(|s|, size, stride) && a < |s|
    ensures var b := Partner(a, stride);
            b < |s| && (s[a].v == s[b].v && SelectMin(a, size, stride, descending) ==>
              && Lane(s, size, stride, false, descending, a) == s[a]
              && Lane(s, size, stride, false, descending, b) == s[a])
  {
    PartnerProperties(|s|, size, stride, descending, a);
  }

  /** ... and the other pair is lost. */
  lemma TieLoses(s: seq<Elem>, size: nat, stride: nat, descending: bool, a: nat, b: nat)
    requires StageShape(|s|, size, stride) && Distinct(s) && a < |s| && b < |s| && b == Partner(a, stride)
    requires s[a].v == s[b].v && SelectMin(a, size, stride, descending)
    ensures s[b] !in Stage(s, size, stride, false, descending)
  {
    var r := Stage(s, size, stride, false, descending);
    PartnerProperties(|s|, size, stride, descending, a);
    TieDoubles(s, size, stride, descending, a);
    forall m: nat | m < |s|
      ensures r[m] != s[b]
    {
      PartnerProperties(|s|, size, stride, descending, m);
      if m != a && m != b {
        LaneSelects(s, size, stride, descending, m);
      }
    }
  }

  lemma LaneSelects(s: seq<Elem>, size: nat, stride: nat, descending: bool, m: nat)
    requires StageShape(|s|, size, stride) && m < |s|
    ensures var p := Partner(m, stride);
            p < |s| && (Lane(s, size, stride, false, descending, m) == s[m]
                     || Lane(s, size, stride, false, descending, m) == s[p])
  {
    PartnerProperties(|s|, size, stride, descending, m);
  }

  /** No two equal values meet in the stage. */
  ghost predicate TieFree(s: seq<Elem>, size: nat, stride: nat)
    requires StageShape(|s|, size, stride)
  {
    forall a: nat {:trigger Partner(a, stride)} :: a < |s| ==>
      var b := Partner(a, stride); b < |s| ==> s[a].v != s[b].v
  }

  lemma LossMeansTie(s: seq<Elem>, size: nat, stride: nat, descending: bool)
    requires StageShape(|s|, size, stride) && Distinct(s) && AllIn(s, Stage(s, size, stride, false, descending))
    ensures TieFree(s, size, stride)
  {
    forall a: nat | a < |s|
      ensures var b := Partner(a, stride); b < |s| ==> s[a].v != s[b].v
    {
      PartnerProperties(|s|, size, stride, descending, a);
      var b := Partner(a, stride);
      if s[a].v == s[b].v {
        assert s[a] in s && s[b] in s;
        if SelectMin(a, size, stride, descending) {
          TieLoses(s, size, stride, descending, a, b);
        } else {
          TieLoses(s, size, stride, descending, b, a);
        }
      }
    }
  }

  /** Without ties the two modes agree. */
  lemma TieFreeAgrees(s: seq<Elem>, size: nat, stride: nat, descending: bool)
    requires StageShape(|s|, size, stride) && TieFree(s, size, stride)
    ensures Stage(s, size, stride, false, descending) == Stage(s, size, stride, true, descending)
  {
    var r, t := Stage(s, size, stride, false, descending), Stage(s, size, stride, true, descending);
    forall l: nat | l < |s|
      ensures r[l] == t[l]
    {
      PartnerProperties(|s|, size, stride, descending, l);
      assert s[l].v != s[Partner(l, stride)].v;
    }
  }

  /** A stable stage rearranges. */
  lemma StableStagePermutes(s: seq<Elem>, size: nat, stride: nat, descending: bool)
    requires StageShape(|s|, size, stride)
    ensures multiset(Stage(s, size, stride, true, descending)) == multiset(s)
  {
    var r := Stage(s, size, stride, true, descending);
    forall x: Elem
      ensures Count(r, Is(x)) == Count(s, Is(x))
    {
      StageConserves(s, size, stride, true, descending, Is(x));
    }
    SameCountsSameMultiset(r, s);
  }

  lemma DistinctStays(r: seq<Elem>, s: seq<Elem>)
    requires multiset(r) == multiset(s) && Distinct(s)
    ensures Distinct(r) && AllIn(r, s) && AllIn(s, r)
  {
    forall i, j | 0 <= i < j < |r|
      ensures r[i] != r[j]
    {
      DistinctWhenPermuted(r, s, i, j);
    }
    SameMembers(r, s);
    SameMembers(s, r);
  }

  lemma SameMembers(r: seq<Elem>, s: seq<Elem>)
    requires multiset(r) == multiset(s)
    ensures AllIn(r, s)
  {
    forall e <- r
      ensures e in s
    {
      assert e in multiset(r);
    }
  }

  // ----- the network: if nothing is lost, the modes agree -----

  lemma AllInTrans(a: seq<Elem>, b: seq<Elem>, c: seq<Elem>)
    requires AllIn(a, b) && AllIn(b, c)
    ensures AllIn(a, c)
  {
  }

  /** A stage behind which nothing is missing in the end is stable and a rearrangement. */
  lemma StageKept(s: seq<Elem>, size: nat, stride: nat, descending: bool, final: seq<Elem>)
    requires StageShape(|s|, size, stride) && Distinct(s)
    requires AllIn(s, final) && AllIn(final, Stage(s, size, stride, false, descending))
    ensures var r := Stage(s, size, stride, false, descending);
            && r == Stage(s, size, stride, true, descending)
            && multiset(r) == multiset(s) && Distinct(r) && AllIn(r, final)
  {
    var r := Stage(s, size, stride, false, descending);
    AllInTrans(s, final, r);
    LossMeansTie(s, size, stride, descending);
    TieFreeAgrees(s, size, stride, descending);
    StableStagePermutes(s, size, stride, descending);
    DistinctStays(r, s);
    AllInTrans(r, s, final);
  }

  lemma {:induction false} MergeKept(s: seq<Elem>, size: nat, stride: nat, descending: bool, final: seq<Elem>)
    requires CN.PhaseShape(|s|, size, stride) && Distinct(s)
    requires AllIn(s, final) && AllIn(final, Merge(s, size, stride, false, descending))
    ensures var r := Merge(s, size, stride, false, descending);
            && r == Merge(s, size, stride, true, descending)
            && multiset(r) == multiset(s) && Distinct(r) && AllIn(r, final)
    decreases stride
  {
    if stride > 0 {
      var r := Stage(s, size, stride, false, descending);
      MergeSelects(r, size, stride / 2, false, descending);
      AllInTrans(final, Merge(s, size, stride, false, descending), r);
      StageKept(s, size, stride, descending, final);
      MergeKept(r, size, stride / 2, descending, final);
    }
  }

  lemma {:induction false} NetworkKept(s: seq<Elem>, size: nat, descending: bool, final: seq<Elem>)
    requires IsPow2(|s|) && IsPow2(size) && size >= 2 && Distinct(s)
    requires AllIn(s, final) && AllIn(final, Network(s, size, false, descending))
    ensures Network(s, size, false, descending) == Network(s, size, true, descending)
    decreases if size <= |s| then |s| + 1 - size else 0
  {
    Pow2Pos(size);
    if size <= |s| {
      var r := Merge(s, size, size / 2, false, descending);
      NetworkSelects(r, 2 * size, false, descending);
      AllInTrans(final, Network(s, size, false, descending), r);
      MergeKept(s, size, size / 2, descending, final);
      NetworkKept(r, 2 * size, descending, final);
    }
  }

  // ----- the non-stable mode does not look at the indices -----

  /** The same values with the order of the indices reversed. */
  function Mirrored(s: seq<Elem>): (r: seq<Elem>)
    ensures |r| == |s|
  {
    seq(|s|, l requires 0 <= l < |s| => Elem(s[l].v, -s[l].i))
  }

  lemma StageMirrored(s: seq<Elem>, size: nat, stride: nat, descending: bool)
    requires StageShape(|s|, size, stride)
    ensures Stage(Mirrored(s), size, stride, false, descending) == Mirrored(Stage(s, size, stride, false, descending))
  {
    var r := Stage(Mirrored(s), size, stride, false, descending);
    var t := Mirrored(Stage(s, size, stride, false, descending));
    forall l: nat | l < |s|
      ensures r[l] == t[l]
    {
      PartnerProperties(|s|, size, stride, descending, l);
    }
  }

  lemma {:induction false} MergeMirrored(s: seq<Elem>, size: nat, stride: nat, descending: bool)
    requires CN.PhaseShape(|s|, size, stride)
    ensures Merge(Mirrored(s), size, stride, false, descending) == Mirrored(Merge(s, size, stride, false, descending))
    decreases stride
  {
    if stride > 0 {
      StageMirrored(s, size, stride, descending);
      MergeMirrored(Stage(s, size, stride, false, descending), size, stride / 2, descending);
    }
  }

  lemma {:induction false} NetworkMirrored(s: seq<Elem>, size: nat, descending: bool)
    requires IsPow2(|s|) && IsPow2(size) && size >= 2
    ensures Network(Mirrored(s), size, false, descending) == Mirrored(Network(s, size, false, descending))
    decreases if size <= |s| then |s| + 1 - size else 0
  {
    Pow2Pos(size);
    if size <= |s| {
      MergeMirrored(s, size, size / 2, descending);
      NetworkMirrored(Merge(s, size, size / 2, false, descending), 2 * size, descending);
    }
  }

  lemma MirroredMembers(s: seq<Elem>, r: seq<Elem>)
    requires AllIn(s, r)
    ensures AllIn(Mirrored(s), Mirrored(r))
  {
    forall e <- Mirrored(s)
      ensures e in Mirrored(r)
    {
      var i :| 0 <= i < |s| && Mirrored(s)[i] == e;
      assert s[i] in r;
      var j :| 0 <= j < |r| && r[j] == s[i];
      assert Mirrored(r)[j] == e;
    }
  }

  lemma MirroredDistinct(s: seq<Elem>)
    requires Distinct(s)
    ensures Distinct(Mirrored(s))
  {
    var t := Mirrored(s);
    forall i, j | 0 <= i < j < |t|
      ensures t[i] != t[j]
    {
      assert s[i] != s[j];
    }
  }

  // ----- main result -----

  /** If no pair is lost, ties come out in index order, and in the reversed order as well. */
  lemma KeptMeansDistinct(s: seq<Elem>, descending: bool)
    requires IsPow2(|s|) && Distinct(s) && multiset(SortPair(s, false, descending)) == multiset(s)
    ensures DistinctValues(SortPair(s, false, descending))
  {
    var r := SortPair(s, false, descending);
    DistinctStays(r, s);
    NetworkKept(s, 2, descending, r);
    SortPairInOrder(s, true, descending);
    NetworkMirrored(s, 2, descending);
    MirroredMembers(s, r);
    MirroredDistinct(s);
    NetworkKept(Mirrored(s), 2, descending, Mirrored(r));
    SortPairInOrder(Mirrored(s), true, descending);
    forall i, j | 0 <= i < j < |r|
      ensures r[i].v != r[j].v
    {
      assert Before(true, descending, r[i], r[j]);
      assert Before(true, descending, Mirrored(r)[i], Mirrored(r)[j]);
    }
  }

  lemma ValuesStayDistinct(r: seq<Elem>, s: seq<Elem>)
    requires multiset(Values(r)) == multiset(Values(s)) && DistinctValues(r)
    ensures DistinctValues(s)
  {
    forall i, j | 0 <= i < j < |s|
      ensures s[i].v != s[j].v
    {
      DistinctWhenPermuted(Values(s), Values(r), i, j);
    }
  }

  lemma DistinctTieFree(s: seq<Elem>, size: nat, stride: nat, descending: bool)
    requires StageShape(|s|, size, stride) && DistinctValues(s)
    ensures TieFree(s, size, stride)
  {
    forall a: nat | a < |s|
      ensures var b := Partner(a, stride); b < |s| ==> s[a].v != s[b].v
    {
      PartnerProperties(|s|, size, stride, descending, a);
    }
  }

  lemma {:induction false} MergeOfDistinct(s: seq<Elem>, size: nat, stride: nat, descending: bool)
    requires CN.PhaseShape(|s|, size, stride) && DistinctValues(s)
    ensures var r := Merge(s, size, stride, false, descending);
            r == Merge(s, size, stride, true, descending) && DistinctValues(r)
    decreases stride
  {
    if stride > 0 {
      var r := Stage(s, size, stride, false, descending);
      DistinctTieFree(s, size, stride, descending);
      TieFreeAgrees(s, size, stride, descending);
      StableStagePermutes(s, size, stride, descending);
      ValuesPermuted(s, r);
      ValuesStayDistinct(s, r);
      MergeOfDistinct(r, size, stride / 2, descending);
    }
  }

  lemma ValuesPermuted(a: seq<Elem>, b: seq<Elem>)
    requires multiset(a) == multiset(b)
    ensures multiset(Values(a)) == multiset(Values(b))
  {
    forall v: real
      ensures Count(Values(a), Is(v)) == Count(Values(b), Is(v))
    {
      var P := (x: Elem) => x.v == v;
      CountByMultiset(a, b, P);
      assert Bits(Values(a), Is(v)) == Bits(a, P) && Bits(Values(b), Is(v)) == Bits(b, P);
    }
    SameCountsSameMultiset(Values(a), Values(b));
  }

  lemma {:induction false} NetworkOfDistinct(s: seq<Elem>, size: nat, descending: bool)
    requires IsPow2(|s|) && IsPow2(size) && size >= 2 && DistinctValues(s)
    ensures Network(s, size, false, descending) == Network(s, size, true, descending)
    decreases if size <= |s| then |s| + 1 - size else 0
  {
    Pow2Pos(size);
    if size <= |s| {
      MergeOfDistinct(s, size, size / 2, descending);
      NetworkOfDistinct(Merge(s, size, size / 2, false, descending), 2 * size, descending);
    }
  }

  /** Main result: without stable mode the pairs of a vector are permuted exactly when its values are pairwise
      distinct. */
  lemma NonStablePermutesIff(s: seq<Elem>, descending: bool)
    requires IsPow2(|s|) && Distinct(s)
    ensures multiset(SortPair(s, false, descending)) == multiset(s) <==> DistinctValues(s)
  {
    if multiset(SortPair(s, false, descending)) == multiset(s) {
      KeptMeansDistinct(s, descending);
      SortPairPermutesValues(s, false, descending);
      ValuesStayDistinct(SortPair(s, false, descending), s);
    }
    if DistinctValues(s) {
      NetworkOfDistinct(s, 2, descending);
      StableSortPairPermutes(s, descending);
    }
  }

  /** Two equal values: the pair of the first lane comes out twice. */
  lemma TwoEqualValues(v: real)
    ensures SortPair([Elem(v, 0), Elem(v, 1)], false, false) == [Elem(v, 0), Elem(v, 0)]
  {
    var s, r := [Elem(v, 0), Elem(v, 1)], [Elem(v, 0), Elem(v, 0)];
    assert IsPow2(1) && IsPow2(2) && StageShape(2, 2, 1);
    assert Stage(s, 2, 1, false, false) == r;
    assert Merge(s, 2, 1, false, false) == Merge(r, 2, 0, false, false) == r;
    assert Network(s, 2, false, false) == Network(r, 4, false, false) == r;
  }
}
