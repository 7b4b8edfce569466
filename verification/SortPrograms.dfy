/** The code that runs the generated stages on vector registers. */
module SortPrograms {
  import opened BitonicLanes
  import opened PairOrder
  import opened BitonicStages
  import opened VectorSort
  import CN = CountNetwork

  function VectorShuffle<T>(v: seq<T>, indices: seq<nat>): (r: seq<T>)
    requires forall k :: 0 <= k < |indices| ==> indices[k] < |v|
    ensures |r| == |indices|
  {
    seq(|indices|, l requires 0 <= l < |indices| => v[indices[l]])
  }

  function Where<T>(mask: seq<bool>, x: seq<T>, y: seq<T>): (r: seq<T>)
    requires |mask| == |x| == |y|
    ensures |r| == |mask|
  {
    seq(|mask|, l requires 0 <= l < |mask| => if mask[l] then x[l] else y[l])
  }

  function Compare(stable: bool, descending: bool, x: seq<Elem>, y: seq<Elem>): (r: seq<bool>)
    requires |x| == |y|
    ensures |r| == |x|
  {
    seq(|x|, l requires 0 <= l < |x| => MinSide(stable, descending, x[l], y[l]))
  }

  predicate Fits(d: StageDesc, n: nat) {
    |d.shuffle| == |d.selectMin| == n && forall k :: 0 <= k < n ==> d.shuffle[k] < n
  }

  /** One generated stage applied to a vector of pairs. */
  function ApplyStage(d: StageDesc, s: seq<Elem>, stable: bool, descending: bool): (r: seq<Elem>)
    requires Fits(d, |s|)
    ensures |r| == |s|
  {
    var shuf := VectorShuffle(s, d.shuffle);
    var cmp := Compare(stable, descending, s, shuf);
    Where(d.selectMin, Where(cmp, s, shuf), Where(cmp, shuf, s))
  }

  function RunStages(stages: seq<StageDesc>, s: seq<Elem>, stable: bool, descending: bool): (r: seq<Elem>)
    requires forall d <- stages :: Fits(d, |s|)
    ensures |r| == |s|
  {
    if |stages| == 0 then s
    else RunStages(stages[1..], ApplyStage(stages[0], s, stable, descending), stable, descending)
  }

  lemma {:induction false} RunConcat(a: seq<StageDesc>, b: seq<StageDesc>, s: seq<Elem>, stable: bool, descending: bool)
    requires forall d <- a + b :: Fits(d, |s|)
    requires forall d <- a :: Fits(d, |s|)
    requires forall d <- b :: Fits(d, |s|)
    ensures RunStages(a + b, s, stable, descending)
         == RunStages(b, RunStages(a, s, stable, descending), stable, descending)
    decreases |a|
  {
    if |a| == 0 {
      assert a + b == b;
    } else {
      assert (a + b)[1..] == a[1..] + b;
      RunConcat(a[1..], b, ApplyStage(a[0], s, stable, descending), stable, descending);
    }
  }

  lemma StageAtRuns(s: seq<Elem>, size: nat, stride: nat, stable: bool, descending: bool)
    requires StageShape(|s|, size, stride)
    ensures var d := StageAt(|s|, size, stride, descending);
            Fits(d, |s|) && ApplyStage(d, s, stable, descending) == Stage(s, size, stride, stable, descending)
  {
    var d := StageAt(|s|, size, stride, descending);
    forall l: nat | l < |s|
      ensures d.shuffle[l] < |s|
    {
      PartnerProperties(|s|, size, stride, descending, l);
    }
  }

  lemma {:induction false} PhaseStagesRun(s: seq<Elem>, size: nat, stride: nat, stable: bool, descending: bool)
    requires CN.PhaseShape(|s|, size, stride)
    ensures var p := PhaseStages(|s|, size, stride, descending);
            && (forall d <- p :: Fits(d, |s|))
            && RunStages(p, s, stable, descending) == Merge(s, size, stride, stable, descending)
    decreases stride
  {
    if stride > 0 {
      StageAtRuns(s, size, stride, stable, descending);
      var r := Stage(s, size, stride, stable, descending);
      PhaseStagesRun(r, size, stride / 2, stable, descending);
      var d, rest := StageAt(|s|, size, stride, descending), PhaseStages(|s|, size, stride / 2, descending);
      assert ([d] + rest)[1..] == rest;
    }
  }

  /** Running the generated stages is the network. */
  lemma {:induction false} StageListRuns(s: seq<Elem>, size: nat, stable: bool, descending: bool)
    requires IsPow2(|s|) && IsPow2(size) && size >= 2
    ensures var p := StageList(|s|, size, descending);
            && (forall d <- p :: Fits(d, |s|))
            && RunStages(p, s, stable, descending) == Network(s, size, stable, descending)
    decreases if size <= |s| then |s| + 1 - size else 0
  {
    Pow2Pos(size);
    if size <= |s| {
      PhaseStagesRun(s, size, size / 2, stable, descending);
      var r := Merge(s, size, size / 2, stable, descending);
      StageListRuns(r, 2 * size, stable, descending);
      RunConcat(PhaseStages(|s|, size, size / 2, descending), StageList(|s|, 2 * size, descending), s,
                stable, descending);
    }
  }

  lemma RunFrom(stages: seq<StageDesc>, k: nat, s: seq<Elem>, stable: bool, descending: bool)
    requires k < |stages| && forall d <- stages[k..] :: Fits(d, |s|)
    ensures Fits(stages[k], |s|) && forall d <- stages[k + 1..] :: Fits(d, |s|)
    ensures RunStages(stages[k..], s, stable, descending)
         == RunStages(stages[k + 1..], ApplyStage(stages[k], s, stable, descending), stable, descending)
  {
    assert stages[k..][0] == stages[k] && stages[k..][1..] == stages[k + 1..];
    assert stages[k..] == [stages[k]] + stages[k + 1..];
  }

  /** Sorts a vector of (value, index) pairs. */
  method BitonicSortPair(values: seq<real>, indices: seq<int>, vectorSize: nat, descending: bool, stable: bool)
    returns (curV: seq<real>, curI: seq<int>)
    requires IsPow2(vectorSize) && |values| == |indices| == vectorSize
    ensures |curV| == |curI| == vectorSize
    ensures Zip(curV, curI) == SortPair(Zip(values, indices), stable, descending)
  {
    curV, curI := values, indices;
    var stages := ComputeBitonicStages(vectorSize, descending);
    StageListRuns(Zip(values, indices), 2, stable, descending);
    for k := 0 to |stages|
      invariant |curV| == |curI| == vectorSize
      invariant forall d <- stages[k..] :: Fits(d, vectorSize)
      invariant RunStages(stages[k..], Zip(curV, curI), stable, descending)
             == SortPair(Zip(values, indices), stable, descending)
    {
      RunFrom(stages, k, Zip(curV, curI), stable, descending);
      curV, curI := PairStage(stages[k], curV, curI, stable, descending);
    }
  }

  /** One stage of the loop: shuffle, compare, select. */
  method PairStage(d: StageDesc, curV: seq<real>, curI: seq<int>, stable: bool, descending: bool)
    returns (nextV: seq<real>, nextI: seq<int>)
    requires |curV| == |curI| && Fits(d, |curV|)
    ensures |nextV| == |nextI| == |curV|
    ensures Zip(nextV, nextI) == ApplyStage(d, Zip(curV, curI), stable, descending)
  {
    var shufV, shufI := VectorShuffle(curV, d.shuffle), VectorShuffle(curI, d.shuffle);
    var cmp := Compare(stable, descending, Zip(curV, curI), Zip(shufV, shufI));
    var minV, minI := Where(cmp, curV, shufV), Where(cmp, curI, shufI);
    var maxV, maxI := Where(cmp, shufV, curV), Where(cmp, shufI, curI);
    nextV, nextI := Where(d.selectMin, minV, maxV), Where(d.selectMin, minI, maxI);
  }

  function Minimum(x: seq<real>, y: seq<real>): (r: seq<real>)
    requires |x| == |y|
    ensures |r| == |x|
  {
    seq(|x|, l requires 0 <= l < |x| => if x[l] <= y[l] then x[l] else y[l])
  }

  function Maximum(x: seq<real>, y: seq<real>): (r: seq<real>)
    requires |x| == |y|
    ensures |r| == |x|
  {
    seq(|x|, l requires 0 <= l < |x| => if x[l] >= y[l] then x[l] else y[l])
  }

  /** One stage on values alone is one stage on pairs with any indices. */
  lemma ValueStage(d: StageDesc, s: seq<Elem>, cur: seq<real>, descending: bool)
    requires Fits(d, |s|) && cur == Values(s)
    ensures var shuffled := VectorShuffle(cur, d.shuffle);
            Where(d.selectMin, Minimum(cur, shuffled), Maximum(cur, shuffled))
              == Values(ApplyStage(d, s, false, descending))
  {
  }

  /** The value-only sort of the vector operations. */
  method BitonicSort(operand: seq<real>, descending: bool) returns (cur: seq<real>)
    requires |operand| >= 2 && And(|operand|, |operand| - 1) == 0
    ensures multiset(cur) == multiset(operand)
    ensures forall i, j :: 0 <= i < j < |cur| ==> if descending then cur[i] >= cur[j] else cur[i] <= cur[j]
  {
    cur := operand;
    var n := |operand|;
    BitTest(n);
    var stages := ComputeBitonicStages(n, descending);
    ghost var s0 := Zip(operand, seq(n, _ => 0));
    ghost var s := s0;
    StageListRuns(s0, 2, false, descending);
    for k := 0 to |stages|
      invariant |s| == n && cur == Values(s)
      invariant forall d <- stages[k..] :: Fits(d, n)
      invariant RunStages(stages[k..], s, false, descending) == SortPair(s0, false, descending)
    {
      var d := stages[k];
      RunFrom(stages, k, s, false, descending);
      ValueStage(d, s, cur, descending);
      var shuffled := VectorShuffle(cur, d.shuffle);
      var min, max := Minimum(cur, shuffled), Maximum(cur, shuffled);
      cur := Where(d.selectMin, min, max);
      s := ApplyStage(d, s, false, descending);
    }
    assert Values(s0) == operand;
    SortPairPermutesValues(s0, false, descending);
    SortPairInOrder(s0, false, descending);
  }
}
