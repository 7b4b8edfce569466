/** MLIRMultiDimTile: the tile descriptor object, its lane mapping and its repairs. */
module TileDescriptor {
  import opened Arithmetic
  import opened MixedRadix
  import opened Permutations
  import opened TileLayout
  import opened Wrappers

  datatype Checked<T> = ValueError | Value(v: T)

  datatype TileConstraint = TileConstraint(multipleOf: nat, mustDivideDim: bool, fixed: bool)

  /** c is an admissible tile size for dim: a multiple of m that divides dim. */
  predicate Admissible(c: nat, m: nat, dim: nat)
    requires m > 0
  {
    c > 0 && c % m == 0 && dim % c == 0
  }

  /** TileConstraint.adjust: the largest admissible size, or an error when there is none. */
  method AdjustSize(c: TileConstraint, oldSize: nat, newSize: nat, dim: nat) returns (r: Option<nat>)
    requires c.multipleOf > 0
    ensures c.fixed ==> r == Some(oldSize)
    ensures !c.fixed && !c.mustDivideDim ==>
      r.Some? && r.value % c.multipleOf == 0 && r.value >= c.multipleOf
      && (newSize >= c.multipleOf ==> newSize - c.multipleOf < r.value <= newSize)
      && (newSize < c.multipleOf ==> r.value == c.multipleOf)
    ensures !c.fixed && c.mustDivideDim ==>
      && (r.Some? ==> Admissible(r.value, c.multipleOf, dim) && r.value <= newSize)
      && (forall x: nat :: x <= newSize && Admissible(x, c.multipleOf, dim) ==> r.Some? && x <= r.value)
  {
    if c.fixed {
      return Some(oldSize);
    }
    var m := c.multipleOf;
    var tail := newSize % m;
    var size: nat := newSize - tail;
    FloorMultiple(newSize, m);
    if !c.mustDivideDim {
      DivMod(1, m, 0);
      return Some(if size >= m then size else m);
    }
    forall x: nat | x <= newSize && Admissible(x, m, dim)
      ensures x <= size
    {
      if x > size {
        NextMultiple(size, x, m);
      }
    }
    while size > 0
      invariant size % m == 0 && size <= newSize
      invariant forall x: nat :: x <= newSize && Admissible(x, m, dim) ==> x <= size
    {
      if dim % size == 0 {
        return Some(size);
      }
      NextMultiple(0, size, m);
      PreviousMultiple(size, m);
      forall x: nat | x <= newSize && Admissible(x, m, dim)
        ensures x <= size - m
      {
        if size - m < x {
          NextMultiple(size - m, x, m);
        }
      }
      size := size - m;
    }
    return None;
  }

  lemma FloorMultiple(n: nat, m: nat)
    requires m > 0
    ensures (n - n % m) % m == 0 && n - n % m <= n < n - n % m + m
    ensures n >= m ==> n - n % m >= m
  {
    var q := n / m;
    assert n == q * m + n % m;
    DivMod(q, m, 0);
    if q >= 1 {
      MulMonotone(1, q, m);
    }
  }

  lemma PreviousMultiple(n: nat, m: nat)
    requires m > 0 && n % m == 0 && n >= m
    ensures (n - m) % m == 0
  {
    var q := n / m;
    assert n == q * m;
    if q >= 1 {
      Distribute(q - 1, 1, m);
      DivMod(q - 1, m, 0);
    }
  }

  /** The dimension rounded up to a multiple of the lane stride. */
  function RoundUp(d: nat, stride: nat): (r: nat)
    requires stride > 0
    ensures d <= r < d + stride && r % stride == 0
  {
    var remain := d % stride;
    RoundUpFacts(d, stride);
    if remain > 0 then d + (stride - remain) else d
  }

  lemma RoundUpFacts(d: nat, stride: nat)
    requires stride > 0
    ensures d % stride > 0 ==> (d + (stride - d % stride)) % stride == 0
  {
    var q := d / stride;
    assert d == q * stride + d % stride;
    Distribute(q, 1, stride);
    DivMod(q + 1, stride, 0);
  }

  /** There is only one multiple of the lane stride less than a stride above the dimension. */
  lemma RoundUpIsLeast(d: nat, stride: nat, x: nat)
    requires stride > 0 && d <= x < d + stride && x % stride == 0
    ensures x == RoundUp(d, stride)
  {
    var r := RoundUp(d, stride);
    if x < r {
      NextMultiple(x, r, stride);
    } else if r < x {
      NextMultiple(r, x, stride);
    }
  }

  predicate Divides(a: nat, b: nat)
    requires a > 0
  {
    b % a == 0
  }

  lemma DividesTrans(a: nat, b: nat, c: nat)
    requires a > 0 && b > 0 && b % a == 0 && c % b == 0
    ensures c % a == 0
  {
    assert c == (c / b) * b && b == (b / a) * a;
    Associate(c / b, b / a, a);
    DivMod((c / b) * (b / a), a, 0);
  }

  class MultiDimTile {
    var tileSize: seq<nat>
    var tileStride: seq<nat>
    var tileAxisOrder: seq<real>
    var mustDivide: seq<bool>
    var vlaneSplitAxis: nat
    var vlaneStride: nat
    const vectorLane: nat

    predicate WellSized()
      reads this
    {
      && Positive(tileSize) && |tileAxisOrder| == |mustDivide| == |tileSize|
      && vlaneSplitAxis < |tileSize| && vlaneStride > 0 && vectorLane > 0
    }

    /** The strides are those of the axes in the order perm, and perm follows tileAxisOrder. */
    ghost predicate HasLayout(perm: seq<nat>)
      reads this
    {
      WellSized() && Layout(tileSize, tileStride, perm) && SortedAxes(tileAxisOrder, perm)
    }

    function Used(): (u: nat)
      requires WellSized()
      reads this
    {
      UsedLanes(tileSize[vlaneSplitAxis], vlaneStride, vectorLane)
    }

    /** Every used lane holds the same whole number of lane-stride blocks. */
    predicate LanesExact()
      requires WellSized()
      reads this
    {
      && Used() > 0
      && CeilDiv(tileSize[vlaneSplitAxis], Used()) * Used() == tileSize[vlaneSplitAxis]
      && CeilDiv(tileSize[vlaneSplitAxis], Used()) % vlaneStride == 0
    }

    method UpdateTileStride() returns (ghost perm: seq<nat>)
      requires WellSized()
      modifies this`tileStride
      ensures HasLayout(perm)
      ensures |tileStride| == |tileSize|
    {
      var strides := seq(|tileSize|, _ => 1);
      var init := 1;
      var sortedAxes := SortAxes(tileAxisOrder);
      perm := sortedAxes;
      PermutationFacts(perm, |tileSize|);
      ghost var z := Gather(tileSize, perm);
      for j := 0 to |sortedAxes|
        invariant |strides| == |tileSize|
        invariant init == Fold(true, z[..j])
        invariant forall k :: 0 <= k < j ==> strides[perm[k]] == Fold(true, z[..k])
      {
        strides := strides[sortedAxes[j] := init];
        assert z[..j + 1] == z[..j] + [z[j]];
        FoldConcat(true, z[..j], [z[j]]);
        assert Fold(true, [z[j]]) == z[j] * Fold(true, [z[j]][1..]) == z[j];
        init := init * tileSize[sortedAxes[j]];
      }
      tileStride := strides;
    }

    method SetTileSize(sizes: seq<nat>) returns (ghost perm: seq<nat>)
      requires WellSized() && Positive(sizes) && |sizes| == |tileSize|
      modifies this`tileSize, this`tileStride, this`tileAxisOrder
      ensures tileSize == sizes && tileAxisOrder == seq(|sizes|, i => i as real)
      ensures HasLayout(perm)
    {
      tileSize := sizes;
      tileAxisOrder := seq(|sizes|, i => i as real);
      perm := UpdateTileStride();
    }

    method PadVlaneTile()
      requires WellSized()
      modifies this`tileSize
      ensures WellSized() && |tileSize| == |old(tileSize)|
      ensures var n := old(tileSize)[vlaneSplitAxis];
              tileSize == old(tileSize)[vlaneSplitAxis := PaddedSize(n, vlaneStride, vectorLane)]
      ensures LanesExact() && Used() == old(Used())
      // padding again would change nothing
      ensures PaddedSize(tileSize[vlaneSplitAxis], vlaneStride, vectorLane) == tileSize[vlaneSplitAxis]
      ensures var n := old(tileSize)[vlaneSplitAxis];
              n <= tileSize[vlaneSplitAxis] < n + Used() * vlaneStride
    {
      PaddingIsExact(tileSize[vlaneSplitAxis], vlaneStride, vectorLane);
      var usedVlane := UsedLanes(tileSize[vlaneSplitAxis], vlaneStride, vectorLane);
      var paddedSize := usedVlane * vlaneStride;
      tileSize := tileSize[vlaneSplitAxis := CeilDiv(tileSize[vlaneSplitAxis], paddedSize) * paddedSize];
    }

    function SizePerLane(): (r: seq<nat>)
      requires WellSized() && Used() > 0
      reads this
      ensures |r| == |tileSize|
    {
      tileSize[vlaneSplitAxis := CeilDiv(tileSize[vlaneSplitAxis], Used())]
    }

    /** The per-lane strides are those that would be computed for the per-lane tile exactly when the lanes line up;
        after an exact split they do. */
    method GetTileStridePerLane(ghost perm: seq<nat>) returns (r: seq<nat>)
      requires HasLayout(perm) && Used() > 0
      ensures |r| == |tileStride|
      ensures var share := SizePerLane()[vlaneSplitAxis];
              && 0 < share <= tileSize[vlaneSplitAxis]
              && (Layout(SizePerLane(), r, perm) <==> LanesLineUp(tileSize, tileStride, perm, vlaneSplitAxis, share))
      ensures LanesExact() ==> Layout(SizePerLane(), r, perm)
    {
      var perLane := SizePerLane();
      var axis := vlaneSplitAxis;
      ShareFits(tileSize[axis], Used());
      PerLaneLayoutIff(tileSize, tileStride, perm, axis, perLane[axis]);
      var coeff := tileSize[axis] / perLane[axis];
      r := DivideSlower(tileStride, axis, coeff);
      if LanesExact() {
        CoeffIsUsed(tileSize[axis], perLane[axis], Used());
        PerLaneLayout(tileSize, tileStride, perm, axis, Used(), perLane[axis]);
      }
    }

    function RoundedDims(dims: seq<nat>): (r: seq<nat>)
      requires WellSized() && |dims| == |tileSize|
      reads this
      ensures |r| == |dims|
    {
      dims[vlaneSplitAxis := RoundUp(dims[vlaneSplitAxis], vlaneStride)]
    }

    /** count tiles make up axis i of the dimension: exactly, or along the lane axis up to less than a lane stride. */
    ghost predicate WholeTiles(dim: nat, i: nat, count: nat)
      requires WellSized() && i < |tileSize|
      reads this
    {
      var covered := count * tileSize[i];
      if i == vlaneSplitAxis then dim <= covered < dim + vlaneStride && covered % vlaneStride == 0 else covered == dim
    }

    ghost predicate Coverable(dim: nat, i: nat)
      requires WellSized() && i < |tileSize|
      reads this
    {
      exists count: nat :: WholeTiles(dim, i, count)
    }

    /** is_dim_dividable: whether whole tiles cover every dimension. */
    function IsDimDividable(dims: seq<nat>): (r: Checked<bool>)
      requires WellSized()
      reads this
      ensures r == ValueError <==> |dims| != |tileSize|
      ensures r != ValueError ==> (r.v <==> forall i :: 0 <= i < |dims| ==> Coverable(dims[i], i))
    {
      if |dims| != |tileSize| then ValueError
      else
        DividesMeansWhole(dims);
        Value(forall i :: 0 <= i < |dims| ==> Divides(tileSize[i], RoundedDims(dims)[i]))
    }

    lemma DividesMeansWhole(dims: seq<nat>)
      requires WellSized() && |dims| == |tileSize|
      ensures forall i :: 0 <= i < |dims| ==>
        (Divides(tileSize[i], RoundedDims(dims)[i]) <==> Coverable(dims[i], i))
    {
      forall i | 0 <= i < |dims|
        ensures Divides(tileSize[i], RoundedDims(dims)[i]) <==> Coverable(dims[i], i)
      {
        var d := RoundedDims(dims)[i];
        if Divides(tileSize[i], d) {
          assert d == d / tileSize[i] * tileSize[i];
          assert WholeTiles(dims[i], i, d / tileSize[i]);
        }
        if count: nat :| WholeTiles(dims[i], i, count) {
          if i == vlaneSplitAxis {
            RoundUpIsLeast(dims[i], vlaneStride, count * tileSize[i]);
          }
          DivMod(count, tileSize[i], 0);
        }
      }
    }

    /** Shrinks every axis to its largest divisor of the dimension; gives up the lane stride if needed. */
    method AdjustTileToDivisible(dims: seq<nat>) returns (r: Checked<seq<nat>>)
      requires WellSized()
      modifies this`mustDivide, this`vlaneStride
      ensures WellSized()
      ensures r == ValueError <==> |dims| != |tileSize|
      ensures r == ValueError ==> mustDivide == old(mustDivide) && vlaneStride == old(vlaneStride)
      ensures r != ValueError ==> |r.v| == |tileSize| && mustDivide == seq(|tileSize|, _ => true)
      ensures r != ValueError ==> forall i :: 0 <= i < |dims| ==> IsLargestDivisor(r.v[i], dims[i], tileSize[i])
      ensures r != ValueError ==>
        vlaneStride == if r.v[vlaneSplitAxis] % old(vlaneStride) == 0 then old(vlaneStride) else 1
    {
      if |dims| != |tileSize| {
        return ValueError;
      }
      var candidate := [];
      for i := 0 to |dims|
        invariant |candidate| == i && vlaneStride == old(vlaneStride)
        invariant forall k :: 0 <= k < i ==> IsLargestDivisor(candidate[k], dims[k], tileSize[k])
      {
        var c := AdjustOne(dims[i], tileSize[i]);
        candidate := candidate + [c];
      }
      mustDivide := seq(|tileSize|, _ => true);
      var remain := candidate[vlaneSplitAxis] % vlaneStride;
      if remain > 0 {
        vlaneStride := 1;
      }
      return Value(candidate);
    }

    /** The recompile step of an index access: afterwards the same check passes. */
    method RepairForIndex(dims: seq<nat>) returns (recompile: bool)
      requires WellSized() && |dims| == |tileSize|
      modifies this
      ensures WellSized() && |tileSize| == |dims|
      ensures recompile <==> old(IsDimDividable(dims)) == Value(false)
      ensures IsDimDividable(dims) == Value(true)
      ensures forall i :: 0 <= i < |dims| ==> tileSize[i] <= old(tileSize)[i]
    {
      recompile := !IsDimDividable(dims).v;
      if recompile {
        var adjusted := AdjustTileToDivisible(dims);
        ghost var perm := SetTileSize(adjusted.v);
        RoundingIsHarmless(tileSize[vlaneSplitAxis], dims[vlaneSplitAxis], vlaneStride);
        assert forall i :: 0 <= i < |dims| ==> Divides(tileSize[i], RoundedDims(dims)[i]);
      }
    }
  }

  /** Divides the strides of the axes slower than `axis`. */
  method DivideSlower(strides: seq<nat>, axis: nat, coeff: nat) returns (r: seq<nat>)
    requires axis < |strides| && coeff > 0
    ensures r == PerLaneStrides(strides, axis, coeff)
  {
    r := strides;
    for i := 0 to |strides|
      invariant |r| == |strides|
      invariant forall k :: i <= k < |r| ==> r[k] == strides[k]
      invariant forall k :: 0 <= k < i ==> r[k] == PerLaneStrides(strides, axis, coeff)[k]
    {
      if strides[i] > strides[axis] {
        r := r[i := strides[i] / coeff];
      }
    }
  }

  lemma ShareFits(size: nat, used: nat)
    requires size > 0 && used > 0
    ensures 0 < CeilDiv(size, used) <= size && size / CeilDiv(size, used) > 0
  {
    CeilDivFacts(size, used);
    var c := CeilDiv(size, used);
    ShareAtMost(size, used, c);
    assert size == (size / c) * c + size % c;
  }

  lemma ShareAtMost(size: nat, used: nat, c: nat)
    requires size > 0 && used > 0 && c * used < size + used
    ensures c <= size
  {
    MulMonotone(1, used, size);
    Distribute(size, 1, used);
    if c >= size + 1 {
      MulMonotone(size + 1, c, used);
    }
  }

  lemma CoeffIsUsed(size: nat, share: nat, used: nat)
    requires share > 0
    ensures share * used == size ==> size / share == used
  {
    DivMod(used, share, 0);
  }

  ghost predicate IsLargestDivisor(c: nat, dim: nat, limit: nat) {
    && 0 < c <= limit && dim % c == 0
    && forall x: nat :: c < x <= limit ==> dim % x != 0
  }

  method AdjustOne(dim: nat, size: nat) returns (c: nat)
    requires size > 0
    ensures IsLargestDivisor(c, dim, size)
  {
    var candidate := size;
    while candidate > 1
      invariant 0 < candidate <= size
      invariant forall x: nat :: candidate < x <= size ==> dim % x != 0
    {
      if dim % candidate == 0 {
        return candidate;
      }
      candidate := candidate - 1;
    }
    return 1;
  }

  /** When the tile size is a multiple of the lane stride and divides the dimension, rounding changes nothing. */
  lemma RoundingIsHarmless(size: nat, dim: nat, stride: nat)
    requires size > 0 && stride > 0 && dim % size == 0 && (size % stride == 0 || stride == 1)
    ensures RoundUp(dim, stride) == dim
  {
    if size % stride == 0 {
      DividesTrans(stride, size, dim);
    }
  }
}
