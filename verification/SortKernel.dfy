/** The emitted sort kernel: local sorts and chunk merges over the scratchpad buffers. */
module SortKernel {
  import opened Arithmetic
  import opened BitonicLanes
  import opened LaneSums
  import opened PairOrder
  import opened ChunkNetwork
  import opened ChunkConservation
  import opened SortPrograms
  import opened Sequences
  import V = VectorSort
  import Permutations
  import CN = CountNetwork

  const VECTOR_SIZE := 16

  datatype SizeCheck = Chunked(numChunks: nat) | NotImplemented

  /** The template accepts exactly the sizes of a power of two of chunks. */
  function CheckSortSize(sortSize: int): (r: SizeCheck)
    ensures r.Chunked? ==> IsPow2(r.numChunks) && sortSize == VECTOR_SIZE * r.numChunks
    ensures forall n: nat {:trigger IsPow2(n)} :: IsPow2(n) && sortSize == VECTOR_SIZE * n ==> r == Chunked(n)
  {
    if sortSize <= 0 then NotImplemented
    else if sortSize < VECTOR_SIZE || sortSize % VECTOR_SIZE != 0 then NotImplemented
    else
      var numChunks: nat := sortSize / VECTOR_SIZE;
      BitTest(numChunks);
      if And(numChunks, numChunks - 1) != 0 then NotImplemented else Chunked(numChunks)
  }

  function ChunkOf<T>(s: seq<T>, c: nat): (r: seq<T>)
    requires (c + 1) * 16 <= |s|
    ensures |r| == 16
  {
    s[c * 16..c * 16 + 16]
  }

  /** A row as chunks of pairs; the template numbers the elements itself. */
  function Input(x: seq<real>, n: nat): (st: Chunks)
    requires |x| == 16 * n
    ensures |st| == n && Uniform(st, 16)
  {
    Sixteen();
    seq(n, c requires 0 <= c < n => Zip(ChunkOf(x, c), seq(16, l => c * 16 + l)))
  }

  lemma Sixteen()
    ensures IsPow2(16)
  {
    assert IsPow2(2) && IsPow2(4) && IsPow2(8);
  }

  class Kernel {
    const n: nat
    const descending: bool
    const stable: bool
    const x: array<real>
    const yv: array<real>
    const xi: array<int>
    /** The YV and XI buffers as n chunks of (value, index) pairs. */
    ghost var state: Chunks

    ghost predicate Shape() {
      IsPow2(n) && x.Length == yv.Length == xi.Length == 16 * n && x != yv
    }

    ghost function Chunk(c: nat): (s: seq<Elem>)
      requires Shape() && c < n
      reads yv, xi
      ensures |s| == 16
    {
      Zip(ChunkOf(yv[..], c), ChunkOf(xi[..], c))
    }

    ghost function Snapshot(): (st: Chunks)
      requires Shape()
      reads yv, xi
      ensures |st| == n && forall c: nat :: c < n ==> st[c] == Chunk(c)
    {
      seq(n, c requires 0 <= c < n reads yv, xi => Chunk(c))
    }

    ghost predicate Valid()
      reads this, yv, xi
    {
      && Shape() && |state| == n && Uniform(state, 16)
      && forall c: nat {:trigger Chunk(c)} :: c < n ==> Chunk(c) == state[c]
    }

    constructor (x: array<real>, xi: array<int>, yv: array<real>, n: nat, descending: bool, stable: bool)
      requires CheckSortSize(x.Length) == Chunked(n) && xi.Length == yv.Length == x.Length && x != yv
      ensures Valid()
      ensures this.x == x && this.xi == xi && this.yv == yv
      ensures this.n == n && this.descending == descending && this.stable == stable
    {
      this.x, this.xi, this.yv := x, xi, yv;
      this.n, this.descending, this.stable := n, descending, stable;
      new;
      Sixteen();
      state := Snapshot();
    }

    method Store(c: nat, v: seq<real>, i: seq<int>)
      requires Valid() && c < n && |v| == |i| == 16
      modifies yv, xi, this`state
      ensures Valid() && state == old(state)[c := Zip(v, i)]
    {
      forall l | 0 <= l < 16 {
        yv[c * 16 + l] := v[l];
      }
      forall l | 0 <= l < 16 {
        xi[c * 16 + l] := i[l];
      }
      state := state[c := Zip(v, i)];
      forall l: nat | l < n
        ensures Chunk(l) == state[l]
      {
        assert l != c ==> old(Chunk(l)) == old(state)[l];
        assert forall k :: 0 <= k < 16 ==> Chunk(l)[k] == state[l][k];
      }
    }

    method Load(c: nat) returns (v: seq<real>, i: seq<int>)
      requires Valid() && c < n
      ensures |v| == |i| == 16 && Zip(v, i) == state[c]
    {
      var elem := c * VECTOR_SIZE;
      v, i := yv[elem..elem + VECTOR_SIZE], xi[elem..elem + VECTOR_SIZE];
      assert v == ChunkOf(yv[..], c) && i == ChunkOf(xi[..], c);
      assert Zip(v, i) == Chunk(c);
    }

    /** Step 1: sort every chunk of X and number its elements. */
    method LocalSorts()
      requires Valid()
      modifies yv, xi, this`state
      ensures Valid() && state == LocalSort(Input(x[..], n), 16, stable, descending)
    {
      Sixteen();
      ghost var input := Input(x[..], n);
      for chunk := 0 to n
        invariant Valid() && x[..] == old(x[..])
        invariant forall l: nat :: l < chunk ==> state[l] == V.SortPair(input[l], stable, descending)
      {
        var elem := chunk * VECTOR_SIZE;
        var xChunk := x[elem..elem + VECTOR_SIZE];
        var idxChunk := seq(VECTOR_SIZE, l => elem + l);
        assert xChunk == ChunkOf(x[..], chunk);
        assert idxChunk == seq(16, l => chunk * 16 + l);
        var yvChunk, yiChunk := BitonicSortPair(xChunk, idxChunk, VECTOR_SIZE, descending, stable);
        Store(chunk, yvChunk, yiChunk);
      }
    }

    /** The body of the merge loops on one pair of chunks. */
    method MergeSplitAt(left: nat, right: nat, ascDir: bool)
      requires Valid() && left < n && right < n && left != right
      modifies yv, xi, this`state
      ensures Valid()
      ensures var m := MergeSplit(old(state)[left], old(state)[right], stable, !ascDir);
              state == old(state)[left := m.0][right := m.1]
    {
      Sixteen();
      var leftVec, leftIdx := Load(left);
      var rightVec, rightIdx := Load(right);
      var normDesc := !ascDir;
      var leftNorm, leftIdxNorm := BitonicSortPair(leftVec, leftIdx, VECTOR_SIZE, normDesc, stable);
      var rightNorm, rightIdxNorm := BitonicSortPair(rightVec, rightIdx, VECTOR_SIZE, normDesc, stable);
      var leftMerge, leftIdxMerge, rightMerge, rightIdxMerge :=
        MergeSortedPairVectors(leftNorm, leftIdxNorm, rightNorm, rightIdxNorm, ascDir, stable);
      var leftNew, leftIdxNew := BitonicSortPair(leftMerge, leftIdxMerge, VECTOR_SIZE, normDesc, stable);
      var rightNew, rightIdxNew := BitonicSortPair(rightMerge, rightIdxMerge, VECTOR_SIZE, normDesc, stable);
      Store(left, leftNew, leftIdxNew);
      Store(right, rightNew, rightIdxNew);
    }

    /** The loop over q: the pairs of one group of 2*stride chunks. */
    method MergeGroup(stride: nat, a: nat, ascDir: bool, ghost st0: Chunks, ghost target: Chunks)
      requires Valid() && a + 2 * stride <= n && |st0| == |target| == n && Uniform(st0, 16)
      requires GroupTarget(st0, target, a, stride, stable, !ascDir)
      requires forall l: nat :: a <= l < a + 2 * stride ==> state[l] == st0[l]
      modifies yv, xi, this`state
      ensures Valid() && state == Splice(old(state), target, a, 2 * stride)
    {
      for q := 0 to stride
        invariant Valid()
        invariant forall l: nat :: a <= l < a + q || a + stride <= l < a + stride + q ==> state[l] == target[l]
        invariant forall l: nat :: a + q <= l < a + stride || a + stride + q <= l < a + 2 * stride ==>
                    state[l] == st0[l]
        invariant forall l: nat :: l < n && !(a <= l < a + 2 * stride) ==> state[l] == old(state)[l]
      {
        assert PairTarget(st0, target, a + q, stride, stable, !ascDir);
        MergeSplitAt(a + q, a + q + stride, ascDir);
      }
    }

    /** The loop over p: the groups of one block. */
    method MergeBlock(size: nat, stride: nat, base: nat, ghost block: nat, ascDir: bool, ghost st0: Chunks,
                      ghost target: Chunks)
      requires Valid() && |st0| == n && Uniform(st0, 16) && StageShape(n, size, stride)
      requires target == Stage(st0, 16, size, stride, stable, descending)
      requires base == block * size && base + size <= n && ascDir == CN.Up(base, size, descending)
      requires forall l: nat :: base <= l < base + size ==> state[l] == st0[l]
      modifies yv, xi, this`state
      ensures Valid() && state == Splice(old(state), target, base, size)
    {
      Pow2Pos(stride);
      ghost var m := Pow2Quotient(2 * stride, size);
      var p := 0;
      ghost var g := 0;
      while p < size
        invariant Valid() && p == g * (2 * stride) && p <= size
        invariant state == Splice(old(state), target, base, p)
        decreases size - p
      {
        GroupInside(block, size, m, stride, g);
        GroupTargets(st0, target, size, stride, stable, descending, block * m + g);
        MergeGroup(stride, base + p, ascDir, st0, target);
        p := p + 2 * stride;
        g := g + 1;
      }
    }

    /** The loop over base: every second block from blockStart on. */
    method MergePass(size: nat, stride: nat, blockStart: nat, isEvenBlock: bool, ghost st0: Chunks,
                     ghost target: Chunks)
      requires Valid() && |st0| == n && Uniform(st0, 16) && StageShape(n, size, stride)
      requires target == Stage(st0, 16, size, stride, stable, descending)
      requires blockStart == if isEvenBlock then 0 else size
      requires SecondBlocksAre(state, st0, blockStart, size)
      modifies yv, xi, this`state
      ensures Valid() && state == Pass(old(state), target, blockStart, size)
    {
      ghost var m := Pow2Quotient(size, n);
      ghost var result := Pass(state, target, blockStart, size);
      var ascDir := if !descending then isEvenBlock else !isEvenBlock;
      var base := blockStart;
      ghost var b := if isEvenBlock then 0 else 1;
      while base < n
        invariant Valid() && base == b * size && (b % 2 == 0) == isEvenBlock
        invariant SecondBlocksAre(state, st0, base, size)
        invariant Pass(state, target, base, size) == result
        decreases n - base
      {
        PassTurn(state, st0, target, base, b, size, m, descending);
        MergeBlock(size, stride, base, b, ascDir, st0, target);
        base := base + 2 * size;
        b := b + 2;
      }
    }

    /** One (k, j) stage of the chunk network: even blocks, then odd blocks. */
    method MergeStage(size: nat, stride: nat)
      requires Valid() && StageShape(n, size, stride)
      modifies yv, xi, this`state
      ensures Valid() && state == Stage(old(state), 16, size, stride, stable, descending)
    {
      ghost var st0 := state;
      ghost var target := Stage(st0, 16, size, stride, stable, descending);
      AllBlocksAre(st0, 0, size);
      TwoPasses(st0, target, 0, size);
      MergePass(size, stride, 0, true, st0, target);
      if size < n {
        OddBlocksUntouched(st0, target, 0, size);
        MergePass(size, stride, size, false, st0, target);
      }
    }

    /** Step 2: all stages of the chunk network. */
    method ChunkMerges()
      requires Valid()
      modifies yv, xi, this`state
      ensures Valid() && state == Network(old(state), 16, 2, stable, descending)
    {
      var k := 2;
      assert IsPow2(2);
      while k <= n
        invariant Valid() && IsPow2(k) && k >= 2
        invariant Network(state, 16, k, stable, descending) == Network(old(state), 16, 2, stable, descending)
        decreases if k <= n then n + 1 - k else 0
      {
        Pow2Pos(k);
        var j: nat := k / 2;
        ghost var start := state;
        while j >= 1
          invariant Valid() && CN.PhaseShape(n, k, j)
          invariant Merge(state, 16, k, j, stable, descending) == Merge(start, 16, k, k / 2, stable, descending)
        {
          MergeStage(k, j);
          j := j / 2;
        }
        k := k * 2;
      }
    }

    lemma Row()
      requires Valid()
      ensures Flatten(state) == Zip(yv[..], xi[..])
    {
      var s := Zip(yv[..], xi[..]);
      forall c: nat | c < n
        ensures state[c] == ChunkOf(s, c)
      {
        assert Chunk(c) == ChunkOf(s, c);
      }
      ChunksAreRow(state, s, n);
    }

    /** The whole kernel on one row. */
    method Run()
      requires Valid()
      modifies yv, xi, this`state
      ensures Valid() && state == KernelSort(Input(x[..], n), 16, stable, descending)
      // the values are sorted in the requested direction ...
      ensures forall i, j :: 0 <= i < j < yv.Length ==> if descending then yv[i] >= yv[j] else yv[i] <= yv[j]
      // ... and are the input values; every index still names its value
      ensures multiset(yv[..]) == multiset(x[..])
      ensures forall i :: 0 <= i < yv.Length ==> 0 <= xi[i] < x.Length && yv[i] == x[xi[i]]
      // the indices are permuted in stable mode and whenever no value occurs twice ...
      ensures stable || Distinct(x[..]) ==> multiset(xi[..]) == multiset(seq(16 * n, i => i))
      // ... and stable mode orders ties by index for at most two chunks
      ensures stable && n <= 2 ==> forall i, j :: 0 <= i < j < yv.Length && yv[i] == yv[j] ==> xi[i] < xi[j]
    {
      LocalSorts();
      ChunkMerges();
      Row();
      KernelResult(x[..], yv[..], xi[..], n, stable, descending);
    }
  }

  /** The right-hand side of the merge loops. */
  method MergeSortedPairVectors(left: seq<real>, leftIdx: seq<int>, right: seq<real>, rightIdx: seq<int>,
                                ascending: bool, stable: bool)
    returns (leftMerge: seq<real>, leftIdxMerge: seq<int>, rightMerge: seq<real>, rightIdxMerge: seq<int>)
    requires |left| == |leftIdx| == |right| == |rightIdx| == VECTOR_SIZE
    ensures |leftMerge| == |leftIdxMerge| == |rightMerge| == |rightIdxMerge| == VECTOR_SIZE
    ensures (Zip(leftMerge, leftIdxMerge), Zip(rightMerge, rightIdxMerge))
         == MergeSorted(Zip(left, leftIdx), Zip(right, rightIdx), stable, !ascending)
  {
    var revIndices: seq<nat> := seq(VECTOR_SIZE, l requires 0 <= l < VECTOR_SIZE => VECTOR_SIZE - 1 - l);
    var rightPair, rightIdxPair := VectorShuffle(right, revIndices), VectorShuffle(rightIdx, revIndices);
    var l, r := Zip(left, leftIdx), Zip(rightPair, rightIdxPair);
    assert r == Reversed(Zip(right, rightIdx));
    var cmp := seq(VECTOR_SIZE, k requires 0 <= k < VECTOR_SIZE => Before(stable, !ascending, l[k], r[k]));
    leftMerge, leftIdxMerge := Where(cmp, left, rightPair), Where(cmp, leftIdx, rightIdxPair);
    rightMerge, rightIdxMerge := Where(cmp, rightPair, left), Where(cmp, rightIdxPair, leftIdx);
    var m := MergeSorted(Zip(left, leftIdx), Zip(right, rightIdx), stable, !ascending);
    assert Zip(leftMerge, leftIdxMerge) == m.0;
    assert Zip(rightMerge, rightIdxMerge) == m.1;
  }

  /** In a stage with the given direction, chunks a and a+stride become their merge-split. */
  predicate PairTarget(st0: Chunks, target: Chunks, a: nat, stride: nat, stable: bool, down: bool)
    requires |st0| == |target| && a + stride < |st0| && Uniform(st0, 16)
  {
    && target[a] == MergeSplit(st0[a], st0[a + stride], stable, down).0
    && target[a + stride] == MergeSplit(st0[a], st0[a + stride], stable, down).1
  }

  ghost predicate GroupTarget(st0: Chunks, target: Chunks, a: nat, stride: nat, stable: bool, down: bool)
    requires |st0| == |target| && a + 2 * stride <= |st0| && Uniform(st0, 16)
  {
    forall l: nat :: a <= l < a + stride ==> PairTarget(st0, target, l, stride, stable, down)
  }

  lemma GroupTargets(st0: Chunks, target: Chunks, size: nat, stride: nat, stable: bool, descending: bool, group: nat)
    requires Uniform(st0, 16) && StageShape(|st0|, size, stride)
    requires target == Stage(st0, 16, size, stride, stable, descending)
    requires group * (2 * stride) + 2 * stride <= |st0|
    ensures var a := group * (2 * stride);
            GroupTarget(st0, target, a, stride, stable, !CN.Up(a, size, descending))
  {
    var a := group * (2 * stride);
    Distribute(group, 1, 2 * stride);
    var down := !CN.Up(a, size, descending);
    forall l: nat | a <= l < a + stride
      ensures PairTarget(st0, target, l, stride, stable, down)
    {
      PairLanes(group, stride, l - a);
      GroupInBlock(size, stride, group, l);
      GroupInBlock(size, stride, group, l + stride);
    }
  }

  // ----- every second block -----

  /** st with the block at base replaced by its target. */
  function Splice(st: Chunks, target: Chunks, base: nat, size: nat): (r: Chunks)
    requires |st| == |target|
    ensures |r| == |st|
  {
    seq(|st|, l requires 0 <= l < |st| => if base <= l < base + size then target[l] else st[l])
  }

  /** What a pass makes of the chunks: it replaces the blocks at base, base + 2*size, ... */
  function Pass(st: Chunks, target: Chunks, base: nat, size: nat): (r: Chunks)
    requires |st| == |target| && size > 0
    ensures |r| == |st|
    decreases if base < |st| then |st| - base else 0
  {
    if base >= |st| then st else Pass(Splice(st, target, base, size), target, base + 2 * size, size)
  }

  /** The blocks of st at base, base + 2*size, ... are those of st0. */
  ghost predicate SecondBlocksAre(st: Chunks, st0: Chunks, base: nat, size: nat)
    requires |st| == |st0| && size > 0
    decreases if base < |st| then |st| - base else 0
  {
    base < |st| ==>
      && (forall l :: 0 <= l < |st| && base <= l < base + size ==> st[l] == st0[l])
      && SecondBlocksAre(st, st0, base + 2 * size, size)
  }

  lemma {:induction false} AllBlocksAre(st: Chunks, base: nat, size: nat)
    requires size > 0
    ensures SecondBlocksAre(st, st, base, size)
    decreases if base < |st| then |st| - base else 0
  {
    if base < |st| {
      AllBlocksAre(st, base + 2 * size, size);
    }
  }

  lemma {:induction false} SecondBlocksFrom(st: Chunks, st': Chunks, st0: Chunks, from: nat, base: nat, size: nat)
    requires |st| == |st'| == |st0| && size > 0 && from <= base
    requires forall l :: from <= l < |st| ==> st[l] == st'[l]
    requires SecondBlocksAre(st, st0, base, size)
    ensures SecondBlocksAre(st', st0, base, size)
    decreases if base < |st| then |st| - base else 0
  {
    if base < |st| {
      SecondBlocksFrom(st, st', st0, from, base + 2 * size, size);
    }
  }

  lemma SecondBlocksStay(st: Chunks, st0: Chunks, target: Chunks, base: nat, size: nat)
    requires |st| == |st0| == |target| && size > 0 && base < |st|
    requires SecondBlocksAre(st, st0, base, size)
    ensures SecondBlocksAre(Splice(st, target, base, size), st0, base + 2 * size, size)
  {
    SecondBlocksFrom(st, Splice(st, target, base, size), st0, base + size, base + 2 * size, size);
  }

  lemma PassUnfold(st: Chunks, target: Chunks, base: nat, size: nat)
    requires |st| == |target| && size > 0 && base < |st|
    ensures Pass(st, target, base, size) == Pass(Splice(st, target, base, size), target, base + 2 * size, size)
  {
  }

  lemma BlockDirection(b: nat, size: nat, descending: bool)
    requires size > 0
    ensures CN.Up(b * size, size, descending) == ((b % 2 == 0) != descending)
  {
    DivMod(b, size, 0);
  }

  /** What a turn of the loop over base needs, and what it leaves for the next turn. */
  lemma PassTurn(st: Chunks, st0: Chunks, target: Chunks, base: nat, b: nat, size: nat, m: nat, descending: bool)
    requires |st| == |st0| == |target| == m * size && size > 0 && base == b * size < |st|
    requires SecondBlocksAre(st, st0, base, size)
    ensures base + size <= |st| && (b + 2) * size == base + 2 * size
    ensures CN.Up(base, size, descending) == ((b % 2 == 0) != descending)
    ensures forall l: nat :: base <= l < base + size ==> st[l] == st0[l]
    ensures SecondBlocksAre(Splice(st, target, base, size), st0, base + 2 * size, size)
    ensures Pass(st, target, base, size) == Pass(Splice(st, target, base, size), target, base + 2 * size, size)
  {
    BlocksAhead(b, size, m);
    BlockDirection(b, size, descending);
    SecondBlocksStay(st, st0, target, base, size);
    PassUnfold(st, target, base, size);
  }

  lemma {:induction false} PassKeepsFront(st: Chunks, target: Chunks, base: nat, size: nat)
    requires |st| == |target| && size > 0
    ensures forall l :: 0 <= l < |st| && l < base ==> Pass(st, target, base, size)[l] == st[l]
    decreases if base < |st| then |st| - base else 0
  {
    if base < |st| {
      PassKeepsFront(Splice(st, target, base, size), target, base + 2 * size, size);
    }
  }

  lemma {:induction false} OddBlocksUntouched(st: Chunks, target: Chunks, base: nat, size: nat)
    requires |st| == |target| && size > 0
    ensures SecondBlocksAre(Pass(st, target, base, size), st, base + size, size)
    decreases if base < |st| then |st| - base else 0
  {
    var r := Pass(st, target, base, size);
    if base >= |st| {
      AllBlocksAre(st, base + size, size);
    } else {
      var st1 := Splice(st, target, base, size);
      OddBlocksUntouched(st1, target, base + 2 * size, size);
      PassKeepsFront(st1, target, base + 2 * size, size);
      SecondBlocksBase(r, st1, st, base + size, base + 3 * size, size);
    }
  }

  lemma {:induction false} SecondBlocksBase(st: Chunks, st0: Chunks, st0': Chunks, from: nat, base: nat, size: nat)
    requires |st| == |st0| == |st0'| && size > 0 && from <= base
    requires forall l :: from <= l < |st| ==> st0[l] == st0'[l]
    requires SecondBlocksAre(st, st0, base, size)
    ensures SecondBlocksAre(st, st0', base, size)
    decreases if base < |st| then |st| - base else 0
  {
    if base < |st| {
      SecondBlocksBase(st, st0, st0', from, base + 2 * size, size);
    }
  }

  /** The even pass followed by the odd pass reaches every block. */
  lemma {:induction false} TwoPasses(st: Chunks, target: Chunks, base: nat, size: nat)
    requires |st| == |target| && size > 0
    requires forall l :: 0 <= l < |st| && l < base ==> st[l] == target[l]
    ensures Pass(Pass(st, target, base, size), target, base + size, size) == target
    decreases if base < |st| then |st| - base else 0
  {
    if base >= |st| {
      assert st == target;
    } else {
      var st2 := TwoBlocks(st, target, base, size);
      TwoPasses(st2, target, base + 2 * size, size);
    }
  }

  lemma TwoBlocks(st: Chunks, target: Chunks, base: nat, size: nat) returns (st2: Chunks)
    requires |st| == |target| && size > 0 && base < |st|
    requires forall l :: 0 <= l < |st| && l < base ==> st[l] == target[l]
    ensures |st2| == |st| && forall l :: 0 <= l < |st| && l < base + 2 * size ==> st2[l] == target[l]
    ensures Pass(Pass(st, target, base, size), target, base + size, size)
         == Pass(Pass(st2, target, base + 2 * size, size), target, base + 3 * size, size)
  {
    var st1 := Splice(st, target, base, size);
    st2 := Splice(st1, target, base + size, size);
    PassCommutes(st1, target, base + 2 * size, base + size, size);
    if base + size >= |st| {
      assert st2 == st1;
    }
  }

  /** Replacing an earlier block commutes with a later pass. */
  lemma {:induction false} PassCommutes(st: Chunks, target: Chunks, base: nat, at: nat, size: nat)
    requires |st| == |target| && size > 0 && at + size <= base
    ensures Splice(Pass(st, target, base, size), target, at, size)
         == Pass(Splice(st, target, at, size), target, base, size)
    decreases if base < |st| then |st| - base else 0
  {
    if base < |st| {
      var st1 := Splice(st, target, base, size);
      PassCommutes(st1, target, base + 2 * size, at, size);
      assert Splice(st1, target, at, size) == Splice(Splice(st, target, at, size), target, base, size);
    }
  }

  lemma GroupInside(block: nat, size: nat, m: nat, stride: nat, g: nat)
    requires size == m * (2 * stride) && g * (2 * stride) < size
    ensures g < m && (g + 1) * (2 * stride) == g * (2 * stride) + 2 * stride <= size
    ensures (block * m + g) * (2 * stride) == block * size + g * (2 * stride)
    ensures (block * size + g * (2 * stride)) / size == block * size / size
  {
    if g >= m {
      MulMonotone(m, g, 2 * stride);
    }
    Distribute(g, 1, 2 * stride);
    MulMonotone(g + 1, m, 2 * stride);
    RegroupAt(block, m, g, 2 * stride);
    DivMod(block, size, g * (2 * stride));
    DivMod(block, size, 0);
  }

  lemma RegroupAt(block: nat, m: nat, g: nat, d: nat)
    ensures (block * m + g) * d == block * (m * d) + g * d
  {
    Regroup(block * m + g, block, m, g, d);
  }

  lemma BlocksAhead(b: nat, size: nat, m: nat)
    requires size > 0 && b * size < m * size
    ensures (b + 2) * size == b * size + 2 * size
    ensures b * size + size <= m * size
  {
    if b >= m {
      MulMonotone(m, b, size);
    }
    Distribute(b, 1, size);
    Distribute(b, 2, size);
    MulMonotone(b + 1, m, size);
  }

  // ----- from chunks back to the row -----

  lemma {:induction false} ChunksAreRow(st: Chunks, s: seq<Elem>, n: nat)
    requires |st| == n && |s| == 16 * n
    requires forall c: nat :: c < n ==> st[c] == ChunkOf(s, c)
    ensures Flatten(st) == s
    decreases n
  {
    if n > 0 {
      var rest := s[16..];
      forall c: nat | c < n - 1
        ensures st[1..][c] == ChunkOf(rest, c)
      {
        assert st[1..][c] == ChunkOf(s, c + 1);
      }
      ChunksAreRow(st[1..], rest, n - 1);
      assert s == ChunkOf(s, 0) + rest;
    }
  }

  lemma {:induction false} FlattenAt(st: Chunks, i: nat)
    requires Uniform(st, 16) && i < 16 * |st|
    ensures |Flatten(st)| == 16 * |st| && Flatten(st)[i] == st[i / 16][i % 16]
    decreases |st|
  {
    FlattenLength(st);
    if i >= 16 {
      FlattenAt(st[1..], i - 16);
    }
  }

  lemma {:induction false} FlattenLength(st: Chunks)
    requires Uniform(st, 16)
    ensures |Flatten(st)| == 16 * |st|
    decreases |st|
  {
    if |st| > 0 {
      FlattenLength(st[1..]);
    }
  }

  /** The input pairs in row order: element i is (x[i], i). */
  lemma InputRow(x: seq<real>, n: nat)
    requires |x| == 16 * n
    ensures Flatten(Input(x, n)) == Zip(x, seq(16 * n, i => i))
  {
    var s := Zip(x, seq(16 * n, i => i));
    forall c: nat | c < n
      ensures Input(x, n)[c] == ChunkOf(s, c)
    {
    }
    ChunksAreRow(Input(x, n), s, n);
  }

  ghost function NamesItsValue(x: seq<real>): Elem -> bool {
    (e: Elem) => 0 <= e.i < |x| && e.v == x[e.i]
  }

  lemma RowOrder(x: seq<real>, n: nat, stable: bool, descending: bool, s: seq<Elem>, i: nat, j: nat)
    requires IsPow2(n) && |x| == |s| == 16 * n && i < j < 16 * n
    requires Flatten(KernelSort(Input(x, n), 16, stable, descending)) == s
    ensures Before(TiesAcross(stable, n), descending, s[i], s[j])
  {
    var st := Input(x, n);
    KernelSorts(st, 16, stable, descending);
    var r := KernelSort(st, 16, stable, descending);
    FlattenAt(r, i);
    FlattenAt(r, j);
    if i / 16 == j / 16 {
      assert InOrder(r[i / 16], stable, descending);
      assert Before(stable, descending, s[i], s[j]);
    }
  }

  lemma RowNames(x: seq<real>, n: nat, stable: bool, descending: bool, s: seq<Elem>, i: nat)
    requires IsPow2(n) && |x| == |s| == 16 * n && i < 16 * n
    requires Flatten(KernelSort(Input(x, n), 16, stable, descending)) == s
    ensures NamesItsValue(x)(s[i])
  {
    var st, r := Input(x, n), KernelSort(Input(x, n), 16, stable, descending);
    KernelHolds(st, 16, stable, descending, NamesItsValue(x));
    FlattenAt(r, i);
    assert Holds(r[i / 16], NamesItsValue(x));
  }

  lemma RowPermutes(x: seq<real>, v: seq<real>, ix: seq<int>, n: nat, stable: bool, descending: bool)
    requires IsPow2(n) && |x| == |v| == |ix| == 16 * n
    requires Flatten(KernelSort(Input(x, n), 16, stable, descending)) == Zip(v, ix)
    ensures multiset(v) == multiset(x)
    ensures stable ==> multiset(ix) == multiset(seq(16 * n, i => i))
  {
    var ids: seq<int> := seq(16 * n, i => i);
    KernelPermutes(Input(x, n), 16, stable, descending);
    InputRow(x, n);
    assert Values(Zip(v, ix)) == v && Values(Zip(x, ids)) == x;
    if stable {
      SameIndices(Zip(v, ix), Zip(x, ids));
      assert Indices(Zip(v, ix)) == ix && Indices(Zip(x, ids)) == ids;
    }
  }

  ghost function HasIndex(i: int): Elem -> bool {
    (e: Elem) => e.i == i
  }

  lemma SameIndices(a: seq<Elem>, b: seq<Elem>)
    requires multiset(a) == multiset(b)
    ensures multiset(Indices(a)) == multiset(Indices(b))
  {
    forall i: int
      ensures Count(Indices(a), Is(i)) == Count(Indices(b), Is(i))
    {
      CountByMultiset(a, b, HasIndex(i));
      assert Bits(Indices(a), Is(i)) == Bits(a, HasIndex(i));
      assert Bits(Indices(b), Is(i)) == Bits(b, HasIndex(i));
    }
    SameCountsSameMultiset(Indices(a), Indices(b));
  }

  /** Places that name each of some distinct values are a permutation of all places. */
  lemma NamesPermute(x: seq<real>, v: seq<real>, ix: seq<int>)
    requires |x| == |v| == |ix| && multiset(v) == multiset(x) && Distinct(x)
    requires forall i :: 0 <= i < |x| ==> 0 <= ix[i] < |x| && v[i] == x[ix[i]]
    ensures multiset(ix) == multiset(seq(|x|, i => i))
  {
    var ids: seq<int> := seq(|x|, i => i);
    forall i, j | 0 <= i < j < |ix|
      ensures ix[i] != ix[j]
    {
      Permutations.DistinctWhenPermuted(v, x, i, j);
    }
    forall p: int
      ensures multiset(ix)[p] == multiset(ids)[p]
    {
      Permutations.OnceWhenDistinct(ix, p);
      Permutations.OnceWhenDistinct(ids, p);
      if 0 <= p < |x| {
        assert ids[p] in ids;
        PlaceIsNamed(x, v, ix, p);
      }
    }
  }

  lemma PlaceIsNamed(x: seq<real>, v: seq<real>, ix: seq<int>, p: nat)
    requires |x| == |v| == |ix| && multiset(v) == multiset(x) && Distinct(x) && p < |x|
    requires forall i :: 0 <= i < |x| ==> 0 <= ix[i] < |x| && v[i] == x[ix[i]]
    ensures p in ix
  {
    assert x[p] in multiset(v);
    var i :| 0 <= i < |v| && v[i] == x[p];
    assert ix[i] == p;
  }

  /** The result of the kernel, read as a row. */
  lemma KernelResult(x: seq<real>, v: seq<real>, ix: seq<int>, n: nat, stable: bool, descending: bool)
    requires IsPow2(n) && |x| == |v| == |ix| == 16 * n
    requires Flatten(KernelSort(Input(x, n), 16, stable, descending)) == Zip(v, ix)
    ensures forall i, j :: 0 <= i < j < 16 * n ==> if descending then v[i] >= v[j] else v[i] <= v[j]
    ensures multiset(v) == multiset(x)
    ensures forall i :: 0 <= i < 16 * n ==> 0 <= ix[i] < 16 * n && v[i] == x[ix[i]]
    ensures stable || Distinct(x) ==> multiset(ix) == multiset(seq(16 * n, i => i))
    ensures stable && n <= 2 ==> forall i, j :: 0 <= i < j < 16 * n && v[i] == v[j] ==> ix[i] < ix[j]
  {
    var s := Zip(v, ix);
    RowPermutes(x, v, ix, n, stable, descending);
    forall i, j | 0 <= i < j < 16 * n
      ensures if descending then v[i] >= v[j] else v[i] <= v[j]
      ensures stable && n <= 2 && v[i] == v[j] ==> ix[i] < ix[j]
    {
      RowOrder(x, n, stable, descending, s, i, j);
      if stable {
        Permutations.DistinctWhenPermuted(ix, seq(16 * n, k => k), i, j);
      }
    }
    forall i | 0 <= i < 16 * n
      ensures 0 <= ix[i] < 16 * n && v[i] == x[ix[i]]
    {
      RowNames(x, n, stable, descending, s, i);
    }
    if Distinct(x) {
      NamesPermute(x, v, ix);
    }
  }
}
