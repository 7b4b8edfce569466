/** The stage generator: the shuffle and the select-min mask of every stage of the network. */
module BitonicStages {
  import opened Arithmetic
  import opened BitonicLanes

  datatype StageDesc = StageDesc(shuffle: seq<nat>, selectMin: seq<bool>)

  /** An entry of the mask under construction; lanes start out unset. */
  datatype MaskBit = Unset | Lane(isMin: bool)

  /** The stage that the network needs at (size, stride): each lane meets its partner. */
  ghost predicate IsStage(d: StageDesc, n: nat, size: nat, stride: nat, descending: bool)
    requires size > 0 && stride > 0
  {
    && |d.shuffle| == |d.selectMin| == n
    && forall l: nat :: l < n ==>
      && d.shuffle[l] == Partner(l, stride)
      && d.selectMin[l] == SelectMin(l, size, stride, descending)
  }

  function StageAt(n: nat, size: nat, stride: nat, descending: bool): (d: StageDesc)
    requires size > 0 && stride > 0
    ensures IsStage(d, n, size, stride, descending)
  {
    StageDesc(seq(n, l requires l >= 0 => Partner(l, stride)),
              seq(n, l requires l >= 0 => SelectMin(l, size, stride, descending)))
  }

  predicate StrideShape(size: nat, stride: nat) {
    IsPow2(size) && (stride == 0 || (IsPow2(stride) && 2 * stride <= size))
  }

  function PhaseStages(n: nat, size: nat, stride: nat, descending: bool): seq<StageDesc>
    requires StrideShape(size, stride)
  {
    if stride == 0 then [] else [StageAt(n, size, stride, descending)] + PhaseStages(n, size, stride / 2, descending)
  }

  /** Phases size, 2*size, ..., n with their strides size/2, ..., 1: the whole stage list is StageList(n, 2, _). */
  function StageList(n: nat, size: nat, descending: bool): seq<StageDesc>
    requires IsPow2(size) && size >= 2
    decreases if size <= n then n + 1 - size else 0
  {
    Pow2Pos(size);
    if size > n then [] else PhaseStages(n, size, size / 2, descending) + StageList(n, 2 * size, descending)
  }

  /** The mask of an ascending network before select_min is read off. */
  function MaskAt(n: nat, size: nat, stride: nat): (m: seq<MaskBit>)
    requires size > 0 && stride > 0
    ensures |m| == n
  {
    seq(n, l requires l >= 0 => Lane(IsLower(l, stride) == InAscendingBlock(l, size)))
  }

  function ShuffleAt(n: nat, stride: nat): (s: seq<nat>)
    requires stride > 0
    ensures |s| == n
  {
    seq(n, l requires l >= 0 => Partner(l, stride))
  }

  /** Agrees with `want` on lanes [0, i), and on the first j2 pairs of the group at i. */
  ghost predicate FilledUpTo<T>(s: seq<T>, want: seq<T>, stride: nat, i: nat, j2: nat) {
    && |s| == |want|
    && forall l: nat :: l < |s| && (l < i + j2 || i + stride <= l < i + stride + j2) ==> s[l] == want[l]
  }

  lemma PairIsWanted(n: nat, size: nat, stride: nat, group: nat, ascending: bool, j2: nat)
    requires size > 0 && j2 < stride && (group + 1) * (2 * stride) <= n
    requires forall l: nat :: group * (2 * stride) <= l < (group + 1) * (2 * stride) ==>
               InAscendingBlock(l, size) == ascending
    ensures var a := group * (2 * stride) + j2;
            var b := a + stride;
            && b < n
            && ShuffleAt(n, stride)[a] == b && ShuffleAt(n, stride)[b] == a
            && MaskAt(n, size, stride)[a] == Lane(ascending) && MaskAt(n, size, stride)[b] == Lane(!ascending)
  {
    Distribute(group, 1, 2 * stride);
    PairLanes(group, stride, j2);
  }

  /** The `for j` loop: fills in the pairs of one group of 2*stride lanes. */
  method FillGroup(n: nat, ghost size: nat, stride: nat, i: nat, ghost group: nat, ascending: bool,
                   shuffle0: seq<nat>, mask0: seq<MaskBit>)
    returns (shuffle: seq<nat>, mask: seq<MaskBit>)
    requires size > 0 && stride > 0 && i == group * (2 * stride) && (group + 1) * (2 * stride) <= n
    requires forall l: nat :: i <= l < (group + 1) * (2 * stride) ==> InAscendingBlock(l, size) == ascending
    requires FilledUpTo(shuffle0, ShuffleAt(n, stride), stride, i, 0)
    requires FilledUpTo(mask0, MaskAt(n, size, stride), stride, i, 0)
    ensures FilledUpTo(shuffle, ShuffleAt(n, stride), stride, i + 2 * stride, 0)
    ensures FilledUpTo(mask, MaskAt(n, size, stride), stride, i + 2 * stride, 0)
  {
    shuffle, mask := shuffle0, mask0;
    ghost var wantShuffle, wantMask := ShuffleAt(n, stride), MaskAt(n, size, stride);
    for j2 := 0 to stride
      invariant FilledUpTo(shuffle, wantShuffle, stride, i, j2)
      invariant FilledUpTo(mask, wantMask, stride, i, j2)
    {
      var a, b := i + j2, i + j2 + stride;
      PairIsWanted(n, size, stride, group, ascending, j2);
      shuffle := shuffle[a := b][b := a];
      if ascending {
        mask := mask[a := Lane(true)][b := Lane(false)];
      } else {
        mask := mask[a := Lane(false)][b := Lane(true)];
      }
    }
  }

  lemma GroupBounds(block: nat, blocks: nat, groups: nat, size: nat, stride: nat, n: nat, g: nat, group: nat)
    requires size == groups * (2 * stride) && n == blocks * size && stride > 0
    requires block < blocks && g < groups && group == block * groups + g
    ensures group * (2 * stride) == block * size + g * (2 * stride)
    ensures (group + 1) * (2 * stride) == group * (2 * stride) + 2 * stride <= block * size + size <= n
    ensures g * (2 * stride) + 2 * stride == (g + 1) * (2 * stride)
  {
    Regroup(group, block, groups, g, 2 * stride);
    Distribute(group, 1, 2 * stride);
    Distribute(g, 1, 2 * stride);
    Distribute(block, 1, size);
    MulMonotone(g + 1, groups, 2 * stride);
    MulMonotone(block + 1, blocks, size);
  }

  lemma GroupOfBlock(block: nat, blocks: nat, groups: nat, size: nat, stride: nat, n: nat, g: nat)
    requires size == groups * (2 * stride) && n == blocks * size && stride > 0
    requires block < blocks && g < groups
    ensures var group := block * groups + g;
            && group * (2 * stride) == block * size + g * (2 * stride)
            && (group + 1) * (2 * stride) == group * (2 * stride) + 2 * stride <= block * size + size <= n
            && g * (2 * stride) + 2 * stride == (g + 1) * (2 * stride)
            && forall l: nat :: group * (2 * stride) <= l < (group + 1) * (2 * stride) ==> l / size == block
  {
    var group := block * groups + g;
    GroupBounds(block, blocks, groups, size, stride, n, g, group);
    forall l: nat | group * (2 * stride) <= l < (group + 1) * (2 * stride)
      ensures l / size == block
    {
      InBlock(block, size, l);
    }
  }

  /** The `for i` loop: fills in the groups of one block. */
  method FillBlock(n: nat, size: nat, stride: nat, start: nat, ghost block: nat, ghost blocks: nat, ghost groups: nat,
                   shuffle0: seq<nat>, mask0: seq<MaskBit>)
    returns (shuffle: seq<nat>, mask: seq<MaskBit>)
    requires size == groups * (2 * stride) > 0 && n == blocks * size && start == block * size && block < blocks
    requires FilledUpTo(shuffle0, ShuffleAt(n, stride), stride, start, 0)
    requires FilledUpTo(mask0, MaskAt(n, size, stride), stride, start, 0)
    ensures FilledUpTo(shuffle, ShuffleAt(n, stride), stride, start + size, 0)
    ensures FilledUpTo(mask, MaskAt(n, size, stride), stride, start + size, 0)
  {
    shuffle, mask := shuffle0, mask0;
    DivMod(block, size, 0);
    var ascending := start / size % 2 == 0;
    var i := start;
    ghost var g := 0;
    while i < start + size - stride
      invariant g <= groups && i == start + g * (2 * stride)
      invariant FilledUpTo(shuffle, ShuffleAt(n, stride), stride, i, 0)
      invariant FilledUpTo(mask, MaskAt(n, size, stride), stride, i, 0)
      decreases start + size - i
    {
      GroupOfBlock(block, blocks, groups, size, stride, n, g);
      shuffle, mask := FillGroup(n, size, stride, i, block * groups + g, ascending, shuffle, mask);
      i := i + stride * 2;
      g := g + 1;
    }
    if g < groups {
      GroupOfBlock(block, blocks, groups, size, stride, n, g);
    }
  }

  /** The `for start` loop: every lane gets its partner and its side. */
  method FillStage(n: nat, size: nat, stride: nat) returns (shuffle: seq<nat>, mask: seq<MaskBit>)
    requires StageShape(n, size, stride)
    ensures shuffle == ShuffleAt(n, stride) && mask == MaskAt(n, size, stride)
  {
    Pow2Pos(stride);
    ghost var blocks := Pow2Quotient(size, n);
    ghost var groups := Pow2Quotient(2 * stride, size);
    shuffle, mask := seq(n, l requires l >= 0 => l), seq(n, _ => Unset);
    var start := 0;
    ghost var block := 0;
    while start < n
      invariant start == block * size && block <= blocks
      invariant FilledUpTo(shuffle, ShuffleAt(n, stride), stride, start, 0)
      invariant FilledUpTo(mask, MaskAt(n, size, stride), stride, start, 0)
      decreases n - start
    {
      BlockFits(block, blocks, size);
      shuffle, mask := FillBlock(n, size, stride, start, block, blocks, groups, shuffle, mask);
      start := start + size;
      block := block + 1;
    }
  }

  lemma BlockFits(b: nat, blocks: nat, size: nat)
    requires b * size < blocks * size
    ensures b < blocks && (b + 1) * size == b * size + size <= blocks * size
  {
    if b >= blocks {
      MulMonotone(blocks, b, size);
    }
    MulMonotone(b + 1, blocks, size);
    Distribute(b, 1, size);
  }

  method ComputeStage(n: nat, size: nat, stride: nat, descending: bool) returns (d: StageDesc)
    requires StageShape(n, size, stride)
    ensures d == StageAt(n, size, stride, descending)
  {
    var shuffle, mask := FillStage(n, size, stride);
    var selectMin := seq(n, l requires 0 <= l < n => mask[l] != Unset && mask[l].isMin);
    if descending {
      selectMin := seq(n, l requires 0 <= l < n => !(mask[l] != Unset && mask[l].isMin));
    }
    d := StageDesc(shuffle, selectMin);
    assert selectMin == StageAt(n, size, stride, descending).selectMin;
  }

  /** The inner loop: the stages of one phase. */
  method ComputePhase(n: nat, size: nat, descending: bool, before: seq<StageDesc>) returns (stages: seq<StageDesc>)
    requires IsPow2(n) && IsPow2(size) && 2 <= size <= n
    ensures stages == before + PhaseStages(n, size, size / 2, descending)
  {
    stages := before;
    Pow2Pos(size);
    var stride: nat := size / 2;
    while stride >= 1
      invariant StrideShape(size, stride)
      invariant stages + PhaseStages(n, size, stride, descending)
                == before + PhaseStages(n, size, size / 2, descending)
    {
      var d := ComputeStage(n, size, stride, descending);
      assert stages + ([d] + PhaseStages(n, size, stride / 2, descending))
             == (stages + [d]) + PhaseStages(n, size, stride / 2, descending);
      stages := stages + [d];
      stride := stride / 2;
    }
  }

  lemma AppendPhase(before: seq<StageDesc>, phase: seq<StageDesc>, rest: seq<StageDesc>)
    ensures before + (phase + rest) == (before + phase) + rest
  {
  }

  /** Generates the stages of the network on n lanes, n a power of two. */
  method ComputeBitonicStages(n: nat, descending: bool) returns (stages: seq<StageDesc>)
    requires IsPow2(n)
    ensures stages == StageList(n, 2, descending)
  {
    stages := [];
    var size := 2;
    while size <= n
      invariant IsPow2(size) && size >= 2
      invariant stages + StageList(n, size, descending) == StageList(n, 2, descending)
      decreases if size <= n then n + 1 - size else 0
    {
      ghost var phase, rest := PhaseStages(n, size, size / 2, descending), StageList(n, 2 * size, descending);
      AppendPhase(stages, phase, rest);
      stages := ComputePhase(n, size, descending, stages);
      size := size * 2;
    }
  }

  /** The shuffle is an in-range involution without fixed points that pairs lanes `stride` apart,
      and exactly one lane of each pair takes the minimum. */
  ghost predicate PairsUp(d: StageDesc, n: nat, stride: nat) {
    && |d.shuffle| == |d.selectMin| == n
    && forall l: nat :: l < n ==>
      var p := d.shuffle[l];
      && p < n && p != l && d.shuffle[p] == l && d.selectMin[p] != d.selectMin[l]
      && (p == l + stride || l == p + stride)
  }

  lemma StagePairsUp(n: nat, size: nat, stride: nat, descending: bool)
    requires StageShape(n, size, stride)
    ensures PairsUp(StageAt(n, size, stride, descending), n, stride)
  {
    forall l: nat | l < n
      ensures var p := Partner(l, stride);
              && p < n && p != l && Partner(p, stride) == l
              && SelectMin(p, size, stride, descending) != SelectMin(l, size, stride, descending)
              && (p == l + stride || l == p + stride)
    {
      PartnerProperties(n, size, stride, descending, l);
    }
  }

  lemma {:induction false} PhaseStagesPairUp(n: nat, size: nat, stride: nat, descending: bool)
    requires IsPow2(n) && size <= n && StrideShape(size, stride)
    ensures forall d <- PhaseStages(n, size, stride, descending) :: exists s: nat :: PairsUp(d, n, s)
    decreases stride
  {
    if stride > 0 {
      StagePairsUp(n, size, stride, descending);
      PhaseStagesPairUp(n, size, stride / 2, descending);
    }
  }

  lemma {:induction false} StagesPairUp(n: nat, size: nat, descending: bool)
    requires IsPow2(n) && IsPow2(size) && size >= 2
    ensures forall d <- StageList(n, size, descending) :: exists s: nat :: PairsUp(d, n, s)
    decreases if size <= n then n + 1 - size else 0
  {
    Pow2Pos(size);
    if size <= n {
      PhaseStagesPairUp(n, size, size / 2, descending);
      StagesPairUp(n, 2 * size, descending);
    }
  }
}
