/** Lane arithmetic shared by the vector-level and the chunk-level bitonic networks:
    which lane is paired with which, and which lane of a pair receives the minimum. */
module BitonicLanes {
  import opened Arithmetic

  predicate IsPow2(n: nat) {
    n == 1 || (n > 1 && n % 2 == 0 && IsPow2(n / 2))
  }

  /** A stage of the network over n lanes: blocks of `size` lanes, partners `stride` apart. */
  predicate StageShape(n: nat, size: nat, stride: nat) {
    IsPow2(n) && IsPow2(size) && IsPow2(stride) && 2 * stride <= size <= n
  }

  predicate IsLower(lane: nat, stride: nat)
    requires stride > 0
  {
    lane / stride % 2 == 0
  }

  predicate InAscendingBlock(lane: nat, size: nat)
    requires size > 0
  {
    lane / size % 2 == 0
  }

  function Partner(lane: nat, stride: nat): nat
    requires stride > 0
  {
    if IsLower(lane, stride) then lane + stride else assert lane >= stride; lane - stride
  }

  predicate SelectMin(lane: nat, size: nat, stride: nat, descending: bool)
    requires size > 0 && stride > 0
  {
    (IsLower(lane, stride) == InAscendingBlock(lane, size)) != descending
  }

  /** Bitwise and. */
  function And(a: nat, b: nat): nat {
    if a == 0 || b == 0 then 0 else 2 * And(a / 2, b / 2) + (if a % 2 == 1 && b % 2 == 1 then 1 else 0)
  }

  lemma {:induction false} AndSelf(a: nat)
    ensures And(a, a) == a
    decreases a
  {
    if a > 0 {
      AndSelf(a / 2);
    }
  }

  /** Clearing the lowest set bit leaves nothing exactly for powers of two. */
  lemma {:induction false} BitTest(n: nat)
    requires n > 0
    ensures And(n, n - 1) == 0 <==> IsPow2(n)
    decreases n
  {
    if n > 1 {
      if n % 2 == 0 {
        BitTest(n / 2);
        assert (n - 1) / 2 == n / 2 - 1;
      } else {
        AndSelf(n / 2);
        assert (n - 1) / 2 == n / 2;
      }
    }
  }

  lemma Pow2Pos(n: nat)
    requires IsPow2(n)
    ensures n >= 1
    ensures IsPow2(2 * n)
  {
    assert 2 * n / 2 == n;
  }

  /** Splits a larger power of two into whole copies of a smaller one. */
  lemma {:induction false} Pow2Quotient(a: nat, b: nat) returns (m: nat)
    requires IsPow2(a) && IsPow2(b) && a <= b
    ensures m >= 1 && b == m * a
    decreases b
  {
    if a == b {
      m := 1;
    } else if a == 1 {
      m := b;
    } else {
      var m' := Pow2Quotient(a / 2, b / 2);
      m := m';
      assert b == 2 * (m' * (a / 2)) == m' * (2 * (a / 2));
    }
  }

  /** The two lanes of pair r in the group of 2*stride lanes that starts at lane 2*stride*group. */
  lemma PairLanes(group: nat, stride: nat, r: nat)
    requires r < stride
    ensures var a := group * (2 * stride) + r;
            && IsLower(a, stride) && !IsLower(a + stride, stride)
            && Partner(a, stride) == a + stride && Partner(a + stride, stride) == a
  {
    assert group * (2 * stride) + r == (2 * group) * stride + r;
    assert group * (2 * stride) + r + stride == (2 * group + 1) * stride + r;
    DivMod(2 * group, stride, r);
    DivMod(2 * group + 1, stride, r);
  }

  lemma InBlock(block: nat, size: nat, lane: nat)
    requires block * size <= lane < (block + 1) * size
    ensures size > 0 && lane / size == block
  {
    DivMod(block, size, lane - block * size);
  }

  /** Every lane is lane r or lane r+stride of exactly one group. */
  lemma LaneOfGroup(lane: nat, stride: nat) returns (group: nat, r: nat)
    requires stride > 0
    ensures r < stride
    ensures lane == group * (2 * stride) + r || lane == group * (2 * stride) + r + stride
    ensures lane == group * (2 * stride) + r <==> IsLower(lane, stride)
  {
    var q := lane / stride;
    r := lane % stride;
    group := q / 2;
    assert lane == q * stride + r;
    PairLanes(group, stride, r);
    if q % 2 == 0 {
      assert q * stride == (2 * group) * stride == group * (2 * stride);
    } else {
      assert q * stride == (2 * group + 1) * stride == group * (2 * stride) + stride;
    }
  }

  lemma SameQuotient(m: nat, g: nat, group: nat, lane: nat)
    requires m >= 1 && group * g <= lane < (group + 1) * g
    ensures m * g > 0 && lane / (m * g) == group * g / (m * g)
  {
    var block, within, size := group / m, group % m, m * g;
    Regroup(group, block, m, within, g);
    MulMonotone(within + 1, m, g);
    Distribute(within, 1, g);
    Distribute(group, 1, g);
    DivMod(block, size, within * g);
    DivMod(block, size, within * g + (lane - group * g));
  }

  /** A group of 2*stride lanes lies inside one block of `size` lanes. */
  lemma GroupInBlock(size: nat, stride: nat, group: nat, lane: nat)
    requires IsPow2(size) && IsPow2(stride) && 2 * stride <= size
    requires group * (2 * stride) <= lane < (group + 1) * (2 * stride)
    ensures lane / size == group * (2 * stride) / size
  {
    Pow2Pos(stride);
    var m := Pow2Quotient(2 * stride, size);
    SameQuotient(m, 2 * stride, group, lane);
  }

  /** The groups of 2*stride lanes tile the n lanes exactly. */
  lemma GroupInRange(n: nat, stride: nat, group: nat)
    requires IsPow2(n) && IsPow2(stride) && 2 * stride <= n
    requires group * (2 * stride) < n
    ensures (group + 1) * (2 * stride) <= n
  {
    Pow2Pos(stride);
    var k := Pow2Quotient(2 * stride, n);
    if group >= k {
      MulMonotone(k, group, 2 * stride);
    }
    MulMonotone(group + 1, k, 2 * stride);
  }

  /** Pairing is an in-range involution without fixed points; the partners are `stride` apart,
      lie in one block, and exactly one of the two receives the minimum. */
  lemma PartnerProperties(n: nat, size: nat, stride: nat, descending: bool, lane: nat)
    requires StageShape(n, size, stride)
    requires lane < n
    ensures var p := Partner(lane, stride);
            && p < n && p != lane && Partner(p, stride) == lane
            && (p == lane + stride || lane == p + stride)
            && lane / size == p / size
            && SelectMin(lane, size, stride, descending) != SelectMin(p, size, stride, descending)
  {
    var group, r := LaneOfGroup(lane, stride);
    PairLanes(group, stride, r);
    assert (group + 1) * (2 * stride) == group * (2 * stride) + 2 * stride;
    GroupInBlock(size, stride, group, group * (2 * stride) + r);
    GroupInBlock(size, stride, group, group * (2 * stride) + r + stride);
    GroupInRange(n, stride, group);
  }
}
