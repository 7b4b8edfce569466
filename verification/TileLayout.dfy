/** Scratchpad tile descriptors: strides, lane splitting, padding and divisibility repair. */
module TileLayout {
  import opened Arithmetic
  import opened MixedRadix
  import opened Permutations
  import opened Sequences

  // ----- strides -----

  /** perm lists the axes from the fastest to the slowest one; the stride of an axis is the
      number of elements of all faster axes. */
  ghost predicate Layout(sizes: seq<nat>, strides: seq<nat>, perm: seq<nat>) {
    && |strides| == |sizes| && IsPermutation(perm, |sizes|)
    && |perm| == |sizes| && (forall j :: 0 <= j < |perm| ==> perm[j] < |sizes|)
    && forall j :: 0 <= j < |perm| ==> strides[perm[j]] == Fold(true, Gather(sizes, perm)[..j])
  }

  /** The element address of an index. */
  function Address(idx: seq<nat>, strides: seq<nat>): nat
    requires |idx| == |strides|
  {
    Fold(false, Products(idx, strides))
  }

  function Products(idx: seq<nat>, strides: seq<nat>): (r: seq<nat>)
    requires |idx| == |strides|
    ensures |r| == |idx|
  {
    seq(|idx|, i requires 0 <= i < |idx| => idx[i] * strides[i])
  }

  lemma ReversedSnoc(s: seq<nat>)
    requires |s| > 0
    ensures Reversed(s) == [s[|s| - 1]] + Reversed(s[..|s| - 1])
    ensures Reversed(s)[0] == s[|s| - 1] && Reversed(s)[1..] == Reversed(s[..|s| - 1])
  {
  }

  lemma {:induction false} ProdReversed(s: seq<nat>)
    ensures Prod(Reversed(s)) == Fold(true, s)
    decreases |s|
  {
    if |s| > 0 {
      var front, last := s[..|s| - 1], s[|s| - 1];
      ReversedSnoc(s);
      ProdReversed(front);
      assert s == front + [last];
      FoldConcat(true, front, [last]);
      assert Fold(true, [last]) == last * Fold(true, [last][1..]) == last;
    }
  }

  /** With the fastest axis first, the address is the mixed-radix code of the reversed digits. */
  lemma {:induction false} CodeOfProducts(g: seq<nat>, z: seq<nat>, w: seq<nat>)
    requires |g| == |z| == |w|
    requires forall j :: 0 <= j < |g| ==> w[j] == g[j] * Fold(true, z[..j])
    ensures Fold(false, w) == Encode(Reversed(g), Reversed(z))
    decreases |g|
  {
    if |g| > 0 {
      var n := |g| - 1;
      forall j | 0 <= j < n
        ensures w[..n][j] == g[..n][j] * Fold(true, z[..n][..j])
      {
        assert z[..n][..j] == z[..j];
      }
      CodeOfProducts(g[..n], z[..n], w[..n]);
      assert w == w[..n] + [w[n]];
      FoldConcat(false, w[..n], [w[n]]);
      assert Fold(false, [w[n]]) == w[n] + Fold(false, [w[n]][1..]) == w[n];
      ReversedSnoc(g);
      ReversedSnoc(z);
      ProdReversed(z[..n]);
    }
  }

  lemma AddressIsCode(idx: seq<nat>, sizes: seq<nat>, strides: seq<nat>, perm: seq<nat>)
    requires Layout(sizes, strides, perm) && |idx| == |sizes|
    ensures Address(idx, strides) == Encode(Reversed(Gather(idx, perm)), Reversed(Gather(sizes, perm)))
  {
    var w := Products(idx, strides);
    FoldPermuted(false, w, perm);
    CodeOfProducts(Gather(idx, perm), Gather(sizes, perm), Gather(w, perm));
  }

  lemma BoxPermuted(idx: seq<nat>, sizes: seq<nat>, perm: seq<nat>)
    requires IsPermutation(perm, |sizes|) && |idx| == |sizes|
    ensures |perm| == |sizes| && forall j :: 0 <= j < |perm| ==> perm[j] < |sizes|
    ensures InBox(idx, sizes) <==> InBox(Reversed(Gather(idx, perm)), Reversed(Gather(sizes, perm)))
  {
    PermutationFacts(perm, |sizes|);
    var n, d, z := |sizes|, Reversed(Gather(idx, perm)), Reversed(Gather(sizes, perm));
    if InBox(d, z) {
      forall i | 0 <= i < n
        ensures idx[i] < sizes[i]
      {
        assert i in perm;
        var j :| 0 <= j < n && perm[j] == i;
        assert d[n - 1 - j] < z[n - 1 - j];
      }
    }
  }

  lemma NumelPermuted(sizes: seq<nat>, perm: seq<nat>)
    requires IsPermutation(perm, |sizes|)
    ensures |perm| == |sizes| && forall j :: 0 <= j < |perm| ==> perm[j] < |sizes|
    ensures Prod(Reversed(Gather(sizes, perm))) == Fold(true, sizes)
  {
    FoldPermuted(true, sizes, perm);
    ProdReversed(Gather(sizes, perm));
  }

  lemma AddressInRange(idx: seq<nat>, sizes: seq<nat>, strides: seq<nat>, perm: seq<nat>)
    requires Layout(sizes, strides, perm) && InBox(idx, sizes)
    ensures Address(idx, strides) < Fold(true, sizes)
  {
    AddressIsCode(idx, sizes, strides, perm);
    BoxPermuted(idx, sizes, perm);
    NumelPermuted(sizes, perm);
    EncodeBound(Reversed(Gather(idx, perm)), Reversed(Gather(sizes, perm)));
  }

  lemma AddressInjective(a: seq<nat>, b: seq<nat>, sizes: seq<nat>, strides: seq<nat>, perm: seq<nat>)
    requires Layout(sizes, strides, perm) && InBox(a, sizes) && InBox(b, sizes)
    requires Address(a, strides) == Address(b, strides)
    ensures a == b
  {
    var n, z := |sizes|, Reversed(Gather(sizes, perm));
    var d, e := Reversed(Gather(a, perm)), Reversed(Gather(b, perm));
    AddressIsCode(a, sizes, strides, perm);
    AddressIsCode(b, sizes, strides, perm);
    BoxPermuted(a, sizes, perm);
    BoxPermuted(b, sizes, perm);
    DecodeEncode(d, z);
    DecodeEncode(e, z);
    PermutationFacts(perm, n);
    forall i | 0 <= i < n
      ensures a[i] == b[i]
    {
      assert i in perm;
      var j :| 0 <= j < n && perm[j] == i;
      assert d[n - 1 - j] == e[n - 1 - j];
    }
  }

  /** The index whose entries, read in the order of perm from the back, are the given digits. */
  lemma PlaceDigits(d: seq<nat>, perm: seq<nat>) returns (idx: seq<nat>)
    requires IsPermutation(perm, |d|)
    ensures |idx| == |d| && (forall j :: 0 <= j < |perm| ==> perm[j] < |idx|) && Reversed(Gather(idx, perm)) == d
  {
    var n := |d|;
    PermutationFacts(perm, n);
    idx := seq(n, i requires 0 <= i < n => assert i in perm; var j :| 0 <= j < n && perm[j] == i; d[n - 1 - j]);
    assert forall j :: 0 <= j < n ==> idx[perm[j]] == d[n - 1 - j];
  }

  lemma AddressOnto(sizes: seq<nat>, strides: seq<nat>, perm: seq<nat>, t: nat) returns (idx: seq<nat>)
    requires Layout(sizes, strides, perm) && Positive(sizes) && t < Fold(true, sizes)
    ensures InBox(idx, sizes) && Address(idx, strides) == t
  {
    var n, z := |sizes|, Reversed(Gather(sizes, perm));
    PermutationFacts(perm, n);
    NumelPermuted(sizes, perm);
    EncodeDecode(t, z);
    var d := Decode(t, z);
    idx := PlaceDigits(d, perm);
    BoxPermuted(idx, sizes, perm);
    AddressIsCode(idx, sizes, strides, perm);
  }

  ghost predicate IsAddressed(sizes: seq<nat>, strides: seq<nat>, t: nat)
    requires |strides| == |sizes|
  {
    exists idx: seq<nat> :: InBox(idx, sizes) && Address(idx, strides) == t
  }

  /** Main result: the strides address the box bijectively onto 0..numel-1. */
  lemma StridesAreBijective(sizes: seq<nat>, strides: seq<nat>, perm: seq<nat>)
    requires Layout(sizes, strides, perm) && Positive(sizes)
    ensures forall idx: seq<nat> :: InBox(idx, sizes) ==> Address(idx, strides) < Fold(true, sizes)
    ensures forall a: seq<nat>, b: seq<nat> ::
              InBox(a, sizes) && InBox(b, sizes) && Address(a, strides) == Address(b, strides) ==> a == b
    ensures forall t: nat :: t < Fold(true, sizes) ==> IsAddressed(sizes, strides, t)
  {
    forall idx: seq<nat> | InBox(idx, sizes)
      ensures Address(idx, strides) < Fold(true, sizes)
    {
      AddressInRange(idx, sizes, strides, perm);
    }
    forall a: seq<nat>, b: seq<nat> | InBox(a, sizes) && InBox(b, sizes) && Address(a, strides) == Address(b, strides)
      ensures a == b
    {
      AddressInjective(a, b, sizes, strides, perm);
    }
    forall t: nat | t < Fold(true, sizes)
      ensures IsAddressed(sizes, strides, t)
    {
      var idx := AddressOnto(sizes, strides, perm, t);
    }
  }

  /** x comes before y: larger key first, equal keys in axis order. */
  predicate Faster(order: seq<real>, x: nat, y: nat)
    requires x < |order| && y < |order|
  {
    order[x] > order[y] || (order[x] == order[y] && x < y)
  }

  ghost predicate SortedAxes(order: seq<real>, perm: seq<nat>) {
    && (forall j :: 0 <= j < |perm| ==> perm[j] < |order|)
    && forall i, j :: 0 <= i < j < |perm| ==> Faster(order, perm[i], perm[j])
  }

  method InsertAxis(order: seq<real>, perm: seq<nat>, k: nat) returns (r: seq<nat>)
    requires k < |order| && SortedAxes(order, perm) && forall j :: 0 <= j < |perm| ==> perm[j] < k
    ensures |r| == |perm| + 1 && multiset(r) == multiset(perm) + multiset{k} && SortedAxes(order, r)
  {
    var at := 0;
    while at < |perm| && order[perm[at]] >= order[k]
      invariant 0 <= at <= |perm|
      invariant forall j :: 0 <= j < at ==> order[perm[j]] >= order[k]
    {
      at := at + 1;
    }
    r := perm[..at] + ([k] + perm[at..]);
    InsertedAt(order, perm, at, k);
  }

  lemma InsertedAt(order: seq<real>, perm: seq<nat>, at: nat, k: nat)
    requires k < |order| && SortedAxes(order, perm) && at <= |perm| && forall j :: 0 <= j < |perm| ==> perm[j] < k
    requires forall j :: 0 <= j < at ==> order[perm[j]] >= order[k]
    requires at < |perm| ==> order[perm[at]] < order[k]
    ensures var r := perm[..at] + ([k] + perm[at..]);
            multiset(r) == multiset(perm) + multiset{k} && SortedAxes(order, r)
  {
    var fast, slow := perm[..at], perm[at..];
    assert perm == fast + slow;
    SortedAxesInsert(order, fast, slow, k);
  }

  lemma SortedAxesInsert(order: seq<real>, fast: seq<nat>, slow: seq<nat>, k: nat)
    requires k < |order| && SortedAxes(order, fast + slow)
    requires forall i :: 0 <= i < |fast| ==> fast[i] < k && order[fast[i]] >= order[k]
    requires |slow| > 0 ==> slow[0] < |order| && order[slow[0]] < order[k]
    ensures SortedAxes(order, fast + ([k] + slow))
  {
    SortedAxesSplit(order, fast, slow);
    forall j | 0 <= j < |slow|
      ensures Faster(order, k, slow[j])
    {
      assert j > 0 ==> Faster(order, slow[0], slow[j]);
    }
    SortedAxesInserted(order, fast, slow, k);
  }

  lemma SortedAxesInserted(order: seq<real>, fast: seq<nat>, slow: seq<nat>, k: nat)
    requires k < |order| && SortedAxes(order, fast) && SortedAxes(order, slow)
    requires forall i, j :: 0 <= i < |fast| && 0 <= j < |slow| ==> Faster(order, fast[i], slow[j])
    requires forall i :: 0 <= i < |fast| ==> Faster(order, fast[i], k)
    requires forall j :: 0 <= j < |slow| ==> Faster(order, k, slow[j])
    ensures SortedAxes(order, fast + ([k] + slow))
  {
    SortedAxesConcat(order, [k], slow);
    SortedAxesConcat(order, fast, [k] + slow);
  }

  lemma SortedAxesSplit(order: seq<real>, a: seq<nat>, b: seq<nat>)
    requires SortedAxes(order, a + b)
    ensures SortedAxes(order, a) && SortedAxes(order, b)
    ensures forall i, j :: 0 <= i < |a| && 0 <= j < |b| ==> Faster(order, a[i], b[j])
  {
    var all := a + b;
    assert forall i :: 0 <= i < |a| ==> a[i] == all[i];
    assert forall j :: 0 <= j < |b| ==> b[j] == all[|a| + j];
  }

  lemma SortedAxesConcat(order: seq<real>, a: seq<nat>, b: seq<nat>)
    requires SortedAxes(order, a) && SortedAxes(order, b)
    requires forall i, j :: 0 <= i < |a| && 0 <= j < |b| ==> Faster(order, a[i], b[j])
    ensures SortedAxes(order, a + b)
  {
  }

  /** sorted(..., reverse=True) over the axes: a stable descending sort. */
  method SortAxes(order: seq<real>) returns (perm: seq<nat>)
    ensures IsPermutation(perm, |order|) && |perm| == |order| && SortedAxes(order, perm)
  {
    perm := [];
    for k := 0 to |order|
      invariant |perm| == k && multiset(perm) == multiset(Ids(k)) && SortedAxes(order, perm)
    {
      PermutationFacts(perm, k);
      assert Ids(k + 1) == Ids(k) + [k];
      perm := InsertAxis(order, perm, k);
    }
  }

  function Shrunk(stride: nat, used: nat): nat
    requires used > 0
  {
    stride / used
  }

  /** An axis split evenly over `used` lanes: strides of slower axes shrink by that factor. */
  function PerLaneStrides(strides: seq<nat>, axis: nat, used: nat): (r: seq<nat>)
    requires axis < |strides| && used > 0
    ensures |r| == |strides|
  {
    seq(|strides|, i requires 0 <= i < |strides| =>
      if strides[i] > strides[axis] then Shrunk(strides[i], used) else strides[i])
  }

  lemma {:induction false} FoldPositive(s: seq<nat>)
    requires Positive(s)
    ensures Fold(true, s) > 0
    decreases |s|
  {
    if |s| > 0 {
      FoldPositive(s[1..]);
      MulMonotone(1, s[0], Fold(true, s[1..]));
    }
  }

  lemma FoldSplit(z: seq<nat>, a: nat, j: nat)
    requires a < j <= |z|
    ensures Fold(true, z[..j]) == Fold(true, z[..a]) * (z[a] * Fold(true, z[a + 1..j]))
  {
    assert z[..j] == z[..a] + ([z[a]] + z[a + 1..j]);
    FoldConcat(true, z[..a], [z[a]] + z[a + 1..j]);
    assert ([z[a]] + z[a + 1..j])[1..] == z[a + 1..j];
  }

  lemma ScaledProduct(p: nat, q: nat, used: nat, rest: nat)
    requires used > 0 && p > 0 && q > 0 && rest > 0
    ensures p * ((q * used) * rest) == (p * (q * rest)) * used
    ensures p * ((q * used) * rest) / used == p * (q * rest)
    ensures p * ((q * used) * rest) >= p
    ensures p * ((q * used) * rest) == p ==> used == 1
  {
    var x := p * (q * rest);
    assert p * ((q * used) * rest) == p * ((q * rest) * used) == x * used;
    DivMod(x, used, 0);
    assert q * rest >= 1 by { MulMonotone(1, q, rest); }
    MulMonotone(1, q * rest, p);
    MulMonotone(p, x, used);
    MulMonotone(1, used, p);
    if used >= 2 {
      MulMonotone(2, used, p);
    }
  }

  /** The per-lane strides are the strides of the per-lane tile. */
  lemma PerLaneLayout(sizes: seq<nat>, strides: seq<nat>, perm: seq<nat>, axis: nat, used: nat, share: nat)
    requires Layout(sizes, strides, perm) && Positive(sizes) && axis < |sizes|
    requires used > 0 && sizes[axis] == share * used
    ensures Layout(sizes[axis := share], PerLaneStrides(strides, axis, used), perm)
  {
    var n, z := |sizes|, Gather(sizes, perm);
    PermutationFacts(perm, n);
    assert axis in perm;
    var a :| 0 <= a < n && perm[a] == axis;
    var sizes', strides' := sizes[axis := share], PerLaneStrides(strides, axis, used);
    var z' := Gather(sizes', perm);
    assert z' == z[a := share];
    forall j | 0 <= j < n
      ensures strides'[perm[j]] == Fold(true, z'[..j])
    {
      PerLaneStride(z, a, share, used, j);
      assert strides[perm[j]] == Fold(true, z[..j]) && strides[axis] == Fold(true, z[..a]);
    }
  }

  lemma PerLaneStride(z: seq<nat>, a: nat, share: nat, used: nat, j: nat)
    requires Positive(z) && a < |z| && j < |z| && used > 0 && z[a] == share * used
    ensures Fold(true, z[a := share][..j])
         == if Fold(true, z[..j]) > Fold(true, z[..a]) then Fold(true, z[..j]) / used else Fold(true, z[..j])
  {
    var z' := z[a := share];
    if j <= a {
      assert z'[..j] == z[..j];
      assert z[..a] == z[..j] + z[j..a];
      FoldConcat(true, z[..j], z[j..a]);
      FoldPositive(z[j..a]);
      MulMonotone(1, Fold(true, z[j..a]), Fold(true, z[..j]));
    } else {
      FoldSplit(z, a, j);
      FoldSplit(z', a, j);
      assert z'[..a] == z[..a] && z'[a + 1..j] == z[a + 1..j];
      FoldPositive(z[..a]);
      FoldPositive(z[a + 1..j]);
      assert share > 0;
      ScaledProduct(Fold(true, z[..a]), share, used, Fold(true, z[a + 1..j]));
    }
  }

  // ----- a split that is not even -----

  /** Dividing by the floored number of shares: exact exactly while the remainders stay below that number. */
  lemma FlooredShare(x: nat, size: nat, share: nat)
    requires 0 < share <= size
    ensures size / share > 0
    ensures x * size / (size / share) == x * share <==> x * (size % share) < size / share
  {
    var coeff, rem := size / share, size % share;
    assert size == coeff * share + rem;
    assert coeff > 0;
    var q, y := x * share, x * rem;
    assert x * size == q * coeff + y by {
      ShareProduct(x, coeff, share, rem);
    }
    QuotientOf(q, coeff, y);
  }

  lemma ShareProduct(x: nat, coeff: nat, share: nat, rem: nat)
    ensures x * (coeff * share + rem) == x * share * coeff + x * rem
  {
  }

  lemma QuotientOf(q: nat, d: nat, y: nat)
    requires d > 0
    ensures (q * d + y) / d == q <==> y < d
  {
    if y < d {
      DivMod(q, d, y);
    } else {
      var x := q * d + y;
      Distribute(q, 1, d);
      assert x == (x / d) * d + x % d;
      if x / d <= q {
        MulMonotone(x / d, q, d);
      }
    }
  }

  /** How many elements of the axes other than `axis` lie below position j. */
  function Others(z: seq<nat>, a: nat, j: nat): nat
    requires a < j <= |z|
  {
    Fold(true, z[..a]) * Fold(true, z[a + 1..j])
  }

  lemma OthersGrow(z: seq<nat>, a: nat, j: nat, k: nat)
    requires Positive(z) && a < j <= k <= |z|
    ensures 0 < Others(z, a, j) <= Others(z, a, k)
  {
    FoldPositive(z[..a]);
    FoldPositive(z[a + 1..j]);
    FoldPositive(z[j..k]);
    assert z[a + 1..k] == z[a + 1..j] + z[j..k];
    FoldConcat(true, z[a + 1..j], z[j..k]);
    ProductGrows(Fold(true, z[..a]), Fold(true, z[a + 1..j]), Fold(true, z[j..k]));
  }

  lemma ProductGrows(p: nat, x: nat, y: nat)
    requires p > 0 && x > 0 && y > 0
    ensures 0 < p * x <= p * (x * y)
  {
    MulMonotone(1, y, x);
    MulMonotone(x, x * y, p);
    MulMonotone(1, x, p);
  }

  lemma SplitProduct(p: nat, s: nat, r: nat)
    ensures p * (s * r) == p * r * s
  {
  }

  /** The shrunken stride at position j behind the split axis. */
  lemma UnevenStride(z: seq<nat>, a: nat, share: nat, j: nat)
    requires Positive(z) && a < j < |z| && 0 < share <= z[a]
    ensures var coeff, full := z[a] / share, Fold(true, z[..j]);
            && coeff > 0
            && (Fold(true, z[a := share][..j]) == (if full > Fold(true, z[..a]) then full / coeff else full)
                <==> Others(z, a, j) * (z[a] % share) < coeff)
  {
    var z', p, r := z[a := share], Fold(true, z[..a]), Fold(true, z[a + 1..j]);
    FoldSplit(z, a, j);
    FoldSplit(z', a, j);
    assert z'[..a] == z[..a] && z'[a + 1..j] == z[a + 1..j];
    OthersGrow(z, a, j, j);
    FoldPositive(z[..a]);
    FoldPositive(z[a + 1..j]);
    SplitProduct(p, z[a], r);
    SplitProduct(p, share, r);
    FlooredShare(p * r, z[a], share);
    StrideGrows(p, z[a], r);
  }

  lemma StrideGrows(p: nat, s: nat, r: nat)
    requires p > 0 && s > 0 && r > 0
    ensures p * (s * r) > p || (s == 1 && r == 1)
  {
    if s > 1 || r > 1 {
      MulMonotone(1, r, s);
      MulMonotone(1, s, r);
      MulMonotone(2, s * r, p);
    }
  }

  /** The per-lane strides shrink by how many shares fit, and the remainder does not show in the slowest axis. */
  predicate LanesLineUp(sizes: seq<nat>, strides: seq<nat>, perm: seq<nat>, axis: nat, share: nat)
    requires |strides| == |sizes| == |perm| && axis < |sizes| && 0 < share <= sizes[axis]
    requires forall j :: 0 <= j < |perm| ==> perm[j] < |sizes|
  {
    var slowest := perm[|perm| - 1];
    slowest == axis || strides[slowest] / sizes[axis] * (sizes[axis] % share) < sizes[axis] / share
  }

  lemma SlowestStride(z: seq<nat>, a: nat)
    requires Positive(z) && a < |z| - 1
    ensures Fold(true, z[..|z| - 1]) / z[a] == Others(z, a, |z| - 1)
  {
    FoldSplit(z, a, |z| - 1);
    SplitProduct(Fold(true, z[..a]), z[a], Fold(true, z[a + 1..|z| - 1]));
    DivMod(Others(z, a, |z| - 1), z[a], 0);
  }

  lemma UnevenBefore(z: seq<nat>, a: nat, share: nat, j: nat)
    requires Positive(z) && a < |z| && j <= a
    ensures Fold(true, z[a := share][..j]) == Fold(true, z[..j]) <= Fold(true, z[..a])
  {
    assert z[a := share][..j] == z[..j];
    assert z[..a] == z[..j] + z[j..a];
    FoldConcat(true, z[..j], z[j..a]);
    FoldPositive(z[j..a]);
    MulMonotone(1, Fold(true, z[j..a]), Fold(true, z[..j]));
  }

  /** The shrunken stride at position j is right. */
  predicate LinesUpAt(z: seq<nat>, a: nat, share: nat, j: nat)
    requires a < |z| && j < |z| && 0 < share <= z[a]
  {
    j <= a || Others(z, a, j) * (z[a] % share) < z[a] / share
  }

  /** The slowest axis is the first one to go wrong. */
  lemma SlowestDecides(z: seq<nat>, a: nat, share: nat)
    requires Positive(z) && a < |z| && 0 < share <= z[a]
    ensures (forall j :: 0 <= j < |z| ==> LinesUpAt(z, a, share, j)) <==> LinesUpAt(z, a, share, |z| - 1)
  {
    if LinesUpAt(z, a, share, |z| - 1) {
      forall j | 0 <= j < |z|
        ensures LinesUpAt(z, a, share, j)
      {
        if j > a {
          OthersGrow(z, a, j, |z| - 1);
          MulMonotone(Others(z, a, j), Others(z, a, |z| - 1), z[a] % share);
        }
      }
    }
  }

  lemma StrideLinesUp(z: seq<nat>, a: nat, share: nat, j: nat)
    requires Positive(z) && a < |z| && j < |z| && 0 < share <= z[a]
    ensures var coeff, full := z[a] / share, Fold(true, z[..j]);
            && coeff > 0
            && (Fold(true, z[a := share][..j]) == (if full > Fold(true, z[..a]) then full / coeff else full)
                <==> LinesUpAt(z, a, share, j))
  {
    FlooredShare(0, z[a], share);
    if j <= a {
      UnevenBefore(z, a, share, j);
    } else {
      UnevenStride(z, a, share, j);
    }
  }

  /** The condition of the slowest axis in terms of the strides. */
  lemma SlowestInStrides(sizes: seq<nat>, strides: seq<nat>, perm: seq<nat>, a: nat, share: nat)
    requires Layout(sizes, strides, perm) && Positive(sizes) && a < |perm| && 0 < share <= sizes[perm[a]]
    requires forall i, j :: 0 <= i < j < |perm| ==> perm[i] != perm[j]
    ensures Gather(sizes, perm)[a] == sizes[perm[a]]
    ensures LinesUpAt(Gather(sizes, perm), a, share, |perm| - 1) <==> LanesLineUp(sizes, strides, perm, perm[a], share)
  {
    var z := Gather(sizes, perm);
    if a < |perm| - 1 {
      SlowestStride(z, a);
      assert strides[perm[|perm| - 1]] == Fold(true, z[..|perm| - 1]);
    }
  }

  lemma StrideInLayout(sizes: seq<nat>, strides: seq<nat>, perm: seq<nat>, a: nat, share: nat, j: nat)
    requires Layout(sizes, strides, perm) && Positive(sizes) && a < |perm| && j < |perm|
    requires 0 < share <= sizes[perm[a]]
    ensures var z := Gather(sizes, perm);
            && z[a] == sizes[perm[a]] && z[a] / share > 0
            && (PerLaneStrides(strides, perm[a], z[a] / share)[perm[j]] == Fold(true, z[a := share][..j])
                <==> LinesUpAt(z, a, share, j))
  {
    var z := Gather(sizes, perm);
    assert strides[perm[j]] == Fold(true, z[..j]) && strides[perm[a]] == Fold(true, z[..a]);
    StrideLinesUp(z, a, share, j);
  }

  /** Main result: the per-lane strides are the strides of the per-lane tile exactly when the lanes line up. */
  lemma PerLaneLayoutIff(sizes: seq<nat>, strides: seq<nat>, perm: seq<nat>, axis: nat, share: nat)
    requires Layout(sizes, strides, perm) && Positive(sizes) && axis < |sizes| && 0 < share <= sizes[axis]
    ensures sizes[axis] / share > 0
    ensures Layout(sizes[axis := share], PerLaneStrides(strides, axis, sizes[axis] / share), perm)
       <==> LanesLineUp(sizes, strides, perm, axis, share)
  {
    FlooredShare(0, sizes[axis], share);
    var n, z := |sizes|, Gather(sizes, perm);
    PermutationFacts(perm, n);
    assert axis in perm;
    var a :| 0 <= a < n && perm[a] == axis;
    var r := PerLaneStrides(strides, axis, sizes[axis] / share);
    assert Gather(sizes[axis := share], perm) == z[a := share];
    forall j | 0 <= j < n
      ensures r[perm[j]] == Fold(true, z[a := share][..j]) <==> LinesUpAt(z, a, share, j)
    {
      StrideInLayout(sizes, strides, perm, a, share, j);
    }
    SlowestDecides(z, a, share);
    SlowestInStrides(sizes, strides, perm, a, share);
  }

  lemma ProductsOfThree(x: nat, y: nat, w: nat)
    ensures var z := Gather([x, y, w], [2, 1, 0]);
            Fold(true, z[..0]) == 1 && Fold(true, z[..1]) == w && Fold(true, z[..2]) == w * y
  {
    var z := Gather([x, y, w], [2, 1, 0]);
    assert z == [w, y, x];
    assert z[..0] == [] && z[..1] == [w] && z[..2] == [w, y];
    assert [w][1..] == [] && [w, y][1..] == [y] && [y][1..] == [];
    assert Fold(true, [y]) == y && Fold(true, [w]) == w;
  }

  /** Three axes, the last one fastest. */
  lemma LayoutOfThree(x: nat, y: nat, w: nat, strides: seq<nat>)
    requires |strides| == 3
    ensures Layout([x, y, w], strides, [2, 1, 0]) <==> strides == [w * y, w, 1]
  {
    var perm := [2, 1, 0];
    ProductsOfThree(x, y, w);
    assert Ids(3) == [0, 1, 2];
    assert perm[0] == 2 && perm[1] == 1 && perm[2] == 0;
  }

  /** Ten elements on four lanes: three of them a lane, but the slowest stride shrinks to 16 and not to 15. */
  lemma UnevenLanes()
    ensures var sizes, strides, perm := [2, 5, 10], [50, 10, 1], [2, 1, 0];
            && Layout(sizes, strides, perm) && CeilDiv(10, UsedLanes(10, 1, 4)) == 3
            && PerLaneStrides(strides, 2, 10 / 3) == [16, 3, 1] && !Layout([2, 5, 3], [16, 3, 1], perm)
  {
    LayoutOfThree(2, 5, 10, [50, 10, 1]);
    LayoutOfThree(2, 5, 3, [16, 3, 1]);
  }

  // ----- lanes -----

  lemma CeilDivFacts(a: nat, b: nat)
    requires b > 0
    ensures CeilDiv(a, b) * b >= a && CeilDiv(a, b) * b < a + b
    ensures a > 0 ==> CeilDiv(a, b) > 0
    ensures a % b == 0 ==> CeilDiv(a, b) * b == a
  {
    var q, x := CeilDiv(a, b), a + b - 1;
    assert x == q * b + x % b;
    if a % b == 0 {
      assert a == (a / b) * b;
      DivMod(a / b, b, b - 1);
    }
  }

  /** How many lanes a tile axis of the given size occupies. */
  function UsedLanes(size: nat, laneStride: nat, lanes: nat): nat
    requires laneStride > 0
  {
    var need := CeilDiv(size, laneStride);
    if need < lanes then need else lanes
  }

  /** x lanes can take part: lane by lane, each one of them still finds a block to take. */
  predicate LanesBusy(size: nat, laneStride: nat, lanes: nat, x: nat) {
    x <= lanes && (x > 0 ==> (x - 1) * laneStride < size)
  }

  /** The used lanes are the most that can take part. */
  lemma UsedLanesIsMost(size: nat, laneStride: nat, lanes: nat)
    requires laneStride > 0
    ensures LanesBusy(size, laneStride, lanes, UsedLanes(size, laneStride, lanes))
    ensures forall x: nat :: LanesBusy(size, laneStride, lanes, x) ==> x <= UsedLanes(size, laneStride, lanes)
  {
    var need := CeilDiv(size, laneStride);
    CeilDivFacts(size, laneStride);
    if need > 0 {
      Distribute(need - 1, 1, laneStride);
      if need > lanes > 0 {
        MulMonotone(lanes - 1, need - 1, laneStride);
      }
    }
    forall x: nat | LanesBusy(size, laneStride, lanes, x)
      ensures x <= UsedLanes(size, laneStride, lanes)
    {
      if x > need {
        MulMonotone(need, x - 1, laneStride);
      }
    }
  }

  function PaddedSize(size: nat, laneStride: nat, lanes: nat): nat
    requires size > 0 && laneStride > 0 && lanes > 0
  {
    CeilDivFacts(size, laneStride);
    var padded := UsedLanes(size, laneStride, lanes) * laneStride;
    MulMonotone(1, UsedLanes(size, laneStride, lanes), laneStride);
    CeilDiv(size, padded) * padded
  }

  lemma CeilOfMultiple(k: nat, b: nat)
    requires b > 0
    ensures CeilDiv(k * b, b) == k
  {
    DivMod(k, b, b - 1);
  }

  lemma OneBlock(size: nat, block: nat)
    requires 0 < size <= block
    ensures CeilDiv(size, block) == 1
  {
    DivMod(1, block, size - 1);
  }

  lemma UsedOfPadded(size: nat, laneStride: nat, lanes: nat, used: nat, k: nat)
    requires size > 0 && laneStride > 0 && lanes > 0 && used == UsedLanes(size, laneStride, lanes) > 0
    requires used * laneStride > 0 && k == CeilDiv(size, used * laneStride) > 0
    ensures UsedLanes(k * (used * laneStride), laneStride, lanes) == used
  {
    Associate(k, used, laneStride);
    CeilOfMultiple(k * used, laneStride);
    if used < lanes {
      CeilDivFacts(size, laneStride);
      OneBlock(size, used * laneStride);
    } else {
      MulMonotone(1, k, used);
    }
  }

  lemma SplitOfPadded(k: nat, used: nat, laneStride: nat)
    requires used > 0 && laneStride > 0
    ensures var p := k * (used * laneStride);
            CeilDiv(p, used) * used == p && CeilDiv(p, used) % laneStride == 0
  {
    SwapFactors(k, used, laneStride);
    CeilOfMultiple(k * laneStride, used);
    DivMod(k, laneStride, 0);
  }

  lemma SwapFactors(x: nat, y: nat, z: nat)
    ensures x * (y * z) == (x * z) * y
  {
  }

  /** Padding is the least enlargement that splits evenly over the lanes, and padding again changes nothing. */
  lemma PaddingIsExact(size: nat, laneStride: nat, lanes: nat)
    requires size > 0 && laneStride > 0 && lanes > 0
    ensures var p, used := PaddedSize(size, laneStride, lanes), UsedLanes(size, laneStride, lanes);
            && used > 0 && used * laneStride > 0 && size <= p < size + used * laneStride
            && p % (used * laneStride) == 0
            && UsedLanes(p, laneStride, lanes) == used
            && PaddedSize(p, laneStride, lanes) == p
            && CeilDiv(p, used) * used == p && CeilDiv(p, used) % laneStride == 0
  {
    CeilDivFacts(size, laneStride);
    var used := UsedLanes(size, laneStride, lanes);
    var block := used * laneStride;
    MulMonotone(1, used, laneStride);
    CeilDivFacts(size, block);
    var k := CeilDiv(size, block);
    UsedOfPadded(size, laneStride, lanes, used, k);
    SplitOfPadded(k, used, laneStride);
    CeilOfMultiple(k, block);
    DivMod(k, block, 0);
  }
}
