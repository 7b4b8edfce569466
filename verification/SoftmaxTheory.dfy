/** Sums, maxima and shifted exponentials: what softmax attention means. */
module SoftmaxTheory {
  /** The two reductions of the kernel and the values their accumulators start from. */
  datatype Op = Add | Max

  const FLOOR: real := -1000000000000000000000000000000.0

  function Unit(op: Op): real {
    if op.Add? then 0.0 else FLOOR
  }

  function Apply(op: Op, a: real, b: real): real {
    match op
    case Add => a + b
    case Max => if a >= b then a else b
  }

  /** The plain reduction of a vector: its sum, or the maximum of its elements and the floor. */
  function Reduce(op: Op, s: seq<real>): real {
    if |s| == 0 then Unit(op) else Apply(op, s[0], Reduce(op, s[1..]))
  }

  lemma {:induction false} MaxBounds(s: seq<real>)
    ensures Reduce(Max, s) >= FLOOR
    ensures forall i :: 0 <= i < |s| ==> s[i] <= Reduce(Max, s)
    ensures Reduce(Max, s) == FLOOR || Reduce(Max, s) in s
    decreases |s|
  {
    if |s| > 0 {
      MaxBounds(s[1..]);
      assert forall i :: 1 <= i < |s| ==> s[i] == s[1..][i - 1];
    }
  }

  lemma {:induction false} ReduceConcat(op: Op, a: seq<real>, b: seq<real>)
    ensures Reduce(op, a + b) == Apply(op, Reduce(op, a), Reduce(op, b))
    decreases |a|
  {
    if |a| == 0 {
      assert a + b == b;
      MaxBounds(b);
    } else {
      assert (a + b)[1..] == a[1..] + b;
      ReduceConcat(op, a[1..], b);
    }
  }

  function LaneApply(op: Op, u: seq<real>, v: seq<real>): (r: seq<real>)
    requires |u| == |v|
    ensures |r| == |u|
  {
    seq(|u|, l requires 0 <= l < |u| => Apply(op, u[l], v[l]))
  }

  lemma {:induction false} ReduceLanes(op: Op, u: seq<real>, v: seq<real>)
    requires |u| == |v|
    ensures Reduce(op, LaneApply(op, u, v)) == Apply(op, Reduce(op, u), Reduce(op, v))
    decreases |u|
  {
    if |u| > 0 {
      assert LaneApply(op, u, v)[1..] == LaneApply(op, u[1..], v[1..]);
      ReduceLanes(op, u[1..], v[1..]);
    }
  }

  /** Lane b of the shape cast to rows of two, reduced over the rows. */
  function FoldPairs(op: Op, v: seq<real>, b: nat): real
    requires |v| % 2 == 0 && b < 2
    decreases |v|
  {
    if |v| == 0 then Unit(op) else Apply(op, v[b], FoldPairs(op, v[2..], b))
  }

  lemma {:induction false} FoldPairsReduces(op: Op, v: seq<real>)
    requires |v| % 2 == 0
    ensures Apply(op, FoldPairs(op, v, 0), FoldPairs(op, v, 1)) == Reduce(op, v)
    decreases |v|
  {
    if |v| > 0 {
      FoldPairsReduces(op, v[2..]);
      assert v[1..][1..] == v[2..];
      assert Reduce(op, v[1..]) == Apply(op, v[1], Reduce(op, v[2..]));
    }
  }

  // ----- exponentials -----

  function At(exp: real -> real, x: real): real {
    exp(x)
  }

  /** Names the pair of exponents at which the law of exponents is used. */
  predicate Both(a: real, b: real) {
    true
  }

  /** All that the kernel needs of exp: positive, and sums turn into products. */
  ghost predicate IsExp(exp: real -> real) {
    && (forall x: real :: At(exp, x) > 0.0)
    && (forall a: real, b: real {:trigger Both(a, b)} :: Both(a, b) ==> At(exp, a + b) == At(exp, a) * At(exp, b))
  }

  lemma ExpAdd(exp: real -> real, a: real, b: real, c: real)
    requires IsExp(exp) && c == a + b
    ensures At(exp, c) == At(exp, a) * At(exp, b)
  {
    assert Both(a, b);
  }

  lemma ExpIdempotent(exp: real -> real, z: real)
    requires IsExp(exp) && z + z == z
    ensures At(exp, z) == 1.0
  {
    ExpAdd(exp, z, z, z);
    var e := At(exp, z);
    assert e > 0.0 && e == e * e;
    assert e * e / e == e;
  }

  /** Sum over i of At(exp, s[i] - m) * v[i]. */
  function Weighted(exp: real -> real, s: seq<real>, v: seq<real>, m: real): real
    requires |s| == |v|
  {
    if |s| == 0 then 0.0 else At(exp, s[0] - m) * v[0] + Weighted(exp, s[1..], v[1..], m)
  }

  function Ones(n: nat): (r: seq<real>)
    ensures |r| == n
  {
    seq(n, _ => 1.0)
  }

  /** The softmax denominator shifted by m. */
  function Total(exp: real -> real, s: seq<real>, m: real): real {
    Weighted(exp, s, Ones(|s|), m)
  }

  lemma {:induction false} WeightedConcat(exp: real -> real, s: seq<real>, v: seq<real>, s': seq<real>, v': seq<real>,
                                          m: real)
    requires |s| == |v| && |s'| == |v'|
    ensures Weighted(exp, s + s', v + v', m) == Weighted(exp, s, v, m) + Weighted(exp, s', v', m)
    decreases |s|
  {
    if |s| == 0 {
      assert s + s' == s' && v + v' == v';
    } else {
      assert (s + s')[1..] == s[1..] + s' && (v + v')[1..] == v[1..] + v';
      WeightedConcat(exp, s[1..], v[1..], s', v', m);
    }
  }

  function Product(a: real, b: real): real {
    a * b
  }

  lemma ProductStep(e: real, f: real, g: real, x: real, w: real)
    requires g == f * e
    ensures Product(e, f * x + w) == g * x + Product(e, w)
  {
    assert e * (f * x + w) == (f * e) * x + e * w;
  }

  /** Rescaling moves the shift from m to n. */
  lemma {:induction false} Rescale(exp: real -> real, s: seq<real>, v: seq<real>, m: real, n: real, d: real)
    requires IsExp(exp) && |s| == |v| && d == m - n
    ensures Weighted(exp, s, v, n) == Product(At(exp, d), Weighted(exp, s, v, m))
    decreases |s|
  {
    if |s| > 0 {
      Rescale(exp, s[1..], v[1..], m, n, d);
      ExpAdd(exp, s[0] - m, d, s[0] - n);
      ProductStep(At(exp, d), At(exp, s[0] - m), At(exp, s[0] - n), v[0], Weighted(exp, s[1..], v[1..], m));
    }
  }

  lemma {:induction false} TotalPositive(exp: real -> real, s: seq<real>, m: real)
    requires IsExp(exp)
    ensures Total(exp, s, m) >= 0.0
    ensures |s| > 0 ==> Total(exp, s, m) > 0.0
    ensures m in s ==> Total(exp, s, m) >= 1.0
    decreases |s|
  {
    if |s| > 0 {
      assert Ones(|s|)[1..] == Ones(|s[1..]|);
      TotalPositive(exp, s[1..], m);
      if s[0] == m {
        ExpIdempotent(exp, s[0] - m);
      }
    }
  }

  // ----- the reference -----

  /** The softmax weight of each score. */
  function Softmax(exp: real -> real, s: seq<real>): (p: seq<real>)
    requires Total(exp, s, 0.0) != 0.0
    ensures |p| == |s|
  {
    seq(|s|, i requires 0 <= i < |s| => At(exp, s[i]) / Total(exp, s, 0.0))
  }

  function Dot(a: seq<real>, b: seq<real>): real
    requires |a| == |b|
  {
    if |a| == 0 then 0.0 else a[0] * b[0] + Dot(a[1..], b[1..])
  }

  lemma {:induction false} DotOfQuotients(exp: real -> real, s: seq<real>, v: seq<real>, p: seq<real>, t: real)
    requires |s| == |v| == |p| && t != 0.0
    requires forall i :: 0 <= i < |s| ==> p[i] == At(exp, s[i]) / t
    ensures Dot(p, v) == Weighted(exp, s, v, 0.0) / t
    decreases |s|
  {
    if |s| > 0 {
      DotOfQuotients(exp, s[1..], v[1..], p[1..], t);
      assert s[0] - 0.0 == s[0];
      Quotients(At(exp, s[0]), v[0], Weighted(exp, s[1..], v[1..], 0.0), t);
    }
  }

  lemma Quotients(e: real, x: real, w: real, t: real)
    requires t != 0.0
    ensures e / t * x + w / t == (e * x + w) / t
  {
    assert (e / t * x + w / t) * t == (e / t * t) * x + (w / t) * t == e * x + w;
  }

  lemma SoftmaxAverage(exp: real -> real, s: seq<real>, v: seq<real>, t: real)
    requires IsExp(exp) && |s| == |v| && t == Total(exp, s, 0.0) > 0.0
    ensures Dot(Softmax(exp, s), v) == Weighted(exp, s, v, 0.0) / t
  {
    DotOfQuotients(exp, s, v, Softmax(exp, s), t);
  }

  lemma UnshiftBy(exp: real -> real, s: seq<real>, v: seq<real>, m: real, e: real, w: real, w0: real)
    requires IsExp(exp) && |s| == |v|
    requires e == At(exp, m) && w == Weighted(exp, s, v, m) && w0 == Weighted(exp, s, v, 0.0)
    ensures e > 0.0 && w0 == Product(e, w)
  {
    Rescale(exp, s, v, m, 0.0, m);
    assert At(exp, m) > 0.0;
  }

  lemma UnshiftBoth(exp: real -> real, s: seq<real>, v: seq<real>, m: real, e: real, w: real, w0: real, t: real,
                    t0: real)
    requires IsExp(exp) && |s| == |v| > 0
    requires e == At(exp, m) && w == Weighted(exp, s, v, m) && w0 == Weighted(exp, s, v, 0.0)
    requires t == Total(exp, s, m) && t0 == Total(exp, s, 0.0)
    ensures e > 0.0 && t > 0.0 && t0 > 0.0 && w0 == Product(e, w) && t0 == Product(e, t)
  {
    TotalPositive(exp, s, m);
    TotalPositive(exp, s, 0.0);
    UnshiftBy(exp, s, v, m, e, w, w0);
    UnshiftBy(exp, s, Ones(|s|), m, e, t, t0);
  }

  lemma ShiftedQuotient(exp: real -> real, s: seq<real>, v: seq<real>, m: real, e: real, w: real, w0: real, t: real,
                        t0: real)
    requires IsExp(exp) && |s| == |v| > 0
    requires e == At(exp, m) && w == Weighted(exp, s, v, m) && w0 == Weighted(exp, s, v, 0.0)
    requires t == Total(exp, s, m) && t0 == Total(exp, s, 0.0)
    ensures t > 0.0 && t0 > 0.0 && w * (1.0 / t) == w0 / t0
  {
    UnshiftBoth(exp, s, v, m, e, w, w0, t, t0);
    CancelFactor(e, w, t, w0, t0);
  }

  /** Shifting by any m and dividing by the shifted total gives the softmax average. */
  lemma ShiftedAverage(exp: real -> real, s: seq<real>, v: seq<real>, m: real)
    requires IsExp(exp) && |s| == |v| > 0
    ensures Total(exp, s, m) > 0.0 && Total(exp, s, 0.0) > 0.0
    ensures Weighted(exp, s, v, m) * (1.0 / Total(exp, s, m)) == Dot(Softmax(exp, s), v)
  {
    ShiftedQuotient(exp, s, v, m, At(exp, m), Weighted(exp, s, v, m), Weighted(exp, s, v, 0.0),
                    Total(exp, s, m), Total(exp, s, 0.0));
    SoftmaxAverage(exp, s, v, Total(exp, s, 0.0));
  }

  lemma CancelFactor(e: real, w: real, t: real, w0: real, t0: real)
    requires e > 0.0 && t > 0.0 && w0 == Product(e, w) && t0 == Product(e, t) && t0 > 0.0
    ensures w0 / t0 == w * (1.0 / t)
  {
    var x := w * (1.0 / t);
    assert x * t == w * (1.0 / t * t) == w;
    assert x * t0 == e * (x * t) == w0;
  }

  /** The weights are a convex combination. */
  lemma SoftmaxSumsToOne(exp: real -> real, s: seq<real>)
    requires IsExp(exp) && |s| > 0
    ensures Total(exp, s, 0.0) > 0.0 && Dot(Softmax(exp, s), Ones(|s|)) == 1.0
    ensures forall p <- Softmax(exp, s) :: p > 0.0
  {
    TotalPositive(exp, s, 0.0);
    DotOfQuotients(exp, s, Ones(|s|), Softmax(exp, s), Total(exp, s, 0.0));
    forall i | 0 <= i < |s|
      ensures Softmax(exp, s)[i] > 0.0
    {
      var e := At(exp, s[i]);
      assert e > 0.0;
      PositiveQuotient(e, Total(exp, s, 0.0));
    }
  }

  lemma PositiveQuotient(e: real, t: real)
    requires e > 0.0 && t > 0.0
    ensures e / t > 0.0
  {
    assert e / t * t == e;
  }

  lemma {:induction false} DotSnoc(a: seq<real>, b: seq<real>, d: nat)
    requires |a| == |b| && d < |a|
    ensures Dot(a[..d + 1], b[..d + 1]) == Dot(a[..d], b[..d]) + a[d] * b[d]
    decreases d
  {
    if d > 0 {
      assert a[..d + 1][1..] == a[1..][..d] && b[..d + 1][1..] == b[1..][..d];
      assert a[..d][1..] == a[1..][..d - 1] && b[..d][1..] == b[1..][..d - 1];
      DotSnoc(a[1..], b[1..], d - 1);
    } else {
      assert Dot(a[..1][1..], b[..1][1..]) == 0.0;
    }
  }
}
