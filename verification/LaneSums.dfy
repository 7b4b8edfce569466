/** Sums over lanes, and why a stage that only rearranges pairs conserves them. */
module LaneSums {
  import opened Arithmetic
  import opened BitonicLanes

  function Sum(c: seq<nat>): nat {
    if |c| == 0 then 0 else c[0] + Sum(c[1..])
  }

  lemma {:induction false} SumConcat(a: seq<nat>, b: seq<nat>)
    ensures Sum(a + b) == Sum(a) + Sum(b)
    decreases |a|
  {
    if |a| == 0 {
      assert a + b == b;
    } else {
      assert (a + b)[1..] == a[1..] + b;
      SumConcat(a[1..], b);
    }
  }

  lemma {:induction false} SumPairwise(x: seq<nat>, y: seq<nat>, u: seq<nat>, v: seq<nat>)
    requires |x| == |y| == |u| == |v|
    requires forall i :: 0 <= i < |x| ==> u[i] + v[i] == x[i] + y[i]
    ensures Sum(u) + Sum(v) == Sum(x) + Sum(y)
    decreases |x|
  {
    if |x| > 0 {
      SumPairwise(x[1..], y[1..], u[1..], v[1..]);
    }
  }

  ghost predicate PairsConserved(c: seq<nat>, r: seq<nat>, stride: nat)
    requires stride > 0
  {
    && |r| == |c|
    && forall l: nat :: l < |c| && IsLower(l, stride) ==>
      l + stride < |c| && r[l] + r[l + stride] == c[l] + c[l + stride]
  }

  /** The sums agree below a, and pairwise on the two halves of the group at a. */
  lemma GroupStep(c: seq<nat>, r: seq<nat>, a: nat, m: nat, e: nat)
    requires a <= m <= e <= |c| == |r| && m - a == e - m && Sum(r[..a]) == Sum(c[..a])
    requires Sum(r[a..m]) + Sum(r[m..e]) == Sum(c[a..m]) + Sum(c[m..e])
    ensures Sum(r[..e]) == Sum(c[..e])
  {
    assert c[..e] == c[..a] + (c[a..m] + c[m..e]) && r[..e] == r[..a] + (r[a..m] + r[m..e]);
    SumConcat(c[a..m], c[m..e]);
    SumConcat(r[a..m], r[m..e]);
    SumConcat(c[..a], c[a..m] + c[m..e]);
    SumConcat(r[..a], r[a..m] + r[m..e]);
  }

  lemma {:induction false} GroupsConserved(c: seq<nat>, r: seq<nat>, stride: nat, t: nat, e: nat)
    requires stride > 0 && PairsConserved(c, r, stride) && e == t * (2 * stride) <= |c|
    ensures Sum(r[..e]) == Sum(c[..e])
    decreases t
  {
    if t > 0 {
      var a := (t - 1) * (2 * stride);
      Distribute(t - 1, 1, 2 * stride);
      GroupsConserved(c, r, stride, t - 1, a);
      GroupSums(c, r, stride, t - 1, a, e);
      GroupStep(c, r, a, a + stride, e);
    }
  }

  lemma GroupSums(c: seq<nat>, r: seq<nat>, stride: nat, t: nat, a: nat, e: nat)
    requires stride > 0 && PairsConserved(c, r, stride) && a == t * (2 * stride) && e == a + 2 * stride <= |c|
    ensures Sum(r[a..a + stride]) + Sum(r[a + stride..e]) == Sum(c[a..a + stride]) + Sum(c[a + stride..e])
  {
    var x, y := c[a..a + stride], c[a + stride..e];
    var u, v := r[a..a + stride], r[a + stride..e];
    forall i | 0 <= i < stride
      ensures u[i] + v[i] == x[i] + y[i]
    {
      PairLanes(t, stride, i);
      assert IsLower(a + i, stride);
    }
    SumPairwise(x, y, u, v);
  }

  lemma SumConserved(c: seq<nat>, r: seq<nat>, size: nat, stride: nat)
    requires StageShape(|c|, size, stride) && PairsConserved(c, r, stride)
    ensures Sum(r) == Sum(c)
  {
    Pow2Pos(stride);
    var t := Pow2Quotient(2 * stride, |c|);
    GroupsConserved(c, r, stride, t, |c|);
    assert c[..|c|] == c && r[..|c|] == r;
  }

  /** How many elements satisfy P. */
  function Bits<T>(s: seq<T>, P: T -> bool): (b: seq<nat>)
    ensures |b| == |s|
  {
    seq(|s|, l requires 0 <= l < |s| => if P(s[l]) then 1 else 0)
  }

  function Count<T>(s: seq<T>, P: T -> bool): nat {
    Sum(Bits(s, P))
  }

  lemma CountConcat<T>(a: seq<T>, b: seq<T>, P: T -> bool)
    ensures Count(a + b, P) == Count(a, P) + Count(b, P)
  {
    assert Bits(a + b, P) == Bits(a, P) + Bits(b, P);
    SumConcat(Bits(a, P), Bits(b, P));
  }

  ghost function Is<T>(x: T): T -> bool {
    y => y == x
  }

  lemma {:induction false} CountIsMultiplicity<T>(s: seq<T>, x: T)
    ensures Count(s, Is(x)) == multiset(s)[x]
    decreases |s|
  {
    if |s| > 0 {
      assert s == [s[0]] + s[1..];
      CountConcat([s[0]], s[1..], Is(x));
      CountIsMultiplicity(s[1..], x);
      var b := Bits([s[0]], Is(x));
      assert Sum(b) == b[0] + Sum(b[1..]) == b[0];
    }
  }

  lemma SameCountsSameMultiset<T(!new)>(a: seq<T>, b: seq<T>)
    requires forall x: T :: Count(a, Is(x)) == Count(b, Is(x))
    ensures multiset(a) == multiset(b)
  {
    forall x: T
      ensures multiset(a)[x] == multiset(b)[x]
    {
      CountIsMultiplicity(a, x);
      CountIsMultiplicity(b, x);
    }
  }

  lemma {:induction false} CountByMultiset<T>(a: seq<T>, b: seq<T>, P: T -> bool)
    requires multiset(a) == multiset(b)
    ensures Count(a, P) == Count(b, P)
    decreases |a|
  {
    if |a| == 0 {
      assert |multiset(b)| == 0;
    } else {
      var e := a[0];
      assert a == [e] + a[1..];
      assert e in multiset(b);
      var k :| 0 <= k < |b| && b[k] == e;
      var rest := b[..k] + b[k + 1..];
      assert b == b[..k] + ([e] + b[k + 1..]);
      assert multiset(b) == multiset(b[..k]) + (multiset{e} + multiset(b[k + 1..]));
      assert multiset(rest) == multiset(b) - multiset{e};
      assert multiset(a) == multiset{e} + multiset(a[1..]);
      assert multiset(a[1..]) == multiset(a) - multiset{e};
      CountByMultiset(a[1..], rest, P);
      CountConcat([e], a[1..], P);
      CountConcat(b[..k], [e] + b[k + 1..], P);
      CountConcat([e], b[k + 1..], P);
      CountConcat(b[..k], b[k + 1..], P);
    }
  }
}
