/** Permutations of 0..n-1, and folds that do not depend on the order of their arguments. */
module Permutations {
  function Ids(n: nat): (s: seq<nat>)
    ensures |s| == n
  {
    seq(n, i requires i >= 0 => i)
  }

  ghost predicate IsPermutation(a: seq<nat>, n: nat) {
    multiset(a) == multiset(Ids(n))
  }

  lemma {:induction false} OnceWhenDistinct<T>(s: seq<T>, v: T)
    requires forall k, l :: 0 <= k < l < |s| ==> s[k] != s[l]
    ensures multiset(s)[v] <= 1
    decreases |s|
  {
    if |s| > 0 {
      assert s == [s[0]] + s[1..];
      OnceWhenDistinct(s[1..], v);
      if s[0] == v {
        assert v !in s[1..];
      }
    }
  }

  /** A rearrangement of distinct elements has distinct elements. */
  lemma DistinctWhenPermuted<T>(a: seq<T>, b: seq<T>, i: nat, j: nat)
    requires multiset(a) == multiset(b) && i < j < |a|
    requires forall k, l :: 0 <= k < l < |b| ==> b[k] != b[l]
    ensures a[i] != a[j]
  {
    var v := a[i];
    assert a == a[..j] + [a[j]] + a[j + 1..];
    assert a[..j] == a[..i] + [v] + a[i + 1..j];
    OnceWhenDistinct(b, v);
  }

  lemma PermutationFacts(a: seq<nat>, n: nat)
    requires IsPermutation(a, n)
    ensures |a| == n
    ensures forall i :: 0 <= i < n ==> a[i] < n
    ensures forall i, j :: 0 <= i < j < n ==> a[i] != a[j]
    ensures forall x: nat :: x < n ==> x in a
  {
    assert |multiset(a)| == |a| && |multiset(Ids(n))| == |Ids(n)|;
    forall i | 0 <= i < n
      ensures a[i] < n
    {
      assert a[i] in multiset(Ids(n));
    }
    forall i, j | 0 <= i < j < n
      ensures a[i] != a[j]
    {
      DistinctWhenPermuted(a, Ids(n), i, j);
    }
    forall x: nat | x < n
      ensures x in a
    {
      assert Ids(n)[x] in multiset(Ids(n));
    }
  }

  function Gather<T>(h: seq<T>, a: seq<nat>): (g: seq<T>)
    requires forall i :: 0 <= i < |a| ==> a[i] < |h|
    ensures |g| == |a|
  {
    seq(|a|, i requires 0 <= i < |a| => h[a[i]])
  }

  function Combine(mul: bool, x: nat, y: nat): nat {
    if mul then x * y else x + y
  }

  function Fold(mul: bool, s: seq<nat>): nat {
    if |s| == 0 then (if mul then 1 else 0) else Combine(mul, s[0], Fold(mul, s[1..]))
  }

  lemma Shuffle3(mul: bool, x: nat, y: nat, z: nat)
    ensures Combine(mul, x, Combine(mul, y, z)) == Combine(mul, Combine(mul, x, y), z)
    ensures Combine(mul, x, Combine(mul, y, z)) == Combine(mul, y, Combine(mul, x, z))
  {
  }

  lemma {:induction false} FoldConcat(mul: bool, a: seq<nat>, b: seq<nat>)
    ensures Fold(mul, a + b) == Combine(mul, Fold(mul, a), Fold(mul, b))
    decreases |a|
  {
    if |a| == 0 {
      assert a + b == b;
    } else {
      assert (a + b)[1..] == a[1..] + b;
      FoldConcat(mul, a[1..], b);
      Shuffle3(mul, a[0], Fold(mul, a[1..]), Fold(mul, b));
    }
  }

  lemma {:induction false} FoldMultiset(mul: bool, a: seq<nat>, b: seq<nat>)
    requires multiset(a) == multiset(b)
    ensures Fold(mul, a) == Fold(mul, b)
    decreases |a|
  {
    if |a| == 0 {
      assert |multiset(b)| == 0;
    } else {
      var e := a[0];
      assert e in multiset(b);
      var k :| 0 <= k < |b| && b[k] == e;
      var p, q := b[..k], b[k + 1..];
      assert b == p + ([e] + q);
      assert a == [e] + a[1..];
      assert multiset(a[1..]) == multiset(a) - multiset{e};
      assert multiset(p + q) == multiset(b) - multiset{e};
      FoldMultiset(mul, a[1..], p + q);
      FoldConcat(mul, p, [e] + q);
      FoldConcat(mul, p, q);
      assert ([e] + q)[1..] == q;
      Shuffle3(mul, Fold(mul, p), e, Fold(mul, q));
    }
  }

  lemma GatherRemove<T>(h: seq<T>, b: seq<nat>, k: nat)
    requires k < |b| && forall i :: 0 <= i < |b| ==> b[i] < |h|
    ensures multiset(Gather(h, b)) == multiset(Gather(h, b[..k] + b[k + 1..])) + multiset{h[b[k]]}
  {
    var g := Gather(h, b);
    assert g == g[..k] + [h[b[k]]] + g[k + 1..];
    assert Gather(h, b[..k] + b[k + 1..]) == g[..k] + g[k + 1..];
  }

  lemma {:induction false} GatherMultiset<T>(h: seq<T>, a: seq<nat>, b: seq<nat>)
    requires multiset(a) == multiset(b)
    requires forall i :: 0 <= i < |a| ==> a[i] < |h|
    requires forall i :: 0 <= i < |b| ==> b[i] < |h|
    ensures multiset(Gather(h, a)) == multiset(Gather(h, b))
    decreases |a|
  {
    if |a| == 0 {
      assert |multiset(b)| == 0;
    } else {
      assert a[0] in multiset(b);
      var k :| 0 <= k < |b| && b[k] == a[0];
      GatherRemove(h, b, k);
      GatherRemove(h, a, 0);
      SameWithout(a, b, k);
      GatherMultiset(h, a[..0] + a[1..], b[..k] + b[k + 1..]);
    }
  }

  lemma SameWithout<T>(a: seq<T>, b: seq<T>, k: nat)
    requires multiset(a) == multiset(b) && |a| > 0 && k < |b| && b[k] == a[0]
    ensures multiset(a[..0] + a[1..]) == multiset(b[..k] + b[k + 1..])
  {
    assert a == [a[0]] + (a[..0] + a[1..]);
    assert b == b[..k] + [b[k]] + b[k + 1..];
    assert multiset(a[..0] + a[1..]) == multiset(a) - multiset{a[0]};
    assert multiset(b[..k] + b[k + 1..]) == multiset(b) - multiset{a[0]};
  }

  /** Folding in any order gives the same. */
  lemma FoldPermuted(mul: bool, h: seq<nat>, a: seq<nat>)
    requires IsPermutation(a, |h|)
    ensures |a| == |h| && forall i :: 0 <= i < |a| ==> a[i] < |h|
    ensures Fold(mul, Gather(h, a)) == Fold(mul, h)
  {
    PermutationFacts(a, |h|);
    GatherMultiset(h, a, Ids(|h|));
    assert Gather(h, Ids(|h|)) == h;
    FoldMultiset(mul, Gather(h, a), h);
  }
}
