/** Mixed-radix numbers: digits d with d[i] < s[i], most significant first. */
module MixedRadix {
  import opened Arithmetic

  predicate Positive(s: seq<nat>) {
    forall i :: 0 <= i < |s| ==> s[i] > 0
  }

  predicate InBox(d: seq<nat>, s: seq<nat>) {
    |d| == |s| && forall i :: 0 <= i < |s| ==> d[i] < s[i]
  }

  function Prod(s: seq<nat>): nat {
    if |s| == 0 then 1 else s[0] * Prod(s[1..])
  }

  lemma {:induction false} ProdPositive(s: seq<nat>)
    requires Positive(s)
    ensures Prod(s) > 0
    decreases |s|
  {
    if |s| > 0 {
      ProdPositive(s[1..]);
      MulMonotone(1, s[0], Prod(s[1..]));
    }
  }

  lemma {:induction false} ProdConcat(a: seq<nat>, b: seq<nat>)
    ensures Prod(a + b) == Prod(a) * Prod(b)
    decreases |a|
  {
    if |a| == 0 {
      assert a + b == b;
    } else {
      assert (a + b)[1..] == a[1..] + b;
      ProdConcat(a[1..], b);
      Associate(a[0], Prod(a[1..]), Prod(b));
    }
  }

  function Encode(d: seq<nat>, s: seq<nat>): nat
    requires |d| == |s|
  {
    if |d| == 0 then 0 else d[0] * Prod(s[1..]) + Encode(d[1..], s[1..])
  }

  function Decode(t: nat, s: seq<nat>): (d: seq<nat>)
    requires Positive(s)
    ensures |d| == |s|
    decreases |s|
  {
    if |s| == 0 then []
    else
      ProdPositive(s[1..]);
      var p := Prod(s[1..]);
      [t / p] + Decode(t % p, s[1..])
  }

  lemma {:induction false} EncodeBound(d: seq<nat>, s: seq<nat>)
    requires InBox(d, s)
    ensures Encode(d, s) < Prod(s)
    decreases |s|
  {
    if |s| > 0 {
      EncodeBound(d[1..], s[1..]);
      var p := Prod(s[1..]);
      MulMonotone(d[0] + 1, s[0], p);
      Distribute(d[0], 1, p);
    }
  }

  /** Encoding is injective: decoding undoes it. */
  lemma {:induction false} DecodeEncode(d: seq<nat>, s: seq<nat>)
    requires InBox(d, s)
    ensures Positive(s) && Decode(Encode(d, s), s) == d
    decreases |s|
  {
    if |s| > 0 {
      DecodeEncode(d[1..], s[1..]);
      EncodeBound(d[1..], s[1..]);
      DivMod(d[0], Prod(s[1..]), Encode(d[1..], s[1..]));
    }
  }

  lemma QuotientBelow(t: nat, k: nat, p: nat) returns (q: nat, r: nat)
    requires p > 0 && t < k * p
    ensures q == t / p < k && r == t % p < p && t == q * p + r
  {
    q, r := t / p, t % p;
    if q >= k {
      MulMonotone(k, q, p);
    }
  }

  lemma Prepend(q: nat, rest: seq<nat>, s: seq<nat>)
    requires |s| > 0 && q < s[0] && InBox(rest, s[1..])
    ensures InBox([q] + rest, s) && Encode([q] + rest, s) == q * Prod(s[1..]) + Encode(rest, s[1..])
  {
    var d := [q] + rest;
    assert d[1..] == rest;
    forall k | 0 <= k < |d|
      ensures d[k] < s[k]
    {
      if k > 0 {
        assert rest[k - 1] < s[1..][k - 1];
      }
    }
  }

  lemma EncodeDecodeStep(t: nat, s: seq<nat>, p: nat, q: nat, r: nat)
    requires |s| > 0 && Positive(s) && p == Prod(s[1..]) > 0 && q == t / p < s[0] && r == t % p && t == q * p + r
    requires InBox(Decode(r, s[1..]), s[1..]) && Encode(Decode(r, s[1..]), s[1..]) == r
    ensures InBox(Decode(t, s), s) && Encode(Decode(t, s), s) == t
  {
    Prepend(q, Decode(r, s[1..]), s);
  }

  lemma BelowProd(t: nat, s: seq<nat>, p: nat)
    requires |s| > 0 && t < Prod(s) && p == Prod(s[1..])
    ensures t < s[0] * p
  {
  }

  /** Encoding is onto: every number below the product is the code of its digits. */
  lemma {:induction false} EncodeDecode(t: nat, s: seq<nat>)
    requires Positive(s) && t < Prod(s)
    ensures InBox(Decode(t, s), s) && Encode(Decode(t, s), s) == t
    decreases |s|
  {
    if |s| > 0 {
      var p := Prod(s[1..]);
      ProdPositive(s[1..]);
      BelowProd(t, s, p);
      var q, r := QuotientBelow(t, s[0], p);
      EncodeDecode(r, s[1..]);
      EncodeDecodeStep(t, s, p, q, r);
    }
  }

  /** Lexicographic order of points. */
  ghost predicate LexLess(a: seq<nat>, b: seq<nat>)
    requires |a| == |b|
  {
    exists k :: 0 <= k < |a| && a[..k] == b[..k] && a[k] < b[k]
  }

  /** The code respects the lexicographic order. */
  lemma {:induction false} LexIncreases(a: seq<nat>, b: seq<nat>, s: seq<nat>)
    requires InBox(a, s) && InBox(b, s) && LexLess(a, b)
    ensures Encode(a, s) < Encode(b, s)
    decreases |s|
  {
    var k :| 0 <= k < |a| && a[..k] == b[..k] && a[k] < b[k];
    EncodeBound(a[1..], s[1..]);
    var p := Prod(s[1..]);
    if k == 0 {
      MulMonotone(a[0] + 1, b[0], p);
      Distribute(a[0], 1, p);
    } else {
      assert a[0] == a[..k][0] && b[0] == b[..k][0];
      assert a[1..][..k - 1] == a[..k][1..] && b[1..][..k - 1] == b[..k][1..];
      assert a[1..][k - 1] == a[k] && b[1..][k - 1] == b[k];
      LexIncreases(a[1..], b[1..], s[1..]);
    }
  }

  // ----- the successor of a number -----

  /** Replaces the digits from i on by zeros. */
  function ZeroFrom(d: seq<nat>, i: nat): (r: seq<nat>)
    requires i <= |d|
    ensures |r| == |d|
  {
    d[..i] + seq(|d| - i, _ => 0)
  }

  /** All digits from i on are the largest ones. */
  predicate MaxFrom(d: seq<nat>, s: seq<nat>, i: nat)
    requires |d| == |s|
  {
    forall k :: i <= k < |d| ==> d[k] + 1 == s[k]
  }

  lemma {:induction false} AllMaximal(d: seq<nat>, s: seq<nat>)
    requires InBox(d, s) && MaxFrom(d, s, 0)
    ensures Encode(d, s) + 1 == Prod(s)
    decreases |s|
  {
    if |s| > 0 {
      AllMaximal(d[1..], s[1..]);
      Distribute(d[0], 1, Prod(s[1..]));
    }
  }

  lemma {:induction false} AllZero(n: nat, s: seq<nat>)
    requires |s| == n
    ensures Encode(seq(n, _ => 0), s) == 0
    decreases n
  {
    if n > 0 {
      assert seq(n, _ => 0)[1..] == seq(n - 1, _ => 0);
      AllZero(n - 1, s[1..]);
    }
  }

  /** Counting up at digit i while all later digits roll over adds one. */
  lemma {:induction false} Successor(d: seq<nat>, s: seq<nat>, i: nat)
    requires InBox(d, s) && i < |d| && MaxFrom(d, s, i + 1) && d[i] + 1 < s[i]
    ensures var e := ZeroFrom(d[i := d[i] + 1], i + 1); InBox(e, s) && Encode(e, s) == Encode(d, s) + 1
    decreases |s|
  {
    var e := ZeroFrom(d[i := d[i] + 1], i + 1);
    if i == 0 {
      AllMaximal(d[1..], s[1..]);
      assert e[1..] == seq(|d| - 1, _ => 0);
      AllZero(|d| - 1, s[1..]);
      Distribute(d[0], 1, Prod(s[1..]));
    } else {
      Successor(d[1..], s[1..], i - 1);
      assert e[1..] == ZeroFrom(d[1..][i - 1 := d[1..][i - 1] + 1], i);
    }
  }
}
