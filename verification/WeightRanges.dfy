/** merge_weight_ranges and extract_weight_traces: ranges are normalised so that one binary search
    answers membership. Ends are inclusive. */
module WeightRanges {
  import opened Sequences

  datatype Range = Range(base: int, end: int)

  predicate IsRange(r: Range) {
    r.base <= r.end
  }

  predicate AllRanges(rs: seq<Range>) {
    forall i :: 0 <= i < |rs| ==> IsRange(rs[i])
  }

  /** Some range of the list contains both addresses. */
  predicate Covers(rs: seq<Range>, a: int, b: int) {
    exists i :: 0 <= i < |rs| && rs[i].base <= a && b <= rs[i].end
  }

  predicate Contains(rs: seq<Range>, addr: int) {
    Covers(rs, addr, addr)
  }

  /** The lists cover the same addresses, and the same pairs of neighbouring addresses. */
  ghost predicate SameCover(rs: seq<Range>, qs: seq<Range>) {
    forall a, b {:trigger Covers(rs, a, b)} {:trigger Covers(qs, a, b)} ::
      a <= b <= a + 1 ==> Covers(rs, a, b) == Covers(qs, a, b)
  }

  /** Sorted, and no two ranges touch. */
  predicate Separated(rs: seq<Range>) {
    && AllRanges(rs)
    && forall i, j :: 0 <= i < j < |rs| ==> rs[i].end < rs[j].base
  }

  /** Python's order of pairs. */
  predicate AtMost(r: Range, q: Range) {
    r.base < q.base || (r.base == q.base && r.end <= q.end)
  }

  predicate Sorted(rs: seq<Range>) {
    forall i, j :: 0 <= i < j < |rs| ==> AtMost(rs[i], rs[j])
  }

  // ----- reading ranges -----

  /** A line's two numbers, smaller first. */
  function Normalised(r: Range): (q: Range)
    ensures IsRange(q) && {q.base, q.end} == {r.base, r.end}
    ensures IsRange(r) ==> q == r
  {
    if r.end < r.base then Range(r.end, r.base) else r
  }

  method ParseRanges(lines: seq<Range>) returns (ranges: seq<Range>)
    ensures |ranges| == |lines| && AllRanges(ranges)
    ensures forall i :: 0 <= i < |lines| ==> ranges[i] == Normalised(lines[i])
  {
    ranges := [];
    for i := 0 to |lines|
      invariant |ranges| == i && forall k :: 0 <= k < i ==> ranges[k] == Normalised(lines[k])
    {
      ranges := ranges + [Normalised(lines[i])];
    }
  }

  function Insert(rs: seq<Range>, r: Range): (out: seq<Range>)
    ensures multiset(out) == multiset(rs) + multiset{r}
  {
    if |rs| == 0 then [r]
    else if AtMost(r, rs[|rs| - 1]) then
      assert rs == rs[..|rs| - 1] + [rs[|rs| - 1]];
      Insert(rs[..|rs| - 1], r) + [rs[|rs| - 1]]
    else rs + [r]
  }

  lemma {:induction false} InsertSorts(rs: seq<Range>, r: Range)
    requires Sorted(rs)
    ensures Sorted(Insert(rs, r))
    decreases |rs|
  {
    if |rs| > 0 {
      var front, last := rs[..|rs| - 1], rs[|rs| - 1];
      if AtMost(r, last) {
        InsertSorts(front, r);
        var out := Insert(front, r);
        forall i | 0 <= i < |out|
          ensures AtMost(out[i], last)
        {
          assert out[i] in multiset(front) + multiset{r};
        }
      }
    }
  }

  method SortRanges(rs: seq<Range>) returns (out: seq<Range>)
    ensures Sorted(out) && multiset(out) == multiset(rs)
  {
    out := [];
    for i := 0 to |rs|
      invariant Sorted(out) && multiset(out) == multiset(rs[..i])
    {
      assert rs[..i + 1] == rs[..i] + [rs[i]];
      InsertSorts(out, rs[i]);
      out := Insert(out, rs[i]);
    }
    assert rs[..|rs|] == rs;
  }

  lemma PermutedCoverAlike(rs: seq<Range>, qs: seq<Range>)
    requires multiset(rs) == multiset(qs)
    ensures SameCover(rs, qs) && (AllRanges(rs) ==> AllRanges(qs))
  {
    forall i | 0 <= i < |rs|
      ensures rs[i] in qs
    {
      assert rs[i] in multiset(rs);
    }
    forall i | 0 <= i < |qs|
      ensures qs[i] in rs
    {
      assert qs[i] in multiset(qs);
    }
  }

  // ----- merging -----

  lemma CoversSnoc(rs: seq<Range>, r: Range, a: int, b: int)
    ensures Covers(rs + [r], a, b) <==> Covers(rs, a, b) || (r.base <= a && b <= r.end)
  {
    if Covers(rs, a, b) {
      var i :| 0 <= i < |rs| && rs[i].base <= a && b <= rs[i].end;
      assert (rs + [r])[i] == rs[i];
    }
    assert (rs + [r])[|rs|] == r;
  }

  /** Widening the last range by a range that starts inside it adds exactly what that range covers. */
  lemma Widen(front: seq<Range>, last: Range, r: Range, rs: seq<Range>)
    requires last.base <= r.base <= last.end && SameCover(front + [last], rs)
    ensures SameCover(front + [Range(last.base, if last.end < r.end then r.end else last.end)], rs + [r])
  {
    var wide := Range(last.base, if last.end < r.end then r.end else last.end);
    forall a, b | a <= b <= a + 1
      ensures Covers(front + [wide], a, b) == Covers(rs + [r], a, b)
    {
      CoversSnoc(front, wide, a, b);
      CoversSnoc(front, last, a, b);
      CoversSnoc(rs, r, a, b);
    }
  }

  lemma AppendBoth(merged: seq<Range>, rs: seq<Range>, r: Range)
    requires SameCover(merged, rs)
    ensures SameCover(merged + [r], rs + [r])
  {
    forall a, b | a <= b <= a + 1
      ensures Covers(merged + [r], a, b) == Covers(rs + [r], a, b)
    {
      CoversSnoc(merged, r, a, b);
      CoversSnoc(rs, r, a, b);
    }
  }

  /** merge_ranges. Its second test, for base == last_end, is covered by the first one. */
  method MergeRanges(ranges: seq<Range>) returns (merged: seq<Range>)
    requires AllRanges(ranges)
    ensures Separated(merged) && SameCover(merged, ranges)
  {
    if |ranges| == 0 {
      return [];
    }
    var rs := SortRanges(ranges);
    PermutedCoverAlike(ranges, rs);
    assert |rs| == |multiset(rs)| == |multiset(ranges)| == |ranges|;
    merged := [rs[0]];
    assert rs[..1] == merged;
    for i := 1 to |rs|
      invariant Separated(merged) && |merged| > 0 && SameCover(merged, rs[..i])
      invariant merged[|merged| - 1].base <= rs[i - 1].base
    {
      assert rs[..i + 1] == rs[..i] + [rs[i]];
      assert AtMost(rs[i - 1], rs[i]);
      var last := merged[|merged| - 1];
      ghost var front := merged[..|merged| - 1];
      assert merged == front + [last];
      if rs[i].base <= last.end {
        Widen(front, last, rs[i], rs[..i]);
        merged := merged[|merged| - 1 := Range(last.base, if last.end < rs[i].end then rs[i].end else last.end)];
        assert merged == front + [merged[|merged| - 1]];
      } else {
        AppendBoth(merged, rs[..i], rs[i]);
        merged := merged + [rs[i]];
      }
    }
    assert rs[..|rs|] == rs;
  }

  lemma BothEmpty(rs: seq<Range>, qs: seq<Range>)
    requires AllRanges(qs) && SameCover(rs, qs) && |qs| > 0
    ensures |rs| > 0
  {
    assert Covers(qs, qs[0].base, qs[0].base);
  }

  /** A separated list is determined by what it covers. */
  lemma {:induction false} SeparatedIsUnique(rs: seq<Range>, qs: seq<Range>)
    requires Separated(rs) && Separated(qs) && SameCover(rs, qs)
    ensures rs == qs
    decreases |rs|
  {
    if |qs| > 0 {
      BothEmpty(rs, qs);
    }
    if |rs| > 0 {
      BothEmpty(qs, rs);
      FirstIsLowest(rs, qs);
      FirstIsLowest(qs, rs);
      FirstIsLongest(rs, qs);
      FirstIsLongest(qs, rs);
      assert rs[0] == qs[0];
      TailsCoverAlike(rs, qs);
      SeparatedIsUnique(rs[1..], qs[1..]);
      assert rs == [rs[0]] + rs[1..] && qs == [qs[0]] + qs[1..];
    }
  }

  lemma FirstIsLowest(rs: seq<Range>, qs: seq<Range>)
    requires Separated(rs) && Separated(qs) && SameCover(rs, qs) && |rs| > 0 && |qs| > 0
    ensures qs[0].base <= rs[0].base
  {
    assert Covers(rs, rs[0].base, rs[0].base);
    var i :| 0 <= i < |qs| && qs[i].base <= rs[0].base <= qs[i].end;
  }

  lemma FirstIsLongest(rs: seq<Range>, qs: seq<Range>)
    requires Separated(rs) && Separated(qs) && SameCover(rs, qs) && |rs| > 0 && |qs| > 0
    requires rs[0].base == qs[0].base
    ensures rs[0].end <= qs[0].end
  {
    if qs[0].end < rs[0].end {
      var a := qs[0].end;
      assert Covers(rs, a, a + 1);
    }
  }

  lemma TailsCoverAlike(rs: seq<Range>, qs: seq<Range>)
    requires Separated(rs) && Separated(qs) && SameCover(rs, qs) && |rs| > 0 && |qs| > 0 && rs[0] == qs[0]
    ensures SameCover(rs[1..], qs[1..])
  {
    forall a, b | a <= b <= a + 1
      ensures Covers(rs[1..], a, b) == Covers(qs[1..], a, b)
    {
      TailCovers(rs, a, b);
      TailCovers(qs, a, b);
    }
  }

  lemma TailCovers(rs: seq<Range>, a: int, b: int)
    requires Separated(rs) && |rs| > 0 && a <= b
    ensures Covers(rs[1..], a, b) <==> Covers(rs, a, b) && rs[0].end < a
  {
    if Covers(rs[1..], a, b) {
      var i :| 0 <= i < |rs| - 1 && rs[1..][i].base <= a && b <= rs[1..][i].end;
      assert rs[i + 1].base <= a && b <= rs[i + 1].end;
    }
    if Covers(rs, a, b) && rs[0].end < a {
      var i :| 0 <= i < |rs| && rs[i].base <= a && b <= rs[i].end;
      assert rs[1..][i - 1] == rs[i];
    }
  }

  // ----- looking up -----

  /** bisect_right on the starts of sorted ranges. */
  method BisectRight(starts: seq<int>, addr: int) returns (k: nat)
    requires forall i, j :: 0 <= i < j < |starts| ==> starts[i] <= starts[j]
    ensures k <= |starts|
    ensures forall i :: 0 <= i < k ==> starts[i] <= addr
    ensures forall i :: k <= i < |starts| ==> addr < starts[i]
  {
    var lo, hi := 0, |starts|;
    while lo < hi
      invariant 0 <= lo <= hi <= |starts|
      invariant forall i :: 0 <= i < lo ==> starts[i] <= addr
      invariant forall i :: hi <= i < |starts| ==> addr < starts[i]
    {
      var mid := (lo + hi) / 2;
      if addr < starts[mid] {
        hi := mid;
      } else {
        lo := mid + 1;
      }
    }
    k := lo;
  }

  /** The position bisect_right finds. */
  predicate BisectAt(rs: seq<Range>, addr: int, k: nat) {
    && k <= |rs|
    && (forall i :: 0 <= i < k ==> rs[i].base <= addr)
    && (forall i :: k <= i < |rs| ==> addr < rs[i].base)
  }

  /** The one lookup succeeds. */
  ghost predicate Hit(rs: seq<Range>, addr: int) {
    exists k: nat :: BisectAt(rs, addr, k) && k > 0 && addr <= rs[k - 1].end
  }

  /** addr_in_ranges: only the last range that starts at or before addr is looked at. */
  method AddrInRanges(addr: int, ranges: seq<Range>, starts: seq<int>) returns (found: bool)
    requires Sorted(ranges) && |starts| == |ranges|
    requires forall i :: 0 <= i < |starts| ==> starts[i] == ranges[i].base
    ensures found <==> Hit(ranges, addr)
    ensures LookupExact(ranges) ==> found == Contains(ranges, addr)
  {
    assert forall i, j :: 0 <= i < j < |starts| ==> AtMost(ranges[i], ranges[j]);
    var k := BisectRight(starts, addr);
    found := k > 0 && addr <= ranges[k - 1].end;
    assert BisectAt(ranges, addr, k);
    OneLookup(ranges, addr, k);
  }

  lemma BisectUnique(rs: seq<Range>, addr: int, j: nat, k: nat)
    requires BisectAt(rs, addr, j) && BisectAt(rs, addr, k)
    ensures j == k
  {
    assert j < |rs| ==> addr < rs[j].base;
    assert k < |rs| ==> addr < rs[k].base;
  }

  lemma OneLookup(rs: seq<Range>, addr: int, k: nat)
    requires BisectAt(rs, addr, k)
    ensures Hit(rs, addr) <==> k > 0 && addr <= rs[k - 1].end
  {
    if Hit(rs, addr) {
      var j: nat :| BisectAt(rs, addr, j) && j > 0 && addr <= rs[j - 1].end;
      BisectUnique(rs, addr, j, k);
    }
  }

  /** One lookup is enough for every address. */
  ghost predicate LookupExact(rs: seq<Range>) {
    forall addr: int, k: nat :: BisectAt(rs, addr, k) ==> (k > 0 && addr <= rs[k - 1].end) == Contains(rs, addr)
  }

  /** Range i reaches past the later range j, and some address in between is looked up at j. */
  predicate SticksOut(rs: seq<Range>, i: nat, j: nat)
    requires i < j < |rs|
  {
    rs[j].end < rs[i].end && (j + 1 < |rs| ==> rs[j].end + 1 < rs[j + 1].base)
  }

  predicate NothingSticksOut(rs: seq<Range>) {
    forall i: nat, j: nat {:trigger SticksOut(rs, i, j)} :: i < j < |rs| ==> !SticksOut(rs, i, j)
  }

  lemma {:induction false} BisectExists(rs: seq<Range>, addr: int)
    requires Sorted(rs)
    ensures exists k: nat :: BisectAt(rs, addr, k)
    decreases |rs|
  {
    if |rs| == 0 {
      assert BisectAt(rs, addr, 0);
    } else if rs[|rs| - 1].base <= addr {
      assert forall i :: 0 <= i < |rs| - 1 ==> AtMost(rs[i], rs[|rs| - 1]);
      assert BisectAt(rs, addr, |rs|);
    } else {
      BisectExists(rs[..|rs| - 1], addr);
      var k: nat :| BisectAt(rs[..|rs| - 1], addr, k);
      assert forall i :: 0 <= i < |rs| - 1 ==> rs[..|rs| - 1][i] == rs[i];
      assert BisectAt(rs, addr, k);
    }
  }

  /** Exactly when one lookup is enough: sorting alone does not suffice, merging does. */
  lemma LookupExactIff(rs: seq<Range>)
    requires Sorted(rs) && AllRanges(rs)
    ensures LookupExact(rs) <==> NothingSticksOut(rs)
  {
    if NothingSticksOut(rs) {
      forall addr: int, k: nat | BisectAt(rs, addr, k)
        ensures (k > 0 && addr <= rs[k - 1].end) == Contains(rs, addr)
      {
        LookupFinds(rs, addr, k);
      }
    } else {
      var i: nat, j: nat :| i < j < |rs| && SticksOut(rs, i, j);
      LookupMisses(rs, i, j);
    }
  }

  lemma LookupFinds(rs: seq<Range>, addr: int, k: nat)
    requires Sorted(rs) && AllRanges(rs) && NothingSticksOut(rs) && BisectAt(rs, addr, k)
    ensures (k > 0 && addr <= rs[k - 1].end) == Contains(rs, addr)
  {
    if Contains(rs, addr) {
      var i :| 0 <= i < |rs| && rs[i].base <= addr <= rs[i].end;
      assert i < k;
      if i < k - 1 {
        assert !SticksOut(rs, i, k - 1);
      }
    }
  }

  lemma LookupMisses(rs: seq<Range>, i: nat, j: nat)
    requires Sorted(rs) && AllRanges(rs) && i < j < |rs| && SticksOut(rs, i, j)
    ensures !LookupExact(rs)
  {
    var addr := rs[j].end + 1;
    forall l | 0 <= l < |rs|
      ensures l <= j ==> rs[l].base <= addr
      ensures l > j ==> addr < rs[l].base
    {
      if l < j {
        assert AtMost(rs[l], rs[j]);
      } else if l > j + 1 {
        assert AtMost(rs[j + 1], rs[l]);
      }
    }
    assert rs[i].base <= addr <= rs[i].end;
    assert BisectAt(rs, addr, j + 1);
  }

  lemma SeparatedIsExact(rs: seq<Range>)
    requires Separated(rs)
    ensures Sorted(rs) && LookupExact(rs)
  {
    LookupExactIff(rs);
  }

  /** A sorted list on which one lookup gives a wrong answer. */
  lemma SortedIsNotEnough()
    ensures var rs := [Range(0, 9), Range(2, 3)];
            Sorted(rs) && AllRanges(rs) && !LookupExact(rs)
  {
    var rs := [Range(0, 9), Range(2, 3)];
    assert SticksOut(rs, 0, 1);
    LookupExactIff(rs);
  }

  // ----- the whole path from range lines to extracted rows -----

  /** The rows whose address lies in the ranges, in order. */
  function Kept(addrs: seq<int>, rs: seq<Range>): seq<int> {
    if |addrs| == 0 then []
    else
      var last := addrs[|addrs| - 1];
      Kept(addrs[..|addrs| - 1], rs) + (if Contains(rs, last) then [last] else [])
  }

  /** load_ranges: reads the merged file; a separated list comes back as it was written. */
  method LoadRanges(lines: seq<Range>) returns (ranges: seq<Range>)
    ensures Sorted(ranges) && AllRanges(ranges)
    ensures Separated(lines) ==> ranges == lines
  {
    var parsed := ParseRanges(lines);
    ranges := SortRanges(parsed);
    PermutedCoverAlike(parsed, ranges);
    if Separated(lines) {
      assert parsed == lines;
      SeparatedIsExact(lines);
      SortedIsUnique(ranges, lines);
    }
  }

  lemma FirstIsLeast(rs: seq<Range>, q: Range)
    requires Sorted(rs) && q in multiset(rs)
    ensures AtMost(rs[0], q)
  {
    var j :| 0 <= j < |rs| && rs[j] == q;
  }

  lemma {:induction false} SortedIsUnique(rs: seq<Range>, qs: seq<Range>)
    requires Sorted(rs) && Sorted(qs) && multiset(rs) == multiset(qs)
    ensures rs == qs
    decreases |rs|
  {
    assert |rs| == |multiset(rs)| == |multiset(qs)| == |qs|;
    if |rs| > 0 {
      assert rs[0] in multiset(rs) && qs[0] in multiset(qs);
      FirstIsLeast(rs, qs[0]);
      FirstIsLeast(qs, rs[0]);
      TailMultiset(rs);
      TailMultiset(qs);
      SortedIsUnique(rs[1..], qs[1..]);
      assert rs == [rs[0]] + rs[1..] && qs == [qs[0]] + qs[1..];
    }
  }

  /** The addresses whose lookup succeeds, in order. */
  ghost function Hits(addrs: seq<int>, rs: seq<Range>): seq<int> {
    if |addrs| == 0 then []
    else
      var a := addrs[|addrs| - 1];
      Hits(addrs[..|addrs| - 1], rs) + (if Hit(rs, a) then [a] else [])
  }

  lemma {:induction false} ExactHits(addrs: seq<int>, rs: seq<Range>)
    requires Sorted(rs) && LookupExact(rs)
    ensures Hits(addrs, rs) == Kept(addrs, rs)
    decreases |addrs|
  {
    if |addrs| > 0 {
      ExactHits(addrs[..|addrs| - 1], rs);
      BisectExists(rs, addrs[|addrs| - 1]);
      var k: nat :| BisectAt(rs, addrs[|addrs| - 1], k);
      OneLookup(rs, addrs[|addrs| - 1], k);
    }
  }

  /** A single wrong lookup already spoils some trace. */
  lemma HitsExactIff(rs: seq<Range>)
    requires Sorted(rs)
    ensures (forall addrs :: Hits(addrs, rs) == Kept(addrs, rs)) <==> LookupExact(rs)
  {
    if LookupExact(rs) {
      forall addrs
        ensures Hits(addrs, rs) == Kept(addrs, rs)
      {
        ExactHits(addrs, rs);
      }
    } else {
      var addr: int, k: nat :| BisectAt(rs, addr, k) && (k > 0 && addr <= rs[k - 1].end) != Contains(rs, addr);
      OneLookup(rs, addr, k);
      assert [addr][..0] == [];
      assert Hits([addr], rs) != Kept([addr], rs);
    }
  }

  /** The rows are those at the given places of the trace, in the order of the trace. */
  ghost predicate PickedAt(addrs: seq<int>, rows: seq<int>, places: set<int>) {
    exists at: seq<int> :: Picks(addrs, rows, at) && forall p :: p in at <==> p in places
  }

  ghost predicate Picks(addrs: seq<int>, rows: seq<int>, at: seq<int>) {
    && |at| == |rows|
    && (forall i :: 0 <= i < |at| ==> 0 <= at[i] < |addrs| && rows[i] == addrs[at[i]])
    && forall i, j :: 0 <= i < j < |at| ==> at[i] < at[j]
  }

  lemma PicksMore(addrs: seq<int>, rows: seq<int>, at: seq<int>)
    requires |addrs| > 0 && Picks(addrs[..|addrs| - 1], rows, at)
    ensures Picks(addrs, rows, at)
    ensures Picks(addrs, rows + [addrs[|addrs| - 1]], at + [|addrs| - 1])
  {
  }

  /** The places whose lookup succeeds. */
  ghost function HitPlaces(addrs: seq<int>, rs: seq<Range>): set<int> {
    set p | 0 <= p < |addrs| && Hit(rs, addrs[p])
  }

  lemma {:induction false} HitsPicked(addrs: seq<int>, rs: seq<Range>) returns (at: seq<int>)
    ensures Picks(addrs, Hits(addrs, rs), at) && forall p :: p in at <==> p in HitPlaces(addrs, rs)
    decreases |addrs|
  {
    if |addrs| == 0 {
      at := [];
    } else {
      var n, front := |addrs| - 1, addrs[..|addrs| - 1];
      at := HitsPicked(front, rs);
      PicksMore(addrs, Hits(front, rs), at);
      assert forall p :: 0 <= p < n ==> front[p] == addrs[p];
      if Hit(rs, addrs[n]) {
        at := at + [n];
      } else {
        assert Hits(front, rs) + [] == Hits(front, rs);
      }
    }
  }

  /** The places whose address lies in one of the ranges. */
  ghost function KeptPlaces(addrs: seq<int>, rs: seq<Range>): set<int> {
    set p | 0 <= p < |addrs| && exists r <- rs :: r.base <= addrs[p] <= r.end
  }

  lemma {:induction false} KeptPicked(addrs: seq<int>, rs: seq<Range>) returns (at: seq<int>)
    ensures Picks(addrs, Kept(addrs, rs), at) && forall p :: p in at <==> p in KeptPlaces(addrs, rs)
    decreases |addrs|
  {
    if |addrs| == 0 {
      at := [];
    } else {
      var n, front := |addrs| - 1, addrs[..|addrs| - 1];
      at := KeptPicked(front, rs);
      PicksMore(addrs, Kept(front, rs), at);
      KeptPlacesSnoc(addrs, rs);
      if Contains(rs, addrs[n]) {
        at := at + [n];
      } else {
        assert Kept(front, rs) + [] == Kept(front, rs);
      }
    }
  }

  lemma KeptPlacesSnoc(addrs: seq<int>, rs: seq<Range>)
    requires |addrs| > 0
    ensures var n := |addrs| - 1;
            KeptPlaces(addrs, rs) == KeptPlaces(addrs[..n], rs) + (if Contains(rs, addrs[n]) then {n} else {})
  {
    var n, front := |addrs| - 1, addrs[..|addrs| - 1];
    assert forall p :: 0 <= p < n ==> front[p] == addrs[p];
    ContainsSome(rs, addrs[n]);
  }

  lemma ContainsSome(rs: seq<Range>, a: int)
    ensures Contains(rs, a) <==> exists r <- rs :: r.base <= a <= r.end
  {
    if Contains(rs, a) {
      var i :| 0 <= i < |rs| && rs[i].base <= a && a <= rs[i].end;
      assert rs[i] in rs;
    }
  }

  /** The places whose address lies between the two numbers of some line. */
  ghost function LinePlaces(addrs: seq<int>, lines: seq<Range>): set<int> {
    set p | 0 <= p < |addrs| && exists l <- lines :: l.base <= addrs[p] <= l.end || l.end <= addrs[p] <= l.base
  }

  lemma LinesKept(addrs: seq<int>, lines: seq<Range>, ranges: seq<Range>)
    requires |ranges| == |lines| && forall i :: 0 <= i < |lines| ==> ranges[i] == Normalised(lines[i])
    ensures KeptPlaces(addrs, ranges) == LinePlaces(addrs, lines)
  {
    forall p | 0 <= p < |addrs|
      ensures p in KeptPlaces(addrs, ranges) <==> p in LinePlaces(addrs, lines)
    {
      if p in KeptPlaces(addrs, ranges) {
        var r :| r in ranges && r.base <= addrs[p] <= r.end;
        var i :| 0 <= i < |ranges| && ranges[i] == r;
        assert lines[i] in lines;
      }
      if p in LinePlaces(addrs, lines) {
        var l :| l in lines && (l.base <= addrs[p] <= l.end || l.end <= addrs[p] <= l.base);
        var i :| 0 <= i < |lines| && lines[i] == l;
        assert ranges[i] in ranges;
      }
    }
  }

  /** filter_trace, on any sorted list: the rows whose lookup succeeds; nothing is written when there is none. */
  method FilterTrace(addrs: seq<int>, ranges: seq<Range>) returns (wrote: bool, rows: seq<int>)
    requires Sorted(ranges)
    ensures rows == Hits(addrs, ranges) && PickedAt(addrs, rows, HitPlaces(addrs, ranges))
    ensures LookupExact(ranges) ==> rows == Kept(addrs, ranges) && PickedAt(addrs, rows, KeptPlaces(addrs, ranges))
    ensures wrote <==> rows != []
  {
    var starts := seq(|ranges|, i requires 0 <= i < |ranges| => ranges[i].base);
    wrote, rows := false, [];
    for i := 0 to |addrs|
      invariant rows == Hits(addrs[..i], ranges) && (wrote <==> rows != [])
    {
      assert addrs[..i + 1][..i] == addrs[..i];
      var found := AddrInRanges(addrs[i], ranges, starts);
      if found {
        wrote, rows := true, rows + [addrs[i]];
      }
    }
    assert addrs[..|addrs|] == addrs;
    ghost var at := HitsPicked(addrs, ranges);
    if LookupExact(ranges) {
      ExactHits(addrs, ranges);
      at := KeptPicked(addrs, ranges);
    }
  }

  lemma {:induction false} KeptAlike(addrs: seq<int>, rs: seq<Range>, qs: seq<Range>)
    requires SameCover(rs, qs)
    ensures Kept(addrs, rs) == Kept(addrs, qs)
    decreases |addrs|
  {
    if |addrs| > 0 {
      KeptAlike(addrs[..|addrs| - 1], rs, qs);
      var a := addrs[|addrs| - 1];
      assert Covers(rs, a, a) == Covers(qs, a, a);
    }
  }

  /** From the lines of the range file to the rows of the trace: a row is extracted if and only if its
      address lies in one of the ranges as first written, before merging. */
  method ExtractRows(lines: seq<Range>, addrs: seq<int>) returns (rows: seq<int>)
    ensures rows == Kept(addrs, seq(|lines|, i requires 0 <= i < |lines| => Normalised(lines[i])))
    ensures PickedAt(addrs, rows, LinePlaces(addrs, lines))
  {
    var ranges := ParseRanges(lines);
    assert ranges == seq(|lines|, i requires 0 <= i < |lines| => Normalised(lines[i]));
    var merged := MergeRanges(ranges);
    var loaded := LoadRanges(merged);
    SeparatedIsExact(loaded);
    var wrote;
    wrote, rows := FilterTrace(addrs, loaded);
    KeptAlike(addrs, merged, ranges);
    LinesKept(addrs, lines, ranges);
    ghost var at := KeptPicked(addrs, ranges);
  }
}
