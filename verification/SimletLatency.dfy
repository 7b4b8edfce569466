/** The latency model of the simlets: whole 4 KB pages, 64-bit arithmetic, and the DRAM clock. */
module SimletLatency {
  const WORD: nat := 0x1_0000_0000_0000_0000
  const PAGE: nat := 4096

  datatype Query = Query(addr: nat, nbytes: nat)

  predicate IsQuery(q: Query) {
    q.addr < WORD && q.nbytes < WORD
  }

  /** pages_touched, on uint64_t. */
  function PagesTouched(q: Query): (n: nat)
    requires IsQuery(q)
  {
    if q.nbytes == 0 then 0
    else
      var startPage := q.addr / PAGE;
      var endPage := ((q.addr + q.nbytes - 1) % WORD) / PAGE;
      (endPage - startPage + 1) % WORD
  }

  /** The pages with a byte in [addr, addr + nbytes). */
  ghost function PagesOf(q: Query): set<int> {
    set b | q.addr <= b < q.addr + q.nbytes :: b / PAGE
  }

  /** The integers from lo up to, not including, hi. */
  function Between(lo: int, hi: int): (r: set<int>)
    requires lo <= hi
    ensures |r| == hi - lo && forall p :: p in r <==> lo <= p < hi
    decreases hi - lo
  {
    if lo == hi then {} else Between(lo, hi - 1) + {hi - 1}
  }

  lemma PagesFormRange(q: Query)
    requires q.nbytes > 0
    ensures PagesOf(q) == Between(q.addr / PAGE, (q.addr + q.nbytes - 1) / PAGE + 1)
  {
    var lo, hi := q.addr / PAGE, (q.addr + q.nbytes - 1) / PAGE;
    forall p | lo <= p <= hi
      ensures p in PagesOf(q)
    {
      var b := if p == lo then q.addr else p * PAGE;
      assert q.addr <= b < q.addr + q.nbytes && b / PAGE == p;
    }
  }

  lemma PageCount(q: Query)
    requires IsQuery(q)
    ensures |PagesOf(q)| == if q.nbytes == 0 then 0 else (q.addr + q.nbytes - 1) / PAGE - q.addr / PAGE + 1
  {
    if q.nbytes == 0 {
      assert PagesOf(q) == {};
    } else {
      PagesFormRange(q);
    }
  }

  /** The last byte's page as computed: a request past the end of the address space loses 2^52 pages. */
  lemma LastPage(last: nat)
    requires last < 2 * WORD
    ensures (last % WORD) / PAGE == if last < WORD then last / PAGE else last / PAGE - WORD / PAGE
  {
  }

  /** Main result: the count is the number of pages touched, exactly when the request ends inside the
      64-bit address space. */
  lemma PagesTouchedIsExact(q: Query)
    requires IsQuery(q)
    ensures PagesTouched(q) == |PagesOf(q)| <==> q.addr + q.nbytes <= WORD
  {
    PageCount(q);
    if q.nbytes > 0 {
      LastPage(q.addr + q.nbytes - 1);
    }
  }

  /** effective_bytes, on uint64_t. */
  function EffectiveBytes(q: Query): (n: nat)
    requires IsQuery(q)
  {
    PagesTouched(q) * PAGE % WORD
  }

  /** The wrong page counts are off by a multiple of the address space in bytes. */
  lemma EffectiveBytesWrap(q: Query)
    requires IsQuery(q)
    ensures EffectiveBytes(q) == |PagesOf(q)| * PAGE % WORD
  {
    PageCount(q);
    if q.nbytes > 0 {
      LastPage(q.addr + q.nbytes - 1);
    }
  }

  lemma PageBounds(q: Query)
    requires IsQuery(q)
    ensures q.nbytes <= |PagesOf(q)| * PAGE < q.nbytes + 2 * PAGE
    ensures |PagesOf(q)| <= WORD / PAGE + 1
  {
    PageCount(q);
  }

  /** Main result: for every request, also one past the end, the bytes are the whole pages touched exactly when
      these are fewer than all the pages of memory. */
  lemma EffectiveBytesIsExact(q: Query)
    requires IsQuery(q)
    ensures EffectiveBytes(q) == |PagesOf(q)| * PAGE <==> |PagesOf(q)| < WORD / PAGE
    ensures |PagesOf(q)| < WORD / PAGE ==> q.nbytes <= EffectiveBytes(q)
    ensures EffectiveBytes(q) < q.nbytes + 2 * PAGE
  {
    EffectiveBytesWrap(q);
    PageBounds(q);
  }

  function Ceil(x: real): (n: int)
    ensures n as real - 1.0 < x <= n as real
  {
    -((-x).Floor)
  }

  /** compute_latency_ns, before the cast to uint64_t. */
  function Latency(q: Query, bandwidth: real, baseLatency: real): (n: int)
    requires IsQuery(q)
  {
    var transfer := if bandwidth > 0.0 then EffectiveBytes(q) as real / bandwidth else 0.0;
    Ceil(baseLatency + transfer)
  }

  lemma DivMonotone(a: real, b: real, w: real)
    requires 0.0 <= a <= b && w > 0.0
    ensures 0.0 <= a / w <= b / w
  {
  }

  lemma LatencyOfBytes(q: Query, r: Query, bandwidth: real, baseLatency: real)
    requires IsQuery(q) && IsQuery(r) && EffectiveBytes(q) <= EffectiveBytes(r)
    ensures Latency(q, bandwidth, baseLatency) <= Latency(r, bandwidth, baseLatency)
    ensures baseLatency <= Latency(q, bandwidth, baseLatency) as real
  {
    if bandwidth > 0.0 {
      DivMonotone(EffectiveBytes(q) as real, EffectiveBytes(r) as real, bandwidth);
    }
  }

  /** The latency written out: the least whole number that pays for the base latency and, at the given bandwidth, for
      the whole pages that the request touches. */
  ghost predicate PaysFor(q: Query, bandwidth: real, baseLatency: real, latency: int) {
    var bytes := |PagesOf(q)| * PAGE % WORD;
    if bandwidth > 0.0 then
      (latency as real - baseLatency) * bandwidth >= bytes as real > (latency as real - 1.0 - baseLatency) * bandwidth
    else
      latency as real >= baseLatency > latency as real - 1.0
  }

  lemma QuotientTimes(x: real, y: real, w: real)
    requires w > 0.0
    ensures x >= y / w <==> x * w >= y
  {
    assert y / w * w == y;
    ScaleUp(y / w, x, w);
    ScaleUp(x, y / w, w);
  }

  lemma ScaleUp(x: real, y: real, w: real)
    requires w > 0.0
    ensures (x <= y ==> x * w <= y * w) && (x < y ==> x * w < y * w)
  {
  }

  /** Main result: the latency pays, and no smaller one does. */
  lemma LatencyPays(q: Query, bandwidth: real, baseLatency: real)
    requires IsQuery(q)
    ensures PaysFor(q, bandwidth, baseLatency, Latency(q, bandwidth, baseLatency))
  {
    EffectiveBytesWrap(q);
    if bandwidth > 0.0 {
      var l, bytes := Latency(q, bandwidth, baseLatency) as real, EffectiveBytes(q) as real;
      QuotientTimes(l - baseLatency, bytes, bandwidth);
      QuotientTimes(l - 1.0 - baseLatency, bytes, bandwidth);
    }
  }

  lemma MorePages(q: Query, r: Query)
    requires IsQuery(q) && IsQuery(r) && q.addr == r.addr && q.nbytes <= r.nbytes
    ensures |PagesOf(q)| <= |PagesOf(r)|
  {
    PageCount(q);
    PageCount(r);
  }

  /** A longer request that leaves some page of memory untouched has no fewer effective bytes. */
  lemma MoreBytes(q: Query, r: Query)
    requires IsQuery(q) && IsQuery(r) && q.addr == r.addr && q.nbytes <= r.nbytes
    requires |PagesOf(r)| < WORD / PAGE
    ensures EffectiveBytes(q) <= EffectiveBytes(r)
  {
    MorePages(q, r);
    EffectiveBytesIsExact(q);
    EffectiveBytesIsExact(r);
  }

  /** All pages make no or one effective page. */
  lemma AllPagesWrap(r: Query)
    requires IsQuery(r) && |PagesOf(r)| >= WORD / PAGE
    ensures EffectiveBytes(r) <= PAGE
  {
    EffectiveBytesWrap(r);
    PageBounds(r);
  }

  lemma AllButOne(q: Query)
    requires IsQuery(q) && q.nbytes == (WORD / PAGE - 1) * PAGE - q.addr % PAGE
    ensures EffectiveBytes(q) == (WORD / PAGE - 1) * PAGE
  {
    PageCount(q);
    assert (q.addr + q.nbytes - 1) / PAGE - q.addr / PAGE + 1 == WORD / PAGE - 1;
    EffectiveBytesWrap(q);
  }

  /** A part of a request for all pages that needs all pages but one. */
  lemma AllPagesButOne(r: Query) returns (q: Query)
    requires IsQuery(r) && |PagesOf(r)| >= WORD / PAGE
    ensures IsQuery(q) && q.addr == r.addr && q.nbytes <= r.nbytes && EffectiveBytes(q) > EffectiveBytes(r)
  {
    q := Query(r.addr, (WORD / PAGE - 1) * PAGE - r.addr % PAGE);
    PageCount(r);
    AllPagesWrap(r);
    AllButOne(q);
  }

  /** Main result: no part of a request takes longer than the whole, for any settings, exactly when the request
      leaves some page of memory untouched. */
  lemma LatencyMonotone(r: Query)
    requires IsQuery(r)
    ensures (forall n: nat, bandwidth: real, baseLatency: real :: n <= r.nbytes ==>
               Latency(Query(r.addr, n), bandwidth, baseLatency) <= Latency(r, bandwidth, baseLatency))
       <==> |PagesOf(r)| < WORD / PAGE
  {
    if |PagesOf(r)| < WORD / PAGE {
      forall n: nat, bandwidth: real, baseLatency: real | n <= r.nbytes
        ensures Latency(Query(r.addr, n), bandwidth, baseLatency) <= Latency(r, bandwidth, baseLatency)
      {
        MoreBytes(Query(r.addr, n), r);
        LatencyOfBytes(Query(r.addr, n), r, bandwidth, baseLatency);
      }
    } else {
      var q := AllPagesButOne(r);
      assert q == Query(r.addr, q.nbytes);
      assert Latency(q, 1.0, 0.0) == EffectiveBytes(q) && Latency(r, 1.0, 0.0) == EffectiveBytes(r);
    }
  }

  /** A request for all of memory but one byte is modelled faster than a request for one byte. */
  lemma WholeMemoryIsFast()
    ensures var q, r := Query(0, 1), Query(0, WORD - 1);
            IsQuery(q) && IsQuery(r) && EffectiveBytes(q) == PAGE && EffectiveBytes(r) == 0
  {
  }

  // ----- the DRAM simlet -----

  /** A message from TOGSim; the terminate sentinel ends the simlet. */
  datatype Request = Request(query: Query, terminate: bool)

  predicate AllRequests(rs: seq<Request>) {
    forall k :: 0 <= k < |rs| ==> IsQuery(rs[k].query)
  }

  function Response(r: Request, bandwidth: real, baseLatency: real): int
    requires IsQuery(r.query)
  {
    if r.terminate then 0 else Latency(r.query, bandwidth, baseLatency)
  }

  /** How many requests are answered: all up to the first sentinel. */
  function Answered(rs: seq<Request>): (n: nat)
    ensures n <= |rs| && forall k :: 0 <= k < n - 1 ==> !rs[k].terminate
    ensures n == |rs| || (n > 0 && rs[n - 1].terminate)
  {
    if |rs| == 0 then 0 else if rs[0].terminate then 1 else 1 + Answered(rs[1..])
  }

  /** The clock after n requests: delays[k] is how much later than timeNow readSync resolves request k. */
  function ClockAfter(rs: seq<Request>, delays: seq<nat>, n: nat, bandwidth: real, baseLatency: real): int
    requires n <= |rs| == |delays| && AllRequests(rs)
  {
    if n == 0 then 1
    else
      var before := ClockAfter(rs, delays, n - 1, bandwidth, baseLatency);
      before + delays[n - 1] + Response(rs[n - 1], bandwidth, baseLatency)
  }

  /** The latency of one request, and the clock when it is answered. */
  method AnswerOne(r: Request, timeEnd: int, bandwidth: real, baseLatency: real) returns (latency: int, timeNow: int)
    requires IsQuery(r.query) && baseLatency >= 0.0
    ensures latency == Response(r, bandwidth, baseLatency) && timeNow == timeEnd + latency >= timeEnd
  {
    if !r.terminate {
      latency := Latency(r.query, bandwidth, baseLatency);
      LatencyOfBytes(r.query, r.query, bandwidth, baseLatency);
      timeNow := latency + timeEnd;
    } else {
      latency := 0;
      timeNow := timeEnd;
    }
  }

  /** Every response and the clock at which it is written. */
  predicate Served(rs: seq<Request>, delays: seq<nat>, sent: seq<int>, clocks: seq<int>,
                   bandwidth: real, baseLatency: real)
    requires |delays| == |rs| && AllRequests(rs)
  {
    && |sent| == |clocks| <= |rs|
    && (forall k :: 0 <= k < |sent| ==> sent[k] == Response(rs[k], bandwidth, baseLatency))
    && forall k :: 0 <= k < |sent| ==> clocks[k] == ClockAfter(rs, delays, k + 1, bandwidth, baseLatency)
  }

  /** The request loop of dram_simlet, until the sentinel or until no request is left: the responses and the clock
      at which each one is written. The clock never runs backwards. */
  method DramClock(rs: seq<Request>, delays: seq<nat>, bandwidth: real, baseLatency: real)
      returns (sent: seq<int>, clocks: seq<int>)
    requires |delays| == |rs| && baseLatency >= 0.0 && AllRequests(rs)
    ensures |sent| == |clocks| == Answered(rs) && Served(rs, delays, sent, clocks, bandwidth, baseLatency)
    // the sentinel is answered with zero, and every other response pays for the pages of its request
    ensures forall k :: 0 <= k < |sent| ==>
              if rs[k].terminate then sent[k] == 0 else PaysFor(rs[k].query, bandwidth, baseLatency, sent[k])
    // each response is written its delay and its latency after the one before
    ensures forall k :: 0 <= k < |clocks| ==> clocks[k] == (if k == 0 then 1 else clocks[k - 1]) + delays[k] + sent[k]
    ensures forall k :: 0 <= k < |clocks| ==> 1 <= clocks[k]
    ensures forall j, k :: 0 <= j < k < |clocks| ==> clocks[j] <= clocks[k]
  {
    sent, clocks := [], [];
    var timeNow, k := 1, 0;
    while k < |rs|
      invariant k <= |rs| && |sent| == k && Served(rs, delays, sent, clocks, bandwidth, baseLatency)
      invariant timeNow == ClockAfter(rs, delays, k, bandwidth, baseLatency)
      invariant forall j :: 0 <= j < k ==> !rs[j].terminate
    {
      var latency;
      latency, timeNow := AnswerOne(rs[k], timeNow + delays[k], bandwidth, baseLatency);
      ServeOne(rs, delays, sent, clocks, timeNow, bandwidth, baseLatency);
      sent, clocks := sent + [latency], clocks + [timeNow];
      k := k + 1;
      if rs[k - 1].terminate {
        break;
      }
    }
    AnsweredIs(rs, k);
    ClocksRise(rs, delays, sent, clocks, bandwidth, baseLatency);
    ResponsesPay(rs, delays, sent, clocks, bandwidth, baseLatency);
  }

  lemma ResponsesPay(rs: seq<Request>, delays: seq<nat>, sent: seq<int>, clocks: seq<int>,
                     bandwidth: real, baseLatency: real)
    requires |rs| == |delays| && AllRequests(rs) && Served(rs, delays, sent, clocks, bandwidth, baseLatency)
    ensures forall k :: 0 <= k < |sent| ==>
              if rs[k].terminate then sent[k] == 0 else PaysFor(rs[k].query, bandwidth, baseLatency, sent[k])
    ensures forall k :: 0 <= k < |clocks| ==> clocks[k] == (if k == 0 then 1 else clocks[k - 1]) + delays[k] + sent[k]
  {
    forall k | 0 <= k < |sent|
      ensures if rs[k].terminate then sent[k] == 0 else PaysFor(rs[k].query, bandwidth, baseLatency, sent[k])
    {
      LatencyPays(rs[k].query, bandwidth, baseLatency);
    }
    forall k | 0 <= k < |clocks|
      ensures clocks[k] == (if k == 0 then 1 else clocks[k - 1]) + delays[k] + sent[k]
    {
      ClockStep(rs, delays, k, bandwidth, baseLatency);
    }
  }

  lemma ClockStep(rs: seq<Request>, delays: seq<nat>, k: nat, bandwidth: real, baseLatency: real)
    requires k < |rs| == |delays| && AllRequests(rs)
    ensures ClockAfter(rs, delays, 0, bandwidth, baseLatency) == 1
    ensures ClockAfter(rs, delays, k + 1, bandwidth, baseLatency)
         == ClockAfter(rs, delays, k, bandwidth, baseLatency) + delays[k] + Response(rs[k], bandwidth, baseLatency)
  {
  }

  lemma ServeOne(rs: seq<Request>, delays: seq<nat>, sent: seq<int>, clocks: seq<int>, now: int,
                 bandwidth: real, baseLatency: real)
    requires |delays| == |rs| && AllRequests(rs) && Served(rs, delays, sent, clocks, bandwidth, baseLatency)
    requires |sent| < |rs| && now == ClockAfter(rs, delays, |sent| + 1, bandwidth, baseLatency)
    ensures Served(rs, delays, sent + [Response(rs[|sent|], bandwidth, baseLatency)], clocks + [now],
                   bandwidth, baseLatency)
  {
  }

  lemma {:induction false} ClockGrows(rs: seq<Request>, delays: seq<nat>, j: nat, k: nat,
                                      bandwidth: real, baseLatency: real)
    requires j <= k <= |rs| == |delays| && AllRequests(rs) && baseLatency >= 0.0
    ensures 1 <= ClockAfter(rs, delays, j, bandwidth, baseLatency) <= ClockAfter(rs, delays, k, bandwidth, baseLatency)
    decreases k
  {
    if k > 0 {
      LatencyOfBytes(rs[k - 1].query, rs[k - 1].query, bandwidth, baseLatency);
      ClockGrows(rs, delays, if j < k then j else k - 1, k - 1, bandwidth, baseLatency);
    }
  }

  lemma ClocksRise(rs: seq<Request>, delays: seq<nat>, sent: seq<int>, clocks: seq<int>,
                   bandwidth: real, baseLatency: real)
    requires |rs| == |delays| && AllRequests(rs) && baseLatency >= 0.0
    requires Served(rs, delays, sent, clocks, bandwidth, baseLatency)
    ensures forall k :: 0 <= k < |clocks| ==> 1 <= clocks[k]
    ensures forall j, k :: 0 <= j < k < |clocks| ==> clocks[j] <= clocks[k]
  {
    forall k | 0 <= k < |clocks|
      ensures 1 <= clocks[k]
    {
      ClockGrows(rs, delays, k + 1, k + 1, bandwidth, baseLatency);
    }
    forall j, k | 0 <= j < k < |clocks|
      ensures clocks[j] <= clocks[k]
    {
      ClockGrows(rs, delays, j + 1, k + 1, bandwidth, baseLatency);
    }
  }

  lemma {:induction false} AnsweredIs(rs: seq<Request>, n: nat)
    requires n <= |rs| && (forall j :: 0 <= j < n - 1 ==> !rs[j].terminate)
    requires n == |rs| || (n > 0 && rs[n - 1].terminate)
    ensures Answered(rs) == n
    decreases n
  {
    if n > 0 && !rs[0].terminate {
      AnsweredIs(rs[1..], n - 1);
    }
  }
}
