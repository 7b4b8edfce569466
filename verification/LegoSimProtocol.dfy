/** The link in TOGSim and an SSD simlet as two processes that exchange messages over two channels. */
module LegoSimProtocol {
  import opened SimletLatency

  /** What TOGSim asks the link to do. */
  datatype Call = Ask(query: Query) | Shutdown

  datatype Simlet = Receiving | Replying(latency: int, last: bool) | Exited

  /** The settings of a run. */
  datatype Setup = Setup(enabled: bool, bandwidth: real, baseLatency: real)

  /** waiting: the link has sent the request of calls[at] and blocks on its response. */
  datatype State = State(
    at: nat, waiting: bool, shutdownSent: bool, answers: seq<int>,
    requests: seq<Request>, responses: seq<int>, simlet: Simlet)

  predicate AllQueries(calls: seq<Call>) {
    forall k :: 0 <= k < |calls| && calls[k].Ask? ==> IsQuery(calls[k].query)
  }

  function Start(): State {
    State(0, false, false, [], [], [], Receiving)
  }

  function RequestOf(call: Call): Request {
    match call
    case Ask(query) => Request(query, false)
    case Shutdown => Request(Query(0, 0), true)
  }

  function ResponseTo(u: Setup, r: Request): int
    requires IsQuery(r.query)
  {
    Response(r, u.bandwidth, u.baseLatency)
  }

  // ----- steps -----

  /** shutdown() returns at once when disabled or already sent. */
  predicate ReturnsAtOnce(u: Setup, s: State, call: Call) {
    call.Shutdown? && (!u.enabled || s.shutdownSent)
  }

  ghost predicate LinkSkips(u: Setup, calls: seq<Call>, s: State, t: State) {
    && !s.waiting && s.at < |calls| && ReturnsAtOnce(u, s, calls[s.at])
    && t == s.(at := s.at + 1)
  }

  /** The request leg of round_trip. */
  ghost predicate LinkSends(u: Setup, calls: seq<Call>, s: State, t: State) {
    && !s.waiting && s.at < |calls| && !ReturnsAtOnce(u, s, calls[s.at])
    && t == s.(waiting := true, shutdownSent := s.shutdownSent || calls[s.at].Shutdown?,
               requests := s.requests + [RequestOf(calls[s.at])])
  }

  /** The response leg of round_trip; only queries return the latency to the caller. */
  ghost predicate LinkReceives(calls: seq<Call>, s: State, t: State) {
    && s.waiting && s.at < |calls| && |s.responses| > 0
    && t == s.(at := s.at + 1, waiting := false, responses := s.responses[1..],
               answers := s.answers + (if calls[s.at].Ask? then [s.responses[0]] else []))
  }

  ghost predicate SimletReceives(u: Setup, s: State, t: State) {
    && s.simlet == Receiving && |s.requests| > 0 && IsQuery(s.requests[0].query)
    && t == s.(requests := s.requests[1..], simlet := Replying(ResponseTo(u, s.requests[0]), s.requests[0].terminate))
  }

  ghost predicate SimletReplies(s: State, t: State) {
    && s.simlet.Replying?
    && t == s.(responses := s.responses + [s.simlet.latency], simlet := if s.simlet.last then Exited else Receiving)
  }

  ghost predicate Step(u: Setup, calls: seq<Call>, s: State, t: State) {
    || LinkSkips(u, calls, s, t) || LinkSends(u, calls, s, t) || LinkReceives(calls, s, t)
    || SimletReceives(u, s, t) || SimletReplies(s, t)
  }

  /** A run from the start: each state follows from the one before. */
  ghost predicate IsRun(u: Setup, calls: seq<Call>, run: seq<State>) {
    && |run| > 0 && run[0] == Start()
    && forall k {:trigger StepAt(u, calls, run, k)} :: 0 < k < |run| ==> StepAt(u, calls, run, k)
  }

  ghost predicate StepAt(u: Setup, calls: seq<Call>, run: seq<State>, k: int)
    requires 0 < k < |run|
  {
    Step(u, calls, run[k - 1], run[k])
  }

  // ----- what a run means -----

  /** The latencies of the queries among the first n calls, in order. */
  function Answers(u: Setup, calls: seq<Call>, n: nat): seq<int>
    requires n <= |calls| && AllQueries(calls)
  {
    if n == 0 then []
    else
      Answers(u, calls, n - 1)
      + (if calls[n - 1].Ask? then [Latency(calls[n - 1].query, u.bandwidth, u.baseLatency)] else [])
  }

  /** How many of the first n calls are queries. */
  function QueriesIn(calls: seq<Call>, n: nat): nat
    requires n <= |calls|
  {
    if n == 0 then 0 else QueriesIn(calls, n - 1) + (if calls[n - 1].Ask? then 1 else 0)
  }

  /** One answer for each of the first n queries, in order, and each one pays for the pages of its query. */
  ghost predicate AllPaid(u: Setup, calls: seq<Call>, n: nat, answers: seq<int>)
    requires n <= |calls|
  {
    && |answers| == QueriesIn(calls, n)
    && forall m: nat {:trigger QueriesIn(calls, m)} :: m < n && calls[m].Ask? ==>
      && QueriesIn(calls, m) < |answers|
      && PaysFor(calls[m].query, u.bandwidth, u.baseLatency, answers[QueriesIn(calls, m)])
  }

  lemma {:induction false} QueriesGrow(calls: seq<Call>, m: nat, n: nat)
    requires m < n <= |calls| && calls[m].Ask?
    ensures QueriesIn(calls, m) < QueriesIn(calls, n)
    decreases n
  {
    if m < n - 1 {
      QueriesGrow(calls, m, n - 1);
    }
  }

  lemma {:induction false} AnswersPay(u: Setup, calls: seq<Call>, n: nat)
    requires n <= |calls| && AllQueries(calls)
    ensures AllPaid(u, calls, n, Answers(u, calls, n))
    decreases n
  {
    if n > 0 {
      AnswersPay(u, calls, n - 1);
      var before, after := Answers(u, calls, n - 1), Answers(u, calls, n);
      if calls[n - 1].Ask? {
        LatencyPays(calls[n - 1].query, u.bandwidth, u.baseLatency);
      }
      forall m: nat | m < n && calls[m].Ask?
        ensures QueriesIn(calls, m) < |after|
        ensures PaysFor(calls[m].query, u.bandwidth, u.baseLatency, after[QueriesIn(calls, m)])
      {
        if m < n - 1 {
          QueriesGrow(calls, m, n - 1);
          assert after[QueriesIn(calls, m)] == before[QueriesIn(calls, m)];
        }
      }
    }
  }

  /** The simlet was told to exit by one of the first n calls. */
  predicate Stopped(u: Setup, calls: seq<Call>, n: nat)
    requires n <= |calls|
  {
    u.enabled && Shutdown in calls[..n]
  }

  predicate Quiet(s: State) {
    s.requests == [] && s.responses == []
  }

  /** Where the one message of a round trip is. */
  ghost predicate RoundTrip(u: Setup, s: State, call: Call, stoppedBefore: bool)
    requires call.Ask? ==> IsQuery(call.query)
  {
    var response := ResponseTo(u, RequestOf(call));
    || (s.requests == [RequestOf(call)] && s.responses == [] && s.simlet == if stoppedBefore then Exited else Receiving)
    || (!stoppedBefore && Quiet(s) && s.simlet == Replying(response, call.Shutdown?))
    || (!stoppedBefore && s.requests == [] && s.responses == [response]
        && s.simlet == if call.Shutdown? then Exited else Receiving)
  }

  ghost predicate Inv(u: Setup, calls: seq<Call>, s: State)
    requires AllQueries(calls)
  {
    && s.at <= |calls| && s.answers == Answers(u, calls, s.at)
    && (!s.waiting ==> s.shutdownSent == Stopped(u, calls, s.at))
    && (s.waiting ==> s.at < |calls| && s.shutdownSent == (Stopped(u, calls, s.at) || calls[s.at].Shutdown?))
    && if s.waiting then
         && (calls[s.at].Shutdown? ==> u.enabled && !Stopped(u, calls, s.at))
         && RoundTrip(u, s, calls[s.at], Stopped(u, calls, s.at))
       else
         Quiet(s) && s.simlet == if Stopped(u, calls, s.at) then Exited else Receiving
  }

  lemma StoppedNext(u: Setup, calls: seq<Call>, n: nat)
    requires n < |calls|
    ensures Stopped(u, calls, n + 1) <==> Stopped(u, calls, n) || (u.enabled && calls[n].Shutdown?)
  {
    assert calls[..n + 1] == calls[..n] + [calls[n]];
  }

  lemma InvStep(u: Setup, calls: seq<Call>, s: State, t: State)
    requires AllQueries(calls) && Inv(u, calls, s) && Step(u, calls, s, t)
    ensures Inv(u, calls, t)
  {
    if s.at < |calls| {
      StoppedNext(u, calls, s.at);
    }
  }

  /** Main result: the k-th answer is the latency of the k-th query, and at most one message exists. */
  lemma {:induction false} EveryStateIsConsistent(u: Setup, calls: seq<Call>, run: seq<State>, k: nat)
    requires AllQueries(calls) && IsRun(u, calls, run) && k < |run|
    ensures Inv(u, calls, run[k])
    ensures |run[k].requests| + |run[k].responses| <= 1
    ensures run[k].answers == Answers(u, calls, run[k].at) && AllPaid(u, calls, run[k].at, run[k].answers)
    decreases k
  {
    if k > 0 {
      EveryStateIsConsistent(u, calls, run, k - 1);
      assert StepAt(u, calls, run, k);
      InvStep(u, calls, run[k - 1], run[k]);
    }
    AnswersPay(u, calls, run[k].at);
  }

  // ----- progress -----

  predicate Final(calls: seq<Call>, s: State) {
    !s.waiting && s.at == |calls|
  }

  ghost predicate Stuck(u: Setup, calls: seq<Call>, s: State) {
    !Final(calls, s) && forall t {:trigger Step(u, calls, s, t)} :: !Step(u, calls, s, t)
  }

  /** Call n is a query made after the simlet was stopped. */
  predicate AsksStopped(u: Setup, calls: seq<Call>, n: nat)
    requires n < |calls|
  {
    calls[n].Ask? && Stopped(u, calls, n)
  }

  /** The step taken in a consistent state. */
  function NextState(u: Setup, calls: seq<Call>, s: State): State
    requires AllQueries(calls) && s.at < |calls| && Inv(u, calls, s)
  {
    var call := calls[s.at];
    if !s.waiting then
      if ReturnsAtOnce(u, s, call) then s.(at := s.at + 1)
      else s.(waiting := true, shutdownSent := s.shutdownSent || call.Shutdown?, requests := [RequestOf(call)])
    else if |s.responses| > 0 then
      s.(at := s.at + 1, waiting := false, responses := [],
         answers := s.answers + (if call.Ask? then [s.responses[0]] else []))
    else if s.simlet.Replying? then
      s.(responses := [s.simlet.latency], simlet := if s.simlet.last then Exited else Receiving)
    else
      s.(requests := [], simlet := Replying(ResponseTo(u, RequestOf(call)), call.Shutdown?))
  }

  /** Exactly one of the two processes can move, unless a query was sent to a simlet that has exited. */
  lemma OneStep(u: Setup, calls: seq<Call>, s: State, t: State)
    requires AllQueries(calls) && Inv(u, calls, s) && s.at < |calls|
    ensures Step(u, calls, s, t) <==> !(s.waiting && AsksStopped(u, calls, s.at)) && t == NextState(u, calls, s)
  {
  }

  lemma StuckIff(u: Setup, calls: seq<Call>, s: State)
    requires AllQueries(calls) && Inv(u, calls, s)
    ensures Stuck(u, calls, s) <==> s.waiting && AsksStopped(u, calls, s.at)
  {
    if s.at < |calls| {
      forall t
        ensures Step(u, calls, s, t) <==> !(s.waiting && AsksStopped(u, calls, s.at)) && t == NextState(u, calls, s)
      {
        OneStep(u, calls, s, t);
      }
      assert Step(u, calls, s, NextState(u, calls, s)) <==> !(s.waiting && AsksStopped(u, calls, s.at));
    }
  }

  /** No query is made after the simlet was stopped. */
  predicate QueriesBeforeShutdown(u: Setup, calls: seq<Call>) {
    forall n: nat {:trigger AsksStopped(u, calls, n)} :: n < |calls| ==> !AsksStopped(u, calls, n)
  }

  /** Steps left at most. */
  function Work(calls: seq<Call>, s: State): int {
    4 * (|calls| - s.at)
    - (if !s.waiting then 0 else if |s.requests| > 0 then 1 else if s.simlet.Replying? then 2 else 3)
  }

  lemma WorkShrinks(u: Setup, calls: seq<Call>, s: State, t: State)
    requires AllQueries(calls) && Inv(u, calls, s) && Step(u, calls, s, t)
    ensures 0 <= Work(calls, t) < Work(calls, s)
  {
    InvStep(u, calls, s, t);
  }

  /** Every run ends: it is no longer than four steps a call. */
  lemma {:induction false} RunsEnd(u: Setup, calls: seq<Call>, run: seq<State>, k: nat)
    requires AllQueries(calls) && IsRun(u, calls, run) && k < |run|
    ensures 0 <= Work(calls, run[k]) <= 4 * |calls| - k
    decreases k
  {
    if k > 0 {
      RunsEnd(u, calls, run, k - 1);
      EveryStateIsConsistent(u, calls, run, k - 1);
      assert StepAt(u, calls, run, k);
      WorkShrinks(u, calls, run[k - 1], run[k]);
    }
  }

  ghost predicate ReachesStuck(u: Setup, calls: seq<Call>) {
    exists run :: IsRun(u, calls, run) && Stuck(u, calls, run[|run| - 1])
  }

  lemma RunSnoc(u: Setup, calls: seq<Call>, run: seq<State>, t: State)
    requires IsRun(u, calls, run) && Step(u, calls, run[|run| - 1], t)
    ensures IsRun(u, calls, run + [t])
  {
    var next := run + [t];
    forall k | 0 < k < |next|
      ensures StepAt(u, calls, next, k)
    {
      if k < |run| {
        assert StepAt(u, calls, run, k);
      }
    }
  }

  /** Any run can be continued until it is final or stuck. */
  lemma {:induction false} RunOn(u: Setup, calls: seq<Call>, run: seq<State>) returns (whole: seq<State>)
    requires AllQueries(calls) && IsRun(u, calls, run)
    ensures IsRun(u, calls, whole)
    ensures Final(calls, whole[|whole| - 1]) || Stuck(u, calls, whole[|whole| - 1])
    decreases 4 * |calls| + 1 - |run|
  {
    RunsEnd(u, calls, run, |run| - 1);
    var s := run[|run| - 1];
    if Final(calls, s) || Stuck(u, calls, s) {
      whole := run;
    } else {
      var t :| Step(u, calls, s, t);
      RunSnoc(u, calls, run, t);
      RunsEnd(u, calls, run + [t], |run|);
      whole := RunOn(u, calls, run + [t]);
    }
  }

  /** Main result: some run gets stuck exactly when the link is asked for a latency after shutdown. */
  lemma StuckIffAskedLate(u: Setup, calls: seq<Call>)
    requires AllQueries(calls)
    ensures ReachesStuck(u, calls) <==> !QueriesBeforeShutdown(u, calls)
  {
    if ReachesStuck(u, calls) {
      var run :| IsRun(u, calls, run) && Stuck(u, calls, run[|run| - 1]);
      EveryStateIsConsistent(u, calls, run, |run| - 1);
      StuckIff(u, calls, run[|run| - 1]);
    } else {
      assert IsRun(u, calls, [Start()]);
      var whole := RunOn(u, calls, [Start()]);
      FinalMeansNoneLate(u, calls, whole);
    }
  }

  /** A step finishes at most the next call, and not a query to a stopped simlet. */
  lemma CallsInOrder(u: Setup, calls: seq<Call>, s: State, t: State)
    requires AllQueries(calls) && Inv(u, calls, s) && Step(u, calls, s, t)
    ensures t.at == s.at || (t.at == s.at + 1 && s.at < |calls| && !AsksStopped(u, calls, s.at))
  {
    if s.at < |calls| {
      OneStep(u, calls, s, t);
    }
  }

  lemma CallsInOrderAt(u: Setup, calls: seq<Call>, run: seq<State>, k: nat)
    requires AllQueries(calls) && IsRun(u, calls, run) && 0 < k < |run|
    ensures var s, t := run[k - 1], run[k];
            t.at == s.at || (t.at == s.at + 1 && s.at < |calls| && !AsksStopped(u, calls, s.at))
  {
    EveryStateIsConsistent(u, calls, run, k - 1);
    assert StepAt(u, calls, run, k);
    CallsInOrder(u, calls, run[k - 1], run[k]);
  }

  /** A run cannot step over a query to a stopped simlet. */
  lemma {:induction false} NoneLateSoFar(u: Setup, calls: seq<Call>, run: seq<State>, k: nat, n: nat)
    requires AllQueries(calls) && IsRun(u, calls, run) && k < |run| && n < run[k].at <= |calls|
    ensures !AsksStopped(u, calls, n)
    decreases k
  {
    if k > 0 {
      CallsInOrderAt(u, calls, run, k);
      if n < run[k - 1].at {
        NoneLateSoFar(u, calls, run, k - 1, n);
      }
    }
  }

  lemma FinalMeansNoneLate(u: Setup, calls: seq<Call>, run: seq<State>)
    requires AllQueries(calls) && IsRun(u, calls, run) && Final(calls, run[|run| - 1])
    ensures QueriesBeforeShutdown(u, calls)
  {
    forall n: nat | n < |calls|
      ensures !AsksStopped(u, calls, n)
    {
      NoneLateSoFar(u, calls, run, |run| - 1, n);
    }
  }

  /** Main result: when a run is over, every query was answered with its latency, no message is left, and
      the simlet has exited exactly when an enabled link was shut down, no matter how often. */
  lemma FinalState(u: Setup, calls: seq<Call>, run: seq<State>)
    requires AllQueries(calls) && IsRun(u, calls, run) && Final(calls, run[|run| - 1])
    ensures var s := run[|run| - 1];
            && s.answers == Answers(u, calls, |calls|) && AllPaid(u, calls, |calls|, s.answers) && Quiet(s)
            && (s.simlet == Exited <==> u.enabled && Shutdown in calls)
            && (s.simlet == Receiving <==> !(u.enabled && Shutdown in calls))
  {
    EveryStateIsConsistent(u, calls, run, |run| - 1);
    assert calls[..|calls|] == calls;
  }

  /** Repeating shutdown() changes nothing: the call after it sends no message. */
  lemma ShutdownTwiceIsOnce(u: Setup, calls: seq<Call>, s: State, t: State)
    requires AllQueries(calls) && Inv(u, calls, s) && !s.waiting && s.at < |calls|
    requires calls[s.at] == Shutdown && (Stopped(u, calls, s.at) || !u.enabled)
    ensures Step(u, calls, s, t) <==> t == s.(at := s.at + 1)
  {
    OneStep(u, calls, s, t);
  }
}
