/** The circuit breaker under overlapping calls. */
module CircuitBreaking {
  import opened Basics

  // Admission and the recording of an outcome are separate critical sections, so any interleaving of events is
  // possible; each carries the clock reading taken inside its section.

  datatype CircuitState = Closed | Open | HalfOpen

  datatype Config = Config(failureThreshold: int, recoveryTimeout: real, successThreshold: int)

  datatype Breaker = Breaker(state: CircuitState, failures: int, successes: int, openedAt: real)

  const INITIAL := Breaker(Closed, 0, 0, 0.0)

  /** `Observe` stands for the reads that also promote: `state` and `get_status`. */
  datatype Event =
    | Admit(call: nat, at: real)
    | Observe(at: real)
    | Failed(call: nat, at: real)
    | Succeeded(call: nat)
    | Reset

  function Promoted(c: Config, b: Breaker, now: real): Breaker {
    if b.state == Open && now - b.openedAt >= c.recoveryTimeout then b.(state := HalfOpen, successes := 0) else b
  }

  function AfterFailure(c: Config, b: Breaker, now: real): Breaker {
    var failures := b.failures + 1;
    if b.state == HalfOpen || (b.state == Closed && failures >= c.failureThreshold)
    then Breaker(Open, failures, 0, now)
    else b.(failures := failures)
  }

  function AfterSuccess(c: Config, b: Breaker): Breaker {
    match b.state
    case HalfOpen =>
      if b.successes + 1 >= c.successThreshold then b.(state := Closed, failures := 0, successes := 0)
      else b.(successes := b.successes + 1)
    case Closed => b.(failures := 0)
    case Open => b
  }

  function Step(c: Config, b: Breaker, e: Event): Breaker {
    match e
    case Admit(_, now) => Promoted(c, b, now)
    case Observe(now) => Promoted(c, b, now)
    case Failed(_, now) => AfterFailure(c, b, now)
    case Succeeded(_) => AfterSuccess(c, b)
    case Reset => b.(state := Closed, failures := 0, successes := 0)
  }

  function Run(c: Config, events: seq<Event>): Breaker {
    if |events| == 0 then INITIAL else Step(c, Run(c, events[..|events| - 1]), events[|events| - 1])
  }

  /** Whether a call arriving now gets through. */
  predicate Admits(c: Config, b: Breaker, now: real) {
    Promoted(c, b, now).state != Open
  }

  // ---------------------------------------------------------------------------------------------

  /** The circuit is closed exactly while the failure count is below its threshold. */
  lemma {:induction false} ClosedExactlyBelowThreshold(c: Config, events: seq<Event>)
    requires c.failureThreshold >= 1
    ensures Run(c, events).failures >= 0
    ensures Run(c, events).state == Closed <==> Run(c, events).failures < c.failureThreshold
  {
    if |events| > 0 {
      ClosedExactlyBelowThreshold(c, events[..|events| - 1]);
    }
  }

  /** Failures recorded since the last success or reset. */
  function TrailingFailures(events: seq<Event>): nat {
    if |events| == 0 then 0
    else
      var before := TrailingFailures(events[..|events| - 1]);
      match events[|events| - 1]
      case Failed(_, _) => before + 1
      case Succeeded(_) => 0
      case Reset => 0
      case _ => before
  }

  /** While the circuit is closed the counter counts consecutive failures, whichever calls they
      belong to. */
  lemma {:induction false} ClosedCountsConsecutiveFailures(c: Config, events: seq<Event>)
    requires c.failureThreshold >= 1 && Run(c, events).state == Closed
    ensures Run(c, events).failures == TrailingFailures(events)
  {
    if |events| > 0 {
      var before := events[..|events| - 1];
      ClosedExactlyBelowThreshold(c, before);
      if Run(c, before).state == Closed {
        ClosedCountsConsecutiveFailures(c, before);
      }
    }
  }

  predicate Looks(e: Event) { e.Admit? || e.Observe? }

  /** From event `k` up to `j` nobody resets, and every look at the clock comes before `deadline`.
      Outcomes, however late, are unrestricted. */
  predicate QuietUntil(events: seq<Event>, k: int, j: int, deadline: real)
    requires 0 <= k <= j <= |events|
  {
    forall i :: k <= i < j ==> !events[i].Reset? && (Looks(events[i]) ==> events[i].at < deadline)
  }

  lemma {:induction false} OpenUntilTimeout(c: Config, events: seq<Event>, k: int, j: int)
    requires 0 <= k <= j <= |events|
    requires Run(c, events[..k]).state == Open
    requires QuietUntil(events, k, j, Run(c, events[..k]).openedAt + c.recoveryTimeout)
    ensures Run(c, events[..j]).state == Open && Run(c, events[..j]).openedAt == Run(c, events[..k]).openedAt
    decreases j
  {
    if k < j {
      OpenUntilTimeout(c, events, k, j - 1);
      assert events[..j][..j - 1] == events[..j - 1];
    }
  }

  /** Once opened, the circuit admits its next caller exactly when the recovery timeout has passed
      since the opening: no earlier, and no late outcome moves that moment. */
  lemma AdmitsExactlyAfterTimeout(c: Config, events: seq<Event>, k: int, j: int, now: real)
    requires 0 <= k <= j <= |events|
    requires Run(c, events[..k]).state == Open
    requires QuietUntil(events, k, j, Run(c, events[..k]).openedAt + c.recoveryTimeout)
    ensures Admits(c, Run(c, events[..j]), now) <==> now - Run(c, events[..k]).openedAt >= c.recoveryTimeout
  {
    OpenUntilTimeout(c, events, k, j);
  }

  predicate ClockOrdered(events: seq<Event>) {
    forall i, j :: 0 <= i < j < |events| && Timed(events[i]) && Timed(events[j]) ==> events[i].at <= events[j].at
  }

  predicate Timed(e: Event) { Looks(e) || e.Failed? }

  /** With a monotonic clock: a failure opens the circuit at time t; then, absent a reset, every call
      that arrives before t + timeout is rejected. */
  lemma NoCallBeforeTimeout(c: Config, events: seq<Event>, k: int, j: int)
    requires ClockOrdered(events) && 0 < k <= j < |events|
    requires Run(c, events[..k - 1]).state != Open && Run(c, events[..k]).state == Open
    requires forall i :: k <= i < j ==> !events[i].Reset?
    requires events[j].Admit?
    ensures events[k - 1].Failed? && Run(c, events[..k]).openedAt == events[k - 1].at
    ensures events[j].at < events[k - 1].at + c.recoveryTimeout ==> !Admits(c, Run(c, events[..j]), events[j].at)
  {
    assert events[..k][..k - 1] == events[..k - 1];
    if events[j].at < events[k - 1].at + c.recoveryTimeout {
      AdmitsExactlyAfterTimeout(c, events, k, j, events[j].at);
    }
  }

  function Successes(events: seq<Event>): nat {
    if |events| == 0 then 0
    else Successes(events[..|events| - 1]) + if events[|events| - 1].Succeeded? then 1 else 0
  }

  /** Event `p` promoted the open circuit, and nothing but looks and successes followed. */
  ghost predicate ProbingSince(c: Config, events: seq<Event>, p: int) {
    && 0 <= p < |events|
    && Run(c, events[..p]).state == Open && Run(c, events[..p + 1]).state == HalfOpen
    && (forall i :: p <= i < |events| ==> !events[i].Failed? && !events[i].Reset?)
  }

  lemma {:induction false} HalfOpenCountsSuccesses(c: Config, events: seq<Event>) returns (p: int)
    requires Run(c, events).state == HalfOpen
    ensures ProbingSince(c, events, p)
    ensures Run(c, events).successes == Successes(events[p..])
    ensures c.successThreshold >= 1 ==> Run(c, events).successes < c.successThreshold
  {
    var n := |events| - 1;
    var before := events[..n];
    if Run(c, before).state == HalfOpen {
      p := HalfOpenCountsSuccesses(c, before);
      assert events[..p] == before[..p] && events[..p + 1] == before[..p + 1];
      assert events[p..][..n - p] == before[p..];
      assert forall i :: p <= i < n ==> events[i] == before[i];
    } else {
      p := n;
      assert events[..n + 1] == events;
      assert events[p..] == [events[n]] && events[p..][..0] == [];
    }
  }

  /** Only a reset or enough successes close the circuit: otherwise the closing event is a success,
      and since the promotion there have been exactly `successThreshold` of them and no failure. */
  lemma ClosingTakesEnoughSuccesses(c: Config, events: seq<Event>, e: Event)
    requires c.failureThreshold >= 1 && c.successThreshold >= 1 && e != Reset
    requires Run(c, events).state != Closed && Run(c, events + [e]).state == Closed
    ensures e.Succeeded? && Run(c, events).state == HalfOpen
    ensures exists p :: ProbingSince(c, events, p) && Successes(events[p..]) + 1 == c.successThreshold
  {
    assert (events + [e])[..|events|] == events;
    var p := HalfOpenCountsSuccesses(c, events);
  }

  predicate IsOutcome(e: Event) { e.Failed? || e.Succeeded? }

  /** Event `i` admitted a call. */
  predicate AdmittedAt(c: Config, events: seq<Event>, i: int)
    requires 0 <= i < |events|
  {
    events[i].Admit? && Admits(c, Run(c, events[..i]), events[i].at)
  }

  ghost predicate AdmittedBefore(c: Config, events: seq<Event>, call: nat, j: int)
    requires 0 <= j <= |events|
  {
    exists i :: 0 <= i < j && AdmittedAt(c, events, i) && events[i].call == call
  }

  /** Outcomes are recorded for admitted calls only, at most once each. */
  ghost predicate OutcomesFollowAdmissions(c: Config, events: seq<Event>) {
    && (forall j :: 0 <= j < |events| && IsOutcome(events[j]) ==> AdmittedBefore(c, events, events[j].call, j))
    && (forall i, j :: 0 <= i < j < |events| && IsOutcome(events[i]) && IsOutcome(events[j]) ==>
          events[i].call != events[j].call)
  }

  ghost predicate HasOutcome(events: seq<Event>, call: nat) {
    exists j :: 0 <= j < |events| && IsOutcome(events[j]) && events[j].call == call
  }

  /** The calls that were admitted and have not come back. */
  ghost function Outstanding(c: Config, events: seq<Event>): set<nat> {
    set i | 0 <= i < |events| && AdmittedAt(c, events, i) && !HasOutcome(events, events[i].call) :: events[i].call
  }

  /** A continuation in which nobody resets and no call is admitted. */
  ghost predicate Unattended(c: Config, events: seq<Event>, more: seq<Event>) {
    var all := events + more;
    forall i :: |events| <= i < |all| ==> !all[i].Reset? && !AdmittedAt(c, all, i)
  }

  ghost predicate ClosesWithoutProbes(c: Config, events: seq<Event>, more: seq<Event>) {
    && Unattended(c, events, more) && OutcomesFollowAdmissions(c, events + more) && ClockOrdered(events + more)
    && Run(c, events + more).state == Closed
  }

  /** From open, every success needed on the way to closed is in the continuation. */
  lemma {:induction false} ClosingIsPaidFor(c: Config, events: seq<Event>, more: seq<Event>)
    requires c.successThreshold >= 1 && Run(c, events).state == Open && forall i :: 0 <= i < |more| ==> !more[i].Reset?
    ensures Run(c, events + more).state == HalfOpen ==> Run(c, events + more).successes <= Successes(more)
    ensures Run(c, events + more).state == Closed ==> c.successThreshold <= Successes(more)
  {
    if |more| == 0 {
      assert events + more == events;
    } else {
      var n := |more| - 1;
      ClosingIsPaidFor(c, events, more[..n]);
      assert (events + more)[..|events| + n] == events + more[..n];
    }
  }

  ghost function SucceededCalls(more: seq<Event>): set<nat> {
    set j | 0 <= j < |more| && more[j].Succeeded? :: more[j].call
  }

  lemma {:induction false} SuccessesAreCalls(more: seq<Event>)
    requires forall i, j :: 0 <= i < j < |more| && IsOutcome(more[i]) && IsOutcome(more[j]) ==>
               more[i].call != more[j].call
    ensures |SucceededCalls(more)| == Successes(more)
  {
    if |more| > 0 {
      var front, last := more[..|more| - 1], more[|more| - 1];
      SuccessesAreCalls(front);
      assert forall j :: 0 <= j < |front| ==> front[j] == more[j];
      if last.Succeeded? {
        assert last.call !in SucceededCalls(front);
        assert SucceededCalls(more) == SucceededCalls(front) + {last.call};
      } else {
        assert SucceededCalls(more) == SucceededCalls(front);
      }
    }
  }

  /** Whoever succeeds in such a continuation was outstanding. */
  lemma SucceededWereOutstanding(c: Config, events: seq<Event>, more: seq<Event>)
    requires Unattended(c, events, more) && OutcomesFollowAdmissions(c, events + more)
    ensures SucceededCalls(more) <= Outstanding(c, events)
  {
    var all := events + more;
    forall j | 0 <= j < |more| && more[j].Succeeded? ensures more[j].call in Outstanding(c, events) {
      var k := |events| + j;
      assert all[k] == more[j] && IsOutcome(all[k]);
      var i :| 0 <= i < k && AdmittedAt(c, all, i) && all[i].call == all[k].call;
      assert all[..i] == events[..i] && all[i] == events[i];
      assert AdmittedAt(c, events, i);
      forall h | 0 <= h < |events| && IsOutcome(events[h]) ensures events[h].call != all[k].call {
        assert all[h] == events[h];
      }
    }
  }

  lemma {:induction false} Choose(from: set<nat>, n: nat) returns (calls: seq<nat>)
    requires n <= |from|
    ensures |calls| == n && Distinct(calls) && forall i :: 0 <= i < n ==> calls[i] in from
  {
    calls := [];
    if n > 0 {
      var x :| x in from;
      calls := Choose(from - {x}, n - 1);
      calls := calls + [x];
    }
  }

  function AllSucceed(calls: seq<nat>): seq<Event> {
    seq(|calls|, i requires 0 <= i < |calls| => Succeeded(calls[i]))
  }

  /** One look at the clock after the timeout, and then the calls come back. */
  function ComeBack(at: real, calls: seq<nat>): seq<Event> {
    [Observe(at)] + AllSucceed(calls)
  }

  lemma {:induction false} ComingBackCloses(c: Config, events: seq<Event>, at: real, calls: seq<nat>)
    requires Run(c, events).state == Open && at - Run(c, events).openedAt >= c.recoveryTimeout
    requires |calls| <= c.successThreshold && c.successThreshold >= 1
    ensures var b := Run(c, events + ComeBack(at, calls));
            if |calls| < c.successThreshold then b.state == HalfOpen && b.successes == |calls| else b.state == Closed
  {
    var all := events + ComeBack(at, calls);
    if |calls| == 0 {
      assert all == events + [Observe(at)] && all[..|events|] == events;
    } else {
      var n := |calls| - 1;
      ComingBackCloses(c, events, at, calls[..n]);
      assert all[..|all| - 1] == events + ComeBack(at, calls[..n]);
    }
  }

  lemma OutstandingMayReturn(c: Config, events: seq<Event>, at: real, calls: seq<nat>)
    requires OutcomesFollowAdmissions(c, events) && Distinct(calls)
    requires forall i :: 0 <= i < |calls| ==> calls[i] in Outstanding(c, events)
    ensures Unattended(c, events, ComeBack(at, calls)) && OutcomesFollowAdmissions(c, events + ComeBack(at, calls))
  {
    var more := ComeBack(at, calls);
    var all := events + more;
    forall j | 0 <= j < |all| && IsOutcome(all[j]) ensures AdmittedBefore(c, all, all[j].call, j) {
      var i;
      if j < |events| {
        assert AdmittedBefore(c, events, events[j].call, j);
        i :| 0 <= i < j && AdmittedAt(c, events, i) && events[i].call == events[j].call;
      } else {
        assert all[j].call in Outstanding(c, events);
        i :| 0 <= i < |events| && AdmittedAt(c, events, i) && events[i].call == all[j].call;
      }
      assert all[..i] == events[..i] && all[i] == events[i];
      assert AdmittedAt(c, all, i);
    }
    forall i, j | 0 <= i < j < |all| && IsOutcome(all[i]) && IsOutcome(all[j]) ensures all[i].call != all[j].call {
      if j < |events| {
        assert all[i] == events[i] && all[j] == events[j];
      } else if i < |events| {
        assert all[i] == events[i] && HasOutcome(events, events[i].call);
        assert all[j].call in Outstanding(c, events);
      }
    }
  }

  predicate ReadBy(events: seq<Event>, time: real) {
    forall i :: 0 <= i < |events| && Timed(events[i]) ==> events[i].at <= time
  }

  /** A time not before `earliest` nor before any reading of the history. */
  lemma {:induction false} TimeAfter(events: seq<Event>, earliest: real) returns (time: real)
    ensures time >= earliest && ReadBy(events, time)
  {
    time := earliest;
    if |events| > 0 {
      var n := |events| - 1;
      time := TimeAfter(events[..n], earliest);
      if Timed(events[n]) && events[n].at > time {
        time := events[n].at;
      }
      assert forall i :: 0 <= i < n ==> events[i] == events[..n][i];
    }
  }

  lemma ComingBackIsOrdered(events: seq<Event>, at: real, calls: seq<nat>)
    requires ClockOrdered(events) && ReadBy(events, at)
    ensures ClockOrdered(events + ComeBack(at, calls))
  {
    var all := events + ComeBack(at, calls);
    forall i | |events| < i < |all| ensures !Timed(all[i]) {
      assert all[i] == Succeeded(calls[i - |events| - 1]);
    }
  }

  /** The successes need not come from probes.  With a clock that does not go back, an open circuit can
      close with no reset and no new call admitted exactly when enough calls from before the outage are still
      under way. */
  lemma StaleSuccessesCloseExactlyWhen(c: Config, events: seq<Event>)
    requires c.successThreshold >= 1 && Run(c, events).state == Open
    requires OutcomesFollowAdmissions(c, events) && ClockOrdered(events)
    ensures (exists more :: ClosesWithoutProbes(c, events, more)) <==> |Outstanding(c, events)| >= c.successThreshold
  {
    if more: seq<Event> :| ClosesWithoutProbes(c, events, more) {
      var all := events + more;
      forall i | 0 <= i < |more| ensures all[|events| + i] == more[i] && !more[i].Reset? {
        assert all[|events| + i] == more[i];
      }
      ClosingIsPaidFor(c, events, more);
      SuccessesAreCalls(more);
      SucceededWereOutstanding(c, events, more);
      SubsetSize(SucceededCalls(more), Outstanding(c, events));
    }
    if |Outstanding(c, events)| >= c.successThreshold {
      var calls := Choose(Outstanding(c, events), c.successThreshold);
      var at := TimeAfter(events, Run(c, events).openedAt + c.recoveryTimeout);
      OutstandingMayReturn(c, events, at, calls);
      ComingBackIsOrdered(events, at, calls);
      ComingBackCloses(c, events, at, calls);
      assert ClosesWithoutProbes(c, events, ComeBack(at, calls));
    }
  }

  /** Two calls are admitted; the second fails and opens the circuit while the first is under way. */
  ghost predicate OneStillOut(c: Config, e: seq<Event>) {
    && |e| == 3 && e[0].Admit? && e[1].Admit? && e[2].Failed? && e[0].call != e[1].call && e[2].call == e[1].call
    && AdmittedAt(c, e, 0) && AdmittedAt(c, e, 1) && Run(c, e).state == Open
  }

  lemma OneIsOutstanding(c: Config, e: seq<Event>)
    requires OneStillOut(c, e)
    ensures OutcomesFollowAdmissions(c, e) && |Outstanding(c, e)| >= 1
  {
    assert AdmittedBefore(c, e, e[2].call, 2);
    assert e[0].call in Outstanding(c, e);
    SubsetSize({e[0].call}, Outstanding(c, e));
  }

  /** The smallest case: a call admitted long before the outage closes the circuit when it comes back. */
  lemma StaleSuccessCloses()
    ensures var c := Config(1, 30.0, 1);
            exists events, more :: Run(c, events).state == Open && ClosesWithoutProbes(c, events, more)
  {
    var c := Config(1, 30.0, 1);
    var e1 := [Admit(0, 0.0)];
    var e2 := e1 + [Admit(1, 1.0)];
    var e3 := e2 + [Failed(1, 2.0)];
    assert e3[..2] == e2 && e3[..1] == e1 && e3[..0] == [] && e2[..1] == e1 && e1[..0] == [];
    assert Run(c, e1) == INITIAL && Run(c, e2) == INITIAL && Run(c, e3) == Breaker(Open, 1, 0, 2.0);
    assert OneStillOut(c, e3);
    OneIsOutstanding(c, e3);
    assert ClockOrdered(e3);
    StaleSuccessesCloseExactlyWhen(c, e3);
  }

  // ---------------------------------------------------------------------------------------------

  datatype Admission = Admitted | CircuitOpen(remaining: real)

  datatype CallResult = Rejected(remaining: real) | Returned | ServiceFailure | OtherFailure

  /** What the wrapped function does: return, raise an expected exception, or raise another one. */
  datatype Outcome = Returns | RaisesExpected | RaisesOther

  class CircuitBreaker {
    const config: Config
    var state: CircuitState
    var failureCount: int
    var successCount: int
    var openedAt: real
    ghost var events: seq<Event>

    ghost function Snapshot(): Breaker
      reads this
    {
      Breaker(state, failureCount, successCount, openedAt)
    }

    /** The fields are what the history of events makes them. */
    ghost predicate Valid()
      reads this
    {
      Snapshot() == Run(config, events)
    }

    constructor (config: Config)
      ensures Valid() && this.config == config && events == []
    {
      this.config := config;
      state, failureCount, successCount, openedAt, events := Closed, 0, 0, 0.0, [];
    }

    ghost method Record(e: Event)
      requires Snapshot() == Step(config, Run(config, events), e)
      modifies this`events
      ensures events == old(events) + [e] && Valid()
    {
      assert (events + [e])[..|events|] == events;
      events := events + [e];
    }

    method MaybePromote(now: real)
      modifies this`state, this`successCount
      ensures Snapshot() == Promoted(config, old(Snapshot()), now)
      ensures old(state) == Open && now >= openedAt + config.recoveryTimeout ==> state == HalfOpen && successCount == 0
      ensures old(state) != Open || now < openedAt + config.recoveryTimeout ==>
                state == old(state) && successCount == old(successCount)
    {
      if state == Open && now - openedAt >= config.recoveryTimeout {
        state := HalfOpen;
        successCount := 0;
      }
    }

    method TransitionToOpen(now: real)
      modifies this`state, this`openedAt, this`successCount
      ensures state == Open && openedAt == now && successCount == 0
    {
      state := Open;
      openedAt := now;
      successCount := 0;
    }

    method State(now: real) returns (s: CircuitState)
      requires Valid()
      modifies this
      ensures Valid() && events == old(events) + [Observe(now)] && s == state
    {
      MaybePromote(now);
      Record(Observe(now));
      s := state;
    }

    /** The first section of a call; `later` is the second clock reading, used for the error only. */
    method Enter(call: nat, now: real, later: real) returns (r: Admission)
      requires Valid() && now <= later
      modifies this
      ensures Valid() && events == old(events) + [Admit(call, now)]
      ensures r.Admitted? <==> Admits(config, Run(config, old(events)), now)
      ensures r.CircuitOpen? ==> openedAt == old(openedAt) && now < openedAt + config.recoveryTimeout
      ensures r.CircuitOpen? && later <= openedAt + config.recoveryTimeout ==>
                later + r.remaining == openedAt + config.recoveryTimeout
      ensures r.CircuitOpen? && later > openedAt + config.recoveryTimeout ==> r.remaining == 0.0
    {
      MaybePromote(now);
      Record(Admit(call, now));
      if state == Open {
        var elapsed := later - openedAt;
        var remaining := config.recoveryTimeout - elapsed;
        return CircuitOpen(if remaining < 0.0 then 0.0 else remaining);
      }
      return Admitted;
    }

    method RecordFailure(call: nat, now: real)
      requires Valid()
      modifies this
      ensures Valid() && events == old(events) + [Failed(call, now)] && failureCount == old(failureCount) + 1
      ensures (old(state) == HalfOpen || (old(state) == Closed && failureCount >= config.failureThreshold)) ==>
                state == Open && openedAt == now && successCount == 0
      ensures (old(state) == Open || (old(state) == Closed && failureCount < config.failureThreshold)) ==>
                state == old(state) && openedAt == old(openedAt) && successCount == old(successCount)
    {
      failureCount := failureCount + 1;
      if state == HalfOpen || (state == Closed && failureCount >= config.failureThreshold) {
        TransitionToOpen(now);
      }
      Record(Failed(call, now));
    }

    method RecordSuccess(call: nat)
      requires Valid()
      modifies this
      ensures Valid() && events == old(events) + [Succeeded(call)] && openedAt == old(openedAt)
      ensures old(state) == HalfOpen && old(successCount) + 1 >= config.successThreshold ==>
                state == Closed && failureCount == 0 && successCount == 0
      ensures old(state) == HalfOpen && old(successCount) + 1 < config.successThreshold ==>
                state == HalfOpen && failureCount == old(failureCount) && successCount == old(successCount) + 1
      ensures old(state) != HalfOpen ==>
                && state == old(state) && successCount == old(successCount)
                && failureCount == if state == Closed then 0 else old(failureCount)
    {
      if state == HalfOpen {
        successCount := successCount + 1;
        if successCount >= config.successThreshold {
          state := Closed;
          failureCount := 0;
          successCount := 0;
        }
      } else if state == Closed {
        failureCount := 0;
      }
      Record(Succeeded(call));
    }

    /** One call that nothing overlaps: an unexpected exception leaves no trace. */
    method Call(call: nat, now: real, outcome: Outcome, finished: real) returns (r: CallResult)
      requires Valid()
      modifies this
      ensures Valid()
      ensures r.Rejected? <==> !Admits(config, Run(config, old(events)), now)
      ensures r.Rejected? ==>
                openedAt == old(openedAt) && r.remaining > 0.0 && now + r.remaining == openedAt + config.recoveryTimeout
      ensures events == old(events) + [Admit(call, now)]
                        + (match r
                           case ServiceFailure => [Failed(call, finished)]
                           case Returned => [Succeeded(call)]
                           case _ => [])
      ensures !r.Rejected? ==>
                r == (match outcome
                      case Returns => Returned
                      case RaisesExpected => ServiceFailure
                      case RaisesOther => OtherFailure)
    {
      var admission := Enter(call, now, now);
      if admission.CircuitOpen? {
        return Rejected(admission.remaining);
      }
      match outcome {
        case RaisesExpected =>
          RecordFailure(call, finished);
          r := ServiceFailure;
        case RaisesOther =>
          r := OtherFailure;
        case Returns =>
          RecordSuccess(call);
          r := Returned;
      }
    }

    method ResetCircuit()
      requires Valid()
      modifies this
      ensures Valid() && events == old(events) + [Reset]
      ensures state == Closed && failureCount == 0 && successCount == 0
    {
      state := Closed;
      failureCount := 0;
      successCount := 0;
      Record(Reset);
    }
  }
}
