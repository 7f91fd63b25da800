/** The Redis-backed limiter for one client: a sorted set of admission times.  A request reads the clock, then prunes
    and counts in one atomic section and, if it is admitted, inserts itself in a second one of its own. */
module RedisRateLimiting {
  import opened Basics

  // Other requests may run in between, so the readings may reach the set in any order.  Every request has its own
  // member in the set.

  type Id = nat

  const WINDOW: int := 60

  /** `entries` is the sorted set; `started` holds the readings of requests not yet checked, `pending`
      those of requests admitted but not yet inserted; `admitted` remembers every admission ever made.
      `clock` is the latest reading and `mark` the highest reading checked so far. */
  datatype State = State(entries: map<Id, real>, started: map<Id, real>, pending: map<Id, real>,
                         admitted: map<Id, real>, clock: real, mark: real)

  datatype Step = Begin(id: Id, now: real) | Check(id: Id) | Insert(id: Id)

  datatype Config = Config(limit: int, concurrency: int)

  /** At most `concurrency` requests are between their reading and their insertion. */
  predicate Proper(c: Config) {
    c.limit >= 1 && c.concurrency >= 1
  }

  function Start(time: real): State {
    State(map[], map[], map[], map[], time, time)
  }

  /** `zremrangebyscore(key, "-inf", now - 60)`: entries exactly 60 seconds old go as well. */
  function Pruned(entries: map<Id, real>, now: real): map<Id, real> {
    map id | id in entries && entries[id] > now - WINDOW as real :: entries[id]
  }

  predicate Admits(c: Config, s: State, now: real) {
    |Pruned(s.entries, now)| < c.limit
  }

  predicate Enabled(c: Config, s: State, step: Step) {
    match step
    case Begin(id, _) => |s.started| + |s.pending| < c.concurrency && id !in s.started && id !in s.admitted
    case Check(id) => id in s.started
    case Insert(id) => id in s.pending
  }

  function Later(x: real, y: real): real {
    if x < y then y else x
  }

  /** The first atomic section of a request. */
  function Checked(c: Config, s: State, id: Id): State
    requires id in s.started
  {
    var now := s.started[id];
    var t := s.(entries := Pruned(s.entries, now), started := s.started - {id}, mark := Later(s.mark, now));
    if Admits(c, s, now) then t.(pending := s.pending[id := now], admitted := s.admitted[id := now]) else t
  }

  function Apply(c: Config, s: State, step: Step): State
    requires Enabled(c, s, step)
  {
    match step
    case Begin(id, now) => s.(started := s.started[id := now], clock := now)
    case Check(id) => Checked(c, s, id)
    case Insert(id) => s.(entries := s.entries[id := s.pending[id]], pending := s.pending - {id})
  }

  /** What a run may assume of the readings: nothing; that they are checked in order; or that the
      clock does not go back. */
  datatype Order = AnyOrder | ChecksInOrder | ClockForward

  predicate Allows(o: Order, s: State, step: Step) {
    match o
    case AnyOrder => true
    case ChecksInOrder => step.Check? && step.id in s.started ==> s.started[step.id] >= s.mark
    case ClockForward => step.Begin? ==> step.now >= s.clock
  }

  ghost predicate IsRun(c: Config, o: Order, states: seq<State>, steps: seq<Step>) {
    && |states| == |steps| + 1
    && states[0] == Start(states[0].clock)
    && (forall i {:trigger steps[i]} :: 0 <= i < |steps| ==> Follows(c, o, states[i], steps[i], states[i + 1]))
  }

  ghost predicate Follows(c: Config, o: Order, s: State, step: Step, t: State) {
    Enabled(c, s, step) && Allows(o, s, step) && t == Apply(c, s, step)
  }

  ghost predicate Reachable(c: Config, o: Order, s: State) {
    exists states: seq<State>, steps: seq<Step> :: IsRun(c, o, states, steps) && states[|steps|] == s
  }

  /** The requests admitted in the half-open window `(t - 60, t]`. */
  function AdmittedWithin(s: State, t: real): set<Id> {
    set id | id in s.admitted && t - WINDOW as real < s.admitted[id] <= t
  }

  // ---------------------------------------------------------------------------------------------
  // Sizes
  // ---------------------------------------------------------------------------------------------

  lemma PruningShrinks(entries: map<Id, real>, now: real)
    ensures |Pruned(entries, now)| <= |entries|
  {
    SubsetSize(Pruned(entries, now).Keys, entries.Keys);
  }

  lemma NewKey(m: map<Id, real>, id: Id, v: real)
    requires id !in m
    ensures |m[id := v]| == |m| + 1
  {
    assert m[id := v].Keys == m.Keys + {id};
  }

  lemma KeyGone(m: map<Id, real>, id: Id)
    requires id in m
    ensures |m - {id}| == |m| - 1
  {
    assert (m - {id}).Keys == m.Keys - {id};
  }

  // ---------------------------------------------------------------------------------------------
  // What every run keeps, whatever the order of the readings
  // ---------------------------------------------------------------------------------------------

  function Bound(c: Config): int { c.limit - 1 + c.concurrency }

  ghost predicate Consistent(s: State) {
    && s.entries.Keys !! s.pending.Keys
    && s.started.Keys !! s.admitted.Keys
    && (forall id :: id in s.entries ==> id in s.admitted && s.entries[id] == s.admitted[id])
    && (forall id :: id in s.pending ==> id in s.admitted && s.pending[id] == s.admitted[id])
  }

  ghost predicate SizesKept(c: Config, s: State) {
    && |s.started| + |s.pending| <= c.concurrency
    && |s.entries| + |s.pending| <= Bound(c)
  }

  lemma CheckKeepsSizes(c: Config, s: State, id: Id)
    requires Proper(c) && Consistent(s) && SizesKept(c, s) && id in s.started
    ensures Consistent(Checked(c, s, id)) && SizesKept(c, Checked(c, s, id))
  {
    PruningShrinks(s.entries, s.started[id]);
    KeyGone(s.started, id);
    NewKey(s.pending, id, s.started[id]);
  }

  lemma InsertKeepsSizes(c: Config, s: State, id: Id)
    requires Consistent(s) && SizesKept(c, s) && id in s.pending
    ensures Consistent(Apply(c, s, Insert(id))) && SizesKept(c, Apply(c, s, Insert(id)))
  {
    NewKey(s.entries, id, s.pending[id]);
    KeyGone(s.pending, id);
  }

  lemma StepKeepsSizes(c: Config, o: Order, s: State, step: Step, t: State)
    requires Proper(c) && Consistent(s) && SizesKept(c, s) && Follows(c, o, s, step, t)
    ensures Consistent(t) && SizesKept(c, t)
  {
    match step
    case Begin(id, now) => NewKey(s.started, id, now);
    case Check(id) => CheckKeepsSizes(c, s, id);
    case Insert(id) => InsertKeepsSizes(c, s, id);
  }

  lemma {:induction false} RunKeepsSizes(c: Config, o: Order, states: seq<State>, steps: seq<Step>, k: nat)
    requires Proper(c) && IsRun(c, o, states, steps) && k <= |steps|
    ensures Consistent(states[k]) && SizesKept(c, states[k])
  {
    if k > 0 {
      RunKeepsSizes(c, o, states, steps, k - 1);
      RunStep(c, o, states, steps, k - 1);
      StepKeepsSizes(c, o, states[k - 1], steps[k - 1], states[k]);
    }
  }

  lemma RunStep(c: Config, o: Order, states: seq<State>, steps: seq<Step>, i: nat)
    requires IsRun(c, o, states, steps) && i < |steps|
    ensures Follows(c, o, states[i], steps[i], states[i + 1])
  {
    assert steps[i] == steps[i];
  }

  /** Racing requests overshoot the limit by at most `concurrency - 1` in the stored set, in whatever
      order their readings reach it and whatever the clock does. */
  lemma StoredSetIsBounded(c: Config, o: Order, s: State)
    requires Proper(c) && Reachable(c, o, s)
    ensures Consistent(s)
    ensures |s.started| + |s.pending| <= c.concurrency
    ensures |s.entries| + |s.pending| <= Bound(c)
  {
    var states: seq<State>, steps: seq<Step> :| IsRun(c, o, states, steps) && states[|steps|] == s;
    RunKeepsSizes(c, o, states, steps, |steps|);
  }

  // ---------------------------------------------------------------------------------------------
  // Windows of admissions, with readings checked in order
  // ---------------------------------------------------------------------------------------------

  ghost predicate WindowsKept(c: Config, s: State) {
    && (forall id :: id in s.admitted ==> s.admitted[id] <= s.mark)
    && (forall id :: id in s.admitted && s.admitted[id] > s.mark - WINDOW as real ==>
          id in s.entries || id in s.pending)
    && (forall t: real :: |AdmittedWithin(s, t)| <= Bound(c))
  }

  ghost predicate Invariant(c: Config, s: State) {
    Consistent(s) && SizesKept(c, s) && WindowsKept(c, s)
  }

  function Live(s: State, now: real): set<Id> {
    Pruned(s.entries, now).Keys + s.pending.Keys
  }

  lemma EarlierAdmissionsAreLive(c: Config, s: State, now: real, t: real)
    requires Invariant(c, s) && s.mark <= now <= t
    ensures AdmittedWithin(s, t) <= Live(s, now)
    ensures |Live(s, now)| <= |Pruned(s.entries, now)| + |s.pending|
  {
    forall id | id in AdmittedWithin(s, t) ensures id in Live(s, now) {
      assert s.admitted[id] > s.mark - WINDOW as real;
    }
    assert |Live(s, now)| == |Pruned(s.entries, now).Keys| + |s.pending.Keys|;
  }

  /** An admission adds at most one to any window, and the windows it enters hold nothing that has
      been pruned: all their earlier admissions are in the set or pending. */
  lemma WindowAfterAdmission(c: Config, s: State, id: Id, t: real)
    requires Invariant(c, s) && id in s.started && s.started[id] >= s.mark && Admits(c, s, s.started[id])
    ensures |AdmittedWithin(Checked(c, s, id), t)| <= Bound(c)
  {
    var u, now := Checked(c, s, id), s.started[id];
    if t - WINDOW as real < now <= t {
      LiveIsSmall(c, s, id, t);
      WindowGrowsByOne(s, u, id, now, t, Live(s, now));
    } else {
      assert AdmittedWithin(u, t) == AdmittedWithin(s, t);
    }
  }

  lemma LiveIsSmall(c: Config, s: State, id: Id, t: real)
    requires Invariant(c, s) && id in s.started && s.mark <= s.started[id] <= t && Admits(c, s, s.started[id])
    ensures AdmittedWithin(s, t) <= Live(s, s.started[id]) && |Live(s, s.started[id])| < Bound(c)
  {
    EarlierAdmissionsAreLive(c, s, s.started[id], t);
    KeyGone(s.started, id);
  }

  lemma WindowGrowsByOne(s: State, u: State, id: Id, now: real, t: real, live: set<Id>)
    requires AdmittedWithin(s, t) <= live && u.admitted == s.admitted[id := now]
    ensures |AdmittedWithin(u, t)| <= |live| + 1
  {
    assert AdmittedWithin(u, t) <= live + {id};
    SubsetSize(AdmittedWithin(u, t), live + {id});
  }

  lemma SameAdmissions(c: Config, s: State, u: State)
    requires u.admitted == s.admitted && forall t: real :: |AdmittedWithin(s, t)| <= Bound(c)
    ensures forall t: real :: |AdmittedWithin(u, t)| <= Bound(c)
  {
    forall t: real ensures |AdmittedWithin(u, t)| <= Bound(c) {
      assert AdmittedWithin(u, t) == AdmittedWithin(s, t);
    }
  }

  lemma CheckKeepsWindows(c: Config, s: State, id: Id)
    requires Proper(c) && Invariant(c, s) && id in s.started && s.started[id] >= s.mark
    ensures WindowsKept(c, Checked(c, s, id))
  {
    var u, now := Checked(c, s, id), s.started[id];
    if Admits(c, s, now) {
      forall t: real ensures |AdmittedWithin(u, t)| <= Bound(c) {
        WindowAfterAdmission(c, s, id, t);
      }
    } else {
      SameAdmissions(c, s, u);
    }
  }

  lemma StepKeepsInvariant(c: Config, s: State, step: Step)
    requires Proper(c) && Invariant(c, s) && Enabled(c, s, step) && Allows(ChecksInOrder, s, step)
    ensures Invariant(c, Apply(c, s, step))
  {
    StepKeepsSizes(c, ChecksInOrder, s, step, Apply(c, s, step));
    if step.Check? {
      CheckKeepsWindows(c, s, step.id);
    } else {
      SameAdmissions(c, s, Apply(c, s, step));
    }
  }

  lemma StartIsInvariant(c: Config, time: real)
    requires Proper(c)
    ensures Invariant(c, Start(time))
  {
    forall t: real ensures |AdmittedWithin(Start(time), t)| <= Bound(c) {
      assert AdmittedWithin(Start(time), t) == {};
    }
  }

  lemma {:induction false} RunKeepsInvariant(c: Config, states: seq<State>, steps: seq<Step>, k: nat)
    requires Proper(c) && IsRun(c, ChecksInOrder, states, steps) && k <= |steps|
    ensures Invariant(c, states[k])
  {
    if k == 0 {
      StartIsInvariant(c, states[0].clock);
    } else {
      RunKeepsInvariant(c, states, steps, k - 1);
      RunStep(c, ChecksInOrder, states, steps, k - 1);
      StepKeepsInvariant(c, states[k - 1], steps[k - 1]);
    }
  }

  lemma OrderedIsInvariant(c: Config, s: State)
    requires Proper(c) && Reachable(c, ChecksInOrder, s)
    ensures Invariant(c, s)
  {
    var states: seq<State>, steps: seq<Step> :| IsRun(c, ChecksInOrder, states, steps) && states[|steps|] == s;
    RunKeepsInvariant(c, states, steps, |steps|);
  }

  /** When readings are checked in order, no 60-second window of admissions exceeds the bound either.
      With one request at a time the limit is exact. */
  lemma OvershootIsBounded(c: Config, s: State, t: real)
    requires Proper(c) && Reachable(c, ChecksInOrder, s)
    ensures |AdmittedWithin(s, t)| <= Bound(c)
    ensures c.concurrency == 1 ==> |AdmittedWithin(s, t)| <= c.limit
  {
    OrderedIsInvariant(c, s);
  }

  /** The same in numbers: however many requests overlap, no window of 60 seconds holds more admissions than
      the limit and one for each request that can be under way beside the first. */
  lemma AdmissionsPerMinute(c: Config, s: State, t: real)
    requires c.limit >= 1 && c.concurrency >= 1 && Reachable(c, ChecksInOrder, s)
    ensures |set id | id in s.admitted && t - 60.0 < s.admitted[id] <= t| <= c.limit - 1 + c.concurrency
    ensures |s.entries| <= c.limit - 1 + c.concurrency - |s.pending|
  {
    OvershootIsBounded(c, s, t);
    StoredSetIsBounded(c, ChecksInOrder, s);
    assert AdmittedWithin(s, t) == set id | id in s.admitted && t - 60.0 < s.admitted[id] <= t;
  }

  /** A request that nothing overlaps takes the machine through its three steps to what the code stores. */
  lemma UninterruptedRequest(c: Config, s: State, id: Id, now: real)
    requires Enabled(c, s, Begin(id, now))
    ensures var live := map x | x in s.entries && s.entries[x] > now - 60.0 :: s.entries[x];
            var checked := Apply(c, Apply(c, s, Begin(id, now)), Check(id));
            && (id in checked.admitted <==> |live| < c.limit)
            && (id in checked.admitted ==> Enabled(c, checked, Insert(id)) && checked.admitted[id] == now
                                           && Apply(c, checked, Insert(id)).entries == live[id := now])
            && (id !in checked.admitted ==> checked.entries == live && checked.admitted == s.admitted)
  {
    var live := map x | x in s.entries && s.entries[x] > now - 60.0 :: s.entries[x];
    assert Pruned(s.entries, now) == live;
  }

  /** A request that runs alone checks the reading it has just taken. */
  ghost predicate OneAtATime(s: State) {
    s.mark <= s.clock && |s.started| <= 1 && forall id :: id in s.started ==> s.started[id] == s.clock
  }

  lemma {:induction false} SequentialRunIsOrdered(c: Config, states: seq<State>, steps: seq<Step>, k: nat)
    requires c.limit >= 1 && c.concurrency == 1 && IsRun(c, ClockForward, states, steps) && k <= |steps|
    ensures OneAtATime(states[k])
    ensures k < |steps| ==> Allows(ChecksInOrder, states[k], steps[k])
  {
    if k > 0 {
      SequentialRunIsOrdered(c, states, steps, k - 1);
      RunStep(c, ClockForward, states, steps, k - 1);
      RunKeepsSizes(c, ClockForward, states, steps, k);
      if steps[k - 1].Begin? {
        assert states[k - 1].started.Keys == {};
      }
    }
  }

  /** With one request at a time and a clock that does not go back, readings are checked in order, so
      the limit is exact. */
  lemma SequentialLimitIsExact(limit: int, s: State, t: real)
    requires limit >= 1 && Reachable(Config(limit, 1), ClockForward, s)
    ensures |AdmittedWithin(s, t)| <= limit
  {
    var c := Config(limit, 1);
    var states: seq<State>, steps: seq<Step> :| IsRun(c, ClockForward, states, steps) && states[|steps|] == s;
    forall i {:trigger steps[i]} | 0 <= i < |steps|
      ensures Follows(c, ChecksInOrder, states[i], steps[i], states[i + 1])
    {
      assert Follows(c, ClockForward, states[i], steps[i], states[i + 1]);
      SequentialRunIsOrdered(c, states, steps, i);
    }
    assert IsRun(c, ChecksInOrder, states, steps);
    OvershootIsBounded(c, s, t);
  }

  // ---------------------------------------------------------------------------------------------
  // Runs that fill the set
  // ---------------------------------------------------------------------------------------------

  lemma Then(c: Config, o: Order, s: State, step: Step) returns (t: State)
    requires Reachable(c, o, s) && Enabled(c, s, step) && Allows(o, s, step)
    ensures Reachable(c, o, t) && t == Apply(c, s, step)
  {
    t := Apply(c, s, step);
    var states: seq<State>, steps: seq<Step> :| IsRun(c, o, states, steps) && states[|steps|] == s;
    RunSnoc(c, o, states, steps, step);
    assert (states + [t])[|steps + [step]|] == t;
  }

  lemma RunSnoc(c: Config, o: Order, states: seq<State>, steps: seq<Step>, step: Step)
    requires IsRun(c, o, states, steps)
    requires Enabled(c, states[|steps|], step) && Allows(o, states[|steps|], step)
    ensures IsRun(c, o, states + [Apply(c, states[|steps|], step)], steps + [step])
  {
    var states', steps' := states + [Apply(c, states[|steps|], step)], steps + [step];
    forall i {:trigger steps'[i]} | 0 <= i < |steps'|
      ensures Follows(c, o, states'[i], steps'[i], states'[i + 1])
    {
      assert states'[i] == states[i];
      if i < |steps| {
        assert steps'[i] == steps[i] && states'[i + 1] == states[i + 1];
        assert Follows(c, o, states[i], steps[i], states[i + 1]);
      }
    }
  }

  lemma StartIsReachable(c: Config, o: Order, time: real)
    ensures Reachable(c, o, Start(time))
  {
    var none: seq<Step> := [];
    assert IsRun(c, o, [Start(time)], none) && [Start(time)][|none|] == Start(time);
  }

  /** Apart from the earlier admissions `past` and entries that are too old, there are requests
      admitted at `time` only: `inserted` of them in the set and `raced` still to be inserted.  All
      names are below `next`. */
  ghost predicate Filled(past: map<Id, real>, time: real, next: Id, inserted: nat, raced: nat, s: State) {
    && Consistent(s) && AllAt(past, time, next, s) && s.started == map[] && s.clock <= time && s.mark <= time
    && |Pruned(s.entries, time)| == inserted && |s.pending| == raced
    && |s.admitted| == |past| + inserted + raced
  }

  ghost predicate AllAt(past: map<Id, real>, time: real, next: Id, s: State) {
    && (forall id :: id in s.admitted ==> id < next && s.admitted[id] == if id in past then past[id] else time)
    && (forall id :: id in s.pending ==> s.pending[id] == time)
    && (forall id :: id in s.entries ==> s.entries[id] <= time)
  }

  /** The next request reads and checks the clock at `time`. */
  lemma NextRaces(c: Config, o: Order, past: map<Id, real>, time: real, next: Id, inserted: nat, raced: nat, s: State)
    requires Filled(past, time, next, inserted, raced, s) && inserted < c.limit && raced < c.concurrency
    requires forall id :: id in past ==> id < next
    ensures Enabled(c, s, Begin(next, time)) && Allows(o, s, Begin(next, time))
    ensures var t := Apply(c, s, Begin(next, time));
            && Allows(o, t, Check(next))
            && Filled(past, time, next + 1, inserted, raced + 1, Checked(c, t, next))
  {
    var t := Apply(c, s, Begin(next, time));
    var u := Checked(c, t, next);
    assert u.started == map[] && Admits(c, t, time);
    RacedIsFilled(past, time, next, inserted, raced, s, u);
  }

  lemma RacedIsFilled(past: map<Id, real>, time: real, next: Id, inserted: nat, raced: nat, s: State, u: State)
    requires Filled(past, time, next, inserted, raced, s) && forall id :: id in past ==> id < next
    requires u == State(Pruned(s.entries, time), map[], s.pending[next := time], s.admitted[next := time], time, u.mark)
    requires u.mark <= time
    ensures Filled(past, time, next + 1, inserted, raced + 1, u)
  {
    assert Pruned(u.entries, time) == Pruned(s.entries, time);
    NewKey(s.pending, next, time);
    NewKey(s.admitted, next, time);
  }

  lemma RaceOne(c: Config, o: Order, past: map<Id, real>, time: real, next: Id, inserted: nat, raced: nat, s: State)
    returns (t: State)
    requires Reachable(c, o, s) && Filled(past, time, next, inserted, raced, s)
    requires inserted < c.limit && raced < c.concurrency && forall id :: id in past ==> id < next
    ensures Reachable(c, o, t) && Filled(past, time, next + 1, inserted, raced + 1, t)
  {
    NextRaces(c, o, past, time, next, inserted, raced, s);
    t := Then(c, o, s, Begin(next, time));
    t := Then(c, o, t, Check(next));
  }

  lemma InsertedAllAt(c: Config, past: map<Id, real>, time: real, next: Id, s: State, id: Id)
    requires Consistent(s) && AllAt(past, time, next, s) && id in s.pending
    ensures Consistent(Apply(c, s, Insert(id))) && AllAt(past, time, next, Apply(c, s, Insert(id)))
  { }

  lemma InsertedSizes(c: Config, time: real, s: State, id: Id)
    requires Consistent(s) && id in s.pending && s.pending[id] == time
    ensures var t := Apply(c, s, Insert(id));
            |Pruned(t.entries, time)| == |Pruned(s.entries, time)| + 1 && |t.pending| == |s.pending| - 1
  {
    var t := Apply(c, s, Insert(id));
    KeyGone(s.pending, id);
    assert Pruned(t.entries, time) == Pruned(s.entries, time)[id := time];
    NewKey(Pruned(s.entries, time), id, time);
  }

  lemma NextIsInserted(c: Config, past: map<Id, real>, time: real, next: Id, inserted: nat, raced: nat, s: State,
                       id: Id)
    requires Filled(past, time, next, inserted, raced, s) && id in s.pending
    ensures raced > 0 && Filled(past, time, next, inserted + 1, raced - 1, Apply(c, s, Insert(id)))
  {
    InsertedAllAt(c, past, time, next, s, id);
    InsertedSizes(c, time, s, id);
  }

  lemma InsertOne(c: Config, o: Order, past: map<Id, real>, time: real, next: Id, inserted: nat, raced: nat, s: State)
    returns (t: State)
    requires Reachable(c, o, s) && Filled(past, time, next, inserted, raced, s) && raced > 0
    ensures Reachable(c, o, t) && Filled(past, time, next, inserted + 1, raced - 1, t)
  {
    assert s.pending.Keys != {};
    var id :| id in s.pending.Keys;
    NextIsInserted(c, past, time, next, inserted, raced, s, id);
    t := Then(c, o, s, Insert(id));
  }

  lemma {:induction false} InsertAll(c: Config, o: Order, past: map<Id, real>, time: real, next: Id, inserted: nat,
                                     raced: nat, s: State)
    returns (t: State)
    requires Reachable(c, o, s) && Filled(past, time, next, inserted, raced, s)
    ensures Reachable(c, o, t) && Filled(past, time, next, inserted + raced, 0, t)
    decreases raced
  {
    t := s;
    if raced > 0 {
      t := InsertOne(c, o, past, time, next, inserted, raced, s);
      t := InsertAll(c, o, past, time, next, inserted + 1, raced - 1, t);
    }
  }

  /** One request that nobody races: it reads, checks and inserts itself. */
  lemma AdmitOne(c: Config, o: Order, past: map<Id, real>, time: real, next: Id, inserted: nat, s: State)
    returns (t: State)
    requires Reachable(c, o, s) && Filled(past, time, next, inserted, 0, s)
    requires inserted < c.limit && c.concurrency >= 1 && forall id :: id in past ==> id < next
    ensures Reachable(c, o, t) && Filled(past, time, next + 1, inserted + 1, 0, t)
  {
    t := RaceOne(c, o, past, time, next, inserted, 0, s);
    t := InsertOne(c, o, past, time, next + 1, inserted, 1, t);
  }

  lemma {:induction false} AdmitSome(c: Config, o: Order, past: map<Id, real>, time: real, next: Id, inserted: nat,
                                     s: State)
    returns (t: State)
    requires Reachable(c, o, s) && Filled(past, time, next, 0, 0, s) && forall id :: id in past ==> id < next
    requires inserted < c.limit && c.concurrency >= 1
    ensures Reachable(c, o, t) && Filled(past, time, next + inserted, inserted, 0, t)
  {
    t := s;
    if inserted > 0 {
      t := AdmitSome(c, o, past, time, next, inserted - 1, s);
      t := AdmitOne(c, o, past, time, next + inserted - 1, inserted - 1, t);
    }
  }

  lemma {:induction false} FillUp(c: Config, o: Order, past: map<Id, real>, time: real, next: Id, inserted: nat,
                                  raced: nat, s: State)
    returns (t: State)
    requires Reachable(c, o, s) && Filled(past, time, next, 0, 0, s) && forall id :: id in past ==> id < next
    requires inserted < c.limit && raced <= c.concurrency && c.concurrency >= 1
    ensures Reachable(c, o, t) && Filled(past, time, next + inserted + raced, inserted, raced, t)
    decreases raced
  {
    if raced == 0 {
      t := AdmitSome(c, o, past, time, next, inserted, s);
    } else {
      t := FillUp(c, o, past, time, next, inserted, raced - 1, s);
      t := RaceOne(c, o, past, time, next + inserted + raced - 1, inserted, raced - 1, t);
    }
  }

  /** As many admissions at one time as the bound allows, all of them in the set. */
  lemma FillCompletely(c: Config, o: Order, past: map<Id, real>, time: real, next: Id, s: State) returns (t: State)
    requires Proper(c) && Reachable(c, o, s) && Filled(past, time, next, 0, 0, s)
    requires forall id :: id in past ==> id < next
    ensures Reachable(c, o, t) && Filled(past, time, next + Bound(c), Bound(c), 0, t)
  {
    t := FillUp(c, o, past, time, next, c.limit - 1, c.concurrency, s);
    t := InsertAll(c, o, past, time, next + Bound(c), c.limit - 1, c.concurrency, t);
  }

  lemma FullFromStart(c: Config, o: Order, time: real) returns (s: State)
    requires Proper(c)
    ensures Reachable(c, o, s) && Filled(map[], time, Bound(c), Bound(c), 0, s)
    ensures |s.admitted.Keys| == Bound(c) && s.pending == map[]
  {
    StartIsReachable(c, o, time);
    assert Pruned(Start(time).entries, time) == map[];
    assert Filled(map[], time, 0, 0, 0, Start(time));
    s := FillCompletely(c, o, map[], time, 0, Start(time));
  }

  /** The bound is tight: for every limit and degree of concurrency some run reaches it, with readings
      in order and a clock that does not go back. */
  lemma OvershootIsReached(c: Config, o: Order, time: real)
    requires Proper(c)
    ensures exists s :: Reachable(c, o, s) && |AdmittedWithin(s, time)| == Bound(c)
  {
    var s := FullFromStart(c, o, time);
    assert AdmittedWithin(s, time) == s.admitted.Keys;
  }

  // ---------------------------------------------------------------------------------------------
  // Closed windows
  // ---------------------------------------------------------------------------------------------

  /** The requests admitted in the closed window `[t - 60, t]`. */
  function AdmittedWithinClosed(s: State, t: real): set<Id> {
    set id | id in s.admitted && t - WINDOW as real <= s.admitted[id] <= t
  }

  function AdmittedAt(s: State, t: real): set<Id> {
    set id | id in s.admitted && s.admitted[id] == t
  }

  /** A closed window exceeds the half-open one by the admissions exactly at its left end, and so never
      holds more than twice the bound. */
  lemma ClosedWindowsAreBounded(c: Config, s: State, t: real)
    requires Proper(c) && Reachable(c, ChecksInOrder, s)
    ensures |AdmittedWithinClosed(s, t)| == |AdmittedWithin(s, t)| + |AdmittedAt(s, t - WINDOW as real)| <= 2 * Bound(c)
  {
    var left := t - WINDOW as real;
    assert AdmittedWithinClosed(s, t) == AdmittedWithin(s, t) + AdmittedAt(s, left);
    OvershootIsBounded(c, s, t);
    OvershootIsBounded(c, s, left);
    SubsetSize(AdmittedAt(s, left), AdmittedWithin(s, left));
  }

  /** Twice the bound is reached, in every configuration: entries exactly 60 seconds old are dropped. */
  lemma ClosedWindowCanHoldTwice(c: Config, o: Order, t: real)
    requires Proper(c)
    ensures exists s :: Reachable(c, o, s) && |AdmittedWithinClosed(s, t)| == 2 * Bound(c)
  {
    var n, left := Bound(c), t - WINDOW as real;
    var s := FullFromStart(c, o, left);
    assert Pruned(s.entries, t) == map[];
    assert Filled(s.admitted, t, n, 0, 0, s);
    var u := FillCompletely(c, o, s.admitted, t, n, s);
    assert |u.admitted.Keys| == |s.admitted.Keys| + n;
    assert AdmittedWithinClosed(u, t) == u.admitted.Keys;
  }

  // ---------------------------------------------------------------------------------------------
  // Readings that are checked out of order
  // ---------------------------------------------------------------------------------------------

  /** After any run with readings in order up to `mark`, a check at `reading` leaves every window
      within the bound. */
  ghost predicate ReadingKeepsBound(c: Config, mark: real, reading: real) {
    forall s, id, t: real ::
      Reachable(c, ChecksInOrder, s) && s.mark == mark && id in s.started && s.started[id] == reading ==>
        |AdmittedWithin(Checked(c, s, id), t)| <= Bound(c)
  }

  /** `s` is such a run's end, and the check of `id` at `reading` puts one request too many into the
      window that ends at `reading`. */
  ghost predicate Overflows(c: Config, o: Order, s: State, id: Id, mark: real, reading: real) {
    && Reachable(c, o, s) && s.mark == mark && id in s.started && s.started[id] == reading
    && |AdmittedWithin(Checked(c, s, id), reading)| == Bound(c) + 1
  }

  /** All of `m` is from `time`; since then one request was admitted at `mark`, and one at `reading`. */
  lemma OneMoreInTheWindow(m: map<Id, real>, u: State, id: Id, time: real, mark: real, reading: real)
    requires reading - WINDOW as real < time <= reading < mark
    requires forall k :: k in m ==> k < id && m[k] == time
    requires u.admitted == m[id + 1 := mark][id := reading]
    ensures |AdmittedWithin(u, reading)| == |m| + 1
  {
    assert AdmittedWithin(u, reading) == m.Keys + {id};
  }

  lemma OneTooMany(c: Config, full: State, s: State, id: Id, time: real, mark: real, reading: real)
    requires Proper(c) && Filled(map[], time, Bound(c), Bound(c), 0, full)
    requires id in s.started && s.started[id] == reading && id == Bound(c) && Admits(c, s, reading)
    requires reading - WINDOW as real < time <= reading < mark
    requires s.admitted == full.admitted[id + 1 := mark]
    ensures |AdmittedWithin(Checked(c, s, id), reading)| == Bound(c) + 1
  {
    assert |full.admitted| == Bound(c);
    OneMoreInTheWindow(full.admitted, Checked(c, s, id), id, time, mark, reading);
  }

  /** A time within the window before `reading` but no longer in the one before `mark`. */
  function Between(mark: real, reading: real): (time: real)
    requires reading < mark
    ensures reading - WINDOW as real < time <= reading && time <= mark - WINDOW as real
  {
    if mark - WINDOW as real <= reading then mark - WINDOW as real else reading
  }

  lemma NothingLeft(s: State, n: nat, time: real, mark: real)
    requires Filled(map[], time, n, n, 0, s) && time <= mark - WINDOW as real
    ensures Pruned(s.entries, mark) == map[]
  { }

  lemma TwoBegin(c: Config, o: Order, s: State, id: Id, mark: real, reading: real) returns (t: State)
    requires c.concurrency >= 2 && s.clock <= reading < mark
    requires Reachable(c, o, s) && s.started == map[] && s.pending == map[] && forall k :: k in s.admitted ==> k < id
    ensures Reachable(c, o, t) && t == s.(started := map[id := reading, id + 1 := mark], clock := mark)
  {
    t := Then(c, o, s, Begin(id, reading));
    assert |map[id := reading]| == 1;
    t := Then(c, o, t, Begin(id + 1, mark));
  }

  /** The second of two requests is checked first, after everything in the set has expired. */
  lemma SecondIsCheckedFirst(c: Config, s: State, id: Id, mark: real, reading: real)
    requires Proper(c) && s.mark <= mark && Pruned(s.entries, mark) == map[]
    requires s.started == map[id := reading, id + 1 := mark] && s.pending == map[]
    ensures Checked(c, s, id + 1)
         == State(map[], map[id := reading], map[id + 1 := mark], s.admitted[id + 1 := mark], s.clock, mark)
  {
    assert Admits(c, s, mark);
    assert s.started - {id + 1} == map[id := reading];
  }

  lemma Overtaken(c: Config, o: Order, full: State, id: Id, mark: real, reading: real) returns (s: State)
    requires Proper(c) && c.concurrency >= 2 && full.clock <= reading < mark && full.mark <= mark
    requires Reachable(c, o, full) && full.started == map[] && full.pending == map[]
    requires Pruned(full.entries, mark) == map[] && forall k :: k in full.admitted ==> k < id
    ensures Reachable(c, o, s) && s.entries == map[] && s.mark == mark
    ensures s.started == map[id := reading] && s.admitted == full.admitted[id + 1 := mark]
  {
    var both := TwoBegin(c, o, full, id, mark, reading);
    SecondIsCheckedFirst(c, both, id, mark, reading);
    s := Then(c, o, both, Check(id + 1));
  }

  /** With two requests under way the clock need not go back for that: the one that read first is
      overtaken. */
  lemma OvertakenReadingOverflows(c: Config, o: Order, mark: real, reading: real) returns (s: State, id: Id)
    requires Proper(c) && c.concurrency >= 2 && reading < mark
    ensures Overflows(c, o, s, id, mark, reading)
  {
    var time := Between(mark, reading);
    var full := FullFromStart(c, o, time);
    NothingLeft(full, Bound(c), time, mark);
    id := Bound(c);
    s := Overtaken(c, o, full, id, mark, reading);
    NobodyLeft(c, s, reading);
    OneTooMany(c, full, s, id, time, mark, reading);
  }

  lemma NobodyLeft(c: Config, s: State, now: real)
    requires Proper(c) && s.entries == map[]
    ensures Admits(c, s, now)
  {
    assert Pruned(s.entries, now) == map[];
  }

  /** With one request at a time and a limit of two or more, a clock that goes back does the same. */
  lemma BackwardReadingOverflows(c: Config, mark: real, reading: real) returns (s: State, id: Id)
    requires c.limit >= 2 && c.concurrency == 1 && reading < mark
    ensures Overflows(c, ChecksInOrder, s, id, mark, reading)
  {
    var o, time := ChecksInOrder, Between(mark, reading);
    var full := FullFromStart(c, o, time);
    NothingLeft(full, Bound(c), time, mark);
    id := Bound(c);
    s := Then(c, o, full, Begin(id + 1, mark));
    s := Then(c, o, s, Check(id + 1));
    assert s.pending == map[id + 1 := mark] && s.started == map[];
    s := Then(c, o, s, Insert(id + 1));
    assert s.entries == map[id + 1 := mark] && s.pending == map[];
    s := Then(c, o, s, Begin(id, reading));
    assert Pruned(s.entries, reading) == map[id + 1 := mark];
    OneTooMany(c, full, s, id, time, mark, reading);
  }

  /** With a limit of one and no concurrency somebody always occupies the last 60 seconds before the
      mark. */
  ghost predicate Occupied(s: State) {
    s.admitted == map[] ||
    exists id :: id in s.admitted && s.admitted[id] > s.mark - WINDOW as real && (id in s.entries || id in s.pending)
  }

  lemma StepKeepsOccupied(c: Config, s: State, step: Step)
    requires c == Config(1, 1) && Invariant(c, s) && Occupied(s)
    requires Enabled(c, s, step) && Allows(ChecksInOrder, s, step)
    ensures Occupied(Apply(c, s, step))
  {
    var u := Apply(c, s, step);
    if step.Check? {
      var now := s.started[step.id];
      KeyGone(s.started, step.id);
      if Admits(c, s, now) {
        assert step.id in u.admitted && u.admitted[step.id] == now && step.id in u.pending;
      } else {
        assert Pruned(s.entries, now).Keys != {};
        var id :| id in Pruned(s.entries, now);
        assert id in u.admitted && id in u.entries;
      }
    } else if s.admitted != map[] {
      var id :| id in s.admitted && s.admitted[id] > s.mark - WINDOW as real && (id in s.entries || id in s.pending);
      assert id in u.admitted && (id in u.entries || id in u.pending);
    }
  }

  lemma {:induction false} RunKeepsOccupied(states: seq<State>, steps: seq<Step>, k: nat)
    requires IsRun(Config(1, 1), ChecksInOrder, states, steps) && k <= |steps|
    ensures Occupied(states[k])
  {
    var c := Config(1, 1);
    if k > 0 {
      RunKeepsOccupied(states, steps, k - 1);
      RunKeepsInvariant(c, states, steps, k - 1);
      RunStep(c, ChecksInOrder, states, steps, k - 1);
      StepKeepsOccupied(c, states[k - 1], steps[k - 1]);
    }
  }

  lemma SingleNeedsNoOrder(s: State, id: Id, t: real)
    requires Reachable(Config(1, 1), ChecksInOrder, s) && id in s.started
    ensures |AdmittedWithin(Checked(Config(1, 1), s, id), t)| <= 1
  {
    var c := Config(1, 1);
    var u, now := Checked(c, s, id), s.started[id];
    OrderedIsInvariant(c, s);
    if now >= s.mark {
      CheckKeepsWindows(c, s, id);
    } else {
      var states: seq<State>, steps: seq<Step> :| IsRun(c, ChecksInOrder, states, steps) && states[|steps|] == s;
      RunKeepsOccupied(states, steps, |steps|);
      KeyGone(s.started, id);
      if s.admitted == map[] {
        SubsetSize(AdmittedWithin(u, t), {id});
      } else {
        var e :| e in s.admitted && s.admitted[e] > s.mark - WINDOW as real && (e in s.entries || e in s.pending);
        assert s.pending.Keys == {} && e in Pruned(s.entries, now);
        assert !Admits(c, s, now) by { SubsetSize({e}, Pruned(s.entries, now).Keys); }
        SameAdmissions(c, s, u);
      }
    }
  }

  /** The exact condition on the readings: after readings in order up to `mark`, a check is harmless
      whatever went before exactly when its reading is not below the mark, or the bound is one. */
  lemma WindowBoundExactlyWhen(c: Config, mark: real, reading: real)
    requires Proper(c)
    ensures ReadingKeepsBound(c, mark, reading) <==> reading >= mark || Bound(c) == 1
  {
    if reading >= mark {
      forall s, id, t: real
        | Reachable(c, ChecksInOrder, s) && s.mark == mark && id in s.started && s.started[id] == reading
        ensures |AdmittedWithin(Checked(c, s, id), t)| <= Bound(c)
      {
        OrderedIsInvariant(c, s);
        CheckKeepsWindows(c, s, id);
      }
    } else if Bound(c) == 1 {
      forall s, id, t: real
        | Reachable(c, ChecksInOrder, s) && s.mark == mark && id in s.started && s.started[id] == reading
        ensures |AdmittedWithin(Checked(c, s, id), t)| <= Bound(c)
      {
        SingleNeedsNoOrder(s, id, t);
      }
    } else {
      var s, id;
      if c.concurrency >= 2 {
        s, id := OvertakenReadingOverflows(c, ChecksInOrder, mark, reading);
      } else {
        s, id := BackwardReadingOverflows(c, mark, reading);
      }
      assert Overflows(c, ChecksInOrder, s, id, mark, reading);
    }
  }

  // ---------------------------------------------------------------------------------------------
  // retry_after
  // ---------------------------------------------------------------------------------------------

  /** Python's `int` on a real: truncation towards zero. */
  function Truncate(x: real): int {
    if x >= 0.0 then x.Floor else -((-x).Floor)
  }

  function RetryAfter(oldest: real, now: real): int {
    var r := Truncate(oldest + WINDOW as real - now) + 1;
    if r < 1 then 1 else r
  }

  /** In seconds: the wait is the time until the oldest entry is a minute old, rounded up beyond it, and a
      second if that time has passed. */
  lemma RetryAfterIs(oldest: real, now: real)
    ensures var r, left := RetryAfter(oldest, now), oldest + 60.0 - now;
            if left < 0.0 then r == 1 else r as real - 1.0 <= left < r as real
  { }

  predicate IsOldest(entries: map<Id, real>, oldest: real) {
    && (exists id :: id in entries && entries[id] == oldest)
    && (forall id :: id in entries ==> oldest <= entries[id])
  }

  /** Waiting makes the oldest entry leave, and never takes a second longer than needed for that. */
  lemma WaitingReleasesTheOldest(entries: map<Id, real>, oldest: real, now: real)
    requires IsOldest(entries, oldest) && Pruned(entries, now) == entries
    ensures var r := RetryAfter(oldest, now);
            && oldest <= now + r as real - WINDOW as real
            && r as real - 1.0 <= oldest + WINDOW as real - now
            && |Pruned(entries, now + r as real)| < |entries|
  {
    var r := RetryAfter(oldest, now);
    var id :| id in entries && entries[id] == oldest;
    assert id in Pruned(entries, now);
    var later := Pruned(entries, now + r as real);
    assert later.Keys <= entries.Keys - {id};
    SubsetSize(later.Keys, entries.Keys - {id});
  }

  /** Between states `k` and `j` nobody is admitted, and no reading checked is beyond `later`. */
  ghost predicate NobodyElse(c: Config, states: seq<State>, steps: seq<Step>, k: nat, j: nat, later: real)
    requires |states| == |steps| + 1 && k <= j <= |steps|
  {
    forall i {:trigger steps[i]} :: k <= i < j && steps[i].Check? && steps[i].id in states[i].started ==>
      !Admits(c, states[i], states[i].started[steps[i].id]) && states[i].started[steps[i].id] <= later
  }

  /** Who is in the set of `u`, or would be had it not been pruned, among those that `s` knew of. */
  function Waiting(s: State, u: State): set<Id> {
    (s.entries.Keys + s.pending.Keys) - u.pending.Keys
  }

  function Expired(s: State, u: State, later: real): set<Id> {
    set id | id in Waiting(s, u) && id in s.admitted && s.admitted[id] <= later - WINDOW as real
  }

  ghost predicate Remains(s: State, u: State, later: real) {
    && u.admitted == s.admitted && u.pending.Keys <= s.pending.Keys && u.entries.Keys <= Waiting(s, u)
    && Pruned(u.entries, later).Keys == Waiting(s, u) - Expired(s, u, later)
  }

  lemma CheckRemains(s: State, u: State, t: State, now: real, later: real)
    requires Remains(s, u, later) && now <= later
    requires t.entries == Pruned(u.entries, now) && t.pending == u.pending && t.admitted == u.admitted
    ensures Remains(s, t, later)
  {
    assert Pruned(t.entries, later) == Pruned(u.entries, later);
  }

  lemma InsertRemains(s: State, u: State, t: State, id: Id, later: real)
    requires Consistent(s) && Consistent(u) && Remains(s, u, later) && id in u.pending
    requires t.entries == u.entries[id := u.pending[id]] && t.pending == u.pending - {id} && t.admitted == u.admitted
    ensures Remains(s, t, later)
  {
    var late := u.pending[id] > later - WINDOW as real;
    assert id in s.pending && u.pending[id] == s.admitted[id] && id !in u.entries && id !in s.entries;
    PrunedWithNew(u.entries, id, u.pending[id], later);
    WaitingWithNew(s, u, t, id, later);
  }

  lemma PrunedWithNew(entries: map<Id, real>, id: Id, time: real, now: real)
    requires id !in entries
    ensures Pruned(entries[id := time], now).Keys
         == Pruned(entries, now).Keys + if time > now - WINDOW as real then {id} else {}
  { }

  lemma WaitingWithNew(s: State, u: State, t: State, id: Id, later: real)
    requires id in u.pending && id in s.pending && id in s.admitted && t.pending == u.pending - {id}
    ensures Waiting(s, t) == Waiting(s, u) + {id}
    ensures Expired(s, t, later) == Expired(s, u, later) + if s.admitted[id] > later - WINDOW as real then {} else {id}
  { }

  lemma StepRemains(c: Config, s: State, u: State, step: Step, later: real)
    requires Consistent(s) && Consistent(u) && Remains(s, u, later) && Enabled(c, u, step)
    requires step.Check? ==> !Admits(c, u, u.started[step.id]) && u.started[step.id] <= later
    ensures Remains(s, Apply(c, u, step), later)
  {
    var t := Apply(c, u, step);
    match step
    case Begin(_, _) =>
    case Check(id) => CheckRemains(s, u, t, u.started[id], later);
    case Insert(id) => InsertRemains(s, u, t, id, later);
  }

  lemma {:induction false} RunRemains(c: Config, o: Order, states: seq<State>, steps: seq<Step>, k: nat, j: nat,
                                      later: real)
    requires Proper(c) && IsRun(c, o, states, steps) && k <= j <= |steps| && NobodyElse(c, states, steps, k, j, later)
    ensures Remains(states[k], states[j], later)
    decreases j
  {
    RunKeepsSizes(c, o, states, steps, k);
    if k < j {
      RunRemains(c, o, states, steps, k, j - 1, later);
      RunKeepsSizes(c, o, states, steps, j - 1);
      RunStep(c, o, states, steps, j - 1);
      StepRemains(c, states[k], states[j - 1], steps[j - 1], later);
    }
  }

  /** At step `k - 1` a request that read `now` was rejected. */
  ghost predicate Rejected(c: Config, states: seq<State>, steps: seq<Step>, k: nat, now: real)
    requires |states| == |steps| + 1 && k <= |steps|
  {
    && k > 0 && steps[k - 1].Check? && steps[k - 1].id in states[k - 1].started
    && now == states[k - 1].started[steps[k - 1].id] && !Admits(c, states[k - 1], now)
  }

  /** What a request rejected at `now` announces.  It reads the oldest entry in a round trip of its own, so
      other steps may have come between, and the set may even be empty by then. */
  ghost predicate Announced(s: State, now: real, later: real) {
    if s.entries == map[] then later == now + WINDOW as real
    else exists oldest :: IsOldest(s.entries, oldest) && later == now + RetryAfter(oldest, now) as real
  }

  lemma RemainsCounts(c: Config, s: State, u: State, later: real)
    requires Remains(s, u, later)
    ensures Admits(c, u, later) <==> |Expired(s, u, later)| >= |Waiting(s, u)| - c.limit + 1
  {
    var w, e := Waiting(s, u), Expired(s, u, later);
    assert e <= w && |w - e| == |w| - |e|;
    assert |Pruned(u.entries, later)| == |Pruned(u.entries, later).Keys|;
  }

  /** If nobody else is admitted, a request at any later time, the announced one among them, is admitted
      exactly when enough of those that were in the set, or on their way into it, have left the window by
      then. */
  lemma RetrySucceedsExactlyWhen(c: Config, o: Order, states: seq<State>, steps: seq<Step>, k: nat, j: nat, later: real)
    requires Proper(c) && IsRun(c, o, states, steps) && k <= j <= |steps| && NobodyElse(c, states, steps, k, j, later)
    ensures Admits(c, states[j], later)
       <==> |Expired(states[k], states[j], later)| >= |Waiting(states[k], states[j])| - c.limit + 1
  {
    RunRemains(c, o, states, steps, k, j, later);
    RemainsCounts(c, states[k], states[j], later);
  }

  /** With one request at a time the announced time, wherever between the rejection and the retry the oldest
      entry is read, always suffices. */
  lemma RetrySucceedsWithoutRaces(limit: int, o: Order, states: seq<State>, steps: seq<Step>, k: nat, m: nat, j: nat,
                                  now: real, later: real)
    requires limit >= 1 && IsRun(Config(limit, 1), o, states, steps) && k <= m <= j <= |steps|
    requires Rejected(Config(limit, 1), states, steps, k, now) && Announced(states[m], now, later)
    requires NobodyElse(Config(limit, 1), states, steps, k, j, later)
    ensures Admits(Config(limit, 1), states[j], later)
  {
    var c := Config(limit, 1);
    RejectedAlone(limit, o, states, steps, k, now);
    NobodyElseUpTo(c, states, steps, k, m, j, later);
    RunKeepsSizes(c, o, states, steps, m);
    RunRemains(c, o, states, steps, k, m, later);
    RunRemains(c, o, states, steps, k, j, later);
    AnnouncedSuffices(c, states[k], states[m], states[j], now, later);
  }

  lemma AnnouncedSuffices(c: Config, s: State, u: State, v: State, now: real, later: real)
    requires Consistent(s) && Consistent(u) && s.pending == map[] && 1 <= |s.entries| <= c.limit
    requires Remains(s, u, later) && Remains(s, v, later) && Announced(u, now, later)
    ensures Admits(c, v, later)
  {
    SomeoneExpired(s, u, now, later);
    SameExpired(s, u, v, later);
    RemainsCounts(c, s, v, later);
    assert |Waiting(s, v)| == |s.entries|;
  }

  lemma NobodyElseUpTo(c: Config, states: seq<State>, steps: seq<Step>, k: nat, m: nat, j: nat, later: real)
    requires |states| == |steps| + 1 && k <= m <= j <= |steps| && NobodyElse(c, states, steps, k, j, later)
    ensures NobodyElse(c, states, steps, k, m, later)
  { }

  lemma RejectedAlone(limit: int, o: Order, states: seq<State>, steps: seq<Step>, k: nat, now: real)
    requires limit >= 1 && IsRun(Config(limit, 1), o, states, steps) && k <= |steps|
    requires Rejected(Config(limit, 1), states, steps, k, now)
    ensures Consistent(states[k]) && states[k].pending == map[] && 1 <= |states[k].entries| <= limit
  {
    var c := Config(limit, 1);
    RunStep(c, o, states, steps, k - 1);
    RunKeepsSizes(c, o, states, steps, k - 1);
    RunKeepsSizes(c, o, states, steps, k);
    KeyGone(states[k - 1].started, steps[k - 1].id);
  }

  /** By the announced time the entry read has left the window, or, if none was left to read, all have. */
  lemma SomeoneExpired(s: State, u: State, now: real, later: real)
    requires Consistent(s) && Consistent(u) && s.pending == map[] && |s.entries| >= 1
    requires Remains(s, u, later) && Announced(u, now, later)
    ensures |Expired(s, u, later)| >= 1
  {
    var id;
    if u.entries == map[] {
      assert |s.entries.Keys| >= 1;
      id :| id in s.entries.Keys;
      assert id !in Pruned(u.entries, later);
    } else {
      var oldest :| IsOldest(u.entries, oldest) && later == now + RetryAfter(oldest, now) as real;
      id :| id in u.entries && u.entries[id] == oldest;
      AnnouncedIsEnough(oldest, now);
    }
    assert id in Expired(s, u, later);
    SubsetSize({id}, Expired(s, u, later));
  }

  lemma AnnouncedIsEnough(oldest: real, now: real)
    ensures oldest <= now + RetryAfter(oldest, now) as real - WINDOW as real
  { }

  lemma SameExpired(s: State, u: State, v: State, later: real)
    requires s.pending == map[] && Remains(s, u, later) && Remains(s, v, later)
    ensures Expired(s, u, later) == Expired(s, v, later) && Waiting(s, v) == s.entries.Keys
  {
    assert Waiting(s, u) == s.entries.Keys && Waiting(s, v) == s.entries.Keys;
  }

  /** With two racing requests it need not be enough: the set then holds one entry too many, and only the
      oldest is gone when the client returns. */
  lemma RetryAfterCanBeTooShort(o: Order)
    ensures exists s, oldest :: Reachable(Config(1, 2), o, s) && IsOldest(Pruned(s.entries, 31.0), oldest)
              && !Admits(Config(1, 2), s, 31.0) && !Admits(Config(1, 2), s, 31.0 + RetryAfter(oldest, 31.0) as real)
  {
    var s := TwoRace(o);
    assert Pruned(s.entries, 31.0) == s.entries;
    assert RetryAfter(0.0, 31.0) == 30;
    assert Pruned(s.entries, 61.0) == map[1 := 30.0];
    assert s.entries[0] == 0.0;
    assert IsOldest(Pruned(s.entries, 31.0), 0.0);
  }

  lemma TwoRace(o: Order) returns (s: State)
    ensures Reachable(Config(1, 2), o, s) && s.entries == map[0 := 0.0, 1 := 30.0]
  {
    var c := Config(1, 2);
    StartIsReachable(c, o, 0.0);
    s := Then(c, o, Start(0.0), Begin(0, 0.0));
    assert Pruned(s.entries, 0.0) == map[] && s.started == map[0 := 0.0];
    s := Then(c, o, s, Check(0));
    assert s == State(map[], map[], map[0 := 0.0], map[0 := 0.0], 0.0, 0.0);
    s := OtherRaces(o, s);
    s := Then(c, o, s, Insert(0));
    s := Then(c, o, s, Insert(1));
    assert s.entries == map[0 := 0.0, 1 := 30.0];
  }

  lemma OtherRaces(o: Order, s: State) returns (t: State)
    requires Reachable(Config(1, 2), o, s) && s == State(map[], map[], map[0 := 0.0], map[0 := 0.0], 0.0, 0.0)
    ensures Reachable(Config(1, 2), o, t) && t.entries == map[] && t.pending == map[0 := 0.0, 1 := 30.0]
  {
    var c := Config(1, 2);
    t := Then(c, o, s, Begin(1, 30.0));
    assert Pruned(t.entries, 30.0) == map[] && t.started == map[1 := 30.0];
    t := Then(c, o, t, Check(1));
  }

  // ---------------------------------------------------------------------------------------------

  datatype Answer = Answer(allowed: bool, retryAfter: int)

  class RedisRateLimiter {
    const requestsPerMinute: int
    var entries: map<Id, real>

    constructor (requestsPerMinute: int)
      ensures this.requestsPerMinute == requestsPerMinute && entries == map[]
    {
      this.requestsPerMinute := requestsPerMinute;
      entries := map[];
    }

    /** `zrange(key, 0, 0)`: the lowest score. */
    method Oldest() returns (oldest: real)
      requires |entries| > 0
      ensures IsOldest(entries, oldest)
    {
      var rest := entries.Keys;
      var first :| first in rest;
      oldest := entries[first];
      while rest != {}
        invariant rest <= entries.Keys
        invariant exists id :: id in entries && entries[id] == oldest
        invariant forall id :: id in entries && id !in rest ==> oldest <= entries[id]
        decreases rest
      {
        var id :| id in rest;
        rest := rest - {id};
        if entries[id] < oldest {
          oldest := entries[id];
        }
      }
    }

    /** The two sections of one request, with nothing in between. */
    method CheckRateLimit(id: Id, now: real) returns (r: Answer)
      modifies this`entries
      ensures requestsPerMinute <= 0 ==> r == Answer(true, 0) && entries == old(entries)
      ensures requestsPerMinute > 0 ==>
                && (r.allowed <==> |Pruned(old(entries), now)| < requestsPerMinute)
                && entries == (if r.allowed then Pruned(old(entries), now)[id := now] else Pruned(old(entries), now))
                && (r.allowed ==> r.retryAfter == 0)
                && (!r.allowed ==>
                      exists oldest :: IsOldest(entries, oldest) && r.retryAfter == RetryAfter(oldest, now))
      ensures requestsPerMinute > 0 ==>
                && (forall x :: x in entries <==>
                                  (x in old(entries) && old(entries)[x] > now - 60.0) || (r.allowed && x == id))
                && (forall x :: x in entries ==> entries[x] == if r.allowed && x == id then now else old(entries)[x])
                && (r.allowed <==> |set x | x in old(entries) && old(entries)[x] > now - 60.0| < requestsPerMinute)
      ensures !r.allowed ==>
                exists x :: x in entries && (forall y :: y in entries ==> entries[x] <= entries[y])
                            && r.retryAfter as real - 1.0 <= entries[x] + 60.0 - now < r.retryAfter as real
    {
      ghost var live := set x | x in entries && entries[x] > now - 60.0;
      if requestsPerMinute <= 0 {
        return Answer(true, 0);
      }
      assert Pruned(entries, now).Keys == live;
      entries := Pruned(entries, now);
      if |entries| >= requestsPerMinute {
        var oldest := Oldest();
        var retryAfter := Truncate(oldest + WINDOW as real - now) + 1;
        return Answer(false, if retryAfter < 1 then 1 else retryAfter);
      }
      entries := entries[id := now];
      return Answer(true, 0);
    }
  }
}
