/** The in-memory rate limiter, one deque per client. */
module RateLimiting {
  // A deque holds admission times and is pruned from the front.  Times are reals; a request carries the clock reading
  // taken before the lock.

  function Prune(dq: seq<real>, cutoff: real): seq<real> {
    if |dq| > 0 && dq[0] < cutoff then Prune(dq[1..], cutoff) else dq
  }

  datatype Limits = Limits(max: int, window: real)

  /** One request against one client's deque. */
  function Decide(l: Limits, dq: seq<real>, now: real): (bool, seq<real>) {
    var d := Prune(dq, now - l.window);
    if |d| >= l.max then (false, d) else (true, d + [now])
  }

  /** The deque after requests read at the times `ts`, in lock order. */
  function Deque(l: Limits, ts: seq<real>): seq<real> {
    if |ts| == 0 then [] else Decide(l, Deque(l, ts[..|ts| - 1]), ts[|ts| - 1]).1
  }

  /** The full history of admissions: nothing is ever pruned from it. */
  function Admitted(l: Limits, ts: seq<real>): seq<real> {
    if |ts| == 0 then []
    else
      var before := ts[..|ts| - 1];
      Admitted(l, before) + if Decide(l, Deque(l, before), ts[|ts| - 1]).0 then [ts[|ts| - 1]] else []
  }

  /** The admissions in the closed interval `[lo, hi]`. */
  function Within(s: seq<real>, lo: real, hi: real): seq<real> {
    if |s| == 0 then []
    else
      var t := s[|s| - 1];
      Within(s[..|s| - 1], lo, hi) + if lo <= t <= hi then [t] else []
  }

  predicate Ordered(ts: seq<real>) {
    forall i, j :: 0 <= i < j < |ts| ==> ts[i] <= ts[j]
  }

  // ---------------------------------------------------------------------------------------------

  lemma {:induction false} PruneIsWithin(s: seq<real>, cutoff: real, hi: real)
    requires Ordered(s) && (forall i :: 0 <= i < |s| ==> s[i] <= hi)
    ensures Prune(s, cutoff) == Within(s, cutoff, hi)
    ensures Ordered(Prune(s, cutoff))
    decreases |s|
  {
    if |s| > 0 {
      if s[0] < cutoff {
        PruneIsWithin(s[1..], cutoff, hi);
        WithinDropsFirst(s, cutoff, hi);
      } else {
        WithinAll(s, cutoff, hi);
      }
    }
  }

  lemma {:induction false} WithinDropsFirst(s: seq<real>, lo: real, hi: real)
    requires |s| > 0 && s[0] < lo
    ensures Within(s, lo, hi) == Within(s[1..], lo, hi)
    decreases |s|
  {
    if |s| > 1 {
      WithinDropsFirst(s[..|s| - 1], lo, hi);
      assert s[..|s| - 1][1..] == s[1..][..|s| - 2];
    }
  }

  lemma {:induction false} WithinAll(s: seq<real>, lo: real, hi: real)
    requires forall i :: 0 <= i < |s| ==> lo <= s[i] <= hi
    ensures Within(s, lo, hi) == s
  {
    if |s| > 0 {
      WithinAll(s[..|s| - 1], lo, hi);
    }
  }

  lemma {:induction false} WithinNarrows(s: seq<real>, lo: real, hi: real, lo': real, hi': real)
    requires lo <= lo' && hi' <= hi
    ensures |Within(s, lo', hi')| <= |Within(s, lo, hi)|
    ensures Within(Within(s, lo, hi), lo', hi') == Within(s, lo', hi')
  {
    if |s| > 0 {
      var front, t := s[..|s| - 1], s[|s| - 1];
      WithinNarrows(front, lo, hi, lo', hi');
      WithinSnoc(Within(front, lo, hi), t, lo', hi');
      assert Within(front, lo, hi) + [] == Within(front, lo, hi);
    }
  }

  lemma {:induction false} WithinIgnoresHigherBound(s: seq<real>, lo: real, hi: real, hi': real)
    requires forall i :: 0 <= i < |s| ==> s[i] <= hi && s[i] <= hi'
    ensures Within(s, lo, hi) == Within(s, lo, hi')
  {
    if |s| > 0 {
      WithinIgnoresHigherBound(s[..|s| - 1], lo, hi, hi');
    }
  }

  lemma {:induction false} WithinSnoc(s: seq<real>, t: real, lo: real, hi: real)
    ensures Within(s + [t], lo, hi) == Within(s, lo, hi) + if lo <= t <= hi then [t] else []
  {
    assert (s + [t])[..|s + [t]| - 1] == s;
  }

  lemma {:induction false} WithinOrdered(s: seq<real>, lo: real, hi: real)
    requires Ordered(s)
    ensures Ordered(Within(s, lo, hi))
    ensures forall i :: 0 <= i < |Within(s, lo, hi)| ==> lo <= Within(s, lo, hi)[i] <= hi
    ensures |s| > 0 ==> forall i :: 0 <= i < |Within(s, lo, hi)| ==> Within(s, lo, hi)[i] <= s[|s| - 1]
  {
    if |s| > 1 {
      WithinOrdered(s[..|s| - 1], lo, hi);
      assert s[|s| - 2] <= s[|s| - 1];
    }
  }

  /** The readings `ts` were taken in order, and `now` after them. */
  predicate Follows(ts: seq<real>, now: real) {
    Ordered(ts) && (|ts| > 0 ==> ts[|ts| - 1] <= now)
  }

  lemma {:induction false} AdmittedSoFar(l: Limits, ts: seq<real>, now: real)
    requires Follows(ts, now)
    ensures Ordered(Admitted(l, ts))
    ensures forall i :: 0 <= i < |Admitted(l, ts)| ==> Admitted(l, ts)[i] <= now
    decreases |ts|
  {
    if |ts| > 0 {
      var last := ts[|ts| - 1];
      assert forall i :: 0 <= i < |ts| ==> ts[i] <= last;
      AdmittedSoFar(l, ts[..|ts| - 1], last);
    }
  }

  lemma PruningNarrowsTheWindow(adm: seq<real>, window: real, last: real, now: real)
    requires Ordered(adm) && window >= 0.0 && last <= now
    requires forall i :: 0 <= i < |adm| ==> adm[i] <= last
    ensures Prune(Within(adm, last - window, last), now - window) == Within(adm, now - window, now)
  {
    var lo, lo' := last - window, now - window;
    var w := Within(adm, lo, last);
    assert Prune(w, lo') == Within(w, lo', now) by {
      WithinOrdered(adm, lo, last);
      PruneIsWithin(w, lo', now);
    }
    assert w == Within(adm, lo, now) by { WithinIgnoresHigherBound(adm, lo, last, now); }
    assert Within(Within(adm, lo, now), lo', now) == Within(adm, lo', now) by { WithinNarrows(adm, lo, now, lo', now); }
  }

  /** What the limiter sees when it decides: the admissions of the last `window` seconds. */
  lemma {:induction false} PrunedIsTheWindow(l: Limits, ts: seq<real>, now: real)
    requires Follows(ts, now) && l.window >= 0.0
    ensures Prune(Deque(l, ts), now - l.window) == Within(Admitted(l, ts), now - l.window, now)
    decreases |ts|, 1
  {
    if |ts| > 0 {
      DequeIsTheWindow(l, ts);
      AdmittedSoFar(l, ts, ts[|ts| - 1]);
      PruningNarrowsTheWindow(Admitted(l, ts), l.window, ts[|ts| - 1], now);
    }
  }

  /** The pruned deque is the full history restricted to the window that ends at the last reading. */
  lemma {:induction false} DequeIsTheWindow(l: Limits, ts: seq<real>)
    requires Ordered(ts) && |ts| > 0 && l.window >= 0.0
    ensures Deque(l, ts) == Within(Admitted(l, ts), ts[|ts| - 1] - l.window, ts[|ts| - 1])
    decreases |ts|, 0
  {
    var before, now := ts[..|ts| - 1], ts[|ts| - 1];
    PrunedIsTheWindow(l, before, now);
    if Decide(l, Deque(l, before), now).0 {
      WithinSnoc(Admitted(l, before), now, now - l.window, now);
    } else {
      assert Admitted(l, before) + [] == Admitted(l, before);
      assert Admitted(l, ts) == Admitted(l, before);
      assert Deque(l, ts) == Prune(Deque(l, before), now - l.window);
    }
  }

  /** A request is admitted exactly when fewer than `max` admissions lie in the window before it. */
  lemma AdmittedExactlyWhenRoom(l: Limits, ts: seq<real>, now: real)
    requires Follows(ts, now) && l.window >= 0.0
    ensures Decide(l, Deque(l, ts), now).0 <==> |Within(Admitted(l, ts), now - l.window, now)| < l.max
  {
    PrunedIsTheWindow(l, ts, now);
  }

  /** The safety promise: no closed interval of the window's length holds more than `max` admissions. */
  lemma {:induction false} NoWindowExceedsTheLimit(l: Limits, ts: seq<real>, a: real)
    requires Ordered(ts) && l.window >= 0.0 && l.max > 0
    ensures |Within(Admitted(l, ts), a, a + l.window)| <= l.max
    decreases |ts|
  {
    if |ts| > 0 {
      var before, now := ts[..|ts| - 1], ts[|ts| - 1];
      var adm := Admitted(l, before);
      NoWindowExceedsTheLimit(l, before, a);
      if Decide(l, Deque(l, before), now).0 {
        WithinSnoc(adm, now, a, a + l.window);
        if a <= now <= a + l.window {
          AdmittedExactlyWhenRoom(l, before, now);
          AdmittedSoFar(l, before, now);
          WithinIgnoresHigherBound(adm, a, a + l.window, now);
          WithinNarrows(adm, now - l.window, now, a, now);
        }
      } else {
        assert adm + [] == adm;
      }
    }
  }

  /** The positions whose time lies in the closed interval. */
  function Positions(s: seq<real>, lo: real, hi: real): (r: set<nat>)
    ensures forall i: nat :: i in r <==> i < |s| && lo <= s[i] <= hi
  {
    set i: nat | i < |s| && lo <= s[i] <= hi
  }

  /** `Within` lists one element for each position in the interval. */
  lemma {:induction false} WithinCounts(s: seq<real>, lo: real, hi: real)
    ensures |Within(s, lo, hi)| == |Positions(s, lo, hi)|
  {
    if |s| > 0 {
      var n := |s| - 1;
      WithinCounts(s[..n], lo, hi);
      OneMorePosition(s[..n], s[n], lo, hi);
      assert s == s[..n] + [s[n]];
    } else {
      assert Positions(s, lo, hi) == {};
    }
  }

  lemma OneMorePosition(s: seq<real>, t: real, lo: real, hi: real)
    ensures |Positions(s + [t], lo, hi)| == |Positions(s, lo, hi)| + if lo <= t <= hi then 1 else 0
  {
    assert Positions(s + [t], lo, hi) == Positions(s, lo, hi) + if lo <= t <= hi then {|s|} else {};
  }

  /** The admissions counted one by one: a request is admitted exactly when fewer than `max` of them lie no
      more than `window` before it, and no interval of that length ever holds more than `max`. */
  lemma WindowsAreCounted(l: Limits, ts: seq<real>, now: real, a: real)
    requires Follows(ts, now) && l.window >= 0.0 && l.max > 0
    ensures var adm := Admitted(l, ts);
            && |Positions(adm, a, a + l.window)| <= l.max
            && Admitted(l, ts + [now])
               == if |Positions(adm, now - l.window, now)| < l.max then adm + [now] else adm
  {
    NoWindowExceedsTheLimit(l, ts, a);
    WithinCounts(Admitted(l, ts), a, a + l.window);
    NextIsCounted(l, ts, now);
  }

  lemma NextIsCounted(l: Limits, ts: seq<real>, now: real)
    requires Follows(ts, now) && l.window >= 0.0
    ensures Admitted(l, ts + [now])
         == Admitted(l, ts) + if |Positions(Admitted(l, ts), now - l.window, now)| < l.max then [now] else []
  {
    RoomIsCounted(l, ts, now);
    AdmittedNext(l, ts, now, |Positions(Admitted(l, ts), now - l.window, now)| < l.max);
  }

  lemma RoomIsCounted(l: Limits, ts: seq<real>, now: real)
    requires Follows(ts, now) && l.window >= 0.0
    ensures Decide(l, Deque(l, ts), now).0 <==> |Positions(Admitted(l, ts), now - l.window, now)| < l.max
  {
    var n := WindowCount(l, Admitted(l, ts), now);
    RoomFor(l, ts, now, n);
  }

  lemma WindowCount(l: Limits, adm: seq<real>, now: real) returns (n: nat)
    ensures n == |Within(adm, now - l.window, now)| == |Positions(adm, now - l.window, now)|
  {
    WithinCounts(adm, now - l.window, now);
    n := |Within(adm, now - l.window, now)|;
  }

  lemma RoomFor(l: Limits, ts: seq<real>, now: real, n: nat)
    requires Follows(ts, now) && l.window >= 0.0 && n == |Within(Admitted(l, ts), now - l.window, now)|
    ensures Decide(l, Deque(l, ts), now).0 <==> n < l.max
  {
    AdmittedExactlyWhenRoom(l, ts, now);
  }

  lemma AdmittedNext(l: Limits, ts: seq<real>, now: real, room: bool)
    requires Decide(l, Deque(l, ts), now).0 <==> room
    ensures Admitted(l, ts + [now]) == Admitted(l, ts) + if room then [now] else []
  {
    RequestSnoc(l, ts, now);
  }

  // ---------------------------------------------------------------------------------------------
  // Readings out of order: the clock is read before the lock is taken
  // ---------------------------------------------------------------------------------------------

  function Repeat(n: nat, t: real): seq<real> {
    seq(n, i => t)
  }

  /** Up to the limit, requests at one time are all admitted. */
  lemma {:induction false} RepeatIsAdmitted(l: Limits, n: nat, t: real)
    requires n <= l.max && l.window >= 0.0
    ensures Deque(l, Repeat(n, t)) == Admitted(l, Repeat(n, t)) == Repeat(n, t)
  {
    if n > 0 {
      RepeatIsAdmitted(l, n - 1, t);
      assert Repeat(n, t) == Repeat(n - 1, t) + [t];
      RequestSnoc(l, Repeat(n - 1, t), t);
      PruneNothing(Repeat(n - 1, t), t - l.window);
    }
  }

  lemma PruneNothing(s: seq<real>, cutoff: real)
    requires forall i :: 0 <= i < |s| ==> s[i] >= cutoff
    ensures Prune(s, cutoff) == s
  { }

  lemma {:induction false} PruneEverything(s: seq<real>, cutoff: real)
    requires forall i :: 0 <= i < |s| ==> s[i] < cutoff
    ensures Prune(s, cutoff) == []
  {
    if |s| > 0 {
      PruneEverything(s[1..], cutoff);
    }
  }

  /** One reading behind the highest one is enough: the requests that fill the window before it have been
      pruned already. */
  lemma StaleReadingBreaksTheLimit(l: Limits, mark: real, reading: real) returns (ts: seq<real>)
    requires l.max >= 2 && l.window >= 0.0 && reading < mark
    ensures Ordered(ts) && |ts| > 0 && ts[|ts| - 1] == mark
    ensures |Within(Admitted(l, ts + [reading]), reading - l.window, reading)| == l.max + 1
  {
    var early := Repeat(l.max, reading - l.window);
    ts := early + [mark];
    FullThenMark(l, early, reading - l.window, mark);
    StaleIsAdmitted(l, ts, mark, reading);
    FullWindow(l, early, mark, reading);
    assert ts + [reading] == early + [mark] + [reading];
  }

  lemma FullThenMark(l: Limits, early: seq<real>, time: real, mark: real)
    requires l.max >= 1 && l.window >= 0.0 && time < mark - l.window && early == Repeat(l.max, time)
    ensures Ordered(early + [mark]) && Deque(l, early + [mark]) == [mark]
    ensures Admitted(l, early + [mark]) == early + [mark]
  {
    RepeatIsAdmitted(l, l.max, time);
    MarkAlone(l, early, mark);
    NextOf(l, early, early, early, mark);
  }

  /** When the whole deque has left the window, the next request is alone in it. */
  lemma MarkAlone(l: Limits, dq: seq<real>, mark: real)
    requires l.max >= 1 && forall i :: 0 <= i < |dq| ==> dq[i] < mark - l.window
    ensures Decide(l, dq, mark) == (true, [mark])
  {
    PruneEverything(dq, mark - l.window);
    assert [] + [mark] == [mark];
  }

  lemma NextOf(l: Limits, ts: seq<real>, dq: seq<real>, adm: seq<real>, now: real)
    requires Deque(l, ts) == dq && Admitted(l, ts) == adm
    ensures Deque(l, ts + [now]) == Decide(l, dq, now).1
    ensures Admitted(l, ts + [now]) == adm + if Decide(l, dq, now).0 then [now] else []
  {
    RequestSnoc(l, ts, now);
  }

  lemma StaleIsAdmitted(l: Limits, ts: seq<real>, mark: real, reading: real)
    requires l.max >= 2 && l.window >= 0.0 && reading < mark && Deque(l, ts) == [mark] && Admitted(l, ts) == ts
    ensures Admitted(l, ts + [reading]) == ts + [reading]
  {
    RequestSnoc(l, ts, reading);
    PruneNothing([mark], reading - l.window);
  }

  lemma FullWindow(l: Limits, early: seq<real>, mark: real, reading: real)
    requires l.window >= 0.0 && reading < mark && forall i :: 0 <= i < |early| ==> early[i] == reading - l.window
    ensures |Within(early + [mark] + [reading], reading - l.window, reading)| == |early| + 1
  {
    var lo := reading - l.window;
    WithinAll(early, lo, reading);
    WithinSnoc(early, mark, lo, reading);
    WithinSnoc(early + [mark], reading, lo, reading);
  }

  predicate Spaced(s: seq<real>, gap: real) {
    forall i, j :: 0 <= i < j < |s| ==> s[j] > s[i] + gap
  }

  lemma SingleDecides(l: Limits, last: real, now: real)
    requires l.max == 1 && l.window >= 0.0
    ensures Decide(l, [last], now) == if last < now - l.window then (true, [now]) else (false, [last])
  {
    if last < now - l.window {
      PruneEverything([last], now - l.window);
      assert [] + [now] == [now];
    } else {
      PruneNothing([last], now - l.window);
    }
  }

  lemma SpacedSnoc(s: seq<real>, t: real, gap: real)
    requires Spaced(s, gap) && gap >= 0.0 && (|s| > 0 ==> t > s[|s| - 1] + gap)
    ensures Spaced(s + [t], gap)
  { }

  /** The deque holds the last admission only, and admissions are more than a window apart. */
  predicate HoldsTheLast(l: Limits, adm: seq<real>, dq: seq<real>) {
    Spaced(adm, l.window) && dq == if |adm| == 0 then [] else [adm[|adm| - 1]]
  }

  /** With a limit of one the deque is the last admission, whatever the order of the readings. */
  lemma {:induction false} SingleIsSpaced(l: Limits, ts: seq<real>)
    requires l.max == 1 && l.window >= 0.0
    ensures HoldsTheLast(l, Admitted(l, ts), Deque(l, ts))
  {
    if |ts| > 0 {
      var before, now := ts[..|ts| - 1], ts[|ts| - 1];
      SingleIsSpaced(l, before);
      SingleNext(l, Admitted(l, before), Deque(l, before), now);
    }
  }

  lemma SingleNext(l: Limits, adm: seq<real>, dq: seq<real>, now: real)
    requires l.max == 1 && l.window >= 0.0 && HoldsTheLast(l, adm, dq)
    ensures HoldsTheLast(l, adm + if Decide(l, dq, now).0 then [now] else [], Decide(l, dq, now).1)
  {
    if |adm| > 0 {
      SingleDecides(l, adm[|adm| - 1], now);
    }
    if Decide(l, dq, now).0 {
      SpacedSnoc(adm, now, l.window);
    } else {
      assert adm + [] == adm;
    }
  }

  lemma {:induction false} SpacedWindow(s: seq<real>, gap: real, a: real)
    requires Spaced(s, gap)
    ensures |Within(s, a, a + gap)| <= 1
    ensures |s| > 0 && a <= s[|s| - 1] <= a + gap ==> |Within(s[..|s| - 1], a, a + gap)| == 0
  {
    if |s| > 0 {
      var front, last := s[..|s| - 1], s[|s| - 1];
      SpacedWindow(front, gap, a);
      if a <= last <= a + gap {
        NoneWithin(front, a, a + gap);
      }
    }
  }

  lemma {:induction false} NoneWithin(s: seq<real>, lo: real, hi: real)
    requires forall i :: 0 <= i < |s| ==> s[i] < lo
    ensures Within(s, lo, hi) == []
  {
    if |s| > 0 {
      NoneWithin(s[..|s| - 1], lo, hi);
    }
  }

  /** A limit of one holds in every window, whatever the order of the readings. */
  lemma SingleLimitNeedsNoOrder(l: Limits, ts: seq<real>, a: real)
    requires l.max == 1 && l.window >= 0.0
    ensures |Within(Admitted(l, ts), a, a + l.window)| <= 1
  {
    SingleIsSpaced(l, ts);
    SpacedWindow(Admitted(l, ts), l.window, a);
  }

  /** The window from `a` on, when a request read at `reading` follows those read at `ts`. */
  predicate WindowKept(l: Limits, ts: seq<real>, reading: real, a: real) {
    |Within(Admitted(l, ts + [reading]), a, a + l.window)| <= l.max
  }

  /** After any readings in order up to `mark`, a request read at `reading` leaves every window within the
      limit. */
  ghost predicate ReadingKeepsLimit(l: Limits, mark: real, reading: real) {
    forall ts, a :: Ordered(ts) && |ts| > 0 && ts[|ts| - 1] == mark ==> WindowKept(l, ts, reading, a)
  }

  /** The exact condition on the readings: in order, or a limit of one. */
  lemma OrderMattersExactlyWhen(l: Limits, mark: real, reading: real)
    requires l.max >= 1 && l.window >= 0.0
    ensures ReadingKeepsLimit(l, mark, reading) <==> reading >= mark || l.max == 1
  {
    if reading >= mark || l.max == 1 {
      forall ts, a | Ordered(ts) && |ts| > 0 && ts[|ts| - 1] == mark ensures WindowKept(l, ts, reading, a) {
        if l.max == 1 {
          SingleLimitNeedsNoOrder(l, ts + [reading], a);
        } else {
          NoWindowExceedsTheLimit(l, ts + [reading], a);
        }
      }
    } else {
      var ts := StaleReadingBreaksTheLimit(l, mark, reading);
      assert !WindowKept(l, ts, reading, reading - l.window);
    }
  }

  // ---------------------------------------------------------------------------------------------

  datatype Request = Request(client: string, time: real)

  function TimesOf(history: seq<Request>, client: string): seq<real> {
    if |history| == 0 then []
    else
      var r := history[|history| - 1];
      TimesOf(history[..|history| - 1], client) + if r.client == client then [r.time] else []
  }

  class RateLimiter {
    const limits: Limits
    var requests: map<string, seq<real>>
    ghost var history: seq<Request>

    function Of(client: string): seq<real>
      reads this
    {
      if client in requests then requests[client] else []
    }

    /** Each client's deque depends on that client's requests only. */
    ghost predicate Valid()
      reads this
    {
      limits.max > 0 ==> forall c :: Of(c) == Deque(limits, TimesOf(history, c))
    }

    constructor (maxRequests: int, windowSeconds: real)
      ensures Valid() && history == [] && limits == Limits(maxRequests, windowSeconds)
    {
      limits := Limits(maxRequests, windowSeconds);
      requests := map[];
      history := [];
    }

    /** The body under the lock.  A limit of zero or less switches the limiter off. */
    method IsAllowed(client: string, now: real) returns (allowed: bool)
      requires Valid()
      modifies this
      ensures Valid() && history == old(history) + [Request(client, now)]
      ensures limits.max <= 0 ==> allowed && requests == old(requests)
      ensures limits.max > 0 && limits.window >= 0.0 && Follows(TimesOf(old(history), client), now) ==>
                (allowed <==>
                 |Within(Admitted(limits, TimesOf(old(history), client)), now - limits.window, now)| < limits.max)
      ensures limits.max > 0 ==>
                Admitted(limits, TimesOf(history, client))
                  == Admitted(limits, TimesOf(old(history), client)) + if allowed then [now] else []
    {
      ghost var earlier, before := history, TimesOf(history, client);
      history := history + [Request(client, now)];
      if limits.max > 0 {
        var dq;
        allowed, dq := PruneAndAdd(limits, Of(client), now);
        requests := requests[client := dq];
        RequestSnoc(limits, before, now);
        HistorySnoc(earlier, client, now);
        HistoryOfAllOthers(earlier, client, now);
        AdmittedWhenInOrder(limits, before, now);
      } else {
        allowed := true;
      }
    }
  }

  lemma HistorySnoc(history: seq<Request>, client: string, now: real)
    ensures TimesOf(history + [Request(client, now)], client) == TimesOf(history, client) + [now]
  {
    var longer := history + [Request(client, now)];
    assert longer[..|longer| - 1] == history;
  }

  lemma HistoryOfOthers(history: seq<Request>, client: string, now: real, other: string)
    requires other != client
    ensures TimesOf(history + [Request(client, now)], other) == TimesOf(history, other)
  {
    var longer := history + [Request(client, now)];
    assert longer[..|longer| - 1] == history;
    assert TimesOf(history, other) + [] == TimesOf(history, other);
  }

  lemma HistoryOfAllOthers(history: seq<Request>, client: string, now: real)
    ensures forall c :: c != client ==> TimesOf(history + [Request(client, now)], c) == TimesOf(history, c)
  {
    forall c | c != client ensures TimesOf(history + [Request(client, now)], c) == TimesOf(history, c) {
      HistoryOfOthers(history, client, now, c);
    }
  }

  lemma AdmittedWhenInOrder(l: Limits, ts: seq<real>, now: real)
    ensures Follows(ts, now) && l.window >= 0.0 ==>
              (Decide(l, Deque(l, ts), now).0 <==> |Within(Admitted(l, ts), now - l.window, now)| < l.max)
  {
    if Follows(ts, now) && l.window >= 0.0 {
      AdmittedExactlyWhenRoom(l, ts, now);
    }
  }

  /** The loop under the lock: drop what left the window, then admit if there is room. */
  method PruneAndAdd(l: Limits, requests: seq<real>, now: real) returns (allowed: bool, dq: seq<real>)
    ensures (allowed, dq) == Decide(l, requests, now)
  {
    var cutoff := now - l.window;
    dq := requests;
    while |dq| > 0 && dq[0] < cutoff
      invariant Prune(dq, cutoff) == Prune(requests, cutoff)
    {
      dq := dq[1..];
    }
    if |dq| >= l.max {
      return false, dq;
    }
    dq := dq + [now];
    return true, dq;
  }

  lemma RequestSnoc(l: Limits, ts: seq<real>, now: real)
    ensures Deque(l, ts + [now]) == Decide(l, Deque(l, ts), now).1
    ensures Admitted(l, ts + [now]) == Admitted(l, ts) + if Decide(l, Deque(l, ts), now).0 then [now] else []
  {
    var longer := ts + [now];
    assert longer[..|longer| - 1] == ts && longer[|longer| - 1] == now;
  }
}
