/** Pausing and resuming the indexer. */
module IndexerControlling {
  import opened Basics

  // The intent lives in memory and, so that a restarted container respects it, in one persisted value.  Each method of
  // the control object holds its lock throughout and is one step; a crash may fall between any two steps.

  datatype Mode = Running | Paused | Processing

  /** The persisted value: whether paused and, if so, since when. */
  datatype Saved = Saved(paused: bool, pausedAt: Option<string>)

  datatype Control = Control(mode: Mode, document: Option<string>, pausedAt: Option<string>, pauseRequested: bool)

  datatype State = State(control: Control, stored: Option<Saved>)

  datatype Event =
    | Pause(now: string, stored: bool)
    | Resume(stored: bool)
    | Begin(document: string)
    | End(stored: bool)
    | CrashAndRestart

  /** A fresh control object after reading the persisted value. */
  function Restored(stored: Option<Saved>): Control {
    if stored.Some? && stored.value.paused then Control(Paused, None, stored.value.pausedAt, true)
    else Control(Running, None, None, false)
  }

  const INITIAL := State(Restored(None), None)

  /** `_persist`; a write that fails is logged and otherwise ignored. */
  function Persisted(s: State, stored: bool): State {
    if stored then s.(stored := Some(Saved(s.control.mode == Paused, s.control.pausedAt))) else s
  }

  function Step(s: State, e: Event): State {
    var c := s.control;
    match e
    case Pause(now, stored) =>
      if c.mode == Paused then s
      else if c.mode == Processing then
        State(c.(pausedAt := Some(now), pauseRequested := true),
              if stored then Some(Saved(true, Some(now))) else s.stored)
      else Persisted(s.(control := c.(mode := Paused, pausedAt := Some(now), pauseRequested := true)), stored)
    case Resume(stored) =>
      if c.mode != Paused && !c.pauseRequested then s
      else
        Persisted(s.(control := c.(mode := if c.mode == Paused then Running else c.mode,
                                   pausedAt := None, pauseRequested := false)), stored)
    case Begin(document) => s.(control := c.(mode := Processing, document := Some(document)))
    case End(stored) =>
      if c.pauseRequested then Persisted(s.(control := c.(mode := Paused, document := None)), stored)
      else s.(control := c.(mode := Running, document := None))
    case CrashAndRestart => s.(control := Restored(s.stored))
  }

  function Run(s: State, events: seq<Event>): State {
    if |events| == 0 then s else Step(Run(s, events[..|events| - 1]), events[|events| - 1])
  }

  /** Every attempt to persist in these events succeeds. */
  predicate AllStored(events: seq<Event>) {
    forall i :: 0 <= i < |events| ==>
                  match events[i]
                  case Pause(_, stored) => stored
                  case Resume(stored) => stored
                  case End(stored) => stored
                  case _ => true
  }

  /** The persisted value says what the memory intends. */
  predicate Synchronised(s: State) {
    var paused := s.stored.Some? && s.stored.value.paused;
    && paused == s.control.pauseRequested
    && (paused ==> s.stored.value.pausedAt == s.control.pausedAt && s.control.pausedAt.Some?)
    && (!paused ==> s.control.pausedAt == None)
  }

  predicate Consistent(s: State) {
    && (s.control.mode == Paused ==> s.control.pauseRequested)
    && (s.control.mode == Running ==> !s.control.pauseRequested)
    && (s.control.document.Some? <==> s.control.mode == Processing)
  }

  /** Mode and intent agree in every run, whether or not anything could be persisted. */
  lemma {:induction false} ModesFollowTheIntent(events: seq<Event>)
    ensures Consistent(Run(INITIAL, events))
  {
    if |events| > 0 {
      ModesFollowTheIntent(events[..|events| - 1]);
    }
  }

  lemma {:induction false} StoredIntentIsCurrent(events: seq<Event>)
    requires AllStored(events)
    ensures Synchronised(Run(INITIAL, events))
  {
    if |events| > 0 {
      StoredIntentIsCurrent(events[..|events| - 1]);
      ModesFollowTheIntent(events[..|events| - 1]);
    }
  }

  /** A crash at any point of any run, even while a pause is pending on the current document, loses
      neither the intent nor its time: the restarted control is paused exactly if the old one was. */
  lemma PauseSurvivesCrashes(events: seq<Event>)
    requires AllStored(events)
    ensures var before, after := Run(INITIAL, events), Run(INITIAL, events + [CrashAndRestart]);
            && after.control.pauseRequested == before.control.pauseRequested
            && after.control.pausedAt == before.control.pausedAt
            && (after.control.mode == Paused <==> before.control.pauseRequested)
            && Synchronised(after)
  {
    assert (events + [CrashAndRestart])[..|events|] == events;
    StoredIntentIsCurrent(events);
  }

  predicate StoredPaused(s: State) {
    s.stored.Some? && s.stored.value.paused
  }

  /** The event reaches a write, and the write succeeds. */
  predicate Writes(s: State, e: Event) {
    match e
    case Pause(_, stored) => s.control.mode != Paused && stored
    case Resume(stored) => (s.control.mode == Paused || s.control.pauseRequested) && stored
    case End(stored) => s.control.pauseRequested && stored
    case _ => false
  }

  /** How many events have passed when the last successful write happens; none if there is none. */
  function LastWrite(events: seq<Event>): (k: nat)
    ensures k <= |events|
  {
    if |events| == 0 then 0
    else
      var n := |events| - 1;
      if Writes(Run(INITIAL, events[..n]), events[n]) then |events| else LastWrite(events[..n])
  }

  lemma WritesAreCurrent(s: State, e: Event)
    requires Consistent(s)
    ensures Writes(s, e) ==> StoredPaused(Step(s, e)) == Step(s, e).control.pauseRequested
    ensures !Writes(s, e) ==> Step(s, e).stored == s.stored
  { }

  lemma {:induction false} LastWriteDecides(events: seq<Event>)
    ensures StoredPaused(Run(INITIAL, events)) == Run(INITIAL, events[..LastWrite(events)]).control.pauseRequested
  {
    if |events| > 0 {
      var n := |events| - 1;
      ModesFollowTheIntent(events[..n]);
      WritesAreCurrent(Run(INITIAL, events[..n]), events[n]);
      LastWriteDecides(events[..n]);
      assert events[..|events|] == events;
      assert events[..n][..LastWrite(events[..n])] == events[..LastWrite(events[..n])];
    }
  }

  /** In any run, whatever writes fail, the intent survives a crash exactly when it is what it was right
      after the last write that succeeded, or what it was initially if none did. */
  lemma CrashKeepsIntentExactlyWhen(events: seq<Event>)
    ensures var now, last := Run(INITIAL, events), Run(INITIAL, events[..LastWrite(events)]);
            Step(now, CrashAndRestart).control.pauseRequested == now.control.pauseRequested
            <==> last.control.pauseRequested == now.control.pauseRequested
  {
    LastWriteDecides(events);
  }

  predicate AllPauses(events: seq<Event>) {
    forall i :: 0 <= i < |events| ==> events[i].Pause?
  }

  /** A lost pause, one that is intended but not stored, is repaired by pausing again exactly when a
      document is being processed and one of the repeated writes succeeds. */
  lemma {:induction false} PausingRepairsExactlyWhen(s: State, again: seq<Event>)
    requires Consistent(s) && s.control.pauseRequested && !StoredPaused(s) && AllPauses(again)
    ensures Run(s, again).control.pauseRequested && Run(s, again).control.mode == s.control.mode
    ensures StoredPaused(Run(s, again))
       <==> s.control.mode == Processing && exists i :: 0 <= i < |again| && again[i].stored
  {
    if |again| > 0 {
      var n := |again| - 1;
      PausingRepairsExactlyWhen(s, again[..n]);
      if again[n].stored {
        assert again[n].stored;
      } else if exists i :: 0 <= i < |again| && again[i].stored {
        var i :| 0 <= i < |again| && again[i].stored;
        assert again[..n][i].stored;
      }
    }
  }

  /** Once the control is paused the repeated calls answer "already paused" and persist nothing.  A crash
      then resumes the indexer. */
  lemma {:induction false} LostPauseIsNotRepairedByPausing(s: State, again: seq<Event>)
    requires Consistent(s) && s.control.mode == Paused && !StoredPaused(s) && AllPauses(again)
    ensures Run(s, again) == s
    ensures !Step(Run(s, again), CrashAndRestart).control.pauseRequested
  {
    if |again| > 0 {
      LostPauseIsNotRepairedByPausing(s, again[..|again| - 1]);
    }
  }

  /** Any later resume that is stored brings memory and persisted value together again. */
  lemma StoredResumeRepairs(s: State)
    requires Consistent(s) && s.control.pauseRequested
    ensures Synchronised(Step(s, Resume(true)))
  { }

  // ---------------------------------------------------------------------------------------------

  datatype Reply = AlreadyPaused | PausePending(document: Option<string>) | PausedNow | AlreadyRunning | Resumed

  class IndexerControl {
    var mode: Mode
    var currentDocument: Option<string>
    var pausedAt: Option<string>
    var pauseRequested: bool
    var redis: Option<Saved>

    ghost function Snapshot(): State
      reads this
    {
      State(Control(mode, currentDocument, pausedAt, pauseRequested), redis)
    }

    /** Start-up with whatever the store holds. */
    constructor (redis: Option<Saved>)
      ensures Snapshot() == State(Restored(redis), redis)
      ensures redis == Some(Saved(true, pausedAt)) ==> mode == Paused && pauseRequested
      ensures !(redis.Some? && redis.value.paused) ==> mode == Running && pausedAt == None && !pauseRequested
      ensures currentDocument == None
    {
      mode, currentDocument, pausedAt, pauseRequested := Running, None, None, false;
      this.redis := redis;
      new;
      if redis.Some? && redis.value.paused {
        mode := Paused;
        pausedAt := redis.value.pausedAt;
        pauseRequested := true;
      }
    }

    method Persist(stored: bool)
      modifies this`redis
      ensures Snapshot() == Persisted(old(Snapshot()), stored)
      ensures redis == if stored then Some(Saved(mode == Paused, pausedAt)) else old(redis)
    {
      if stored {
        redis := Some(Saved(mode == Paused, pausedAt));
      }
    }

    method Pause(now: string, stored: bool) returns (r: Reply)
      modifies this
      ensures Snapshot() == Step(old(Snapshot()), Event.Pause(now, stored))
      ensures r.AlreadyPaused? <==> old(mode) == Paused
      ensures r.PausePending? <==> old(mode) == Processing
      ensures r.PausePending? ==> r.document == currentDocument
      ensures pauseRequested || old(mode) == Paused
      ensures mode == (if old(mode) == Running then Paused else old(mode)) && currentDocument == old(currentDocument)
      ensures pausedAt == if old(mode) == Paused then old(pausedAt) else Some(now)
      ensures redis == if stored && old(mode) != Paused then Some(Saved(true, Some(now))) else old(redis)
    {
      if mode == Paused {
        return AlreadyPaused;
      }
      pausedAt := Some(now);
      if mode == Processing {
        pauseRequested := true;
        PersistPausedState(stored);
        return PausePending(currentDocument);
      }
      mode := Paused;
      pauseRequested := true;
      Persist(stored);
      return PausedNow;
    }

    /** Persists the pause although the mode is still `Processing`. */
    method PersistPausedState(stored: bool)
      modifies this`redis
      ensures redis == if stored then Some(Saved(true, pausedAt)) else old(redis)
    {
      if stored {
        redis := Some(Saved(true, pausedAt));
      }
    }

    method Resume(stored: bool) returns (r: Reply)
      modifies this
      ensures Snapshot() == Step(old(Snapshot()), Event.Resume(stored))
      ensures r == if old(mode) != Paused && !old(pauseRequested) then AlreadyRunning else Resumed
      ensures !pauseRequested && currentDocument == old(currentDocument)
      ensures mode == if old(mode) == Paused then Running else old(mode)
      ensures r.Resumed? ==> pausedAt == None && redis == if stored then Some(Saved(false, None)) else old(redis)
      ensures r.AlreadyRunning? ==> pausedAt == old(pausedAt) && redis == old(redis)
    {
      if (mode == Running || mode == Processing) && !pauseRequested {
        return AlreadyRunning;
      }
      pauseRequested := false;
      if mode == Paused {
        mode := Running;
      }
      pausedAt := None;
      Persist(stored);
      return Resumed;
    }

    method BeginProcessing(document: string)
      modifies this
      ensures Snapshot() == Step(old(Snapshot()), Begin(document))
      ensures mode == Processing && currentDocument == Some(document)
      ensures pausedAt == old(pausedAt) && pauseRequested == old(pauseRequested) && redis == old(redis)
    {
      mode := Processing;
      currentDocument := Some(document);
    }

    method EndProcessing(stored: bool)
      modifies this
      ensures Snapshot() == Step(old(Snapshot()), End(stored))
      ensures mode == (if pauseRequested then Paused else Running) && currentDocument == None
      ensures pausedAt == old(pausedAt) && pauseRequested == old(pauseRequested)
      ensures redis == if pauseRequested && stored then Some(Saved(true, pausedAt)) else old(redis)
    {
      currentDocument := None;
      if pauseRequested {
        mode := Paused;
        Persist(stored);
      } else {
        mode := Running;
      }
    }
  }
}
