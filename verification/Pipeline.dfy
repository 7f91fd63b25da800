/** The indexing pipeline as one state machine. */
module Pipeline {
  import opened Basics

  // A lister scans the library and fills a queue, workers take messages from it and index, and an administrator
  // deletes tracking entries.  All of them share one map of tracking entries.
  // 
  // The machine runs at two granularities.  In the coarse one a visit of the lister to one file is a single step.
  // In the fine one the lister's read-and-push and its later write are separate steps, as they are in the code.
  // A state update by a worker (`save_state`) is one step in both.  Any number of workers may run, and any of
  // them may crash at any point.

  type Path = string
  type Worker = nat

  datatype Stage = TextIndexing | EmbeddingIndexing | PageGuard | Unknown

  /** The stored `last_modified`: the key may be absent, null, or a time. */
  datatype Modified = Missing | Null | At(time: real)

  /** A tracking entry.  An absent flag reads as false everywhere in the code, so flags are plain. */
  datatype Entry = Entry(lastModified: Modified, processed: bool, failed: bool,
                         textIndexed: bool, embeddingIndexed: bool, errorStage: Option<Stage>)

  const NEW_ENTRY := Entry(Missing, false, false, false, false, None)

  datatype Phase = Started | TextDone | Failing | Done

  datatype Delivery = Delivery(path: Path, phase: Phase)

  /** What the lister still has to write for the file it is visiting. */
  datatype Pending = Idle | ToWrite(path: Path, entry: Entry)

  datatype State = State(files: map<Path, real>, redis: map<Path, Entry>, queue: multiset<Path>,
                         inflight: map<Worker, Delivery>, lister: Pending)

  const INITIAL := State(map[], map[], multiset{}, map[], Idle)

  predicate Settled(e: Entry) { e.processed || e.failed }

  datatype Status = StatusQueued | StatusProcessed | StatusFailed

  /** The administrator's view of an entry: a failure hides a success. */
  function Classify(e: Entry): Status {
    if e.failed then StatusFailed else if e.processed then StatusProcessed else StatusQueued
  }

  // ---------------------------------------------------------------------------------------------
  // Reading and updating one entry
  // ---------------------------------------------------------------------------------------------

  function Load(redis: map<Path, Entry>, p: Path): Entry {
    if p in redis then redis[p] else NEW_ENTRY
  }

  /** The three shapes of update the indexer passes to `save_state`. */
  datatype Update = RecordText(mtime: real) | RecordEmbedding | RecordFailure(seen: Modified, stage: Stage)

  function Updated(e: Entry, u: Update): Entry {
    match u
    case RecordText(t) => Entry(At(t), false, false, true, false, None)
    case RecordEmbedding => e.(processed := true, embeddingIndexed := true)
    case RecordFailure(m, stage) => e.(lastModified := m, processed := false, failed := true, errorStage := Some(stage))
  }

  function Saved(redis: map<Path, Entry>, p: Path, u: Update): map<Path, Entry> {
    redis[p := Updated(Load(redis, p), u)]
  }

  function FileTime(files: map<Path, real>, p: Path): Modified {
    if p in files then At(files[p]) else Null
  }

  /** `value.get("last_modified", 0) != mtime`: an absent key compares as zero. */
  predicate LooksModified(e: Entry, mtime: real) {
    match e.lastModified
    case Missing => mtime != 0.0
    case Null => true
    case At(t) => t != mtime
  }

  datatype Visit = Visit(push: bool, write: bool, entry: Entry)

  /** What the lister decides on reading the entry of an existing file. */
  function Decide(redis: map<Path, Entry>, p: Path, mtime: real): Visit {
    if p !in redis then Visit(true, true, NEW_ENTRY.(lastModified := At(mtime)))
    else if LooksModified(redis[p], mtime) then
      Visit(redis[p].processed, true, redis[p].(lastModified := At(mtime), processed := false))
    else Visit(false, false, redis[p])
  }

  // ---------------------------------------------------------------------------------------------
  // The steps
  // ---------------------------------------------------------------------------------------------

  datatype Step =
    | FileChange(p: Path, mtime: Option<real>)
    | VisitFile(p: Path)
    | PushThenCrash(p: Path)
    | ListerRead(p: Path)
    | ListerWrite
    | ListerCrash
    | Deliver(w: Worker, p: Path)
    | TextOk(w: Worker)
    | EmbedOk(w: Worker)
    | Fail(w: Worker, stage: Stage)
    | FailRecorded(w: Worker)
    | GiveUp(w: Worker)
    | Ack(w: Worker)
    | IndexerCrash(w: Worker)
    | AdminDelete(p: Path)

  predicate InPhase(s: State, w: Worker, phases: set<Phase>) {
    w in s.inflight && s.inflight[w].phase in phases
  }

  predicate Enabled(s: State, step: Step) {
    match step
    case FileChange(_, _) => true
    case VisitFile(p) => s.lister.Idle? && p in s.files
    case PushThenCrash(p) => s.lister.Idle? && p in s.files && Decide(s.redis, p, s.files[p]).push
    case ListerRead(p) => s.lister.Idle? && p in s.files
    case ListerWrite => s.lister.ToWrite?
    case ListerCrash => true
    case Deliver(w, p) => w !in s.inflight && p in s.queue
    case TextOk(w) => InPhase(s, w, {Started}) && s.inflight[w].path in s.files
    case EmbedOk(w) => InPhase(s, w, {TextDone})
    case Fail(w, stage) =>
      || (stage in {TextIndexing, PageGuard} && InPhase(s, w, {Started}))
      || (stage == EmbeddingIndexing && InPhase(s, w, {TextDone}))
    case FailRecorded(w) => InPhase(s, w, {Started, TextDone, Failing})
    case GiveUp(w) => InPhase(s, w, {Started, TextDone, Failing})
    case Ack(w) => InPhase(s, w, {Done})
    case IndexerCrash(w) => w in s.inflight
    case AdminDelete(p) => true
  }

  function SetPhase(s: State, w: Worker, phase: Phase): State
    requires w in s.inflight
  {
    s.(inflight := s.inflight[w := s.inflight[w].(phase := phase)])
  }

  function Read(s: State, p: Path): State
    requires p in s.files
  {
    var v := Decide(s.redis, p, s.files[p]);
    s.(queue := if v.push then s.queue + multiset{p} else s.queue,
       lister := if v.write then ToWrite(p, v.entry) else Idle)
  }

  function Write(s: State): State {
    match s.lister
    case Idle => s
    case ToWrite(p, e) => s.(redis := s.redis[p := e], lister := Idle)
  }

  function Apply(s: State, step: Step): State
    requires Enabled(s, step)
  {
    match step
    case FileChange(p, mtime) =>
      s.(files := if mtime.Some? then s.files[p := mtime.value] else s.files - {p})
    case VisitFile(p) => Write(Read(s, p))
    case PushThenCrash(p) => Read(s, p).(lister := Idle)
    case ListerRead(p) => Read(s, p)
    case ListerWrite => Write(s)
    case ListerCrash => s.(lister := Idle)
    case Deliver(w, p) =>
      s.(queue := s.queue - multiset{p}, inflight := s.inflight[w := Delivery(p, Started)])
    case TextOk(w) =>
      var p := s.inflight[w].path;
      SetPhase(s, w, TextDone).(redis := Saved(s.redis, p, RecordText(s.files[p])))
    case EmbedOk(w) =>
      SetPhase(s, w, Done).(redis := Saved(s.redis, s.inflight[w].path, RecordEmbedding))
    case Fail(w, stage) =>
      var p := s.inflight[w].path;
      SetPhase(s, w, Failing).(redis := Saved(s.redis, p, RecordFailure(FileTime(s.files, p), stage)))
    case FailRecorded(w) =>
      var p := s.inflight[w].path;
      SetPhase(s, w, Done).(redis := Saved(s.redis, p, RecordFailure(FileTime(s.files, p), Unknown)))
    case GiveUp(w) => SetPhase(s, w, Done)
    case Ack(w) => s.(inflight := s.inflight - {w})
    case IndexerCrash(w) =>
      s.(queue := s.queue + multiset{s.inflight[w].path}, inflight := s.inflight - {w})
    case AdminDelete(p) => s.(redis := s.redis - {p})
  }

  /** A run: the states it passes through, one more than its steps. */
  ghost predicate IsRun(states: seq<State>, steps: seq<Step>) {
    && |states| == |steps| + 1
    && states[0] == INITIAL
    && (forall i {:trigger steps[i]} :: 0 <= i < |steps| ==>
          Enabled(states[i], steps[i]) && states[i + 1] == Apply(states[i], steps[i]))
  }

  /** Which steps a run may take: all of them; no unrecorded failure; visits in one step; both; or
      both with a single worker. */
  datatype Discipline = AnyStep | FailuresRecorded | VisitsAtomic | Coarse | CoarseOneWorker

  predicate Allows(d: Discipline, step: Step) {
    match d
    case AnyStep => true
    case FailuresRecorded => !step.GiveUp?
    case VisitsAtomic => !step.ListerRead? && !step.ListerWrite?
    case Coarse => !step.GiveUp? && !step.ListerRead? && !step.ListerWrite?
    case CoarseOneWorker => !step.GiveUp? && !step.ListerRead? && !step.ListerWrite? && (step.Deliver? ==> step.w == 0)
  }

  ghost predicate Obeys(d: Discipline, steps: seq<Step>) {
    forall i :: 0 <= i < |steps| ==> Allows(d, steps[i])
  }

  /** Some run under the discipline ends in `s`. */
  ghost predicate Reachable(d: Discipline, s: State) {
    exists states: seq<State>, steps: seq<Step> :: IsRun(states, steps) && Obeys(d, steps) && states[|steps|] == s
  }

  // ---------------------------------------------------------------------------------------------
  // No stranded document
  // ---------------------------------------------------------------------------------------------

  /** Some worker other than `except` handles `p` and is in one of `phases`. */
  predicate Handled(s: State, p: Path, phases: set<Phase>, except: set<Worker>) {
    exists w :: w in s.inflight && w !in except && s.inflight[w].path == p && s.inflight[w].phase in phases
  }

  const ACTIVE: set<Phase> := {Started, TextDone, Failing}
  const ALL_PHASES: set<Phase> := ACTIVE + {Done}

  /** A document is stranded when its entry is neither processed nor failed, so the lister will not
      queue it again, and yet no message for it is queued or unacknowledged. */
  predicate Stranded(s: State, p: Path) {
    p in s.redis && !Settled(s.redis[p]) && p !in s.queue && !Handled(s, p, ALL_PHASES, {})
  }

  /** The inductive form: a delivery whose outcome is already recorded does not count. */
  predicate Safe(s: State) {
    forall p :: p in s.redis && !Settled(s.redis[p]) ==> p in s.queue || Handled(s, p, ACTIVE, {})
  }

  lemma SafeMeansNoneStranded(s: State, p: Path)
    requires Safe(s)
    ensures !Stranded(s, p)
  {
    if p in s.redis && !Settled(s.redis[p]) && p !in s.queue {
      var w :| w in s.inflight && s.inflight[w].path == p && s.inflight[w].phase in ACTIVE;
      assert s.inflight[w].phase in ALL_PHASES;
    }
  }

  /** The two moments at which an update is lost: the lister writes back what it read before a worker
      finished, or a worker's last resort, recording the failure, fails too and the message is
      acknowledged all the same. */
  predicate Loses(s: State, step: Step) {
    match step
    case ListerWrite =>
      && s.lister.ToWrite? && !Settled(s.lister.entry)
      && s.lister.path !in s.queue && !Handled(s, s.lister.path, ACTIVE, {})
    case GiveUp(w) =>
      && w in s.inflight
      && (var p := s.inflight[w].path;
          p in s.redis && !Settled(s.redis[p]) && p !in s.queue && !Handled(s, p, ACTIVE, {w}))
    case _ => false
  }

  predicate Outstanding(s: State, p: Path) {
    p in s.queue || Handled(s, p, ACTIVE, {})
  }

  predicate ByWorker(step: Step) {
    step.TextOk? || step.EmbedOk? || step.Fail? || step.FailRecorded? || step.GiveUp? || step.Ack? || step.IndexerCrash?
  }

  /** Whoever handles a path keeps doing so, except the worker whose step it is. */
  lemma HandledSurvives(s: State, step: Step, p: Path, phases: set<Phase>)
    requires Enabled(s, step)
    requires Handled(s, p, phases, if ByWorker(step) then {step.w} else {})
    ensures Handled(Apply(s, step), p, phases, if ByWorker(step) then {step.w} else {})
  {
    var except := if ByWorker(step) then {step.w} else {};
    var w :| w in s.inflight && w !in except && s.inflight[w].path == p && s.inflight[w].phase in phases;
    var t := Apply(s, step);
    assert w in t.inflight && t.inflight[w] == s.inflight[w];
  }

  lemma HandledByOther(s: State, p: Path, phases: set<Phase>, w: Worker)
    requires Handled(s, p, phases, {})
    ensures Handled(s, p, phases, {w}) || (w in s.inflight && s.inflight[w].path == p && s.inflight[w].phase in phases)
  {
    var v :| v in s.inflight && s.inflight[v].path == p && s.inflight[v].phase in phases;
  }

  lemma HandledWeaken(s: State, p: Path, phases: set<Phase>, except: set<Worker>)
    requires Handled(s, p, phases, except)
    ensures Handled(s, p, phases, {})
  {
    var w :| w in s.inflight && w !in except && s.inflight[w].path == p && s.inflight[w].phase in phases;
    assert w !in {};
  }

  lemma OutstandingAfterWorkerStep(s: State, step: Step, p: Path)
    requires Safe(s) && Enabled(s, step) && ByWorker(step) && !Loses(s, step)
    requires p in Apply(s, step).redis && !Settled(Apply(s, step).redis[p])
    ensures Outstanding(Apply(s, step), p)
  {
    var t, w := Apply(s, step), step.w;
    if Handled(s, p, ACTIVE, {w}) {
      HandledSurvives(s, step, p, ACTIVE);
      HandledWeaken(t, p, ACTIVE, {w});
    } else if p !in s.queue {
      if p in s.redis && !Settled(s.redis[p]) {
        HandledByOther(s, p, ACTIVE, w);
      }
      if step.TextOk? {
        assert w in t.inflight && w !in {} && t.inflight[w].path == p && t.inflight[w].phase in ACTIVE;
      }
    }
  }

  lemma OutstandingAfterOtherStep(s: State, step: Step, p: Path)
    requires Safe(s) && Enabled(s, step) && !ByWorker(step) && !Loses(s, step)
    requires p in Apply(s, step).redis && !Settled(Apply(s, step).redis[p])
    ensures Outstanding(Apply(s, step), p)
  {
    var t := Apply(s, step);
    if Handled(s, p, ACTIVE, {}) {
      HandledSurvives(s, step, p, ACTIVE);
    } else if step.Deliver? && p == step.p {
      assert step.w in t.inflight && step.w !in {} && t.inflight[step.w].phase in ACTIVE;
    }
  }

  lemma LosingAbandons(s: State, step: Step)
    requires Enabled(s, step) && Loses(s, step)
    ensures exists p :: Abandoned(Apply(s, step), p)
  {
    var t := Apply(s, step);
    if step.ListerWrite? {
      assert Abandoned(t, s.lister.path);
    } else {
      var w := step.w;
      var p := s.inflight[w].path;
      assert Abandoned(t, p);
    }
  }

  /** Unsettled, with no message that is queued or whose handling may still settle it.  Unless a crash
      brings the message back before it is acknowledged, the document is then stranded. */
  predicate Abandoned(s: State, p: Path) {
    p in s.redis && !Settled(s.redis[p]) && !Outstanding(s, p)
  }

  /** One step from a safe state: the state stays safe exactly unless the step is one of the two losing
      ones. */
  lemma StepStaysSafeExactlyWhen(s: State, step: Step)
    requires Safe(s) && Enabled(s, step)
    ensures Safe(Apply(s, step)) <==> !Loses(s, step)
  {
    var t := Apply(s, step);
    if Loses(s, step) {
      LosingAbandons(s, step);
    } else {
      forall p | p in t.redis && !Settled(t.redis[p]) ensures Outstanding(t, p) {
        if ByWorker(step) { OutstandingAfterWorkerStep(s, step, p); } else { OutstandingAfterOtherStep(s, step, p); }
      }
    }
  }

  lemma StepAt(states: seq<State>, steps: seq<Step>, i: nat)
    requires IsRun(states, steps) && i < |steps|
    ensures Enabled(states[i], steps[i]) && states[i + 1] == Apply(states[i], steps[i])
  {
    assert steps[i] == steps[i];
  }

  predicate LosesAt(states: seq<State>, steps: seq<Step>, i: nat) {
    i < |states| && i < |steps| && Loses(states[i], steps[i])
  }

  lemma NextStaysSafe(states: seq<State>, steps: seq<Step>, k: nat)
    requires IsRun(states, steps) && k < |steps| && Safe(states[k]) && !LosesAt(states, steps, k)
    ensures Safe(states[k + 1])
  {
    StepAt(states, steps, k);
    StepStaysSafeExactlyWhen(states[k], steps[k]);
  }

  lemma {:induction false} SafeUpTo(states: seq<State>, steps: seq<Step>, k: nat)
    requires IsRun(states, steps) && k <= |steps| && (forall i :: 0 <= i < |steps| ==> !LosesAt(states, steps, i))
    ensures Safe(states[k])
  {
    if k > 0 {
      SafeUpTo(states, steps, k - 1);
      assert !LosesAt(states, steps, k - 1);
      NextStaysSafe(states, steps, k - 1);
    }
  }

  /** Over whole runs of the fine-grained machine. */
  lemma RunIsSafeExactlyWhenNoStepLoses(states: seq<State>, steps: seq<Step>)
    requires IsRun(states, steps)
    ensures (forall k :: 0 <= k <= |steps| ==> Safe(states[k]))
       <==> (forall i :: 0 <= i < |steps| ==> !Loses(states[i], steps[i]))
  {
    if forall i :: 0 <= i < |steps| ==> !Loses(states[i], steps[i]) {
      forall k | 0 <= k <= |steps| ensures Safe(states[k]) {
        SafeUpTo(states, steps, k);
      }
    } else {
      var i :| 0 <= i < |steps| && Loses(states[i], steps[i]);
      assert states[i + 1] == Apply(states[i], steps[i]);
      LosingAbandons(states[i], steps[i]);
    }
  }

  /** A write that directly follows its read is harmless: this is why a whole visit may be one step. */
  lemma PromptWriteNeverLoses(s: State, p: Path)
    requires Safe(s) && Enabled(s, ListerRead(p))
    ensures !Loses(Read(s, p), ListerWrite)
  {
    if !Decide(s.redis, p, s.files[p]).push && Handled(s, p, ACTIVE, {}) {
      HandledSurvives(s, ListerRead(p), p, ACTIVE);
    }
  }

  // ---------------------------------------------------------------------------------------------
  // The very step that strands a document
  // ---------------------------------------------------------------------------------------------

  /** The lister writes an unsettled entry when nothing is left for it, or the last message of an
      unsettled document is acknowledged. */
  predicate Strands(s: State, step: Step, p: Path) {
    match step
    case ListerWrite =>
      && s.lister.ToWrite? && s.lister.path == p && !Settled(s.lister.entry)
      && p !in s.queue && !Handled(s, p, ALL_PHASES, {})
    case Ack(w) =>
      && w in s.inflight && s.inflight[w].path == p && p in s.redis && !Settled(s.redis[p])
      && p !in s.queue && !Handled(s, p, ALL_PHASES, {w})
    case _ => false
  }

  lemma EveryPhase(phase: Phase)
    ensures phase in ALL_PHASES
  {
    match phase { case Started => case TextDone => case Failing => case Done => }
  }

  /** A worker that goes on handling `p`. */
  lemma HandledBy(s: State, w: Worker, p: Path)
    requires w in s.inflight && s.inflight[w].path == p
    ensures Handled(s, p, ALL_PHASES, {})
  {
    EveryPhase(s.inflight[w].phase);
    assert w !in {};
  }

  lemma WorkerStepStrands(s: State, step: Step, p: Path)
    requires Enabled(s, step) && ByWorker(step) && !Stranded(s, p) && Stranded(Apply(s, step), p)
    ensures Strands(s, step, p)
  {
    var t, w := Apply(s, step), step.w;
    if Handled(s, p, ALL_PHASES, {w}) {
      HandledSurvives(s, step, p, ALL_PHASES);
      HandledWeaken(t, p, ALL_PHASES, {w});
    } else if s.inflight[w].path == p && !step.Ack? && !step.IndexerCrash? {
      HandledBy(t, w, p);
    } else if Handled(s, p, ALL_PHASES, {}) {
      HandledByOther(s, p, ALL_PHASES, w);
    }
  }

  lemma OtherStepStrands(s: State, step: Step, p: Path)
    requires Enabled(s, step) && !ByWorker(step) && !Stranded(s, p) && Stranded(Apply(s, step), p)
    ensures Strands(s, step, p)
  {
    var t := Apply(s, step);
    if Handled(s, p, ALL_PHASES, {}) {
      HandledSurvives(s, step, p, ALL_PHASES);
    } else if step.Deliver? && step.p == p {
      HandledBy(t, step.w, p);
    }
  }

  lemma NobodyElseHandles(s: State, step: Step, p: Path)
    requires Enabled(s, step) && Strands(s, step, p)
    ensures !Handled(Apply(s, step), p, ALL_PHASES, {})
  {
    var t := Apply(s, step);
    var except := if step.Ack? then {step.w} else {};
    forall v | v in t.inflight && v !in {} && t.inflight[v].phase in ALL_PHASES ensures t.inflight[v].path != p {
      assert v in s.inflight && s.inflight[v] == t.inflight[v] && v !in except;
    }
  }

  /** From a state in which `p` is not stranded, one step strands it exactly then. */
  lemma StepStrandsExactlyWhen(s: State, step: Step, p: Path)
    requires Enabled(s, step) && !Stranded(s, p)
    ensures Stranded(Apply(s, step), p) <==> Strands(s, step, p)
  {
    if Strands(s, step, p) {
      NobodyElseHandles(s, step, p);
    } else if Stranded(Apply(s, step), p) {
      if ByWorker(step) { WorkerStepStrands(s, step, p); } else { OtherStepStrands(s, step, p); }
    }
  }

  predicate StrandsAt(states: seq<State>, steps: seq<Step>, i: nat, p: Path) {
    i < |states| && i < |steps| && Strands(states[i], steps[i], p)
  }

  lemma {:induction false} NotStrandedUpTo(states: seq<State>, steps: seq<Step>, p: Path, k: nat)
    requires IsRun(states, steps) && k <= |steps| && (forall i :: 0 <= i < |steps| ==> !StrandsAt(states, steps, i, p))
    ensures !Stranded(states[k], p)
  {
    if k > 0 {
      NotStrandedUpTo(states, steps, p, k - 1);
      StepAt(states, steps, k - 1);
      assert !StrandsAt(states, steps, k - 1, p);
      StepStrandsExactlyWhen(states[k - 1], steps[k - 1], p);
    }
  }

  /** Over whole runs, all interleavings, crashes and lost writes included: a document is never stranded
      exactly when no step strands it. */
  lemma RunStrandsExactlyWhen(states: seq<State>, steps: seq<Step>, p: Path)
    requires IsRun(states, steps)
    ensures (forall k :: 0 <= k <= |steps| ==> !Stranded(states[k], p))
       <==> (forall i :: 0 <= i < |steps| ==> !StrandsAt(states, steps, i, p))
  {
    if forall i :: 0 <= i < |steps| ==> !StrandsAt(states, steps, i, p) {
      forall k | 0 <= k <= |steps| ensures !Stranded(states[k], p) {
        NotStrandedUpTo(states, steps, p, k);
      }
    } else {
      var i :| 0 <= i < |steps| && StrandsAt(states, steps, i, p);
      StepAt(states, steps, i);
      if !Stranded(states[i], p) {
        StepStrandsExactlyWhen(states[i], steps[i], p);
        assert Stranded(states[i + 1], p);
      }
    }
  }

  // ---------------------------------------------------------------------------------------------
  // Runs in which visits are atomic and failures can be recorded
  // ---------------------------------------------------------------------------------------------

  /** A failure recorded with a specific stage is still about to be overwritten. */
  predicate StageIsInterim(s: State) {
    forall p :: p in s.redis && InterimAt(s, p) ==> p in s.queue || Handled(s, p, {Started, Failing}, {})
  }

  predicate ProcessedIsEmbedded(s: State) {
    forall p :: p in s.redis && s.redis[p].processed ==> s.redis[p].embeddingIndexed
  }

  predicate CoarseInvariant(s: State) {
    s.lister.Idle? && Safe(s) && ProcessedIsEmbedded(s) && StageIsInterim(s)
  }

  lemma CoarseStepKeepsStages(s: State, step: Step)
    requires CoarseInvariant(s) && Enabled(s, step) && Allows(Coarse, step)
    ensures StageIsInterim(Apply(s, step))
  {
    var t := Apply(s, step);
    var phases := {Started, Failing};
    forall p | InterimAt(t, p) ensures p in t.queue || Handled(t, p, phases, {}) {
      if ByWorker(step) { InterimAfterWorkerStep(s, step, p); } else { InterimAfterOtherStep(s, step, p); }
    }
  }

  predicate InterimAt(s: State, p: Path) {
    p in s.redis && s.redis[p].failed && s.redis[p].errorStage != Some(Unknown)
  }

  lemma InterimAfterWorkerStep(s: State, step: Step, p: Path)
    requires CoarseInvariant(s) && Enabled(s, step) && Allows(Coarse, step) && ByWorker(step)
    requires InterimAt(Apply(s, step), p)
    ensures p in Apply(s, step).queue || Handled(Apply(s, step), p, {Started, Failing}, {})
  {
    var t, phases := Apply(s, step), {Started, Failing};
    if Handled(s, p, phases, {step.w}) {
      HandledSurvives(s, step, p, phases);
      HandledWeaken(t, p, phases, {step.w});
    } else {
      if InterimAt(s, p) && p !in s.queue {
        HandledByOther(s, p, phases, step.w);
      }
      if step.Fail? {
        assert step.w in t.inflight && step.w !in {} && t.inflight[step.w].phase in phases;
      }
    }
  }

  lemma InterimAfterOtherStep(s: State, step: Step, p: Path)
    requires CoarseInvariant(s) && Enabled(s, step) && Allows(Coarse, step) && !ByWorker(step)
    requires InterimAt(Apply(s, step), p)
    ensures p in Apply(s, step).queue || Handled(Apply(s, step), p, {Started, Failing}, {})
  {
    var t, phases := Apply(s, step), {Started, Failing};
    if Handled(s, p, phases, {}) {
      HandledSurvives(s, step, p, phases);
    } else if step.Deliver? && p == step.p {
      assert step.w in t.inflight && step.w !in {} && t.inflight[step.w].phase in phases;
    }
  }

  lemma CoarseStepKeepsInvariant(s: State, step: Step)
    requires CoarseInvariant(s) && Enabled(s, step) && Allows(Coarse, step)
    ensures CoarseInvariant(Apply(s, step))
  {
    StepStaysSafeExactlyWhen(s, step);
    CoarseStepKeepsStages(s, step);
    CoarseStepKeepsEmbedded(s, step);
  }

  lemma CoarseStepKeepsEmbedded(s: State, step: Step)
    requires s.lister.Idle? && ProcessedIsEmbedded(s) && Enabled(s, step) && Allows(Coarse, step)
    ensures Apply(s, step).lister.Idle? && ProcessedIsEmbedded(Apply(s, step))
  { }

  lemma {:induction false} CoarseRunKeepsInvariant(states: seq<State>, steps: seq<Step>, k: nat)
    requires IsRun(states, steps) && Obeys(Coarse, steps) && k <= |steps|
    ensures CoarseInvariant(states[k])
  {
    if k > 0 {
      CoarseRunKeepsInvariant(states, steps, k - 1);
      StepAt(states, steps, k - 1);
      CoarseStepKeepsInvariant(states[k - 1], steps[k - 1]);
    }
  }

  /** The promise of the pipeline.  Whatever the library, the workers, the administrator and the
      crashes do, a document that is neither processed nor failed always has a message queued or
      unacknowledged, and `processed` means embedded. */
  lemma NoStrandedDocument(s: State, p: Path)
    requires Reachable(Coarse, s)
    ensures !Stranded(s, p)
    ensures ProcessedIsEmbedded(s)
  {
    var states: seq<State>, steps: seq<Step> :| IsRun(states, steps) && Obeys(Coarse, steps) && states[|steps|] == s;
    CoarseRunKeepsInvariant(states, steps, |steps|);
    SafeMeansNoneStranded(s, p);
  }

  /** When the queue has drained and the workers are idle, every tracked document has an outcome, and
      every recorded failure carries the catch-all stage: the stage of the phase that really failed
      never survives the worker's outer handler. */
  lemma DrainedMeansDecided(s: State, p: Path)
    requires Reachable(Coarse, s)
    requires s.queue == multiset{} && s.inflight == map[] && p in s.redis
    ensures Settled(s.redis[p])
    ensures s.redis[p].failed ==> s.redis[p].errorStage == Some(Unknown)
  {
    var states: seq<State>, steps: seq<Step> :| IsRun(states, steps) && Obeys(Coarse, steps) && states[|steps|] == s;
    CoarseRunKeepsInvariant(states, steps, |steps|);
  }

  // ---------------------------------------------------------------------------------------------
  // One worker: processed and failed exclude each other
  // ---------------------------------------------------------------------------------------------

  predicate OutcomesExclusive(s: State) {
    && s.lister.Idle?
    && s.inflight.Keys <= {0}
    && (forall p :: p in s.redis && s.redis[p].processed ==> !s.redis[p].failed && s.redis[p].embeddingIndexed)
    && (0 in s.inflight && s.inflight[0].phase == TextDone && s.inflight[0].path in s.redis ==>
          !s.redis[s.inflight[0].path].failed)
  }

  lemma OnlyWorkersStep(s: State, step: Step)
    requires OutcomesExclusive(s) && Enabled(s, step) && Allows(CoarseOneWorker, step) && ByWorker(step)
    ensures OutcomesExclusive(Apply(s, step))
  { }

  lemma OtherStepWithOneWorker(s: State, step: Step)
    requires OutcomesExclusive(s) && Enabled(s, step) && Allows(CoarseOneWorker, step) && !ByWorker(step)
    ensures OutcomesExclusive(Apply(s, step))
  { }

  lemma {:induction false} OneWorkerUpTo(states: seq<State>, steps: seq<Step>, k: nat)
    requires IsRun(states, steps) && Obeys(CoarseOneWorker, steps) && k <= |steps|
    ensures OutcomesExclusive(states[k])
  {
    if k > 0 {
      OneWorkerUpTo(states, steps, k - 1);
      StepAt(states, steps, k - 1);
      if ByWorker(steps[k - 1]) {
        OnlyWorkersStep(states[k - 1], steps[k - 1]);
      } else {
        OtherStepWithOneWorker(states[k - 1], steps[k - 1]);
      }
    }
  }

  /** In a deployment with a single worker, processed implies embedded and not failed. */
  lemma OneWorkerKeepsOutcomesExclusive(s: State, p: Path)
    requires Reachable(CoarseOneWorker, s) && p in s.redis && s.redis[p].processed
    ensures s.redis[p].embeddingIndexed && !s.redis[p].failed && Classify(s.redis[p]) == StatusProcessed
  {
    var states: seq<State>, steps: seq<Step> :|
      IsRun(states, steps) && Obeys(CoarseOneWorker, steps) && states[|steps|] == s;
    OneWorkerUpTo(states, steps, |steps|);
  }

  // ---------------------------------------------------------------------------------------------
  // Any number of workers, any interleaving: when processed and failed meet
  // ---------------------------------------------------------------------------------------------

  predicate IsBoth(s: State, p: Path) {
    p in s.redis && s.redis[p].processed && s.redis[p].failed
  }

  /** The lister never writes "processed". */
  predicate NoneIsBoth(s: State) {
    && (forall p :: p in s.redis ==> !IsBoth(s, p))
    && (s.lister.ToWrite? ==> !s.lister.entry.processed)
  }

  /** A worker completes a document that another one has marked as failed since. */
  predicate Clashes(s: State, step: Step) {
    && step.EmbedOk? && step.w in s.inflight
    && var p := s.inflight[step.w].path; p in s.redis && s.redis[p].failed
  }

  lemma WorkerStepKeepsNoneBoth(s: State, step: Step)
    requires NoneIsBoth(s) && Enabled(s, step) && ByWorker(step) && !Clashes(s, step)
    ensures NoneIsBoth(Apply(s, step))
  { }

  lemma OtherStepKeepsNoneBoth(s: State, step: Step)
    requires NoneIsBoth(s) && Enabled(s, step) && !ByWorker(step)
    ensures NoneIsBoth(Apply(s, step))
  { }

  /** From a state in which no entry is both processed and failed, one step makes one both exactly then. */
  lemma StepClashesExactlyWhen(s: State, step: Step)
    requires NoneIsBoth(s) && Enabled(s, step)
    ensures NoneIsBoth(Apply(s, step)) <==> !Clashes(s, step)
    ensures Clashes(s, step) ==> IsBoth(Apply(s, step), s.inflight[step.w].path)
  {
    if Clashes(s, step) {
      assert IsBoth(Apply(s, step), s.inflight[step.w].path);
    } else if ByWorker(step) {
      WorkerStepKeepsNoneBoth(s, step);
    } else {
      OtherStepKeepsNoneBoth(s, step);
    }
  }

  predicate ClashesAt(states: seq<State>, steps: seq<Step>, i: nat) {
    i < |states| && i < |steps| && Clashes(states[i], steps[i])
  }

  lemma {:induction false} NoneBothUpTo(states: seq<State>, steps: seq<Step>, k: nat)
    requires IsRun(states, steps) && k <= |steps| && (forall i :: 0 <= i < |steps| ==> !ClashesAt(states, steps, i))
    ensures NoneIsBoth(states[k])
  {
    if k > 0 {
      NoneBothUpTo(states, steps, k - 1);
      StepAt(states, steps, k - 1);
      assert !ClashesAt(states, steps, k - 1);
      StepClashesExactlyWhen(states[k - 1], steps[k - 1]);
    }
  }

  /** Over whole runs with any number of workers: no entry is ever both processed and failed exactly when
      no worker completes a document that is marked as failed. */
  lemma OutcomesAgreeExactlyWhen(states: seq<State>, steps: seq<Step>)
    requires IsRun(states, steps)
    ensures (forall k, p :: 0 <= k <= |steps| ==> !IsBoth(states[k], p))
       <==> (forall i :: 0 <= i < |steps| ==> !ClashesAt(states, steps, i))
  {
    if forall i :: 0 <= i < |steps| ==> !ClashesAt(states, steps, i) {
      forall k, p | 0 <= k <= |steps| ensures !IsBoth(states[k], p) {
        NoneBothUpTo(states, steps, k);
      }
    } else {
      var i :| 0 <= i < |steps| && ClashesAt(states, steps, i);
      StepAt(states, steps, i);
      ClashMakesBoth(states[i], steps[i]);
      assert IsBoth(states[i + 1], states[i].inflight[steps[i].w].path);
    }
  }

  lemma ClashMakesBoth(s: State, step: Step)
    requires Enabled(s, step) && Clashes(s, step)
    ensures IsBoth(Apply(s, step), s.inflight[step.w].path)
  { }

  /** A run is extended by any allowed step that its last state enables. */
  lemma Then(d: Discipline, s: State, step: Step) returns (t: State)
    requires Reachable(d, s) && Enabled(s, step) && Allows(d, step)
    ensures Reachable(d, t) && t == Apply(s, step)
  {
    t := Apply(s, step);
    var states: seq<State>, steps: seq<Step> :| IsRun(states, steps) && Obeys(d, steps) && states[|steps|] == s;
    var states', steps' := states + [t], steps + [step];
    forall i {:trigger steps'[i]} | 0 <= i < |steps'|
      ensures Enabled(states'[i], steps'[i]) && states'[i + 1] == Apply(states'[i], steps'[i])
    {
      if i < |steps| {
        StepAt(states, steps, i);
      }
    }
    assert IsRun(states', steps') && Obeys(d, steps') && states'[|steps'|] == t;
  }

  lemma First(d: Discipline, step: Step) returns (t: State)
    requires Enabled(INITIAL, step) && Allows(d, step)
    ensures Reachable(d, t) && t == Apply(INITIAL, step)
  {
    var none: seq<Step> := [];
    assert IsRun([INITIAL], none) && Obeys(d, none) && [INITIAL][|none|] == INITIAL;
    t := Then(d, INITIAL, step);
  }

  /** With a second worker and a message pushed twice (the lister crashed after its push), an entry
      can end up both processed and failed; the administrator then sees a failure. */
  lemma TwoWorkersCanDisagree(p: Path, t: real)
    ensures exists s ::
              && Reachable(Coarse, s) && s.queue == multiset{} && s.inflight == map[] && p in s.redis
              && s.redis[p].processed && s.redis[p].failed && Classify(s.redis[p]) == StatusFailed
  {
    var s := SecondOneFails(p, t);
    s := Then(Coarse, s, EmbedOk(0));
    s := Then(Coarse, s, Ack(0));
    assert s.inflight == map[];
  }

  lemma SecondOneFails(p: Path, t: real) returns (s: State)
    ensures Reachable(Coarse, s) && s.queue == multiset{} && s.inflight == map[0 := Delivery(p, TextDone)]
    ensures p in s.redis && s.redis[p].failed
  {
    s := BothIndexTheText(p, t);
    s := Then(Coarse, s, Fail(1, EmbeddingIndexing));
    s := Then(Coarse, s, FailRecorded(1));
    s := Then(Coarse, s, Ack(1));
    assert s.inflight == map[0 := Delivery(p, TextDone)];
  }

  lemma BothIndexTheText(p: Path, t: real) returns (s: State)
    ensures Reachable(Coarse, s)
    ensures s == State(map[p := t], map[p := Entry(At(t), false, false, true, false, None)], multiset{},
                       map[0 := Delivery(p, TextDone), 1 := Delivery(p, TextDone)], Idle)
  {
    s := DeliveredTwice(p, t);
    s := Then(Coarse, s, TextOk(0));
    s := Then(Coarse, s, TextOk(1));
  }

  lemma DeliveredTwice(p: Path, t: real) returns (s: State)
    ensures Reachable(Coarse, s)
    ensures s == State(map[p := t], map[p := Entry(At(t), false, false, false, false, None)], multiset{},
                       map[0 := Delivery(p, Started), 1 := Delivery(p, Started)], Idle)
  {
    s := First(Coarse, FileChange(p, Some(t)));
    s := Then(Coarse, s, PushThenCrash(p));
    assert s.queue == multiset{p};
    s := Then(Coarse, s, VisitFile(p));
    assert s.queue == multiset{p, p};
    s := Then(Coarse, s, Deliver(0, p));
    assert s.queue == multiset{p} && s.inflight == map[0 := Delivery(p, Started)];
    s := Then(Coarse, s, Deliver(1, p));
    assert s.queue == multiset{};
  }

  // ---------------------------------------------------------------------------------------------
  // The two ways to lose a document, and what a lost document needs
  // ---------------------------------------------------------------------------------------------

  /** The state in which `p` is tracked as unprocessed and nothing else is going on. */
  function Forgotten(p: Path, t: real): State {
    State(map[p := t], map[p := Entry(At(t), false, false, false, false, None)], multiset{}, map[], Idle)
  }

  /** The lister's late write: an indexer that finishes between the push and the write leaves an entry
      that says unprocessed, with no message left. */
  lemma LateWriteStrands(p: Path, t: real)
    ensures Reachable(FailuresRecorded, Forgotten(p, t)) && Stranded(Forgotten(p, t), p)
  {
    var e := Entry(At(t), false, false, false, false, None);
    var s := First(FailuresRecorded, FileChange(p, Some(t)));
    s := Then(FailuresRecorded, s, ListerRead(p));
    assert s == State(map[p := t], map[], multiset{p}, map[], ToWrite(p, e));
    s := Then(FailuresRecorded, s, Deliver(0, p));
    assert s.queue == multiset{} && s.inflight == map[0 := Delivery(p, Started)];
    s := FinishedBeforeTheWrite(p, t, s);
    s := Then(FailuresRecorded, s, ListerWrite);
    assert s.redis == map[p := e];
  }

  lemma FinishedBeforeTheWrite(p: Path, t: real, s: State) returns (r: State)
    requires Reachable(FailuresRecorded, s)
    requires p in s.files && s.inflight == map[0 := Delivery(p, Started)]
    requires s.redis == map[]
    ensures Reachable(FailuresRecorded, r)
    ensures r == s.(inflight := map[], redis := map[p := Entry(At(s.files[p]), true, false, true, true, None)])
  {
    r := Then(FailuresRecorded, s, TextOk(0));
    r := Then(FailuresRecorded, r, EmbedOk(0));
    r := Then(FailuresRecorded, r, Ack(0));
    assert r.inflight == map[];
  }

  /** The swallowed error: a failure that cannot be recorded is acknowledged all the same. */
  lemma UnrecordedFailureStrands(p: Path, t: real)
    ensures Reachable(VisitsAtomic, Forgotten(p, t)) && Stranded(Forgotten(p, t), p)
  {
    var s := First(VisitsAtomic, FileChange(p, Some(t)));
    s := Then(VisitsAtomic, s, VisitFile(p));
    assert s == Forgotten(p, t).(queue := multiset{p});
    s := Then(VisitsAtomic, s, Deliver(0, p));
    assert s == Forgotten(p, t).(inflight := map[0 := Delivery(p, Started)]);
    s := Then(VisitsAtomic, s, GiveUp(0));
    s := Then(VisitsAtomic, s, Ack(0));
    assert s.inflight == map[];
  }

  /** Not processed, and no message that could change that: a failed or a stranded document. */
  predicate Parked(s: State, p: Path) {
    p in s.redis && !s.redis[p].processed && p !in s.queue && !Handled(s, p, ALL_PHASES, {})
  }

  lemma NobodyTakesUp(s: State, step: Step, p: Path)
    requires Enabled(s, step) && Allows(Coarse, step) && Parked(s, p)
    ensures !Handled(Apply(s, step), p, ALL_PHASES, {})
  {
    var t, phases := Apply(s, step), ALL_PHASES;
    forall w | w in t.inflight && w !in {} && t.inflight[w].phase in phases ensures t.inflight[w].path != p {
      if w in s.inflight {
        assert s.inflight[w].phase in phases;
        assert w !in {};
      }
    }
  }

  predicate StaysParked(s: State, t: State, p: Path)
    requires p in s.redis
  {
    && p in t.redis && !t.redis[p].processed && t.redis[p].failed == s.redis[p].failed
    && p !in t.queue && t.lister.Idle?
  }

  lemma WorkersLeaveParked(s: State, step: Step, p: Path)
    requires s.lister.Idle? && Enabled(s, step) && ByWorker(step) && Parked(s, p) && s.inflight[step.w].path != p
    ensures StaysParked(s, Apply(s, step), p)
  { }

  lemma VisitsLeaveParked(s: State, q: Path, p: Path)
    requires s.lister.Idle? && q in s.files && Parked(s, p)
    ensures StaysParked(s, Apply(s, VisitFile(q)), p)
  { }

  lemma OthersLeaveParked(s: State, step: Step, p: Path)
    requires s.lister.Idle? && Enabled(s, step) && !ByWorker(step) && Allows(Coarse, step) && !step.VisitFile?
    requires Parked(s, p) && step != AdminDelete(p)
    ensures StaysParked(s, Apply(s, step), p)
  { }

  /** Only the administrator revives a parked document: neither a scan nor a change of the file makes
      the lister queue it again, and its recorded outcome does not change. */
  lemma ParkedWaitsForTheAdministrator(s: State, step: Step, p: Path)
    requires s.lister.Idle? && Enabled(s, step) && Allows(Coarse, step) && Parked(s, p) && step != AdminDelete(p)
    ensures Parked(Apply(s, step), p) && Apply(s, step).lister.Idle?
    ensures Apply(s, step).redis[p].failed == s.redis[p].failed
  {
    NobodyTakesUp(s, step, p);
    if ByWorker(step) {
      if s.inflight[step.w].path == p {
        HandledBy(s, step.w, p);
      }
      WorkersLeaveParked(s, step, p);
    } else if step.VisitFile? {
      VisitsLeaveParked(s, step.p, p);
    } else {
      OthersLeaveParked(s, step, p);
    }
  }

  /** Deleting the entry is enough: the next visit queues the document and tracks it afresh. */
  lemma DeletionRequeues(s: State, p: Path)
    requires s.lister.Idle? && p in s.files
    ensures var t := Apply(Apply(s, AdminDelete(p)), VisitFile(p));
            && t.queue == s.queue + multiset{p}
            && p in t.redis && Classify(t.redis[p]) == StatusQueued
            && t.inflight == s.inflight
  {
    assert p !in s.redis - {p};
  }

  // ---------------------------------------------------------------------------------------------
  // A visit, field by field
  // ---------------------------------------------------------------------------------------------

  /** What one visit of the file at `p` does, from `s` to `t`.  A new file is queued and tracked.  An entry
      with the file's time, or without a time when the file's is zero, is left alone.  Any other entry gets
      the file's time, and if it was processed, it no longer is and the file is queued. */
  ghost predicate Noticed(s: State, t: State, p: Path)
    requires p in s.files
  {
    var time := s.files[p];
    && p in t.redis
    && if p !in s.redis then
         t.queue[p] == s.queue[p] + 1 && t.redis[p] == Entry(At(time), false, false, false, false, None)
       else
         var e := s.redis[p];
         if e.lastModified == At(time) || (e.lastModified == Missing && time == 0.0) then
           t.queue[p] == s.queue[p] && t.redis[p] == e
         else
           && t.queue[p] == s.queue[p] + (if e.processed then 1 else 0)
           && t.redis[p] == Entry(At(time), false, e.failed, e.textIndexed, e.embeddingIndexed, e.errorStage)
  }

  /** A visit notices a changed time, and touches nothing else. */
  lemma VisitNoticesChanges(s: State, p: Path)
    requires s.lister.Idle? && p in s.files
    ensures var t := Apply(s, VisitFile(p));
            && Noticed(s, t, p)
            && t.files == s.files && t.inflight == s.inflight && t.lister.Idle?
            && (forall q :: q != p ==> t.queue[q] == s.queue[q])
            && (forall q :: q != p ==> (q in t.redis <==> q in s.redis) && (q in s.redis ==> t.redis[q] == s.redis[q]))
  { }

  /** For a processed document that changed: one message more, and the entry is open again. */
  lemma ChangedDocumentIsQueuedAgain(s: State, p: Path)
    requires s.lister.Idle? && p in s.files && p in s.redis && s.redis[p].processed
    requires s.redis[p].lastModified != At(s.files[p]) && (s.redis[p].lastModified == Missing ==> s.files[p] != 0.0)
    ensures var t := Apply(s, VisitFile(p));
            && t.queue == s.queue + multiset{p}
            && p in t.redis && !t.redis[p].processed && t.redis[p].lastModified == At(s.files[p])
  { }

  /** Files change, components crash and the administrator deletes at any time, visits atomic or not, with
      exactly these effects. */
  lemma WhatMayHappenAnytime(s: State, d: Discipline, p: Path, w: Worker, mtime: Option<real>)
    ensures Enabled(s, FileChange(p, mtime)) && Allows(d, FileChange(p, mtime))
    ensures Apply(s, FileChange(p, mtime))
         == s.(files := if mtime.None? then s.files - {p} else s.files[p := mtime.value])
    ensures Enabled(s, ListerCrash) && Allows(d, ListerCrash) && Apply(s, ListerCrash) == s.(lister := Idle)
    ensures Enabled(s, AdminDelete(p)) && Allows(d, AdminDelete(p))
    ensures Apply(s, AdminDelete(p)) == s.(redis := s.redis - {p})
    ensures w in s.inflight ==>
              && Enabled(s, IndexerCrash(w)) && Allows(d, IndexerCrash(w))
              && Apply(s, IndexerCrash(w))
                 == s.(queue := s.queue + multiset{s.inflight[w].path}, inflight := s.inflight - {w})
    ensures w !in s.inflight && p in s.queue && (d.CoarseOneWorker? ==> w == 0) ==>
              && Enabled(s, Deliver(w, p)) && Allows(d, Deliver(w, p))
              && Apply(s, Deliver(w, p))
                 == s.(queue := s.queue - multiset{p}, inflight := s.inflight[w := Delivery(p, Started)])
  { }
}
