/** The pipeline's procedures, over the state they share, proved against the steps of `Pipeline`. */
module PipelineCode {
  import opened Basics
  import opened Pipeline

  /** What happens to one delivery outside the worker's control.  An `EarlyError` leaves nothing on record,
      be it because a phase could not record its own failure; after `UnrecordedAfterText` the text phase is
      on record and what came after it is not: the second phase could not record its failure, or the last
      update failed. */
  datatype Outcome =
    | EarlyError
    | TooManyPages
    | TextError
    | VanishedAfterText
    | UnrecordedAfterText
    | EmbedError
    | Success

  ghost predicate CanHappen(s: State, w: Worker, o: Outcome) {
    && InPhase(s, w, {Started})
    && (o in {UnrecordedAfterText, EmbedError, Success} ==> s.inflight[w].path in s.files)
  }

  /** Nothing at all is recorded before the error is raised. */
  predicate RecordsNothing(o: Outcome) {
    o in {EarlyError, VanishedAfterText}
  }

  /** Where `index_document` leaves the state; it raises for every outcome but `Success`. */
  ghost function IndexResult(s: State, w: Worker, o: Outcome): State
    requires CanHappen(s, w, o)
  {
    match o
    case EarlyError => s
    case TooManyPages => Apply(s, Fail(w, PageGuard))
    case TextError => Apply(s, Fail(w, TextIndexing))
    case VanishedAfterText => s
    case _ => SecondPhase(Apply(s, TextOk(w)), w, o)
  }

  ghost function SecondPhase(s: State, w: Worker, o: Outcome): State
    requires InPhase(s, w, {TextDone})
  {
    match o
    case EmbedError => Apply(s, Fail(w, EmbeddingIndexing))
    case Success => Apply(s, EmbedOk(w))
    case _ => s
  }

  lemma IndexResultKeepsTheDelivery(s: State, w: Worker, o: Outcome)
    requires CanHappen(s, w, o)
    ensures var t := IndexResult(s, w, o);
            && w in t.inflight && t.inflight[w].path == s.inflight[w].path && t.files == s.files
            && t.inflight[w].phase in (if o.Success? then {Done} else {Started, TextDone, Failing})
  { }

  /** Where `callback` leaves the state: the failure is recorded once more unless that fails too, and
      the message is acknowledged in every case. */
  ghost function CallbackResult(s: State, w: Worker, o: Outcome, recorded: bool): State
    requires CanHappen(s, w, o)
  {
    IndexResultKeepsTheDelivery(s, w, o);
    var t := IndexResult(s, w, o);
    var u := if o.Success? then t else if recorded then Apply(t, FailRecorded(w)) else Apply(t, GiveUp(w));
    Apply(u, Ack(w))
  }

  predicate IsPdf(p: Path) {
    && |p| > 4 && p[|p| - 5] != '/'
    && p[|p| - 4] == '.' && p[|p| - 3] in "pP" && p[|p| - 2] in "dD" && p[|p| - 1] in "fF"
  }

  predicate Eligible(files: map<Path, real>, p: Path) {
    p in files && IsPdf(p)
  }

  /** A scan: the eligible paths among `found`, visited one after the other. */
  ghost function Scanned(s: State, found: seq<Path>): State
    requires s.lister.Idle?
    ensures Scanned(s, found).lister.Idle? && Scanned(s, found).files == s.files
  {
    if |found| == 0 then s
    else
      var k := |found| - 1;
      var t := Scanned(s, found[..k]);
      if Eligible(t.files, found[k]) then Apply(t, VisitFile(found[k])) else t
  }

  class Deployment {
    var files: map<Path, real>
    var redis: map<Path, Entry>
    var queue: multiset<Path>
    var inflight: map<Worker, Delivery>

    ghost function Snapshot(): State
      reads this
    {
      State(files, redis, queue, inflight, Idle)
    }

    method LoadState(p: Path) returns (e: Entry)
      ensures e == Load(redis, p)
    {
      if p !in redis {
        return NEW_ENTRY;
      }
      return redis[p];
    }

    method SaveState(p: Path, u: Update) returns (e: Entry)
      modifies this`redis
      ensures redis == Saved(old(redis), p, u) && e == redis[p]
    {
      e := LoadState(p);
      e := Updated(e, u);
      redis := redis[p := e];
    }

    method MarkFailure(p: Path, stage: Stage)
      modifies this`redis
      ensures redis == Saved(old(redis), p, RecordFailure(FileTime(files, p), stage))
    {
      var lastModified := if p in files then At(files[p]) else Null;
      var _ := SaveState(p, RecordFailure(lastModified, stage));
    }

    method PushFileToQueue(p: Path)
      modifies this`queue
      ensures queue == old(queue) + multiset{p}
    {
      queue := queue + multiset{p};
    }

    /** Proved to be exactly one atomic visit of the state machine. */
    method HandleDocument(p: Path)
      requires p in files
      modifies this`redis, this`queue
      ensures Snapshot() == Apply(old(Snapshot()), VisitFile(p))
    {
      if p !in redis {
        PushFileToQueue(p);
        redis := redis[p := NEW_ENTRY.(lastModified := At(files[p]))];
      } else {
        var value := redis[p];
        if LooksModified(value, files[p]) {
          value := value.(lastModified := At(files[p]));
          if value.processed {
            value := value.(processed := false);
            PushFileToQueue(p);
          }
          redis := redis[p := value];
        }
      }
    }

    method ProcessPath(found: seq<Path>)
      modifies this`redis, this`queue
      ensures Snapshot() == Scanned(old(Snapshot()), found)
    {
      for i := 0 to |found|
        invariant Snapshot() == Scanned(old(Snapshot()), found[..i])
      {
        assert found[..i + 1][..i] == found[..i];
        if found[i] !in files {
          continue;
        }
        if !IsPdf(found[i]) {
          continue;
        }
        HandleDocument(found[i]);
      }
      assert found[..|found|] == found;
    }

    method DeleteAdminKey(p: Path) returns (existed: bool)
      modifies this`redis
      ensures Snapshot() == Apply(old(Snapshot()), AdminDelete(p))
      ensures existed <==> p in old(redis)
    {
      existed := p in redis;
      redis := redis - {p};
    }

    /** Deletes exactly the entries whose status is failed and reports them. */
    method AdminRequeueFailed() returns (requeued: set<Path>)
      modifies this`redis
      ensures requeued == set p | p in old(redis) && Classify(old(redis)[p]) == StatusFailed
      ensures forall p :: p in requeued <==> p in old(redis) && old(redis)[p].failed
      ensures redis == old(redis) - requeued
    {
      requeued := {};
      var keys := redis.Keys;
      while keys != {}
        invariant keys <= old(redis).Keys
        invariant requeued == set p | p in old(redis) && p !in keys && Classify(old(redis)[p]) == StatusFailed
        invariant redis == old(redis) - requeued
        decreases keys
      {
        var key :| key in keys;
        keys := keys - {key};
        if key in redis && Classify(redis[key]) == StatusFailed {
          var _ := DeleteAdminKey(key);
          requeued := requeued + {key};
        }
      }
    }

    /** The update after the text phase. */
    method IndexText(w: Worker)
      requires InPhase(Snapshot(), w, {Started}) && inflight[w].path in files
      modifies this`redis, this`inflight
      ensures Snapshot() == Apply(old(Snapshot()), TextOk(w))
    {
      var p := inflight[w].path;
      var _ := SaveState(p, RecordText(files[p]));
      Advance(w, TextDone);
    }

    method IndexDocument(w: Worker, o: Outcome) returns (raised: bool)
      requires CanHappen(Snapshot(), w, o)
      modifies this`redis, this`inflight
      ensures Snapshot() == IndexResult(old(Snapshot()), w, o)
      ensures raised <==> o != Success
    {
      var p := inflight[w].path;
      if o == EarlyError {
        return true;
      }
      if o == TooManyPages {
        MarkFailure(p, PageGuard);
        Advance(w, Failing);
        return true;
      }
      // Phase 1: full text
      if o == TextError {
        MarkFailure(p, TextIndexing);
        Advance(w, Failing);
        return true;
      }
      if o == VanishedAfterText {
        return true;
      }
      IndexText(w);
      raised := IndexChunks(w, o);
    }

    /** Phase 2: chunks and embeddings, and the last update. */
    method IndexChunks(w: Worker, o: Outcome) returns (raised: bool)
      requires InPhase(Snapshot(), w, {TextDone})
      modifies this`redis, this`inflight
      ensures Snapshot() == SecondPhase(old(Snapshot()), w, o)
      ensures raised <==> o != Success
    {
      var p := inflight[w].path;
      if o == EmbedError {
        MarkFailure(p, EmbeddingIndexing);
        Advance(w, Failing);
        return true;
      }
      if o != Success {
        return true;
      }
      var _ := SaveState(p, RecordEmbedding);
      Advance(w, Done);
      return false;
    }

    /** Bookkeeping of the state machine: where worker `w` is in its handling. */
    method Advance(w: Worker, phase: Phase)
      requires w in inflight
      modifies this`inflight
      ensures inflight == old(inflight)[w := Delivery(old(inflight)[w].path, phase)]
    {
      inflight := inflight[w := Delivery(inflight[w].path, phase)];
    }

    /** One delivery from start to acknowledgement, undisturbed. */
    method Callback(w: Worker, o: Outcome, recorded: bool)
      requires CanHappen(Snapshot(), w, o)
      modifies this`redis, this`inflight
      ensures Snapshot() == CallbackResult(old(Snapshot()), w, o, recorded)
    {
      var raised := IndexDocument(w, o);
      IndexResultKeepsTheDelivery(old(Snapshot()), w, o);
      if raised {
        HandleError(w, recorded);
      }
      AckMessage(w);
    }

    /** The outer handler: records the failure, or swallows the error of trying to. */
    method HandleError(w: Worker, recorded: bool)
      requires InPhase(Snapshot(), w, {Started, TextDone, Failing})
      modifies this`redis, this`inflight
      ensures Snapshot() == Apply(old(Snapshot()), if recorded then FailRecorded(w) else GiveUp(w))
    {
      if recorded {
        MarkFailure(inflight[w].path, Unknown);
      }
      Advance(w, Done);
    }

    method AckMessage(w: Worker)
      requires InPhase(Snapshot(), w, {Done})
      modifies this`inflight
      ensures Snapshot() == Apply(old(Snapshot()), Ack(w))
    {
      inflight := inflight - {w};
    }
  }

  // ---------------------------------------------------------------------------------------------

  lemma CallbackSettlesExactlyWhen(s: State, w: Worker, o: Outcome, recorded: bool)
    requires CanHappen(s, w, o)
    ensures var p, t := s.inflight[w].path, CallbackResult(s, w, o, recorded);
            (p in t.redis && Settled(t.redis[p]))
            <==> (recorded || o in {TooManyPages, TextError, EmbedError, Success}
                  || (RecordsNothing(o) && p in s.redis && Settled(s.redis[p])))
  { }

  lemma CallbackRecords(s: State, w: Worker, o: Outcome, recorded: bool)
    requires CanHappen(s, w, o)
    ensures var p, t := s.inflight[w].path, CallbackResult(s, w, o, recorded);
            && (o.Success? ==> p in t.redis && Classify(t.redis[p]) == StatusProcessed && t.redis[p].embeddingIndexed)
            && (!o.Success? && recorded ==>
                  p in t.redis && Classify(t.redis[p]) == StatusFailed && t.redis[p].errorStage == Some(Unknown))
  { }

  predicate TouchesOnly(s: State, t: State, w: Worker, p: Path) {
    && t.redis - {p} == s.redis - {p} && t.queue == s.queue && t.inflight - {w} == s.inflight - {w}
    && w in t.inflight && t.inflight[w].path == p
  }

  lemma StepTouchesOnly(s: State, step: Step)
    requires Enabled(s, step) && (step.TextOk? || step.EmbedOk? || step.Fail? || step.FailRecorded? || step.GiveUp?)
    ensures TouchesOnly(s, Apply(s, step), step.w, s.inflight[step.w].path)
    ensures s.inflight[step.w].path in Apply(s, step).redis <==> !step.GiveUp? || s.inflight[step.w].path in s.redis
  { }

  lemma IndexTouchesOneDocument(s: State, w: Worker, o: Outcome)
    requires CanHappen(s, w, o)
    ensures var p, t := s.inflight[w].path, IndexResult(s, w, o);
            TouchesOnly(s, t, w, p) && (p in t.redis <==> !RecordsNothing(o) || p in s.redis)
  {
    match o
    case EarlyError =>
    case TooManyPages => StepTouchesOnly(s, Fail(w, PageGuard));
    case TextError => StepTouchesOnly(s, Fail(w, TextIndexing));
    case VanishedAfterText =>
    case UnrecordedAfterText => StepTouchesOnly(s, TextOk(w));
    case EmbedError =>
      StepTouchesOnly(s, TextOk(w));
      StepTouchesOnly(Apply(s, TextOk(w)), Fail(w, EmbeddingIndexing));
    case Success =>
      StepTouchesOnly(s, TextOk(w));
      StepTouchesOnly(Apply(s, TextOk(w)), EmbedOk(w));
  }

  lemma CallbackTouchesOneDocument(s: State, w: Worker, o: Outcome, recorded: bool)
    requires CanHappen(s, w, o)
    ensures var p, t := s.inflight[w].path, CallbackResult(s, w, o, recorded);
            && t.redis - {p} == s.redis - {p} && t.queue == s.queue && t.inflight == s.inflight - {w}
            && (p in t.redis <==> recorded || !RecordsNothing(o) || p in s.redis)
  {
    IndexTouchesOneDocument(s, w, o);
    IndexResultKeepsTheDelivery(s, w, o);
    if !o.Success? {
      StepTouchesOnly(IndexResult(s, w, o), if recorded then FailRecorded(w) else GiveUp(w));
    }
  }

  /** A delivery settles its document exactly when the success or a failure is recorded, by the phase or by
      the outer handler, or when nothing is recorded and the document was settled before; nothing else
      changes. */
  lemma CallbackDecidesExactlyWhen(s: State, w: Worker, o: Outcome, recorded: bool)
    requires CanHappen(s, w, o)
    ensures var p, t := s.inflight[w].path, CallbackResult(s, w, o, recorded);
            && (p in t.redis && Settled(t.redis[p])
                <==> recorded || o in {TooManyPages, TextError, EmbedError, Success}
                     || (RecordsNothing(o) && p in s.redis && Settled(s.redis[p])))
            && (o.Success? ==> p in t.redis && Classify(t.redis[p]) == StatusProcessed && t.redis[p].embeddingIndexed)
            && (!o.Success? && recorded ==>
                  p in t.redis && Classify(t.redis[p]) == StatusFailed && t.redis[p].errorStage == Some(Unknown))
            && t.redis - {p} == s.redis - {p}
            && t.queue == s.queue && t.inflight == s.inflight - {w}
  {
    CallbackSettlesExactlyWhen(s, w, o, recorded);
    CallbackRecords(s, w, o, recorded);
    CallbackTouchesOneDocument(s, w, o, recorded);
  }

  lemma OthersGoOnHandling(s: State, t: State, w: Worker, p: Path)
    requires t.inflight == s.inflight - {w}
    ensures Handled(t, p, ALL_PHASES, {}) <==> Handled(s, p, ALL_PHASES, {w})
  {
    if Handled(s, p, ALL_PHASES, {w}) {
      var v :| v in s.inflight && v !in {w} && s.inflight[v].path == p && s.inflight[v].phase in ALL_PHASES;
      assert v in t.inflight && v !in {};
    }
    if Handled(t, p, ALL_PHASES, {}) {
      var v :| v in t.inflight && t.inflight[v].path == p && t.inflight[v].phase in ALL_PHASES;
      assert v in s.inflight && v !in {w};
    }
  }

  /** A delivery strands its document exactly when its message was the last one, the outer handler recorded
      nothing, and the text was indexed without an outcome, or nothing was recorded of an unsettled one. */
  lemma CallbackStrandsExactlyWhen(s: State, w: Worker, o: Outcome, recorded: bool)
    requires CanHappen(s, w, o)
    ensures var p := s.inflight[w].path;
            Stranded(CallbackResult(s, w, o, recorded), p)
            <==> (!recorded && p !in s.queue && !Handled(s, p, ALL_PHASES, {w})
                  && (o.UnrecordedAfterText? || (RecordsNothing(o) && p in s.redis && !Settled(s.redis[p]))))
  {
    var p, t := s.inflight[w].path, CallbackResult(s, w, o, recorded);
    CallbackSettlesExactlyWhen(s, w, o, recorded);
    CallbackTouchesOneDocument(s, w, o, recorded);
    OthersGoOnHandling(s, t, w, p);
  }

  /** The entry says in which phase the document failed. */
  predicate NamesThePhase(s: State, p: Path) {
    p in s.redis && s.redis[p].errorStage.Some? && s.redis[p].errorStage != Some(Unknown)
  }

  /** The phase that failed is on record after the delivery exactly when the outer handler could not record
      the failure once more, and either the phase had recorded it or nothing was recorded and an earlier
      phase stands. */
  lemma PhaseIsNamedExactlyWhen(s: State, w: Worker, o: Outcome, recorded: bool)
    requires CanHappen(s, w, o)
    ensures NamesThePhase(CallbackResult(s, w, o, recorded), s.inflight[w].path) <==> PhaseStands(s, w, o, recorded)
  { }

  predicate PhaseStands(s: State, w: Worker, o: Outcome, recorded: bool)
    requires w in s.inflight
  {
    && !recorded
    && (o in {TooManyPages, TextError, EmbedError} || (RecordsNothing(o) && NamesThePhase(s, s.inflight[w].path)))
  }

  predicate SameAt(s: State, t: State, p: Path) {
    (p in t.redis <==> p in s.redis) && (p in s.redis ==> t.redis[p] == s.redis[p])
  }

  /** The lister has nothing more to do for the file at `p`. */
  predicate UpToDate(s: State, p: Path) {
    p in s.redis && p in s.files && !LooksModified(s.redis[p], s.files[p])
  }

  lemma VisitLeavesUpToDate(s: State, q: Path, p: Path)
    requires s.lister.Idle? && q in s.files
    ensures var t := Apply(s, VisitFile(q));
            && (p == q ==> UpToDate(t, p))
            && (p == q ==> t.queue[p] == s.queue[p] + (if Decide(s.redis, p, s.files[p]).push then 1 else 0))
            && (p != q ==> SameAt(s, t, p) && t.queue[p] == s.queue[p])
  { }

  lemma UpToDateIsNotPushed(s: State, p: Path)
    requires UpToDate(s, p)
    ensures !Decide(s.redis, p, s.files[p]).push
  { }

  /** A scan pushes each eligible path that is new, or processed and modified, exactly once, and leaves
      every eligible path tracked with the time of its file. */
  lemma {:induction false} ScanQueuesExactly(s: State, found: seq<Path>, p: Path)
    requires s.lister.Idle?
    ensures var t := Scanned(s, found);
            && (Eligible(s.files, p) && p in found ==> UpToDate(t, p))
            && t.queue[p] == s.queue[p] + (if Eligible(s.files, p) && p in found && Decide(s.redis, p, s.files[p]).push
                                           then 1 else 0)
            && (!Eligible(s.files, p) || p !in found ==> SameAt(s, t, p))
  {
    if |found| > 0 {
      var k := |found| - 1;
      var t := Scanned(s, found[..k]);
      ScanQueuesExactly(s, found[..k], p);
      assert found == found[..k] + [found[k]];
      if Eligible(t.files, found[k]) {
        VisitLeavesUpToDate(t, found[k], p);
      }
      if UpToDate(t, p) {
        UpToDateIsNotPushed(t, p);
      }
    }
  }

  /** With nothing changed in between, a second scan does nothing. */
  lemma {:induction false} ScanIsIdempotent(s: State, found: seq<Path>, again: seq<Path>)
    requires s.lister.Idle? && (forall p :: p in again ==> p in found)
    ensures Scanned(Scanned(s, found), again) == Scanned(s, found)
  {
    if |again| > 0 {
      var k := |again| - 1;
      ScanIsIdempotent(s, found, again[..k]);
      assert again[k] in found;
      ScanQueuesExactly(s, found, again[k]);
    }
  }

  /** Requeueing the failed documents works: after the deletion, one scan that finds them queues each
      of them once more. */
  lemma RequeueThenScanRetriesFailed(s: State, found: seq<Path>, p: Path)
    requires s.lister.Idle? && Eligible(s.files, p) && p in found
    requires p in s.redis && Classify(s.redis[p]) == StatusFailed
    ensures var cleared := s.redis - (set q | q in s.redis && Classify(s.redis[q]) == StatusFailed);
            var t := Scanned(s.(redis := cleared), found);
            t.queue[p] == s.queue[p] + 1 && p in t.redis
  {
    var cleared := s.redis - (set q | q in s.redis && Classify(s.redis[q]) == StatusFailed);
    assert p !in cleared;
    ScanQueuesExactly(s.(redis := cleared), found, p);
  }

  // ---------------------------------------------------------------------------------------------
  // Scans and deliveries, field by field
  // ---------------------------------------------------------------------------------------------

  /** The suffix ".pdf" in any case. */
  predicate PdfSuffix(x: string) {
    x in {".pdf", ".pdF", ".pDf", ".pDF", ".Pdf", ".PdF", ".PDf", ".PDF"}
  }

  /** The eligible paths are those with a file whose name has something before that suffix. */
  lemma PdfNames(p: Path)
    ensures IsPdf(p) <==> exists stem, suffix :: p == stem + suffix && PdfSuffix(suffix)
                                              && stem != "" && stem[|stem| - 1] != '/'
  {
    if IsPdf(p) {
      var stem, suffix := p[..|p| - 4], p[|p| - 4..];
      assert suffix == [suffix[0], suffix[1], suffix[2], suffix[3]];
      assert p == stem + suffix && PdfSuffix(suffix);
    }
  }

  /** A scan notices every eligible path that it finds exactly as one visit does, however often it finds it. */
  lemma {:induction false} ScanNoticesChanges(s: State, found: seq<Path>, p: Path)
    requires s.lister.Idle?
    ensures if p in found && p in s.files && IsPdf(p) then Noticed(s, Scanned(s, found), p)
            else Scanned(s, found).queue[p] == s.queue[p] && SameAt(s, Scanned(s, found), p)
  {
    if |found| > 0 {
      var k := |found| - 1;
      var t := Scanned(s, found[..k]);
      ScanNoticesChanges(s, found[..k], p);
      assert found == found[..k] + [found[k]];
      if found[k] in t.files && IsPdf(found[k]) {
        VisitNoticesChanges(t, found[k]);
      }
    }
  }

  /** What `index_document` leaves on record for each outcome, and where it leaves the delivery. */
  ghost predicate OnRecord(s: State, t: State, w: Worker, o: Outcome)
    requires w in s.inflight
  {
    var p := s.inflight[w].path;
    var e := if p in s.redis then s.redis[p] else Entry(Missing, false, false, false, false, None);
    var time := if p in s.files then At(s.files[p]) else Null;
    match o
    case EarlyError => t.redis == s.redis
    case VanishedAfterText => t.redis == s.redis
    case TooManyPages =>
      t.redis == s.redis[p := Entry(time, false, true, e.textIndexed, e.embeddingIndexed, Some(PageGuard))]
    case TextError =>
      t.redis == s.redis[p := Entry(time, false, true, e.textIndexed, e.embeddingIndexed, Some(TextIndexing))]
    case UnrecordedAfterText => t.redis == s.redis[p := Entry(time, false, false, true, false, None)]
    case EmbedError => t.redis == s.redis[p := Entry(time, false, true, true, false, Some(EmbeddingIndexing))]
    case Success => t.redis == s.redis[p := Entry(time, true, false, true, true, None)]
  }

  lemma IndexingIsOnRecord(s: State, w: Worker, o: Outcome)
    requires CanHappen(s, w, o)
    ensures OnRecord(s, IndexResult(s, w, o), w, o)
  { }

  /** After the outer handler has recorded a failure, the entry keeps what the phases did and says that the
      stage is unknown. */
  lemma HandledFailureIsOnRecord(s: State, w: Worker, o: Outcome)
    requires CanHappen(s, w, o) && !o.Success?
    ensures var p, t := s.inflight[w].path, IndexResult(s, w, o);
            var e := if p in t.redis then t.redis[p] else Entry(Missing, false, false, false, false, None);
            CallbackResult(s, w, o, true).redis
            == t.redis[p := Entry(if p in s.files then At(s.files[p]) else Null, false, true,
                                  e.textIndexed, e.embeddingIndexed, Some(Unknown))]
  { }
}
