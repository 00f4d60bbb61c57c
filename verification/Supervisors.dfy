/** The supervisor's event loops in their own form: they update the status map,
    the statistics and the error reports event by event, and drop pruned objects
    from the ignore cache (pkg/applier/applier.go). */
module Supervisors {
  import opened Objects
  import opened OrderedMaps
  import opened Declared
  import opened ResourceStore
  import opened ApplierEvents

  /** An event that is recorded keeps status map and statistics in step. */
  lemma Recording(isDestroy: bool, past: seq<Event>, e: Event, statuses: map<ID, ObjectStatus>, stats: Stats)
    requires Reflects(isDestroy, past, statuses) && stats == Tally(isDestroy, past)
    ensures Reflects(isDestroy, past + [e], NextStatuses(isDestroy, e, statuses))
    ensures Counted(isDestroy, stats, e) == Tally(isDestroy, past + [e])
  {
    assert (past + [e])[..|past|] == past;
    ReflectsNext(isDestroy, past, e, statuses);
  }

  lemma Reporting(isDestroy: bool, past: seq<Event>, e: Event)
    ensures AllReports(isDestroy, past + [e]) == AllReports(isDestroy, past) + ReportsOf(isDestroy, e)
  {
    assert (past + [e])[..|past|] == past;
  }

  // What one event says about its object: the new status, and what to report.

  method ApplyOutcome(before: ObjectStatus, id: ID, status: ActStatus, reasons: set<Reason>)
    returns (after: ObjectStatus, report: seq<Report>)
    ensures after == NextStatus(ApplyEvent(id, status, reasons), before)
    ensures report == ReportsOf(false, ApplyEvent(id, status, reasons))
  {
    after, report := before.(strategy := StrategyApply), [];
    match status {
      case ActPending => after := after.(actuation := ActuationPending);
      case ActSuccessful => after := after.(actuation := ActuationSucceeded);
      case ActFailed =>
        after := after.(actuation := ActuationFailed);
        report := [ActuationReport(id)];
      case ActSkipped =>
        after := after.(actuation := ActuationSkipped);
        report := [ApplySkipReport(id, reasons)];
      case OtherActStatus(_) => report := [UnexpectedReport(id)];
    }
  }

  method WaitOutcome(isDestroy: bool, before: ObjectStatus, id: ID, wait: WaitStatus)
    returns (after: ObjectStatus, report: seq<Report>)
    ensures after == NextStatus(WaitEvent(id, wait), before)
    ensures report == ReportsOf(isDestroy, WaitEvent(id, wait))
  {
    after, report := before, [];
    match wait {
      case ReconcilePending => after := after.(reconcile := StillPending);
      case ReconcileSkipped => after := after.(reconcile := SkippedReconcile);
      case ReconcileSuccessful => after := after.(reconcile := Reconciled);
      case ReconcileFailed =>
        after := after.(reconcile := FailedReconcile);
        report := if isDestroy then [WaitReport(id)] else [];
      case ReconcileTimeout =>
        after := after.(reconcile := TimedOut);
        report := if isDestroy then [WaitReport(id)] else [];
      case OtherWaitStatus(_) => report := [UnexpectedReport(id)];
    }
  }

  /** Prune and delete events differ only in which skips are expected. */
  method DeletionOutcome(isPrune: bool, before: ObjectStatus, id: ID, status: ActStatus, skip: Skip)
    returns (after: ObjectStatus, report: seq<Report>)
    ensures after == NextStatus(DeleteEvent(id, status, skip), before)
    ensures report == DeletionReports(isPrune, id, status, skip)
  {
    after, report := before.(strategy := StrategyDelete), [];
    match status {
      case ActPending => after := after.(actuation := ActuationPending);
      case ActSuccessful => after := after.(actuation := ActuationSucceeded);
      case ActFailed =>
        after := after.(actuation := ActuationFailed);
        report := [ActuationReport(id)];
      case ActSkipped =>
        after := after.(actuation := ActuationSkipped);
        var skipped := DeleteSkip(isPrune, id, skip).0;
        report := if skipped.Some? then [skipped.value] else [];
      case OtherActStatus(_) => report := [UnexpectedReport(id)];
    }
  }

  /** Deleting what is not cached changes nothing. */
  lemma NothingToDelete(s: Store, id: ID)
    requires s.ignored.Some? ==> s.ignored.value.Valid() && id !in s.ignored.value.values
    ensures DeleteIgnored(s, id) == s
  {
    if s.ignored.Some? {
      var m := s.ignored.value;
      assert m.values - {id} == m.values;
      WithoutAbsent(m.keys, id);
    }
  }

  method DropFromCache(id: ID, resources: Resources)
    requires resources.Valid()
    modifies resources`mutationIgnored, resources`contents
    ensures resources.Valid()
    ensures resources.contents == DeleteIgnored(old(resources.contents), id)
  {
    var cached := resources.GetIgnored(id);
    if cached.Some? {
      var _ := resources.DeleteIgnored(id);
    } else {
      NothingToDelete(resources.contents, id);
    }
  }

  /** A pruned object is dropped from the ignore cache if it is there. */
  method UncachePruned(id: ID, status: ActStatus, ghost skip: Skip, resources: Resources)
    requires resources.Valid()
    modifies resources`mutationIgnored, resources`contents
    ensures resources.Valid()
    ensures resources.contents == UncachedBy(false, old(resources.contents), PruneEvent(id, status, skip))
  {
    if status.ActSuccessful? {
      DropFromCache(id, resources);
    }
  }

  lemma MapLaws(isDestroy: bool, events: seq<Event>, statuses: map<ID, ObjectStatus>)
    requires Reflects(isDestroy, events, statuses)
    ensures forall id :: id in statuses <==> exists i :: 0 <= i < |events| && Concerns(isDestroy, events[i], id)
    ensures forall id :: id in statuses ==> IsLastWord(isDestroy, events, id, statuses[id])
  {
    forall id: ID
      ensures id in statuses <==> exists i :: 0 <= i < |events| && Concerns(isDestroy, events[i], id)
      ensures id in statuses ==> IsLastWord(isDestroy, events, id, statuses[id])
    {
      StatusIsLastWord(isDestroy, events, statuses, id);
    }
  }

  lemma CountLaws(isDestroy: bool, events: seq<Event>)
    ensures var stats, reports := Tally(isDestroy, events), AllReports(isDestroy, events);
            && (forall kind :: Count(stats, kind) == |Where(events, OfKind(isDestroy, kind))|)
            && (forall r :: CountReports(reports, Is(r)) == |Where(events, Caller(isDestroy, r))|)
            && (forall id :: CountReports(reports, AboutID(id)) == |Where(events, ProblemOf(isDestroy, id))|)
            && WaitReports(reports) == if isDestroy then WaitFailures(events) else 0
  {
    var stats, reports := Tally(isDestroy, events), AllReports(isDestroy, events);
    WaitFailuresReportedByDestroyOnly(isDestroy, events);
    forall kind
      ensures Count(stats, kind) == |Where(events, OfKind(isDestroy, kind))|
    {
      EveryEventCountedOnce(isDestroy, events, kind);
    }
    forall r
      ensures CountReports(reports, Is(r)) == |Where(events, Caller(isDestroy, r))|
    {
      ReportsExactly(isDestroy, events, r);
    }
    forall id
      ensures CountReports(reports, AboutID(id)) == |Where(events, ProblemOf(isDestroy, id))|
    {
      ProblemsReportedOnce(isDestroy, events, id);
    }
  }

  class SyncRun {
    const isDestroy: bool
    var statuses: map<ID, ObjectStatus>
    var stats: Stats
    var reports: seq<Report>
    /** The events so far. */
    ghost var history: seq<Event>

    /** The status map has exactly the objects that the events so far were about,
        each with the last word on its strategy, actuation and reconciliation,
        and the statistics count each event under its status. */
    ghost predicate Recorded()
      reads this
    {
      Reflects(isDestroy, history, statuses) && stats == Tally(isDestroy, history)
    }

    /** Moreover, everything that has to be reported is. */
    ghost predicate Valid()
      reads this
    {
      Recorded() && reports == AllReports(isDestroy, history)
    }

    constructor (isDestroy: bool)
      ensures this.isDestroy == isDestroy && Valid() && history == []
    {
      this.isDestroy := isDestroy;
      statuses, stats, reports, history := map[], NO_STATS, [], [];
    }

    /** The status an object has before an event. */
    function StatusBefore(id: ID): ObjectStatus
      reads this
    {
      if id in statuses then statuses[id] else NO_STATUS
    }

    /** What every handler ends with: the object's new status and the new count. */
    method Record(ghost e: Event, id: ID, objectStatus: ObjectStatus, counted: Stats)
      requires Recorded() && Handled(isDestroy, e) && !e.ErrorEvent? && e.id == id
      requires objectStatus == NextStatus(e, StatusBefore(id)) && counted == Counted(isDestroy, stats, e)
      modifies this`statuses, this`stats, this`history
      ensures Recorded() && history == old(history) + [e]
    {
      Recording(isDestroy, history, e, statuses, stats);
      statuses, stats, history := statuses[id := objectStatus], counted, history + [e];
    }

    method ProcessApplyEvent(id: ID, status: ActStatus, reasons: set<Reason>) returns (report: seq<Report>)
      requires !isDestroy && Recorded()
      modifies this`statuses, this`stats, this`history
      ensures Recorded() && history == old(history) + [ApplyEvent(id, status, reasons)]
      ensures report == ReportsOf(false, ApplyEvent(id, status, reasons))
    {
      var objectStatus;
      objectStatus, report := ApplyOutcome(StatusBefore(id), id, status, reasons);
      Record(ApplyEvent(id, status, reasons), id, objectStatus, stats.(apply := stats.apply + multiset{status}));
    }

    method ProcessWaitEvent(id: ID, wait: WaitStatus) returns (report: seq<Report>)
      requires Recorded()
      modifies this`statuses, this`stats, this`history
      ensures Recorded() && history == old(history) + [WaitEvent(id, wait)]
      ensures report == ReportsOf(isDestroy, WaitEvent(id, wait))
    {
      var objectStatus;
      objectStatus, report := WaitOutcome(isDestroy, StatusBefore(id), id, wait);
      Record(WaitEvent(id, wait), id, objectStatus, stats.(wait := stats.wait + multiset{wait}));
    }

    method RecordPruned(id: ID, status: ActStatus, skip: Skip) returns (report: seq<Report>)
      requires !isDestroy && Recorded()
      modifies this`statuses, this`stats, this`history
      ensures Recorded() && history == old(history) + [PruneEvent(id, status, skip)]
      ensures report == ReportsOf(false, PruneEvent(id, status, skip))
    {
      var objectStatus;
      objectStatus, report := DeletionOutcome(true, StatusBefore(id), id, status, skip);
      Record(PruneEvent(id, status, skip), id, objectStatus, stats.(prune := stats.prune + multiset{status}));
    }

    method ProcessPruneEvent(id: ID, status: ActStatus, skip: Skip, resources: Resources) returns (report: seq<Report>)
      requires !isDestroy && Recorded() && resources.Valid()
      modifies this`statuses, this`stats, this`history, resources`mutationIgnored, resources`contents
      ensures Recorded() && history == old(history) + [PruneEvent(id, status, skip)]
      ensures report == ReportsOf(false, PruneEvent(id, status, skip))
      ensures resources.Valid()
      ensures resources.contents == UncachedBy(false, old(resources.contents), PruneEvent(id, status, skip))
    {
      report := RecordPruned(id, status, skip);
      UncachePruned(id, status, skip, resources);
    }

    method ProcessDeleteEvent(id: ID, status: ActStatus, skip: Skip) returns (report: seq<Report>)
      requires isDestroy && Recorded()
      modifies this`statuses, this`stats, this`history
      ensures Recorded() && history == old(history) + [DeleteEvent(id, status, skip)]
      ensures report == ReportsOf(true, DeleteEvent(id, status, skip))
    {
      var objectStatus;
      objectStatus, report := DeletionOutcome(false, StatusBefore(id), id, status, skip);
      Record(DeleteEvent(id, status, skip), id, objectStatus, stats.(delete := stats.delete + multiset{status}));
    }

    /** The errors of a handler are passed on. */
    method Send(report: seq<Report>, ghost e: Event, ghost past: seq<Event>)
      requires Recorded() && history == past + [e]
      requires reports == AllReports(isDestroy, past) && report == ReportsOf(isDestroy, e)
      modifies this`reports
      ensures Valid()
    {
      Reporting(isDestroy, past, e);
      reports := reports + report;
    }

    /** The handler of an event about an object that does not concern the cache. */
    method Dispatch(e: Event) returns (report: seq<Report>)
      requires Recorded() && Handled(isDestroy, e) && !e.ErrorEvent? && !e.PruneEvent?
      modifies this`statuses, this`stats, this`history
      ensures Recorded() && history == old(history) + [e]
      ensures report == ReportsOf(isDestroy, e)
    {
      match e {
        case WaitEvent(id, wait) =>
          report := ProcessWaitEvent(id, wait);
        case ApplyEvent(id, status, reasons) =>
          report := ProcessApplyEvent(id, status, reasons);
        case DeleteEvent(id, status, skip) =>
          report := ProcessDeleteEvent(id, status, skip);
      }
    }

    /** An error event, or one that this loop does not handle. */
    method RecordOther(e: Event)
      requires Valid() && (e.ErrorEvent? || !Handled(isDestroy, e))
      modifies this
      ensures Valid() && history == old(history) + [e]
    {
      Recording(isDestroy, history, e, statuses, stats);
      Reporting(isDestroy, history, e);
      if e.ErrorEvent? {
        reports := reports + [FatalReport];
        stats := stats.(errors := stats.errors + 1);
      }
      history := history + [e];
    }

    /** One iteration of either loop on an event that does not concern the cache. */
    method RecordEvent(e: Event)
      requires Valid() && (isDestroy || !e.PruneEvent?)
      modifies this
      ensures Valid() && history == old(history) + [e]
    {
      if e.WaitEvent? || (e.ApplyEvent? && !isDestroy) || (e.DeleteEvent? && isDestroy) {
        var report := Dispatch(e);
        Send(report, e, old(history));
      } else {
        RecordOther(e);
      }
    }

    /** One iteration of the apply loop on an event that does. */
    method RecordPrune(id: ID, status: ActStatus, skip: Skip, resources: Resources)
      requires Valid() && !isDestroy && resources.Valid()
      modifies this, resources`mutationIgnored, resources`contents
      ensures Valid() && history == old(history) + [PruneEvent(id, status, skip)] && resources.Valid()
      ensures resources.contents == UncachedBy(false, old(resources.contents), PruneEvent(id, status, skip))
    {
      var report := ProcessPruneEvent(id, status, skip, resources);
      Send(report, PruneEvent(id, status, skip), old(history));
    }

    /** One iteration of either loop. */
    method ProcessEvent(e: Event, resources: Resources)
      requires Valid() && resources.Valid()
      modifies this, resources`mutationIgnored, resources`contents
      ensures Valid() && history == old(history) + [e] && resources.Valid()
      ensures resources.contents == UncachedBy(isDestroy, old(resources.contents), e)
    {
      if e.PruneEvent? && !isDestroy {
        RecordPrune(e.id, e.status, e.skip, resources);
      } else {
        RecordEvent(e);
      }
    }

    method Loop(events: seq<Event>, resources: Resources)
      requires Valid() && history == [] && resources.Valid()
      modifies this, resources`mutationIgnored, resources`contents
      ensures Valid() && history == events && resources.Valid()
      ensures resources.contents == Uncached(isDestroy, events, old(resources.contents))
    {
      for i := 0 to |events|
        invariant Valid() && history == events[..i] && resources.Valid()
        invariant resources.contents == Uncached(isDestroy, events[..i], old(resources.contents))
      {
        assert events[..i + 1] == events[..i] + [events[i]] && events[..i + 1][..i] == events[..i];
        ProcessEvent(events[i], resources);
      }
      assert events[..|events|] == events;
    }

    /** The loop over all events of a run. Whatever they are: the status map has
        exactly the objects that they were about, each with the last word on it;
        every handled event is counted once, under its status; every report is made
        as often as an event calls for it, failed waits only in a destroy run; and
        exactly the successfully pruned objects leave the cache. */
    method ProcessEvents(events: seq<Event>, resources: Resources)
      requires Valid() && history == [] && resources.Valid()
      modifies this, resources`mutationIgnored, resources`contents
      ensures Valid() && history == events && resources.Valid()
      ensures forall id :: id in statuses <==> exists i :: 0 <= i < |events| && Concerns(isDestroy, events[i], id)
      ensures forall id :: id in statuses ==> IsLastWord(isDestroy, events, id, statuses[id])
      ensures forall kind :: Count(stats, kind) == |Where(events, OfKind(isDestroy, kind))|
      ensures forall r :: CountReports(reports, Is(r)) == |Where(events, Caller(isDestroy, r))|
      ensures forall id :: CountReports(reports, AboutID(id)) == |Where(events, ProblemOf(isDestroy, id))|
      ensures WaitReports(reports) == if isDestroy then WaitFailures(events) else 0
      ensures resources.contents == Uncached(isDestroy, events, old(resources.contents))
    {
      Loop(events, resources);
      MapLaws(isDestroy, events, statuses);
      CountLaws(isDestroy, events);
    }
  }
}
