/** The event loops of the applier and the destroyer (pkg/applier/applier.go). The
    kpt applier and destroyer are arbitrary sources of events. */
module ApplierEvents {
  import opened Objects
  import opened Declared

  datatype WaitStatus =
    | ReconcilePending
    | ReconcileSuccessful
    | ReconcileSkipped
    | ReconcileTimeout
    | ReconcileFailed
    | OtherWaitStatus(code: int)

  /** The status of an apply, prune or delete event. */
  datatype ActStatus = ActPending | ActSuccessful | ActSkipped | ActFailed | OtherActStatus(code: int)

  /** The kinds of error that the reason of a skip can be unwrapped to. */
  datatype Reason =
    | DependencyPrevented
    | DependencyMismatch
    | ApplyPreventedDeletion
    | PolicyPrevented
    | NamespaceInUse
    | AnnotationPrevented

  /** A skipped prune or delete: why, whether the object is a special Namespace,
      and how removing its metadata turns out, should that be tried. */
  datatype Skip = Skip(reasons: set<Reason>, specialNamespace: bool, firstAbandonOk: bool, secondAbandonOk: bool)

  datatype Event =
    | InitEvent
    | ActionGroupEvent
    | UnhandledEvent
    | ErrorEvent
    | WaitEvent(id: ID, wait: WaitStatus)
    | ApplyEvent(id: ID, status: ActStatus, reasons: set<Reason>)
    | PruneEvent(id: ID, status: ActStatus, skip: Skip)
    | DeleteEvent(id: ID, status: ActStatus, skip: Skip)

  datatype Strategy = NoStrategy | StrategyApply | StrategyDelete
  datatype Actuation = ActuationUnknown | ActuationPending | ActuationSucceeded | ActuationSkipped | ActuationFailed
  datatype Reconcile = Unreconciled | StillPending | Reconciled | SkippedReconcile | TimedOut | FailedReconcile

  datatype ObjectStatus = ObjectStatus(strategy: Strategy, actuation: Actuation, reconcile: Reconcile)

  const NO_STATUS := ObjectStatus(NoStrategy, ActuationUnknown, Unreconciled)

  /** The errors sent to the event handler. */
  datatype Report =
    | FatalReport
    | ActuationReport(id: ID)
    | SkipReport(id: ID)
    | ConflictReport(id: ID)
    | AbandonReport(id: ID)
    | WaitReport(id: ID)
    | UnexpectedReport(id: ID)

  /** Statistics count events by status, so a multiset of statuses records them. */
  datatype Stats = Stats(
    apply: multiset<ActStatus>,
    prune: multiset<ActStatus>,
    delete: multiset<ActStatus>,
    wait: multiset<WaitStatus>,
    errors: nat)

  const NO_STATS := Stats(multiset{}, multiset{}, multiset{}, multiset{}, 0)

  function ActuationOf(status: ActStatus): Option<Actuation> {
    match status
    case ActPending => Some(ActuationPending)
    case ActSuccessful => Some(ActuationSucceeded)
    case ActSkipped => Some(ActuationSkipped)
    case ActFailed => Some(ActuationFailed)
    case OtherActStatus(_) => None
  }

  function ReconcileOf(status: WaitStatus): Option<Reconcile> {
    match status
    case ReconcilePending => Some(StillPending)
    case ReconcileSuccessful => Some(Reconciled)
    case ReconcileSkipped => Some(SkippedReconcile)
    case ReconcileTimeout => Some(TimedOut)
    case ReconcileFailed => Some(FailedReconcile)
    case OtherWaitStatus(_) => None
  }

  // What one event reports.

  function ApplySkipReport(id: ID, reasons: set<Reason>): Report {
    if DependencyPrevented in reasons || DependencyMismatch in reasons then SkipReport(id)
    else if PolicyPrevented in reasons then ConflictReport(id)
    else SkipReport(id)
  }

  /** The report of a skipped prune or delete, and how often abandoning was tried. */
  function DeleteSkip(isPrune: bool, id: ID, skip: Skip): (Option<Report>, nat) {
    var tried := if skip.specialNamespace then 1 else 0;
    if skip.specialNamespace && !skip.firstAbandonOk then (Some(AbandonReport(id)), tried)
    else if DependencyPrevented in skip.reasons || DependencyMismatch in skip.reasons then (Some(SkipReport(id)), tried)
    else if isPrune && ApplyPreventedDeletion in skip.reasons then (Some(SkipReport(id)), tried)
    else if PolicyPrevented in skip.reasons then (None, tried)
    else if NamespaceInUse in skip.reasons then (Some(SkipReport(id)), tried)
    else if AnnotationPrevented in skip.reasons then
      (if skip.secondAbandonOk then None else Some(AbandonReport(id)), tried + 1)
    else (Some(SkipReport(id)), tried)
  }

  /** A skipped deletion that is as it should be: the inventory policy or the
      deletion annotation wanted it, nothing more serious stood in the way, and no
      attempt to abandon the object failed. */
  predicate Silent(isPrune: bool, skip: Skip) {
    && DependencyPrevented !in skip.reasons && DependencyMismatch !in skip.reasons
    && !(isPrune && ApplyPreventedDeletion in skip.reasons)
    && (skip.specialNamespace ==> skip.firstAbandonOk)
    && (PolicyPrevented in skip.reasons
        || (NamespaceInUse !in skip.reasons && AnnotationPrevented in skip.reasons && skip.secondAbandonOk))
  }

  /** Only the deletion annotation stood in the way of the deletion. */
  predicate KeptByAnnotation(isPrune: bool, skip: Skip) {
    && AnnotationPrevented in skip.reasons
    && skip.reasons <= {AnnotationPrevented} + (if isPrune then {} else {ApplyPreventedDeletion})
    && (skip.specialNamespace ==> skip.firstAbandonOk)
  }

  /** An attempt to abandon the object failed. */
  predicate AbandonFails(isPrune: bool, skip: Skip) {
    (skip.specialNamespace && !skip.firstAbandonOk) || (KeptByAnnotation(isPrune, skip) && !skip.secondAbandonOk)
  }

  lemma OtherReasons(reasons: set<Reason>)
    ensures reasons <= {AnnotationPrevented, ApplyPreventedDeletion}
            <==> && DependencyPrevented !in reasons && DependencyMismatch !in reasons
                 && PolicyPrevented !in reasons && NamespaceInUse !in reasons
  {
    forall r | r in reasons && DependencyPrevented !in reasons && DependencyMismatch !in reasons
               && PolicyPrevented !in reasons && NamespaceInUse !in reasons
      ensures r in {AnnotationPrevented, ApplyPreventedDeletion}
    {
      match r
      case ApplyPreventedDeletion =>
      case AnnotationPrevented =>
      case _ =>
    }
  }

  /** How a skipped deletion is reported, and that abandoning was tried once for a
      special Namespace and once if only the annotation stood in the way. */
  lemma SkipsExactly(isPrune: bool, id: ID, skip: Skip)
    ensures DeleteSkip(isPrune, id, skip).0
            == if AbandonFails(isPrune, skip) then Some(AbandonReport(id))
               else if Silent(isPrune, skip) then None
               else Some(SkipReport(id))
    ensures DeleteSkip(isPrune, id, skip).1
            == (if skip.specialNamespace then 1 else 0) + if KeptByAnnotation(isPrune, skip) then 1 else 0
    ensures Silent(isPrune, skip) && PolicyPrevented !in skip.reasons ==> KeptByAnnotation(isPrune, skip)
  {
    OtherReasons(skip.reasons);
  }

  function DeletionReports(isPrune: bool, id: ID, status: ActStatus, skip: Skip): seq<Report> {
    match status
    case ActFailed => [ActuationReport(id)]
    case ActSkipped =>
      var report := DeleteSkip(isPrune, id, skip).0;
      if report.Some? then [report.value] else []
    case OtherActStatus(_) => [UnexpectedReport(id)]
    case _ => []
  }

  /** The events a loop reacts to: deletes belong to the destroyer, applies and
      prunes to the applier. */
  predicate Handled(isDestroy: bool, e: Event) {
    match e
    case ErrorEvent => true
    case WaitEvent(_, _) => true
    case ApplyEvent(_, _, _) => !isDestroy
    case PruneEvent(_, _, _) => !isDestroy
    case DeleteEvent(_, _, _) => isDestroy
    case _ => false
  }

  function ReportsOf(isDestroy: bool, e: Event): seq<Report> {
    if !Handled(isDestroy, e) then []
    else
      match e
      case ErrorEvent => [FatalReport]
      case WaitEvent(id, wait) =>
        if wait.OtherWaitStatus? then [UnexpectedReport(id)]
        else if isDestroy && (wait.ReconcileFailed? || wait.ReconcileTimeout?) then [WaitReport(id)]
        else []
      case ApplyEvent(id, status, reasons) =>
        (match status
         case ActFailed => [ActuationReport(id)]
         case ActSkipped => [ApplySkipReport(id, reasons)]
         case OtherActStatus(_) => [UnexpectedReport(id)]
         case _ => [])
      case PruneEvent(id, status, skip) => DeletionReports(true, id, status, skip)
      case DeleteEvent(id, status, skip) => DeletionReports(false, id, status, skip)
  }

  // The outcome of a whole run, read off its events. Nothing here refers to the
  // loop: each field is the last word that was said about it.

  predicate About(isDestroy: bool, e: Event, id: ID) {
    Handled(isDestroy, e) && !e.ErrorEvent? && e.id == id
  }

  predicate IsActuation(e: Event) {
    e.ApplyEvent? || e.PruneEvent? || e.DeleteEvent?
  }

  predicate Seen(isDestroy: bool, events: seq<Event>, id: ID) {
    exists i :: 0 <= i < |events| && About(isDestroy, events[i], id)
  }

  function LastStrategy(isDestroy: bool, events: seq<Event>, id: ID): Strategy {
    if events == [] then NoStrategy
    else
      var e := events[|events| - 1];
      if About(isDestroy, e, id) && IsActuation(e) then (if e.ApplyEvent? then StrategyApply else StrategyDelete)
      else LastStrategy(isDestroy, events[..|events| - 1], id)
  }

  function LastActuation(isDestroy: bool, events: seq<Event>, id: ID): Actuation {
    if events == [] then ActuationUnknown
    else
      var e := events[|events| - 1];
      if About(isDestroy, e, id) && IsActuation(e) && ActuationOf(e.status).Some? then ActuationOf(e.status).value
      else LastActuation(isDestroy, events[..|events| - 1], id)
  }

  function LastReconcile(isDestroy: bool, events: seq<Event>, id: ID): Reconcile {
    if events == [] then Unreconciled
    else
      var e := events[|events| - 1];
      if About(isDestroy, e, id) && e.WaitEvent? && ReconcileOf(e.wait).Some? then ReconcileOf(e.wait).value
      else LastReconcile(isDestroy, events[..|events| - 1], id)
  }

  function LastStatus(isDestroy: bool, events: seq<Event>, id: ID): ObjectStatus {
    ObjectStatus(
      LastStrategy(isDestroy, events, id), LastActuation(isDestroy, events, id), LastReconcile(isDestroy, events, id))
  }

  function Counted(isDestroy: bool, t: Stats, e: Event): Stats {
    if !Handled(isDestroy, e) then t
    else
      match e
      case ErrorEvent => t.(errors := t.errors + 1)
      case WaitEvent(_, wait) => t.(wait := t.wait + multiset{wait})
      case ApplyEvent(_, status, _) => t.(apply := t.apply + multiset{status})
      case PruneEvent(_, status, _) => t.(prune := t.prune + multiset{status})
      case DeleteEvent(_, status, _) => t.(delete := t.delete + multiset{status})
  }

  /** The statistics of the handled events. */
  function Tally(isDestroy: bool, events: seq<Event>): Stats {
    if events == [] then NO_STATS
    else Counted(isDestroy, Tally(isDestroy, events[..|events| - 1]), events[|events| - 1])
  }

  function AllReports(isDestroy: bool, events: seq<Event>): seq<Report> {
    if events == [] then []
    else AllReports(isDestroy, events[..|events| - 1]) + ReportsOf(isDestroy, events[|events| - 1])
  }

  function UncachedBy(isDestroy: bool, s: Store, e: Event): Store {
    if Handled(isDestroy, e) && e.PruneEvent? && e.status.ActSuccessful? then DeleteIgnored(s, e.id) else s
  }

  /** The store after the run: successfully pruned objects leave the cache. */
  function Uncached(isDestroy: bool, events: seq<Event>, store: Store): Store {
    if events == [] then store
    else UncachedBy(isDestroy, Uncached(isDestroy, events[..|events| - 1], store), events[|events| - 1])
  }

  /** What the statistics tell apart. */
  datatype Kind =
    | Applies(status: ActStatus)
    | Prunes(status: ActStatus)
    | Deletes(status: ActStatus)
    | Waits(wait: WaitStatus)
    | Errors

  predicate IsOfKind(isDestroy: bool, e: Event, kind: Kind) {
    match kind
    case Applies(status) => !isDestroy && e.ApplyEvent? && e.status == status
    case Prunes(status) => !isDestroy && e.PruneEvent? && e.status == status
    case Deletes(status) => isDestroy && e.DeleteEvent? && e.status == status
    case Waits(wait) => e.WaitEvent? && e.wait == wait
    case Errors => e.ErrorEvent?
  }

  function Count(t: Stats, kind: Kind): nat {
    match kind
    case Applies(status) => t.apply[status]
    case Prunes(status) => t.prune[status]
    case Deletes(status) => t.delete[status]
    case Waits(wait) => t.wait[wait]
    case Errors => t.errors
  }

  /** Where the events with a property are. */
  function Where(events: seq<Event>, p: Event -> bool): set<nat> {
    set i: nat | i < |events| && p(events[i])
  }

  lemma WhereSnoc(events: seq<Event>, p: Event -> bool)
    requires events != []
    ensures var last := |events| - 1;
            |Where(events, p)| == |Where(events[..last], p)| + if p(events[last]) then 1 else 0
  {
    var last := |events| - 1;
    var before := Where(events[..last], p);
    if p(events[last]) {
      assert Where(events, p) == before + {last};
    } else {
      assert Where(events, p) == before;
    }
  }

  function OfKind(isDestroy: bool, kind: Kind): Event -> bool {
    e => IsOfKind(isDestroy, e, kind)
  }

  function HandledBy(isDestroy: bool): Event -> bool {
    e => Handled(isDestroy, e)
  }

  function Total(t: Stats): nat {
    |t.apply| + |t.prune| + |t.delete| + |t.wait| + t.errors
  }

  lemma CountedOnce(isDestroy: bool, t: Stats, e: Event, kind: Kind)
    ensures Count(Counted(isDestroy, t, e), kind) == Count(t, kind) + if IsOfKind(isDestroy, e, kind) then 1 else 0
  {
  }

  lemma CountedInTotal(isDestroy: bool, t: Stats, e: Event)
    ensures Total(Counted(isDestroy, t, e)) == Total(t) + if Handled(isDestroy, e) then 1 else 0
  {
  }

  /** Every handled event is counted once and under its own status: each count is
      the number of the events of that kind, and together they are all of them. */
  lemma {:induction false} EveryEventCountedOnce(isDestroy: bool, events: seq<Event>, kind: Kind)
    ensures Count(Tally(isDestroy, events), kind) == |Where(events, OfKind(isDestroy, kind))|
    ensures Total(Tally(isDestroy, events)) == |Where(events, HandledBy(isDestroy))|
  {
    if events != [] {
      var init, e := events[..|events| - 1], events[|events| - 1];
      EveryEventCountedOnce(isDestroy, init, kind);
      CountedOnce(isDestroy, Tally(isDestroy, init), e, kind);
      CountedInTotal(isDestroy, Tally(isDestroy, init), e);
      WhereSnoc(events, OfKind(isDestroy, kind));
      WhereSnoc(events, HandledBy(isDestroy));
    }
  }

  // Reports against events.

  function CountReports(reports: seq<Report>, p: Report -> bool): nat {
    if reports == [] then 0
    else CountReports(reports[..|reports| - 1], p) + if p(reports[|reports| - 1]) then 1 else 0
  }

  lemma {:induction false} CountOfConcat(r1: seq<Report>, r2: seq<Report>, p: Report -> bool)
    ensures CountReports(r1 + r2, p) == CountReports(r1, p) + CountReports(r2, p)
  {
    if r2 == [] {
      assert r1 + r2 == r1;
    } else {
      var r := r1 + r2;
      assert r[..|r| - 1] == r1 + r2[..|r2| - 1];
      CountOfConcat(r1, r2[..|r2| - 1], p);
    }
  }

  /** If each event yields one report of a sort exactly when it has a property, then
      a run yields as many as it has events with that property. */
  lemma {:induction false} OneReportEach(isDestroy: bool, events: seq<Event>, p: Report -> bool, q: Event -> bool)
    requires forall e :: CountReports(ReportsOf(isDestroy, e), p) == if q(e) then 1 else 0
    ensures CountReports(AllReports(isDestroy, events), p) == |Where(events, q)|
  {
    if events != [] {
      var init, e := events[..|events| - 1], events[|events| - 1];
      OneReportEach(isDestroy, init, p, q);
      CountOfConcat(AllReports(isDestroy, init), ReportsOf(isDestroy, e), p);
      WhereSnoc(events, q);
    }
  }

  lemma AtMostOneReport(reports: seq<Report>, p: Report -> bool)
    requires |reports| <= 1
    ensures CountReports(reports, p) == if reports != [] && p(reports[0]) then 1 else 0
  {
  }

  predicate IsWaitFailure(e: Event) {
    e.WaitEvent? && (e.wait.ReconcileFailed? || e.wait.ReconcileTimeout?)
  }

  /** How many wait events failed or timed out. */
  function WaitFailures(events: seq<Event>): nat {
    |Where(events, IsWaitFailure)|
  }

  predicate IsWaitReport(r: Report) {
    r.WaitReport?
  }

  function WaitReports(reports: seq<Report>): nat {
    CountReports(reports, IsWaitReport)
  }

  /** A wait that fails or times out is an error of a destroy run, once for every
      such event, and never one of an apply run. */
  lemma WaitFailuresReportedByDestroyOnly(isDestroy: bool, events: seq<Event>)
    ensures WaitReports(AllReports(isDestroy, events)) == if isDestroy then WaitFailures(events) else 0
  {
    if isDestroy {
      forall e
        ensures CountReports(ReportsOf(true, e), IsWaitReport) == if IsWaitFailure(e) then 1 else 0
      {
        AtMostOneReport(ReportsOf(true, e), IsWaitReport);
      }
      OneReportEach(true, events, IsWaitReport, IsWaitFailure);
    } else {
      forall e
        ensures CountReports(ReportsOf(false, e), IsWaitReport) == 0
      {
        AtMostOneReport(ReportsOf(false, e), IsWaitReport);
      }
      var never: Event -> bool := e => false;
      OneReportEach(false, events, IsWaitReport, never);
      assert Where(events, never) == {};
    }
  }

  predicate DeletionFails(isPrune: bool, status: ActStatus, skip: Skip) {
    !status.ActPending? && !status.ActSuccessful? && !(status.ActSkipped? && Silent(isPrune, skip))
  }

  /** Something about an object did not work out. */
  predicate IsProblem(isDestroy: bool, e: Event) {
    match e
    case WaitEvent(_, wait) => wait.OtherWaitStatus? || (isDestroy && IsWaitFailure(e))
    case ApplyEvent(_, status, _) => !isDestroy && !status.ActPending? && !status.ActSuccessful?
    case PruneEvent(_, status, skip) => !isDestroy && DeletionFails(true, status, skip)
    case DeleteEvent(_, status, skip) => isDestroy && DeletionFails(false, status, skip)
    case _ => false
  }

  function AboutID(id: ID): Report -> bool {
    (r: Report) => !r.FatalReport? && r.id == id
  }

  function ProblemOf(isDestroy: bool, id: ID): Event -> bool {
    e => IsProblem(isDestroy, e) && e.id == id
  }

  lemma ReportOfProblem(isDestroy: bool, e: Event, id: ID)
    ensures CountReports(ReportsOf(isDestroy, e), AboutID(id)) == if ProblemOf(isDestroy, id)(e) then 1 else 0
  {
    AtMostOneReport(ReportsOf(isDestroy, e), AboutID(id));
    if e.PruneEvent? {
      SkipsExactly(true, e.id, e.skip);
    } else if e.DeleteEvent? {
      SkipsExactly(false, e.id, e.skip);
    }
  }

  /** In every run each object is reported exactly as often as something about it
      did not work out; deletions that were rightly skipped are not reported. */
  lemma ProblemsReportedOnce(isDestroy: bool, events: seq<Event>, id: ID)
    ensures CountReports(AllReports(isDestroy, events), AboutID(id)) == |Where(events, ProblemOf(isDestroy, id))|
  {
    forall e
      ensures CountReports(ReportsOf(isDestroy, e), AboutID(id)) == if ProblemOf(isDestroy, id)(e) then 1 else 0
    {
      ReportOfProblem(isDestroy, e, id);
    }
    OneReportEach(isDestroy, events, AboutID(id), ProblemOf(isDestroy, id));
  }

  /** The event is an apply, prune or delete event of this loop. */
  predicate IsActuationOf(isDestroy: bool, e: Event) {
    if isDestroy then e.DeleteEvent? else e.ApplyEvent? || e.PruneEvent?
  }

  predicate IsSkippedDeletion(isDestroy: bool, e: Event) {
    (if isDestroy then e.DeleteEvent? else e.PruneEvent?) && e.status.ActSkipped?
  }

  predicate IsDependencyError(reasons: set<Reason>) {
    DependencyPrevented in reasons || DependencyMismatch in reasons
  }

  /** The event calls for the report. */
  predicate CallsFor(isDestroy: bool, e: Event, r: Report) {
    match r
    case FatalReport => e.ErrorEvent?
    case ActuationReport(id) => IsActuationOf(isDestroy, e) && e.id == id && e.status.ActFailed?
    case WaitReport(id) => isDestroy && IsWaitFailure(e) && e.id == id
    case UnexpectedReport(id) =>
      || (e.WaitEvent? && e.id == id && e.wait.OtherWaitStatus?)
      || (IsActuationOf(isDestroy, e) && e.id == id && e.status.OtherActStatus?)
    case ConflictReport(id) =>
      && !isDestroy && e.ApplyEvent? && e.id == id && e.status.ActSkipped?
      && PolicyPrevented in e.reasons && !IsDependencyError(e.reasons)
    case AbandonReport(id) =>
      IsSkippedDeletion(isDestroy, e) && e.id == id && AbandonFails(!isDestroy, e.skip)
    case SkipReport(id) =>
      || (!isDestroy && e.ApplyEvent? && e.id == id && e.status.ActSkipped?
          && (PolicyPrevented in e.reasons ==> IsDependencyError(e.reasons)))
      || (IsSkippedDeletion(isDestroy, e) && e.id == id
          && !Silent(!isDestroy, e.skip) && !AbandonFails(!isDestroy, e.skip))
  }

  function Caller(isDestroy: bool, r: Report): Event -> bool {
    e => CallsFor(isDestroy, e, r)
  }

  function Is(r: Report): Report -> bool {
    x => x == r
  }

  lemma ReportOfEvent(isDestroy: bool, e: Event, r: Report)
    ensures CountReports(ReportsOf(isDestroy, e), Is(r)) == if Caller(isDestroy, r)(e) then 1 else 0
  {
    AtMostOneReport(ReportsOf(isDestroy, e), Is(r));
    if e.PruneEvent? {
      SkipsExactly(true, e.id, e.skip);
    } else if e.DeleteEvent? {
      SkipsExactly(false, e.id, e.skip);
    }
  }

  /** In every run, each report is made exactly as often as an event calls for it. */
  lemma ReportsExactly(isDestroy: bool, events: seq<Event>, r: Report)
    ensures CountReports(AllReports(isDestroy, events), Is(r)) == |Where(events, Caller(isDestroy, r))|
  {
    forall e
      ensures CountReports(ReportsOf(isDestroy, e), Is(r)) == if Caller(isDestroy, r)(e) then 1 else 0
    {
      ReportOfEvent(isDestroy, e, r);
    }
    OneReportEach(isDestroy, events, Is(r), Caller(isDestroy, r));
  }

  // The cache.

  predicate PruneSucceeds(isDestroy: bool, e: Event, id: ID) {
    !isDestroy && e.PruneEvent? && e.status.ActSuccessful? && e.id == id
  }

  predicate Pruned(isDestroy: bool, events: seq<Event>, id: ID) {
    exists i :: 0 <= i < |events| && PruneSucceeds(isDestroy, events[i], id)
  }

  lemma PrunedSnoc(isDestroy: bool, events: seq<Event>, id: ID)
    requires events != []
    ensures Pruned(isDestroy, events, id) <==>
              Pruned(isDestroy, events[..|events| - 1], id) || PruneSucceeds(isDestroy, events[|events| - 1], id)
  {
  }

  /** An object leaves the ignore cache exactly when a prune of it succeeded. */
  lemma {:induction false} PruneUncaches(isDestroy: bool, events: seq<Event>, store: Store)
    requires store.ignored.Some? && store.ignored.value.Valid()
    ensures var s := Uncached(isDestroy, events, store);
            && s == store.(ignored := s.ignored)
            && s.ignored.Some? && s.ignored.value.Valid()
            && (forall id :: id in s.ignored.value.values <==>
                  id in store.ignored.value.values && !Pruned(isDestroy, events, id))
            && (forall id :: id in s.ignored.value.values ==>
                  s.ignored.value.values[id] == store.ignored.value.values[id])
  {
    if events != [] {
      var init, e := events[..|events| - 1], events[|events| - 1];
      PruneUncaches(isDestroy, init, store);
      forall id: ID
        ensures Pruned(isDestroy, events, id) <==>
                  Pruned(isDestroy, init, id) || PruneSucceeds(isDestroy, e, id)
      {
        PrunedSnoc(isDestroy, events, id);
      }
    }
  }

  // The status map.

  lemma SeenSnoc(isDestroy: bool, events: seq<Event>, id: ID)
    requires events != []
    ensures Seen(isDestroy, events, id) <==>
              Seen(isDestroy, events[..|events| - 1], id) || About(isDestroy, events[|events| - 1], id)
  {
  }

  /** The status map says exactly what the events so far say. */
  ghost predicate Reflects(isDestroy: bool, events: seq<Event>, statuses: map<ID, ObjectStatus>) {
    && (forall id :: id in statuses <==> Seen(isDestroy, events, id))
    && (forall id :: id in statuses ==> statuses[id] == LastStatus(isDestroy, events, id))
  }

  function NextActuation(status: ActStatus, before: ObjectStatus): Actuation {
    if ActuationOf(status).Some? then ActuationOf(status).value else before.actuation
  }

  /** What the loop writes for one event, on the status the object had. */
  function NextStatus(e: Event, before: ObjectStatus): ObjectStatus {
    match e
    case WaitEvent(_, wait) =>
      if ReconcileOf(wait).Some? then before.(reconcile := ReconcileOf(wait).value) else before
    case ApplyEvent(_, status, _) =>
      ObjectStatus(StrategyApply, NextActuation(status, before), before.reconcile)
    case PruneEvent(_, status, _) =>
      ObjectStatus(StrategyDelete, NextActuation(status, before), before.reconcile)
    case DeleteEvent(_, status, _) =>
      ObjectStatus(StrategyDelete, NextActuation(status, before), before.reconcile)
    case _ => before
  }

  lemma {:induction false} UnseenHasNoStatus(isDestroy: bool, events: seq<Event>, id: ID)
    requires !Seen(isDestroy, events, id)
    ensures LastStatus(isDestroy, events, id) == NO_STATUS
  {
    if events != [] {
      SeenSnoc(isDestroy, events, id);
      UnseenHasNoStatus(isDestroy, events[..|events| - 1], id);
    }
  }

  /** The status map after one iteration of the loop. */
  function NextStatuses(isDestroy: bool, e: Event, statuses: map<ID, ObjectStatus>): map<ID, ObjectStatus> {
    if !Handled(isDestroy, e) || e.ErrorEvent? then statuses
    else statuses[e.id := NextStatus(e, if e.id in statuses then statuses[e.id] else NO_STATUS)]
  }

  lemma ReflectsNextAt(isDestroy: bool, events: seq<Event>, e: Event, statuses: map<ID, ObjectStatus>, id: ID)
    requires Reflects(isDestroy, events, statuses)
    ensures var next := NextStatuses(isDestroy, e, statuses);
            && (id in next <==> Seen(isDestroy, events + [e], id))
            && (id in next ==> next[id] == LastStatus(isDestroy, events + [e], id))
  {
    assert (events + [e])[..|events|] == events;
    SeenSnoc(isDestroy, events + [e], id);
    if id !in statuses {
      UnseenHasNoStatus(isDestroy, events, id);
    }
  }

  /** One iteration keeps the map in step with the events. */
  lemma ReflectsNext(isDestroy: bool, events: seq<Event>, e: Event, statuses: map<ID, ObjectStatus>)
    requires Reflects(isDestroy, events, statuses)
    ensures Reflects(isDestroy, events + [e], NextStatuses(isDestroy, e, statuses))
  {
    forall id: ID
      ensures var next := NextStatuses(isDestroy, e, statuses);
              && (id in next <==> Seen(isDestroy, events + [e], id))
              && (id in next ==> next[id] == LastStatus(isDestroy, events + [e], id))
    {
      ReflectsNextAt(isDestroy, events, e, statuses, id);
    }
  }

  // What the map says, without the tables by which it is computed.

  predicate IsLastSuch(events: seq<Event>, p: Event -> bool, i: int) {
    0 <= i < |events| && p(events[i]) && forall j :: i < j < |events| ==> !p(events[j])
  }

  /** The last event with a property. */
  function LastSuch(events: seq<Event>, p: Event -> bool): (r: Option<Event>)
    ensures r.Some? ==> exists i :: IsLastSuch(events, p, i) && events[i] == r.value
    ensures r.None? ==> forall i :: 0 <= i < |events| ==> !p(events[i])
  {
    if events == [] then None
    else
      var init, last := events[..|events| - 1], events[|events| - 1];
      if p(last) then assert IsLastSuch(events, p, |events| - 1); Some(last)
      else
        var r := LastSuch(init, p);
        assert r.Some? ==> exists i :: IsLastSuch(init, p, i) && IsLastSuch(events, p, i) && init[i] == r.value;
        assert forall i :: 0 <= i < |init| ==> init[i] == events[i];
        r
  }

  /** An apply, prune or delete event of this loop about id. */
  function ActsOn(isDestroy: bool, id: ID): Event -> bool {
    e => IsActuationOf(isDestroy, e) && e.id == id
  }

  function ActsKnown(isDestroy: bool, id: ID): Event -> bool {
    e => IsActuationOf(isDestroy, e) && e.id == id && !e.status.OtherActStatus?
  }

  function WaitsKnown(id: ID): Event -> bool {
    (e: Event) => e.WaitEvent? && e.id == id && !e.wait.OtherWaitStatus?
  }

  predicate HasStatus(e: Option<Event>, status: ActStatus) {
    e.Some? && (e.value.ApplyEvent? || e.value.PruneEvent? || e.value.DeleteEvent?) && e.value.status == status
  }

  predicate HasWait(e: Option<Event>, wait: WaitStatus) {
    e.Some? && e.value.WaitEvent? && e.value.wait == wait
  }

  /** The kind of the last event that acted on the object. */
  predicate IsLastStrategy(isDestroy: bool, events: seq<Event>, id: ID, strategy: Strategy) {
    var act := LastSuch(events, ActsOn(isDestroy, id));
    && (strategy == NoStrategy <==> act.None?)
    && (strategy == StrategyApply <==> act.Some? && act.value.ApplyEvent?)
    && (strategy == StrategyDelete <==> act.Some? && (act.value.PruneEvent? || act.value.DeleteEvent?))
  }

  /** The status of the last such event with a known status. */
  predicate IsLastActuation(isDestroy: bool, events: seq<Event>, id: ID, actuation: Actuation) {
    var known := LastSuch(events, ActsKnown(isDestroy, id));
    && (actuation == ActuationUnknown <==> known.None?)
    && (actuation == ActuationPending <==> HasStatus(known, ActPending))
    && (actuation == ActuationSucceeded <==> HasStatus(known, ActSuccessful))
    && (actuation == ActuationSkipped <==> HasStatus(known, ActSkipped))
    && (actuation == ActuationFailed <==> HasStatus(known, ActFailed))
  }

  /** The status of the last wait event with a known status. */
  predicate IsLastReconcile(events: seq<Event>, id: ID, reconcile: Reconcile) {
    var wait := LastSuch(events, WaitsKnown(id));
    && (reconcile == Unreconciled <==> wait.None?)
    && (reconcile == StillPending <==> HasWait(wait, ReconcilePending))
    && (reconcile == Reconciled <==> HasWait(wait, ReconcileSuccessful))
    && (reconcile == SkippedReconcile <==> HasWait(wait, ReconcileSkipped))
    && (reconcile == TimedOut <==> HasWait(wait, ReconcileTimeout))
    && (reconcile == FailedReconcile <==> HasWait(wait, ReconcileFailed))
  }

  /** The status of an object is the last word on it. */
  predicate IsLastWord(isDestroy: bool, events: seq<Event>, id: ID, status: ObjectStatus) {
    && IsLastStrategy(isDestroy, events, id, status.strategy)
    && IsLastActuation(isDestroy, events, id, status.actuation)
    && IsLastReconcile(events, id, status.reconcile)
  }

  lemma {:induction false} StrategyIsLastWord(isDestroy: bool, events: seq<Event>, id: ID)
    ensures IsLastStrategy(isDestroy, events, id, LastStrategy(isDestroy, events, id))
  {
    if events != [] {
      StrategyIsLastWord(isDestroy, events[..|events| - 1], id);
    }
  }

  lemma {:induction false} ActuationIsLastWord(isDestroy: bool, events: seq<Event>, id: ID)
    ensures IsLastActuation(isDestroy, events, id, LastActuation(isDestroy, events, id))
  {
    if events != [] {
      ActuationIsLastWord(isDestroy, events[..|events| - 1], id);
    }
  }

  lemma {:induction false} ReconcileIsLastWord(isDestroy: bool, events: seq<Event>, id: ID)
    ensures IsLastReconcile(events, id, LastReconcile(isDestroy, events, id))
  {
    if events != [] {
      ReconcileIsLastWord(isDestroy, events[..|events| - 1], id);
    }
  }

  predicate Concerns(isDestroy: bool, e: Event, id: ID) {
    (e.WaitEvent? || IsActuationOf(isDestroy, e)) && e.id == id
  }

  /** The recorded status of every object is the last word on it, and the objects
      with a status are those that some event of this loop is about. */
  lemma StatusIsLastWord(isDestroy: bool, events: seq<Event>, statuses: map<ID, ObjectStatus>, id: ID)
    requires Reflects(isDestroy, events, statuses)
    ensures id in statuses <==> exists i :: 0 <= i < |events| && Concerns(isDestroy, events[i], id)
    ensures id in statuses ==> IsLastWord(isDestroy, events, id, statuses[id])
  {
    assert forall e :: About(isDestroy, e, id) <==> Concerns(isDestroy, e, id);
    assert Seen(isDestroy, events, id) <==> exists i :: 0 <= i < |events| && Concerns(isDestroy, events[i], id);
    StrategyIsLastWord(isDestroy, events, id);
    ActuationIsLastWord(isDestroy, events, id);
    ReconcileIsLastWord(isDestroy, events, id);
  }
}
