/** The reconciler reads the disk while the hydration controller works on it, one
    file after the other: first the done file (pkg/parse/run.go:273), then the error
    file and then the hydrated link (pkg/parse/source.go:136-150). */
module HydrationReader {
  import opened Objects
  import opened Hydration
  import opened HydrationSafety

  /** If the link leads to c, then to the complete output for it. */
  predicate Intact(d: Disk, c: Commit) {
    d.Resolved() == Some(c) ==> d.Serves(c)
  }

  predicate Guarded(d: Disk, c: Commit) {
    d.errorFile || Intact(d, c)
  }

  /** Position p of a trace that starts from d. */
  function Nth(d: Disk, trace: seq<Disk>, p: nat): Disk
    requires p <= |trace|
  {
    if p == 0 then d else trace[p - 1]
  }

  predicate AllIntact(d: Disk, trace: seq<Disk>, c: Commit) {
    forall p :: 0 <= p <= |trace| ==> Intact(Nth(d, trace, p), c)
  }

  /** Once there is no error file, c is intact for the rest of the trace. */
  predicate Shielded(d: Disk, trace: seq<Disk>, c: Commit) {
    forall p, q :: 0 <= p <= q <= |trace| && !Nth(d, trace, p).errorFile ==> Intact(Nth(d, trace, q), c)
  }

  // One event that does not concern c.

  lemma SwitchKeepsOther(d: Disk, b: Commit, r: Render, c: Commit)
    requires b != c && Intact(d, c)
    ensures AllIntact(d, UpdateSymlink(d, b, r).trace, c)
  {
  }

  lemma BuildKeepsOther(config: Config, d: Disk, b: Commit, r: Render, c: Commit)
    requires b != c && Intact(d, c)
    ensures AllIntact(d, KustomizeBuild(config, d, b, r).trace, c)
    ensures Intact(Last(d, KustomizeBuild(config, d, b, r).trace), c)
  {
    BuildTouchesOnlyItsTree(config, d, b, r);
    var trace := KustomizeBuild(config, d, b, r).trace;
    forall p | 0 <= p <= |trace|
      ensures Intact(Nth(d, trace, p), c)
    {
      assert p > 0 ==> OnlyTree(d, trace[p - 1], b);
    }
    assert Last(d, trace) == Nth(d, trace, |trace|);
  }

  lemma IntactConcat(d: Disk, t1: seq<Disk>, t2: seq<Disk>, c: Commit)
    requires AllIntact(d, t1, c) && AllIntact(Last(d, t1), t2, c)
    ensures AllIntact(d, t1 + t2, c)
  {
    forall p | 0 <= p <= |t1 + t2|
      ensures Intact(Nth(d, t1 + t2, p), c)
    {
      if p <= |t1| {
        assert Nth(d, t1 + t2, p) == Nth(d, t1, p);
      } else {
        assert Nth(d, t1 + t2, p) == Nth(Last(d, t1), t2, p - |t1|);
      }
    }
  }

  /** Rendering another commit does not touch the output for c while the link
      leads to it. */
  lemma RenderingKeepsOther(config: Config, d: Disk, b: Commit, r: Render, c: Commit)
    requires b != c && Intact(d, c)
    ensures AllIntact(d, RunHydrate(config, d, b, r).trace, c)
  {
    RunHydrateParts(config, d, b, r);
    BuildKeepsOther(config, d, b, r, c);
    var build := KustomizeBuild(config, d, b, r).trace;
    SwitchKeepsOther(Last(d, build), b, r, c);
    IntactConcat(d, build, UpdateSymlink(Last(d, build), b, r).trace, c);
  }

  lemma CompletingKeepsOther(d: Disk, commit: string, err: Option<HydrationError>, fault: CompleteFault, c: Commit)
    requires Intact(d, c)
    ensures AllIntact(d, Complete(d, commit, err, fault), c)
  {
  }

  /** What a hydration of another commit amounts to for c. */
  predicate HydratesOther(d: Disk, h: Outcome, c: Commit) {
    && (Intact(d, c) ==> AllIntact(d, h.trace, c))
    && (d.errorFile ==> forall i :: 0 <= i < |h.trace| ==> h.trace[i].errorFile)
    && (h.err.None? ==> Last(d, h.trace).link != Some(c))
  }

  /** With an error file, it goes only after a success, and then the link has been
      moved to the other commit. */
  lemma ShieldedByError(d: Disk, h: Outcome, commit: string, fault: CompleteFault, c: Commit)
    requires HydratesOther(d, h, c) && d.errorFile
    ensures Shielded(d, h.trace + Complete(Last(d, h.trace), commit, h.err, fault), c)
  {
    var complete := Complete(Last(d, h.trace), commit, h.err, fault);
    var trace := h.trace + complete;
    forall p, q | 0 <= p <= q <= |trace| && !Nth(d, trace, p).errorFile
      ensures Intact(Nth(d, trace, q), c)
    {
      assert p > |h.trace|;
      assert Nth(d, trace, p) == complete[p - |h.trace| - 1] && Nth(d, trace, q) == complete[q - |h.trace| - 1];
      assert h.err.None?;
    }
  }

  lemma HydratedOther(d: Disk, h: Outcome, commit: string, fault: CompleteFault, c: Commit)
    requires HydratesOther(d, h, c)
    ensures var trace := h.trace + Complete(Last(d, h.trace), commit, h.err, fault);
            && (Intact(d, c) ==> AllIntact(d, trace, c))
            && (d.errorFile ==> Shielded(d, trace, c))
  {
    var d1 := Last(d, h.trace);
    var complete := Complete(d1, commit, h.err, fault);
    if Intact(d, c) {
      assert d1 == Nth(d, h.trace, |h.trace|);
      CompletingKeepsOther(d1, commit, h.err, fault, c);
      IntactConcat(d, h.trace, complete, c);
    }
    if d.errorFile {
      ShieldedByError(d, h, commit, fault, c);
    }
  }

  /** The event hydrates c, or removes the hydrated root. */
  predicate Disturbs(config: Config, s: State, e: Event, c: Commit) {
    Hydrates(s, e) == Some(c) || RemovesRoot(config, s, e)
  }

  lemma RehydrateKeepsOther(config: Config, d: Disk, b: Commit, r: Render, c: Commit)
    requires b != c
    ensures HydratesOther(d, RunHydrate(config, d, b, r), c)
  {
    RenderingOutcome(config, d, b, r);
    RenderingKeepsSignals(config, d, b, r);
    if Intact(d, c) {
      RenderingKeepsOther(config, d, b, r, c);
    }
  }

  lemma AfterDoneRemoved(d: Disk, h: Outcome, c: Commit)
    requires HydratesOther(d.(done := None), h, c)
    ensures HydratesOther(d, Outcome([d.(done := None)] + h.trace, h.err), c)
  {
    var cleared := d.(done := None);
    LastOfConcat(d, [cleared], h.trace);
    if Intact(d, c) {
      assert AllIntact(d, [cleared], c);
      IntactConcat(d, [cleared], h.trace, c);
    }
  }

  lemma HydrateKeepsOther(config: Config, d: Disk, b: Commit, w: Work, c: Commit)
    requires b != c && !(b !in config.kustomized && w.readDirOk && w.scan.NoKustomization?)
    ensures HydratesOther(d, Hydrate(config, d, b, w), c)
  {
    if w.readDirOk && b in config.kustomized && w.doneRemoved {
      RehydrateKeepsOther(config, d.(done := None), b, w.render, c);
      AfterDoneRemoved(d, RunHydrate(config, d.(done := None), b, w.render), c);
    }
  }

  /** An event that neither hydrates c nor removes the root keeps c intact, and if
      c is guarded only by the error file, it is intact once that is gone. */
  lemma UndisturbedEvent(config: Config, s: State, e: Event, c: Commit)
    requires !Disturbs(config, s, e, c)
    ensures Intact(s.disk, c) ==> AllIntact(s.disk, Handle(config, s, e).trace, c)
    ensures Guarded(s.disk, c) ==> Shielded(s.disk, Handle(config, s, e).trace, c)
  {
    match e
    case DoneDeleted =>
    case RunFired(fetched, _, _, work, fault) =>
      if fetched.None? {
        HydratedOther(s.disk, Outcome([], Some(InternalError)), "", fault, c);
        assert [] + Complete(s.disk, "", Some(InternalError), fault) == Handle(config, s, e).trace;
      } else if Hydrates(s, e).Some? {
        HydrateKeepsOther(config, s.disk, fetched.value, work, c);
        HydratedOther(s.disk, Hydrate(config, s.disk, fetched.value, work), fetched.value, fault, c);
      }
    case RehydrateFired(render, fault) =>
      if Hydrates(s, e).Some? {
        RehydrateKeepsOther(config, s.disk, s.srcCommit, render, c);
        HydratedOther(s.disk, RunHydrate(config, s.disk, s.srcCommit, render), s.srcCommit, fault, c);
      }
  }

  /** The done file is as it was, or gone. */
  predicate DoneKept(d: Disk, trace: seq<Disk>) {
    forall i :: 0 <= i < |trace| ==> trace[i].done == d.done || trace[i].done.None?
  }

  lemma HydrateKeepsDone(config: Config, d: Disk, b: Commit, w: Work)
    requires !(b !in config.kustomized && w.readDirOk && w.scan.NoKustomization?)
    ensures DoneKept(d, Hydrate(config, d, b, w).trace)
  {
    if w.readDirOk && b in config.kustomized && w.doneRemoved {
      RenderingKeepsSignals(config, d.(done := None), b, w.render);
    }
  }

  lemma CompletedDone(d: Disk, h: Outcome, commit: string, c: Commit, t: Disk)
    requires DoneKept(d, h.trace) && commit != c
    requires t in h.trace + Complete(Last(d, h.trace), commit, h.err, NoFault) && t.DoneCommit() == c
    ensures d.DoneCommit() == c
  {
    var d1 := Last(d, h.trace);
    assert d1.done == d.done || d1.done.None?;
    if t in h.trace {
      var i :| 0 <= i < |h.trace| && h.trace[i] == t;
    }
  }

  /** Nor does it make the done file name c. */
  lemma DoneBefore(config: Config, s: State, e: Event, c: Commit, t: Disk)
    requires !Disturbs(config, s, e, c) && Completes(e)
    requires t in Handle(config, s, e).trace && t.DoneCommit() == c
    ensures s.disk.DoneCommit() == c
  {
    match e
    case DoneDeleted =>
    case RunFired(fetched, _, _, work, _) =>
      if fetched.None? {
        assert [] + Complete(s.disk, "", Some(InternalError), NoFault) == Handle(config, s, e).trace;
        CompletedDone(s.disk, Outcome([], Some(InternalError)), "", c, t);
      } else if Hydrates(s, e).Some? {
        HydrateKeepsDone(config, s.disk, fetched.value, work);
        CompletedDone(s.disk, Hydrate(config, s.disk, fetched.value, work), fetched.value, c, t);
      }
    case RehydrateFired(render, _) =>
      if Hydrates(s, e).Some? {
        RenderingKeepsSignals(config, s.disk, s.srcCommit, render);
        CompletedDone(s.disk, RunHydrate(config, s.disk, s.srcCommit, render), s.srcCommit, c, t);
      }
  }

  // Whole runs.

  function EventTrace(config: Config, s: State, events: seq<Event>, i: nat): seq<Disk>
    requires i <= |events|
  {
    if i < |events| then Handle(config, Before(config, s, events, i), events[i]).trace else []
  }

  /** A moment of a run: position p of event i, where 0 is the state before it. */
  datatype Moment = Moment(event: nat, position: nat)

  predicate Earlier(m1: Moment, m2: Moment) {
    m1.event < m2.event || (m1.event == m2.event && m1.position <= m2.position)
  }

  predicate IsMoment(config: Config, s: State, events: seq<Event>, m: Moment) {
    m.event <= |events| && m.position <= |EventTrace(config, s, events, m.event)|
  }

  /** The disk at a moment. */
  function At(config: Config, s: State, events: seq<Event>, m: Moment): Disk
    requires IsMoment(config, s, events, m)
  {
    Nth(Before(config, s, events, m.event).disk, EventTrace(config, s, events, m.event), m.position)
  }

  /** The first event that has not begun. */
  function Begun(m: Moment): nat {
    if m.position > 0 then m.event + 1 else m.event
  }

  /** None of the events from i on and before j hydrates c or removes the root. */
  predicate Undisturbed(config: Config, s: State, events: seq<Event>, c: Commit, i: nat, j: nat)
    requires j <= |events|
  {
    forall k :: i <= k < j ==> !Disturbs(config, Before(config, s, events, k), events[k], c)
  }

  lemma LastIsNext(config: Config, s: State, events: seq<Event>, i: nat)
    requires i < |events|
    ensures var trace := EventTrace(config, s, events, i);
            Before(config, s, events, i + 1).disk == Nth(Before(config, s, events, i).disk, trace, |trace|)
  {
    BeforeNext(config, s, events, i);
  }

  lemma {:induction false} GuardedBetween(config: Config, s: State, events: seq<Event>, c: Commit, i: nat, j: nat)
    requires i <= j <= |events| && Undisturbed(config, s, events, c, i, j)
    requires Guarded(Before(config, s, events, i).disk, c)
    ensures Guarded(Before(config, s, events, j).disk, c)
    decreases j
  {
    if i < j {
      GuardedBetween(config, s, events, c, i, j - 1);
      UndisturbedEvent(config, Before(config, s, events, j - 1), events[j - 1], c);
      LastIsNext(config, s, events, j - 1);
    }
  }

  lemma {:induction false} IntactBetween(config: Config, s: State, events: seq<Event>, c: Commit, i: nat, j: nat)
    requires i <= j <= |events| && Undisturbed(config, s, events, c, i, j)
    requires Intact(Before(config, s, events, i).disk, c)
    ensures Intact(Before(config, s, events, j).disk, c)
    decreases j
  {
    if i < j {
      IntactBetween(config, s, events, c, i, j - 1);
      UndisturbedEvent(config, Before(config, s, events, j - 1), events[j - 1], c);
      LastIsNext(config, s, events, j - 1);
    }
  }

  /** The done file names c at some moment: c was guarded before its event. */
  lemma NamedIsGuarded(config: Config, s: State, events: seq<Event>, c: Commit, m: Moment)
    requires Inv(config, s) && AllComplete(events) && c in config.kustomized
    requires IsMoment(config, s, events, m) && Begun(m) <= |events|
    requires Undisturbed(config, s, events, c, m.event, Begun(m))
    requires At(config, s, events, m).DoneCommit() == c
    ensures Guarded(Before(config, s, events, m.event).disk, c)
  {
    DoneFileIsTrusted(config, s, events[..m.event]);
    if m.position > 0 {
      DoneBefore(config, Before(config, s, events, m.event), events[m.event], c, At(config, s, events, m));
    }
  }

  /** No error file at m2, where c was guarded before its event: intact at m3. */
  lemma IntactAfter(config: Config, s: State, events: seq<Event>, c: Commit, m2: Moment, m3: Moment)
    requires IsMoment(config, s, events, m2) && IsMoment(config, s, events, m3) && Earlier(m2, m3)
    requires Begun(m3) <= |events| && Undisturbed(config, s, events, c, m2.event, Begun(m3))
    requires Guarded(Before(config, s, events, m2.event).disk, c) && !At(config, s, events, m2).errorFile
    ensures Intact(At(config, s, events, m3), c)
  {
    if m2.event < Begun(m3) {
      UndisturbedEvent(config, Before(config, s, events, m2.event), events[m2.event], c);
      if m2.event < m3.event {
        LastIsNext(config, s, events, m2.event);
        IntactBetween(config, s, events, c, m2.event + 1, m3.event);
        if m3.position > 0 {
          UndisturbedEvent(config, Before(config, s, events, m3.event), events[m3.event], c);
        }
      }
    }
  }

  /** The reads in their order, at any three moments of any run in which complete
      returns nil: if the done file names c, later there is no error file, and still
      later the link resolves to c, then it leads to the complete output for c,
      unless an event in between hydrates c again or removes the root. */
  lemma ThreeReadsGetRenderedOutput(config: Config, s: State, events: seq<Event>, c: Commit,
                                    m1: Moment, m2: Moment, m3: Moment)
    requires Inv(config, s) && AllComplete(events) && c in config.kustomized
    requires IsMoment(config, s, events, m1) && IsMoment(config, s, events, m2) && IsMoment(config, s, events, m3)
    requires Earlier(m1, m2) && Earlier(m2, m3)
    requires At(config, s, events, m1).DoneCommit() == c
    requires !At(config, s, events, m2).errorFile
    requires At(config, s, events, m3).Resolved() == Some(c)
    requires Undisturbed(config, s, events, c, m1.event, Begun(m3))
    ensures At(config, s, events, m3).Serves(c)
  {
    NamedIsGuarded(config, s, events, c, m1);
    GuardedBetween(config, s, events, c, m1.event, m2.event);
    IntactAfter(config, s, events, c, m2, m3);
  }

  // Both exceptions are real.

  /** An event that renders c while its complete output is linked tears it down
      under the reader. */
  lemma HydratingAgainTears(config: Config, s: State, e: Event, c: Commit) returns (t: Disk)
    requires Hydrates(s, e) == Some(c) && c in config.kustomized && s.disk.Serves(c)
    requires e.RunFired? ==> e.work.readDirOk && e.work.doneRemoved
    ensures t in Handle(config, s, e).trace
    ensures t.Resolved() == Some(c) && !t.Serves(c) && t.errorFile == s.disk.errorFile
  {
    var d := if e.RunFired? then s.disk.(done := None) else s.disk;
    var r := if e.RunFired? then e.work.render else e.render;
    RenderingLinkedCommitTearsDown(config, d, c, r);
    RenderingKeepsSignals(config, d, c, r);
    t := RunHydrate(config, d, c, r).trace[0];
    assert t in RunHydrate(config, d, c, r).trace;
  }

  /** The run: an operator deletes the done file after the reader has read it, and
      c is rendered again. The reader then accepts the torn output. */
  lemma RereadingTornOutput(config: Config, s: State, c: Commit, w: Work, fault: CompleteFault) returns (t: Disk)
    requires c in config.kustomized && ReaderAccepts(s.disk, c) && s.disk.Serves(c)
    requires w.readDirOk && w.doneRemoved
    ensures var events := [DoneDeleted, RunFired(Some(c), true, c, w, fault)];
            && Before(config, s, events, 0).disk.DoneCommit() == c
            && !Before(config, s, events, 1).disk.errorFile
            && t in EventTrace(config, s, events, 1) && t.Resolved() == Some(c) && !t.Serves(c) && !t.errorFile
            && !RemovesRoot(config, Before(config, s, events, 1), events[1])
  {
    var events := [DoneDeleted, RunFired(Some(c), true, c, w, fault)];
    assert events[..0] == [];
    BeforeNext(config, s, events, 0);
    t := HydratingAgainTears(config, Before(config, s, events, 1), events[1], c);
  }
}
