/** The hydration controller in its own form: methods that change the disk one
    call at a time, and the timer loop (pkg/hydrate/controller.go). Every method
    is proved against its function in Hydration, disk state by disk state. */
module HydrationController {
  import opened Objects
  import opened Hydration
  import opened HydrationSafety
  import opened HydrationGate

  /** Two sequences of calls, one after the other. */
  lemma Chain(d: Disk, log: seq<Disk>, t1: seq<Disk>, t2: seq<Disk>)
    ensures Last(d, t1 + t2) == Last(Last(d, t1), t2)
    ensures log + t1 + t2 == log + (t1 + t2)
  {
  }

  lemma RunSnoc(config: Config, s: State, events: seq<Event>, i: nat, log: seq<Disk>)
    requires i < |events|
    ensures var before := Run(config, s, events[..i]);
            && Run(config, s, events[..i + 1]) == Next(config, before, events[i])
            && log + RunTrace(config, s, events[..i + 1])
               == log + RunTrace(config, s, events[..i]) + Handle(config, before, events[i]).trace
  {
    assert events[..i + 1][..i] == events[..i];
  }

  class Hydrator {
    const config: Config
    var disk: Disk
    var srcCommit: string
    var hydrateErr: Option<HydrationError>
    /** Every state the disk has been in since the controller started. */
    ghost var log: seq<Disk>

    function View(): State
      reads this
    {
      State(disk, srcCommit, hydrateErr)
    }

    constructor (config: Config, disk: Disk)
      ensures this.config == config && View() == State(disk, "", None) && log == []
    {
      this.config, this.disk, this.srcCommit, this.hydrateErr, this.log := config, disk, "", None, [];
    }

    /** One file-system call that changes the disk. */
    method Write(d: Disk)
      modifies this`disk, this`log
      ensures disk == d && log == old(log) + [d]
    {
      disk, log := d, log + [d];
    }

    method ClearOldOutput(c: Commit)
      modifies this`disk, this`log
      ensures var trace := ClearOutput(config, old(disk), c);
              log == old(log) + trace && disk == Last(old(disk), trace)
    {
      if c in disk.trees && disk.trees[c] != NoOutput {
        Write(SetTree(disk, c, Partial));
        Write(DeleteOutput(config, disk, c));
        assert disk.trees == DeleteOutput(config, old(disk), c).trees;
      }
    }

    /** Setting or deleting the output after a first edit overrides it. */
    lemma EditTwice(d: Disk, c: Commit, t1: Tree, t2: Tree)
      ensures SetTree(SetTree(d, c, t1), c, t2) == SetTree(d, c, t2)
      ensures DeleteOutput(config, SetTree(d, c, t1), c) == DeleteOutput(config, d, c)
    {
      assert (d.trees[c := t1])[c := t2] == d.trees[c := t2];
      assert d.trees[c := t1] - {c} == d.trees - {c};
    }

    method BuildFresh(c: Commit, r: Render) returns (err: Option<HydrationError>)
      modifies this`disk, this`log
      ensures var trace := BuildTail(config, old(disk), c, r);
              err == BuildError(r) && log == old(log) + trace && disk == Last(old(disk), trace)
    {
      if !r.mkdirOk {
        if r.dirLeft {
          Write(DeleteOutput(config, disk, c));
        }
        return Some(InternalError);
      }
      EditTwice(disk, c, Empty, Partial);
      EditTwice(disk, c, Partial, Rendered);
      Write(SetTree(disk, c, Empty));
      Write(SetTree(disk, c, Partial));
      if !r.buildOk {
        Write(DeleteOutput(config, disk, c));
        return Some(ActionableError);
      }
      Write(SetTree(disk, c, Rendered));
      return None;
    }

    method BuildSteps(c: Commit, r: Render) returns (err: Option<HydrationError>)
      modifies this`disk, this`log
      ensures var o := KustomizeBuild(config, old(disk), c, r);
              err == o.err && log == old(log) + o.trace && disk == Last(old(disk), o.trace)
    {
      ghost var cleared := ClearOutput(config, disk, c);
      Chain(disk, log, cleared, BuildTail(config, Last(disk, cleared), c, r));
      ClearOldOutput(c);
      err := BuildFresh(c, r);
    }

    /** Only the output for c is touched at any time, and in the end it is complete
        or, after an error, not there. */
    method BuildOutput(c: Commit, r: Render) returns (err: Option<HydrationError>)
      modifies this`disk, this`log
      ensures var o := KustomizeBuild(config, old(disk), c, r);
              err == o.err && log == old(log) + o.trace && disk == Last(old(disk), o.trace)
      ensures AllOnlyTree(old(disk), log[|old(log)|..], c)
      ensures if err.None? then c in disk.trees && disk.trees[c] == Rendered else NoOutputFor(disk, c)
    {
      BuildTouchesOnlyItsTree(config, disk, c, r);
      err := BuildSteps(c, r);
      assert log[|old(log)|..] == KustomizeBuild(config, old(disk), c, r).trace;
    }

    method SwitchLink(c: Commit, r: Render) returns (err: Option<HydrationError>)
      modifies this`disk, this`log
      ensures var o := UpdateSymlink(old(disk), c, r);
              err == o.err && log == old(log) + o.trace && disk == Last(old(disk), o.trace)
      ensures disk.link == if err.None? then Some(c) else old(disk).link
    {
      if !r.linkReadable {
        return Some(InternalError);
      }
      var oldDir := disk.Resolved();
      if oldDir == Some(c) {
        return None;
      }
      if !r.symlinkOk || disk.tmpLink.Some? {
        return Some(InternalError);
      }
      Write(disk.(tmpLink := Some(c)));
      if !r.renameOk {
        return Some(InternalError);
      }
      Write(disk.(link := disk.tmpLink, tmpLink := None));
      if oldDir.Some? {
        Write(SetTree(disk, oldDir.value, Partial));
        if r.oldRemoved {
          Write(DeleteTree(disk, oldDir.value));
        }
      }
      return None;
    }

    method RenderSteps(c: Commit, r: Render) returns (err: Option<HydrationError>)
      modifies this`disk, this`log
      ensures var o := RunHydrate(config, old(disk), c, r);
              err == o.err && log == old(log) + o.trace && disk == Last(old(disk), o.trace)
    {
      err := BuildOutput(c, r);
      if err.Some? {
        return;
      }
      if r.sourceAfter != Some(c) {
        return Some(TransientError);
      }
      Chain(old(disk), old(log), KustomizeBuild(config, old(disk), c, r).trace, UpdateSymlink(disk, c, r).trace);
      err := SwitchLink(c, r);
    }

    /** Success means that the link serves c, and an error that it has not moved.
        If another commit was linked, a reader of the link never saw anything but
        the old output or the complete new one. */
    method RenderCommit(c: Commit, r: Render) returns (err: Option<HydrationError>)
      modifies this`disk, this`log
      ensures var o := RunHydrate(config, old(disk), c, r);
              err == o.err && log == old(log) + o.trace && disk == Last(old(disk), o.trace)
      ensures if err.None? then disk.Serves(c) else disk.link == old(disk).link
      ensures old(disk).link != Some(c) ==> AllOldOrNew(old(disk), log[|old(log)|..], c)
    {
      RenderingOutcome(config, disk, c, r);
      err := RenderSteps(c, r);
      assert log[|old(log)|..] == RunHydrate(config, old(disk), c, r).trace;
      if old(disk).link != Some(c) {
        RenderingIsAtomic(config, old(disk), c, r);
      }
    }

    /** Files and directories go one by one, in no particular order. */
    method RemoveHydratedRoot(torn: seq<Leftover>, leftover: Option<Leftover>)
      modifies this`disk, this`log
      ensures var tearing := TearDown(old(disk), torn);
              && disk == RemoveRoot(Last(old(disk), tearing), leftover)
              && log == old(log) + (tearing + [disk])
    {
      for i := 0 to |torn|
        invariant log == old(log) + TearDown(old(disk), torn[..i])
        invariant disk == Last(old(disk), TearDown(old(disk), torn[..i]))
      {
        assert torn[..i + 1][..i] == torn[..i];
        Write(RemoveRoot(disk, Some(torn[i])));
      }
      assert torn[..|torn|] == torn;
      Write(RemoveRoot(disk, leftover));
    }

    /** There is no kustomization file at the top of the sync directory. */
    method SkipRendering(ghost c: Commit, w: Work) returns (err: Option<HydrationError>)
      requires w.readDirOk && c !in config.kustomized
      modifies this`disk, this`log
      ensures var o := Hydrate(config, old(disk), c, w);
              err == o.err && log == old(log) + o.trace && disk == Last(old(disk), o.trace)
    {
      if w.scan.ScanFailed? {
        return Some(InternalError);
      }
      if w.scan.KustomizationInSubdir? {
        return Some(ActionableError);
      }
      RemoveHydratedRoot(w.torn, w.leftover);
      return if w.leftover.Some? then Some(InternalError) else None;
    }

    /** There is one: the done file goes first, because rendering starts over. */
    method RenderAfresh(c: Commit, w: Work) returns (err: Option<HydrationError>)
      requires w.readDirOk && c in config.kustomized && w.doneRemoved
      modifies this`disk, this`log
      ensures var o := Hydrate(config, old(disk), c, w);
              err == o.err && log == old(log) + o.trace && disk == Last(old(disk), o.trace)
    {
      Write(disk.(done := None));
      Chain(old(disk), old(log), [disk], RunHydrate(config, disk, c, w.render).trace);
      err := RenderCommit(c, w.render);
    }

    method HydrateCommit(c: Commit, w: Work) returns (err: Option<HydrationError>)
      modifies this`disk, this`log
      ensures var o := Hydrate(config, old(disk), c, w);
              err == o.err && log == old(log) + o.trace && disk == Last(old(disk), o.trace)
      ensures err.None? && c in config.kustomized ==> disk.Serves(c)
    {
      HydrateOutcome(config, disk, c, w);
      if !w.readDirOk {
        return Some(InternalError);
      }
      if c !in config.kustomized {
        err := SkipRendering(c, w);
        return;
      }
      if !w.doneRemoved {
        return Some(InternalError);
      }
      err := RenderAfresh(c, w);
    }

    method MarkComplete(commit: string, err: Option<HydrationError>, fault: CompleteFault) returns (ok: bool)
      modifies this`disk, this`log
      ensures var trace := Complete(old(disk), commit, err, fault);
              log == old(log) + trace && disk == Last(old(disk), trace)
      ensures ok <==> fault.NoFault?
      ensures ok ==> disk == old(disk).(errorFile := err.Some?, done := Some(commit))
    {
      if fault.ErrorFileFault? {
        return false;
      }
      Write(disk.(errorFile := err.Some?));
      if fault.DoneFault? {
        return false;
      }
      Write(disk.(done := Some("")));
      if fault.WriteFault? {
        Write(disk.(done := Some(fault.text)));
        return false;
      }
      Write(disk.(done := Some(commit)));
      return true;
    }

    method RenderAgain(c: Commit, render: Render, fault: CompleteFault) returns (err: Option<HydrationError>)
      modifies this`disk, this`log
      ensures var h := RunHydrate(config, old(disk), c, render);
              var trace := h.trace + Complete(Last(old(disk), h.trace), c, h.err, fault);
              err == h.err && log == old(log) + trace && disk == Last(old(disk), trace)
    {
      err := RenderCommit(c, render);
      Chain(old(disk), old(log), RunHydrate(config, old(disk), c, render).trace, Complete(disk, c, err, fault));
      var _ := MarkComplete(c, err, fault);
    }

    method RehydrateOnError(render: Render, fault: CompleteFault) returns (err: Option<HydrationError>)
      modifies this`disk, this`log
      ensures var o := Handle(config, old(View()), RehydrateFired(render, fault));
              err == o.err && log == old(log) + o.trace && disk == Last(old(disk), o.trace)
      ensures hydrateErr.None? || srcCommit == "" ==> err == hydrateErr && disk == old(disk) && log == old(log)
    {
      if hydrateErr.None? {
        return None;
      }
      if srcCommit == "" {
        return hydrateErr;
      }
      err := RenderAgain(srcCommit, render, fault);
    }

    method HydrateAndComplete(c: Commit, work: Work, fault: CompleteFault) returns (err: Option<HydrationError>)
      modifies this`disk, this`log
      ensures var h := Hydrate(config, old(disk), c, work);
              var trace := h.trace + Complete(Last(old(disk), h.trace), c, h.err, fault);
              err == h.err && log == old(log) + trace && disk == Last(old(disk), trace)
    {
      err := HydrateCommit(c, work);
      Chain(old(disk), old(log), Hydrate(config, old(disk), c, work).trace, Complete(disk, c, err, fault));
      var _ := MarkComplete(c, err, fault);
    }

    method OnRunTimer(fetched: Option<Commit>, doneReadable: bool, ready: string, work: Work, fault: CompleteFault)
      modifies this
      ensures var e := RunFired(fetched, doneReadable, ready, work, fault);
              View() == Next(config, old(View()), e) && log == old(log) + Handle(config, old(View()), e).trace
      ensures srcCommit == if fetched.Some? then fetched.value else ""
      ensures fetched.Some? && ((doneReadable && old(disk).done == fetched) || ready != fetched.value) ==>
                disk == old(disk) && log == old(log) && hydrateErr == old(hydrateErr)
      ensures fetched.Some? && !(doneReadable && old(disk).done == fetched) && ready == fetched.value ==>
                var o := RunWork(config, old(disk), fetched.value, work, fault);
                log == old(log) + o.trace && disk == Last(old(disk), o.trace) && hydrateErr == o.err
    {
      if fetched.None? {
        srcCommit := "";
        hydrateErr := Some(InternalError);
        var _ := MarkComplete(srcCommit, hydrateErr, fault);
        return;
      }
      srcCommit := fetched.value;
      var doneCommit := if doneReadable then disk.DoneCommit() else "";
      if doneCommit == srcCommit {
        // Processed before, successfully or not.
      } else if ready != srcCommit {
        // Not yet allowed to be rendered.
      } else {
        hydrateErr := HydrateAndComplete(srcCommit, work, fault);
      }
    }

    /** One round of the main loop. If complete does not fail, it keeps the done
        file trustworthy, and unless it removes the root that is being read, every
        disk state on the way is safe to read. */
    method OnEvent(e: Event)
      modifies this
      ensures View() == Next(config, old(View()), e) && log == old(log) + Handle(config, old(View()), e).trace
      ensures old(Inv(config, View())) && Completes(e) ==> Inv(config, View())
      ensures old(Inv(config, View())) && Completes(e) && !RemovesReadRoot(config, old(View()), e) ==>
                AllSafeToRead(config, log[|old(log)|..])
    {
      match e {
        case RunFired(fetched, doneReadable, ready, work, fault) =>
          OnRunTimer(fetched, doneReadable, ready, work, fault);
        case RehydrateFired(render, fault) =>
          hydrateErr := RehydrateOnError(render, fault);
        case DoneDeleted =>
          Write(disk.(done := None));
      }
      ghost var s := old(View());
      assert log[|old(log)|..] == Handle(config, s, e).trace;
      if Inv(config, s) && Completes(e) {
        EventKeepsInv(config, s, e);
        if !RemovesReadRoot(config, s, e) {
          EventIsSafeToRead(config, s, e);
        }
      }
    }

    method Loop(events: seq<Event>)
      modifies this
      ensures View() == Run(config, old(View()), events)
      ensures log == old(log) + RunTrace(config, old(View()), events)
    {
      for i := 0 to |events|
        invariant View() == Run(config, old(View()), events[..i])
        invariant log == old(log) + RunTrace(config, old(View()), events[..i])
      {
        RunSnoc(config, old(View()), events, i, old(log));
        OnEvent(events[i]);
      }
      assert events[..|events|] == events;
    }

    /** The main loop, until the context is cancelled after the last event: it
        passes through exactly the disk states of the run. If it starts from a disk
        that can be trusted and complete does not fail, the disk can be trusted
        before and after every event, and every state in between is safe to read
        if no event removes the root that is being read. */
    method RunTimers(events: seq<Event>)
      modifies this
      ensures View() == Run(config, old(View()), events)
      ensures log == old(log) + RunTrace(config, old(View()), events)
      ensures old(Inv(config, View())) && AllComplete(events) ==> AlwaysTrusted(config, old(View()), events)
      ensures old(Inv(config, View())) && AllComplete(events) && NeverRemovesReadRoot(config, old(View()), events) ==>
                AllSafeToRead(config, log[|old(log)|..])
    {
      ghost var s := View();
      Loop(events);
      assert log[|old(log)|..] == RunTrace(config, s, events);
      if Inv(config, s) && AllComplete(events) {
        EveryBoundaryIsTrusted(config, s, events);
        if NeverRemovesReadRoot(config, s, events) {
          RunIsSafeToRead(config, s, events);
        }
      }
    }
  }
}
