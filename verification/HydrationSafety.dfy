/** What the hydration protocol guarantees to the reconciler that reads its disk. */
module HydrationSafety {
  import opened Objects
  import opened Hydration

  // Rendering one commit.

  /** A reader that follows the link in t sees what it saw in d, or the complete
      output for c. */
  predicate OldOrNew(d: Disk, t: Disk, c: Commit) {
    || t.Serves(c)
    || (t.link == d.link
        && (d.link.Some? ==>
              (d.link.value in t.trees <==> d.link.value in d.trees)
              && (d.link.value in d.trees ==> t.trees[d.link.value] == d.trees[d.link.value])))
  }

  predicate AllOldOrNew(d: Disk, trace: seq<Disk>, c: Commit) {
    forall t :: t in trace ==> OldOrNew(d, t, c)
  }

  /** t differs from d at most in the output for c. */
  ghost predicate OnlyTree(d: Disk, t: Disk, c: Commit) {
    && t == d.(trees := t.trees)
    && (forall x :: x != c ==> (x in t.trees <==> x in d.trees) && (x in d.trees ==> t.trees[x] == d.trees[x]))
  }

  ghost predicate AllOnlyTree(d: Disk, trace: seq<Disk>, c: Commit) {
    forall i :: 0 <= i < |trace| ==> OnlyTree(d, trace[i], c)
  }

  lemma OutputEdits(config: Config, d: Disk, t: Disk, c: Commit, tree: Tree)
    requires OnlyTree(d, t, c)
    ensures OnlyTree(d, SetTree(t, c, tree), c) && OnlyTree(d, DeleteOutput(config, t, c), c)
  {
  }

  /** There is no output for c. */
  predicate NoOutputFor(d: Disk, c: Commit) {
    c !in d.trees || d.trees[c] == NoOutput
  }

  lemma ClearTouchesOnlyItsTree(config: Config, d: Disk, c: Commit)
    ensures AllOnlyTree(d, ClearOutput(config, d, c), c)
    ensures NoOutputFor(Last(d, ClearOutput(config, d, c)), c)
    ensures OnlyTree(d, Last(d, ClearOutput(config, d, c)), c)
  {
  }

  /** A build edits no other output, never builds on top of an old output, and
      leaves either the complete output or, if kustomize fails, none. */
  lemma BuildTouchesOnlyItsTree(config: Config, d: Disk, c: Commit, r: Render)
    ensures NoOutputFor(Last(d, ClearOutput(config, d, c)), c)
    ensures var b := KustomizeBuild(config, d, c, r);
            && AllOnlyTree(d, b.trace, c)
            && (b.err.None? <==> r.mkdirOk && r.buildOk)
            && (b.err.Some? ==> NoOutputFor(Last(d, b.trace), c))
            && (b.err.None? ==> b.trace != [] && c in Last(d, b.trace).trees && Last(d, b.trace).trees[c] == Rendered)
  {
    ClearTouchesOnlyItsTree(config, d, c);
    var cleared := ClearOutput(config, d, c);
    var d1 := Last(d, cleared);
    OutputEdits(config, d, d1, c, Empty);
    OutputEdits(config, d, d1, c, Partial);
    OutputEdits(config, d, d1, c, Rendered);
  }

  /** The output looks complete only once it is. */
  lemma NeverCompleteTooEarly(config: Config, d: Disk, c: Commit, r: Render, i: nat)
    requires i < |KustomizeBuild(config, d, c, r).trace|
    ensures var trace := KustomizeBuild(config, d, c, r).trace;
            c in trace[i].trees && trace[i].trees[c] == Rendered ==> i == |trace| - 1 && r.mkdirOk && r.buildOk
  {
  }

  /** What a build begins with: the old output is torn down if there is one, and
      otherwise the first thing to appear is an empty directory. */
  lemma FirstStep(config: Config, d: Disk, c: Commit, r: Render)
    requires r.mkdirOk
    ensures var first := KustomizeBuild(config, d, c, r).trace[0];
            c in first.trees && first.trees[c] == if NoOutputFor(d, c) then Empty else Partial
  {
  }

  /** If the output directory cannot be made, at most the commit's own directory is
      new, and only if the output is nested below it. */
  lemma FailedMkdir(config: Config, d: Disk, c: Commit, r: Render)
    requires NoOutputFor(d, c) && !r.mkdirOk
    ensures var trace := KustomizeBuild(config, d, c, r).trace;
            if r.dirLeft then trace == [if config.nested then SetTree(d, c, NoOutput) else DeleteTree(d, c)]
            else trace == []
  {
  }

  /** Where the link leads after a failed build of the linked commit: nowhere, if the
      sync directory is the top of the repository, because then the commit's own
      directory is deleted; otherwise to a directory without output. */
  lemma FailedBuildOfLinked(config: Config, d: Disk, c: Commit, r: Render)
    requires d.link == Some(c) && r.mkdirOk && !r.buildOk
    ensures var d' := Last(d, RunHydrate(config, d, c, r).trace);
            if config.nested then d'.Resolved() == Some(c) && d'.trees[c] == NoOutput else d'.Resolved() == None
  {
  }

  lemma SwitchIsAtomic(d: Disk, c: Commit, r: Render)
    requires c in d.trees && d.trees[c] == Rendered && d.link != Some(c)
    ensures AllOldOrNew(d, UpdateSymlink(d, c, r).trace, c)
  {
  }

  /** Rendering a commit that is not the linked one is atomic for readers: at
      every intermediate step the link leads to the untouched old output or to
      the complete new one. */
  lemma RenderingIsAtomic(config: Config, d: Disk, c: Commit, r: Render)
    requires d.link != Some(c)
    ensures AllOldOrNew(d, RunHydrate(config, d, c, r).trace, c)
  {
    BuildTouchesOnlyItsTree(config, d, c, r);
    var b := KustomizeBuild(config, d, c, r);
    var d1 := Last(d, b.trace);
    assert AllOldOrNew(d, b.trace, c);
    if b.err.None? {
      assert b.trace != [] && d1 in b.trace;
      SwitchIsAtomic(d1, c, r);
      forall t | t in UpdateSymlink(d1, c, r).trace
        ensures OldOrNew(d, t, c)
      {
        assert OldOrNew(d1, t, c) && OldOrNew(d, d1, c);
      }
    }
  }

  /** For the linked commit it is not: its output is torn down under the reader
      before it is built again. */
  lemma RenderingLinkedCommitTearsDown(config: Config, d: Disk, c: Commit, r: Render)
    requires d.Serves(c)
    ensures var trace := RunHydrate(config, d, c, r).trace;
            trace != [] && trace[0].link == Some(c) && trace[0].trees[c] != Rendered
            && !AllOldOrNew(d, trace, c)
  {
    var trace := RunHydrate(config, d, c, r).trace;
    assert KustomizeBuild(config, d, c, r).trace[0] == SetTree(d, c, Partial);
    assert trace[0] == SetTree(d, c, Partial);
    assert trace[0] in trace && !OldOrNew(d, trace[0], c);
  }

  /** The switch succeeds exactly if the link is there already, or can be replaced. */
  lemma SwitchOutcome(d: Disk, c: Commit, r: Render)
    requires c in d.trees && d.trees[c] == Rendered
    ensures var o := UpdateSymlink(d, c, r);
            var d' := Last(d, o.trace);
            && (o.err.None? <==>
                  r.linkReadable && (d.link == Some(c) || (r.symlinkOk && d.tmpLink.None? && r.renameOk)))
            && (if o.err.None? then d'.Serves(c) else d'.link == d.link)
            && (o.err.None? && d.Resolved().Some? && d.link != Some(c) ==>
                  if r.oldRemoved then d.link.value !in d'.trees
                  else d.link.value in d'.trees && d'.trees[d.link.value] == Partial)
            && d'.errorFile == d.errorFile && d'.done == d.done
            && (forall x :: x in d'.trees ==> x in d.trees)
  {
  }

  lemma BuildOutcome(config: Config, d: Disk, c: Commit, r: Render)
    ensures var b := KustomizeBuild(config, d, c, r);
            && (b.err.None? <==> r.mkdirOk && r.buildOk)
            && OnlyTree(d, Last(d, b.trace), c)
            && (b.err.None? ==> c in Last(d, b.trace).trees && Last(d, b.trace).trees[c] == Rendered)
  {
    BuildTouchesOnlyItsTree(config, d, c, r);
    var b := KustomizeBuild(config, d, c, r);
    assert b.trace != [] ==> Last(d, b.trace) == b.trace[|b.trace| - 1];
  }

  lemma RunHydrateParts(config: Config, d: Disk, c: Commit, r: Render)
    ensures var o, b := RunHydrate(config, d, c, r), KustomizeBuild(config, d, c, r);
            var d1 := Last(d, b.trace);
            if b.err.None? && r.sourceAfter == Some(c)
            then o.err == UpdateSymlink(d1, c, r).err && o.trace == b.trace + UpdateSymlink(d1, c, r).trace
                 && Last(d, o.trace) == Last(d1, UpdateSymlink(d1, c, r).trace)
            else o.err.Some? && o.trace == b.trace
  {
  }

  lemma {:induction false} TearingKeepsDone(d: Disk, torn: seq<Leftover>)
    ensures Last(d, TearDown(d, torn)).done == d.done
  {
    if torn != [] {
      TearingKeepsDone(d, torn[..|torn| - 1]);
    }
  }

  /** Exactly when rendering succeeds, and what it has then achieved; when it
      fails the link is where it was. The done and error files are untouched. */
  lemma RenderingOutcome(config: Config, d: Disk, c: Commit, r: Render)
    ensures var o := RunHydrate(config, d, c, r);
            var d' := Last(d, o.trace);
            && (o.err.None? <==>
                  && r.mkdirOk && r.buildOk && r.sourceAfter == Some(c) && r.linkReadable
                  && (d.link == Some(c) || (r.symlinkOk && d.tmpLink.None? && r.renameOk)))
            && (o.err.None? ==> d'.Serves(c))
            && (o.err.Some? ==> d'.link == d.link)
            && (d'.link != d.link ==> r.sourceAfter == Some(c))
            && (o.err.None? && r.oldRemoved && d.link.Some? && d.link != Some(c) ==> d.link.value !in d'.trees)
            && d'.errorFile == d.errorFile && d'.done == d.done
  {
    RunHydrateParts(config, d, c, r);
    BuildOutcome(config, d, c, r);
    var d1 := Last(d, KustomizeBuild(config, d, c, r).trace);
    if r.mkdirOk && r.buildOk && r.sourceAfter == Some(c) {
      SwitchOutcome(d1, c, r);
    }
  }

  /** Which error rendering reports: a build that fails is the user's to repair, a
      source that has moved on will be rendered anyway, and all else is internal. */
  lemma RenderingError(config: Config, d: Disk, c: Commit, r: Render)
    ensures RunHydrate(config, d, c, r).err
            == if !r.mkdirOk then Some(InternalError)
               else if !r.buildOk then Some(ActionableError)
               else if r.sourceAfter != Some(c) then Some(TransientError)
               else if r.linkReadable && (d.link == Some(c) || (r.symlinkOk && d.tmpLink.None? && r.renameOk)) then None
               else Some(InternalError)
  {
    RunHydrateParts(config, d, c, r);
    BuildOutcome(config, d, c, r);
  }

  /** Which error a hydration reports: kustomization files only below the sync
      directory are the user's to repair, too. */
  lemma HydrationErrorExactly(config: Config, d: Disk, c: Commit, w: Work)
    ensures Hydrate(config, d, c, w).err
            == if !w.readDirOk then Some(InternalError)
               else if c in config.kustomized then
                 if w.doneRemoved then RunHydrate(config, d.(done := None), c, w.render).err else Some(InternalError)
               else match w.scan
                    case ScanFailed => Some(InternalError)
                    case KustomizationInSubdir => Some(ActionableError)
                    case NoKustomization => if w.leftover.None? then None else Some(InternalError)
  {
  }

  /** t is d with parts of the hydrated root gone and outputs torn. */
  predicate IsRemainder(d: Disk, t: Disk) {
    && t.done == d.done && (t.link.Some? ==> t.link == d.link) && (t.tmpLink.Some? ==> t.tmpLink == d.tmpLink)
    && (t.errorFile ==> d.errorFile)
    && (forall c :: c in t.trees ==> c in d.trees && (t.trees[c] == d.trees[c] || t.trees[c] == Partial))
  }

  /** A removal that stops half-way can leave any remainder, and nothing else. */
  lemma RemaindersExactly(d: Disk, t: Disk)
    ensures IsRemainder(d, t) <==> exists l :: RemoveRoot(d, Some(l)) == t
  {
    if IsRemainder(d, t) {
      var damaged := set c | c in t.trees && t.trees[c] == Partial;
      var l := Leftover(t.trees.Keys, damaged, t.link.Some?, t.tmpLink.Some?, t.errorFile);
      assert RemoveRoot(d, Some(l)).trees == t.trees;
      assert RemoveRoot(d, Some(l)) == t;
    }
  }

  /** What a hydration of a commit without any kustomization file leaves: nothing
      below the hydrated root if it succeeds, and the done file in any case. */
  lemma RootIsRemoved(config: Config, d: Disk, c: Commit, w: Work)
    requires c !in config.kustomized
    ensures var d' := Last(d, Hydrate(config, d, c, w).trace);
            && d'.done == d.done
            && (Hydrate(config, d, c, w).err.None? ==>
                  d'.trees == map[] && d'.link.None? && d'.tmpLink.None? && !d'.errorFile)
            && (!(w.readDirOk && w.scan.NoKustomization?) ==> d' == d)
  {
    TearingKeepsDone(d, w.torn);
  }

  // Whole runs.

  /** What the done file promises: if it names a commit, there is no error file
      and the commit's sync directory has a kustomization file, then the link
      leads to the complete output for that commit. */
  predicate Trusted(config: Config, d: Disk) {
    d.done.Some? && d.done.value != "" && !d.errorFile && d.done.value in config.kustomized ==> d.Serves(d.done.value)
  }

  /** Between events: the promise holds, and an error in memory is on disk. */
  predicate Inv(config: Config, s: State) {
    Trusted(config, s.disk) && (s.err.Some? ==> s.disk.errorFile)
  }

  /** complete returns nil if it is called. */
  predicate Completes(e: Event) {
    match e
    case RunFired(_, _, _, _, fault) => fault.NoFault?
    case RehydrateFired(_, fault) => fault.NoFault?
    case DoneDeleted => true
  }

  predicate AllComplete(events: seq<Event>) {
    forall i :: 0 <= i < |events| ==> Completes(events[i])
  }

  lemma LastOfConcat(d: Disk, t1: seq<Disk>, t2: seq<Disk>)
    ensures Last(d, t1 + t2) == Last(Last(d, t1), t2)
  {
  }

  /** A hydration that reports success serves its commit, or the commit needs no
      rendering. */
  lemma HydrateOutcome(config: Config, d: Disk, c: Commit, w: Work)
    ensures var o := Hydrate(config, d, c, w);
            o.err.None? && c in config.kustomized ==> Last(d, o.trace).Serves(c)
  {
    if w.readDirOk && c in config.kustomized && w.doneRemoved {
      var cleared := d.(done := None);
      RenderingOutcome(config, cleared, c, w.render);
      LastOfConcat(d, [cleared], RunHydrate(config, cleared, c, w.render).trace);
    }
  }

  lemma BeforeNext(config: Config, s: State, events: seq<Event>, i: nat)
    requires i < |events|
    ensures Before(config, s, events, i + 1) == Next(config, Before(config, s, events, i), events[i])
  {
    assert events[..i + 1][..i] == events[..i];
  }

  /** The disk that complete leaves when it returns nil. */
  lemma CompleteOutcome(d: Disk, commit: string, err: Option<HydrationError>)
    ensures Last(d, Complete(d, commit, err, NoFault)) == d.(errorFile := err.Some?, done := Some(commit))
  {
  }

  /** What complete leaves when it fails, and what a reader may find on the way: the
      error file is right before the done file changes, and the done file is empty
      before it has its new content. */
  lemma CompletingStepByStep(d: Disk, commit: string, err: Option<HydrationError>, fault: CompleteFault)
    ensures var trace := Complete(d, commit, err, fault);
            && (forall i :: 0 <= i < |trace| ==> trace[i] == d.(errorFile := err.Some?, done := trace[i].done))
            && (fault.ErrorFileFault? ==> Last(d, trace) == d)
            && (fault.DoneFault? ==> |trace| == 1 && trace[0].done == d.done)
            && (fault.NoFault? || fault.WriteFault? ==>
                  && |trace| == 3 && trace[0].done == d.done && trace[1].done == Some("")
                  && trace[2].done == Some(if fault.NoFault? then commit else fault.text))
  {
  }

  lemma EventKeepsInv(config: Config, s: State, e: Event)
    requires Inv(config, s) && Completes(e)
    ensures Inv(config, Next(config, s, e))
  {
    match e
    case DoneDeleted =>
    case RunFired(fetched, _, _, work, _) =>
      if fetched.None? {
        CompleteOutcome(s.disk, "", Some(InternalError));
      } else if Hydrates(s, e).Some? {
        var h := Hydrate(config, s.disk, fetched.value, work);
        HydrateOutcome(config, s.disk, fetched.value, work);
        LastOfConcat(s.disk, h.trace, Complete(Last(s.disk, h.trace), fetched.value, h.err, NoFault));
        CompleteOutcome(Last(s.disk, h.trace), fetched.value, h.err);
      }
    case RehydrateFired(render, _) =>
      if Hydrates(s, e).Some? {
        var h := RunHydrate(config, s.disk, s.srcCommit, render);
        RenderingOutcome(config, s.disk, s.srcCommit, render);
        LastOfConcat(s.disk, h.trace, Complete(Last(s.disk, h.trace), s.srcCommit, h.err, NoFault));
        CompleteOutcome(Last(s.disk, h.trace), s.srcCommit, h.err);
      }
  }

  /** Between any two events of any run in which complete returns nil, the done
      file can be trusted, whatever the source and the file system do. */
  lemma {:induction false} DoneFileIsTrusted(config: Config, s: State, events: seq<Event>)
    requires Inv(config, s)
    requires AllComplete(events)
    ensures Inv(config, Run(config, s, events))
  {
    if events != [] {
      DoneFileIsTrusted(config, s, events[..|events| - 1]);
      EventKeepsInv(config, Run(config, s, events[..|events| - 1]), events[|events| - 1]);
    }
  }

  predicate AlwaysTrusted(config: Config, s: State, events: seq<Event>) {
    forall i :: 0 <= i <= |events| ==> Inv(config, Run(config, s, events[..i]))
  }

  lemma EveryBoundaryIsTrusted(config: Config, s: State, events: seq<Event>)
    requires Inv(config, s)
    requires AllComplete(events)
    ensures AlwaysTrusted(config, s, events)
  {
    forall i | 0 <= i <= |events|
      ensures Inv(config, Run(config, s, events[..i]))
    {
      DoneFileIsTrusted(config, s, events[..i]);
    }
  }

  /** The reconciler's own checks before it parses the output for c: the done file
      names c, there is no error file, and the link resolves to c's directory. */
  predicate ReaderAccepts(d: Disk, c: Commit) {
    d.DoneCommit() == c && !d.errorFile && d.Resolved() == Some(c)
  }

  /** Between events the reconciler accepts a commit that needs rendering exactly
      when it is done without an error. */
  lemma DoneCommitIsAccepted(config: Config, s: State, events: seq<Event>, c: Commit)
    requires Inv(config, s) && c in config.kustomized
    requires AllComplete(events)
    ensures var d := Run(config, s, events).disk;
            ReaderAccepts(d, c) <==> d.done == Some(c) && !d.errorFile
  {
    DoneFileIsTrusted(config, s, events);
  }

  // The reader does not wait for the end of an event.

  /** No state of the trace touches the done file or the error file. */
  predicate KeepsSignals(d: Disk, trace: seq<Disk>) {
    forall i :: 0 <= i < |trace| ==> trace[i].done == d.done && trace[i].errorFile == d.errorFile
  }

  lemma SwitchKeepsSignals(d: Disk, c: Commit, r: Render)
    ensures KeepsSignals(d, UpdateSymlink(d, c, r).trace)
  {
  }

  lemma RenderingKeepsSignals(config: Config, d: Disk, c: Commit, r: Render)
    ensures KeepsSignals(d, RunHydrate(config, d, c, r).trace)
  {
    BuildTouchesOnlyItsTree(config, d, c, r);
    BuildOutcome(config, d, c, r);
    RunHydrateParts(config, d, c, r);
    var d1 := Last(d, KustomizeBuild(config, d, c, r).trace);
    SwitchKeepsSignals(d1, c, r);
  }

  /** What the reader accepts, for commits that need rendering, is complete. */
  predicate SafeToRead(config: Config, t: Disk) {
    forall c: Commit :: c in config.kustomized && ReaderAccepts(t, c) ==> t.Serves(c)
  }

  predicate AllSafeToRead(config: Config, trace: seq<Disk>) {
    forall t :: t in trace ==> SafeToRead(config, t)
  }

  /** While the done file is missing or the error file is there, nothing is accepted. */
  lemma ClosedToReaders(config: Config, d: Disk, trace: seq<Disk>)
    requires KeepsSignals(d, trace) && (d.done.None? || d.errorFile)
    ensures AllSafeToRead(config, trace)
  {
    forall t | t in trace
      ensures SafeToRead(config, t)
    {
      var i :| 0 <= i < |trace| && trace[i] == t;
      assert t.done == d.done && t.errorFile == d.errorFile;
    }
  }

  /** The three states of complete after a success: the link leads to the complete
      output for the commit, so the old content of the done file is accepted only
      if it is that commit. */
  lemma CompletingIsSafe(config: Config, d: Disk, commit: string, err: Option<HydrationError>)
    requires err.None? ==> commit != "" && d.Serves(commit)
    ensures AllSafeToRead(config, Complete(d, commit, err, NoFault))
  {
  }

  /** The link resolves to a commit that the done file names and that needed
      rendering. */
  predicate NamedByDone(config: Config, d: Disk) {
    d.Resolved().Some? && d.Resolved().value in config.kustomized && d.DoneCommit() == d.Resolved().value
  }

  /** The event removes the hydrated root: it hydrates a commit without any
      kustomization file. */
  predicate RemovesRoot(config: Config, s: State, e: Event) {
    && e.RunFired? && Hydrates(s, e).Some? && e.fetched.value !in config.kustomized
    && e.work.readDirOk && e.work.scan.NoKustomization?
  }

  predicate RemovesReadRoot(config: Config, s: State, e: Event) {
    RemovesRoot(config, s, e) && NamedByDone(config, s.disk)
  }

  /** Removing never makes the link resolve, and leaves the done file. */
  lemma RemovalOnlyRemoves(d: Disk, t: Disk, leftover: Option<Leftover>)
    requires t.done == d.done && (t.Resolved().Some? ==> t.Resolved() == d.Resolved())
    ensures var t' := RemoveRoot(t, leftover);
            t'.done == d.done && (t'.Resolved().Some? ==> t'.Resolved() == d.Resolved())
  {
  }

  lemma {:induction false} TearingIsSafe(config: Config, d: Disk, torn: seq<Leftover>)
    requires !NamedByDone(config, d)
    ensures AllSafeToRead(config, TearDown(d, torn))
    ensures var t := Last(d, TearDown(d, torn));
            t.done == d.done && (t.Resolved().Some? ==> t.Resolved() == d.Resolved())
  {
    if torn != [] {
      var init := torn[..|torn| - 1];
      TearingIsSafe(config, d, init);
      RemovalOnlyRemoves(d, Last(d, TearDown(d, init)), Some(torn[|torn| - 1]));
    }
  }

  lemma RemovingIsSafe(config: Config, d: Disk, c: Commit, w: Work)
    requires c !in config.kustomized && w.readDirOk && w.scan.NoKustomization? && !NamedByDone(config, d)
    ensures var h := Hydrate(config, d, c, w);
            AllSafeToRead(config, h.trace + Complete(Last(d, h.trace), c, h.err, NoFault))
  {
    TearingIsSafe(config, d, w.torn);
    RemovalOnlyRemoves(d, Last(d, TearDown(d, w.torn)), w.leftover);
  }

  lemma HydratingIsSafe(config: Config, d: Disk, c: Commit, w: Work)
    requires !(c !in config.kustomized && w.readDirOk && w.scan.NoKustomization?)
    ensures var h := Hydrate(config, d, c, w);
            AllSafeToRead(config, h.trace + Complete(Last(d, h.trace), c, h.err, NoFault))
  {
    HydrateOutcome(config, d, c, w);
    var h := Hydrate(config, d, c, w);
    if w.readDirOk && c in config.kustomized && w.doneRemoved {
      var cleared := d.(done := None);
      RenderingKeepsSignals(config, cleared, c, w.render);
      ClosedToReaders(config, cleared, RunHydrate(config, cleared, c, w.render).trace);
      assert SafeToRead(config, cleared);
    }
    CompletingIsSafe(config, Last(d, h.trace), c, h.err);
  }

  /** At every disk state of an event, what the reader accepts is complete, unless
      the event removes a hydrated root that the done file speaks for. */
  lemma EventIsSafeToRead(config: Config, s: State, e: Event)
    requires Inv(config, s) && Completes(e) && !RemovesReadRoot(config, s, e)
    ensures AllSafeToRead(config, Handle(config, s, e).trace)
  {
    match e
    case DoneDeleted =>
    case RunFired(fetched, _, _, work, _) =>
      if fetched.None? {
        CompletingIsSafe(config, s.disk, "", Some(InternalError));
      } else if Hydrates(s, e).Some? {
        if fetched.value !in config.kustomized && work.readDirOk && work.scan.NoKustomization? {
          RemovingIsSafe(config, s.disk, fetched.value, work);
        } else {
          HydratingIsSafe(config, s.disk, fetched.value, work);
        }
      }
    case RehydrateFired(render, _) =>
      if Hydrates(s, e).Some? {
        var h := RunHydrate(config, s.disk, s.srcCommit, render);
        RenderingKeepsSignals(config, s.disk, s.srcCommit, render);
        ClosedToReaders(config, s.disk, h.trace);
        RenderingOutcome(config, s.disk, s.srcCommit, render);
        CompletingIsSafe(config, Last(s.disk, h.trace), s.srcCommit, h.err);
      }
  }

  /** The reader looks whenever it likes: in any run in which complete returns nil,
      at every disk state on the way, what all of its checks accept there is
      completely rendered, except in the middle of an event that removes the root it
      reads from. HydrationReader has the checks at different moments. */
  lemma ReaderGetsRenderedOutput(config: Config, s: State, events: seq<Event>, i: nat, t: Disk, c: Commit)
    requires Inv(config, s) && i < |events| && c in config.kustomized
    requires forall j :: 0 <= j <= i ==> Completes(events[j])
    requires t in Handle(config, Run(config, s, events[..i]), events[i]).trace && ReaderAccepts(t, c)
    ensures t.Serves(c) || RemovesReadRoot(config, Run(config, s, events[..i]), events[i])
  {
    DoneFileIsTrusted(config, s, events[..i]);
    var s' := Run(config, s, events[..i]);
    if !RemovesReadRoot(config, s', events[i]) {
      EventIsSafeToRead(config, s', events[i]);
    }
  }

  predicate NeverRemovesReadRoot(config: Config, s: State, events: seq<Event>) {
    forall i :: 0 <= i < |events| ==> !RemovesReadRoot(config, Run(config, s, events[..i]), events[i])
  }

  /** Hence without such an event every disk state of the run is safe to read. */
  lemma {:induction false} RunIsSafeToRead(config: Config, s: State, events: seq<Event>)
    requires Inv(config, s) && NeverRemovesReadRoot(config, s, events)
    requires AllComplete(events)
    ensures AllSafeToRead(config, RunTrace(config, s, events))
  {
    if events != [] {
      var last := |events| - 1;
      forall i | 0 <= i < last
        ensures !RemovesReadRoot(config, Run(config, s, events[..last][..i]), events[..last][i])
      {
        assert events[..last][..i] == events[..i];
      }
      RunIsSafeToRead(config, s, events[..last]);
      DoneFileIsTrusted(config, s, events[..last]);
      EventIsSafeToRead(config, Run(config, s, events[..last]), events[last]);
    }
  }

  /** There the exception is real: whatever the outcome of the removal, on the way
      the reader can accept the remains of the output for c. */
  lemma TornRootIsAccepted(config: Config, s: State, e: Event) returns (torn: seq<Leftover>, t: Disk)
    requires RemovesReadRoot(config, s, e)
    ensures t in Handle(config, s, e.(work := e.work.(torn := torn))).trace
    ensures var c := s.disk.Resolved().value;
            ReaderAccepts(t, c) && !t.Serves(c)
  {
    var c := s.disk.Resolved().value;
    var remains := Leftover({c}, {c}, true, false, false);
    torn := [remains];
    t := RemoveRoot(s.disk, Some(remains));
    assert [remains][..0] == [];
    assert TearDown(s.disk, [remains]) == [t];
    assert t in Hydrate(config, s.disk, e.fetched.value, e.work.(torn := torn)).trace;
  }

  /** It is needed that complete returns nil: moving on to a commit without a
      kustomization file removes the hydrated root first, and if the done file then
      cannot be opened it keeps naming the old commit. */
  lemma FailingCompleteBreaksTrust(a: Commit, b: Commit, render: Render)
    requires a != b
    ensures var config := Config(false, {a});
            var s := State(Disk(map[a := Rendered], Some(a), None, false, Some(a)), a, None);
            var e := RunFired(Some(b), true, b, Work(true, NoKustomization, [], None, true, render), DoneFault);
            Inv(config, s) && !Trusted(config, Next(config, s, e).disk)
  {
  }

  /** Nor does the promise hold in the middle of an event: a successful retry of
      another commit drops the error file before it replaces the done file. */
  lemma TrustOnlyBetweenEvents(a: Commit, b: Commit)
    requires a != b
    ensures var config := Config(false, {a, b});
            var s := State(Disk(map[], None, None, true, Some(a)), b, Some(ActionableError));
            var e := RehydrateFired(Render(true, false, true, Some(b), true, true, true, true), NoFault);
            Inv(config, s) && Trusted(config, Next(config, s, e).disk)
            && exists t :: t in Handle(config, s, e).trace && !Trusted(config, t)
  {
    var config := Config(false, {a, b});
    var s := State(Disk(map[], None, None, true, Some(a)), b, Some(ActionableError));
    var r := Render(true, false, true, Some(b), true, true, true, true);
    var e := RehydrateFired(r, NoFault);
    RenderingOutcome(config, s.disk, b, r);
    var h := RunHydrate(config, s.disk, b, r);
    var d := Last(s.disk, h.trace);
    LastOfConcat(s.disk, h.trace, Complete(d, b, None, NoFault));
    CompleteOutcome(d, b, None);
    var t := Complete(d, b, None, NoFault)[0];
    assert t in Handle(config, s, e).trace;
    assert t.done == Some(a) && t.link == Some(b);
  }

  /** Progress: one undisturbed run event serves the fetched commit. */
  lemma CleanRunServes(config: Config, s: State, c: Commit, w: Work)
    requires c in config.kustomized && s.disk.DoneCommit() != c
    requires w.readDirOk && w.doneRemoved && s.disk.tmpLink.None?
    requires w.render == Render(true, w.render.dirLeft, true, Some(c), true, true, true, w.render.oldRemoved)
    ensures var s' := Next(config, s, RunFired(Some(c), true, c, w, NoFault));
            s'.disk.Serves(c) && s'.disk.done == Some(c) && !s'.disk.errorFile && s'.err.None?
  {
    var h := Hydrate(config, s.disk, c, w);
    HydrateOutcome(config, s.disk, c, w);
    RenderingOutcome(config, s.disk.(done := None), c, w.render);
    LastOfConcat(s.disk, h.trace, Complete(Last(s.disk, h.trace), c, h.err, NoFault));
    CompleteOutcome(Last(s.disk, h.trace), c, h.err);
  }

  // A temporary link that was left behind.

  lemma StrayLinkBlocksRendering(config: Config, d: Disk, c: Commit, r: Render)
    requires d.tmpLink.Some?
    ensures var d' := Last(d, RunHydrate(config, d, c, r).trace);
            d'.tmpLink == d.tmpLink && d'.link == d.link
    ensures RunHydrate(config, d, c, r).err.None? ==> d.link == Some(c)
  {
  }

  /** How it comes to that: a rename that fails leaves the temporary link. */
  lemma FailedRenameLeavesStrayLink(config: Config, d: Disk, c: Commit, r: Render)
    requires d.link != Some(c) && d.tmpLink.None?
    requires r.mkdirOk && r.buildOk && r.sourceAfter == Some(c) && r.linkReadable && r.symlinkOk && !r.renameOk
    ensures Last(d, RunHydrate(config, d, c, r).trace).tmpLink == Some(c)
  {
  }

  /** Every fetched commit has a kustomization file. */
  predicate AlwaysKustomized(config: Config, e: Event) {
    e.RunFired? && e.fetched.Some? ==> e.fetched.value in config.kustomized
  }

  /** The links are where they were. */
  predicate SameLinks(d: Disk, t: Disk) {
    t.tmpLink == d.tmpLink && t.link == d.link
  }

  lemma StrayLinkSurvivesHydration(config: Config, d: Disk, c: Commit, w: Work)
    requires d.tmpLink.Some? && c in config.kustomized
    ensures SameLinks(d, Last(d, Hydrate(config, d, c, w).trace))
  {
    if w.readDirOk && w.doneRemoved {
      var cleared := d.(done := None);
      StrayLinkBlocksRendering(config, cleared, c, w.render);
      LastOfConcat(d, [cleared], RunHydrate(config, cleared, c, w.render).trace);
    }
  }

  lemma CompletingKeepsLinks(d: Disk, trace: seq<Disk>, commit: string, err: Option<HydrationError>,
                             fault: CompleteFault)
    ensures SameLinks(Last(d, trace), Last(d, trace + Complete(Last(d, trace), commit, err, fault)))
  {
  }

  lemma StrayLinkSurvivesEvent(config: Config, s: State, e: Event)
    requires s.disk.tmpLink.Some? && AlwaysKustomized(config, e)
    ensures SameLinks(s.disk, Next(config, s, e).disk)
  {
    if e.RunFired? && e.fetched.Some? && Hydrates(s, e).Some? {
      var h := Hydrate(config, s.disk, e.fetched.value, e.work);
      StrayLinkSurvivesHydration(config, s.disk, e.fetched.value, e.work);
      CompletingKeepsLinks(s.disk, h.trace, e.fetched.value, h.err, e.fault);
    } else if e.RehydrateFired? && Hydrates(s, e).Some? {
      var h := RunHydrate(config, s.disk, s.srcCommit, e.render);
      StrayLinkBlocksRendering(config, s.disk, s.srcCommit, e.render);
      CompletingKeepsLinks(s.disk, h.trace, s.srcCommit, h.err, e.fault);
    }
  }

  /** A rename that fails once leaves the temporary link behind, and from then on
      the hydrated link never moves again, in any run of commits that need
      rendering: no other commit is ever done without an error. */
  lemma {:induction false} StrayLinkFreezesLink(config: Config, s: State, events: seq<Event>)
    requires Inv(config, s) && s.disk.tmpLink.Some?
    requires forall i :: 0 <= i < |events| ==> Completes(events[i]) && AlwaysKustomized(config, events[i])
    ensures var s' := Run(config, s, events);
            && SameLinks(s.disk, s'.disk)
            && (s'.disk.done.Some? && s'.disk.done.value in config.kustomized && !s'.disk.errorFile ==>
                  s'.disk.link == Some(s'.disk.done.value))
  {
    DoneFileIsTrusted(config, s, events);
    if events != [] {
      var init := events[..|events| - 1];
      StrayLinkFreezesLink(config, s, init);
      StrayLinkSurvivesEvent(config, Run(config, s, init), events[|events| - 1]);
    }
  }
}
