/** The ready-to-render gate (pkg/hydrate/controller.go:40-44): which commits a run
    of the hydration controller renders. */
module HydrationGate {
  import opened Objects
  import opened Hydration
  import opened HydrationSafety

  // What an event does.

  /** The work of a run event on the fetched commit. */
  function RunWork(config: Config, d: Disk, c: Commit, work: Work, fault: CompleteFault): Outcome {
    var h := Hydrate(config, d, c, work);
    Outcome(h.trace + Complete(Last(d, h.trace), c, h.err, fault), h.err)
  }

  /** A run event works on the fetched commit exactly if the done file does not
      already name it and the ready-to-render file does; a failed fetch is reported
      under no commit. */
  lemma RunEventExactly(config: Config, s: State, e: Event)
    requires e.RunFired?
    ensures Handle(config, s, e)
            == match e.fetched
               case None => Outcome(Complete(s.disk, "", Some(InternalError), e.fault), Some(InternalError))
               case Some(c) =>
                 if (e.doneReadable && s.disk.done == Some(c)) || e.ready != c then Outcome([], s.err)
                 else RunWork(config, s.disk, c, e.work, e.fault)
  {
  }

  /** A retry works on the last fetched commit exactly if there is an error in
      memory. */
  lemma RetryExactly(config: Config, s: State, e: Event)
    requires e.RehydrateFired?
    ensures s.err.None? || s.srcCommit == "" ==> Handle(config, s, e) == Outcome([], s.err)
    ensures s.err.Some? && s.srcCommit != "" ==>
              var h := RunHydrate(config, s.disk, s.srcCommit, e.render);
              Handle(config, s, e)
              == Outcome(h.trace + Complete(Last(s.disk, h.trace), s.srcCommit, h.err, e.fault), h.err)
  {
  }

  /** The event leaves alone a commit that is done: it is a run event that fetches
      it again, or a retry with nothing to retry. */
  predicate IsIdle(s: State, e: Event, c: Commit) {
    (e.RunFired? && e.fetched == Some(c) && e.doneReadable) || (e.RehydrateFired? && s.err.None?)
  }

  /** A commit that the done file names is not rendered again: as long as nothing
      else is fetched, no event touches the disk, whatever the ready-to-render file
      says and whatever the calls would have done. A failed commit is left to the
      retries. */
  lemma {:induction false} DoneCommitIsLeftAlone(config: Config, s: State, events: seq<Event>, c: Commit)
    requires s.disk.done == Some(c)
    requires forall i :: 0 <= i < |events| ==> IsIdle(s, events[i], c)
    ensures RunTrace(config, s, events) == []
    ensures Run(config, s, events).disk == s.disk && Run(config, s, events).err == s.err
  {
    if events != [] {
      var last := |events| - 1;
      DoneCommitIsLeftAlone(config, s, events[..last], c);
      assert IsIdle(s, events[last], c);
      if events[last].RunFired? {
        RunEventExactly(config, Run(config, s, events[..last]), events[last]);
      } else {
        RetryExactly(config, Run(config, s, events[..last]), events[last]);
      }
    }
  }

  // Which commits a run hydrates.

  /** A run event fetches c and finds it in the ready-to-render file. */
  predicate Names(e: Event, c: Commit) {
    e.RunFired? && e.fetched == Some(c) && e.ready == c
  }

  /** Some run event up to the i-th has done so. */
  predicate Named(events: seq<Event>, i: nat, c: Commit)
    requires i < |events|
  {
    exists k :: 0 <= k <= i && Names(events[k], c)
  }

  /** Event i hydrates c. */
  predicate Hydrated(config: Config, s: State, events: seq<Event>, i: nat, c: Commit) {
    i < |events| && Hydrates(Before(config, s, events, i), events[i]) == Some(c)
  }

  /** Event k fetches a commit and does not hydrate it while an older error is
      pending, and event i is the next timer event and a retry. */
  predicate RetriesUnhydrated(config: Config, s: State, events: seq<Event>, k: nat, i: nat) {
    && k < i < |events|
    && events[k].RunFired? && events[k].fetched.Some?
    && Hydrates(Before(config, s, events, k), events[k]).None?
    && Before(config, s, events, k).err.Some?
    && events[i].RehydrateFired?
    && forall j :: k < j < i ==> events[j].DoneDeleted?
  }

  predicate NoRunEvents(events: seq<Event>, k: nat, i: nat)
    requires i <= |events|
  {
    forall j :: k < j < i ==> !events[j].RunFired?
  }

  /** What a run event does to the variables of the loop. */
  lemma WithFetch(config: Config, s: State, events: seq<Event>, i: nat)
    requires i < |events| && events[i].RunFired?
    ensures var s1, s2 := Before(config, s, events, i), Before(config, s, events, i + 1);
            && s2.srcCommit == (if events[i].fetched.Some? then events[i].fetched.value else "")
            && (events[i].fetched.Some? && Hydrates(s1, events[i]).None? ==> s2.err == s1.err)
  {
    BeforeNext(config, s, events, i);
  }

  /** What an event between two run events does to the variables of the loop. */
  lemma WithoutFetch(config: Config, s: State, events: seq<Event>, i: nat)
    requires i < |events| && !events[i].RunFired?
    ensures var s1, s2 := Before(config, s, events, i), Before(config, s, events, i + 1);
            && s2.srcCommit == s1.srcCommit
            && (s1.err.None? ==> s2.err.None?)
            && (events[i].DoneDeleted? ==> s2.err == s1.err)
  {
    BeforeNext(config, s, events, i);
  }

  /** A source commit in memory is that of the last run event. */
  lemma {:induction false} LastFetch(config: Config, s: State, events: seq<Event>, i: nat) returns (k: nat)
    requires s.srcCommit == "" && i <= |events| && Before(config, s, events, i).srcCommit != ""
    ensures k < i && events[k].RunFired? && events[k].fetched == Some(Before(config, s, events, i).srcCommit)
    ensures NoRunEvents(events, k, i)
  {
    if i > 0 {
      if events[i - 1].RunFired? {
        WithFetch(config, s, events, i - 1);
        k := i - 1;
      } else {
        WithoutFetch(config, s, events, i - 1);
        k := LastFetch(config, s, events, i - 1);
      }
    }
  }

  /** A cleared error stays cleared without run events. */
  lemma {:induction false} ClearedStaysCleared(config: Config, s: State, events: seq<Event>, k: nat, i: nat)
    requires k < i <= |events| && NoRunEvents(events, k, i)
    requires Before(config, s, events, k + 1).err.None?
    ensures Before(config, s, events, i).err.None?
    decreases i
  {
    if k + 1 < i {
      ClearedStaysCleared(config, s, events, k, i - 1);
      WithoutFetch(config, s, events, i - 1);
    }
  }

  /** Deleting the done file does not reach the loop's variables. */
  lemma {:induction false} OnlyDeletions(config: Config, s: State, events: seq<Event>, k: nat, i: nat)
    requires k < i <= |events| && forall j :: k < j < i ==> events[j].DoneDeleted?
    ensures Before(config, s, events, i).err == Before(config, s, events, k + 1).err
    ensures Before(config, s, events, i).srcCommit == Before(config, s, events, k + 1).srcCommit
    decreases i
  {
    if k + 1 < i {
      OnlyDeletions(config, s, events, k, i - 1);
      WithoutFetch(config, s, events, i - 1);
    }
  }

  lemma {:induction false} FirstRetry(events: seq<Event>, k: nat, i: nat) returns (j: nat)
    requires k < i < |events| && NoRunEvents(events, k, i) && events[i].RehydrateFired?
    ensures k < j <= i && events[j].RehydrateFired? && forall l :: k < l < j ==> events[l].DoneDeleted?
    decreases i
  {
    j := i;
    if m :| k < m < i && events[m].RehydrateFired? {
      j := FirstRetry(events, k, m);
    }
  }

  /** A hydrated commit that no run event has found in the ready-to-render file
      was fetched, not hydrated, and then retried. */
  lemma UnnamedIsRetried(config: Config, s: State, events: seq<Event>, i: nat, c: Commit) returns (k: nat, j: nat)
    requires s.srcCommit == "" && Hydrated(config, s, events, i, c) && !Named(events, i, c)
    ensures RetriesUnhydrated(config, s, events, k, j) && j <= i && events[k].fetched == Some(c)
  {
    assert !Names(events[i], c);
    k := LastFetch(config, s, events, i);
    j := FirstRetry(events, k, i);
    assert !Names(events[k], c);
    WithFetch(config, s, events, k);
    if Before(config, s, events, k + 1).err.None? {
      ClearedStaysCleared(config, s, events, k, i);
    }
  }

  /** Such a retry hydrates the commit. */
  lemma RetryHydrates(config: Config, s: State, events: seq<Event>, k: nat, i: nat)
    requires RetriesUnhydrated(config, s, events, k, i)
    ensures Hydrated(config, s, events, i, events[k].fetched.value)
  {
    WithFetch(config, s, events, k);
    OnlyDeletions(config, s, events, k, i);
  }

  lemma NamedBefore(events: seq<Event>, k: nat, i: nat, c: Commit)
    requires k <= i < |events| && NoRunEvents(events, k, i + 1) && Named(events, i, c)
    ensures Named(events, k, c)
  {
    var m :| 0 <= m <= i && Names(events[m], c);
    assert m <= k;
  }

  /** In every run of a controller that starts without a source commit: each
      commit it hydrates was found in the ready-to-render file by a run event of
      this run, exactly if no commit that never was is fetched while an older
      error is pending and then retried. */
  lemma GateHoldsExactly(config: Config, s: State, events: seq<Event>)
    requires s.srcCommit == ""
    ensures (forall i: nat, c: Commit :: Hydrated(config, s, events, i, c) ==> Named(events, i, c))
            <==> (forall k: nat, i: nat :: RetriesUnhydrated(config, s, events, k, i) ==>
                                             Named(events, k, events[k].fetched.value))
  {
    if forall k: nat, i: nat :: RetriesUnhydrated(config, s, events, k, i) ==>
                                  Named(events, k, events[k].fetched.value) {
      forall i: nat, c: Commit | Hydrated(config, s, events, i, c)
        ensures Named(events, i, c)
      {
        if !Named(events, i, c) {
          var k, j := UnnamedIsRetried(config, s, events, i, c);
          assert false;
        }
      }
    }
    if forall i: nat, c: Commit :: Hydrated(config, s, events, i, c) ==> Named(events, i, c) {
      forall k: nat, i: nat | RetriesUnhydrated(config, s, events, k, i)
        ensures Named(events, k, events[k].fetched.value)
      {
        RetryHydrates(config, s, events, k, i);
        NamedBefore(events, k, i, events[k].fetched.value);
      }
    }
  }

  /** The rehydrate timer has no gate: after a run event that fetched c it
      retries c although the gate held c back exactly when an older error was
      still pending. */
  lemma RetryPassesGate(config: Config, s: State, e: Event, retry: Event)
    requires e.RunFired? && e.fetched.Some? && retry.RehydrateFired?
    requires s.disk.DoneCommit() != e.fetched.value && e.ready != e.fetched.value
    ensures Hydrates(s, e).None?
    ensures Hydrates(Next(config, s, e), retry) == (if s.err.Some? then e.fetched else None)
  {
  }

  /** Such a run: b is rendered, linked and reported as done although the
      ready-to-render file named a throughout. */
  lemma UngatedCommitServed(a: Commit, b: Commit, w: Work)
    requires a != b && w.readDirOk && w.doneRemoved && !w.render.buildOk && w.render.mkdirOk
    ensures var config := Config(false, {a, b});
            var s := State(Disk(map[], None, None, false, None), "", None);
            var r := Render(true, false, true, Some(b), true, true, true, true);
            var s' := Run(config, s, [RunFired(Some(a), true, a, w, NoFault), RunFired(Some(b), true, a, w, NoFault),
                                      RehydrateFired(r, NoFault)]);
            s'.disk.Serves(b) && s'.disk.done == Some(b) && !s'.disk.errorFile
  {
    var config := Config(false, {a, b});
    var s := State(Disk(map[], None, None, false, None), "", None);
    var e1, e2 := RunFired(Some(a), true, a, w, NoFault), RunFired(Some(b), true, a, w, NoFault);
    var r := Render(true, false, true, Some(b), true, true, true, true);
    var e3 := RehydrateFired(r, NoFault);
    assert [e1, e2, e3][..2] == [e1, e2] && [e1, e2][..1] == [e1] && [e1][..0] == [];
    assert Run(config, s, [e1]) == Next(config, s, e1);
    var s1 := Next(config, s, e1);
    var h := Hydrate(config, s.disk, a, w);
    RenderingOutcome(config, s.disk.(done := None), a, w.render);
    LastOfConcat(s.disk, h.trace, Complete(Last(s.disk, h.trace), a, h.err, NoFault));
    LastOfConcat(s.disk, [s.disk.(done := None)], RunHydrate(config, s.disk.(done := None), a, w.render).trace);
    CompleteOutcome(Last(s.disk, h.trace), a, h.err);
    assert s1.err.Some? && s1.disk.done == Some(a) && s1.disk.link.None?;
    var s2 := Next(config, s1, e2);
    assert s2 == s1.(srcCommit := b);
    assert s2.disk.tmpLink.None? by {
      BuildTouchesOnlyItsTree(config, s.disk.(done := None), a, w.render);
    }
    RenderingOutcome(config, s2.disk, b, r);
    var h3 := RunHydrate(config, s2.disk, b, r);
    LastOfConcat(s2.disk, h3.trace, Complete(Last(s2.disk, h3.trace), b, h3.err, NoFault));
    CompleteOutcome(Last(s2.disk, h3.trace), b, h3.err);
  }
}
