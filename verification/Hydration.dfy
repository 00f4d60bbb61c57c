/** The hydration controller as a file-system protocol
    (pkg/hydrate/controller.go, pkg/hydrate/tool_util.go).

    What the controller cannot decide by itself is an input: the source commit it
    sees, the ready-to-render file, and whether each file-system call succeeds.
    Nothing else writes below the hydrated root, which holds no symbolic links
    apart from the hydrated link and its temporary twin. */
module Hydration {
  import opened Objects

  /** The base name of the directory that the source link resolves to. */
  type Commit = s: string | s != "" witness "c"

  /** The state of the sync directory below a commit's rendered directory. */
  datatype Tree = NoOutput | Empty | Partial | Rendered

  /** trees has a key for every directory of the hydrated root that is named by a
      commit; link and tmpLink are the symbolic links and name their targets. */
  datatype Disk = Disk(
    trees: map<Commit, Tree>,
    link: Option<Commit>,
    tmpLink: Option<Commit>,
    errorFile: bool,
    done: Option<string>)
  {
    /** EvalSymlinks on the hydrated link; None is "does not exist". */
    function Resolved(): Option<Commit> {
      if link.Some? && link.value in trees then link else None
    }

    /** A reader of the hydrated link sees the complete output for c. */
    predicate Serves(c: Commit) {
      link == Some(c) && c in trees && trees[c] == Rendered
    }

    /** What extractCommit reads from the done file. */
    function DoneCommit(): string {
      if done.Some? then done.value else ""
    }
  }

  datatype HydrationError = InternalError | TransientError | ActionableError

  /** nested: the sync directory is not the top of the repository.
      kustomized: the commits whose sync directory has a kustomization file. */
  datatype Config = Config(nested: bool, kustomized: set<Commit>)

  /** How the calls of one rendering turn out. dirLeft: creating the output
      directory has failed after the commit's own directory was there. sourceAfter
      is the commit that the source link resolves to once the build has finished. */
  datatype Render = Render(
    mkdirOk: bool,
    dirLeft: bool,
    buildOk: bool,
    sourceAfter: Option<Commit>,
    linkReadable: bool,
    symlinkOk: bool,
    renameOk: bool,
    oldRemoved: bool)

  /** The disk states a sequence of calls passes through, and its error. */
  datatype Outcome = Outcome(trace: seq<Disk>, err: Option<HydrationError>)

  function Last(d: Disk, trace: seq<Disk>): Disk {
    if trace == [] then d else trace[|trace| - 1]
  }

  function SetTree(d: Disk, c: Commit, t: Tree): Disk {
    d.(trees := d.trees[c := t])
  }

  function DeleteTree(d: Disk, c: Commit): Disk {
    d.(trees := d.trees - {c})
  }

  /** Removing the output directory of c, which is the commit's directory itself
      when the sync directory is the top of the repository. */
  function DeleteOutput(config: Config, d: Disk, c: Commit): Disk {
    if config.nested then SetTree(d, c, NoOutput) else DeleteTree(d, c)
  }

  /** The output of an earlier build is deleted first. */
  function ClearOutput(config: Config, d: Disk, c: Commit): seq<Disk> {
    if c in d.trees && d.trees[c] != NoOutput then [SetTree(d, c, Partial), DeleteOutput(config, d, c)] else []
  }

  /** What a build does once there is no output for c. A commit's directory without
      an output is what deleting the output leaves. */
  function BuildTail(config: Config, d: Disk, c: Commit, r: Render): seq<Disk> {
    if !r.mkdirOk then if r.dirLeft then [DeleteOutput(config, d, c)] else []
    else
      [SetTree(d, c, Empty), SetTree(d, c, Partial),
       if r.buildOk then SetTree(d, c, Rendered) else DeleteOutput(config, d, c)]
  }

  function BuildError(r: Render): Option<HydrationError> {
    if !r.mkdirOk then Some(InternalError) else if !r.buildOk then Some(ActionableError) else None
  }

  function KustomizeBuild(config: Config, d: Disk, c: Commit, r: Render): Outcome {
    var cleared := ClearOutput(config, d, c);
    Outcome(cleared + BuildTail(config, Last(d, cleared), c, r), BuildError(r))
  }

  function UpdateSymlink(d: Disk, c: Commit, r: Render): Outcome {
    if !r.linkReadable then Outcome([], Some(InternalError))
    else if d.Resolved() == Some(c) then Outcome([], None)
    else if !r.symlinkOk || d.tmpLink.Some? then Outcome([], Some(InternalError))
    else
      var linked := d.(tmpLink := Some(c));
      if !r.renameOk then Outcome([linked], Some(InternalError))
      else
        var moved := d.(link := Some(c));
        if d.Resolved().None? then Outcome([linked, moved], None)
        else
          var torn := SetTree(moved, d.link.value, Partial);
          Outcome([linked, moved, torn] + if r.oldRemoved then [DeleteTree(torn, d.link.value)] else [], None)
  }

  function RunHydrate(config: Config, d: Disk, c: Commit, r: Render): Outcome {
    var build := KustomizeBuild(config, d, c, r);
    if build.err.Some? then build
    else if r.sourceAfter != Some(c) then Outcome(build.trace, Some(TransientError))
    else
      var switch := UpdateSymlink(Last(d, build.trace), c, r);
      Outcome(build.trace + switch.trace, switch.err)
  }

  /** What a removal of the hydrated root has left of it, in whatever order it
      works, when it is half-way or has failed. */
  datatype Leftover = Leftover(kept: set<Commit>, damaged: set<Commit>, link: bool, tmpLink: bool, errorFile: bool)

  datatype SubdirScan = ScanFailed | KustomizationInSubdir | NoKustomization

  /** How the calls of one hydration turn out. torn are the steps of a removal of
      the hydrated root before the last one; leftover is None if it succeeds. */
  datatype Work = Work(
    readDirOk: bool,
    scan: SubdirScan,
    torn: seq<Leftover>,
    leftover: Option<Leftover>,
    doneRemoved: bool,
    render: Render)

  function RemoveRoot(d: Disk, leftover: Option<Leftover>): Disk {
    match leftover
    case None => d.(trees := map[], link := None, tmpLink := None, errorFile := false)
    case Some(l) => d.(
      trees := map c | c in d.trees && c in l.kept :: if c in l.damaged then Partial else d.trees[c],
      link := if l.link then d.link else None,
      tmpLink := if l.tmpLink then d.tmpLink else None,
      errorFile := d.errorFile && l.errorFile)
  }

  function TearDown(d: Disk, torn: seq<Leftover>): seq<Disk> {
    if torn == [] then []
    else
      var before := TearDown(d, torn[..|torn| - 1]);
      before + [RemoveRoot(Last(d, before), Some(torn[|torn| - 1]))]
  }

  function Hydrate(config: Config, d: Disk, c: Commit, w: Work): Outcome {
    if !w.readDirOk then Outcome([], Some(InternalError))
    else if c !in config.kustomized then
      match w.scan
      case ScanFailed => Outcome([], Some(InternalError))
      case KustomizationInSubdir => Outcome([], Some(ActionableError))
      case NoKustomization =>
        var tearing := TearDown(d, w.torn);
        Outcome(tearing + [RemoveRoot(Last(d, tearing), w.leftover)],
                if w.leftover.Some? then Some(InternalError) else None)
    else if !w.doneRemoved then Outcome([], Some(InternalError))
    else
      var cleared := d.(done := None);
      var run := RunHydrate(config, cleared, c, w.render);
      Outcome([cleared] + run.trace, run.err)
  }

  /** How complete turns out: NoFault is the run in which it returns nil. */
  datatype CompleteFault =
    | NoFault
    | ErrorFileFault          // the error file could not be written or removed
    | DoneFault               // the error file is right, the done file was not opened
    | WriteFault(text: string) // the done file was opened, but not fully written

  function Complete(d: Disk, commit: string, err: Option<HydrationError>, fault: CompleteFault): seq<Disk> {
    var marked := d.(errorFile := err.Some?);
    match fault
    case ErrorFileFault => []
    case DoneFault => [marked]
    case WriteFault(text) => [marked, marked.(done := Some("")), marked.(done := Some(text))]
    case NoFault => [marked, marked.(done := Some("")), marked.(done := Some(commit))]
  }

  /** The controller: its disk and the variables of its main loop. srcCommit and
      the sync path that goes with it are empty together. */
  datatype State = State(disk: Disk, srcCommit: string, err: Option<HydrationError>)

  datatype Event =
    | RunFired(fetched: Option<Commit>, doneReadable: bool, ready: string, work: Work, fault: CompleteFault)
    | RehydrateFired(render: Render, fault: CompleteFault)
    | DoneDeleted // an operator removes the done file to force a new rendering

  /** The commit that the event hydrates, if it hydrates at all. */
  function Hydrates(s: State, e: Event): Option<Commit> {
    match e
    case RunFired(fetched, doneReadable, ready, _, _) =>
      if fetched.None? || (doneReadable && s.disk.DoneCommit() == fetched.value) || ready != fetched.value then None
      else fetched
    case RehydrateFired(_, _) =>
      if s.err.None? || s.srcCommit == "" then None else Some(s.srcCommit)
    case DoneDeleted => None
  }

  /** The disk states of one event, and the error it leaves in memory. */
  function Handle(config: Config, s: State, e: Event): Outcome {
    match e
    case RunFired(fetched, _, _, work, fault) =>
      if fetched.None? then Outcome(Complete(s.disk, "", Some(InternalError), fault), Some(InternalError))
      else if Hydrates(s, e).None? then Outcome([], s.err)
      else
        var h := Hydrate(config, s.disk, fetched.value, work);
        Outcome(h.trace + Complete(Last(s.disk, h.trace), fetched.value, h.err, fault), h.err)
    case RehydrateFired(render, fault) =>
      if Hydrates(s, e).None? then Outcome([], s.err)
      else
        var h := RunHydrate(config, s.disk, s.srcCommit, render);
        Outcome(h.trace + Complete(Last(s.disk, h.trace), s.srcCommit, h.err, fault), h.err)
    case DoneDeleted => Outcome([s.disk.(done := None)], s.err)
  }

  function Next(config: Config, s: State, e: Event): State {
    var o := Handle(config, s, e);
    var srcCommit := if !e.RunFired? then s.srcCommit else if e.fetched.Some? then e.fetched.value else "";
    State(Last(s.disk, o.trace), srcCommit, o.err)
  }

  function Run(config: Config, s: State, events: seq<Event>): State {
    if events == [] then s else Next(config, Run(config, s, events[..|events| - 1]), events[|events| - 1])
  }

  /** The state before event i of a run, or the final one. */
  function Before(config: Config, s: State, events: seq<Event>, i: nat): State
    requires i <= |events|
  {
    Run(config, s, events[..i])
  }

  /** Every disk state that a run passes through. */
  function RunTrace(config: Config, s: State, events: seq<Event>): seq<Disk> {
    if events == [] then []
    else
      var init := events[..|events| - 1];
      RunTrace(config, s, init) + Handle(config, Run(config, s, init), events[|events| - 1]).trace
  }
}
