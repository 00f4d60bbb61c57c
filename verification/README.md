# Config Sync: who owns an object, and what may be trusted

Config Sync runs many independent reconcilers against one cluster. This project is a
Dafny model of the parts of it whose correctness is not local to one function, with
proofs that hold for every input, every interleaving and every run.

- **Ownership.** Every managed object carries a manager annotation. A reconciler
  decodes it, rebuilds a reconciler name and compares it with its own. `Strings`,
  `Names`, `Managers` and `Precedence` model the strings and the rules; `Diffs` models
  the decision what to do about an object; `Ownership` follows one object through
  arbitrary runs of arbitrary reconcilers.
- **Metadata.** `Objects` and `Metadata` model the in-place edits of annotations and
  labels, each method against a function on values; `Convergence` shows that repeating
  the reconcile step comes to rest.
- **Hydration.** `Hydration` models the hydration controller as a file-system protocol
  with every disk state it passes through, `HydrationSafety` proves what a reader of that
  disk may rely on at each of them, `HydrationReader` what it may rely on when it reads one
  file after the other, `HydrationGate` which commits are rendered at all, and
  `HydrationController` is the controller in imperative form: its methods pass through
  exactly those states and promise the laws.
- **Declared resources and the applier.** `OrderedMaps`, `Declared` and `ResourceStore`
  model the declared store with its own copies of objects, `IgnoreMutation` the cache of
  mutation-ignored objects, `ApplierEvents` and `Supervisors` the event loops.
- **Generators and retries.** `FileNames`, `ImplicitNamespaces` and `StatusRetry`.

Inputs that the code cannot control are parameters: API server answers, kpt events,
file-system faults, the source commit and the ready-to-render file. Every theorem
quantifies over them.

`dafny verify dfyconfig.toml` checks the whole project.

## Where the code and its comments part

- `pkg/diff/precedence.go:87` says anyone may manage an object with an invalid manager.
  The code only logs. `Precedence.InvalidManagerIsNotFree` says exactly who may, and
  `Precedence.InvalidManagerLocksOut` gives an object that is closed to a reconciler.
- `pkg/core/names.go:42` calls `RootSyncName` the inverse of `RootReconcilerName`. It is
  a left inverse on all strings; `Names.RootSyncNameRightInverse` says on which strings
  it is a right inverse, and `Names.RootSyncNameIsNoInverse` gives one on which it is not.
- `pkg/diff/diff.go:127` says that equal Config Sync metadata implies the right to
  update. `Precedence.SameMetadataMayUpdate` gives the exact condition, which a RootSync
  called `repo-sync` and a RepoSync called `root-sync` fail: their annotation decodes to the
  default sync of their scope. `Diffs.UndecodableSyncConflictsWithItself` and
  `Diffs.UndecodableSyncLosesObjects` show what follows, for every such sync, and
  `Diffs.RootSyncCalledRepoSync` for the RootSync: it reports a conflict with itself, and the
  default RootSync deletes what it no longer declares.
- `pkg/hydrate/controller.go:43-44` says that hydration halts until the ready-to-render
  file names the commit. The rehydrate timer does not look at the file:
  `HydrationGate.GateHoldsExactly` says of every run exactly when the gate holds and
  `HydrationGate.UngatedCommitServed` is a run in which it does not.
- The reconciler reads the disk while the controller works on it: the done file, then the
  error file, then the link. `HydrationReader.ThreeReadsGetRenderedOutput` shows that what it
  then finds is complete unless, since the first read, an event has hydrated the commit again
  or removed the hydrated root. Both exceptions are real. `HydrationReader.RereadingTornOutput`
  is a run of the first kind, and `HydrationSafety.TornRootIsAccepted` shows that moving on to
  a commit without a kustomization file can be caught even by three reads at one moment.
- A rename that fails in `updateSymlink` leaves the temporary link behind, and creating it
  again fails from then on. `HydrationSafety.StrayLinkFreezesLink` shows that the hydrated
  link then never moves again in any run of commits that need rendering.
- A cached mutation-ignored object outlives the annotation that put it into the cache:
  `IgnoreMutation.CachedBodyIsSent` shows it for every history of the store,
  `IgnoreMutation.StaleBodyIsSent` is a run from the empty store in which the old body is sent
  for a new declaration, and `IgnoreMutation.SentAsDeclared` says exactly when a declaration
  is sent as it is.
- `pkg/hydrate/file_name.go:28-29` promises unique names for objects that do not collide.
  `FileNames.UniqueExactly` shows what has to differ, and `FileNames.SlashInClusterCollides`
  that a slash in a cluster name breaks the promise.

## Model

| member | source | states |
|---|---|---|
| Names.RootSyncNameLeftInverse | pkg/core/names.go:34-50 | decoding the reconciler name of a RootSync gives its name back, for every string |
| Names.RootSyncNameRightInverse | pkg/core/names.go:41-50 | exactly which reconciler names are rebuilt from their decoded name |
| Names.RootSyncNameIsNoInverse | pkg/core/names.go:41-50 | a reconciler name that is not rebuilt |
| Names.ReconcilerKindsDisjoint | pkg/core/names.go:25-60 | root reconcilers, namespace reconcilers and the reconciler manager never share a name |
| Names.NsReconcilerNameCollision | pkg/core/names.go:52-60 | two namespace reconcilers share a name exactly when they are the same or a default one lives in a namespace spelled like the other's custom form |
| Names.NsReconcilerNameCollides | pkg/core/names.go:55-60 | a concrete pair of RepoSyncs with one reconciler name |
| Names.NsReconcilerNameInjectiveInNamespace | pkg/core/names.go:52-60 | within one namespace there is no collision |
| Managers.ValidScopeCharacters | pkg/declared/scope.go:74-85 | a valid scope is not empty, has no delimiter, and is not mistaken for the root scope |
| Managers.ValidScopeExactly | pkg/declared/scope.go:74-85 | a scope is valid exactly if it is the root scope or, in at most 253 characters, lower-case letters, digits, dashes and dots with a letter or digit at both ends and on both sides of every dot |
| Managers.ScopeExamples | pkg/declared/scope.go:74-85 | a valid namespace scope and seven invalid ones |
| Managers.DecodeOfEncode | pkg/declared/resource_manager.go:28-59 | what the manager annotation decodes to for every valid scope and every name |
| Managers.NoScopeNoSync | pkg/declared/resource_manager.go:40-59 | an annotation that is empty or begins with the delimiter names no sync |
| Managers.ManagerRoundTrip | pkg/declared/resource_manager.go:28-59 | the annotation round-trips exactly for names that are not the default of the other kind and have no underscore, which DNS subdomains never have |
| Managers.ResourceManagerInjective | pkg/declared/resource_manager.go:25-33 | two decodable syncs never write the same annotation |
| Managers.RootManagerIffRootScope | pkg/declared/resource_manager.go:35-38 | the prefix test for root managers is sound and complete on built annotations |
| Managers.ManagerNamesItsReconciler | pkg/declared/scope.go:87-94 | rebuilding the reconciler name from the annotation gives the writer back exactly for decodable syncs |
| Managers.ReconcilerNameCollision | pkg/declared/scope.go:87-94 | exactly when two syncs of any scope run under one reconciler name |
| Managers.ScopeNamespaceRoundTrip | pkg/declared/scope.go:36-59 | scope and sync namespace determine each other, with the one exception on each side |
| Objects.LiveObject.SetAnnotation | pkg/core/decorate.go:24-38 | sets the entry in place and reports a change exactly when there is one |
| Objects.LiveObject.SetLabel | pkg/core/decorate.go:133-147 | sets the label in place and reports a change exactly when there is one |
| Objects.LiveObject.AddAnnotations | pkg/core/decorate.go:106-124 | merges the annotations in place and reports a change exactly when there is one |
| Objects.LiveObject.AddLabels | pkg/core/decorate.go:149-167 | merges the labels in place and reports a change exactly when there is one |
| Objects.LiveObject.RemoveAnnotations | pkg/core/decorate.go:66-84 | removes the keys in place and reports a change exactly when there is one |
| Objects.LiveObject.RemoveLabels | pkg/core/decorate.go:86-104 | removes the labels in place and reports a change exactly when there is one |
| Objects.MergeInto | pkg/core/decorate.go:114-119 | the loop over the added entries yields the overlay in every iteration order, and its flag says whether anything changed |
| Objects.RemoveKeys | pkg/core/decorate.go:73-79 | the loop over the removed keys yields the difference, and its flag says whether anything changed |
| Objects.FilterEntries | pkg/metadata/metadata.go:209-228 | the loop over an object's entries collects exactly those that qualify, in every iteration order |
| Objects.ResourceIDExactly | pkg/core/id.go:45-63 | the resource-id text tells objects apart: two ids without underscores in group, kind and namespace share it exactly if they agree in group, lower-cased kind, namespace and name, or a cluster-scoped name spells a namespaced one |
| Metadata.SetConfigSyncMetadata | pkg/metadata/metadata.go:129-143 | stamping in place is the stamp on values |
| Metadata.StampReadsBack | pkg/metadata/metadata.go:131-143 | every stamped value reads back, foreign annotations are untouched, and management is enabled unless it was disabled |
| Metadata.RemoveConfigSyncMetadata | pkg/metadata/metadata.go:145-172 | removal in place keeps every foreign entry and the mutation annotation, and the size comparison reports a change exactly when there is one |
| Metadata.RemoveApplySetPartOfLabel | pkg/metadata/metadata.go:191-206 | the label goes exactly when its value is the apply set's, and that is reported |
| Metadata.UpdateConfigSyncMetadata | pkg/metadata/metadata.go:174-181 | copying metadata in place is the overlay on values |
| Metadata.AbandonObject | pkg/applier/applier.go:787-829 | an object on the cluster is patched exactly when the abandon edits change it, and with their result; an object that is gone is no error, a failed read or patch is |
| Metadata.AbandonUndoesStamp | pkg/metadata/metadata.go:131-206 | abandoning a stamped object restores it exactly if and only if it had no removable Config Sync metadata, managed-by or part-of label |
| Metadata.RemovalLeavesOnlyMutation | pkg/metadata/metadata.go:145-172 | after removal the mutation annotation is the only Config Sync metadata left, and it is left exactly when it was there |
| Metadata.AbandonIdempotent | pkg/applier/applier.go:806-826 | abandoning twice is abandoning once, and every foreign entry survives |
| Metadata.AbandonLeavesExactly | pkg/metadata/metadata.go:61-206 | exactly which annotations and labels of any object abandoning takes away, with their keys and values spelled out; all others keep their values |
| Metadata.OverlayMatches | pkg/metadata/metadata.go:174-189 | after copying, the metadata is the same exactly when the target had no other Config Sync key; copying again changes nothing |
| Metadata.SameMetadataSameAnnotation | pkg/metadata/metadata.go:183-189 | objects with the same Config Sync metadata agree on every annotation whose key is Config Sync's |
| Precedence.DeleteRight | pkg/diff/precedence.go:77-142 | deleting is allowed exactly to the reconciler that the annotation decodes to, and never on its own sync object, for every valid scope and every name |
| Precedence.UpdateRight | pkg/diff/precedence.go:77-142 | updating is allowed exactly to the reconciler that the annotation decodes to, to a root reconciler facing a namespace reconciler, and on the own sync object |
| Precedence.OwnManagerMayUpdate | pkg/diff/precedence.go:54-67 | a reconciler may update what carries its own manager string exactly when that string is decodable or the object is its own sync |
| Precedence.OwnManagerMayDelete | pkg/diff/precedence.go:54-67 | a reconciler may delete what carries its own manager string exactly when that string is decodable and the object is not its own sync |
| Precedence.SameMetadataMayUpdate | pkg/diff/diff.go:126-139 | the exact condition under which equal metadata implies the right to update |
| Precedence.InvalidManagerIsNotFree | pkg/diff/precedence.go:83-90 | exactly who may update an object with an invalid manager |
| Precedence.InvalidManagerLocksOut | pkg/diff/precedence.go:86-90 | an object with an invalid manager that a namespace reconciler may not update |
| Precedence.ReconcilerManagerRights | pkg/diff/precedence.go:92-125 | the reconciler manager may update sync objects and nothing else that is managed |
| Precedence.StampMakesManager | pkg/diff/precedence.go:41-50 | a stamped object is the sync's own exactly when its management is not disabled |
| Diffs.DeleteOnlyByOwner | pkg/diff/diff.go:167-200 | exactly when an undeclared managed object is deleted, when it is abandoned and when it is left alone: only the reconciler that the annotation decodes to touches it |
| Diffs.UndeclaredObjectsAreTheOwners | pkg/diff/diff.go:167-200 | a root reconciler touches only undeclared objects whose annotation decodes to its own sync, which is the sync that wrote it exactly if that is decodable, and nobody else touches those of a root sync |
| Diffs.CopiedAnnotationsAreNobodys | pkg/syncer/differ/decorations.go:22-34 | the annotations of a stamped object on an object with another resource id make it nobody's, and every reconciler leaves it alone when it is not declared |
| Diffs.UndeclaredNamespace | pkg/diff/diff.go:188-199 | an undeclared Namespace of the sync is abandoned if it is special and deleted otherwise |
| Diffs.DisabledExactly | pkg/diff/diff.go:126-161 | exactly when an object that is declared as disabled is abandoned, for every valid sync and every object on the cluster; otherwise nothing is done |
| Diffs.FreeObjectIsTaken | pkg/diff/diff.go:126-146 | an object that is unmanaged or has no manager is updated by whoever declares it, only in its metadata if it ignores mutations |
| Diffs.UndecidedDeclaration | pkg/diff/diff.go:105-165 | a declaration that is neither enabled nor disabled is an error, unless the cluster has just that metadata |
| Diffs.UndecodableSyncConflictsWithItself | pkg/diff/diff.go:141-149 | a sync whose annotation decodes to another one is in management conflict with its own earlier stamp |
| Diffs.UndecodableSyncLosesObjects | pkg/diff/diff.go:167-200 | what such a sync no longer declares it leaves alone, and the sync that the annotation decodes to deletes it |
| Diffs.RootSyncCalledRepoSync | pkg/declared/resource_manager.go:28-59 | both for the RootSync called repo-sync, whose objects the default RootSync deletes |
| Diffs.ThreeWay | pkg/diff/diff.go:220-254 | the two loops produce, in some order, the one diff that every current or previous id calls for; on maps that file objects under their ids no two diffs have one subject, and carrying them out leads to the target of `Diffs.ThreeWayConverges` |
| Diffs.OneDiffPerID | pkg/diff/diff.go:220-254 | there is at most one diff per id |
| Diffs.ThreeWayConverges | pkg/diff/diff.go:220-254 | carrying the diffs out in any order yields the new declaration where the state is not unknown, removes what is no longer declared and touches nothing else |
| Ownership.ConflictExactly | pkg/diff/diff.go:119-149 | a management conflict is reported exactly when somebody else owns the object and this is not a root reconciler facing a namespace reconciler |
| Ownership.DeclaredExactly | pkg/diff/diff.go:119-165 | exactly what a reconciler does about an owned object that it declares: abandon, leave alone, report an error or a conflict, update, or update the metadata only |
| Ownership.StepOwnership | pkg/diff/diff.go:119-165 | one operation-gated step keeps the object owned and changes the owner only by adoption |
| Ownership.OnlyOwnerLetsGo | pkg/diff/diff.go:150-200 | only the owner deletes a managed object or abandons it, declared as disabled or not declared |
| Ownership.BystandersChangeNothing | pkg/diff/diff.go:119-200 | a reconciler that neither owns the object nor may adopt it never changes it, whatever it declares |
| Ownership.OwnerChangesAtMostOnce | pkg/diff/precedence.go:127-141 | in every run the owner changes at most once, from a namespace to a root reconciler, and a root reconciler never loses an object |
| Ownership.MetadataUpdatedExactly | pkg/remediator/reconcile/reconciler.go:172-195 | a metadata-only update is the overlay, and clears the mutation annotation exactly if the object has it and the declaration does not |
| Convergence.AbandonSettles | pkg/diff/diff.go:126-157 | after abandoning a disabled object the next operation is NoOp, or Abandon without effect exactly when the mutation annotation was kept |
| Convergence.StoppingManagement | pkg/diff/diff.go:150-157 | when a user disables a managed object, its owner abandons it, no manager and no management annotation are left, and the next operation is NoOp |
| Convergence.AbandonUndeclaredSettles | pkg/diff/diff.go:167-196 | after abandoning an undeclared object the next operation is NoOp |
| Convergence.CreateSettles | pkg/diff/diff.go:105-117 | a stamped declaration is created exactly when not disabled, and the created object is then the sync's own and at rest or watched for drift |
| Convergence.MetadataUpdateSettles | pkg/remediator/reconcile/reconciler.go:172-195 | after a metadata-only update of an ignored object the next operation is NoOp exactly when it had no undeclared Config Sync key, and otherwise repeats without effect |
| Convergence.MetadataUpdateEndsIgnoring | pkg/remediator/reconcile/reconciler.go:189-195 | when the declaration stops ignoring mutations, one metadata-only update hands the object back to ordinary updates |
| HydrationSafety.BuildTouchesOnlyItsTree | pkg/hydrate/tool_util.go:135-165 | a build edits no other commit's output, never builds on old output, and leaves a complete output or none |
| HydrationSafety.FirstStep | pkg/hydrate/tool_util.go:147-154 | a build begins by tearing down an old output if there is one, and with an empty directory otherwise |
| HydrationSafety.NeverCompleteTooEarly | pkg/hydrate/tool_util.go:135-165 | the output of a commit looks complete only at the end of a build that succeeds |
| HydrationSafety.FailedMkdir | pkg/hydrate/tool_util.go:152-154 | a failed creation of the output directory leaves at most the commit's own directory behind |
| HydrationSafety.FailedBuildOfLinked | pkg/hydrate/tool_util.go:157-162 | after a failed build of the linked commit the link leads nowhere, or to a directory without output if the sync directory is nested |
| HydrationSafety.RenderingIsAtomic | pkg/hydrate/controller.go:131-153 | at every intermediate disk state the link leads to the untouched old output or the complete new one, if the commit is not the linked one |
| HydrationSafety.RenderingLinkedCommitTearsDown | pkg/hydrate/tool_util.go:147-154 | rendering the linked commit again exposes an incomplete output |
| HydrationSafety.RenderingOutcome | pkg/hydrate/controller.go:131-254 | exactly when rendering succeeds; then the link serves the commit and the old output is gone; on failure the link has not moved; it moves only if the source still resolved to the commit |
| HydrationSafety.RenderingError | pkg/hydrate/controller.go:131-153 | which kind of error rendering reports, for every combination of faults |
| HydrationSafety.HydrationErrorExactly | pkg/hydrate/controller.go:172-201 | which kind of error a hydration reports, for every combination of faults |
| HydrationSafety.RootIsRemoved | pkg/hydrate/controller.go:179-192 | a commit without any kustomization file leaves nothing below the hydrated root if its hydration succeeds, and never touches the done file |
| HydrationSafety.RemaindersExactly | pkg/hydrate/controller.go:189-191 | a removal of the hydrated root that stops half-way can leave every remainder of it, and nothing else |
| HydrationSafety.EventKeepsInv | pkg/hydrate/controller.go:91-128 | either timer event keeps the done file trustworthy and an error in memory on disk |
| HydrationSafety.DoneFileIsTrusted | pkg/hydrate/controller.go:74-129 | between any two events of any run in which complete succeeds, a done commit without an error is served completely |
| HydrationSafety.EventIsSafeToRead | pkg/parse/source.go:131-174 | at every single disk state of an event in which complete succeeds, what all three of the reconciler's checks accept there is completely rendered, unless the event removes the hydrated root while the done file speaks for it |
| HydrationSafety.ReaderGetsRenderedOutput | pkg/parse/source.go:131-174 | the same at every single disk state of every run, between events and in the middle of them |
| HydrationReader.ThreeReadsGetRenderedOutput | pkg/parse/source.go:131-174 | at any three moments of any run in this order: if the done file (pkg/parse/run.go:273) names a commit that needs rendering, there is no error file, and the link resolves to the commit, then it leads to the complete output, unless an event in between hydrates the commit again or removes the root |
| HydrationReader.UndisturbedEvent | pkg/hydrate/controller.go:91-128 | an event that does neither keeps an intact output intact at every disk state, and what only the error file guards is intact once that file is gone |
| HydrationReader.HydratingAgainTears | pkg/hydrate/tool_util.go:147-154 | every event that renders a commit whose complete output is linked exposes an incomplete one |
| HydrationReader.RereadingTornOutput | pkg/hydrate/controller.go:105-124 | a run in which the done file is deleted after it was read, the commit is rendered again, and the later reads accept the torn output |
| HydrationSafety.RunIsSafeToRead | pkg/hydrate/controller.go:74-129 | without such a removal every disk state of the run is safe to read |
| HydrationSafety.TornRootIsAccepted | pkg/hydrate/controller.go:188-192 | with one, whatever its outcome, the reconciler can accept the remains of the old output |
| HydrationSafety.DoneCommitIsAccepted | pkg/parse/run.go:273-300 | between events a commit that needs rendering is accepted exactly when it is done without an error |
| HydrationSafety.FailingCompleteBreaksTrust | pkg/hydrate/controller.go:256-280 | a run in which complete fails and the done file is wrong |
| HydrationSafety.CompletingStepByStep | pkg/hydrate/controller.go:256-280 | complete settles the error file before it touches the done file, truncates the done file before it writes it, and leaves exactly what its faults allow |
| HydrationSafety.TrustOnlyBetweenEvents | pkg/hydrate/controller.go:205-221 | in the middle of a retry the done file can be wrong |
| HydrationSafety.CleanRunServes | pkg/hydrate/controller.go:98-125 | one undisturbed run event serves the fetched commit and reports it as done |
| HydrationSafety.FailedRenameLeavesStrayLink | pkg/hydrate/controller.go:240-246 | a failed rename leaves the temporary link |
| HydrationSafety.StrayLinkFreezesLink | pkg/hydrate/controller.go:223-254 | with a stray temporary link the hydrated link never moves again in any run of commits that need rendering |
| HydrationGate.GateHoldsExactly | pkg/hydrate/controller.go:91-128 | in every run, each hydrated commit was found in the ready-to-render file by a run event, if and only if no commit that never was is fetched while an older error is pending and then retried |
| HydrationGate.RunEventExactly | pkg/hydrate/controller.go:98-126 | a run event hydrates and completes the fetched commit exactly if the done file does not name it and the ready-to-render file does; a failed fetch is completed under no commit |
| HydrationGate.RetryExactly | pkg/hydrate/controller.go:203-221 | a retry renders and completes the last fetched commit exactly if there is an error in memory |
| HydrationGate.DoneCommitIsLeftAlone | pkg/hydrate/controller.go:112-115 | while the done file names a commit and nothing else is fetched, no run event and no idle retry touches the disk or the error in memory, in any run |
| HydrationGate.RetryPassesGate | pkg/hydrate/controller.go:95-97 | a commit that the gate held back is retried exactly when an older error is pending |
| HydrationGate.UngatedCommitServed | pkg/hydrate/controller.go:203-221 | a run that serves a commit the ready-to-render file never named |
| HydrationController.Hydrator.BuildOutput | pkg/hydrate/tool_util.go:135-165 | kustomizeBuild touches nothing but the output of its commit at any disk state, and leaves it complete or, after an error, not there |
| HydrationController.Hydrator.SwitchLink | pkg/hydrate/controller.go:223-254 | updateSymlink passes through exactly the modelled disk states; the link names the commit on success and has not moved on an error |
| HydrationController.Hydrator.RenderCommit | pkg/hydrate/controller.go:131-153 | runHydrate serves the commit on success and leaves the link on an error; if another commit was linked, every disk state shows the old output or the complete new one |
| HydrationController.Hydrator.HydrateCommit | pkg/hydrate/controller.go:172-201 | hydrate serves a commit that needs rendering on success; otherwise it takes the hydrated root down through any torn states |
| HydrationController.Hydrator.MarkComplete | pkg/hydrate/controller.go:256-280 | complete succeeds exactly without a fault, and then the error file tells of an error and the done file names the commit; on the way the error file comes first |
| HydrationController.Hydrator.RehydrateOnError | pkg/hydrate/controller.go:203-221 | without an error or a commit nothing changes; otherwise the rehydrate arm passes through exactly the modelled disk states and leaves the modelled error |
| HydrationController.Hydrator.OnRunTimer | pkg/hydrate/controller.go:98-126 | a fetched commit that is done already or not ready changes neither disk nor error; otherwise it is hydrated and completed through exactly the modelled disk states |
| HydrationController.Hydrator.OnEvent | pkg/hydrate/controller.go:91-128 | a round of the loop keeps the done file trustworthy if complete succeeds, and every disk state on the way safe to read |
| HydrationController.Hydrator.RunTimers | pkg/hydrate/controller.go:74-129 | the main loop passes through exactly the disk states of the run; as long as complete succeeds the done file is trustworthy at every boundary, and every state in between is safe to read unless the root that is read is removed |
| Declared.BuiltSetAgreesWithScan | pkg/declared/resources.go:122-143 | the set lists each id once in first-occurrence order with the sanitized value of its last occurrence |
| Declared.StoredObject | pkg/declared/resources.go:122-143 | what is stored for an id is its last declaration, unchanged but for the sanitized body |
| Declared.BuildFailsExactly | pkg/declared/resources.go:134-140 | building the set fails exactly when some object cannot be converted |
| Declared.ReachableStates | pkg/declared/resources.go:37-164 | in every reachable state the declared set and the commit are those of the last accepted update, in agreement with a scan of its input, or empty if there was none; the two commit fields agree and objects are filed under their ids |
| Declared.NamespacesGoThroughOne | pkg/declared/namespace_safeguard.go:25-56 | every history from two or more declared Namespaces to none passes through exactly one |
| Declared.CountIsNumber | pkg/declared/namespace_safeguard.go:44-56 | the failsafe counts exactly the declared Namespaces |
| Declared.UpdateIsAllOrNothing | pkg/declared/resources.go:121-164 | an update is accepted exactly when every object converts and at most one Namespace was declared or one still is; otherwise nothing changes; an accepted one replaces declared set and commit and leaves the cache alone |
| ResourceStore.Resources.UpdateDeclared | pkg/declared/resources.go:121-164 | the update on shared objects is the update on values, and the stored objects are copies of its own |
| ResourceStore.NonNilKeepsAll | pkg/declared/resources.go:126-142 | the list that an accepted update returns has every object that is not nil, in its place |
| ResourceStore.Resources.GetDeclared | pkg/declared/resources.go:166-179 | returns a copy of the declaration, and the commit, exactly when the id is declared |
| ResourceStore.Resources.DeclaredObjects | pkg/declared/resources.go:196-208 | lists the stored objects themselves in order |
| ResourceStore.Resources.UpdateIgnored | pkg/declared/resources.go:58-75 | caches sanitized copies, and deletion marks as they are; crashes exactly when an object cannot be sanitized |
| ResourceStore.EntriesExist | pkg/declared/resources.go:66-73 | every list of objects that can be sanitized has the values that this contract speaks of |
| ResourceStore.Resources.GetIgnored | pkg/declared/resources.go:77-93 | returns a copy of the cache entry exactly when there is one |
| ResourceStore.Resources.DeleteIgnored | pkg/declared/resources.go:110-119 | drops the entry and says whether there was one |
| ResourceStore.DeletesAllNamespacesCheck | pkg/declared/namespace_safeguard.go:33-56 | the failsafe fires exactly when two or more Namespaces would become none |
| ResourceStore.EditAfterDeclaring | pkg/declared/resources_test.go:76-105 | editing an object after declaring it does not reach the store |
| ResourceStore.EditFetchedDeclaration | pkg/declared/resources_test.go:112-129 | editing a fetched declaration does not reach the store |
| ResourceStore.EditFetchedEntry | pkg/declared/resources.go:77-93 | editing a fetched cache entry does not reach the store |
| IgnoreMutation.CacheIgnoreMutationObjects | pkg/applier/applier.go:831-863 | caching fails exactly when a needed read fails, crashes exactly when a fetched object cannot be sanitized, and otherwise adds exactly the missing entries |
| IgnoreMutation.CacheAfterFetch | pkg/applier/applier.go:831-863 | caching keeps every entry and adds only objects as the cluster has them |
| IgnoreMutation.CachedExactly | pkg/applier/applier.go:831-863 | exactly the objects that were cached, and those that are declared as ignoring mutations and exist on the cluster, are cached afterwards |
| IgnoreMutation.IgnoredObjectsSentAsOnCluster | pkg/applier/utils.go:52-71 | after caching, an ignored object goes to the applier as the cluster has it, overlaid with the declared Config Sync metadata, unless it is deleted or missing there |
| IgnoreMutation.SentObject | pkg/applier/utils.go:55-71 | identities are kept, and the declared metadata ends up on what is sent exactly when the cached object had no other Config Sync key |
| IgnoreMutation.SentAsDeclared | pkg/applier/utils.go:55-71 | a declaration is sent as it is exactly when it is not cached, or deleted, or the cached object agrees with it in everything but Config Sync metadata |
| IgnoreMutation.DeletedIsSentAsDeclared | pkg/applier/utils.go:55-71 | an object that was deleted from the cluster is sent as declared |
| IgnoreMutation.CachedBodyIsSent | pkg/applier/utils.go:55-71 | in every history of the store a live entry decides the body that is sent until it is dropped or marked as deleted: it is the body cached last, whatever is declared in between |
| IgnoreMutation.StaleBodyIsSent | pkg/applier/utils.go:55-71 | a run in which a declaration that no longer ignores mutations is sent with the old cached body, whatever the cluster answers |
| IgnoreMutation.HandleIgnoredObjects | pkg/applier/utils.go:52-71 | the apply list matches the enabled list entry by entry, and building it changes no existing object |
| IgnoreMutation.ObjectsToApply | pkg/applier/applier.go:502-536 | an apply sends exactly the enabled declarations in declared order, each overlaid on the cache that the same apply completed and converted; it sends nothing exactly when caching fails, disabled objects cannot be given up, or a conversion fails |
| IgnoreMutation.PartitionObjs | pkg/applier/utils.go:39-50 | the list splits into its enabled and its disabled objects, both in order |
| ApplierEvents.ProblemsReportedOnce | pkg/applier/applier.go:395-462 | in every run each object is reported exactly as often as something about it did not work out; a skipped deletion counts unless the policy or the annotation wanted it, nothing else stood in the way and no abandoning failed |
| ApplierEvents.ReflectsNext | pkg/applier/applier.go:210-393 | what one event writes keeps the status map equal to the last-event projection of all events |
| ApplierEvents.StatusIsLastWord | pkg/applier/applier.go:210-393 | an object has a status exactly if an event was about it; its strategy is that of the last actuation event, its actuation pending, succeeded, skipped or failed exactly as the last one with a known status said, and its reconciliation likewise as the last wait event said |
| ApplierEvents.SkipsExactly | pkg/applier/applier.go:395-462 | how a skipped deletion is reported and how often abandoning is tried, from the set of its reasons |
| ApplierEvents.ReportsExactly | pkg/applier/applier.go:210-462 | in every run each report is made exactly as often as an event calls for it |
| ApplierEvents.EveryEventCountedOnce | pkg/applier/applier.go:572-624 | every count is the number of handled events of that kind and status, and together the counts are all handled events |
| ApplierEvents.WaitFailuresReportedByDestroyOnly | pkg/applier/applier.go:265-288 | failed and timed-out waits are errors of destroy runs, one for each, and never of apply runs |
| ApplierEvents.PruneUncaches | pkg/applier/applier.go:331-341 | an object leaves the ignore cache exactly when a prune of it succeeded |
| Supervisors.SyncRun.ProcessApplyEvent | pkg/applier/applier.go:210-253 | an apply event keeps the status map equal to the last-event projection of all events so far and the statistics equal to their counts |
| Supervisors.SyncRun.ProcessWaitEvent | pkg/applier/applier.go:255-288 | a wait event keeps the status map equal to the last-event projection of all events so far and the statistics equal to their counts |
| Supervisors.SyncRun.ProcessPruneEvent | pkg/applier/applier.go:314-356 | a prune event keeps the status map equal to the last-event projection of all events so far and the statistics equal to their counts, and uncaches the object exactly when the prune succeeded |
| Supervisors.SyncRun.ProcessDeleteEvent | pkg/applier/applier.go:358-393 | a delete event keeps the status map equal to the last-event projection of all events so far and the statistics equal to their counts |
| Supervisors.SyncRun.ProcessEvents | pkg/applier/applier.go:572-706 | after any event sequence the status map has exactly the ids that events were about, each with the last word on it; every count is the number of such events; each report is made as often as an event calls for it, failed waits only by destroy runs; cache as modelled |
| FileNames.CleanPathStays | pkg/importer/filesystem/cmpath/relative.go:32-35 | cleaning changes nothing about a path of clean elements |
| FileNames.CleanMeaning | pkg/importer/filesystem/cmpath/relative.go:32-35 | cleaning any path keeps the place it leads to and spells it in the shortest way: up first, then down, after a slash exactly if the path starts at the root, and a dot if it leads nowhere |
| FileNames.PathForm | pkg/hydrate/file_name.go:47-66 | the path of a well-named object is its lower-cased cluster, namespace and base name |
| FileNames.EmptyClusterName | pkg/hydrate/file_name.go:58-64 | an object with an empty cluster name gets the path it has without a cluster |
| FileNames.ClusterDirectory | pkg/hydrate/file_name.go:58-64 | with several clusters the path is that of the object below the lower-cased cluster of its annotation, or below the default cluster |
| FileNames.LongPathsInjective | pkg/hydrate/file_name.go:47-66 | names with a group are equal only for objects that are equal up to case |
| FileNames.ShortNeverMeetsLong | pkg/hydrate/file_name.go:47-66 | a name without a group never equals one with a group |
| FileNames.UniqueExactly | pkg/hydrate/file_name.go:28-45 | two objects of a list get one path exactly when they are equal up to case in cluster (if included), namespace, group, kind and name |
| FileNames.UniquePathExactly | pkg/hydrate/file_name.go:28-66 | which path an object of a list gets, spelled from its identity: the group is part of it exactly if another object differs in nothing else |
| FileNames.SlashInClusterCollides | pkg/hydrate/file_name.go:28-63 | a slash in a cluster name makes the generator give two objects with different keys one path |
| FileNames.GenerateUniqueFileNames | pkg/hydrate/file_name.go:28-45 | the two in-place loops give every well-named object its spelled path, with the group exactly where another object differs in nothing else; two objects end up with one path exactly when they are equal up to case |
| ImplicitNamespaces.AddImplicitNamespaces | pkg/parse/root_sync_parser.go:113-178 | the loops keep the input as a prefix and declare exactly the referenced Namespaces that may be added besides; exactly the failed lookups are reported, once each |
| ImplicitNamespaces.AddedExactly | pkg/parse/root_sync_parser.go:117-178 | exactly the referenced, undeclared Namespaces that do not exist or carry this sync's own management annotations are appended, once each; exactly the failed lookups are reported |
| ImplicitNamespaces.OthersNamespaceIsNotAdded | pkg/parse/root_sync_parser.go:150-155 | a Namespace stamped by one decodable sync is appended by no other |
| ImplicitNamespaces.UnmanagedNamespaceIsNotAdded | pkg/parse/root_sync_parser.go:150-155 | an existing Namespace that nobody manages is not taken over |
| ImplicitNamespaces.EveryReferenceAccounted | pkg/parse/root_sync_parser.go:117-178 | every referenced Namespace is declared, appended, the controller's, somebody else's or a reported failure |
| ImplicitNamespaces.OrderDoesNotMatter | pkg/parse/root_sync_parser.go:124-134 | permuting the input changes neither set |
| ImplicitNamespaces.AddingTwiceAddsNothing | pkg/parse/root_sync_parser.go:113-178 | a second pass over the result appends nothing |
| ImplicitNamespaces.AppliedNamespaceIsAddedAgain | pkg/parse/root_sync_parser.go:150-159 | an implicit Namespace that the sync has applied is appended again on later parses |
| ImplicitNamespaces.ImplicitNamespaceIsNeverDeleted | pkg/parse/root_sync_parser.go:163-173 | an applied implicit Namespace that is no longer declared is abandoned by the reconciler its annotation decodes to and left alone by everybody else |
| StatusRetry.SetStatusWithRetries | pkg/parse/repo_sync_client.go:57-112 | for every start value and server the recursion ends, the i-th update divides by the start value times 2^i, the first answer that is not too large decides, and the denominator error means that all were while the denominator stayed a positive 64-bit integer |
| StatusRetry.SetStatus | pkg/parse/repo_sync_client.go:47-55 | from denominator 1 at most 63 updates, the i-th with denominator 2^i; the denominator error comes exactly after 63 rejections because doubling 2^62 wraps |

## Left out

- Process start-up, network clients, archives, shell commands and everything under `cmd/`, `e2e/`, `pkg/oci`, `pkg/helm`, `pkg/auth` and `pkg/bugreport`.
- Logging, error texts and metrics.
- Nil maps: an object without an annotation map and one with an empty map are the same in the model; the code treats them alike.
- Lower-casing covers ASCII letters only; kinds, groups and namespaces are ASCII.
- Crashes in the middle of a timer event, and file-system calls whose failure ends the process.
- The sync path of the hydration controller: it is set together with the source commit and determined by it.
- Kustomize itself: a build yields the complete output for the commit or fails.
- The cluster-side effect of server-side apply beyond the applied metadata: `Ownership.Actor.Step` lets every other entry change arbitrarily.
- Objects.ResourceIDExactly: requires group, kind and namespace without underscores, which the API server guarantees; names may have any character.
- Locking: the store's methods are atomic in the model, including `DeleteIgnored`, which the source runs under a read lock.
- `handleDisabledObjects` and `removeFrom`: a counting loop and a set difference; `IgnoreMutation.ObjectsToApply` takes its outcome as an input.
- HydrationSafety.EventIsSafeToRead: the reconciler's three checks look at one disk state; `HydrationReader` has them one after the other.
- HydrationSafety.ReaderGetsRenderedOutput: likewise.
- HydrationReader.ThreeReadsGetRenderedOutput: covers the reads up to resolving the link; parsing the files behind it takes longer and is not modelled.
- ResourceStore.Resources.UpdateIgnored: what the process leaves in memory when it crashes half-way is not modelled.
- The fields that the three status functions fill in before they update; only their common retry structure is modelled.
- Objects.LiveObject.SetAnnotation: aliasing between an object and a map obtained from it is not modelled; the maps are values.
- ResourceStore.Resources.DeclaredObjects: the stored objects are handed out without a copy, as in the source, so isolation is not claimed for them.
- ApplierEvents.ProblemsReportedOnce: the abandon edits of skipped deletions appear as attempts with an outcome; their effect on the object is `Metadata.AbandonObject`.
