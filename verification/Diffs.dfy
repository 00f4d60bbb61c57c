/** Deciding what to do about the difference between a declaration and the
    cluster (pkg/diff/diff.go). */
module Diffs {
  import opened Names
  import opened Managers
  import opened Objects
  import opened Metadata
  import opened Precedence
  import opened OrderedMaps

  datatype Operation =
    | NoOp
    | Create
    | Update
    | Delete
    | Error
    | Abandon
    | ManagementConflict
    | UpdateCSMetadata

  /** Namespaces that are never removed (pkg/syncer/differ/special_namespaces.go). */
  const SPECIAL_NAMESPACES := {"default", "kube-system", "kube-public", "kube-node-lease", "gatekeeper-system"}

  predicate IsManageableSystemNamespace(o: Object) {
    o.id.groupKind == NAMESPACE_KIND && o.id.name in SPECIAL_NAMESPACES
  }

  function CreateType(declared: Object): Operation {
    if IsManagementEnabled(declared) then Create
    else if IsManagementDisabled(declared) then NoOp
    else Error
  }

  function UpdateType(declared: Object, actual: Object, scope: Scope, syncName: string): Operation {
    var canManage := CanManage(scope, syncName, actual, AdmitUpdate);
    var ignoreMutation := IgnoresMutation(actual);
    if HasSameCSMetadata(declared, actual) then
      if IsManagementDisabled(declared) then Abandon
      else if ignoreMutation then NoOp
      else Update
    else if IsManagementEnabled(declared) then
      if !canManage then ManagementConflict
      else if ignoreMutation then UpdateCSMetadata
      else Update
    else if IsManagementDisabled(declared) then
      var manager := GetAnnotation(actual, RESOURCE_MANAGER_KEY);
      if canManage && HasConfigSyncMetadata(actual) && (manager == "" || manager == ResourceManager(scope, syncName))
      then Abandon else NoOp
    else Error
  }

  function DeleteType(actual: Object, scope: Scope, syncName: string): Operation {
    if !HasConfigSyncMetadata(actual) then NoOp
    else if actual.ownerReferences > 0 then NoOp
    else if !CanManage(scope, syncName, actual, AdmitDelete) then NoOp
    else if !ManagedByConfigSync(actual) then NoOp
    else if HasPreventDeletion(actual) then Abandon
    else if IsManageableSystemNamespace(actual) then Abandon
    else Delete
  }

  datatype Diff = Diff(declared: Option<Object>, actual: Option<Object>) {

    function Operation(scope: Scope, syncName: string): Operation {
      match (declared, actual)
      case (Some(d), None) => CreateType(d)
      case (Some(d), Some(a)) => UpdateType(d, a, scope, syncName)
      case (None, Some(a)) => DeleteType(a, scope, syncName)
      case (None, None) => NoOp
    }
  }

  lemma ManagedHasMetadata(o: Object, mScope: Scope, mName: string)
    requires ManagedBy(o, mScope, mName)
    ensures HasConfigSyncMetadata(o)
  {
    KeyFacts();
    assert MANAGEMENT_MODE_KEY in o.annotations;
  }

  /** The acting reconciler runs under the name that the annotation decodes to,
      the object is no sync of its own, and nothing suggests a copied annotation. */
  predicate MayLetGo(actual: Object, scope: Scope, name: string, mScope: Scope, mName: string) {
    && ReconcilerName(scope, name) == ReconcilerName(mScope, DecodedName(mScope, mName))
    && !IsOwnSync(ReconcilerName(scope, name), actual.id)
    && GetAnnotation(actual, RESOURCE_ID_KEY) == GKNN(actual.id)
    && actual.ownerReferences == 0
  }

  /** Exactly what happens to an undeclared managed object: it is deleted, or
      abandoned if it must not be deleted, by the reconciler that the annotation
      decodes to, and left alone by everybody else. */
  lemma DeleteOnlyByOwner(actual: Object, scope: Scope, name: string, mScope: Scope, mName: string)
    requires ValidScope(mScope) && ManagedBy(actual, mScope, mName)
    ensures Diff(None, Some(actual)).Operation(scope, name)
            == if !MayLetGo(actual, scope, name, mScope, mName) then NoOp
               else if HasPreventDeletion(actual) || IsManageableSystemNamespace(actual) then Abandon
               else Delete
  {
    DeleteRight(scope, name, actual, mScope, mName);
    ManagedHasMetadata(actual, mScope, mName);
  }

  /** A root reconciler deletes, or abandons as undeclared, only what the annotation
      says is its own sync's, and nobody else does that to what a root sync
      manages. Two namespace reconcilers can only be confused by a shared name. */
  lemma UndeclaredObjectsAreTheOwners(actual: Object, scope: Scope, name: string, mScope: Scope, mName: string)
    requires ValidScope(mScope) && ManagedBy(actual, mScope, mName)
    requires Diff(None, Some(actual)).Operation(scope, name) != NoOp
    ensures var decoded := DecodedName(mScope, mName);
            && (scope == ROOT_SCOPE || mScope == ROOT_SCOPE ==> scope == mScope && name == decoded)
            && ((scope == mScope && name == decoded)
                || DefaultMeetsCustom(scope, name, mScope, decoded)
                || DefaultMeetsCustom(mScope, decoded, scope, name))
            && (decoded == mName <==> DecodableSync(mScope, mName))
  {
    DecodedNameIsName(mScope, mName);
    DeleteOnlyByOwner(actual, scope, name, mScope, mName);
    ReconcilerNameCollision(scope, name, mScope, DecodedName(mScope, mName));
  }

  /** The annotations of a stamped object, copied to another one, make it nobody's,
      and no reconciler deletes or abandons it. */
  lemma CopiedAnnotationsAreNobodys(csm: ConfigSyncMetadata, o: Object, copy: ID, scope: Scope, name: string)
    requires WellFormed(o.id) && WellFormed(copy)
    requires !SameResource(o.id, copy) && !SpelledAlike(o.id, copy) && !SpelledAlike(copy, o.id)
    ensures !IsManager(scope, name, Stamped(csm, o).(id := copy))
    ensures Diff(None, Some(Stamped(csm, o).(id := copy))).Operation(scope, name) == NoOp
  {
    StampReadsBack(csm, o);
    ResourceIDExactly(o.id, copy);
    assert GetAnnotation(Stamped(csm, o).(id := copy), RESOURCE_ID_KEY) == GKNN(o.id);
  }

  /** Exactly when an object that is declared as disabled is abandoned: its metadata
      is as declared, or it has Config Sync metadata with no manager or with the
      sync's own, and in the latter case the sync may touch it. */
  lemma DisabledExactly(declared: Object, actual: Object, scope: Scope, name: string)
    requires ValidScope(scope) && IsManagementDisabled(declared)
    ensures var manager := GetAnnotation(actual, RESOURCE_MANAGER_KEY);
            Diff(Some(declared), Some(actual)).Operation(scope, name)
            == if || HasSameCSMetadata(declared, actual)
                  || (HasConfigSyncMetadata(actual) && manager == "")
                  || (manager == ResourceManager(scope, name)
                      && (!IsManagementEnabled(actual) || DecodableSync(scope, name)
                          || IsOwnSync(ReconcilerName(scope, name), actual.id)))
               then Abandon else NoOp
  {
    KeyFacts();
    ValidScopeCharacters(scope);
    if GetAnnotation(actual, RESOURCE_MANAGER_KEY) == ResourceManager(scope, name) {
      assert RESOURCE_MANAGER_KEY in actual.annotations;
      assert HasConfigSyncMetadata(actual);
      if IsManagementEnabled(actual) {
        OwnManagerMayUpdate(scope, name, actual);
      }
    }
  }

  /** The object is not managed, or by nobody in particular. */
  predicate IsFree(o: Object) {
    !IsManagementEnabled(o) || GetAnnotation(o, RESOURCE_MANAGER_KEY) == ""
  }

  /** Declaring a free object takes it over, its body only if it does not ignore
      mutations; if nothing about its metadata changes, an ignoring one is at rest. */
  lemma FreeObjectIsTaken(declared: Object, actual: Object, scope: Scope, name: string)
    requires IsManagementEnabled(declared) && IsFree(actual)
    ensures Diff(Some(declared), Some(actual)).Operation(scope, name)
            == if !IgnoresMutation(actual) then Update
               else if HasSameCSMetadata(declared, actual) then NoOp else UpdateCSMetadata
  {
    KeyFacts();
  }

  /** Neither declared nor on the cluster: there is nothing to do. */
  lemma NothingToDo(scope: Scope, name: string)
    ensures Diff(None, None).Operation(scope, name) == NoOp
  {
  }

  /** Of the undeclared Namespaces that a sync may let go, only the special ones and
      those that must not be deleted are abandoned; ordinary ones are deleted. */
  lemma UndeclaredNamespace(actual: Object, scope: Scope, name: string, mScope: Scope, mName: string)
    requires ValidScope(mScope) && ManagedBy(actual, mScope, mName) && MayLetGo(actual, scope, name, mScope, mName)
    requires actual.id.groupKind == NAMESPACE_KIND && GetAnnotation(actual, LIFECYCLE_DELETE_KEY) != PREVENT_DELETION
    ensures Diff(None, Some(actual)).Operation(scope, name)
            == if actual.id.name in SPECIAL_NAMESPACES then Abandon else Delete
  {
    DeleteOnlyByOwner(actual, scope, name, mScope, mName);
  }

  /** A declaration whose management annotation is neither is an error, unless the
      cluster has just that. */
  lemma UndecidedDeclaration(declared: Object, actual: Object, scope: Scope, name: string)
    requires !IsManagementEnabled(declared) && !IsManagementDisabled(declared)
    ensures Diff(Some(declared), None).Operation(scope, name) == Error
    ensures Diff(Some(declared), Some(actual)).Operation(scope, name)
            == if !HasSameCSMetadata(declared, actual) then Error else if IgnoresMutation(actual) then NoOp else Update
  {
  }

  // A sync whose annotation decodes to another one, such as a RootSync called
  // repo-sync. It is at war with itself, and another sync deletes what it leaves.

  /** Whatever it has stamped is in conflict with its next stamp. */
  lemma UndecodableSyncConflictsWithItself(scope: Scope, name: string, o: Object,
                                           csm1: ConfigSyncMetadata, csm2: ConfigSyncMetadata)
    requires ValidScope(scope) && !DecodableSync(scope, name)
    requires csm1.manager == csm2.manager == ResourceManager(scope, name) && csm1.sourceHash != csm2.sourceHash
    requires !IsManagementDisabled(o) && !IsOwnSync(ReconcilerName(scope, name), o.id)
    ensures Diff(Some(Stamped(csm2, o)), Some(Stamped(csm1, o))).Operation(scope, name) == ManagementConflict
  {
    StampReadsBack(csm1, o);
    StampReadsBack(csm2, o);
    OwnManagerMayUpdate(scope, name, Stamped(csm1, o));
    if HasSameCSMetadata(Stamped(csm2, o), Stamped(csm1, o)) {
      KeyFacts();
      SameMetadataSameAnnotation(Stamped(csm2, o), Stamped(csm1, o), SYNC_TOKEN_KEY);
    }
  }

  /** What it no longer declares it leaves alone, and the sync that its annotation
      decodes to deletes it. */
  lemma UndecodableSyncLosesObjects(scope: Scope, name: string, o: Object, csm: ConfigSyncMetadata)
    requires ValidScope(scope) && !DecodableSync(scope, name) && csm.manager == ResourceManager(scope, name)
    requires !IsManagementDisabled(o) && o.ownerReferences == 0
    requires !HasPreventDeletion(o) && !IsManageableSystemNamespace(o)
    requires !IsOwnSync(ReconcilerName(scope, DecodedName(scope, name)), o.id)
    ensures Diff(None, Some(Stamped(csm, o))).Operation(scope, name) == NoOp
    ensures Diff(None, Some(Stamped(csm, o))).Operation(scope, DecodedName(scope, name)) == Delete
  {
    var s := Stamped(csm, o);
    StampReadsBack(csm, o);
    KeyFacts();
    OwnManagerMayDelete(scope, name, s);
    DeleteOnlyByOwner(s, scope, DecodedName(scope, name), scope, name);
  }

  /** The RootSync called repo-sync, on any plain object: it reports a conflict with
      itself, and the default RootSync deletes what it leaves. */
  lemma RootSyncCalledRepoSync(o: Object, csm1: ConfigSyncMetadata, csm2: ConfigSyncMetadata)
    requires csm1.manager == csm2.manager == ResourceManager(ROOT_SCOPE, REPO_SYNC_NAME)
    requires csm1.sourceHash != csm2.sourceHash
    requires o.annotations == map[] && o.ownerReferences == 0
    requires o.id.groupKind !in {ROOT_SYNC_KIND, REPO_SYNC_KIND, NAMESPACE_KIND}
    ensures Diff(Some(Stamped(csm2, o)), Some(Stamped(csm1, o))).Operation(ROOT_SCOPE, REPO_SYNC_NAME)
            == ManagementConflict
    ensures Diff(None, Some(Stamped(csm1, o))).Operation(ROOT_SCOPE, REPO_SYNC_NAME) == NoOp
    ensures Diff(None, Some(Stamped(csm1, o))).Operation(ROOT_SCOPE, ROOT_SYNC_NAME) == Delete
  {
    assert !IsManagementDisabled(o) && !HasPreventDeletion(o);
    UndecodableSyncConflictsWithItself(ROOT_SCOPE, REPO_SYNC_NAME, o, csm1, csm2);
    UndecodableSyncLosesObjects(ROOT_SCOPE, REPO_SYNC_NAME, o, csm1);
  }

  /** What is known about an object on the cluster. */
  datatype State = Known(obj: Object) | Unknown

  type ObjectMap = map<ID, Object>
  type StateMap = map<ID, State>

  /** Every object is filed under its own id. */
  predicate Keyed(m: ObjectMap) {
    forall id :: id in m ==> m[id].id == id
  }

  /** The one diff that an id calls for, if any. */
  function DiffFor(id: ID, newDeclared: ObjectMap, previous: ObjectMap, actual: StateMap): Option<Diff> {
    if id in newDeclared then
      if id !in actual then Some(Diff(Some(newDeclared[id]), None))
      else if actual[id].Unknown? then None
      else Some(Diff(Some(newDeclared[id]), Some(actual[id].obj)))
    else if id in previous then Some(Diff(None, Some(previous[id])))
    else None
  }

  predicate HasSubject(d: Diff) {
    d.declared.Some? || d.actual.Some?
  }

  /** The id that a diff is about. */
  function Subject(d: Diff): ID
    requires HasSubject(d)
  {
    if d.declared.Some? then d.declared.value.id else d.actual.value.id
  }

  /** The diffs that the ids call for, in the order of the ids. */
  function DiffsFor(ids: seq<ID>, newDeclared: ObjectMap, previous: ObjectMap, actual: StateMap): seq<Diff> {
    if ids == [] then []
    else
      var last, init := ids[|ids| - 1], DiffsFor(ids[..|ids| - 1], newDeclared, previous, actual);
      var d := DiffFor(last, newDeclared, previous, actual);
      if d.Some? then init + [d.value] else init
  }

  /** Every id that is or was declared, once. */
  ghost predicate Visits(order: seq<ID>, newDeclared: ObjectMap, previous: ObjectMap) {
    Distinct(order) && forall id :: id in order <==> id in newDeclared || id in previous
  }

  /** Iteration over the maps visits the ids in some order, which is the order of
      the diffs. */
  method CollectDiffs(newDeclared: ObjectMap, previousDeclared: ObjectMap, actual: StateMap) returns (diffs: seq<Diff>)
    ensures exists order :: Visits(order, newDeclared, previousDeclared)
                            && diffs == DiffsFor(order, newDeclared, previousDeclared, actual)
  {
    diffs := [];
    ghost var order: seq<ID> := [];
    // Delete.
    var todo := previousDeclared.Keys;
    while todo != {}
      invariant diffs == DiffsFor(order, newDeclared, previousDeclared, actual)
      invariant Distinct(order)
      invariant todo <= previousDeclared.Keys
      invariant forall id :: id in order <==> id in previousDeclared && id !in newDeclared && id !in todo
      decreases |todo|
    {
      var id :| id in todo;
      todo := todo - {id};
      if id !in newDeclared {
        diffs := diffs + [Diff(None, Some(previousDeclared[id]))];
        assert (order + [id])[..|order|] == order;
        order := order + [id];
      }
    }
    // Create and Update.
    todo := newDeclared.Keys;
    while todo != {}
      invariant diffs == DiffsFor(order, newDeclared, previousDeclared, actual)
      invariant Distinct(order)
      invariant todo <= newDeclared.Keys
      invariant forall id :: id in order <==> (id in newDeclared || id in previousDeclared) && id !in todo
      decreases |todo|
    {
      var id :| id in todo;
      todo := todo - {id};
      if id !in actual {
        diffs := diffs + [Diff(Some(newDeclared[id]), None)];
      } else if actual[id].Known? {
        diffs := diffs + [Diff(Some(newDeclared[id]), Some(actual[id].obj))];
      }
      assert (order + [id])[..|order|] == order;
      order := order + [id];
    }
    assert Visits(order, newDeclared, previousDeclared);
  }

  /** The diffs have subjects, no two of them the same. */
  predicate DistinctSubjects(diffs: seq<Diff>) {
    && (forall d :: d in diffs ==> HasSubject(d))
    && (forall i, j :: 0 <= i < j < |diffs| ==> Subject(diffs[i]) != Subject(diffs[j]))
  }

  /** There is at most one diff per id, and it is the one the id calls for. */
  lemma {:induction false} OneDiffPerID(ids: seq<ID>, newDeclared: ObjectMap, previous: ObjectMap, actual: StateMap)
    requires Keyed(newDeclared) && Keyed(previous) && Distinct(ids)
    ensures DistinctSubjects(DiffsFor(ids, newDeclared, previous, actual))
    ensures forall d :: d in DiffsFor(ids, newDeclared, previous, actual) ==>
              Subject(d) in ids && DiffFor(Subject(d), newDeclared, previous, actual) == Some(d)
  {
    if ids != [] {
      var last, init := ids[|ids| - 1], ids[..|ids| - 1];
      OneDiffPerID(init, newDeclared, previous, actual);
      assert last !in init && forall id :: id in init ==> id in ids;
      var d := DiffFor(last, newDeclared, previous, actual);
      var inits, diffs := DiffsFor(init, newDeclared, previous, actual), DiffsFor(ids, newDeclared, previous, actual);
      if d.Some? {
        assert diffs == inits + [d.value] && Subject(d.value) == last;
        assert forall i :: 0 <= i < |inits| ==> diffs[i] == inits[i] && inits[i] in inits;
      }
    }
  }

  /** Carrying one diff out: write the declaration, or remove the object. */
  function Execute(d: Diff, cluster: StateMap): StateMap
    requires HasSubject(d)
  {
    if d.declared.Some? then cluster[Subject(d) := Known(d.declared.value)] else cluster - {Subject(d)}
  }

  function ExecuteAll(diffs: seq<Diff>, cluster: StateMap): StateMap
    requires forall i :: 0 <= i < |diffs| ==> HasSubject(diffs[i])
  {
    if diffs == [] then cluster else Execute(diffs[|diffs| - 1], ExecuteAll(diffs[..|diffs| - 1], cluster))
  }

  function StateOf(cluster: StateMap, id: ID): Option<State> {
    if id in cluster then Some(cluster[id]) else None
  }

  /** The state of an id once its diff, if there is one, is carried out. */
  function Settled(id: ID, newDeclared: ObjectMap, previous: ObjectMap, actual: StateMap): Option<State> {
    match DiffFor(id, newDeclared, previous, actual)
    case None => StateOf(actual, id)
    case Some(d) => if d.declared.Some? then Some(Known(d.declared.value)) else None
  }

  lemma ExecuteOneMore(diffs: seq<Diff>, d: Diff, cluster: StateMap)
    requires HasSubject(d) && forall i :: 0 <= i < |diffs| ==> HasSubject(diffs[i])
    ensures ExecuteAll(diffs + [d], cluster) == Execute(d, ExecuteAll(diffs, cluster))
  {
  }

  lemma ExecuteAt(d: Diff, cluster: StateMap, id: ID)
    requires HasSubject(d)
    ensures StateOf(Execute(d, cluster), id)
            == if id != Subject(d) then StateOf(cluster, id)
               else if d.declared.Some? then Some(Known(d.declared.value)) else None
  {
  }

  /** The diff of one more id settles that id and touches no other. */
  lemma VisitOneMore(ids: seq<ID>, id: ID, newDeclared: ObjectMap, previous: ObjectMap, actual: StateMap)
    requires Keyed(newDeclared) && Keyed(previous) && Distinct(ids) && ids != []
    requires DistinctSubjects(DiffsFor(ids, newDeclared, previous, actual))
    requires DistinctSubjects(DiffsFor(ids[..|ids| - 1], newDeclared, previous, actual))
    ensures var before := ExecuteAll(DiffsFor(ids[..|ids| - 1], newDeclared, previous, actual), actual);
            var last := ids[|ids| - 1];
            StateOf(ExecuteAll(DiffsFor(ids, newDeclared, previous, actual), actual), id)
            == if id == last && DiffFor(last, newDeclared, previous, actual).Some?
               then Settled(id, newDeclared, previous, actual) else StateOf(before, id)
  {
    var last, init := ids[|ids| - 1], DiffsFor(ids[..|ids| - 1], newDeclared, previous, actual);
    var d := DiffFor(last, newDeclared, previous, actual);
    if d.Some? {
      assert Subject(d.value) == last;
      ExecuteOneMore(init, d.value, actual);
      ExecuteAt(d.value, ExecuteAll(init, actual), id);
    }
  }

  /** The diffs of distinct ids act independently. */
  lemma {:induction false} ExecuteVisited(ids: seq<ID>, id: ID, newDeclared: ObjectMap, previous: ObjectMap,
                                          actual: StateMap)
    requires Keyed(newDeclared) && Keyed(previous) && Distinct(ids)
    requires DistinctSubjects(DiffsFor(ids, newDeclared, previous, actual))
    ensures StateOf(ExecuteAll(DiffsFor(ids, newDeclared, previous, actual), actual), id)
            == if id in ids then Settled(id, newDeclared, previous, actual) else StateOf(actual, id)
  {
    if ids != [] {
      var last, init := ids[|ids| - 1], ids[..|ids| - 1];
      OneDiffPerID(init, newDeclared, previous, actual);
      ExecuteVisited(init, id, newDeclared, previous, actual);
      VisitOneMore(ids, id, newDeclared, previous, actual);
      assert ids == init + [last] && last !in init;
    }
  }

  /** What a three-way diff leads to: declared ids whose state is not unknown are as
      declared, ids no longer declared are gone, and every other id is untouched. */
  function Target(id: ID, newDeclared: ObjectMap, previous: ObjectMap, actual: StateMap): Option<State> {
    if id in newDeclared && StateOf(actual, id) != Some(Unknown) then Some(Known(newDeclared[id]))
    else if id in previous && id !in newDeclared then None
    else StateOf(actual, id)
  }

  lemma SettledIsTarget(id: ID, newDeclared: ObjectMap, previous: ObjectMap, actual: StateMap)
    ensures Target(id, newDeclared, previous, actual)
            == if id in newDeclared || id in previous then Settled(id, newDeclared, previous, actual)
               else StateOf(actual, id)
  {
  }

  /** Executing a three-way diff, in whatever order its diffs come, leads there. */
  lemma ThreeWayConverges(order: seq<ID>, newDeclared: ObjectMap, previous: ObjectMap, actual: StateMap)
    requires Keyed(newDeclared) && Keyed(previous)
    requires Visits(order, newDeclared, previous)
    ensures DistinctSubjects(DiffsFor(order, newDeclared, previous, actual))
    ensures forall id: ID :: StateOf(ExecuteAll(DiffsFor(order, newDeclared, previous, actual), actual), id)
                             == Target(id, newDeclared, previous, actual)
  {
    OneDiffPerID(order, newDeclared, previous, actual);
    forall id: ID
      ensures StateOf(ExecuteAll(DiffsFor(order, newDeclared, previous, actual), actual), id)
              == Target(id, newDeclared, previous, actual)
    {
      ExecuteVisited(order, id, newDeclared, previous, actual);
      SettledIsTarget(id, newDeclared, previous, actual);
    }
  }

  /** The diffs that the ids call for in some order; of maps that file objects under
      their ids, one for each id, and carrying them out leads to the target. */
  method ThreeWay(newDeclared: ObjectMap, previousDeclared: ObjectMap, actual: StateMap) returns (diffs: seq<Diff>)
    ensures exists order :: Visits(order, newDeclared, previousDeclared)
                            && diffs == DiffsFor(order, newDeclared, previousDeclared, actual)
    ensures Keyed(newDeclared) && Keyed(previousDeclared) ==>
              && DistinctSubjects(diffs)
              && forall id: ID :: StateOf(ExecuteAll(diffs, actual), id)
                                  == Target(id, newDeclared, previousDeclared, actual)
  {
    diffs := CollectDiffs(newDeclared, previousDeclared, actual);
    if Keyed(newDeclared) && Keyed(previousDeclared) {
      ghost var order :| Visits(order, newDeclared, previousDeclared)
                         && diffs == DiffsFor(order, newDeclared, previousDeclared, actual);
      ThreeWayConverges(order, newDeclared, previousDeclared, actual);
    }
  }
}
