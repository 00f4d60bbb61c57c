/** Which reconciler may do what to a managed object (pkg/diff/precedence.go). */
module Precedence {
  import opened Strings
  import opened Names
  import opened Managers
  import opened Objects
  import opened Metadata

  /** The admission verbs; AdmitManage stands for all of the others. */
  datatype AdmissionOp = AdmitCreate | AdmitUpdate | AdmitDelete | AdmitManage

  /** Management is enabled and the resource-id annotation was not copied from
      another object (pkg/syncer/differ/decorations.go). */
  predicate ManagedByConfigSync(o: Object) {
    IsManagementEnabled(o) && GetAnnotation(o, RESOURCE_ID_KEY) == GKNN(o.id)
  }

  predicate IsManager(scope: Scope, syncName: string, o: Object) {
    ManagedByConfigSync(o) && GetAnnotation(o, RESOURCE_MANAGER_KEY) == ResourceManager(scope, syncName)
  }

  /** ValidateManager returns no error. An undecodable manager is only logged
      and then compared like any other. */
  predicate ManagerAllows(reconciler: string, manager: string, id: ID, op: AdmissionOp) {
    if manager == "" then true
    else
      var (syncScope, syncName) := ManagerScopeAndName(manager);
      var oldReconciler := ReconcilerName(syncScope, syncName);
      if id.groupKind == ROOT_SYNC_KIND && IsReconcilerManager(reconciler) && op == AdmitUpdate then true
      else if id.groupKind == ROOT_SYNC_KIND && RootReconcilerName(id.name) == reconciler then op == AdmitUpdate
      else if id.groupKind == REPO_SYNC_KIND && IsReconcilerManager(reconciler) && op == AdmitUpdate then true
      else if id.groupKind == REPO_SYNC_KIND && NsReconcilerName(id.namespace, id.name) == reconciler then
        op == AdmitUpdate
      else if IsRootReconciler(reconciler) && syncScope != ROOT_SCOPE && op != AdmitDelete then true
      else reconciler == oldReconciler
  }

  predicate CanManage(scope: Scope, syncName: string, o: Object, op: AdmissionOp) {
    IsManagementEnabled(o) ==>
      ManagerAllows(ReconcilerName(scope, syncName), GetAnnotation(o, RESOURCE_MANAGER_KEY), o.id, op)
  }

  // What the rules amount to.

  /** The object is the RootSync or RepoSync that the reconciler runs for. */
  predicate IsOwnSync(reconciler: string, id: ID) {
    || (id.groupKind == ROOT_SYNC_KIND && RootReconcilerName(id.name) == reconciler)
    || (id.groupKind == REPO_SYNC_KIND && NsReconcilerName(id.namespace, id.name) == reconciler)
  }

  /** o is managed, and by the sync (scope, name). */
  predicate ManagedBy(o: Object, scope: Scope, name: string) {
    IsManagementEnabled(o) && GetAnnotation(o, RESOURCE_MANAGER_KEY) == ResourceManager(scope, name)
  }

  lemma SyncKindsDiffer()
    ensures ROOT_SYNC_KIND != REPO_SYNC_KIND
  {
  }

  /** The right to delete: whoever runs under the name that the annotation decodes
      to, and never on its own sync object. */
  lemma DeleteRight(scope: Scope, name: string, o: Object, mScope: Scope, mName: string)
    requires ValidScope(mScope) && ManagedBy(o, mScope, mName)
    ensures CanManage(scope, name, o, AdmitDelete)
            <==> ReconcilerName(scope, name) == ReconcilerName(mScope, DecodedName(mScope, mName))
                 && !IsOwnSync(ReconcilerName(scope, name), o.id)
  {
    DecodeOfEncode(mScope, mName);
    ValidScopeCharacters(mScope);
    SyncKindsDiffer();
  }

  /** The right to update: whoever runs under the name that the annotation decodes
      to; a root reconciler when the annotation is a namespace sync's; and every
      reconciler on its own sync object. */
  lemma UpdateRight(scope: Scope, name: string, o: Object, mScope: Scope, mName: string)
    requires ValidScope(mScope) && ManagedBy(o, mScope, mName)
    ensures CanManage(scope, name, o, AdmitUpdate)
            <==> || ReconcilerName(scope, name) == ReconcilerName(mScope, DecodedName(mScope, mName))
                 || (scope == ROOT_SCOPE && mScope != ROOT_SCOPE)
                 || IsOwnSync(ReconcilerName(scope, name), o.id)
  {
    DecodeOfEncode(mScope, mName);
    ValidScopeCharacters(mScope);
    ReconcilerNameKind(scope, name);
    SyncKindsDiffer();
  }

  /** The owner itself may delete exactly if its annotation is decodable. */
  lemma OwnManagerMayDelete(scope: Scope, name: string, o: Object)
    requires ValidScope(scope) && ManagedBy(o, scope, name)
    ensures CanManage(scope, name, o, AdmitDelete)
            <==> DecodableSync(scope, name) && !IsOwnSync(ReconcilerName(scope, name), o.id)
  {
    DeleteRight(scope, name, o, scope, name);
    ManagerNamesItsReconciler(scope, name);
    DecodeOfEncode(scope, name);
  }

  /** A reconciler whose own manager string is on the object may update it
      exactly when that string is decodable (or the object is its own sync):
      a RootSync called repo-sync locks itself out of what it manages. */
  lemma OwnManagerMayUpdate(scope: Scope, name: string, o: Object)
    requires ValidScope(scope) && ManagedBy(o, scope, name)
    ensures CanManage(scope, name, o, AdmitUpdate)
            <==> DecodableSync(scope, name) || IsOwnSync(ReconcilerName(scope, name), o.id)
  {
    ManagerNamesItsReconciler(scope, name);
    DecodeOfEncode(scope, name);
    ValidScopeCharacters(scope);
    ReconcilerNameKind(scope, name);
    SyncKindsDiffer();
  }

  /** What updateType's comment relies on: an object with the metadata of a
      declaration that was stamped for (scope, name) may be updated by it. */
  lemma SameMetadataMayUpdate(scope: Scope, name: string, declared: Object, actual: Object)
    requires ValidScope(scope)
    requires GetAnnotation(declared, RESOURCE_MANAGER_KEY) == ResourceManager(scope, name)
    requires HasSameCSMetadata(declared, actual)
    ensures CanManage(scope, name, actual, AdmitUpdate)
            <==> || !IsManagementEnabled(declared)
                 || DecodableSync(scope, name)
                 || IsOwnSync(ReconcilerName(scope, name), actual.id)
  {
    KeyFacts();
    SameMetadataSameAnnotation(declared, actual, RESOURCE_MANAGER_KEY);
    SameMetadataSameAnnotation(declared, actual, MANAGEMENT_MODE_KEY);
    if IsManagementEnabled(actual) {
      OwnManagerMayUpdate(scope, name, actual);
    }
  }

  /** A manager annotation that no sync writes does not set the object free,
      although the source's comment says so: its scope is not the root scope, so a
      root reconciler may adopt it, but to a namespace reconciler it is just
      somebody else's. */
  lemma InvalidManagerIsNotFree(scope: Scope, name: string, o: Object)
    requires IsManagementEnabled(o) && GetAnnotation(o, RESOURCE_MANAGER_KEY) != ""
    requires !ValidScope(ManagerScopeAndName(GetAnnotation(o, RESOURCE_MANAGER_KEY)).0)
    ensures CanManage(scope, name, o, AdmitUpdate)
            <==> || scope == ROOT_SCOPE
                 || ReconcilerName(scope, name) == ManagerReconciler(GetAnnotation(o, RESOURCE_MANAGER_KEY))
                 || IsOwnSync(ReconcilerName(scope, name), o.id)
  {
  }

  /** Such an object: nobody's, by its annotation, yet closed to a namespace. */
  lemma InvalidManagerLocksOut(o: Object)
    requires IsManagementEnabled(o) && GetAnnotation(o, RESOURCE_MANAGER_KEY) == ":b"
    requires o.id.groupKind == NAMESPACE_KIND
    ensures !ValidScope(ManagerScopeAndName(":b").0)
    ensures !CanManage("a", REPO_SYNC_NAME, o, AdmitUpdate)
  {
    SplitWhole(":b", '_');
    assert ManagerScopeAndName(":b") == (":b", REPO_SYNC_NAME);
    assert |":b"| != |ROOT_SCOPE|;
    if ValidScope(":b") {
      ValidScopeCharacters(":b");
    }
    InvalidManagerIsNotFree("a", REPO_SYNC_NAME, o);
    assert |ReconcilerName("a", REPO_SYNC_NAME)| < |ReconcilerName(":b", REPO_SYNC_NAME)|;
  }

  /** The reconciler manager may update every RootSync and RepoSync, and nothing
      else that a sync manages. */
  lemma ReconcilerManagerRights(mScope: Scope, mName: string, id: ID, op: AdmissionOp)
    requires ValidScope(mScope)
    ensures ManagerAllows(RECONCILER_MANAGER, ResourceManager(mScope, mName), id, op)
            <==> op == AdmitUpdate && (id.groupKind == ROOT_SYNC_KIND || id.groupKind == REPO_SYNC_KIND)
  {
    DecodeOfEncode(mScope, mName);
    ValidScopeCharacters(mScope);
    ReconcilerNameKind(mScope, DecodedName(mScope, mName));
    ReconcilerKindsDisjoint(id.name, id.namespace, id.name);
    ReconcilerManagerIsNotRoot();
    SyncKindsDiffer();
  }

  /** A stamped object is managed by the sync it was stamped for. */
  lemma StampMakesManager(scope: Scope, name: string, csm: ConfigSyncMetadata, o: Object)
    requires csm.manager == ResourceManager(scope, name)
    ensures IsManager(scope, name, Stamped(csm, o)) <==> !IsManagementDisabled(o)
  {
  }
}
