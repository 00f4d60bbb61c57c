/** Repeating the reconcile step on one object comes to rest
    (pkg/diff/diff.go, pkg/metadata/metadata.go, pkg/applier/applier.go). */
module Convergence {
  import opened Managers
  import opened Objects
  import opened Metadata
  import opened Precedence
  import opened Diffs
  import opened Ownership

  /** The object after abandoning has nothing that a reconciler reads as
      management, and keeps the mutation annotation if it had one. */
  lemma AbandonedIsUnmanaged(o: Object, applySetID: string)
    ensures HasConfigSyncMetadata(Abandoned(o, applySetID)) <==> LIFECYCLE_MUTATION_KEY in o.annotations
    ensures HasConfigSyncMetadata(o) ==>
              && Manager(Abandoned(o, applySetID)) == ""
              && GetAnnotation(Abandoned(o, applySetID), MANAGEMENT_MODE_KEY) == ""
  {
    KeyFacts();
    if HasConfigSyncMetadata(o) {
      RemovalLeavesOnlyMutation(o);
      var r, w := Abandoned(o, applySetID), WithoutConfigSyncMetadata(o);
      assert r.annotations == w.annotations;
      assert RESOURCE_MANAGER_KEY !in r.annotations && MANAGEMENT_MODE_KEY !in r.annotations;
      assert forall k :: k in w.labels ==> !IsConfigSyncLabel(k, w.labels[k]);
      assert forall k :: k in r.labels ==> k in w.labels && r.labels[k] == w.labels[k];
    } else if LIFECYCLE_MUTATION_KEY in o.annotations {
      assert IsConfigSyncAnnotation(LIFECYCLE_MUTATION_KEY, o.annotations[LIFECYCLE_MUTATION_KEY]);
      assert false;
    }
  }

  /** Abandoning an object that is declared as disabled: the next operation is
      NoOp, or Abandon again exactly when the mutation annotation was kept, and
      then it changes nothing. */
  lemma AbandonSettles(declared: Object, actual: Object, applySetID: string, scope: Scope, name: string)
    requires IsManagementDisabled(declared)
    requires Diff(Some(declared), Some(actual)).Operation(scope, name) == Abandon
    ensures var after := Abandoned(actual, applySetID);
            && Diff(Some(declared), Some(after)).Operation(scope, name)
               == (if LIFECYCLE_MUTATION_KEY in actual.annotations then Abandon else NoOp)
            && Abandoned(after, applySetID) == after
  {
    KeyFacts();
    var after := Abandoned(actual, applySetID);
    AbandonIdempotent(actual, applySetID);
    assert HasConfigSyncMetadata(actual) by {
      if HasSameCSMetadata(declared, actual) {
        SameMetadataSameAnnotation(declared, actual, MANAGEMENT_MODE_KEY);
        assert MANAGEMENT_MODE_KEY in actual.annotations;
      }
    }
    AbandonedIsUnmanaged(actual, applySetID);
    if HasSameCSMetadata(declared, after) {
      SameMetadataSameAnnotation(declared, after, MANAGEMENT_MODE_KEY);
      assert false;
    }
  }

  /** The way a user stops management: the owner abandons an object that is declared
      as disabled, which leaves no manager and no management annotation, and then
      leaves it alone, unless the mutation annotation was kept. */
  lemma StoppingManagement(csm1: ConfigSyncMetadata, csm2: ConfigSyncMetadata, o: Object, scope: Scope, name: string)
    requires DecodableSync(scope, name) && csm1.manager == csm2.manager == ResourceManager(scope, name)
    requires !IsManagementDisabled(o)
    ensures var actual := Stamped(csm1, o);
            var declared := Stamped(csm2, o.(annotations := o.annotations[MANAGEMENT_MODE_KEY := MANAGEMENT_DISABLED]));
            var after := Abandoned(actual, csm1.applySetID);
            && Diff(Some(declared), Some(actual)).Operation(scope, name) == Abandon
            && Manager(after) == "" && GetAnnotation(after, MANAGEMENT_MODE_KEY) == ""
            && (LIFECYCLE_MUTATION_KEY !in actual.annotations ==>
                  Diff(Some(declared), Some(after)).Operation(scope, name) == NoOp)
  {
    var off := o.(annotations := o.annotations[MANAGEMENT_MODE_KEY := MANAGEMENT_DISABLED]);
    var actual, declared := Stamped(csm1, o), Stamped(csm2, off);
    StampReadsBack(csm1, o);
    StampReadsBack(csm2, off);
    DisabledExactly(declared, actual, scope, name);
    ManagedHasMetadata(actual, scope, name);
    AbandonedIsUnmanaged(actual, csm1.applySetID);
    AbandonSettles(declared, actual, csm1.applySetID, scope, name);
  }

  /** Abandoning an undeclared object is final. */
  lemma AbandonUndeclaredSettles(actual: Object, applySetID: string, scope: Scope, name: string)
    requires Diff(None, Some(actual)).Operation(scope, name) == Abandon
    ensures Diff(None, Some(Abandoned(actual, applySetID))).Operation(scope, name) == NoOp
  {
    AbandonedIsUnmanaged(actual, applySetID);
  }

  /** A stamped declaration is created exactly when its management is not
      disabled, never in error; the created object is the sync's own, and the next
      operation is NoOp if it ignores mutations and otherwise keeps watching for
      drift. */
  lemma CreateSettles(csm: ConfigSyncMetadata, o: Object, scope: Scope, name: string)
    requires csm.manager == ResourceManager(scope, name)
    ensures var declared := Stamped(csm, o);
            && Diff(Some(declared), None).Operation(scope, name) == (if IsManagementDisabled(o) then NoOp else Create)
            && (!IsManagementDisabled(o) ==>
                  && IsManager(scope, name, declared)
                  && Diff(Some(declared), Some(declared)).Operation(scope, name)
                     == (if IgnoresMutation(o) then NoOp else Update))
  {
    KeyFacts();
    StampReadsBack(csm, o);
    StampMakesManager(scope, name, csm, o);
  }

  /** After a metadata-only update the object is managed by the acting sync. */
  lemma UpdatedMayBeManaged(declared: Object, actual: Object, scope: Scope, name: string)
    requires DecodableSync(scope, name) && IsManagementEnabled(declared)
    requires GetAnnotation(declared, RESOURCE_MANAGER_KEY) == ResourceManager(scope, name)
    ensures CanManage(scope, name, MetadataUpdated(declared, actual), AdmitUpdate)
  {
    ValidScopeCharacters(scope);
    WrittenMetadata(declared, actual, scope, name);
    OwnManagerMayUpdate(scope, name, MetadataUpdated(declared, actual));
  }

  /** A metadata-only update of an object that both sides mark as ignored: the
      next operation is NoOp exactly when the object has no Config Sync key that
      is not declared; otherwise the update repeats and changes nothing. */
  lemma MetadataUpdateSettles(declared: Object, actual: Object, scope: Scope, name: string)
    requires DecodableSync(scope, name)
    requires GetAnnotation(declared, RESOURCE_MANAGER_KEY) == ResourceManager(scope, name)
    requires Diff(Some(declared), Some(actual)).Operation(scope, name) == UpdateCSMetadata
    requires IgnoresMutation(declared)
    ensures var after := MetadataUpdated(declared, actual);
            && Diff(Some(declared), Some(after)).Operation(scope, name)
               == (if CSKeysAmong(actual, declared) then NoOp else UpdateCSMetadata)
            && MetadataUpdated(declared, after) == after
  {
    KeyFacts();
    OverlayMatches(declared, actual);
    var after := MetadataUpdated(declared, actual);
    assert LIFECYCLE_MUTATION_KEY in ConfigSyncAnnotations(declared.annotations);
    assert after == WithMetadataOf(declared, actual) && IgnoresMutation(after);
    UpdatedMayBeManaged(declared, actual, scope, name);
  }

  /** When the declaration no longer asks to ignore mutations, one metadata-only
      update hands the object back to ordinary updates. */
  lemma MetadataUpdateEndsIgnoring(declared: Object, actual: Object, scope: Scope, name: string)
    requires DecodableSync(scope, name)
    requires GetAnnotation(declared, RESOURCE_MANAGER_KEY) == ResourceManager(scope, name)
    requires Diff(Some(declared), Some(actual)).Operation(scope, name) == UpdateCSMetadata
    requires !IgnoresMutation(declared)
    ensures Diff(Some(declared), Some(MetadataUpdated(declared, actual))).Operation(scope, name) == Update
  {
    KeyFacts();
    var after := MetadataUpdated(declared, actual);
    var cs := ConfigSyncAnnotations(declared.annotations);
    assert LIFECYCLE_MUTATION_KEY in declared.annotations <==> LIFECYCLE_MUTATION_KEY in cs;
    assert !IgnoresMutation(after);
    UpdatedMayBeManaged(declared, actual, scope, name);
  }
}
