/** Who owns an object over a whole run: many reconcilers act on one object of
    the cluster, each only as its Diff operation allows
    (pkg/diff/precedence.go, pkg/diff/diff.go, pkg/remediator/reconcile/reconciler.go). */
module Ownership {
  import opened Names
  import opened Managers
  import opened Objects
  import opened Metadata
  import opened Precedence
  import opened Diffs

  /** Applying wanted to the cluster leaves every declared annotation and label
      as declared; entries of other owners may come, stay or go. */
  predicate Applied(wanted: Object, before: Object, after: Object) {
    && after.id == before.id
    && (forall k :: k in wanted.annotations ==> k in after.annotations && after.annotations[k] == wanted.annotations[k])
    && (forall k :: k in wanted.labels ==> k in after.labels && after.labels[k] == wanted.labels[k])
  }

  /** The object that a metadata-only update asks for: the actual object with the
      declared Config Sync metadata, and with the mutation annotation cleared if
      it is no longer declared. */
  function MetadataUpdated(declared: Object, actual: Object): Object {
    var expected := WithMetadataOf(declared, actual);
    if GetAnnotation(declared, LIFECYCLE_MUTATION_KEY) == "" && IgnoresMutation(expected)
    then expected.(annotations := expected.annotations[LIFECYCLE_MUTATION_KEY := ""])
    else expected
  }

  /** Besides the overlay, only an object that ignores mutations without being asked to
      any more is changed, and only in that annotation. */
  lemma MetadataUpdatedExactly(declared: Object, actual: Object)
    ensures var overlaid := WithMetadataOf(declared, actual);
            MetadataUpdated(declared, actual)
            == if IgnoresMutation(actual) && LIFECYCLE_MUTATION_KEY !in declared.annotations
               then overlaid.(annotations := overlaid.annotations[LIFECYCLE_MUTATION_KEY := ""])
               else overlaid
  {
    KeyFacts();
    var cs := ConfigSyncAnnotations(declared.annotations);
    assert LIFECYCLE_MUTATION_KEY in declared.annotations <==> LIFECYCLE_MUTATION_KEY in cs;
  }

  /** A reconciler together with what it declares for the object. */
  datatype Actor = Actor(scope: Scope, name: string, declared: Option<Object>) {
    function Reconciler(): string {
      ReconcilerName(scope, name)
    }

    /** The declaration is for this object and was stamped for this sync. */
    predicate Stamps(id: ID) {
      && DecodableSync(scope, name)
      && (declared.Some? ==>
            && declared.value.id == id
            && GetAnnotation(declared.value, RESOURCE_MANAGER_KEY) == ResourceManager(scope, name))
    }

    /** One reconcile step that leaves the object on the cluster and managed. */
    predicate Step(before: Object, after: Object) {
      match Diff(declared, Some(before)).Operation(scope, name)
      case Update => declared.Some? && Applied(declared.value, before, after)
      case UpdateCSMetadata => declared.Some? && Applied(MetadataUpdated(declared.value, before), before, after)
      case NoOp => after == before
      case ManagementConflict => after == before
      case Error => after == before
      case Create => false
      case Delete => false
      case Abandon => false
    }
  }

  function Manager(o: Object): string {
    GetAnnotation(o, RESOURCE_MANAGER_KEY)
  }

  /** The reconciler that owns the object. */
  function Owner(o: Object): string {
    ManagerReconciler(Manager(o))
  }

  /** Management is enabled, the manager annotation is one that some decodable
      sync writes, and the object is no RootSync or RepoSync. */
  predicate Owned(o: Object) {
    var (scope, name) := ManagerScopeAndName(Manager(o));
    && DecodableSync(scope, name)
    && ManagedBy(o, scope, name)
    && o.id.groupKind != ROOT_SYNC_KIND
    && o.id.groupKind != REPO_SYNC_KIND
  }

  /** The one transfer that may happen. */
  predicate Adopts(from: string, to: string) {
    !IsRootReconciler(from) && IsRootReconciler(to)
  }

  lemma OwnerKind(o: Object)
    requires Owned(o)
    ensures IsRootReconciler(Owner(o)) <==> ManagerScopeAndName(Manager(o)).0 == ROOT_SCOPE
  {
    var (scope, name) := ManagerScopeAndName(Manager(o));
    ReconcilerNameKind(scope, name);
  }

  /** An object that carries an actor's manager string is owned by the actor. */
  lemma StampedIsOwned(o: Object, actor: Actor)
    requires DecodableSync(actor.scope, actor.name) && ManagedBy(o, actor.scope, actor.name)
    requires o.id.groupKind != ROOT_SYNC_KIND && o.id.groupKind != REPO_SYNC_KIND
    ensures Owned(o) && Owner(o) == actor.Reconciler()
  {
    ManagerRoundTrip(actor.scope, actor.name);
  }

  /** Exactly when a declared, enabled object is in conflict: somebody else owns
      it and this is not a root reconciler facing a namespace reconciler. */
  lemma ConflictExactly(actor: Actor, o: Object)
    requires Owned(o) && actor.Stamps(o.id)
    requires actor.declared.Some? && IsManagementEnabled(actor.declared.value)
    ensures Diff(actor.declared, Some(o)).Operation(actor.scope, actor.name) == ManagementConflict
            <==> actor.Reconciler() != Owner(o) && !Adopts(Owner(o), actor.Reconciler())
    ensures Diff(actor.declared, Some(o)).Operation(actor.scope, actor.name)
            in {ManagementConflict, Update, UpdateCSMetadata, NoOp}
  {
    var declared := actor.declared.value;
    var (scope, name) := ManagerScopeAndName(Manager(o));
    KeyFacts();
    UpdateRight(actor.scope, actor.name, o, scope, name);
    DecodedNameIsName(scope, name);
    OwnerKind(o);
    ReconcilerNameKind(actor.scope, actor.name);
    if HasSameCSMetadata(declared, o) {
      SameMetadataSameAnnotation(declared, o, RESOURCE_MANAGER_KEY);
      ManagerNamesItsReconciler(actor.scope, actor.name);
    }
  }

  lemma OwnedHasManager(o: Object)
    requires Owned(o)
    ensures Manager(o) != ""
  {
    ValidScopeCharacters(ManagerScopeAndName(Manager(o)).0);
  }

  /** Exactly what a reconciler does about an owned object that it declares: it gives
      up what is declared as disabled and carries its own manager string; it reports
      a conflict if somebody else owns the object and may keep it; otherwise it
      updates the object, or only its metadata if it ignores mutations. */
  lemma DeclaredExactly(actor: Actor, o: Object)
    requires Owned(o) && actor.Stamps(o.id) && actor.declared.Some?
    ensures var declared := actor.declared.value;
            Diff(actor.declared, Some(o)).Operation(actor.scope, actor.name)
            == if IsManagementDisabled(declared) then
                 if Manager(o) == ResourceManager(actor.scope, actor.name) then Abandon else NoOp
               else if !IsManagementEnabled(declared) then Error
               else if actor.Reconciler() != Owner(o) && !Adopts(Owner(o), actor.Reconciler()) then ManagementConflict
               else if !IgnoresMutation(o) then Update
               else if HasSameCSMetadata(declared, o) then NoOp
               else UpdateCSMetadata
  {
    var declared := actor.declared.value;
    KeyFacts();
    OwnedHasManager(o);
    if HasSameCSMetadata(declared, o) {
      SameMetadataSameAnnotation(declared, o, MANAGEMENT_MODE_KEY);
    }
    if IsManagementEnabled(declared) {
      ConflictExactly(actor, o);
    } else if IsManagementDisabled(declared) {
      DisabledExactly(declared, o, actor.scope, actor.name);
    }
  }

  /** The metadata that a step writes names the acting sync. */
  lemma WrittenMetadata(declared: Object, actual: Object, scope: Scope, name: string)
    requires GetAnnotation(declared, RESOURCE_MANAGER_KEY) == ResourceManager(scope, name) != ""
    requires IsManagementEnabled(declared)
    ensures ManagedBy(MetadataUpdated(declared, actual), scope, name)
    ensures RESOURCE_MANAGER_KEY in MetadataUpdated(declared, actual).annotations
    ensures MANAGEMENT_MODE_KEY in MetadataUpdated(declared, actual).annotations
  {
  }

  /** One step keeps the object owned, and its owner changes only by adoption. */
  lemma StepOwnership(actor: Actor, before: Object, after: Object)
    requires Owned(before) && actor.Stamps(before.id) && actor.Step(before, after)
    ensures Owned(after) && after.id == before.id
    ensures Owner(after) == Owner(before) || Adopts(Owner(before), Owner(after))
  {
    if actor.declared.Some? && after != before {
      var declared := actor.declared.value;
      var op := Diff(actor.declared, Some(before)).Operation(actor.scope, actor.name);
      assert op == Update || op == UpdateCSMetadata;
      KeyFacts();
      ValidScopeCharacters(actor.scope);
      if HasSameCSMetadata(declared, before) {
        SameMetadataSameAnnotation(declared, before, MANAGEMENT_MODE_KEY);
      }
      assert IsManagementEnabled(declared);
      ConflictExactly(actor, before);
      WrittenMetadata(declared, before, actor.scope, actor.name);
      assert RESOURCE_MANAGER_KEY in declared.annotations && MANAGEMENT_MODE_KEY in declared.annotations;
      assert ManagedBy(after, actor.scope, actor.name);
      StampedIsOwned(after, actor);
    }
  }

  /** What is declared is given up only under the actor's own manager string. */
  lemma OwnManagerLetsGo(actor: Actor, o: Object)
    requires Owned(o) && actor.Stamps(o.id) && actor.declared.Some?
    requires Diff(actor.declared, Some(o)).Operation(actor.scope, actor.name) in {Delete, Abandon}
    ensures Manager(o) == ResourceManager(actor.scope, actor.name)
  {
    OwnedHasManager(o);
    if HasSameCSMetadata(actor.declared.value, o) {
      KeyFacts();
      SameMetadataSameAnnotation(actor.declared.value, o, RESOURCE_MANAGER_KEY);
    }
  }

  /** Only the owner deletes an object or gives it up. */
  lemma OnlyOwnerLetsGo(actor: Actor, o: Object)
    requires Owned(o) && actor.Stamps(o.id)
    requires Diff(actor.declared, Some(o)).Operation(actor.scope, actor.name) in {Delete, Abandon}
    ensures actor.Reconciler() == Owner(o)
  {
    if actor.declared.None? {
      var (scope, name) := ManagerScopeAndName(Manager(o));
      DeleteOnlyByOwner(o, actor.scope, actor.name, scope, name);
      DecodedNameIsName(scope, name);
    } else {
      OwnManagerLetsGo(actor, o);
      ManagerNamesItsReconciler(actor.scope, actor.name);
    }
  }

  /** A reconciler that neither owns the object nor may adopt it never changes it,
      whatever it declares. */
  lemma BystandersChangeNothing(actor: Actor, o: Object)
    requires Owned(o) && actor.Stamps(o.id)
    requires actor.Reconciler() != Owner(o) && !Adopts(Owner(o), actor.Reconciler())
    ensures Diff(actor.declared, Some(o)).Operation(actor.scope, actor.name) in {NoOp, ManagementConflict, Error}
  {
    var op := Diff(actor.declared, Some(o)).Operation(actor.scope, actor.name);
    if op == Delete || op == Abandon {
      OnlyOwnerLetsGo(actor, o);
    } else if actor.declared.Some? {
      var declared := actor.declared.value;
      if IsManagementEnabled(declared) {
        ConflictExactly(actor, o);
      } else if HasSameCSMetadata(declared, o) {
        KeyFacts();
        SameMetadataSameAnnotation(declared, o, MANAGEMENT_MODE_KEY);
      }
    }
  }

  /** states[i + 1] comes from states[i] by a step of actors[i]. */
  predicate IsRun(states: seq<Object>, actors: seq<Actor>) {
    && |states| == |actors| + 1
    && Owned(states[0])
    && (forall i :: 0 <= i < |actors| ==> actors[i].Stamps(states[0].id) && actors[i].Step(states[i], states[i + 1]))
  }

  lemma {:induction false} RunKeepsOwned(states: seq<Object>, actors: seq<Actor>, i: nat)
    requires IsRun(states, actors) && i < |states|
    ensures Owned(states[i]) && states[i].id == states[0].id
  {
    if i > 0 {
      RunKeepsOwned(states, actors, i - 1);
      assert actors[i - 1].Step(states[i - 1], states[i]);
      StepOwnership(actors[i - 1], states[i - 1], states[i]);
    }
  }

  lemma {:induction false} OwnerBetween(states: seq<Object>, actors: seq<Actor>, i: nat, j: nat)
    requires IsRun(states, actors) && i <= j < |states|
    ensures Owner(states[i]) == Owner(states[j]) || Adopts(Owner(states[i]), Owner(states[j]))
    decreases j
  {
    if i < j {
      OwnerBetween(states, actors, i, j - 1);
      RunKeepsOwned(states, actors, j - 1);
      assert actors[j - 1].Step(states[j - 1], states[j]);
      StepOwnership(actors[j - 1], states[j - 1], states[j]);
    }
  }

  /** In every run, whoever takes part and however the steps interleave, the
      owner changes at most once, and then from a namespace reconciler to a root
      reconciler; what a root reconciler owns it keeps. */
  lemma OwnerChangesAtMostOnce(states: seq<Object>, actors: seq<Actor>, i: nat, j: nat, k: nat)
    requires IsRun(states, actors) && i <= j <= k < |states|
    ensures Owner(states[i]) != Owner(states[j]) ==>
              Adopts(Owner(states[i]), Owner(states[j])) && Owner(states[k]) == Owner(states[j])
    ensures IsRootReconciler(Owner(states[i])) ==> Owner(states[k]) == Owner(states[i])
  {
    OwnerBetween(states, actors, i, j);
    OwnerBetween(states, actors, j, k);
    OwnerBetween(states, actors, i, k);
  }
}
