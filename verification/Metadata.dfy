/** Config Sync metadata: which annotations and labels belong to Config Sync, how
    an object is stamped with them, and how they are copied, compared and removed
    (pkg/metadata/metadata.go). */
module Metadata {
  import opened Strings
  import opened Objects

  const CONFIG_MANAGEMENT_GROUP := "configmanagement.gke.io"
  const CONFIG_MANAGEMENT_PREFIX := CONFIG_MANAGEMENT_GROUP + "/"
  const CONFIG_SYNC_PREFIX := "configsync.gke.io/"

  const MANAGEMENT_MODE_KEY := CONFIG_MANAGEMENT_PREFIX + "managed"
  const SYNC_TOKEN_KEY := CONFIG_MANAGEMENT_PREFIX + "token"
  const GIT_CONTEXT_KEY := CONFIG_SYNC_PREFIX + "git-context"
  const RESOURCE_MANAGER_KEY := CONFIG_SYNC_PREFIX + "manager"
  const RESOURCE_ID_KEY := CONFIG_SYNC_PREFIX + "resource-id"
  const DELETION_PROPAGATION_KEY := CONFIG_SYNC_PREFIX + "deletion-propagation-policy"
  const OWNING_INVENTORY_KEY := "config.k8s.io/owning-inventory"
  const LIFECYCLE_MUTATION_KEY := "client.lifecycle.config.k8s.io/mutation"
  const LIFECYCLE_DELETE_KEY := "client.lifecycle.config.k8s.io/deletion"
  const HNC_MANAGED_BY_KEY := "hnc.x-k8s.io/managed-by"

  const MANAGED_BY_LABEL := "app.kubernetes.io/managed-by"
  const APPLY_SET_PART_OF_LABEL := "applyset.kubernetes.io/part-of"

  const MANAGEMENT_ENABLED := "enabled"
  const MANAGEMENT_DISABLED := "disabled"
  const IGNORE_MUTATION := "ignore"
  const PREVENT_DELETION := "detach"

  predicate HasConfigSyncPrefix(s: string) {
    HasPrefix(s, CONFIG_MANAGEMENT_PREFIX) || HasPrefix(s, CONFIG_SYNC_PREFIX)
  }

  predicate IsConfigSyncAnnotationKey(k: string) {
    || HasConfigSyncPrefix(k)
    || HasPrefix(k, LIFECYCLE_MUTATION_KEY)
    || k == OWNING_INVENTORY_KEY
    || k == DELETION_PROPAGATION_KEY
  }

  predicate IsConfigSyncAnnotation(k: string, v: string) {
    IsConfigSyncAnnotationKey(k) || (k == HNC_MANAGED_BY_KEY && v == CONFIG_MANAGEMENT_GROUP)
  }

  predicate IsConfigSyncLabelKey(k: string) {
    HasConfigSyncPrefix(k) || k == MANAGED_BY_LABEL
  }

  predicate IsConfigSyncLabel(k: string, v: string) {
    HasConfigSyncPrefix(k) || (k == MANAGED_BY_LABEL && v == CONFIG_MANAGEMENT_GROUP)
  }

  predicate IsManagementEnabled(o: Object) {
    GetAnnotation(o, MANAGEMENT_MODE_KEY) == MANAGEMENT_ENABLED
  }

  predicate IsManagementDisabled(o: Object) {
    GetAnnotation(o, MANAGEMENT_MODE_KEY) == MANAGEMENT_DISABLED
  }

  predicate IgnoresMutation(o: Object) {
    GetAnnotation(o, LIFECYCLE_MUTATION_KEY) == IGNORE_MUTATION
  }

  predicate HasPreventDeletion(o: Object) {
    GetAnnotation(o, LIFECYCLE_DELETE_KEY) == PREVENT_DELETION
  }

  predicate HasConfigSyncMetadata(o: Object) {
    || (exists k :: k in o.annotations && IsConfigSyncAnnotation(k, o.annotations[k]))
    || (exists k :: k in o.labels && IsConfigSyncLabel(k, o.labels[k]))
  }

  // The Config Sync part of an object's metadata.

  function ConfigSyncAnnotations(m: StringMap): StringMap {
    Filter(m, IsConfigSyncAnnotation)
  }

  function ConfigSyncLabels(m: StringMap): StringMap {
    Filter(m, IsConfigSyncLabel)
  }

  predicate HasSameCSMetadata(o1: Object, o2: Object) {
    && ConfigSyncAnnotations(o1.annotations) == ConfigSyncAnnotations(o2.annotations)
    && ConfigSyncLabels(o1.labels) == ConfigSyncLabels(o2.labels)
  }

  /** to with the Config Sync metadata of from laid over it. */
  function WithMetadataOf(from: Object, to: Object): Object {
    to.(annotations := to.annotations + ConfigSyncAnnotations(from.annotations),
        labels := to.labels + ConfigSyncLabels(from.labels))
  }

  // Removal. The mutation lifecycle annotation is the one entry that stays.

  predicate IsRemovedAnnotation(k: string, v: string) {
    IsConfigSyncAnnotation(k, v) && k != LIFECYCLE_MUTATION_KEY
  }

  function ForeignAnnotations(m: StringMap): StringMap {
    Filter(m, (k, v) => !IsRemovedAnnotation(k, v))
  }

  function ForeignLabels(m: StringMap): StringMap {
    Filter(m, (k, v) => !IsConfigSyncLabel(k, v))
  }

  function WithoutConfigSyncMetadata(o: Object): Object {
    o.(annotations := ForeignAnnotations(o.annotations), labels := ForeignLabels(o.labels))
  }

  function WithoutPartOfLabel(o: Object, applySetID: string): Object {
    if APPLY_SET_PART_OF_LABEL in o.labels && o.labels[APPLY_SET_PART_OF_LABEL] == applySetID
    then o.(labels := o.labels - {APPLY_SET_PART_OF_LABEL})
    else o
  }

  /** What abandoning does to an object on the cluster (pkg/applier/applier.go). */
  function Abandoned(o: Object, applySetID: string): Object {
    if HasConfigSyncMetadata(o) then WithoutPartOfLabel(WithoutConfigSyncMetadata(o), applySetID) else o
  }

  datatype ConfigSyncMetadata = ConfigSyncMetadata(
    applySetID: string,
    gitContext: string,
    manager: string,
    sourceHash: string,
    inventoryID: string)

  /** The annotations that every stamp sets. */
  function BaseAnnotations(csm: ConfigSyncMetadata, id: ID, m: StringMap): StringMap {
    m[GIT_CONTEXT_KEY := csm.gitContext][RESOURCE_MANAGER_KEY := csm.manager]
    [SYNC_TOKEN_KEY := csm.sourceHash][RESOURCE_ID_KEY := GKNN(id)][OWNING_INVENTORY_KEY := csm.inventoryID]
  }

  function Stamped(csm: ConfigSyncMetadata, o: Object): Object {
    var annotations := BaseAnnotations(csm, o.id, o.annotations);
    o.(annotations := if IsManagementDisabled(o) then annotations
                      else annotations[MANAGEMENT_MODE_KEY := MANAGEMENT_ENABLED],
       labels := o.labels[MANAGED_BY_LABEL := CONFIG_MANAGEMENT_GROUP][APPLY_SET_PART_OF_LABEL := csm.applySetID])
  }

  /** How the fixed keys relate: every stamped annotation key is a Config Sync
      key, none of them is a lifecycle key, and the part-of label is foreign. */
  lemma KeyFacts()
    ensures HasConfigSyncPrefix(MANAGEMENT_MODE_KEY) && HasConfigSyncPrefix(SYNC_TOKEN_KEY)
    ensures HasConfigSyncPrefix(GIT_CONTEXT_KEY) && HasConfigSyncPrefix(RESOURCE_MANAGER_KEY)
    ensures HasConfigSyncPrefix(RESOURCE_ID_KEY)
    ensures IsConfigSyncAnnotationKey(OWNING_INVENTORY_KEY) && IsConfigSyncAnnotationKey(LIFECYCLE_MUTATION_KEY)
    ensures !HasConfigSyncPrefix(LIFECYCLE_MUTATION_KEY) && OWNING_INVENTORY_KEY != LIFECYCLE_MUTATION_KEY
    ensures MANAGEMENT_MODE_KEY !in {SYNC_TOKEN_KEY, GIT_CONTEXT_KEY, RESOURCE_MANAGER_KEY, RESOURCE_ID_KEY,
                                     OWNING_INVENTORY_KEY}
    ensures RESOURCE_MANAGER_KEY !in {SYNC_TOKEN_KEY, GIT_CONTEXT_KEY, RESOURCE_ID_KEY, OWNING_INVENTORY_KEY}
    ensures RESOURCE_ID_KEY !in {SYNC_TOKEN_KEY, GIT_CONTEXT_KEY, OWNING_INVENTORY_KEY}
    ensures SYNC_TOKEN_KEY !in {GIT_CONTEXT_KEY, OWNING_INVENTORY_KEY} && GIT_CONTEXT_KEY != OWNING_INVENTORY_KEY
    ensures LIFECYCLE_DELETE_KEY !in {GIT_CONTEXT_KEY, RESOURCE_MANAGER_KEY, SYNC_TOKEN_KEY, RESOURCE_ID_KEY,
                                      OWNING_INVENTORY_KEY, MANAGEMENT_MODE_KEY}
    ensures !HasConfigSyncPrefix(MANAGED_BY_LABEL) && !IsConfigSyncLabelKey(APPLY_SET_PART_OF_LABEL)
    ensures MANAGEMENT_ENABLED != MANAGEMENT_DISABLED && IGNORE_MUTATION != ""
  {
    assert MANAGEMENT_MODE_KEY[..|CONFIG_MANAGEMENT_PREFIX|] == CONFIG_MANAGEMENT_PREFIX;
    assert SYNC_TOKEN_KEY[..|CONFIG_MANAGEMENT_PREFIX|] == CONFIG_MANAGEMENT_PREFIX;
    assert GIT_CONTEXT_KEY[..|CONFIG_SYNC_PREFIX|] == CONFIG_SYNC_PREFIX;
    assert RESOURCE_MANAGER_KEY[..|CONFIG_SYNC_PREFIX|] == CONFIG_SYNC_PREFIX;
    assert RESOURCE_ID_KEY[..|CONFIG_SYNC_PREFIX|] == CONFIG_SYNC_PREFIX;
    assert CONFIG_MANAGEMENT_PREFIX[1] == 'o' && CONFIG_SYNC_PREFIX[1] == 'o';
    assert CONFIG_MANAGEMENT_PREFIX[0] == 'c' && CONFIG_SYNC_PREFIX[0] == 'c';
    assert LIFECYCLE_DELETE_KEY[1] == 'l' && MANAGEMENT_MODE_KEY[1] == 'o' && SYNC_TOKEN_KEY[1] == 'o';
    assert GIT_CONTEXT_KEY[6] == 's' && GIT_CONTEXT_KEY[1] == 'o';
    assert RESOURCE_MANAGER_KEY[1] == 'o' && RESOURCE_ID_KEY[1] == 'o';
    assert LIFECYCLE_MUTATION_KEY[1] == 'l' && OWNING_INVENTORY_KEY[1] == 'o';
    assert MANAGED_BY_LABEL[0] == 'a' && APPLY_SET_PART_OF_LABEL[0] == 'a';
    assert |MANAGED_BY_LABEL| != |APPLY_SET_PART_OF_LABEL|;
    assert |MANAGEMENT_ENABLED| != |MANAGEMENT_DISABLED|;
    assert RESOURCE_ID_KEY[6] == 's' && SYNC_TOKEN_KEY[6] == 'm' && OWNING_INVENTORY_KEY[6] == '.';
  }

  // Laws.

  lemma UnstampedAnnotations(csm: ConfigSyncMetadata, o: Object)
    ensures ForeignAnnotations(Stamped(csm, o).annotations) == o.annotations
            <==> forall k :: k in o.annotations ==> !IsRemovedAnnotation(k, o.annotations[k])
  {
    KeyFacts();
    FilterIgnoresUpdates(o.annotations, Stamped(csm, o).annotations, (k, v) => !IsRemovedAnnotation(k, v));
  }

  lemma UnstampedLabels(csm: ConfigSyncMetadata, o: Object)
    ensures ForeignLabels(Stamped(csm, o).labels) - {APPLY_SET_PART_OF_LABEL} == o.labels
            <==> (forall k :: k in o.labels ==> !IsConfigSyncLabelKey(k)) && APPLY_SET_PART_OF_LABEL !in o.labels
    ensures Lookup(ForeignLabels(Stamped(csm, o).labels), APPLY_SET_PART_OF_LABEL) == csm.applySetID
    ensures APPLY_SET_PART_OF_LABEL in ForeignLabels(Stamped(csm, o).labels)
  {
    KeyFacts();
    assert Stamped(csm, o).labels
           == o.labels + map[MANAGED_BY_LABEL := CONFIG_MANAGEMENT_GROUP, APPLY_SET_PART_OF_LABEL := csm.applySetID];
    DropTwoKeys(o.labels, MANAGED_BY_LABEL, CONFIG_MANAGEMENT_GROUP, APPLY_SET_PART_OF_LABEL, csm.applySetID,
                (k, v) => !IsConfigSyncLabel(k, v));
  }

  /** Abandoning a freshly stamped object restores its metadata exactly when
      there was no Config Sync metadata (the mutation lifecycle annotation aside),
      no managed-by label and no part-of label to begin with. */
  lemma AbandonUndoesStamp(csm: ConfigSyncMetadata, o: Object)
    ensures Abandoned(Stamped(csm, o), csm.applySetID) == o
            <==> && (forall k :: k in o.annotations ==> !IsRemovedAnnotation(k, o.annotations[k]))
                 && (forall k :: k in o.labels ==> !IsConfigSyncLabelKey(k))
                 && APPLY_SET_PART_OF_LABEL !in o.labels
  {
    var s := Stamped(csm, o);
    assert HasConfigSyncMetadata(s) by {
      KeyFacts();
      assert GIT_CONTEXT_KEY in s.annotations;
    }
    UnstampedAnnotations(csm, o);
    UnstampedLabels(csm, o);
  }

  /** After removal the mutation lifecycle annotation is the only Config Sync
      metadata that can be left, and it is left exactly when it was there. */
  lemma RemovalLeavesOnlyMutation(o: Object)
    ensures HasConfigSyncMetadata(WithoutConfigSyncMetadata(o)) <==> LIFECYCLE_MUTATION_KEY in o.annotations
  {
    KeyFacts();
    var r := WithoutConfigSyncMetadata(o);
    if LIFECYCLE_MUTATION_KEY in o.annotations {
      assert LIFECYCLE_MUTATION_KEY in r.annotations;
    }
  }

  /** An annotation that abandoning takes away, spelled out: everything under the two
      prefixes, the owning inventory, the hierarchy controller's if it names Config
      Sync, and what extends the mutation key. */
  predicate IsTakenAway(k: string, v: string) {
    || HasPrefix(k, "configmanagement.gke.io/")
    || HasPrefix(k, "configsync.gke.io/")
    || k == "config.k8s.io/owning-inventory"
    || (k == "hnc.x-k8s.io/managed-by" && v == "configmanagement.gke.io")
    || (HasPrefix(k, "client.lifecycle.config.k8s.io/mutation") && k != "client.lifecycle.config.k8s.io/mutation")
  }

  lemma SpelledKeys()
    ensures "configmanagement.gke.io/" == CONFIG_MANAGEMENT_PREFIX
  {
  }

  lemma TakenAwayExactly(k: string, v: string)
    ensures IsRemovedAnnotation(k, v) <==> IsTakenAway(k, v)
  {
    SpelledKeys();
    KeyFacts();
    if k == DELETION_PROPAGATION_KEY {
      assert k[..|CONFIG_SYNC_PREFIX|] == CONFIG_SYNC_PREFIX;
    }
  }

  /** Exactly which annotations and labels abandoning leaves, whoever set them. */
  lemma AbandonLeavesExactly(o: Object, applySetID: string, k: string)
    ensures var r := Abandoned(o, applySetID);
            && (k in r.annotations <==> k in o.annotations && !IsTakenAway(k, o.annotations[k]))
            && (k in r.annotations ==> r.annotations[k] == o.annotations[k])
            && (k in r.labels ==> k in o.labels && r.labels[k] == o.labels[k])
            && (k in o.labels && k !in r.labels <==>
                  && k in o.labels
                  && (|| HasPrefix(k, "configmanagement.gke.io/")
                      || HasPrefix(k, "configsync.gke.io/")
                      || (k == "app.kubernetes.io/managed-by" && o.labels[k] == "configmanagement.gke.io")
                      || (k == "applyset.kubernetes.io/part-of" && o.labels[k] == applySetID
                          && HasConfigSyncMetadata(o))))
  {
    SpelledKeys();
    KeyFacts();
    if k in o.annotations {
      TakenAwayExactly(k, o.annotations[k]);
    }
    if !HasConfigSyncMetadata(o) {
      assert k in o.annotations ==> !IsConfigSyncAnnotation(k, o.annotations[k]);
      assert k in o.labels ==> !IsConfigSyncLabel(k, o.labels[k]);
    }
  }

  /** Removal is idempotent and keeps every foreign entry. */
  lemma AbandonIdempotent(o: Object, applySetID: string)
    ensures Abandoned(Abandoned(o, applySetID), applySetID) == Abandoned(o, applySetID)
    ensures forall k :: k in o.annotations && !IsConfigSyncAnnotation(k, o.annotations[k])
                        ==> k in Abandoned(o, applySetID).annotations
                            && Abandoned(o, applySetID).annotations[k] == o.annotations[k]
    ensures forall k :: k in o.labels && !IsConfigSyncLabel(k, o.labels[k]) && k != APPLY_SET_PART_OF_LABEL
                        ==> k in Abandoned(o, applySetID).labels
                            && Abandoned(o, applySetID).labels[k] == o.labels[k]
  {
    var r := Abandoned(o, applySetID);
    if HasConfigSyncMetadata(o) {
      assert ForeignAnnotations(r.annotations) == r.annotations;
      assert ForeignLabels(r.labels) == r.labels;
      assert WithoutPartOfLabel(r, applySetID) == r;
    }
  }

  /** Every Config Sync key of o1 is one of o2. */
  predicate CSKeysAmong(o1: Object, o2: Object) {
    && ConfigSyncAnnotations(o1.annotations).Keys <= ConfigSyncAnnotations(o2.annotations).Keys
    && ConfigSyncLabels(o1.labels).Keys <= ConfigSyncLabels(o2.labels).Keys
  }

  /** Laying metadata over an object makes the metadata equal exactly when the
      object had no Config Sync key of its own; doing it again changes nothing. */
  lemma OverlayMatches(from: Object, to: Object)
    ensures HasSameCSMetadata(from, WithMetadataOf(from, to)) <==> CSKeysAmong(to, from)
    ensures WithMetadataOf(from, WithMetadataOf(from, to)) == WithMetadataOf(from, to)
  {
    FilterOfOverlay(from.annotations, to.annotations, IsConfigSyncAnnotation);
    FilterOfOverlay(from.labels, to.labels, IsConfigSyncLabel);
  }

  /** Objects with the same Config Sync metadata agree on every annotation whose
      key alone makes it Config Sync's. */
  lemma SameMetadataSameAnnotation(o1: Object, o2: Object, key: string)
    requires HasSameCSMetadata(o1, o2) && IsConfigSyncAnnotationKey(key)
    ensures key in o1.annotations <==> key in o2.annotations
    ensures GetAnnotation(o1, key) == GetAnnotation(o2, key)
  {
    var a1, a2 := ConfigSyncAnnotations(o1.annotations), ConfigSyncAnnotations(o2.annotations);
    assert key in o1.annotations <==> key in a1;
    assert key in o2.annotations <==> key in a2;
    if key in a1 {
      assert a1[key] == a2[key];
    }
  }

  /** What stamping sets, read back; everything else stays as it was. */
  lemma StampReadsBack(csm: ConfigSyncMetadata, o: Object)
    ensures GetAnnotation(Stamped(csm, o), GIT_CONTEXT_KEY) == csm.gitContext
    ensures GetAnnotation(Stamped(csm, o), SYNC_TOKEN_KEY) == csm.sourceHash
    ensures GetAnnotation(Stamped(csm, o), OWNING_INVENTORY_KEY) == csm.inventoryID
    ensures Lookup(Stamped(csm, o).labels, MANAGED_BY_LABEL) == CONFIG_MANAGEMENT_GROUP
    ensures Lookup(Stamped(csm, o).labels, APPLY_SET_PART_OF_LABEL) == csm.applySetID
    ensures forall k :: k !in {GIT_CONTEXT_KEY, RESOURCE_MANAGER_KEY, SYNC_TOKEN_KEY, RESOURCE_ID_KEY,
                               OWNING_INVENTORY_KEY, MANAGEMENT_MODE_KEY}
              ==> GetAnnotation(Stamped(csm, o), k) == GetAnnotation(o, k)
    ensures GetAnnotation(Stamped(csm, o), RESOURCE_MANAGER_KEY) == csm.manager
    ensures GetAnnotation(Stamped(csm, o), RESOURCE_ID_KEY) == GKNN(o.id)
    ensures IsManagementEnabled(Stamped(csm, o)) <==> !IsManagementDisabled(o)
    ensures IsManagementDisabled(Stamped(csm, o)) <==> IsManagementDisabled(o)
  {
    KeyFacts();
  }

  // The same operations, in place.

  lemma ModeIsNotStamped(csm: ConfigSyncMetadata, id: ID, m: StringMap)
    ensures Lookup(BaseAnnotations(csm, id, m), MANAGEMENT_MODE_KEY) == Lookup(m, MANAGEMENT_MODE_KEY)
  {
    KeyFacts();
  }

  method SetBaseAnnotations(csm: ConfigSyncMetadata, obj: LiveObject)
    modifies obj`annotations
    ensures obj.annotations == BaseAnnotations(csm, obj.id, old(obj.annotations))
  {
    var _ := obj.SetAnnotation(GIT_CONTEXT_KEY, csm.gitContext);
    var _ := obj.SetAnnotation(RESOURCE_MANAGER_KEY, csm.manager);
    var _ := obj.SetAnnotation(SYNC_TOKEN_KEY, csm.sourceHash);
    var _ := obj.SetAnnotation(RESOURCE_ID_KEY, GKNN(obj.id));
    var _ := obj.SetAnnotation(OWNING_INVENTORY_KEY, csm.inventoryID);
  }

  method SetConfigSyncMetadata(csm: ConfigSyncMetadata, obj: LiveObject)
    modifies obj
    ensures obj.View() == Stamped(csm, old(obj.View()))
  {
    var _ := obj.SetLabel(MANAGED_BY_LABEL, CONFIG_MANAGEMENT_GROUP);
    var _ := obj.SetLabel(APPLY_SET_PART_OF_LABEL, csm.applySetID);
    ModeIsNotStamped(csm, obj.id, obj.annotations);
    SetBaseAnnotations(csm, obj);
    if !IsManagementDisabled(obj.View()) {
      var _ := obj.SetAnnotation(MANAGEMENT_MODE_KEY, MANAGEMENT_ENABLED);
    }
  }

  method RemoveConfigSyncMetadata(obj: LiveObject) returns (modified: bool)
    modifies obj
    ensures obj.View() == WithoutConfigSyncMetadata(old(obj.View()))
    ensures modified <==> obj.View() != old(obj.View())
  {
    var before := |obj.annotations| + |obj.labels|;
    var annotations := FilterEntries(obj.annotations, (k, v) => !IsRemovedAnnotation(k, v));
    var labels := FilterEntries(obj.labels, (k, v) => !IsConfigSyncLabel(k, v));
    SubmapOfSameSize(obj.annotations, annotations);
    SubmapOfSameSize(obj.labels, labels);
    obj.annotations := annotations;
    obj.labels := labels;
    modified := before != |obj.annotations| + |obj.labels|;
  }

  method RemoveApplySetPartOfLabel(obj: LiveObject, applySetID: string) returns (modified: bool)
    modifies obj`labels
    ensures obj.View() == WithoutPartOfLabel(old(obj.View()), applySetID)
    ensures modified <==> obj.View() != old(obj.View())
  {
    if APPLY_SET_PART_OF_LABEL !in obj.labels || obj.labels[APPLY_SET_PART_OF_LABEL] != applySetID {
      return false;
    }
    obj.labels := obj.labels - {APPLY_SET_PART_OF_LABEL};
    return true;
  }

  method UpdateConfigSyncMetadata(fromObj: LiveObject, toObj: LiveObject)
    modifies toObj
    ensures toObj.View() == WithMetadataOf(old(fromObj.View()), old(toObj.View()))
  {
    var annotations := FilterEntries(fromObj.annotations, IsConfigSyncAnnotation);
    var labels := FilterEntries(fromObj.labels, IsConfigSyncLabel);
    var _ := toObj.AddAnnotations(annotations);
    var _ := toObj.AddLabels(labels);
  }

  /** The edits on a copy of the object. */
  method AbandonInPlace(obj: LiveObject, applySetID: string) returns (updated: bool)
    modifies obj
    ensures obj.View() == Abandoned(old(obj.View()), applySetID)
    ensures updated <==> obj.View() != old(obj.View())
  {
    if HasConfigSyncMetadata(obj.View()) {
      ghost var before := obj.View();
      var updated1 := RemoveConfigSyncMetadata(obj);
      var updated2 := RemoveApplySetPartOfLabel(obj, applySetID);
      assert !updated1 && updated2 ==> APPLY_SET_PART_OF_LABEL in before.labels;
      assert updated1 ==> obj.annotations != before.annotations || obj.labels != before.labels by {
        var mid := WithoutConfigSyncMetadata(before);
        assert |obj.labels| <= |mid.labels| by { SubmapOfSameSize(mid.labels, obj.labels); }
        SubmapOfSameSize(before.labels, mid.labels);
      }
      return updated1 || updated2;
    }
    return false;
  }

  /** Abandoning: the object is read from the cluster, edited, and patched exactly
      when the edits change something. An object that is gone is no error, a failed
      read or patch is. */
  method AbandonObject(answer: Answer, applySetID: string, patchOk: bool) returns (ok: bool, patch: Option<Object>)
    ensures patch.Some? <==> answer.Found? && Abandoned(answer.obj, applySetID) != answer.obj
    ensures patch.Some? ==> patch.value == Abandoned(answer.obj, applySetID)
    ensures ok <==> !answer.GetFailed? && (patch.Some? ==> patchOk)
  {
    if !answer.Found? {
      return answer.NotFound?, None;
    }
    var obj := new LiveObject(answer.obj);
    var updated := AbandonInPlace(obj, applySetID);
    if !updated {
      return true, None;
    }
    return patchOk, Some(obj.View());
  }
}
