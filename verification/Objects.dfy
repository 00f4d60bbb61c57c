/** Kubernetes objects as Config Sync sees them (pkg/core/id.go) and the in-place
    edits of their annotations and labels (pkg/core/decorate.go). An object that
    has no annotation map and one whose map is empty are the same here. */
module Objects {
  import opened Strings

  datatype GroupKind = GroupKind(group: string, kind: string)

  datatype ID = ID(groupKind: GroupKind, namespace: string, name: string)

  const NAMESPACE_KIND := GroupKind("", "Namespace")
  const ROOT_SYNC_KIND := GroupKind("configsync.gke.io", "RootSync")
  const REPO_SYNC_KIND := GroupKind("configsync.gke.io", "RepoSync")

  type StringMap = map<string, string>

  /** The value of an object: body stands for every field that is neither
      identity nor metadata. */
  datatype Object = Object(id: ID, annotations: StringMap, labels: StringMap, ownerReferences: nat, body: string)

  /** What the API server answers when an object is read. */
  datatype Answer = NotFound | GetFailed | Found(obj: Object)

  datatype Option<+T> = None | Some(value: T)

  /** The value under a key, or the empty string. */
  function Lookup(m: StringMap, key: string): string {
    if key in m then m[key] else ""
  }

  function GetAnnotation(o: Object, annotation: string): string {
    Lookup(o.annotations, annotation)
  }

  /** The text of the resource-id annotation. */
  function GKNN(id: ID): string {
    id.groupKind.group + "_" + ToLower(id.groupKind.kind) + "_"
    + (if id.namespace == "" then "" else id.namespace + "_") + id.name
  }

  /** The loop that AddAnnotations and AddLabels share: it visits the entries in
      any order and writes only those that are missing or different. */
  method MergeInto(m: StringMap, added: StringMap) returns (r: StringMap, modified: bool)
    ensures r == m + added
    ensures modified <==> r != m
  {
    r, modified := m, false;
    ghost var changed := "";
    var todo := added.Keys;
    while todo != {}
      invariant todo <= added.Keys
      invariant r.Keys == m.Keys + (added.Keys - todo)
      invariant forall k :: k in r ==> r[k] == if k in added && k !in todo then added[k] else m[k]
      invariant if modified then changed in r && (changed !in m || m[changed] != r[changed]) else r == m
      decreases |todo|
    {
      var key :| key in todo;
      if key !in r || r[key] != added[key] {
        r, modified, changed := r[key := added[key]], true, key;
      }
      todo := todo - {key};
    }
  }

  /** The loop that RemoveAnnotations and RemoveLabels share. */
  method RemoveKeys(m: StringMap, keys: seq<string>) returns (r: StringMap, modified: bool)
    ensures r == m - (set k | k in keys)
    ensures modified <==> r != m
  {
    r, modified := m, false;
    for i := 0 to |keys|
      invariant r == m - (set k | k in keys[..i])
      invariant modified <==> r != m
    {
      assert keys[..i + 1] == keys[..i] + [keys[i]];
      if keys[i] in r {
        r := r - {keys[i]};
        modified := true;
      }
    }
    assert keys[..|keys|] == keys;
  }

  /** Group, kind and namespace have no underscore, as the API server demands. */
  predicate WellFormed(id: ID) {
    '_' !in id.groupKind.group && '_' !in id.groupKind.kind && '_' !in id.namespace
  }

  /** The ids are equal up to the case of the kind. */
  predicate SameResource(a: ID, b: ID) {
    && a.groupKind.group == b.groupKind.group && ToLower(a.groupKind.kind) == ToLower(b.groupKind.kind)
    && a.namespace == b.namespace && a.name == b.name
  }

  /** A cluster-scoped a has the group and kind of a namespaced b, and a name that is
      spelled like b's namespace and name. */
  predicate SpelledAlike(a: ID, b: ID) {
    && a.groupKind.group == b.groupKind.group && ToLower(a.groupKind.kind) == ToLower(b.groupKind.kind)
    && a.namespace == "" && b.namespace != "" && a.name == b.namespace + "_" + b.name
  }

  function QualifiedName(id: ID): string {
    (if id.namespace == "" then "" else id.namespace + "_") + id.name
  }

  lemma SameQualifiedName(a: ID, b: ID)
    requires '_' !in a.namespace && '_' !in b.namespace
    ensures QualifiedName(a) == QualifiedName(b)
            <==> || (a.namespace == b.namespace && a.name == b.name)
                 || (a.namespace == "" && b.namespace != "" && a.name == b.namespace + "_" + b.name)
                 || (b.namespace == "" && a.namespace != "" && b.name == a.namespace + "_" + a.name)
  {
    assert a.namespace == "" ==> QualifiedName(a) == a.name;
    assert b.namespace == "" ==> QualifiedName(b) == b.name;
    if a.namespace != "" && b.namespace != "" && QualifiedName(a) == QualifiedName(b) {
      assert QualifiedName(a) == a.namespace + ['_'] + a.name && QualifiedName(b) == b.namespace + ['_'] + b.name;
      HeadDetermined(a.namespace, a.name, b.namespace, b.name, '_');
    }
  }

  /** The resource-id annotation identifies an object: two well-formed ids have one
      text exactly if they are equal up to the case of the kind, or a cluster-scoped
      name with an underscore spells a namespaced one of the same kind. */
  lemma ResourceIDExactly(a: ID, b: ID)
    requires WellFormed(a) && WellFormed(b)
    ensures GKNN(a) == GKNN(b) <==> SameResource(a, b) || SpelledAlike(a, b) || SpelledAlike(b, a)
  {
    var ga, gb := a.groupKind.group, b.groupKind.group;
    var ka, kb := ToLower(a.groupKind.kind), ToLower(b.groupKind.kind);
    assert '_' !in ka && '_' !in kb by {
      assert forall i :: 0 <= i < |ka| ==> ka[i] == LowerChar(a.groupKind.kind[i]);
      assert forall i :: 0 <= i < |kb| ==> kb[i] == LowerChar(b.groupKind.kind[i]);
    }
    assert GKNN(a) == ga + ['_'] + (ka + ['_'] + QualifiedName(a));
    assert GKNN(b) == gb + ['_'] + (kb + ['_'] + QualifiedName(b));
    SameQualifiedName(a, b);
    if GKNN(a) == GKNN(b) {
      HeadDetermined(ga, ka + ['_'] + QualifiedName(a), gb, kb + ['_'] + QualifiedName(b), '_');
      HeadDetermined(ka, QualifiedName(a), kb, QualifiedName(b), '_');
    }
  }

  /** An object that callers share and edit in place. */
  class LiveObject {
    const id: ID
    var annotations: StringMap
    var labels: StringMap
    var ownerReferences: nat
    var body: string

    function View(): Object
      reads this
    {
      Object(id, annotations, labels, ownerReferences, body)
    }

    constructor (o: Object)
      ensures View() == o
    {
      id, annotations, labels, ownerReferences, body := o.id, o.annotations, o.labels, o.ownerReferences, o.body;
    }

    method SetAnnotation(annotation: string, value: string) returns (modified: bool)
      modifies this`annotations
      ensures annotations == old(annotations)[annotation := value]
      ensures modified <==> annotations != old(annotations)
    {
      if annotation in annotations && annotations[annotation] == value {
        assert annotations == annotations[annotation := value];
        return false;
      }
      annotations := annotations[annotation := value];
      assert annotations[annotation] == value;
      return true;
    }

    method SetLabel(key: string, value: string) returns (modified: bool)
      modifies this`labels
      ensures labels == old(labels)[key := value]
      ensures modified <==> labels != old(labels)
    {
      if key in labels && labels[key] == value {
        assert labels == labels[key := value];
        return false;
      }
      labels := labels[key := value];
      assert labels[key] == value;
      return true;
    }

    method AddAnnotations(added: StringMap) returns (modified: bool)
      modifies this`annotations
      ensures annotations == old(annotations) + added
      ensures modified <==> annotations != old(annotations)
    {
      annotations, modified := MergeInto(annotations, added);
    }

    method AddLabels(added: StringMap) returns (modified: bool)
      modifies this`labels
      ensures labels == old(labels) + added
      ensures modified <==> labels != old(labels)
    {
      labels, modified := MergeInto(labels, added);
    }

    method RemoveAnnotations(keys: seq<string>) returns (modified: bool)
      modifies this`annotations
      ensures annotations == old(annotations) - (set k | k in keys)
      ensures modified <==> annotations != old(annotations)
    {
      annotations, modified := RemoveKeys(annotations, keys);
    }

    method RemoveLabels(keys: seq<string>) returns (modified: bool)
      modifies this`labels
      ensures labels == old(labels) - (set k | k in keys)
      ensures modified <==> labels != old(labels)
    {
      labels, modified := RemoveKeys(labels, keys);
    }
  }

  /** The entries of m that satisfy keep. */
  function Filter(m: StringMap, keep: (string, string) -> bool): StringMap {
    map k | k in m && keep(k, m[k]) :: m[k]
  }

  /** Laying the kept entries of from over to: the kept part of the result is the
      kept part of from exactly when to had no other kept key, and a second
      overlay changes nothing. */
  lemma FilterOfOverlay(from: StringMap, to: StringMap, keep: (string, string) -> bool)
    ensures var r := to + Filter(from, keep);
            && (Filter(r, keep) == Filter(from, keep) <==> Filter(to, keep).Keys <= Filter(from, keep).Keys)
            && r + Filter(from, keep) == r
  {
  }

  /** Entries that are dropped whatever their value leave no trace. */
  lemma FilterIgnoresUpdates(m: StringMap, updated: StringMap, keep: (string, string) -> bool)
    requires m.Keys <= updated.Keys
    requires forall k :: k in updated && (k in m ==> updated[k] != m[k]) ==> forall v :: !keep(k, v)
    ensures Filter(updated, keep) == Filter(m, keep)
    ensures Filter(m, keep) == m <==> forall k :: k in m ==> keep(k, m[k])
  {
  }

  /** Setting two keys, dropping the first by the filter and the second by name
      gives m back exactly when m had neither key and nothing else is dropped. */
  lemma DropTwoKeys(m: StringMap, k1: string, v1: string, k2: string, v2: string, keep: (string, string) -> bool)
    requires k1 != k2 && !keep(k1, v1) && keep(k2, v2)
    ensures k2 in Filter(m + map[k1 := v1, k2 := v2], keep) && Filter(m + map[k1 := v1, k2 := v2], keep)[k2] == v2
    ensures Filter(m + map[k1 := v1, k2 := v2], keep) - {k2} == m
            <==> k2 !in m && forall k :: k in m ==> keep(k, m[k]) && k != k1
  {
  }

  lemma SubsetOfSameSize(s: set<string>, sub: set<string>)
    requires sub <= s
    ensures |sub| <= |s| && (|sub| == |s| <==> sub == s)
  {
    var lost := s - sub;
    assert s == sub + lost && |s| == |sub| + |lost|;
    assert lost == {} ==> s == sub;
  }

  /** A map that lost no entry is unchanged. */
  lemma SubmapOfSameSize(m: StringMap, sub: StringMap)
    requires sub.Keys <= m.Keys && forall k :: k in sub ==> sub[k] == m[k]
    ensures |sub| <= |m|
    ensures |sub| == |m| <==> sub == m
  {
    assert |sub| == |sub.Keys| && |m| == |m.Keys|;
    SubsetOfSameSize(m.Keys, sub.Keys);
  }

  /** The loop by which Config Sync entries are collected or removed: every entry
      is visited, in any order, and kept or dropped. */
  method FilterEntries(m: StringMap, keep: (string, string) -> bool) returns (r: StringMap)
    ensures r == Filter(m, keep)
  {
    r := map[];
    var todo := m.Keys;
    while todo != {}
      invariant todo <= m.Keys
      invariant r == map k | k in m && k !in todo && keep(k, m[k]) :: m[k]
      decreases |todo|
    {
      var k :| k in todo;
      if keep(k, m[k]) {
        r := r[k := m[k]];
      }
      todo := todo - {k};
    }
  }
}
