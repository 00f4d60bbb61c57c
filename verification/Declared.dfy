/** The declared resources and the cache of mutation-ignored objects as values:
    what each call of the store does, and what every sequence of calls keeps
    (pkg/declared/resources.go, pkg/declared/namespace_safeguard.go). */
module Declared {
  import opened Objects
  import opened OrderedMaps

  /** What sanitizing makes of an object's body; None is a failed conversion. */
  type Strip = string -> Option<string>

  function Sanitized(strip: Strip, o: Object): Option<Object> {
    match strip(o.body)
    case None => None
    case Some(body) => Some(o.(body := body))
  }

  type DeclaredMap = OrderedMap<ID, Object>

  /** The cluster state of a mutation-ignored object, or the mark that it was
      deleted from the cluster. */
  datatype CacheEntry = CacheEntry(obj: Object, deleted: bool)

  datatype Store = Store(
    declared: Option<DeclaredMap>,
    ignored: Option<OrderedMap<ID, CacheEntry>>,
    commit: string,
    previousCommit: string)

  const EMPTY_STORE := Store(None, None, "", "")

  // The set of declarations that an update builds. None among the items is a nil
  // object, which is skipped.

  function BuildSet(strip: Strip, items: seq<Option<Object>>): (m: Option<DeclaredMap>)
    ensures m.Some? ==> m.value.Valid()
  {
    if items == [] then Some(Empty())
    else
      match (BuildSet(strip, items[..|items| - 1]), items[|items| - 1])
      case (None, _) => None
      case (Some(m), None) => Some(m)
      case (Some(m), Some(o)) =>
        match Sanitized(strip, o)
        case None => None
        case Some(u) => Some(m.Set(o.id, u))
  }

  /** Building a set, one item at a time. */
  lemma BuildOneMore(strip: Strip, items: seq<Option<Object>>, i: nat)
    requires i < |items| && BuildSet(strip, items[..i]).Some?
    ensures items[i].None? ==> BuildSet(strip, items[..i + 1]) == BuildSet(strip, items[..i])
    ensures items[i].Some? && Sanitized(strip, items[i].value).Some? ==>
              BuildSet(strip, items[..i + 1])
              == Some(BuildSet(strip, items[..i]).value.Set(items[i].value.id, Sanitized(strip, items[i].value).value))
  {
    assert items[..i + 1][..i] == items[..i];
  }

  function CountNamespaces(keys: seq<ID>): nat {
    if keys == [] then 0
    else CountNamespaces(keys[..|keys| - 1]) + if keys[|keys| - 1].groupKind == NAMESPACE_KIND then 1 else 0
  }

  function NamespaceCount(m: Option<DeclaredMap>): nat {
    if m.None? then 0 else CountNamespaces(m.value.keys)
  }

  /** The failsafe against losing every Namespace at once. */
  predicate DeletesAllNamespaces(previous: Option<DeclaredMap>, current: DeclaredMap) {
    NamespaceCount(Some(current)) == 0 && NamespaceCount(previous) >= 2
  }

  predicate Accepted(strip: Strip, s: Store, items: seq<Option<Object>>) {
    var m := BuildSet(strip, items);
    m.Some? && !DeletesAllNamespaces(s.declared, m.value)
  }

  function UpdateDeclared(strip: Strip, s: Store, items: seq<Option<Object>>, commit: string): Store {
    if Accepted(strip, s, items)
    then s.(declared := BuildSet(strip, items), commit := commit, previousCommit := commit)
    else s
  }

  function SetAll(m: OrderedMap<ID, CacheEntry>, entries: seq<CacheEntry>): OrderedMap<ID, CacheEntry> {
    if entries == [] then m
    else
      var last := entries[|entries| - 1];
      SetAll(m, entries[..|entries| - 1]).Set(last.obj.id, last)
  }

  function UpdateIgnored(s: Store, entries: seq<CacheEntry>): Store {
    s.(ignored := Some(SetAll(if s.ignored.Some? then s.ignored.value else Empty(), entries)))
  }

  function DeleteIgnored(s: Store, id: ID): Store {
    if s.ignored.None? then s else s.(ignored := Some(s.ignored.value.Delete(id)))
  }

  // An accepted update against a plain scan of its input.

  predicate Declares(item: Option<Object>, id: ID) {
    item.Some? && item.value.id == id
  }

  /** Position of the first item that declares id, or the length of items. */
  function FirstIndex(items: seq<Option<Object>>, id: ID): (i: nat)
    ensures i <= |items|
    ensures i < |items| ==> Declares(items[i], id)
    ensures forall j :: 0 <= j < i ==> !Declares(items[j], id)
  {
    if items == [] then 0
    else
      var i := FirstIndex(items[..|items| - 1], id);
      if i < |items| - 1 then i else if Declares(items[|items| - 1], id) then i else |items|
  }

  /** The last item that declares id. */
  function LastMatch(items: seq<Option<Object>>, id: ID): Option<Object> {
    if items == [] then None
    else if Declares(items[|items| - 1], id) then items[|items| - 1]
    else LastMatch(items[..|items| - 1], id)
  }

  /** The keys are ids of the items, in the order of their first declarations. */
  predicate InFirstOrder(items: seq<Option<Object>>, keys: seq<ID>) {
    && (forall i :: 0 <= i < |keys| ==> FirstIndex(items, keys[i]) < |items|)
    && (forall i, j :: 0 <= i < j < |keys| ==> FirstIndex(items, keys[i]) < FirstIndex(items, keys[j]))
  }

  predicate HoldsLastValues(strip: Strip, items: seq<Option<Object>>, values: map<ID, Object>) {
    forall id :: id in values ==>
      LastMatch(items, id).Some? && Sanitized(strip, LastMatch(items, id).value) == Some(values[id])
  }

  predicate HoldsAll(items: seq<Option<Object>>, values: map<ID, Object>) {
    forall i :: 0 <= i < |items| && items[i].Some? ==> items[i].value.id in values
  }

  /** The set lists each declared id once, in the order of first declarations,
      with the sanitized value of its last declaration. */
  predicate AgreesWithScan(strip: Strip, items: seq<Option<Object>>, m: DeclaredMap) {
    InFirstOrder(items, m.keys) && HoldsAll(items, m.values) && HoldsLastValues(strip, items, m.values)
  }

  lemma FirstOrderOfPrefix(items: seq<Option<Object>>, keys: seq<ID>)
    requires items != [] && InFirstOrder(items[..|items| - 1], keys)
    ensures InFirstOrder(items, keys)
    ensures forall i :: 0 <= i < |keys| ==> FirstIndex(items, keys[i]) < |items| - 1
  {
  }

  lemma NewKeyIsLast(items: seq<Option<Object>>, o: Object, values: map<ID, Object>)
    requires HoldsAll(items, values) && o.id !in values
    ensures FirstIndex(items + [Some(o)], o.id) == |items|
  {
  }

  lemma OneMoreKey(items: seq<Option<Object>>, o: Object, m: DeclaredMap, u: Object)
    requires InFirstOrder(items, m.keys) && HoldsAll(items, m.values)
    ensures InFirstOrder(items + [Some(o)], m.Set(o.id, u).keys)
    ensures HoldsAll(items + [Some(o)], m.Set(o.id, u).values)
  {
    assert (items + [Some(o)])[..|items|] == items;
    FirstOrderOfPrefix(items + [Some(o)], m.keys);
    if o.id !in m.values {
      NewKeyIsLast(items, o, m.values);
    }
  }

  lemma OneMoreValue(strip: Strip, items: seq<Option<Object>>, o: Object, m: DeclaredMap, u: Object)
    requires HoldsLastValues(strip, items, m.values) && Sanitized(strip, o) == Some(u)
    ensures HoldsLastValues(strip, items + [Some(o)], m.Set(o.id, u).values)
  {
  }

  lemma NilAddsNothing(strip: Strip, items: seq<Option<Object>>, m: DeclaredMap)
    requires AgreesWithScan(strip, items, m)
    ensures AgreesWithScan(strip, items + [None], m)
  {
  }

  lemma {:induction false} BuiltSetAgreesWithScan(strip: Strip, items: seq<Option<Object>>)
    requires BuildSet(strip, items).Some?
    ensures BuildSet(strip, items).value.Valid()
    ensures AgreesWithScan(strip, items, BuildSet(strip, items).value)
  {
    if items != [] {
      var init, last := items[..|items| - 1], items[|items| - 1];
      BuiltSetAgreesWithScan(strip, init);
      var before := BuildSet(strip, init).value;
      assert items == init + [last];
      if last.Some? {
        var u := Sanitized(strip, last.value).value;
        OneMoreKey(init, last.value, before, u);
        OneMoreValue(strip, init, last.value, before, u);
      } else {
        NilAddsNothing(strip, init, before);
      }
    }
  }

  /** A conversion fails exactly when some object cannot be sanitized. */
  lemma {:induction false} BuildFailsExactly(strip: Strip, items: seq<Option<Object>>)
    ensures BuildSet(strip, items).None? <==>
              exists i :: 0 <= i < |items| && items[i].Some? && strip(items[i].value.body).None?
  {
    if items != [] {
      var init := items[..|items| - 1];
      BuildFailsExactly(strip, init);
      if i :| 0 <= i < |items| && items[i].Some? && strip(items[i].value.body).None? {
        assert i < |init| ==> init[i] == items[i];
      }
      if i :| 0 <= i < |init| && init[i].Some? && strip(init[i].value.body).None? {
        assert items[i] == init[i];
      }
    }
  }

  lemma {:induction false} LastMatchDeclares(items: seq<Option<Object>>, id: ID)
    ensures LastMatch(items, id).Some? ==> LastMatch(items, id).value.id == id
  {
    if items != [] {
      LastMatchDeclares(items[..|items| - 1], id);
    }
  }

  /** What is stored for an id is its last declaration with the sanitized body. */
  lemma StoredObject(strip: Strip, items: seq<Option<Object>>, id: ID)
    requires BuildSet(strip, items).Some? && id in BuildSet(strip, items).value.values
    ensures var stored, last := BuildSet(strip, items).value.values[id], LastMatch(items, id);
            && last.Some? && last.value.id == id && Some(stored.body) == strip(last.value.body)
            && stored == last.value.(body := stored.body)
  {
    BuiltSetAgreesWithScan(strip, items);
    LastMatchDeclares(items, id);
  }

  function NamespacesAmong(keys: seq<ID>): set<ID> {
    set id | id in keys && id.groupKind == GroupKind("", "Namespace")
  }

  /** The failsafe counts the declared Namespaces. */
  lemma {:induction false} CountIsNumber(keys: seq<ID>)
    requires Distinct(keys)
    ensures CountNamespaces(keys) == |NamespacesAmong(keys)|
  {
    if keys != [] {
      var init, last := keys[..|keys| - 1], keys[|keys| - 1];
      CountIsNumber(init);
      assert last !in init && forall id :: id in keys <==> id in init || id == last;
      if last.groupKind == NAMESPACE_KIND {
        assert NamespacesAmong(keys) == NamespacesAmong(init) + {last};
      } else {
        assert NamespacesAmong(keys) == NamespacesAmong(init);
      }
    }
  }

  /** The declared set that one object makes. */
  lemma OneDeclaration(strip: Strip, d: Object)
    requires Sanitized(strip, d).Some?
    ensures var m := BuildSet(strip, [Some(d)]);
            && m.Some? && m.value.keys == [d.id] && d.id in m.value.values
            && m.value.values[d.id] == Sanitized(strip, d).value
            && NamespaceCount(m) <= 1
  {
    var none: seq<Option<Object>> := [];
    assert [Some(d)][..0] == none && BuildSet(strip, none) == Some(Empty());
    assert [d.id][..0] == [] && CountNamespaces([]) == 0;
  }

  // Sequences of calls.

  datatype Call =
    | UpdateDeclaredCall(items: seq<Option<Object>>, commit: string)
    | UpdateIgnoredCall(entries: seq<CacheEntry>)
    | DeleteIgnoredCall(id: ID)

  function Apply(strip: Strip, s: Store, call: Call): Store {
    match call
    case UpdateDeclaredCall(items, commit) => UpdateDeclared(strip, s, items, commit)
    case UpdateIgnoredCall(entries) => UpdateIgnored(s, entries)
    case DeleteIgnoredCall(id) => DeleteIgnored(s, id)
  }

  predicate IsHistory(strip: Strip, states: seq<Store>, calls: seq<Call>) {
    && |states| == |calls| + 1
    && (forall i :: 0 <= i < |calls| ==> states[i + 1] == Apply(strip, states[i], calls[i]))
  }

  /** Every object is filed under its own id. */
  predicate KeyedStore(s: Store) {
    && (s.declared.Some? ==> forall id :: id in s.declared.value.values ==> s.declared.value.values[id].id == id)
    && (s.ignored.Some? ==> forall id :: id in s.ignored.value.values ==> s.ignored.value.values[id].obj.id == id)
  }

  lemma {:induction false} BuiltSetIsKeyed(strip: Strip, items: seq<Option<Object>>)
    ensures BuildSet(strip, items).Some? ==>
              forall id :: id in BuildSet(strip, items).value.values ==>
                             BuildSet(strip, items).value.values[id].id == id
  {
    if items != [] {
      BuiltSetIsKeyed(strip, items[..|items| - 1]);
    }
  }

  lemma {:induction false} CacheIsKeyed(m: OrderedMap<ID, CacheEntry>, entries: seq<CacheEntry>)
    requires m.Valid() && forall id :: id in m.values ==> m.values[id].obj.id == id
    ensures SetAll(m, entries).Valid()
    ensures forall id :: id in SetAll(m, entries).values ==> SetAll(m, entries).values[id].obj.id == id
  {
    if entries != [] {
      CacheIsKeyed(m, entries[..|entries| - 1]);
    }
  }

  lemma CallKeepsKeyed(strip: Strip, s: Store, call: Call)
    requires KeyedStore(s) && (s.ignored.Some? ==> s.ignored.value.Valid())
    ensures KeyedStore(Apply(strip, s, call))
    ensures Apply(strip, s, call).ignored.Some? ==> Apply(strip, s, call).ignored.value.Valid()
  {
    match call
    case UpdateDeclaredCall(items, _) => BuiltSetIsKeyed(strip, items);
    case UpdateIgnoredCall(entries) => CacheIsKeyed(if s.ignored.Some? then s.ignored.value else Empty(), entries);
    case DeleteIgnoredCall(_) =>
  }

  /** Call k is an update of the declared set, and accepted. */
  predicate AcceptedCall(strip: Strip, states: seq<Store>, calls: seq<Call>, k: nat)
    requires IsHistory(strip, states, calls) && k < |calls|
  {
    calls[k].UpdateDeclaredCall? && Accepted(strip, states[k], calls[k].items)
  }

  /** The last accepted update before state i. */
  function LastAccepted(strip: Strip, states: seq<Store>, calls: seq<Call>, i: nat): (k: Option<nat>)
    requires IsHistory(strip, states, calls) && i < |states|
    ensures k.Some? ==> k.value < i && AcceptedCall(strip, states, calls, k.value)
    ensures forall j :: (if k.Some? then k.value + 1 else 0) <= j < i ==> !AcceptedCall(strip, states, calls, j)
  {
    if i == 0 then None
    else if AcceptedCall(strip, states, calls, i - 1) then Some(i - 1)
    else LastAccepted(strip, states, calls, i - 1)
  }

  /** s has the declared set and the commit of the call. */
  predicate DeclaredBy(strip: Strip, s: Store, call: Call) {
    && call.UpdateDeclaredCall?
    && s.declared.Some? && s.declared == BuildSet(strip, call.items)
    && s.commit == call.commit
  }

  /** One call: an accepted update declares its items and its commit, and nothing
      else touches either. */
  lemma CallEffect(strip: Strip, s: Store, call: Call)
    ensures var s' := Apply(strip, s, call);
            && (s.previousCommit == s.commit ==> s'.previousCommit == s'.commit)
            && if call.UpdateDeclaredCall? && Accepted(strip, s, call.items) then DeclaredBy(strip, s', call)
               else s'.declared == s.declared && s'.commit == s.commit
  {
  }

  lemma {:induction false} ReachableKeyed(strip: Strip, states: seq<Store>, calls: seq<Call>, i: nat)
    requires IsHistory(strip, states, calls) && states[0] == EMPTY_STORE && i < |states|
    ensures states[i].previousCommit == states[i].commit && KeyedStore(states[i])
    ensures states[i].ignored.Some? ==> states[i].ignored.value.Valid()
  {
    if i > 0 {
      ReachableKeyed(strip, states, calls, i - 1);
      assert states[i] == Apply(strip, states[i - 1], calls[i - 1]);
      CallKeepsKeyed(strip, states[i - 1], calls[i - 1]);
      CallEffect(strip, states[i - 1], calls[i - 1]);
    }
  }

  lemma {:induction false} ReachableDeclared(strip: Strip, states: seq<Store>, calls: seq<Call>, i: nat)
    requires IsHistory(strip, states, calls) && states[0] == EMPTY_STORE && i < |states|
    ensures var k := LastAccepted(strip, states, calls, i);
            if k.Some? then DeclaredBy(strip, states[i], calls[k.value])
            else states[i].declared.None? && states[i].commit == ""
  {
    if i > 0 {
      ReachableDeclared(strip, states, calls, i - 1);
      assert states[i] == Apply(strip, states[i - 1], calls[i - 1]);
      CallEffect(strip, states[i - 1], calls[i - 1]);
    }
  }

  /** In every reachable state the two commit fields agree, every object is filed
      under its own id, and declared set and commit are those of the last accepted
      update, or nothing if there was none. */
  lemma ReachableStates(strip: Strip, states: seq<Store>, calls: seq<Call>, i: nat)
    requires IsHistory(strip, states, calls) && states[0] == EMPTY_STORE && i < |states|
    ensures states[i].previousCommit == states[i].commit && KeyedStore(states[i])
    ensures var k := LastAccepted(strip, states, calls, i);
            if k.Some?
            then DeclaredBy(strip, states[i], calls[k.value])
                 && AgreesWithScan(strip, calls[k.value].items, states[i].declared.value)
            else states[i].declared.None? && states[i].commit == ""
  {
    ReachableKeyed(strip, states, calls, i);
    ReachableDeclared(strip, states, calls, i);
    var k := LastAccepted(strip, states, calls, i);
    if k.Some? {
      BuiltSetAgreesWithScan(strip, calls[k.value].items);
    }
  }

  /** No single call takes the store from several Namespaces to none. */
  lemma CallKeepsANamespace(strip: Strip, s: Store, call: Call)
    requires NamespaceCount(s.declared) >= 2
    ensures NamespaceCount(Apply(strip, s, call).declared) >= 1
  {
  }

  /** Whatever is called in between, the store does not get from two or more
      declared Namespaces to none without passing through exactly one. */
  lemma {:induction false} NamespacesGoThroughOne(strip: Strip, states: seq<Store>, calls: seq<Call>, i: nat, j: nat)
    returns (k: nat)
    requires IsHistory(strip, states, calls) && i <= j < |states|
    requires NamespaceCount(states[i].declared) >= 2 && NamespaceCount(states[j].declared) == 0
    ensures i < k < j && NamespaceCount(states[k].declared) == 1
    decreases j - i
  {
    assert states[i + 1] == Apply(strip, states[i], calls[i]);
    CallKeepsANamespace(strip, states[i], calls[i]);
    if NamespaceCount(states[i + 1].declared) == 1 {
      k := i + 1;
    } else {
      k := NamespacesGoThroughOne(strip, states, calls, i + 1, j);
    }
  }

  predicate Convertible(strip: Strip, items: seq<Option<Object>>) {
    forall i :: 0 <= i < |items| && items[i].Some? ==> strip(items[i].value.body).Some?
  }

  /** An update is rejected exactly when a conversion fails or every one of several
      Namespaces would go at once, and then changes nothing; one that is accepted
      replaces the declared set and leaves the cache alone. */
  lemma UpdateIsAllOrNothing(strip: Strip, s: Store, items: seq<Option<Object>>, commit: string)
    ensures Accepted(strip, s, items) <==>
              Convertible(strip, items)
              && (NamespaceCount(s.declared) <= 1 || NamespaceCount(BuildSet(strip, items)) >= 1)
    ensures s.declared.Some? && s.declared.value.Valid() ==>
              NamespaceCount(s.declared) == |NamespacesAmong(s.declared.value.keys)|
    ensures BuildSet(strip, items).Some? ==>
              NamespaceCount(BuildSet(strip, items)) == |NamespacesAmong(BuildSet(strip, items).value.keys)|
    ensures var s' := UpdateDeclared(strip, s, items, commit);
            && s'.ignored == s.ignored
            && (!Accepted(strip, s, items) ==> s' == s)
            && (Accepted(strip, s, items) ==>
                  && DeclaredBy(strip, s', UpdateDeclaredCall(items, commit))
                  && AgreesWithScan(strip, items, s'.declared.value))
  {
    BuildFailsExactly(strip, items);
    if s.declared.Some? && s.declared.value.Valid() {
      CountIsNumber(s.declared.value.keys);
    }
    if BuildSet(strip, items).Some? {
      CountIsNumber(BuildSet(strip, items).value.keys);
    }
    if Accepted(strip, s, items) {
      BuiltSetAgreesWithScan(strip, items);
    }
  }
}
