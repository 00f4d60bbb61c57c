/** Objects whose mutations are ignored: caching their cluster state, and sending
    that state instead of the declaration to the applier
    (pkg/applier/applier.go, pkg/applier/utils.go). */
module IgnoreMutation {
  import opened Objects
  import opened OrderedMaps
  import opened Metadata
  import opened Declared
  import opened ResourceStore

  type Cluster = ID -> Answer

  /** The object that a successful read of id returns. */
  function Fetched(cluster: Cluster, id: ID): Object
    requires cluster(id).Found?
  {
    cluster(id).obj.(id := id)
  }

  predicate IsCached(s: Store, id: ID) {
    s.ignored.Some? && id in s.ignored.value.values
  }

  /** The entry is there and its object was not deleted from the cluster. */
  predicate IsLive(s: Store, id: ID) {
    IsCached(s, id) && !s.ignored.value.values[id].deleted
  }

  predicate NeedsFetch(s: Store, d: Object) {
    IgnoresMutation(d) && !IsCached(s, d.id)
  }

  /** The declared objects, in order. */
  function DeclaredList(m: DeclaredMap): seq<Object>
    requires m.Valid()
  {
    seq(|m.keys|, i requires 0 <= i < |m.keys| => assert m.keys[i] in m.keys; m.values[m.keys[i]])
  }

  function DeclaredOf(s: Store): seq<Object>
    requires s.declared.Some? ==> s.declared.value.Valid()
  {
    if s.declared.Some? then DeclaredList(s.declared.value) else []
  }

  // Caching.

  /** What is fetched for d cannot be sanitized, which the source does not expect. */
  predicate Unsanitizable(strip: Strip, cluster: Cluster, s: Store, d: Object) {
    NeedsFetch(s, d) && cluster(d.id).Found? && Sanitized(strip, Fetched(cluster, d.id)).None?
  }

  predicate Crashes(strip: Strip, cluster: Cluster, s: Store, objs: seq<Object>) {
    exists i :: 0 <= i < |objs| && Unsanitizable(strip, cluster, s, objs[i])
  }

  /** The new cache entries that the declared objects call for. */
  function NewEntries(strip: Strip, cluster: Cluster, s: Store, objs: seq<Object>): seq<CacheEntry> {
    if objs == [] then []
    else
      var init, d := NewEntries(strip, cluster, s, objs[..|objs| - 1]), objs[|objs| - 1];
      if NeedsFetch(s, d) && cluster(d.id).Found? && Sanitized(strip, Fetched(cluster, d.id)).Some?
      then init + [CacheEntry(Sanitized(strip, Fetched(cluster, d.id)).value, false)]
      else init
  }

  predicate FetchFails(cluster: Cluster, s: Store, objs: seq<Object>) {
    exists i :: 0 <= i < |objs| && NeedsFetch(s, objs[i]) && cluster(objs[i].id).GetFailed?
  }

  /** The last of the entries for id. */
  function LastEntry(entries: seq<CacheEntry>, id: ID): (r: Option<CacheEntry>)
    ensures r.Some? ==> r.value in entries && r.value.obj.id == id
    ensures r.None? ==> forall e :: e in entries ==> e.obj.id != id
  {
    if entries == [] then None
    else if entries[|entries| - 1].obj.id == id then Some(entries[|entries| - 1])
    else LastEntry(entries[..|entries| - 1], id)
  }

  lemma {:induction false} SetAllAt(m: OrderedMap<ID, CacheEntry>, entries: seq<CacheEntry>, id: ID)
    ensures id in SetAll(m, entries).values <==> id in m.values || LastEntry(entries, id).Some?
    ensures LastEntry(entries, id).Some? ==> SetAll(m, entries).values[id] == LastEntry(entries, id).value
    ensures LastEntry(entries, id).None? && id in m.values ==> SetAll(m, entries).values[id] == m.values[id]
  {
    if entries != [] {
      SetAllAt(m, entries[..|entries| - 1], id);
    }
  }

  /** Every new entry is a declared, uncached object as the cluster has it. */
  lemma {:induction false} NewEntriesFromCluster(strip: Strip, cluster: Cluster, s: Store, objs: seq<Object>, k: nat)
    requires k < |NewEntries(strip, cluster, s, objs)|
    ensures var e := NewEntries(strip, cluster, s, objs)[k];
            && !IsCached(s, e.obj.id) && cluster(e.obj.id).Found? && !e.deleted
            && Sanitized(strip, Fetched(cluster, e.obj.id)) == Some(e.obj)
  {
    if k < |NewEntries(strip, cluster, s, objs[..|objs| - 1])| {
      NewEntriesFromCluster(strip, cluster, s, objs[..|objs| - 1], k);
    }
  }

  /** Every declared, uncached object that the cluster has gets an entry. */
  lemma {:induction false} NewEntriesComplete(strip: Strip, cluster: Cluster, s: Store, objs: seq<Object>, i: nat)
    requires i < |objs| && NeedsFetch(s, objs[i]) && cluster(objs[i].id).Found?
    requires !Unsanitizable(strip, cluster, s, objs[i])
    ensures exists k :: 0 <= k < |NewEntries(strip, cluster, s, objs)|
                        && NewEntries(strip, cluster, s, objs)[k].obj.id == objs[i].id
  {
    var init := objs[..|objs| - 1];
    var entries, inits := NewEntries(strip, cluster, s, objs), NewEntries(strip, cluster, s, init);
    if i == |objs| - 1 {
      assert entries[|entries| - 1].obj.id == objs[i].id;
    } else {
      NewEntriesComplete(strip, cluster, s, init, i);
      var k :| 0 <= k < |inits| && inits[k].obj.id == init[i].id;
      assert entries[k] == inits[k];
    }
  }

  /** The store after caching. */
  function WithNewEntries(strip: Strip, cluster: Cluster, s: Store): Store
    requires s.declared.Some? ==> s.declared.value.Valid()
  {
    UpdateIgnored(s, NewEntries(strip, cluster, s, DeclaredOf(s)))
  }

  /** Caching keeps every entry there is, and adds those it fetched. */
  lemma CacheAfterFetch(strip: Strip, cluster: Cluster, s: Store, id: ID)
    requires s.declared.Some? ==> s.declared.value.Valid()
    ensures var s' := WithNewEntries(strip, cluster, s);
            && s'.declared == s.declared && s'.commit == s.commit && s'.previousCommit == s.previousCommit
            && (IsCached(s, id) ==> IsCached(s', id) && s'.ignored.value.values[id] == s.ignored.value.values[id])
            && (!IsCached(s, id) && IsCached(s', id) ==>
                  cluster(id).Found? && !s'.ignored.value.values[id].deleted
                  && Sanitized(strip, Fetched(cluster, id)) == Some(s'.ignored.value.values[id].obj))
  {
    var entries := NewEntries(strip, cluster, s, DeclaredOf(s));
    var m := if s.ignored.Some? then s.ignored.value else Empty();
    SetAllAt(m, entries, id);
    var last := LastEntry(entries, id);
    if last.Some? {
      var k :| 0 <= k < |entries| && entries[k] == last.value;
      NewEntriesFromCluster(strip, cluster, s, DeclaredOf(s), k);
    }
  }

  /** An object is declared under id and asks to ignore mutations. */
  predicate DeclaredIgnoring(objs: seq<Object>, id: ID) {
    exists i :: 0 <= i < |objs| && objs[i].id == id && GetAnnotation(objs[i], LIFECYCLE_MUTATION_KEY) == IGNORE_MUTATION
  }

  lemma {:induction false} NewEntriesAreDeclared(strip: Strip, cluster: Cluster, s: Store, objs: seq<Object>, k: nat)
    requires k < |NewEntries(strip, cluster, s, objs)|
    ensures DeclaredIgnoring(objs, NewEntries(strip, cluster, s, objs)[k].obj.id)
  {
    var init := objs[..|objs| - 1];
    if k < |NewEntries(strip, cluster, s, init)| {
      NewEntriesAreDeclared(strip, cluster, s, init, k);
      var i :| 0 <= i < |init| && init[i].id == NewEntries(strip, cluster, s, init)[k].obj.id
               && GetAnnotation(init[i], LIFECYCLE_MUTATION_KEY) == IGNORE_MUTATION;
      assert objs[i] == init[i];
    } else {
      assert objs[|objs| - 1].id == NewEntries(strip, cluster, s, objs)[k].obj.id;
    }
  }

  /** Exactly which objects are cached afterwards: those that were, and those that are
      declared as ignoring mutations and exist on the cluster. */
  lemma CachedExactly(strip: Strip, cluster: Cluster, s: Store, id: ID)
    requires s.declared.Some? ==> s.declared.value.Valid()
    requires !Crashes(strip, cluster, s, DeclaredOf(s))
    ensures IsCached(WithNewEntries(strip, cluster, s), id)
            <==> IsCached(s, id) || (DeclaredIgnoring(DeclaredOf(s), id) && cluster(id).Found?)
  {
    var objs := DeclaredOf(s);
    var entries := NewEntries(strip, cluster, s, objs);
    SetAllAt(if s.ignored.Some? then s.ignored.value else Empty(), entries, id);
    if LastEntry(entries, id).Some? {
      var k :| 0 <= k < |entries| && entries[k] == LastEntry(entries, id).value;
      NewEntriesAreDeclared(strip, cluster, s, objs, k);
      NewEntriesFromCluster(strip, cluster, s, objs, k);
    }
    if !IsCached(s, id) && DeclaredIgnoring(objs, id) && cluster(id).Found? {
      var i :| 0 <= i < |objs| && objs[i].id == id && GetAnnotation(objs[i], LIFECYCLE_MUTATION_KEY) == IGNORE_MUTATION;
      NewEntriesComplete(strip, cluster, s, objs, i);
    }
  }

  // Sending.

  /** What is sent to the applier for an enabled declaration. */
  function Sent(s: Store, d: Object): Object {
    if IsLive(s, d.id) then WithMetadataOf(d, s.ignored.value.values[d.id].obj) else d
  }

  /** After caching has succeeded, a declared object that ignores mutations and is
      not known to be deleted is sent as the cluster has it (from the cache if it
      was cached, freshly read otherwise) with the declared Config Sync metadata
      on top; if the cluster does not have it, it is sent as declared. */
  lemma IgnoredObjectsSentAsOnCluster(strip: Strip, cluster: Cluster, s: Store, i: nat)
    requires s.declared.Some? && s.declared.value.Valid() && KeyedStore(s)
    requires i < |DeclaredOf(s)| && IgnoresMutation(DeclaredOf(s)[i])
    requires !FetchFails(cluster, s, DeclaredOf(s)) && !Crashes(strip, cluster, s, DeclaredOf(s))
    ensures var d := DeclaredOf(s)[i];
            Sent(WithNewEntries(strip, cluster, s), d)
            == (if IsLive(s, d.id) then WithMetadataOf(d, s.ignored.value.values[d.id].obj)
                else if IsCached(s, d.id) || !cluster(d.id).Found? then d
                else WithMetadataOf(d, Sanitized(strip, Fetched(cluster, d.id)).value))
  {
    var d := DeclaredOf(s)[i];
    CacheAfterFetch(strip, cluster, s, d.id);
    if NeedsFetch(s, d) && cluster(d.id).Found? {
      NewEntriesComplete(strip, cluster, s, DeclaredOf(s), i);
      SetAllAt(if s.ignored.Some? then s.ignored.value else Empty(),
               NewEntries(strip, cluster, s, DeclaredOf(s)), d.id);
    }
  }

  /** Sending keeps identities, and lays the declared metadata over cached bodies:
      whether an object is sent with its declared body depends on the cache alone,
      so an entry outlives the annotation that created it. */
  lemma SentObject(s: Store, d: Object)
    requires KeyedStore(s)
    ensures Sent(s, d).id == d.id
    ensures Sent(s, d).body == if IsLive(s, d.id) then s.ignored.value.values[d.id].obj.body else d.body
    ensures HasSameCSMetadata(d, Sent(s, d)) <==> IsLive(s, d.id) ==> CSKeysAmong(s.ignored.value.values[d.id].obj, d)
  {
    if IsLive(s, d.id) {
      OverlayMatches(d, s.ignored.value.values[d.id].obj);
    }
  }

  /** o with the marked entries of d laid over it is d. */
  predicate AgreesBut(o: StringMap, d: StringMap, marked: (string, string) -> bool) {
    o.Keys <= d.Keys && forall k :: k in d && !marked(k, d[k]) ==> k in o && o[k] == d[k]
  }

  lemma OverlayIs(o: StringMap, d: StringMap, marked: (string, string) -> bool)
    ensures o + Filter(d, marked) == d <==> AgreesBut(o, d, marked)
  {
  }

  /** Exactly when an enabled declaration is sent as declared: it is not in the
      cache, or was deleted from the cluster, or the cached object has the declared
      body, and the declared metadata apart from Config Sync's. */
  lemma SentAsDeclared(s: Store, d: Object)
    requires KeyedStore(s)
    ensures Sent(s, d) == d <==>
              || !IsLive(s, d.id)
              || var o := s.ignored.value.values[d.id].obj;
                 && o.body == d.body && o.ownerReferences == d.ownerReferences
                 && AgreesBut(o.annotations, d.annotations, IsConfigSyncAnnotation)
                 && AgreesBut(o.labels, d.labels, IsConfigSyncLabel)
  {
    if IsLive(s, d.id) {
      var o := s.ignored.value.values[d.id].obj;
      OverlayIs(o.annotations, d.annotations, IsConfigSyncAnnotation);
      OverlayIs(o.labels, d.labels, IsConfigSyncLabel);
    }
  }

  lemma DeclareOne(strip: Strip, s: Store, d: Object, commit: string)
    requires NamespaceCount(s.declared) <= 1 && Sanitized(strip, d).Some?
    ensures var s' := UpdateDeclared(strip, s, [Some(d)], commit);
            && s'.declared == BuildSet(strip, [Some(d)]) && s'.ignored == s.ignored && NamespaceCount(s'.declared) <= 1
            && s'.declared.Some? && DeclaredOf(s') == [Sanitized(strip, d).value]
  {
    OneDeclaration(strip, d);
    assert DeclaredOf(UpdateDeclared(strip, s, [Some(d)], commit))[0] == Sanitized(strip, d).value;
  }

  /** Caching the only declaration. */
  lemma CacheOneDeclaration(strip: Strip, cluster: Cluster, s: Store, d: Object)
    requires s.declared.Some? && s.declared.value.Valid() && DeclaredOf(s) == [d]
    requires NeedsFetch(s, d) && cluster(d.id).Found? && !Unsanitizable(strip, cluster, s, d)
    ensures var s' := WithNewEntries(strip, cluster, s);
            && s'.declared == s.declared && IsLive(s', d.id)
            && Some(s'.ignored.value.values[d.id].obj) == Sanitized(strip, Fetched(cluster, d.id))
  {
    CacheAfterFetch(strip, cluster, s, d.id);
    NewEntriesComplete(strip, cluster, s, [d], 0);
    SetAllAt(if s.ignored.Some? then s.ignored.value else Empty(), NewEntries(strip, cluster, s, [d]), d.id);
  }

  /** A run in which the old body is sent: d1 ignores mutations and is cached, d2
      replaces it and does not. Whatever the cluster answers later, what is sent for
      d2 has the body that the cluster had when d1 was cached. */
  lemma StaleBodyIsSent(strip: Strip, d1: Object, d2: Object, first: Cluster, later: Cluster, c1: string, c2: string)
    requires d1.id == d2.id && IgnoresMutation(d1) && !IgnoresMutation(d2) && first(d1.id).Found?
    requires Sanitized(strip, d1).Some? && Sanitized(strip, d2).Some? && Sanitized(strip, Fetched(first, d1.id)).Some?
    ensures var s1 := WithNewEntries(strip, first, UpdateDeclared(strip, EMPTY_STORE, [Some(d1)], c1));
            var s2 := WithNewEntries(strip, later, UpdateDeclared(strip, s1, [Some(d2)], c2));
            var d := Sanitized(strip, d2).value;
            && DeclaredOf(s2) == [d] && !IgnoresMutation(d)
            && Sent(s2, d).body == Sanitized(strip, Fetched(first, d1.id)).value.body
  {
    DeclareOne(strip, EMPTY_STORE, d1, c1);
    var s0 := UpdateDeclared(strip, EMPTY_STORE, [Some(d1)], c1);
    CacheOneDeclaration(strip, first, s0, Sanitized(strip, d1).value);
    var s1 := WithNewEntries(strip, first, s0);
    DeclareOne(strip, s1, d2, c2);
    CacheAfterFetch(strip, later, UpdateDeclared(strip, s1, [Some(d2)], c2), d1.id);
  }

  /** An object that was deleted from the cluster is sent as declared, so that it is
      created again. */
  lemma DeletedIsSentAsDeclared(strip: Strip, s: Store, entries: seq<CacheEntry>, d: Object)
    requires LastEntry(entries, d.id).Some? && LastEntry(entries, d.id).value.deleted
    ensures Sent(Apply(strip, s, UpdateIgnoredCall(entries)), d) == d
  {
    SetAllAt(if s.ignored.Some? then s.ignored.value else Empty(), entries, d.id);
  }

  /** The call drops the entry for id, or marks it as deleted from the cluster. */
  predicate DropsEntry(call: Call, id: ID) {
    || (call.DeleteIgnoredCall? && call.id == id)
    || (call.UpdateIgnoredCall? && LastEntry(call.entries, id).Some? && LastEntry(call.entries, id).value.deleted)
  }

  /** What the calls from i on and before j cached last for id. */
  function LastCached(calls: seq<Call>, i: nat, j: nat, id: ID): Option<CacheEntry>
    requires i <= j <= |calls|
  {
    if i == j then None
    else if calls[j - 1].UpdateIgnoredCall? && LastEntry(calls[j - 1].entries, id).Some?
    then LastEntry(calls[j - 1].entries, id)
    else LastCached(calls, i, j - 1, id)
  }

  lemma CallKeepsLive(strip: Strip, s: Store, call: Call, id: ID)
    requires IsLive(s, id) && !DropsEntry(call, id)
    ensures var s' := Apply(strip, s, call);
            && IsLive(s', id)
            && s'.ignored.value.values[id]
               == if call.UpdateIgnoredCall? && LastEntry(call.entries, id).Some? then LastEntry(call.entries, id).value
                  else s.ignored.value.values[id]
  {
    if call.UpdateIgnoredCall? {
      SetAllAt(s.ignored.value, call.entries, id);
    }
  }

  /** A live entry outlives the declaration it was made for: in every history of the
      store, the applier and the watcher included, as long as it is neither dropped
      nor marked as deleted, it decides the body that is sent for its id, whatever is
      declared in between and whether or not that ignores mutations. */
  lemma {:induction false} CachedBodyIsSent(strip: Strip, states: seq<Store>, calls: seq<Call>, i: nat, j: nat,
                                            d: Object)
    requires IsHistory(strip, states, calls) && i <= j < |states| && IsLive(states[i], d.id)
    requires forall k :: i <= k < j ==> !DropsEntry(calls[k], d.id)
    ensures IsLive(states[j], d.id)
    ensures var cached := LastCached(calls, i, j, d.id);
            var entry := if cached.Some? then cached.value else states[i].ignored.value.values[d.id];
            states[j].ignored.value.values[d.id] == entry && Sent(states[j], d).body == entry.obj.body
    decreases j
  {
    if i < j {
      CachedBodyIsSent(strip, states, calls, i, j - 1, d);
      assert states[j] == Apply(strip, states[j - 1], calls[j - 1]);
      CallKeepsLive(strip, states[j - 1], calls[j - 1], d.id);
    }
  }

  // The same, on shared objects.

  predicate AllConvert(strip: Strip, values: seq<Object>) {
    forall i :: 0 <= i < |values| ==> Sanitized(strip, values[i]).Some?
  }

  /** What is read from the cluster for the declared objects. */
  function NewlyFetched(cluster: Cluster, s: Store, objs: seq<Object>): seq<Object> {
    if objs == [] then []
    else
      var init, d := NewlyFetched(cluster, s, objs[..|objs| - 1]), objs[|objs| - 1];
      if NeedsFetch(s, d) && cluster(d.id).Found? then init + [Fetched(cluster, d.id)] else init
  }

  lemma CrashesSnoc(strip: Strip, cluster: Cluster, s: Store, objs: seq<Object>)
    requires objs != []
    ensures var last := |objs| - 1;
            Crashes(strip, cluster, s, objs) <==>
              Crashes(strip, cluster, s, objs[..last]) || Unsanitizable(strip, cluster, s, objs[last])
  {
    var last := |objs| - 1;
    if k :| 0 <= k < last && Unsanitizable(strip, cluster, s, objs[k]) {
      assert objs[..last][k] == objs[k];
    }
  }

  lemma ConvertSnoc(strip: Strip, values: seq<Object>)
    ensures values != [] ==>
              var last := |values| - 1;
              AllConvert(strip, values) <==> AllConvert(strip, values[..last]) && Sanitized(strip, values[last]).Some?
  {
  }

  /** It can all be sanitized unless the call crashes, and gives the new entries. */
  lemma {:induction false} EntriesOfFetched(strip: Strip, cluster: Cluster, s: Store, objs: seq<Object>)
    ensures AllConvert(strip, NewlyFetched(cluster, s, objs)) <==> !Crashes(strip, cluster, s, objs)
    ensures AllConvert(strip, NewlyFetched(cluster, s, objs)) ==>
              var fetched, entries := NewlyFetched(cluster, s, objs), NewEntries(strip, cluster, s, objs);
              && |entries| == |fetched|
              && forall j :: 0 <= j < |fetched| ==> entries[j] == CacheEntry(Sanitized(strip, fetched[j]).value, false)
  {
    if objs != [] {
      var last := |objs| - 1;
      EntriesOfFetched(strip, cluster, s, objs[..last]);
      CrashesSnoc(strip, cluster, s, objs);
      ConvertSnoc(strip, NewlyFetched(cluster, s, objs));
    }
  }

  lemma FetchOneMore(cluster: Cluster, s: Store, objs: seq<Object>, i: nat)
    requires i < |objs|
    ensures FetchFails(cluster, s, objs[..i + 1]) <==>
              FetchFails(cluster, s, objs[..i]) || (NeedsFetch(s, objs[i]) && cluster(objs[i].id).GetFailed?)
    ensures FetchFails(cluster, s, objs[..i + 1]) ==> FetchFails(cluster, s, objs)
    ensures NewlyFetched(cluster, s, objs[..i + 1])
            == NewlyFetched(cluster, s, objs[..i])
               + if NeedsFetch(s, objs[i]) && cluster(objs[i].id).Found? then [Fetched(cluster, objs[i].id)] else []
  {
    assert objs[..i + 1][..i] == objs[..i];
    if k :| 0 <= k < i && NeedsFetch(s, objs[k]) && cluster(objs[k].id).GetFailed? {
      assert objs[..i][k] == objs[k] && objs[..i + 1][k] == objs[k];
    }
    if NeedsFetch(s, objs[i]) && cluster(objs[i].id).GetFailed? {
      assert objs[..i + 1][i] == objs[i];
    }
  }

  /** The objects are to be cached and have the given values. */
  ghost predicate ToCache(objs: seq<Cached>, values: seq<Object>)
    reads set c | c in objs :: c.obj
  {
    && |objs| == |values|
    && (forall i :: 0 <= i < |objs| ==> objs[i].obj.View() == values[i] && !objs[i].deleted)
  }

  /** Reads one declared object from the cluster if it ignores mutations and is
      not cached. */
  method FetchMissing(obj: LiveObject, r: Resources, cluster: Cluster) returns (failed: bool, u: Option<LiveObject>)
    requires r.Valid()
    ensures failed <==> NeedsFetch(r.contents, obj.View()) && cluster(obj.id).GetFailed?
    ensures u.Some? <==> NeedsFetch(r.contents, obj.View()) && cluster(obj.id).Found?
    ensures u.Some? ==> fresh(u.value) && u.value.View() == Fetched(cluster, obj.id)
  {
    failed, u := false, None;
    if IgnoresMutation(obj.View()) {
      var cached := r.GetIgnored(obj.id);
      if cached.None? {
        var answer := cluster(obj.id);
        if answer.GetFailed? {
          failed := true;
        } else if answer.Found? {
          var fetched := new LiveObject(Fetched(cluster, obj.id));
          u := Some(fetched);
        }
      }
    }
  }

  /** The loop over the declared objects; nothing is cached yet. */
  method FetchAllMissing(objs: seq<LiveObject>, r: Resources, cluster: Cluster, ghost values: seq<Object>)
    returns (ok: bool, toUpdate: seq<Cached>)
    requires r.Valid()
    requires |objs| == |values| && forall i :: 0 <= i < |objs| ==> objs[i].View() == values[i]
    ensures ok <==> !FetchFails(cluster, r.contents, values)
    ensures ok ==> ToCache(toUpdate, NewlyFetched(cluster, r.contents, values))
  {
    ok, toUpdate := true, [];
    for i := 0 to |objs|
      invariant ok && !FetchFails(cluster, r.contents, values[..i])
      invariant ToCache(toUpdate, NewlyFetched(cluster, r.contents, values[..i]))
    {
      FetchOneMore(cluster, r.contents, values, i);
      var failed, u := FetchMissing(objs[i], r, cluster);
      if failed {
        ok := false;
        return;
      }
      if u.Some? {
        toUpdate := toUpdate + [Cached(u.value, false)];
      }
    }
    assert values[..|objs|] == values;
  }

  lemma CachingFetched(strip: Strip, cluster: Cluster, s: Store, objs: seq<Object>, toUpdate: seq<Cached>)
    requires ToCache(toUpdate, NewlyFetched(cluster, s, objs))
    ensures AllSanitizable(strip, toUpdate) <==> !Crashes(strip, cluster, s, objs)
    ensures AllSanitizable(strip, toUpdate) ==> HasEntries(strip, toUpdate, NewEntries(strip, cluster, s, objs))
  {
    EntriesOfFetched(strip, cluster, s, objs);
    assert AllSanitizable(strip, toUpdate) <==> AllConvert(strip, NewlyFetched(cluster, s, objs));
  }

  method StoredObjects(r: Resources) returns (objs: seq<LiveObject>)
    requires r.Valid()
    ensures |objs| == |DeclaredOf(r.contents)|
    ensures forall i :: 0 <= i < |objs| ==> objs[i].View() == DeclaredOf(r.contents)[i] && objs[i] in r.DeclaredSet()
  {
    objs := r.DeclaredObjects();
  }

  datatype CacheResult = CacheCompleted | ReadFailed | Crashed

  method CacheIgnoreMutationObjects(r: Resources, strip: Strip, cluster: Cluster) returns (result: CacheResult)
    requires r.Valid() && KeyedStore(r.contents)
    modifies r`mutationIgnored, r`contents
    ensures r.Valid()
    ensures result.ReadFailed? <==> FetchFails(cluster, old(r.contents), DeclaredOf(old(r.contents)))
    ensures result.Crashed? <==>
              !result.ReadFailed? && Crashes(strip, cluster, old(r.contents), DeclaredOf(old(r.contents)))
    ensures r.contents
            == if result.CacheCompleted? then WithNewEntries(strip, cluster, old(r.contents)) else old(r.contents)
  {
    ghost var values := DeclaredOf(r.contents);
    var objs := StoredObjects(r);
    var ok, toUpdate := FetchAllMissing(objs, r, cluster, values);
    if !ok {
      return ReadFailed;
    }
    CachingFetched(strip, cluster, r.contents, values, toUpdate);
    var crashed := r.UpdateIgnored(strip, toUpdate, NewEntries(strip, cluster, r.contents, values));
    return if crashed then Crashed else CacheCompleted;
  }

  /** The objects whose management is disabled, or those whose is not, in order. */
  function Select(objs: seq<LiveObject>, disabled: bool): seq<LiveObject>
    reads objs
  {
    if objs == [] then []
    else
      var init, last := Select(objs[..|objs| - 1], disabled), objs[|objs| - 1];
      if IsManagementDisabled(last.View()) == disabled then init + [last] else init
  }

  /** Splits a list into its enabled and its disabled objects. */
  method PartitionObjs(objs: seq<LiveObject>) returns (enabled: seq<LiveObject>, disabled: seq<LiveObject>)
    ensures enabled == Select(objs, false) && disabled == Select(objs, true)
  {
    enabled, disabled := [], [];
    for i := 0 to |objs|
      invariant enabled == Select(objs[..i], false) && disabled == Select(objs[..i], true)
    {
      assert objs[..i + 1][..i] == objs[..i];
      if IsManagementDisabled(objs[i].View()) {
        disabled := disabled + [objs[i]];
      } else {
        enabled := enabled + [objs[i]];
      }
    }
    assert objs[..|objs|] == objs;
  }

  /** The list for the applier: entry by entry what Sent says, either the given
      object itself or a new one. The method changes no object that was there
      before, so neither the cache nor the declared store. */
  method HandleIgnoredObjects(enabled: seq<LiveObject>, r: Resources) returns (all: seq<LiveObject>)
    requires r.Valid() && KeyedStore(r.contents)
    ensures |all| == |enabled|
    ensures forall i :: 0 <= i < |all| ==>
              all[i].id == enabled[i].id && all[i].View() == Sent(r.contents, enabled[i].View())
    ensures forall i :: 0 <= i < |all| ==> all[i] == enabled[i] || fresh(all[i])
  {
    all := [];
    for i := 0 to |enabled|
      invariant |all| == i
      invariant forall j :: 0 <= j < i ==> all[j].View() == Sent(r.contents, enabled[j].View())
      invariant forall j :: 0 <= j < i ==> all[j] == enabled[j] || fresh(all[j])
    {
      var cached := r.GetIgnored(enabled[i].id);
      if cached.Some? && !cached.value.deleted {
        UpdateConfigSyncMetadata(enabled[i], cached.value.obj);
        all := all + [cached.value.obj];
      } else {
        all := all + [enabled[i]];
      }
    }
    forall i | 0 <= i < |all|
      ensures all[i].id == enabled[i].id
    {
      SentObject(r.contents, enabled[i].View());
    }
  }

  // The whole way from the store to the applier.

  /** The declarations whose management is not disabled, in order. */
  function EnabledOf(values: seq<Object>): seq<Object> {
    if values == [] then []
    else
      var init, last := EnabledOf(values[..|values| - 1]), values[|values| - 1];
      if IsManagementDisabled(last) then init else init + [last]
  }

  lemma {:induction false} SelectViews(objs: seq<LiveObject>, values: seq<Object>)
    requires |objs| == |values| && forall i :: 0 <= i < |objs| ==> objs[i].View() == values[i]
    ensures |Select(objs, false)| == |EnabledOf(values)|
    ensures forall i :: 0 <= i < |EnabledOf(values)| ==> Select(objs, false)[i].View() == EnabledOf(values)[i]
  {
    if objs != [] {
      SelectViews(objs[..|objs| - 1], values[..|values| - 1]);
    }
  }

  /** The list in the applier's form, or false if a conversion fails. */
  method ToUnstructured(strip: Strip, objs: seq<LiveObject>, ghost values: seq<Object>)
    returns (ok: bool, unstructureds: seq<LiveObject>)
    requires |objs| == |values| && forall i :: 0 <= i < |objs| ==> objs[i].View() == values[i]
    ensures ok <==> forall i :: 0 <= i < |values| ==> Sanitized(strip, values[i]).Some?
    ensures ok ==> |unstructureds| == |values|
                   && forall i :: 0 <= i < |values| ==> Some(unstructureds[i].View()) == Sanitized(strip, values[i])
  {
    ok, unstructureds := true, [];
    for i := 0 to |objs|
      invariant ok <==> forall j :: 0 <= j < i ==> Sanitized(strip, values[j]).Some?
      invariant ok ==> |unstructureds| == i
      invariant ok ==> forall j :: 0 <= j < i ==> Some(unstructureds[j].View()) == Sanitized(strip, values[j])
    {
      var u := Sanitized(strip, objs[i].View());
      if u.None? {
        ok := false;
      } else {
        var copy := new LiveObject(u.value);
        unstructureds := unstructureds + [copy];
      }
    }
  }

  /** What is sent for the enabled declarations, in order. */
  function SentList(s: Store, values: seq<Object>): seq<Object> {
    seq(|EnabledOf(values)|, i requires 0 <= i < |EnabledOf(values)| => Sent(s, EnabledOf(values)[i]))
  }

  predicate AllEnabled(values: seq<Object>) {
    forall i :: 0 <= i < |values| ==> !IsManagementDisabled(values[i])
  }

  lemma {:induction false} NoneDisabled(objs: seq<LiveObject>, values: seq<Object>)
    requires |objs| == |values| && forall i :: 0 <= i < |objs| ==> objs[i].View() == values[i]
    ensures Select(objs, true) == [] <==> AllEnabled(values)
  {
    if objs != [] {
      var last := |objs| - 1;
      NoneDisabled(objs[..last], values[..last]);
      assert AllEnabled(values) <==> AllEnabled(values[..last]) && !IsManagementDisabled(values[last]);
    }
  }

  method OverlayEnabled(objs: seq<LiveObject>, r: Resources, strip: Strip, ghost values: seq<Object>, disablingOk: bool)
    returns (ok: bool, all: seq<LiveObject>)
    requires r.Valid() && KeyedStore(r.contents)
    requires |objs| == |values| && forall i :: 0 <= i < |objs| ==> objs[i].View() == values[i]
    ensures ok <==> (disablingOk || AllEnabled(values)) && AllConvert(strip, SentList(r.contents, values))
    ensures ok ==> var sent := SentList(r.contents, values);
                   |all| == |sent| && forall i :: 0 <= i < |all| ==> Some(all[i].View()) == Sanitized(strip, sent[i])
    ensures !ok ==> all == []
  {
    var enabled, disabled := PartitionObjs(objs);
    NoneDisabled(objs, values);
    if |disabled| > 0 && !disablingOk {
      return false, [];
    }
    SelectViews(objs, values);
    all := HandleIgnoredObjects(enabled, r);
    ok, all := ToUnstructured(strip, all, SentList(r.contents, values));
    if !ok {
      all := [];
    }
  }

  lemma CachingKeepsKeyed(strip: Strip, cluster: Cluster, s: Store)
    requires KeyedStore(s)
    requires s.declared.Some? ==> s.declared.value.Valid()
    requires s.ignored.Some? ==> s.ignored.value.Valid()
    ensures KeyedStore(WithNewEntries(strip, cluster, s))
  {
    CallKeepsKeyed(strip, s, UpdateIgnoredCall(NewEntries(strip, cluster, s, DeclaredOf(s))));
  }

  /** What an apply sends: exactly the enabled declarations in declared order, each
      as Sent says on the cache that the same apply has just completed, and converted.
      Nothing is sent when caching fails, when there are disabled objects and the
      attempt to give them up fails, or when a conversion fails; in the latter two
      cases the cache has been completed. */
  method ObjectsToApply(r: Resources, strip: Strip, cluster: Cluster, disablingOk: bool)
    returns (result: CacheResult, ok: bool, all: seq<LiveObject>)
    requires r.Valid() && KeyedStore(r.contents)
    modifies r`mutationIgnored, r`contents
    ensures r.Valid()
    ensures result.ReadFailed? <==> FetchFails(cluster, old(r.contents), DeclaredOf(old(r.contents)))
    ensures result.Crashed? <==>
              !result.ReadFailed? && Crashes(strip, cluster, old(r.contents), DeclaredOf(old(r.contents)))
    ensures r.contents
            == if result.CacheCompleted? then WithNewEntries(strip, cluster, old(r.contents)) else old(r.contents)
    ensures ok <==>
              && result.CacheCompleted? && (disablingOk || AllEnabled(DeclaredOf(old(r.contents))))
              && AllConvert(strip, SentList(r.contents, DeclaredOf(old(r.contents))))
    ensures ok ==> var sent := SentList(r.contents, DeclaredOf(old(r.contents)));
                   |all| == |sent| && forall i :: 0 <= i < |all| ==> Some(all[i].View()) == Sanitized(strip, sent[i])
    ensures !ok ==> all == []
  {
    ghost var values := DeclaredOf(r.contents);
    var objs := StoredObjects(r);
    CachingKeepsKeyed(strip, cluster, r.contents);
    result := CacheIgnoreMutationObjects(r, strip, cluster);
    ok, all := false, [];
    if result.CacheCompleted? {
      ok, all := OverlayEnabled(objs, r, strip, values, disablingOk);
    }
  }
}
