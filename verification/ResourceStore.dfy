/** The store of declared resources as an object that callers share
    (pkg/declared/resources.go). It holds objects of its own: what callers hand in
    is copied, and so is what it hands out, except by DeclaredObjects. Every
    method holds the store's lock, so calls are atomic. */
module ResourceStore {
  import opened Objects
  import opened OrderedMaps
  import opened Declared

  /** A cached object, or the object that was deleted from the cluster. */
  datatype Cached = Cached(obj: LiveObject, deleted: bool)

  /** The live objects are filed under the keys of v and have its values. */
  ghost predicate Holds(m: OrderedMap<ID, LiveObject>, v: DeclaredMap)
    reads m.values.Values
  {
    && m.Valid() && m.keys == v.keys && m.values.Keys == v.values.Keys
    && (forall id :: id in m.values ==> m.values[id].View() == v.values[id])
  }

  ghost predicate Caches(m: OrderedMap<ID, Cached>, v: OrderedMap<ID, CacheEntry>)
    reads set c | c in m.values.Values :: c.obj
  {
    && m.Valid() && m.keys == v.keys && m.values.Keys == v.values.Keys
    && (forall id :: id in m.values ==> CacheEntry(m.values[id].obj.View(), m.values[id].deleted) == v.values[id])
  }

  lemma HoldsOneMore(m: OrderedMap<ID, LiveObject>, v: DeclaredMap, id: ID, o: LiveObject)
    requires Holds(m, v)
    ensures Holds(m.Set(id, o), v.Set(id, o.View()))
    ensures m.Set(id, o).values.Values <= m.values.Values + {o}
  {
  }

  lemma CachesOneMore(m: OrderedMap<ID, Cached>, v: OrderedMap<ID, CacheEntry>, id: ID, c: Cached)
    requires Caches(m, v)
    ensures Caches(m.Set(id, c), v.Set(id, CacheEntry(c.obj.View(), c.deleted)))
    ensures m.Set(id, c).values.Values <= m.values.Values + {c}
  {
  }

  /** The objects a caller passes, nil objects included, as values. */
  ghost predicate HasItems(objects: seq<LiveObject?>, items: seq<Option<Object>>)
    reads set o | o in objects && o != null
  {
    && |objects| == |items|
    && (forall i :: 0 <= i < |objects| ==> items[i] == if objects[i] == null then None else Some(objects[i].View()))
  }

  function NonNil(objects: seq<LiveObject?>): (r: seq<LiveObject>)
    ensures |r| <= |objects| && forall o :: o in r ==> o in objects
  {
    if objects == [] then []
    else
      var init, last := NonNil(objects[..|objects| - 1]), objects[|objects| - 1];
      if last == null then init else init + [last]
  }

  /** Every object that is not nil is kept, in its place. */
  lemma {:induction false} NonNilKeepsAll(objects: seq<LiveObject?>, i: nat)
    requires i < |objects| && objects[i] != null
    ensures NonNil(objects[..i]) + [objects[i]] <= NonNil(objects)
  {
    var last := |objects| - 1;
    if i < last {
      NonNilKeepsAll(objects[..last], i);
      assert objects[..last][..i] == objects[..i];
    }
  }

  /** What the cache makes of the objects a caller passes. */
  ghost predicate HasEntries(strip: Strip, objs: seq<Cached>, entries: seq<CacheEntry>)
    reads set c | c in objs :: c.obj
  {
    && |objs| == |entries|
    && (forall i :: 0 <= i < |objs| ==>
          && entries[i].deleted == objs[i].deleted
          && Some(entries[i].obj)
             == if objs[i].deleted then Some(objs[i].obj.View()) else Sanitized(strip, objs[i].obj.View()))
  }

  /** No conversion fails; deletion marks are not converted. */
  ghost predicate AllSanitizable(strip: Strip, objs: seq<Cached>)
    reads set c | c in objs :: c.obj
  {
    forall i :: 0 <= i < |objs| ==> objs[i].deleted || Sanitized(strip, objs[i].obj.View()).Some?
  }

  function OrEmpty(m: Option<OrderedMap<ID, Cached>>): OrderedMap<ID, Cached> {
    if m.Some? then m.value else Empty()
  }

  method NonNilObjects(objects: seq<LiveObject?>) returns (r: seq<LiveObject>)
    ensures r == NonNil(objects)
  {
    r := [];
    for i := 0 to |objects|
      invariant r == NonNil(objects[..i])
    {
      assert objects[..i + 1][..i] == objects[..i];
      if objects[i] != null {
        r := r + [objects[i]];
      }
    }
    assert objects[..|objects|] == objects;
  }

  /** Files a new object under id. */
  method SetCopy(m: OrderedMap<ID, LiveObject>, id: ID, value: Object, ghost v: DeclaredMap)
    returns (r: OrderedMap<ID, LiveObject>)
    requires Holds(m, v)
    ensures Holds(r, v.Set(id, value))
    ensures forall o :: o in r.values.Values ==> o in m.values.Values || fresh(o)
  {
    var copy := new LiveObject(value);
    HoldsOneMore(m, v, id, copy);
    r := m.Set(id, copy);
  }

  /** Copies the declarations into a new map; None when one of them cannot be
      converted. */
  method CopyDeclarations(strip: Strip, objects: seq<LiveObject?>, ghost items: seq<Option<Object>>)
    returns (newSet: Option<OrderedMap<ID, LiveObject>>, newObjects: seq<LiveObject>)
    requires HasItems(objects, items)
    ensures newSet.Some? <==> BuildSet(strip, items).Some?
    ensures newSet.Some? ==>
              && Holds(newSet.value, BuildSet(strip, items).value)
              && fresh(newSet.value.values.Values)
              && newObjects == NonNil(objects)
  {
    newObjects := NonNilObjects(objects);
    var m := Empty<ID, LiveObject>();
    for i := 0 to |objects|
      invariant BuildSet(strip, items[..i]).Some? && Holds(m, BuildSet(strip, items[..i]).value)
      invariant fresh(m.values.Values)
    {
      BuildOneMore(strip, items, i);
      if objects[i] != null {
        var u := Sanitized(strip, objects[i].View());
        if u.None? {
          BuildFailsExactly(strip, items);
          return None, [];
        }
        m := SetCopy(m, objects[i].id, u.value, BuildSet(strip, items[..i]).value);
      }
    }
    assert items[..|objects|] == items;
    newSet := Some(m);
  }

  /** Caches an object: a sanitized copy, or the deletion mark as it is. */
  method CacheOne(strip: Strip, m: OrderedMap<ID, Cached>, c: Cached,
                  ghost v: OrderedMap<ID, CacheEntry>, ghost e: CacheEntry)
    returns (r: OrderedMap<ID, Cached>)
    requires Caches(m, v)
    requires HasEntries(strip, [c], [e])
    ensures Caches(r, v.Set(e.obj.id, e))
    ensures forall x :: x in r.values.Values ==> x in m.values.Values || fresh(x.obj) || (c.deleted && x == c)
  {
    assert [c][0] == c && [e][0] == e;
    var entry := c;
    if !c.deleted {
      var copy := new LiveObject(Sanitized(strip, c.obj.View()).value);
      entry := Cached(copy, false);
    }
    CachesOneMore(m, v, entry.obj.id, entry);
    r := m.Set(entry.obj.id, entry);
  }

  /** The loop that caches a list of objects. */
  method CacheAll(strip: Strip, m: OrderedMap<ID, Cached>, objs: seq<Cached>,
                  ghost start: OrderedMap<ID, CacheEntry>, ghost entries: seq<CacheEntry>)
    returns (r: OrderedMap<ID, Cached>)
    requires Caches(m, start) && HasEntries(strip, objs, entries)
    ensures Caches(r, SetAll(start, entries))
    ensures forall c :: c in r.values.Values ==> c in m.values.Values || fresh(c.obj) || (c.deleted && c in objs)
  {
    r := m;
    for i := 0 to |objs|
      invariant Caches(r, SetAll(start, entries[..i]))
      invariant forall c :: c in r.values.Values ==> c in m.values.Values || fresh(c.obj) || (c.deleted && c in objs)
    {
      assert entries[..i + 1][..i] == entries[..i];
      r := CacheOne(strip, r, objs[i], SetAll(start, entries[..i]), entries[i]);
    }
    assert entries[..|objs|] == entries;
  }

  /** Whether that loop comes across an object that it cannot sanitize. */
  method CannotSanitize(strip: Strip, objs: seq<Cached>) returns (found: bool)
    ensures found <==> !AllSanitizable(strip, objs)
  {
    for i := 0 to |objs|
      invariant AllSanitizable(strip, objs[..i])
    {
      if !objs[i].deleted && Sanitized(strip, objs[i].obj.View()).None? {
        return true;
      }
    }
    assert objs[..|objs|] == objs;
    return false;
  }

  method NamespaceNames(keys: seq<ID>) returns (names: seq<string>)
    ensures |names| == CountNamespaces(keys)
  {
    names := [];
    for i := 0 to |keys|
      invariant |names| == CountNamespaces(keys[..i])
    {
      assert keys[..i + 1][..i] == keys[..i];
      if keys[i].groupKind == NAMESPACE_KIND {
        names := names + [keys[i].name];
      }
    }
    assert keys[..|keys|] == keys;
  }

  /** The namespace failsafe: two loops that collect Namespace names, and a
      comparison. */
  method DeletesAllNamespacesCheck(previous: Option<OrderedMap<ID, LiveObject>>, current: seq<ID>)
    returns (deletesAll: bool)
    ensures deletesAll <==> CountNamespaces(current) == 0 && previous.Some? && CountNamespaces(previous.value.keys) >= 2
  {
    var previousNamespaces, currentNamespaces := [], [];
    if previous.Some? {
      previousNamespaces := NamespaceNames(previous.value.keys);
    }
    currentNamespaces := NamespaceNames(current);
    deletesAll := |currentNamespaces| == 0 && |previousNamespaces| >= 2;
  }

  class Resources {
    var declaredObjects: Option<OrderedMap<ID, LiveObject>>
    var mutationIgnored: Option<OrderedMap<ID, Cached>>
    var commit: string
    var previousCommit: string
    /** The store as a value. */
    ghost var contents: Store

    ghost function DeclaredSet(): set<LiveObject>
      reads this
    {
      if declaredObjects.Some? then declaredObjects.value.values.Values else {}
    }

    ghost function IgnoredSet(): set<LiveObject>
      reads this
    {
      if mutationIgnored.Some? then set c | c in mutationIgnored.value.values.Values :: c.obj else {}
    }

    ghost predicate Valid()
      reads this, DeclaredSet(), IgnoredSet()
    {
      && (declaredObjects.Some? <==> contents.declared.Some?)
      && (declaredObjects.Some? ==> Holds(declaredObjects.value, contents.declared.value))
      && (mutationIgnored.Some? <==> contents.ignored.Some?)
      && (mutationIgnored.Some? ==> Caches(mutationIgnored.value, contents.ignored.value))
      && commit == contents.commit
      && previousCommit == contents.previousCommit
    }

    constructor ()
      ensures Valid() && contents == EMPTY_STORE
    {
      declaredObjects, mutationIgnored, commit, previousCommit := None, None, "", "";
      contents := EMPTY_STORE;
    }

    /** The new state, once the update is accepted. */
    method Replace(newSet: OrderedMap<ID, LiveObject>, newCommit: string, ghost next: Store)
      requires Valid() && next.declared.Some? && Holds(newSet, next.declared.value)
      requires next == contents.(declared := next.declared, commit := newCommit, previousCommit := newCommit)
      modifies this
      ensures Valid() && contents == next && mutationIgnored == old(mutationIgnored)
      ensures declaredObjects == Some(newSet)
    {
      previousCommit := newCommit;
      declaredObjects := Some(newSet);
      commit := newCommit;
      contents := next;
    }

    method UpdateDeclared(strip: Strip, objects: seq<LiveObject?>, newCommit: string, ghost items: seq<Option<Object>>)
      returns (newObjects: seq<LiveObject>, ok: bool)
      requires Valid() && HasItems(objects, items)
      modifies this
      ensures Valid() && mutationIgnored == old(mutationIgnored)
      ensures contents == Declared.UpdateDeclared(strip, old(contents), items, newCommit)
      ensures ok <==> Accepted(strip, old(contents), items)
      ensures ok ==> newObjects == NonNil(objects) && fresh(DeclaredSet())
      ensures !ok ==> declaredObjects == old(declaredObjects)
    {
      var newSet;
      newSet, newObjects := CopyDeclarations(strip, objects, items);
      if newSet.None? {
        return [], false;
      }
      var deletesAll := DeletesAllNamespacesCheck(declaredObjects, newSet.value.keys);
      if deletesAll {
        return [], false;
      }
      Replace(newSet.value, newCommit, Declared.UpdateDeclared(strip, contents, items, newCommit));
      ok := true;
    }

    /** A copy of the declaration of id, and the commit it came from. */
    method GetDeclared(id: ID) returns (obj: LiveObject?, atCommit: string, found: bool)
      requires Valid()
      ensures found <==> contents.declared.Some? && id in contents.declared.value.values
      ensures found ==> obj != null && fresh(obj) && obj.View() == contents.declared.value.values[id]
      ensures !found ==> obj == null
      ensures atCommit == contents.commit
    {
      if declaredObjects.None? || |declaredObjects.value.values| == 0 {
        return null, commit, false;
      }
      if id !in declaredObjects.value.values {
        return null, commit, false;
      }
      obj := new LiveObject(declaredObjects.value.values[id].View());
      return obj, commit, true;
    }

    /** The stored objects themselves, in order. */
    method DeclaredObjects() returns (objs: seq<LiveObject>)
      requires Valid()
      ensures contents.declared.None? ==> objs == []
      ensures contents.declared.Some? ==>
                && |objs| == |contents.declared.value.keys|
                && (forall i :: 0 <= i < |objs| ==>
                      && objs[i] in DeclaredSet()
                      && objs[i].View() == contents.declared.value.values[contents.declared.value.keys[i]])
    {
      objs := [];
      if declaredObjects.None? || |declaredObjects.value.values| == 0 {
        if declaredObjects.Some? {
          EmptyIffNoKeys(declaredObjects.value);
        }
        return;
      }
      var m := declaredObjects.value;
      for i := 0 to |m.keys|
        invariant |objs| == i && forall j :: 0 <= j < i ==> m.keys[j] in m.values && objs[j] == m.values[m.keys[j]]
      {
        objs := objs + [m.values[m.keys[i]]];
      }
    }

    method ReplaceCache(m: OrderedMap<ID, Cached>, ghost next: Store)
      requires Valid() && next.ignored.Some? && Caches(m, next.ignored.value)
      requires next == contents.(ignored := next.ignored)
      modifies this`mutationIgnored, this`contents
      ensures Valid() && contents == next && mutationIgnored == Some(m)
    {
      mutationIgnored := Some(m);
      contents := next;
    }

    method CacheObjects(strip: Strip, objs: seq<Cached>, ghost entries: seq<CacheEntry>)
      requires Valid() && HasEntries(strip, objs, entries)
      modifies this`mutationIgnored, this`contents
      ensures Valid()
      ensures contents == Declared.UpdateIgnored(old(contents), entries)
      ensures forall c :: c in OrEmpty(mutationIgnored).values.Values ==>
                || c in OrEmpty(old(mutationIgnored)).values.Values
                || fresh(c.obj) || (c.deleted && c in objs)
    {
      ghost var start := if contents.ignored.Some? then contents.ignored.value else Empty();
      var m := CacheAll(strip, OrEmpty(mutationIgnored), objs, start, entries);
      ReplaceCache(m, Declared.UpdateIgnored(contents, entries));
    }

    /** Caches the objects; entries are their values. An object that cannot be
        sanitized crashes the process, because the source drops the error and
        dereferences nil; the store is then lost. */
    method UpdateIgnored(strip: Strip, objs: seq<Cached>, ghost entries: seq<CacheEntry>) returns (crashed: bool)
      requires Valid()
      requires AllSanitizable(strip, objs) ==> HasEntries(strip, objs, entries)
      modifies this`mutationIgnored, this`contents
      ensures Valid()
      ensures crashed <==> !old(AllSanitizable(strip, objs))
      ensures contents == if crashed then old(contents) else Declared.UpdateIgnored(old(contents), entries)
      ensures !crashed ==> forall c :: c in OrEmpty(mutationIgnored).values.Values ==>
                             || c in OrEmpty(old(mutationIgnored)).values.Values
                             || fresh(c.obj) || (c.deleted && c in objs)
    {
      crashed := CannotSanitize(strip, objs);
      if !crashed {
        CacheObjects(strip, objs, entries);
      }
    }

    /** A copy of the cache entry of id. */
    method GetIgnored(id: ID) returns (entry: Option<Cached>)
      requires Valid()
      ensures entry.Some? <==> contents.ignored.Some? && id in contents.ignored.value.values
      ensures entry.Some? ==>
                fresh(entry.value.obj)
                && CacheEntry(entry.value.obj.View(), entry.value.deleted) == contents.ignored.value.values[id]
    {
      if mutationIgnored.None? || |mutationIgnored.value.values| == 0 || id !in mutationIgnored.value.values {
        return None;
      }
      var c := mutationIgnored.value.values[id];
      var copy := new LiveObject(c.obj.View());
      return Some(Cached(copy, c.deleted));
    }

    method DeleteIgnored(id: ID) returns (deleted: bool)
      requires Valid()
      modifies this`mutationIgnored, this`contents
      ensures Valid() && contents == Declared.DeleteIgnored(old(contents), id)
      ensures deleted <==> old(contents).ignored.Some? && id in old(contents).ignored.value.values
    {
      contents := Declared.DeleteIgnored(contents, id);
      if mutationIgnored.None? {
        return false;
      }
      var m := mutationIgnored.value;
      deleted := id in m.values;
      mutationIgnored := Some(m.Delete(id));
    }
  }

  /** Every list of objects that can be sanitized has its values. */
  lemma {:induction false} EntriesExist(strip: Strip, objs: seq<Cached>) returns (entries: seq<CacheEntry>)
    requires AllSanitizable(strip, objs)
    ensures HasEntries(strip, objs, entries)
  {
    entries := [];
    if objs != [] {
      var init, last := objs[..|objs| - 1], objs[|objs| - 1];
      entries := EntriesExist(strip, init);
      var value := if last.deleted then last.obj.View() else Sanitized(strip, last.obj.View()).value;
      entries := entries + [CacheEntry(value, last.deleted)];
      assert forall i :: 0 <= i < |init| ==> init[i] == objs[i];
    }
  }

  /** Editing an object after it was declared does not reach the store. */
  method EditAfterDeclaring(r: Resources, strip: Strip, o: LiveObject, commit: string, key: string, value: string)
    requires r.Valid() && o !in r.DeclaredSet() && o !in r.IgnoredSet()
    modifies r, o
    ensures r.Valid() && r.contents == Declared.UpdateDeclared(strip, old(r.contents), [Some(old(o.View()))], commit)
  {
    var _, _ := r.UpdateDeclared(strip, [o], commit, [Some(o.View())]);
    var _ := o.SetAnnotation(key, value);
  }

  /** Editing a declaration that was fetched does not reach the store. */
  method EditFetchedDeclaration(r: Resources, id: ID, key: string, value: string) returns (got: LiveObject?)
    requires r.Valid()
    ensures r.Valid() && r.contents == old(r.contents)
    ensures got != null ==>
              && r.contents.declared.Some? && id in r.contents.declared.value.values
              && got.annotations == r.contents.declared.value.values[id].annotations[key := value]
  {
    var obj, _, found := r.GetDeclared(id);
    if found {
      var _ := obj.SetAnnotation(key, value);
    }
    got := obj;
  }

  /** Nor does editing a cache entry that was fetched. */
  method EditFetchedEntry(r: Resources, id: ID, key: string, value: string) returns (entry: Option<Cached>)
    requires r.Valid()
    ensures r.Valid() && r.contents == old(r.contents)
    ensures entry.Some? ==>
              && r.contents.ignored.Some? && id in r.contents.ignored.value.values
              && entry.value.obj.annotations == r.contents.ignored.value.values[id].obj.annotations[key := value]
  {
    entry := r.GetIgnored(id);
    if entry.Some? {
      var _ := entry.value.obj.SetAnnotation(key, value);
    }
  }
}
