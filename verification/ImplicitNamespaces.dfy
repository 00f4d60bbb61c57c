/** Declaring the Namespaces that declared objects live in but nobody declares
    (pkg/parse/root_sync_parser.go). */
module ImplicitNamespaces {
  import opened Managers
  import opened Objects
  import opened Metadata
  import opened Precedence
  import opened Diffs
  import opened OrderedMaps

  /** What reading the Namespace of a given name returns. */
  type NamespaceLookup = string -> Answer

  function NamespaceID(ns: string): ID {
    ID(NAMESPACE_KIND, "", ns)
  }

  /** The Namespace that is declared on the user's behalf. Losing the objects in
      it must not delete it. */
  function ImplicitNamespace(ns: string): Object {
    Object(NamespaceID(ns), map[LIFECYCLE_DELETE_KEY := PREVENT_DELETION], map[], 0, "")
  }

  // What the input asks for.

  predicate Declares(objs: seq<Object>, ns: string) {
    exists o :: o in objs && o.id.groupKind == NAMESPACE_KIND && o.id.name == ns
  }

  predicate References(objs: seq<Object>, ns: string) {
    ns != "" && exists o :: o in objs && o.id.groupKind != NAMESPACE_KIND && o.id.namespace == ns
  }

  /** The Namespace is missing from the input and may have to be added. */
  predicate Undeclared(objs: seq<Object>, ns: string) {
    References(objs, ns) && !Declares(objs, ns) && ns != CONTROLLER_NAMESPACE
  }

  /** It does not exist, or this sync itself manages it. */
  predicate MayAdd(scope: Scope, syncName: string, lookup: NamespaceLookup, ns: string) {
    match lookup(ns)
    case NotFound => true
    case GetFailed => false
    case Found(o) => IsManager(scope, syncName, o.(id := NamespaceID(ns)))
  }

  /** The annotations of the cluster's Namespace say that it is this sync's own. */
  predicate OwnNamespace(scope: Scope, syncName: string, o: Object, ns: string) {
    && GetAnnotation(o, MANAGEMENT_MODE_KEY) == MANAGEMENT_ENABLED
    && GetAnnotation(o, RESOURCE_MANAGER_KEY) == ResourceManager(scope, syncName)
    && GetAnnotation(o, RESOURCE_ID_KEY) == GKNN(NamespaceID(ns))
  }

  predicate IsNewOrOwn(scope: Scope, syncName: string, answer: Answer, ns: string) {
    answer.NotFound? || (answer.Found? && OwnNamespace(scope, syncName, answer.obj, ns))
  }

  // What the loops compute.

  /** The first loop: Namespaces in the order of their first mention, with whether
      they are declared. */
  function Mentioned(objs: seq<Object>): OrderedMap<string, bool> {
    if objs == [] then Empty()
    else
      var m, o := Mentioned(objs[..|objs| - 1]), objs[|objs| - 1];
      if o.id.groupKind == NAMESPACE_KIND then m.Set(o.id.name, true)
      else if o.id.namespace != "" && o.id.namespace !in m.values then m.Set(o.id.namespace, false)
      else m
  }

  function Keep(names: seq<string>, p: string -> bool): (r: seq<string>)
    ensures forall n :: n in r <==> n in names && p(n)
    ensures Distinct(names) ==> Distinct(r)
  {
    if names == [] then []
    else
      var init, last := Keep(names[..|names| - 1], p), names[|names| - 1];
      assert forall n :: n in names <==> n in names[..|names| - 1] || n == last;
      assert Distinct(names) ==> Distinct(names[..|names| - 1]) && last !in names[..|names| - 1];
      if p(last) then init + [last] else init
  }

  predicate Candidate(m: OrderedMap<string, bool>, ns: string) {
    ns in m.values && !m.values[ns] && ns != CONTROLLER_NAMESPACE
  }

  function Wanted(scope: Scope, syncName: string, lookup: NamespaceLookup, m: OrderedMap<string, bool>)
    : string -> bool
  {
    ns => Candidate(m, ns) && MayAdd(scope, syncName, lookup, ns)
  }

  function Failing(lookup: NamespaceLookup, m: OrderedMap<string, bool>): string -> bool {
    ns => Candidate(m, ns) && lookup(ns).GetFailed?
  }

  function Added(scope: Scope, syncName: string, lookup: NamespaceLookup, objs: seq<Object>): seq<string> {
    Keep(Mentioned(objs).keys, Wanted(scope, syncName, lookup, Mentioned(objs)))
  }

  function Failed(lookup: NamespaceLookup, objs: seq<Object>): seq<string> {
    Keep(Mentioned(objs).keys, Failing(lookup, Mentioned(objs)))
  }

  function ImplicitObjects(names: seq<string>): seq<Object> {
    seq(|names|, i requires 0 <= i < |names| => ImplicitNamespace(names[i]))
  }

  function WithImplicit(scope: Scope, syncName: string, lookup: NamespaceLookup, objs: seq<Object>): seq<Object> {
    objs + ImplicitObjects(Added(scope, syncName, lookup, objs))
  }

  // The result against the input.

  lemma MentionSnoc(objs: seq<Object>, o: Object, ns: string)
    ensures Declares(objs + [o], ns) <==> Declares(objs, ns) || (o.id.groupKind == NAMESPACE_KIND && o.id.name == ns)
    ensures References(objs + [o], ns) <==>
              References(objs, ns) || (ns != "" && o.id.groupKind != NAMESPACE_KIND && o.id.namespace == ns)
  {
  }

  lemma {:induction false} MentionedMeans(objs: seq<Object>, ns: string)
    ensures Mentioned(objs).Valid()
    ensures ns in Mentioned(objs).values <==> Declares(objs, ns) || References(objs, ns)
    ensures ns in Mentioned(objs).values ==> Mentioned(objs).values[ns] == Declares(objs, ns)
  {
    if objs != [] {
      var init, o := objs[..|objs| - 1], objs[|objs| - 1];
      MentionedMeans(init, ns);
      assert objs == init + [o];
      MentionSnoc(init, o, ns);
    }
  }

  /** Exactly which Namespaces are added, each once, and which are reported as
      failed lookups, for every input and in particular every order of it. */
  lemma AddedExactly(scope: Scope, syncName: string, lookup: NamespaceLookup, objs: seq<Object>, ns: string)
    ensures ns in Added(scope, syncName, lookup, objs)
            <==> Undeclared(objs, ns) && IsNewOrOwn(scope, syncName, lookup(ns), ns)
    ensures ns in Failed(lookup, objs) <==> Undeclared(objs, ns) && lookup(ns).GetFailed?
    ensures Distinct(Added(scope, syncName, lookup, objs)) && Distinct(Failed(lookup, objs))
  {
    MentionedMeans(objs, ns);
  }

  lemma DeclaresWithImplicit(scope: Scope, syncName: string, lookup: NamespaceLookup, objs: seq<Object>, ns: string)
    ensures Declares(WithImplicit(scope, syncName, lookup, objs), ns)
            <==> Declares(objs, ns) || ns in Added(scope, syncName, lookup, objs)
    ensures References(WithImplicit(scope, syncName, lookup, objs), ns) <==> References(objs, ns)
  {
    var names := Added(scope, syncName, lookup, objs);
    var extra := ImplicitObjects(names);
    var all := WithImplicit(scope, syncName, lookup, objs);
    assert forall x :: x in all <==> x in objs || x in extra;
    assert forall x :: x in extra ==> x.id.groupKind == NAMESPACE_KIND && x.id.name in names;
    if ns in names {
      var i :| 0 <= i < |names| && names[i] == ns;
      assert extra[i] in extra && extra[i].id.name == ns;
    }
  }

  /** An appended Namespace does not exist yet, or it is enabled, was not copied and
      carries this sync's manager annotation. */
  lemma AddedIsNewOrOwn(scope: Scope, syncName: string, lookup: NamespaceLookup, objs: seq<Object>, ns: string)
    requires ns in Added(scope, syncName, lookup, objs)
    ensures References(objs, ns) && !Declares(objs, ns) && ns != CONTROLLER_NAMESPACE
    ensures IsNewOrOwn(scope, syncName, lookup(ns), ns)
  {
    AddedExactly(scope, syncName, lookup, objs, ns);
  }

  /** Root reconcilers do not fight over a Namespace: if the cluster's is stamped by
      one decodable sync, no other decodable sync appends it. */
  lemma OthersNamespaceIsNotAdded(scope: Scope, syncName: string, lookup: NamespaceLookup,
                                  objs: seq<Object>, ns: string,
                                  ownerScope: Scope, ownerName: string, csm: ConfigSyncMetadata, o: Object)
    requires DecodableSync(scope, syncName) && DecodableSync(ownerScope, ownerName)
    requires (scope, syncName) != (ownerScope, ownerName)
    requires csm.manager == ResourceManager(ownerScope, ownerName) && lookup(ns) == Found(Stamped(csm, o))
    ensures ns !in Added(scope, syncName, lookup, objs)
  {
    StampReadsBack(csm, o);
    if ns in Added(scope, syncName, lookup, objs) {
      AddedIsNewOrOwn(scope, syncName, lookup, objs, ns);
      ResourceManagerInjective(scope, syncName, ownerScope, ownerName);
    }
  }

  /** Nor does a sync take over a Namespace that nobody manages. */
  lemma UnmanagedNamespaceIsNotAdded(scope: Scope, syncName: string, lookup: NamespaceLookup, objs: seq<Object>,
                                     ns: string)
    requires lookup(ns).Found? && !IsManagementEnabled(lookup(ns).obj)
    ensures ns !in Added(scope, syncName, lookup, objs)
  {
    if ns in Added(scope, syncName, lookup, objs) {
      AddedIsNewOrOwn(scope, syncName, lookup, objs, ns);
    }
  }

  /** Every referenced Namespace is accounted for in at least one way. */
  lemma EveryReferenceAccounted(scope: Scope, syncName: string, lookup: NamespaceLookup, objs: seq<Object>, ns: string)
    requires References(objs, ns)
    ensures Declares(WithImplicit(scope, syncName, lookup, objs), ns)
            <==> Declares(objs, ns) || ns in Added(scope, syncName, lookup, objs)
    ensures !Declares(WithImplicit(scope, syncName, lookup, objs), ns) ==>
              || ns == CONTROLLER_NAMESPACE
              || ns in Failed(lookup, objs)
              || (lookup(ns).Found? && !IsManager(scope, syncName, lookup(ns).obj.(id := NamespaceID(ns))))
  {
    AddedExactly(scope, syncName, lookup, objs, ns);
    DeclaresWithImplicit(scope, syncName, lookup, objs, ns);
  }

  /** The order of the input decides only the order of the output. */
  lemma OrderDoesNotMatter(scope: Scope, syncName: string, lookup: NamespaceLookup,
                           objs1: seq<Object>, objs2: seq<Object>, ns: string)
    requires multiset(objs1) == multiset(objs2)
    ensures ns in Added(scope, syncName, lookup, objs1) <==> ns in Added(scope, syncName, lookup, objs2)
    ensures ns in Failed(lookup, objs1) <==> ns in Failed(lookup, objs2)
  {
    AddedExactly(scope, syncName, lookup, objs1, ns);
    AddedExactly(scope, syncName, lookup, objs2, ns);
    forall o: Object
      ensures o in objs1 <==> o in objs2
    {
      assert o in objs1 <==> o in multiset(objs1);
      assert o in objs2 <==> o in multiset(objs2);
    }
  }

  lemma HasMember(names: seq<string>)
    requires names != []
    ensures exists ns :: ns in names
  {
    assert names[0] in names;
  }

  /** A second pass over the result adds nothing. */
  lemma AddingTwiceAddsNothing(scope: Scope, syncName: string, lookup: NamespaceLookup, objs: seq<Object>)
    ensures var r := WithImplicit(scope, syncName, lookup, objs);
            WithImplicit(scope, syncName, lookup, r) == r
  {
    var r := WithImplicit(scope, syncName, lookup, objs);
    var again := Added(scope, syncName, lookup, r);
    forall ns: string
      ensures ns !in again
    {
      AddedExactly(scope, syncName, lookup, r, ns);
      AddedExactly(scope, syncName, lookup, objs, ns);
      DeclaresWithImplicit(scope, syncName, lookup, objs, ns);
    }
    if again != [] {
      HasMember(again);
    }
  }

  /** Once the sync has applied an implicit Namespace, with its own stamp, later
      parses add it again, so that it is not pruned. */
  lemma AppliedNamespaceIsAddedAgain(scope: Scope, syncName: string, lookup: NamespaceLookup,
                                     objs: seq<Object>, ns: string, csm: ConfigSyncMetadata)
    requires csm.manager == ResourceManager(scope, syncName)
    requires Undeclared(objs, ns) && lookup(ns) == Found(Stamped(csm, ImplicitNamespace(ns)))
    ensures ns in Added(scope, syncName, lookup, objs)
  {
    StampMakesManager(scope, syncName, csm, ImplicitNamespace(ns));
    AddedExactly(scope, syncName, lookup, objs, ns);
    assert !IsManagementDisabled(ImplicitNamespace(ns)) by {
      KeyFacts();
    }
  }

  /** Losing the last object in it never deletes an implicit Namespace: once it
      is applied and no longer declared, the reconciler that its annotation decodes
      to abandons it and everybody else leaves it alone. */
  lemma ImplicitNamespaceIsNeverDeleted(scope: Scope, syncName: string, ns: string, csm: ConfigSyncMetadata,
                                        actorScope: Scope, actorName: string)
    requires ValidScope(scope) && csm.manager == ResourceManager(scope, syncName)
    ensures Diff(None, Some(Stamped(csm, ImplicitNamespace(ns)))).Operation(actorScope, actorName)
            == (if ReconcilerName(actorScope, actorName) == ReconcilerName(scope, DecodedName(scope, syncName))
                then Abandon else NoOp)
  {
    var o, s := ImplicitNamespace(ns), Stamped(csm, ImplicitNamespace(ns));
    KeyFacts();
    StampReadsBack(csm, o);
    assert !IsManagementDisabled(o) && HasPreventDeletion(s);
    DeleteOnlyByOwner(s, actorScope, actorName, scope, syncName);
    assert NAMESPACE_KIND.kind[0] == 'N' && ROOT_SYNC_KIND.kind[0] == 'R' && REPO_SYNC_KIND.kind[0] == 'R';
    assert !IsOwnSync(ReconcilerName(actorScope, actorName), s.id);
  }

  // The loops.

  method CollectNamespaces(objs: seq<Object>) returns (m: OrderedMap<string, bool>)
    ensures m == Mentioned(objs)
  {
    m := Empty();
    for i := 0 to |objs|
      invariant m == Mentioned(objs[..i])
    {
      assert objs[..i + 1][..i] == objs[..i];
      var o := objs[i];
      if o.id.groupKind == NAMESPACE_KIND {
        m := m.Set(o.id.name, true);
      } else if o.id.namespace != "" {
        if o.id.namespace !in m.values {
          m := m.Set(o.id.namespace, false);
        }
      }
    }
    assert objs[..|objs|] == objs;
  }

  lemma KeepSnoc(names: seq<string>, i: nat, p: string -> bool)
    requires i < |names|
    ensures Keep(names[..i + 1], p) == Keep(names[..i], p) + if p(names[i]) then [names[i]] else []
  {
    assert names[..i + 1][..i] == names[..i];
  }

  lemma ImplicitObjectsSnoc(names: seq<string>, ns: string)
    ensures ImplicitObjects(names + [ns]) == ImplicitObjects(names) + [ImplicitNamespace(ns)]
  {
  }

  /** What the second loop does about one Namespace. */
  method CheckNamespace(scope: Scope, syncName: string, lookup: NamespaceLookup,
                        m: OrderedMap<string, bool>, ns: string)
    returns (add: bool, failed: bool)
    requires ns in m.values
    ensures add <==> Candidate(m, ns) && MayAdd(scope, syncName, lookup, ns)
    ensures failed <==> Candidate(m, ns) && lookup(ns).GetFailed?
  {
    if m.values[ns] || ns == CONTROLLER_NAMESPACE {
      return false, false;
    }
    var answer := lookup(ns);
    if answer.GetFailed? {
      return false, true;
    }
    if answer.Found? && !IsManager(scope, syncName, answer.obj.(id := NamespaceID(ns))) {
      return false, false;
    }
    return true, false;
  }

  /** The second loop. */
  method CheckNamespaces(scope: Scope, syncName: string, lookup: NamespaceLookup, m: OrderedMap<string, bool>)
    returns (added: seq<Object>, errs: seq<string>)
    requires m.Valid()
    ensures added == ImplicitObjects(Keep(m.keys, Wanted(scope, syncName, lookup, m)))
    ensures errs == Keep(m.keys, Failing(lookup, m))
  {
    added, errs := [], [];
    ghost var names: seq<string> := [];
    for i := 0 to |m.keys|
      invariant names == Keep(m.keys[..i], Wanted(scope, syncName, lookup, m)) && added == ImplicitObjects(names)
      invariant errs == Keep(m.keys[..i], Failing(lookup, m))
    {
      var ns := m.keys[i];
      KeepSnoc(m.keys, i, Wanted(scope, syncName, lookup, m));
      KeepSnoc(m.keys, i, Failing(lookup, m));
      assert ns in m.keys;
      var add, failed := CheckNamespace(scope, syncName, lookup, m, ns);
      if failed {
        errs := errs + [ns];
      } else if add {
        ImplicitObjectsSnoc(names, ns);
        names := names + [ns];
        added := added + [ImplicitNamespace(ns)];
      }
    }
    assert m.keys[..|m.keys|] == m.keys;
  }

  method AddImplicitNamespaces(scope: Scope, syncName: string, lookup: NamespaceLookup, objs: seq<Object>)
    returns (r: seq<Object>, errs: seq<string>)
    ensures r == WithImplicit(scope, syncName, lookup, objs)
    ensures errs == Failed(lookup, objs) && Distinct(errs)
    ensures forall ns :: Declares(r, ns) <==>
              || Declares(objs, ns)
              || (References(objs, ns) && ns != CONTROLLER_NAMESPACE
                  && IsNewOrOwn(scope, syncName, lookup(ns), ns))
    ensures forall ns :: ns in errs <==> Undeclared(objs, ns) && lookup(ns).GetFailed?
  {
    var m := CollectNamespaces(objs);
    MentionedMeans(objs, "");
    var added;
    added, errs := CheckNamespaces(scope, syncName, lookup, m);
    r := objs + added;
    forall ns: string
      ensures Declares(r, ns) <==>
                || Declares(objs, ns)
                || (References(objs, ns) && ns != CONTROLLER_NAMESPACE
                    && IsNewOrOwn(scope, syncName, lookup(ns), ns))
      ensures ns in errs <==> Undeclared(objs, ns) && lookup(ns).GetFailed?
      ensures Distinct(errs)
    {
      AddedExactly(scope, syncName, lookup, objs, ns);
      DeclaresWithImplicit(scope, syncName, lookup, objs, ns);
    }
  }
}
