/** Scopes and manager annotations (pkg/declared/scope.go,
    pkg/declared/resource_manager.go). */
module Managers {
  import opened Strings
  import opened Names

  /** Either ROOT_SCOPE or the name of a namespace. */
  type Scope = string

  const ROOT_SCOPE: Scope := ":root"
  const CONTROLLER_NAMESPACE := "config-management-system"

  function ScopeFromSyncNamespace(syncNamespace: string): Scope {
    if syncNamespace == CONTROLLER_NAMESPACE then ROOT_SCOPE else syncNamespace
  }

  function SyncNamespace(scope: Scope): string {
    if scope == ROOT_SCOPE then CONTROLLER_NAMESPACE else scope
  }

  // Valid scopes: the root scope, or a subdomain as section 2.1 of RFC 1123
  // and the Kubernetes naming rules define it.

  predicate IsLowerAlnum(c: char) {
    'a' <= c <= 'z' || '0' <= c <= '9'
  }

  predicate IsDNS1123Label(s: string) {
    && s != ""
    && IsLowerAlnum(s[0])
    && IsLowerAlnum(s[|s| - 1])
    && forall i :: 0 <= i < |s| ==> IsLowerAlnum(s[i]) || s[i] == '-'
  }

  predicate IsDNS1123Subdomain(s: string) {
    && |s| <= 253
    && var labels := Split(s, '.');
       forall i :: 0 <= i < |labels| ==> IsDNS1123Label(labels[i])
  }

  predicate ValidScope(scope: Scope) {
    scope == ROOT_SCOPE || IsDNS1123Subdomain(scope)
  }

  /** A dot stands between two letters or digits. */
  predicate DotIsInside(s: string, i: nat)
    requires i < |s|
  {
    s[i] == '.' ==> 0 < i < |s| - 1 && IsLowerAlnum(s[i - 1]) && IsLowerAlnum(s[i + 1])
  }

  /** The same, character by character: lower-case letters, digits, dashes and dots,
      with a letter or digit at both ends and on both sides of every dot. */
  predicate IsSubdomainText(s: string) {
    && s != "" && IsLowerAlnum(s[0]) && IsLowerAlnum(s[|s| - 1])
    && (forall i :: 0 <= i < |s| ==> IsLowerAlnum(s[i]) || s[i] == '-' || s[i] == '.')
    && (forall i :: 0 <= i < |s| ==> DotIsInside(s, i))
  }

  lemma SubdomainApart(head: string, tail: string)
    requires '.' !in head && IsSubdomainText(head + ['.'] + tail)
    ensures IsDNS1123Label(head) && IsSubdomainText(tail)
  {
    var s, n := head + ['.'] + tail, |head|;
    assert DotIsInside(s, n) && s[n] == '.';
    assert forall i :: 0 <= i < n ==> s[i] == head[i];
    assert forall j :: 0 <= j < |tail| ==> s[n + 1 + j] == tail[j];
    forall j | 0 <= j < |tail|
      ensures DotIsInside(tail, j) && (IsLowerAlnum(tail[j]) || tail[j] == '-' || tail[j] == '.')
    {
      assert DotIsInside(s, n + 1 + j) && s[n + 1 + j] == tail[j];
    }
  }

  lemma SubdomainTogether(head: string, tail: string)
    requires IsDNS1123Label(head) && IsSubdomainText(tail)
    ensures IsSubdomainText(head + ['.'] + tail)
  {
    var s, n := head + ['.'] + tail, |head|;
    assert forall i :: 0 <= i < n ==> s[i] == head[i];
    assert forall j :: 0 <= j < |tail| ==> s[n + 1 + j] == tail[j];
    forall i | 0 <= i < |s|
      ensures DotIsInside(s, i) && (IsLowerAlnum(s[i]) || s[i] == '-' || s[i] == '.')
    {
      if i > n {
        assert DotIsInside(tail, i - n - 1) && s[i] == tail[i - n - 1];
      }
    }
  }

  lemma {:induction false} FirstDot(s: string) returns (n: nat)
    requires '.' in s
    ensures n < |s| && s[n] == '.' && '.' !in s[..n]
  {
    if s[0] == '.' {
      n := 0;
    } else {
      n := FirstDot(s[1..]);
      assert s[..n + 1] == [s[0]] + s[1..][..n];
      n := n + 1;
    }
  }

  predicate AllLabels(labels: seq<string>) {
    forall i :: 0 <= i < |labels| ==> IsDNS1123Label(labels[i])
  }

  lemma {:induction false} LabelsExactly(s: string)
    ensures AllLabels(Split(s, '.')) <==> IsSubdomainText(s)
  {
    if '.' in s {
      var n := FirstDot(s);
      var head, tail := s[..n], s[n + 1..];
      assert s == head + ['.'] + tail;
      LabelsExactly(tail);
      SplitHead(head, tail, '.');
      var labels := [head] + Split(tail, '.');
      assert AllLabels(labels) ==> IsDNS1123Label(head) && AllLabels(Split(tail, '.')) by {
        assert labels[0] == head && labels[1..] == Split(tail, '.');
      }
      if IsSubdomainText(s) {
        SubdomainApart(head, tail);
      } else if IsDNS1123Label(head) && IsSubdomainText(tail) {
        SubdomainTogether(head, tail);
      }
    } else {
      SplitWhole(s, '.');
      assert AllLabels([s]) <==> IsDNS1123Label(s) by {
        assert [s][0] == s;
      }
    }
  }

  /** Exactly which scopes are valid, character by character. */
  lemma ValidScopeExactly(scope: Scope)
    ensures ValidScope(scope) <==> scope == ":root" || (|scope| <= 253 && IsSubdomainText(scope))
  {
    LabelsExactly(scope);
  }

  /** One that is, and some that are not: too short, with a capital letter, with an
      underscore, with a dash at an end, with an empty label. */
  lemma ScopeExamples(s: string)
    ensures s == "b-1.z" ==> ValidScope(s)
    ensures s in {"", "A", "a_b", "-a", "a-", "a..b", ":b"} ==> !ValidScope(s)
  {
    ValidScopeExactly(s);
    if s == "b-1.z" {
      assert |s| == 5 && s[0] == 'b' && s[1] == '-' && s[2] == '1' && s[3] == '.' && s[4] == 'z';
    } else if s == "a_b" {
      assert s[1] == '_';
    } else if s == "a..b" {
      assert s[1] == '.' && s[2] == '.' && !DotIsInside(s, 1);
    }
  }

  function ResourceManager(scope: Scope, rsName: string): string {
    if rsName == ROOT_SYNC_NAME || rsName == REPO_SYNC_NAME then scope
    else scope + "_" + rsName
  }

  predicate IsRootManager(manager: string) {
    HasPrefix(manager, ROOT_SCOPE)
  }

  function DefaultSyncName(scope: Scope): string {
    if scope == ROOT_SCOPE then ROOT_SYNC_NAME else REPO_SYNC_NAME
  }

  function ManagerScopeAndName(manager: string): (Scope, string) {
    var parts := Split(manager, '_');
    if parts[0] == "" then ("", "")
    else if |parts| > 1 then (parts[0], parts[1])
    else (parts[0], DefaultSyncName(parts[0]))
  }

  function ReconcilerName(scope: Scope, syncName: string): string {
    if scope == ROOT_SCOPE then RootReconcilerName(syncName) else NsReconcilerName(scope, syncName)
  }

  /** The reconciler that a manager annotation names. */
  function ManagerReconciler(manager: string): string {
    var (scope, name) := ManagerScopeAndName(manager);
    ReconcilerName(scope, name)
  }

  /** A name that is the default of the other kind of sync. */
  predicate CrossDefault(scope: Scope, name: string) {
    name == if scope == ROOT_SCOPE then REPO_SYNC_NAME else ROOT_SYNC_NAME
  }

  /** A sync whose manager annotation can be decoded. Names of real syncs are DNS
      subdomains, so it is the cross defaults that matter. */
  predicate DecodableSync(scope: Scope, name: string) {
    ValidScope(scope) && '_' !in name && !CrossDefault(scope, name)
  }

  lemma {:induction false} SplitKeepsCharacters(s: string, sep: char, c: char)
    requires c in s && c != sep
    ensures exists i :: 0 <= i < |Split(s, sep)| && c in Split(s, sep)[i]
  {
    var rest := Split(s[1..], sep);
    var parts := Split(s, sep);
    if c == s[0] {
      assert c in parts[0];
    } else {
      SplitKeepsCharacters(s[1..], sep, c);
      var i :| 0 <= i < |rest| && c in rest[i];
      if s[0] == sep {
        assert parts[i + 1] == rest[i];
      } else {
        assert c in parts[i];
      }
    }
  }

  /** A valid scope is not empty and cannot be confused with the delimiter or,
      unless it is the root scope, with a root manager. */
  lemma ValidScopeCharacters(scope: Scope)
    requires ValidScope(scope)
    ensures scope != "" && '_' !in scope
    ensures scope != ROOT_SCOPE ==> scope[0] != ':'
  {
    if scope != ROOT_SCOPE {
      forall c | c in scope
        ensures c == '.' || c == '-' || IsLowerAlnum(c)
      {
        if c != '.' {
          SplitKeepsCharacters(scope, '.', c);
          var labels := Split(scope, '.');
          var i :| 0 <= i < |labels| && c in labels[i];
          assert IsDNS1123Label(labels[i]);
        }
      }
      assert IsDNS1123Label(Split(scope, '.')[0]);
    }
  }

  /** The sync name that is left of a name in the manager annotation. */
  function DecodedName(scope: Scope, name: string): string {
    if name == ROOT_SYNC_NAME || name == REPO_SYNC_NAME then DefaultSyncName(scope) else Split(name, '_')[0]
  }

  /** What a manager annotation decodes to, for every valid scope and every name. */
  lemma DecodeOfEncode(scope: Scope, name: string)
    requires ValidScope(scope)
    ensures ManagerScopeAndName(ResourceManager(scope, name)) == (scope, DecodedName(scope, name))
  {
    ValidScopeCharacters(scope);
    if name == ROOT_SYNC_NAME || name == REPO_SYNC_NAME {
      SplitWhole(scope, '_');
    } else {
      SplitHead(scope, name, '_');
      assert ResourceManager(scope, name) == scope + ['_'] + name;
    }
  }

  /** An annotation without a scope names no sync at all. */
  lemma NoScopeNoSync(manager: string)
    ensures manager == "" || manager[0] == '_' ==> ManagerScopeAndName(manager) == ("", "")
    ensures ManagerScopeAndName(manager).0 == "" ==> ManagerScopeAndName(manager).1 == ""
  {
    if manager != "" && manager[0] == '_' {
      assert manager == "" + ['_'] + manager[1..];
      SplitHead("", manager[1..], '_');
    }
  }

  /** The manager annotation round-trips exactly for decodable syncs. */
  lemma ManagerRoundTrip(scope: Scope, name: string)
    requires ValidScope(scope)
    ensures ManagerScopeAndName(ResourceManager(scope, name)) == (scope, name)
            <==> DecodableSync(scope, name)
  {
    DecodeOfEncode(scope, name);
    if '_' in name {
      assert '_' !in Split(name, '_')[0];
      assert '_' !in ROOT_SYNC_NAME && '_' !in REPO_SYNC_NAME;
    } else {
      SplitWhole(name, '_');
    }
    assert ROOT_SYNC_NAME[1] == 'o' && REPO_SYNC_NAME[1] == 'e';
  }

  lemma DecodedNameIsName(scope: Scope, name: string)
    requires ValidScope(scope)
    ensures DecodedName(scope, name) == name <==> DecodableSync(scope, name)
  {
    ManagerRoundTrip(scope, name);
    DecodeOfEncode(scope, name);
  }

  /** Two decodable syncs never share a manager annotation. */
  lemma ResourceManagerInjective(s1: Scope, n1: string, s2: Scope, n2: string)
    requires DecodableSync(s1, n1) && DecodableSync(s2, n2)
    requires ResourceManager(s1, n1) == ResourceManager(s2, n2)
    ensures s1 == s2 && n1 == n2
  {
    ManagerRoundTrip(s1, n1);
    ManagerRoundTrip(s2, n2);
  }

  /** The prefix test of IsRootManager is sound and complete on built managers. */
  lemma RootManagerIffRootScope(scope: Scope, name: string)
    requires ValidScope(scope)
    ensures IsRootManager(ResourceManager(scope, name)) <==> scope == ROOT_SCOPE
  {
    ValidScopeCharacters(scope);
    assert ResourceManager(scope, name)[0] == scope[0];
    assert scope == ROOT_SCOPE ==> ResourceManager(scope, name)[..|ROOT_SCOPE|] == ROOT_SCOPE;
  }

  /** Rebuilding the reconciler name from the annotation gives the reconciler
      that wrote it back exactly when the sync is decodable. */
  lemma ManagerNamesItsReconciler(scope: Scope, name: string)
    requires ValidScope(scope)
    ensures ManagerReconciler(ResourceManager(scope, name)) == ReconcilerName(scope, name)
            <==> DecodableSync(scope, name)
  {
    ManagerRoundTrip(scope, name);
    DecodeOfEncode(scope, name);
    var (_, decoded) := ManagerScopeAndName(ResourceManager(scope, name));
    if ReconcilerName(scope, decoded) == ReconcilerName(scope, name) {
      if scope == ROOT_SCOPE {
        RootReconcilerNameInjective(decoded, name);
      } else {
        NsReconcilerNameInjectiveInNamespace(scope, decoded, name);
      }
    }
  }

  /** Root reconcilers are told from namespace reconcilers by name. */
  lemma ReconcilerNameKind(scope: Scope, name: string)
    ensures IsRootReconciler(ReconcilerName(scope, name)) <==> scope == ROOT_SCOPE
    ensures !IsReconcilerManager(ReconcilerName(scope, name))
  {
    ReconcilerKindsDisjoint(name, scope, name);
  }

  /** Exactly when two syncs run under one reconciler name. */
  lemma ReconcilerNameCollision(s1: Scope, n1: string, s2: Scope, n2: string)
    ensures ReconcilerName(s1, n1) == ReconcilerName(s2, n2)
            <==> (s1 == s2 && n1 == n2)
                 || (s1 != ROOT_SCOPE && s2 != ROOT_SCOPE
                     && (DefaultMeetsCustom(s1, n1, s2, n2) || DefaultMeetsCustom(s2, n2, s1, n1)))
  {
    ReconcilerNameKind(s1, n1);
    ReconcilerNameKind(s2, n2);
    if s1 == ROOT_SCOPE && s2 == ROOT_SCOPE {
      if ReconcilerName(s1, n1) == ReconcilerName(s2, n2) {
        RootReconcilerNameInjective(n1, n2);
      }
    } else {
      NsReconcilerNameCollision(s1, n1, s2, n2);
    }
  }

  /** Scope and namespace of a sync determine each other, except that no RepoSync
      may live in the controller namespace and no namespace is called ":root". */
  lemma ScopeNamespaceRoundTrip(scope: Scope, namespace: string)
    ensures ScopeFromSyncNamespace(SyncNamespace(scope)) == scope <==> scope != CONTROLLER_NAMESPACE
    ensures SyncNamespace(ScopeFromSyncNamespace(namespace)) == namespace <==> namespace != ROOT_SCOPE
  {
  }
}
