/** Reconciler names (pkg/core/names.go). */
module Names {
  import opened Strings

  const ROOT_SYNC_NAME := "root-sync"
  const REPO_SYNC_NAME := "repo-sync"
  const ROOT_RECONCILER_PREFIX := "root-reconciler"
  const NS_RECONCILER_PREFIX := "ns-reconciler"
  const RECONCILER_MANAGER := "reconciler-manager"

  function RootReconcilerName(name: string): string {
    if name == ROOT_SYNC_NAME then ROOT_RECONCILER_PREFIX
    else ROOT_RECONCILER_PREFIX + "-" + name
  }

  function RootSyncName(reconcilerName: string): string {
    if reconcilerName == ROOT_RECONCILER_PREFIX then ROOT_SYNC_NAME
    else CutPrefix(reconcilerName, ROOT_RECONCILER_PREFIX + "-")
  }

  /** The suffix that a RepoSync with a custom name adds to its namespace. */
  function CustomForm(namespace: string, name: string): string {
    namespace + "-" + name + "-" + Decimal(|name|)
  }

  function NsReconcilerName(namespace: string, name: string): string {
    NS_RECONCILER_PREFIX + "-" +
    if name == REPO_SYNC_NAME then namespace else CustomForm(namespace, name)
  }

  predicate IsRootReconciler(reconcilerName: string) {
    HasPrefix(reconcilerName, ROOT_RECONCILER_PREFIX)
  }

  predicate IsReconcilerManager(reconcilerName: string) {
    reconcilerName == RECONCILER_MANAGER
  }

  /** RootSyncName undoes RootReconcilerName on every string. */
  lemma RootSyncNameLeftInverse(name: string)
    ensures RootSyncName(RootReconcilerName(name)) == name
  {
  }

  /** The other direction holds exactly on the names that the package builds:
      the bare prefix, or the prefix, a dash and anything but the default name. */
  lemma RootSyncNameRightInverse(reconcilerName: string)
    ensures RootReconcilerName(RootSyncName(reconcilerName)) == reconcilerName
            <==> reconcilerName == ROOT_RECONCILER_PREFIX
                 || (HasPrefix(reconcilerName, ROOT_RECONCILER_PREFIX + "-")
                     && reconcilerName != ROOT_RECONCILER_PREFIX + "-" + ROOT_SYNC_NAME)
  {
  }

  /** A string on which it fails. */
  lemma RootSyncNameIsNoInverse()
    ensures RootSyncName("root-reconciler-root-sync") == ROOT_SYNC_NAME
    ensures RootReconcilerName(RootSyncName("root-reconciler-root-sync")) != "root-reconciler-root-sync"
  {
    assert "root-reconciler-root-sync" == ROOT_RECONCILER_PREFIX + "-" + ROOT_SYNC_NAME;
    RootSyncNameRightInverse("root-reconciler-root-sync");
  }

  lemma RootReconcilerNameInjective(n1: string, n2: string)
    requires RootReconcilerName(n1) == RootReconcilerName(n2)
    ensures n1 == n2
  {
    RootSyncNameLeftInverse(n1);
    RootSyncNameLeftInverse(n2);
  }

  /** A root reconciler, a namespace reconciler and the reconciler manager are
      told apart by their names alone. */
  lemma ReconcilerKindsDisjoint(rootName: string, namespace: string, name: string)
    ensures IsRootReconciler(RootReconcilerName(rootName))
    ensures !IsRootReconciler(NsReconcilerName(namespace, name))
    ensures RootReconcilerName(rootName) != NsReconcilerName(namespace, name)
    ensures !IsReconcilerManager(RootReconcilerName(rootName))
    ensures !IsReconcilerManager(NsReconcilerName(namespace, name))
  {
    assert NsReconcilerName(namespace, name)[0] == 'n';
    assert ROOT_RECONCILER_PREFIX[0] == 'r' && ROOT_RECONCILER_PREFIX[1] == 'o' && RECONCILER_MANAGER[1] == 'e';
    assert RootReconcilerName(rootName)[..|ROOT_RECONCILER_PREFIX|] == ROOT_RECONCILER_PREFIX;
    assert RootReconcilerName(rootName)[1] == ROOT_RECONCILER_PREFIX[1];
  }

  lemma ReconcilerManagerIsNotRoot()
    ensures !IsRootReconciler(RECONCILER_MANAGER)
  {
    assert RECONCILER_MANAGER[1] == 'e' && ROOT_RECONCILER_PREFIX[1] == 'o';
  }

  /** A decimal numeral behind the last dash can be split off again. */
  lemma NumeralSuffixDetermined(a: string, m: nat, b: string, n: nat)
    requires a + "-" + Decimal(m) == b + "-" + Decimal(n)
    ensures a == b && m == n
  {
    var s, p, q := a + "-" + Decimal(m), Decimal(m), Decimal(n);
    assert |a| + 1 + |p| == |b| + 1 + |q|;
    assert s[|a|] == '-' && s[|b|] == (b + "-" + q)[|b|] == '-';
    assert |p| == |q|;
    assert a == s[..|a|] == b;
    assert p == s[|a| + 1..] == q;
    DecimalInjective(m, n);
  }

  lemma CustomFormInjective(ns1: string, n1: string, ns2: string, n2: string)
    requires CustomForm(ns1, n1) == CustomForm(ns2, n2)
    ensures ns1 == ns2 && n1 == n2
  {
    NumeralSuffixDetermined(ns1 + "-" + n1, |n1|, ns2 + "-" + n2, |n2|);
    var s := ns1 + "-" + n1;
    assert s == ns2 + "-" + n2;
    assert |ns1| == |ns2|;
    assert ns1 == s[..|ns1|] == ns2;
    assert n1 == s[|ns1| + 1..] == n2;
  }

  /** One RepoSync has the default name and lives in a namespace that is spelled
      like the custom form of the other. */
  predicate DefaultMeetsCustom(ns1: string, n1: string, ns2: string, n2: string) {
    n1 == REPO_SYNC_NAME && n2 != REPO_SYNC_NAME && ns1 == CustomForm(ns2, n2)
  }

  /** Exactly when two namespace reconcilers share a name. */
  lemma NsReconcilerNameCollision(ns1: string, n1: string, ns2: string, n2: string)
    ensures NsReconcilerName(ns1, n1) == NsReconcilerName(ns2, n2)
            <==> (ns1 == ns2 && n1 == n2)
                 || DefaultMeetsCustom(ns1, n1, ns2, n2)
                 || DefaultMeetsCustom(ns2, n2, ns1, n1)
  {
    var prefix := NS_RECONCILER_PREFIX + "-";
    var s1 := if n1 == REPO_SYNC_NAME then ns1 else CustomForm(ns1, n1);
    var s2 := if n2 == REPO_SYNC_NAME then ns2 else CustomForm(ns2, n2);
    assert NsReconcilerName(ns1, n1)[|prefix|..] == s1;
    assert NsReconcilerName(ns2, n2)[|prefix|..] == s2;
    if s1 == s2 && n1 != REPO_SYNC_NAME && n2 != REPO_SYNC_NAME {
      CustomFormInjective(ns1, n1, ns2, n2);
    }
  }

  /** Inside one namespace the names are injective. */
  lemma NsReconcilerNameInjectiveInNamespace(namespace: string, n1: string, n2: string)
    requires NsReconcilerName(namespace, n1) == NsReconcilerName(namespace, n2)
    ensures n1 == n2
  {
    NsReconcilerNameCollision(namespace, n1, namespace, n2);
    assert |CustomForm(namespace, n1)| > |namespace| && |CustomForm(namespace, n2)| > |namespace|;
  }

  /** The collision is real: the default RepoSync of namespace "a-b-1" and the
      RepoSync "b" of namespace "a" run under one reconciler name. */
  lemma NsReconcilerNameCollides()
    ensures NsReconcilerName("a-b-1", REPO_SYNC_NAME) == NsReconcilerName("a", "b")
  {
  }
}
