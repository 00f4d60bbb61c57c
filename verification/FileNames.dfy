/** Unique file names for hydrated objects (pkg/hydrate/file_name.go). */
module FileNames {
  import opened Strings
  import opened Objects
  import opened Metadata

  // Paths, as Go's path package cleans and joins them.

  /** What one more element does to the elements kept so far. */
  function CleanStep(out: seq<string>, last: string, rooted: bool): seq<string> {
    if last == "" || last == "." then out
    else if last != ".." then out + [last]
    else if out != [] && out[|out| - 1] != ".." then out[..|out| - 1]
    else if rooted then out
    else out + [".."]
  }

  /** Drops empty and dot elements and resolves dot-dot elements. */
  function CleanElements(parts: seq<string>, rooted: bool): seq<string> {
    if parts == [] then []
    else CleanStep(CleanElements(parts[..|parts| - 1], rooted), parts[|parts| - 1], rooted)
  }

  function Clean(path: string): string {
    var rooted := HasPrefix(path, "/");
    var out := Join(CleanElements(Split(path, '/'), rooted), '/');
    if rooted then "/" + out else if out == "" then "." else out
  }

  function JoinPath(a: string, b: string): string {
    if a != "" then Clean(a + "/" + b) else if b != "" then Clean(b) else ""
  }

  /** Where a path leads, seen from where it starts: so many levels up, and then
      down. One cannot go up from the root. */
  datatype Place = Place(up: nat, down: seq<string>)

  function WalkStep(p: Place, last: string, rooted: bool): Place {
    if last == "" || last == "." then p
    else if last != ".." then Place(p.up, p.down + [last])
    else if p.down != [] then Place(p.up, p.down[..|p.down| - 1])
    else if rooted then p
    else Place(p.up + 1, [])
  }

  function Walk(parts: seq<string>, rooted: bool): Place {
    if parts == [] then Place(0, [])
    else WalkStep(Walk(parts[..|parts| - 1], rooted), parts[|parts| - 1], rooted)
  }

  predicate IsName(s: string) {
    s != "" && s != "." && s != ".."
  }

  predicate AllNames(parts: seq<string>) {
    forall i :: 0 <= i < |parts| ==> IsName(parts[i])
  }

  function Ups(n: nat): seq<string> {
    seq(n, _ => "..")
  }

  /** A shortest way to say it: up first, if at all, and then down. */
  predicate IsCanonical(parts: seq<string>, p: Place) {
    parts == Ups(p.up) + p.down && AllNames(p.down)
  }

  lemma StepKeepsPlace(p: Place, last: string, rooted: bool)
    requires AllNames(p.down) && (rooted ==> p.up == 0)
    ensures IsCanonical(CleanStep(Ups(p.up) + p.down, last, rooted), WalkStep(p, last, rooted))
    ensures rooted ==> WalkStep(p, last, rooted).up == 0
  {
    var out := Ups(p.up) + p.down;
    if last == ".." {
      if p.down != [] {
        assert out[|out| - 1] == p.down[|p.down| - 1] && IsName(p.down[|p.down| - 1]);
        assert out[..|out| - 1] == Ups(p.up) + p.down[..|p.down| - 1];
      } else {
        assert p.up > 0 ==> out[|out| - 1] == "..";
        assert out + [".."] == Ups(p.up + 1) + [];
      }
    } else {
      assert out + [last] == Ups(p.up) + (p.down + [last]);
    }
  }

  /** Cleaning keeps the place and says it in the shortest way. */
  lemma {:induction false} CleaningKeepsPlace(parts: seq<string>, rooted: bool)
    ensures IsCanonical(CleanElements(parts, rooted), Walk(parts, rooted))
    ensures rooted ==> Walk(parts, rooted).up == 0
  {
    if parts != [] {
      CleaningKeepsPlace(parts[..|parts| - 1], rooted);
      StepKeepsPlace(Walk(parts[..|parts| - 1], rooted), parts[|parts| - 1], rooted);
    }
  }

  lemma CanonicalIsNotEmpty(parts: seq<string>, p: Place)
    requires IsCanonical(parts, p)
    ensures Join(parts, '/') == "" <==> parts == []
  {
    if parts != [] {
      assert p.up > 0 ==> parts[0] == "..";
      assert p.up == 0 ==> parts[0] == p.down[0] && IsName(p.down[0]);
    }
  }

  /** The canonical way is spelled out with slashes, after a slash if the path starts
      at the root; a path that leads nowhere is a dot. */
  lemma CleanMeaning(path: string)
    ensures var rooted := HasPrefix(path, "/");
            var p := Walk(Split(path, '/'), rooted);
            exists parts :: IsCanonical(parts, p)
              && Clean(path)
                 == (if rooted then "/" else "") + (if parts == [] && !rooted then "." else Join(parts, '/'))
  {
    var rooted := HasPrefix(path, "/");
    CleaningKeepsPlace(Split(path, '/'), rooted);
    var p, parts := Walk(Split(path, '/'), rooted), CleanElements(Split(path, '/'), rooted);
    CanonicalIsNotEmpty(parts, p);
    var text := (if rooted then "/" else "") + (if parts == [] && !rooted then "." else Join(parts, '/'));
    assert Clean(path) == text;
    assert IsCanonical(parts, p) && Clean(path) == text;
  }

  /** One element of a path that is already clean. */
  predicate IsCleanElement(s: string) {
    s != "" && '/' !in s && s != "." && s != ".."
  }

  predicate AreCleanElements(parts: seq<string>) {
    parts != [] && forall i :: 0 <= i < |parts| ==> IsCleanElement(parts[i])
  }

  lemma {:induction false} CleanElementsStay(parts: seq<string>, rooted: bool)
    requires forall i :: 0 <= i < |parts| ==> IsCleanElement(parts[i])
    ensures CleanElements(parts, rooted) == parts
  {
    if parts != [] {
      CleanElementsStay(parts[..|parts| - 1], rooted);
    }
  }

  /** Cleaning changes nothing about a path of clean elements. */
  lemma CleanPathStays(parts: seq<string>)
    requires AreCleanElements(parts)
    ensures Clean(Join(parts, '/')) == Join(parts, '/') != ""
  {
    var path := Join(parts, '/');
    SplitOfJoin(parts, '/');
    CleanElementsStay(parts, HasPrefix(path, "/"));
    assert parts[0] != "" && path[0] == parts[0][0];
  }

  lemma JoinPathOfClean(head: string, parts: seq<string>)
    requires IsCleanElement(head) && AreCleanElements(parts)
    ensures JoinPath(head, Join(parts, '/')) == Join([head] + parts, '/')
    ensures AreCleanElements([head] + parts)
  {
    assert ([head] + parts)[1..] == parts;
    CleanPathStays([head] + parts);
  }

  // File names.

  const CLUSTER_NAME_KEY := CONFIG_MANAGEMENT_PREFIX + "cluster-name"
  const DEFAULT_CLUSTER := "defaultcluster"

  function ClusterOf(o: Object): string {
    if CLUSTER_NAME_KEY in o.annotations then o.annotations[CLUSTER_NAME_KEY] else DEFAULT_CLUSTER
  }

  function BaseName(extension: string, o: Object, includeGroup: bool): string {
    o.id.groupKind.kind + (if includeGroup then "." + o.id.groupKind.group else "") + "_" + o.id.name + "." + extension
  }

  function FileName(extension: string, o: Object, includeCluster: bool, includeGroup: bool): string {
    var base := BaseName(extension, o, includeGroup);
    var inNamespace := if o.id.namespace != "" then JoinPath(o.id.namespace, base) else base;
    ToLower(if includeCluster then JoinPath(ClusterOf(o), inNamespace) else inNamespace)
  }

  /** The cleaned path that a file object is given. */
  function PathOf(extension: string, o: Object, multiCluster: bool, includeGroup: bool): string {
    Clean(FileName(extension, o, multiCluster, includeGroup))
  }

  /** The way of naming that the generator uses for one kind of path. */
  function Namer(extension: string, multiCluster: bool, includeGroup: bool): Object -> string {
    o => PathOf(extension, o, multiCluster, includeGroup)
  }

  function PathsOf(name: Object -> string, objs: seq<Object>): seq<string> {
    seq(|objs|, i requires 0 <= i < |objs| => name(objs[i]))
  }

  function CountOf(paths: seq<string>, path: string): nat {
    if paths == [] then 0 else CountOf(paths[..|paths| - 1], path) + if paths[|paths| - 1] == path then 1 else 0
  }

  /** Long paths are used only where the short one is not unique. */
  function Chosen(shorts: seq<string>, longs: seq<string>, i: nat): string
    requires i < |shorts| == |longs|
  {
    if CountOf(shorts, shorts[i]) > 1 then longs[i] else shorts[i]
  }

  function UniquePath(extension: string, objs: seq<Object>, multiCluster: bool, i: nat): string
    requires i < |objs|
  {
    Chosen(PathsOf(Namer(extension, multiCluster, false), objs), PathsOf(Namer(extension, multiCluster, true), objs), i)
  }

  // What has to be unique, and the shape of names for which it is enough.

  /** Identity up to case; the cluster counts only if it is part of the path. */
  datatype Key = Key(cluster: string, namespace: string, group: string, kind: string, name: string)

  function KeyOf(o: Object, multiCluster: bool): Key {
    Key(if multiCluster then ToLower(ClusterOf(o)) else "", ToLower(o.id.namespace),
        ToLower(o.id.groupKind.group), ToLower(o.id.groupKind.kind), ToLower(o.id.name))
  }

  predicate WellNamed(o: Object, multiCluster: bool) {
    && '.' !in o.id.groupKind.kind && '_' !in o.id.groupKind.kind && '/' !in o.id.groupKind.kind
    && '_' !in o.id.groupKind.group && '/' !in o.id.groupKind.group
    && '/' !in o.id.name
    && (o.id.namespace == "" || IsCleanElement(o.id.namespace))
    && (multiCluster ==> IsCleanElement(ClusterOf(o)))
  }

  function DirElements(cluster: string, namespace: string, multiCluster: bool): seq<string> {
    (if multiCluster then [cluster] else []) + (if namespace != "" then [namespace] else [])
  }

  function Elements(extension: string, o: Object, multiCluster: bool, includeGroup: bool): seq<string> {
    DirElements(ClusterOf(o), o.id.namespace, multiCluster) + [BaseName(extension, o, includeGroup)]
  }

  function LowerAll(parts: seq<string>): seq<string> {
    seq(|parts|, i requires 0 <= i < |parts| => ToLower(parts[i]))
  }

  lemma BaseNameIsClean(extension: string, o: Object, multiCluster: bool, includeGroup: bool)
    requires WellNamed(o, multiCluster) && '/' !in extension
    ensures IsCleanElement(BaseName(extension, o, includeGroup))
  {
    var base := BaseName(extension, o, includeGroup);
    var k := |o.id.groupKind.kind + (if includeGroup then "." + o.id.groupKind.group else "")|;
    assert base[k] == '_';
    assert '_' in base && '_' !in "." && '_' !in "..";
  }

  lemma {:induction false} ToLowerOfJoin(parts: seq<string>)
    ensures ToLower(Join(parts, '/')) == Join(LowerAll(parts), '/')
  {
    if |parts| > 1 {
      var rest := Join(parts[1..], '/');
      ToLowerOfJoin(parts[1..]);
      ToLowerConcat(parts[0] + ['/'], rest);
      ToLowerConcat(parts[0], ['/']);
      assert ToLower(['/']) == ['/'];
      assert LowerAll(parts)[1..] == LowerAll(parts[1..]);
    }
  }

  lemma LowerKeepsClean(s: string)
    requires IsCleanElement(s)
    ensures IsCleanElement(ToLower(s))
  {
  }

  /** The path of a well-named object is its lower-cased elements, joined. */
  lemma PathForm(extension: string, o: Object, multiCluster: bool, includeGroup: bool)
    requires WellNamed(o, multiCluster) && '/' !in extension
    ensures AreCleanElements(LowerAll(Elements(extension, o, multiCluster, includeGroup)))
    ensures PathOf(extension, o, multiCluster, includeGroup)
            == Join(LowerAll(Elements(extension, o, multiCluster, includeGroup)), '/')
  {
    var base := BaseName(extension, o, includeGroup);
    BaseNameIsClean(extension, o, multiCluster, includeGroup);
    var parts := [base];
    if o.id.namespace != "" {
      JoinPathOfClean(o.id.namespace, parts);
      parts := [o.id.namespace] + parts;
    }
    if multiCluster {
      JoinPathOfClean(ClusterOf(o), parts);
      parts := [ClusterOf(o)] + parts;
    }
    assert parts == Elements(extension, o, multiCluster, includeGroup);
    ToLowerOfJoin(parts);
    forall i | 0 <= i < |parts|
      ensures IsCleanElement(LowerAll(parts)[i])
    {
      LowerKeepsClean(parts[i]);
    }
    CleanPathStays(LowerAll(parts));
  }

  /** An empty cluster name is as good as none. */
  lemma EmptyClusterName(extension: string, o: Object, includeGroup: bool)
    requires WellNamed(o, false) && '/' !in extension && ClusterOf(o) == ""
    ensures PathOf(extension, o, true, includeGroup) == PathOf(extension, o, false, includeGroup)
  {
    var base := BaseName(extension, o, includeGroup);
    BaseNameIsClean(extension, o, false, includeGroup);
    var parts := [base];
    if o.id.namespace != "" {
      JoinPathOfClean(o.id.namespace, parts);
      parts := [o.id.namespace] + parts;
    }
    CleanPathStays(parts);
  }

  /** The lower-cased base name, spelled from the key. */
  function KeyBase(extension: string, k: Key, includeGroup: bool): string {
    k.kind + (if includeGroup then "." + k.group else "") + "_" + (k.name + "." + ToLower(extension))
  }

  lemma LowerBase(extension: string, o: Object, multiCluster: bool, includeGroup: bool)
    ensures ToLower(BaseName(extension, o, includeGroup)) == KeyBase(extension, KeyOf(o, multiCluster), includeGroup)
  {
  }

  lemma LowerElements(extension: string, o: Object, multiCluster: bool, includeGroup: bool)
    ensures var k := KeyOf(o, multiCluster);
            LowerAll(Elements(extension, o, multiCluster, includeGroup))
            == DirElements(k.cluster, k.namespace, multiCluster) + [KeyBase(extension, k, includeGroup)]
  {
    LowerBase(extension, o, multiCluster, includeGroup);
    assert |ToLower(o.id.namespace)| == |o.id.namespace|;
  }

  lemma ElementsDetermine(c1: string, n1: string, b1: string, c2: string, n2: string, b2: string, multiCluster: bool)
    requires DirElements(c1, n1, multiCluster) + [b1] == DirElements(c2, n2, multiCluster) + [b2]
    ensures b1 == b2 && n1 == n2 && (multiCluster ==> c1 == c2)
  {
    var e1, e2 := DirElements(c1, n1, multiCluster) + [b1], DirElements(c2, n2, multiCluster) + [b2];
    assert e1[|e1| - 1] == b1 && e2[|e2| - 1] == b2;
    assert multiCluster ==> e1[0] == c1 && e2[0] == c2;
    var n := if multiCluster then 1 else 0;
    assert n1 != "" ==> |e1| == n + 2 && e1[n] == n1;
    assert n2 != "" ==> |e2| == n + 2 && e2[n] == n2;
  }

  /** A path determines its elements, and they determine directory and base. */
  lemma PathDetermines(extension: string, o1: Object, g1: bool, o2: Object, g2: bool, multiCluster: bool)
    requires WellNamed(o1, multiCluster) && WellNamed(o2, multiCluster) && '/' !in extension
    requires PathOf(extension, o1, multiCluster, g1) == PathOf(extension, o2, multiCluster, g2)
    ensures var k1, k2 := KeyOf(o1, multiCluster), KeyOf(o2, multiCluster);
            && k1.cluster == k2.cluster && k1.namespace == k2.namespace
            && KeyBase(extension, k1, g1) == KeyBase(extension, k2, g2)
  {
    PathForm(extension, o1, multiCluster, g1);
    PathForm(extension, o2, multiCluster, g2);
    SplitOfJoin(LowerAll(Elements(extension, o1, multiCluster, g1)), '/');
    SplitOfJoin(LowerAll(Elements(extension, o2, multiCluster, g2)), '/');
    LowerElements(extension, o1, multiCluster, g1);
    LowerElements(extension, o2, multiCluster, g2);
    var k1, k2 := KeyOf(o1, multiCluster), KeyOf(o2, multiCluster);
    ElementsDetermine(k1.cluster, k1.namespace, KeyBase(extension, k1, g1),
                      k2.cluster, k2.namespace, KeyBase(extension, k2, g2), multiCluster);
  }

  /** The characters that a key's kind and group cannot have. */
  predicate PlainKey(k: Key) {
    '.' !in k.kind && '_' !in k.kind && '_' !in k.group
  }

  lemma KeyCharacters(o: Object, multiCluster: bool)
    requires WellNamed(o, multiCluster)
    ensures PlainKey(KeyOf(o, multiCluster))
  {
  }

  lemma SuffixDetermined(a: string, b: string, suffix: string)
    requires a + suffix == b + suffix
    ensures a == b
  {
    assert |a| == |b|;
    assert a == (a + suffix)[..|a|] == b;
  }

  lemma LongBaseInjective(extension: string, k1: Key, k2: Key)
    requires PlainKey(k1) && PlainKey(k2)
    requires KeyBase(extension, k1, true) == KeyBase(extension, k2, true)
    ensures k1.kind == k2.kind && k1.group == k2.group && k1.name == k2.name
  {
    var suffix := "." + ToLower(extension);
    var t1, t2 := k1.name + suffix, k2.name + suffix;
    assert k1.name + "." + ToLower(extension) == t1 && k2.name + "." + ToLower(extension) == t2;
    assert k1.kind + ['.'] + (k1.group + "_" + t1) == KeyBase(extension, k1, true);
    assert k2.kind + ['.'] + (k2.group + "_" + t2) == KeyBase(extension, k2, true);
    HeadDetermined(k1.kind, k1.group + "_" + t1, k2.kind, k2.group + "_" + t2, '.');
    HeadDetermined(k1.group, t1, k2.group, t2, '_');
    SuffixDetermined(k1.name, k2.name, suffix);
  }

  lemma ShortBaseNeverLong(extension: string, k1: Key, k2: Key)
    requires PlainKey(k1) && PlainKey(k2)
    ensures KeyBase(extension, k1, false) != KeyBase(extension, k2, true)
  {
    var head := k2.kind + "." + k2.group;
    var t1, t2 := k1.name + "." + ToLower(extension), k2.name + "." + ToLower(extension);
    assert head[|k2.kind|] == '.';
    assert k1.kind + ['_'] + t1 == KeyBase(extension, k1, false);
    assert head + ['_'] + t2 == KeyBase(extension, k2, true);
    if KeyBase(extension, k1, false) == KeyBase(extension, k2, true) {
      HeadDetermined(k1.kind, t1, head, t2, '_');
    }
  }

  /** Names with a group are as unique as the keys. */
  lemma LongPathsInjective(extension: string, o1: Object, o2: Object, multiCluster: bool)
    requires WellNamed(o1, multiCluster) && WellNamed(o2, multiCluster) && '/' !in extension
    requires PathOf(extension, o1, multiCluster, true) == PathOf(extension, o2, multiCluster, true)
    ensures KeyOf(o1, multiCluster) == KeyOf(o2, multiCluster)
  {
    PathDetermines(extension, o1, true, o2, true, multiCluster);
    KeyCharacters(o1, multiCluster);
    KeyCharacters(o2, multiCluster);
    LongBaseInjective(extension, KeyOf(o1, multiCluster), KeyOf(o2, multiCluster));
  }

  /** A name without a group never meets one with a group. */
  lemma ShortNeverMeetsLong(extension: string, o1: Object, o2: Object, multiCluster: bool)
    requires WellNamed(o1, multiCluster) && WellNamed(o2, multiCluster) && '/' !in extension
    ensures PathOf(extension, o1, multiCluster, false) != PathOf(extension, o2, multiCluster, true)
  {
    KeyCharacters(o1, multiCluster);
    KeyCharacters(o2, multiCluster);
    ShortBaseNeverLong(extension, KeyOf(o1, multiCluster), KeyOf(o2, multiCluster));
    if PathOf(extension, o1, multiCluster, false) == PathOf(extension, o2, multiCluster, true) {
      PathDetermines(extension, o1, false, o2, true, multiCluster);
    }
  }

  /** Objects with the same key get the same paths. */
  lemma SameKeySamePath(extension: string, o1: Object, o2: Object, multiCluster: bool, includeGroup: bool)
    requires WellNamed(o1, multiCluster) && WellNamed(o2, multiCluster) && '/' !in extension
    requires KeyOf(o1, multiCluster) == KeyOf(o2, multiCluster)
    ensures PathOf(extension, o1, multiCluster, includeGroup) == PathOf(extension, o2, multiCluster, includeGroup)
  {
    PathForm(extension, o1, multiCluster, includeGroup);
    PathForm(extension, o2, multiCluster, includeGroup);
    LowerElements(extension, o1, multiCluster, includeGroup);
    LowerElements(extension, o2, multiCluster, includeGroup);
  }

  lemma {:induction false} CountOfMember(paths: seq<string>, i: nat)
    requires i < |paths|
    ensures CountOf(paths, paths[i]) >= 1
  {
    if i < |paths| - 1 {
      CountOfMember(paths[..|paths| - 1], i);
    }
  }

  lemma {:induction false} CountOfTwo(paths: seq<string>, i: nat, j: nat)
    requires i < j < |paths| && paths[i] == paths[j]
    ensures CountOf(paths, paths[i]) >= 2
  {
    var init := paths[..|paths| - 1];
    if j < |paths| - 1 {
      CountOfTwo(init, i, j);
    } else {
      CountOfMember(init, i);
      assert init[i] == paths[i];
    }
  }

  lemma {:induction false} TwoCounted(paths: seq<string>, path: string, n: nat)
    requires n <= 2 && CountOf(paths, path) >= n
    ensures n >= 1 ==> exists i :: 0 <= i < |paths| && paths[i] == path
    ensures n == 2 ==> exists i, j :: 0 <= i < j < |paths| && paths[i] == paths[j] == path
  {
    if n > 0 {
      var last, init := |paths| - 1, paths[..|paths| - 1];
      if paths[last] == path {
        TwoCounted(init, path, n - 1);
        if n == 2 {
          var i :| 0 <= i < |init| && init[i] == path;
          assert paths[i] == paths[last] == path;
        }
      } else {
        TwoCounted(init, path, n);
        assert forall i :: 0 <= i < |init| ==> init[i] == paths[i];
      }
    }
  }

  /** A path is counted more than once exactly if it is somebody else's, too. */
  lemma CountedTwiceExactly(paths: seq<string>, i: nat)
    requires i < |paths|
    ensures CountOf(paths, paths[i]) > 1 <==> exists j :: 0 <= j < |paths| && j != i && paths[j] == paths[i]
  {
    if CountOf(paths, paths[i]) > 1 {
      TwoCounted(paths, paths[i], 2);
    }
    if j :| 0 <= j < |paths| && j != i && paths[j] == paths[i] {
      CountOfTwo(paths, if i < j then i else j, if i < j then j else i);
    }
  }

  /** The keys are equal but for the group. */
  predicate SameButGroup(k1: Key, k2: Key) {
    k1 == k2.(group := k1.group)
  }

  lemma ShortBaseDetermines(extension: string, k1: Key, k2: Key)
    requires PlainKey(k1) && PlainKey(k2) && KeyBase(extension, k1, false) == KeyBase(extension, k2, false)
    ensures k1.kind == k2.kind && k1.name == k2.name
  {
    var e := "." + ToLower(extension);
    var t1, t2 := k1.name + "." + ToLower(extension), k2.name + "." + ToLower(extension);
    assert KeyBase(extension, k1, false) == k1.kind + ['_'] + t1;
    assert KeyBase(extension, k2, false) == k2.kind + ['_'] + t2;
    HeadDetermined(k1.kind, t1, k2.kind, t2, '_');
    assert t1 == k1.name + e && t2 == k2.name + e;
    assert k1.name == t1[..|t1| - |e|] && k2.name == t2[..|t2| - |e|];
  }

  /** The path of an object, spelled from its key: cluster if asked for, namespace if
      there is one, kind, group if asked for, name and extension. */
  function SpelledPath(extension: string, k: Key, multiCluster: bool, includeGroup: bool): string {
    Join(DirElements(k.cluster, k.namespace, multiCluster) + [KeyBase(extension, k, includeGroup)], '/')
  }

  lemma PathIsSpelled(extension: string, o: Object, multiCluster: bool, includeGroup: bool)
    requires WellNamed(o, multiCluster) && '/' !in extension
    ensures PathOf(extension, o, multiCluster, includeGroup)
            == SpelledPath(extension, KeyOf(o, multiCluster), multiCluster, includeGroup)
  {
    PathForm(extension, o, multiCluster, includeGroup);
    LowerElements(extension, o, multiCluster, includeGroup);
  }

  lemma SameShortPath(extension: string, k1: Key, k2: Key, multiCluster: bool)
    requires SameButGroup(k1, k2)
    ensures SpelledPath(extension, k1, multiCluster, false) == SpelledPath(extension, k2, multiCluster, false)
  {
    assert KeyBase(extension, k1, false) == KeyBase(extension, k2, false);
  }

  lemma ShortPathsExactly(extension: string, o1: Object, o2: Object, multiCluster: bool)
    requires WellNamed(o1, multiCluster) && WellNamed(o2, multiCluster) && '/' !in extension
    ensures PathOf(extension, o1, multiCluster, false) == PathOf(extension, o2, multiCluster, false)
            <==> SameButGroup(KeyOf(o1, multiCluster), KeyOf(o2, multiCluster))
  {
    var k1, k2 := KeyOf(o1, multiCluster), KeyOf(o2, multiCluster);
    if PathOf(extension, o1, multiCluster, false) == PathOf(extension, o2, multiCluster, false) {
      PathDetermines(extension, o1, false, o2, false, multiCluster);
      KeyCharacters(o1, multiCluster);
      KeyCharacters(o2, multiCluster);
      ShortBaseDetermines(extension, k1, k2);
    }
    if SameButGroup(k1, k2) {
      PathIsSpelled(extension, o1, multiCluster, false);
      PathIsSpelled(extension, o2, multiCluster, false);
      SameShortPath(extension, k1, k2, multiCluster);
    }
  }

  lemma JoinBelow(head: string, parts: seq<string>)
    requires parts != []
    ensures Join([head] + parts, '/') == head + "/" + Join(parts, '/')
  {
    assert ([head] + parts)[1..] == parts;
  }

  lemma SpelledBelow(extension: string, k: Key, includeGroup: bool)
    ensures SpelledPath(extension, k, true, includeGroup)
            == k.cluster + "/" + SpelledPath(extension, k.(cluster := ""), false, includeGroup)
  {
    var inner := DirElements("", k.namespace, false) + [KeyBase(extension, k, includeGroup)];
    assert DirElements(k.cluster, k.namespace, true) + [KeyBase(extension, k, includeGroup)] == [k.cluster] + inner;
    JoinBelow(k.cluster, inner);
  }

  /** With several clusters, the path starts with the cluster of the object, which is
      the one in its annotation if there is one. */
  lemma ClusterDirectory(extension: string, o: Object, includeGroup: bool)
    requires WellNamed(o, true) && '/' !in extension
    ensures PathOf(extension, o, true, includeGroup)
            == ToLower(if CLUSTER_NAME_KEY in o.annotations then o.annotations[CLUSTER_NAME_KEY] else "defaultcluster")
               + "/" + PathOf(extension, o, false, includeGroup)
  {
    PathIsSpelled(extension, o, true, includeGroup);
    PathIsSpelled(extension, o, false, includeGroup);
    SpelledBelow(extension, KeyOf(o, true), includeGroup);
  }

  /** Some other object has the same key but for the group. */
  predicate HasRival(objs: seq<Object>, multiCluster: bool, i: nat)
    requires i < |objs|
  {
    exists j :: 0 <= j < |objs| && j != i && SameButGroup(KeyOf(objs[i], multiCluster), KeyOf(objs[j], multiCluster))
  }

  /** Exactly which path an object of a list gets: the group is part of it exactly if
      there is another object that differs in nothing else. */
  lemma UniquePathExactly(extension: string, objs: seq<Object>, multiCluster: bool, i: nat)
    requires i < |objs| && '/' !in extension
    requires forall o :: o in objs ==> WellNamed(o, multiCluster)
    ensures UniquePath(extension, objs, multiCluster, i)
            == SpelledPath(extension, KeyOf(objs[i], multiCluster), multiCluster, HasRival(objs, multiCluster, i))
  {
    var shorts := PathsOf(Namer(extension, multiCluster, false), objs);
    assert objs[i] in objs;
    CountedTwiceExactly(shorts, i);
    forall j | 0 <= j < |objs|
      ensures shorts[j] == shorts[i] <==> SameButGroup(KeyOf(objs[i], multiCluster), KeyOf(objs[j], multiCluster))
    {
      assert objs[j] in objs;
      ShortPathsExactly(extension, objs[i], objs[j], multiCluster);
    }
    PathIsSpelled(extension, objs[i], multiCluster, false);
    PathIsSpelled(extension, objs[i], multiCluster, true);
  }

  /** Two objects of a list get one path exactly when their keys are equal. */
  lemma UniqueExactly(extension: string, objs: seq<Object>, multiCluster: bool, i: nat, j: nat)
    requires i < j < |objs| && '/' !in extension
    requires forall o :: o in objs ==> WellNamed(o, multiCluster)
    ensures UniquePath(extension, objs, multiCluster, i) == UniquePath(extension, objs, multiCluster, j)
            <==> KeyOf(objs[i], multiCluster) == KeyOf(objs[j], multiCluster)
  {
    var o1, o2 := objs[i], objs[j];
    assert o1 in objs && o2 in objs;
    if KeyOf(o1, multiCluster) == KeyOf(o2, multiCluster) {
      SameKeySamePath(extension, o1, o2, multiCluster, false);
      SameKeySamePath(extension, o1, o2, multiCluster, true);
    }
    var shorts := PathsOf(Namer(extension, multiCluster, false), objs);
    if shorts[i] == shorts[j] {
      CountOfTwo(shorts, i, j);
    }
    if PathOf(extension, o1, multiCluster, true) == PathOf(extension, o2, multiCluster, true) {
      LongPathsInjective(extension, o1, o2, multiCluster);
    }
    ShortNeverMeetsLong(extension, o1, o2, multiCluster);
    ShortNeverMeetsLong(extension, o2, o1, multiCluster);
  }

  lemma AllUniqueExactly(extension: string, objs: seq<Object>, multiCluster: bool)
    requires '/' !in extension && forall o :: o in objs ==> WellNamed(o, multiCluster)
    ensures forall i :: 0 <= i < |objs| ==>
              UniquePath(extension, objs, multiCluster, i)
              == SpelledPath(extension, KeyOf(objs[i], multiCluster), multiCluster, HasRival(objs, multiCluster, i))
    ensures forall i, j :: 0 <= i < j < |objs| ==>
              (UniquePath(extension, objs, multiCluster, i) == UniquePath(extension, objs, multiCluster, j)
               <==> KeyOf(objs[i], multiCluster) == KeyOf(objs[j], multiCluster))
  {
    forall i | 0 <= i < |objs|
      ensures UniquePath(extension, objs, multiCluster, i)
              == SpelledPath(extension, KeyOf(objs[i], multiCluster), multiCluster, HasRival(objs, multiCluster, i))
    {
      UniquePathExactly(extension, objs, multiCluster, i);
    }
    forall i, j | 0 <= i < j < |objs|
      ensures UniquePath(extension, objs, multiCluster, i) == UniquePath(extension, objs, multiCluster, j)
              <==> KeyOf(objs[i], multiCluster) == KeyOf(objs[j], multiCluster)
    {
      UniqueExactly(extension, objs, multiCluster, i, j);
    }
  }

  /** A cluster name with a slash can spell the path of another cluster's namespace. */
  lemma SlashInClusterPath(extension: string, o1: Object, o2: Object, includeGroup: bool, a: string, b: string)
    requires IsCleanElement(a) && IsCleanElement(b) && WellNamed(o2, true) && '/' !in extension
    requires o1.id == o2.id.(namespace := "") && o2.id.namespace == b
    requires ClusterOf(o1) == a + "/" + b && ClusterOf(o2) == a
    ensures PathOf(extension, o1, true, includeGroup) == PathOf(extension, o2, true, includeGroup)
  {
    var base := BaseName(extension, o2, includeGroup);
    assert BaseName(extension, o1, includeGroup) == base;
    BaseNameIsClean(extension, o2, true, includeGroup);
    JoinPathOfClean(b, [base]);
    assert a + "/" + b + "/" + base == a + "/" + (b + "/" + base);
    assert Join([b] + [base], '/') == b + "/" + base by {
      assert ([b] + [base])[1..] == [base];
    }
  }

  /** So clean elements are needed: the two objects get one path from the
      generator, even the long one, although their keys differ. */
  lemma SlashInClusterCollides(extension: string, o1: Object, o2: Object, a: string, b: string)
    requires IsCleanElement(a) && IsCleanElement(b) && WellNamed(o2, true) && '/' !in extension
    requires o1.id == o2.id.(namespace := "") && o2.id.namespace == b
    requires ClusterOf(o1) == a + "/" + b && ClusterOf(o2) == a
    ensures KeyOf(o1, true) != KeyOf(o2, true)
    ensures UniquePath(extension, [o1, o2], true, 0) == UniquePath(extension, [o1, o2], true, 1)
            == PathOf(extension, o2, true, true)
  {
    SlashInClusterPath(extension, o1, o2, false, a, b);
    SlashInClusterPath(extension, o1, o2, true, a, b);
    CountOfTwo(PathsOf(Namer(extension, true, false), [o1, o2]), 0, 1);
  }

  // The generator, in place.

  datatype FileObject = FileObject(obj: Object, relative: string)

  function ObjectsOf(files: seq<FileObject>): seq<Object> {
    seq(|files|, i requires 0 <= i < |files| => files[i].obj)
  }

  /** duplicates counts how often each path was given out. */
  ghost predicate Counts(duplicates: map<string, nat>, paths: seq<string>) {
    forall p :: CountOf(paths, p) == if p in duplicates then duplicates[p] else 0
  }

  lemma CountsOneMore(duplicates: map<string, nat>, paths: seq<string>, p: string)
    requires Counts(duplicates, paths)
    ensures Counts(duplicates[p := (if p in duplicates then duplicates[p] else 0) + 1], paths + [p])
  {
  }

  /** The first loop: every object gets its short path, and paths are counted. */
  method AssignPaths(short: Object -> string, files: array<FileObject>, ghost objs: seq<Object>)
    returns (duplicates: map<string, nat>)
    requires objs == ObjectsOf(files[..])
    modifies files
    ensures ObjectsOf(files[..]) == objs
    ensures Counts(duplicates, PathsOf(short, objs))
    ensures forall i :: 0 <= i < files.Length ==> files[i].relative == PathsOf(short, objs)[i]
  {
    ghost var shorts := PathsOf(short, objs);
    duplicates := map[];
    for i := 0 to files.Length
      invariant forall j :: 0 <= j < files.Length ==> files[j].obj == objs[j]
      invariant forall j :: 0 <= j < i ==> files[j].relative == shorts[j]
      invariant Counts(duplicates, shorts[..i])
    {
      var p := short(files[i].obj);
      files[i] := files[i].(relative := p);
      CountsOneMore(duplicates, shorts[..i], p);
      assert shorts[..i + 1] == shorts[..i] + [p];
      duplicates := duplicates[p := (if p in duplicates then duplicates[p] else 0) + 1];
    }
    assert shorts[..files.Length] == shorts;
  }

  /** The second loop: objects that share a short path get their long path. */
  method LengthenPaths(long: Object -> string, files: array<FileObject>, duplicates: map<string, nat>,
                       ghost objs: seq<Object>, ghost shorts: seq<string>)
    requires objs == ObjectsOf(files[..]) && |shorts| == |objs| && Counts(duplicates, shorts)
    requires forall i :: 0 <= i < files.Length ==> files[i].relative == shorts[i]
    modifies files
    ensures ObjectsOf(files[..]) == objs
    ensures forall i :: 0 <= i < files.Length ==> files[i].relative == Chosen(shorts, PathsOf(long, objs), i)
  {
    ghost var longs := PathsOf(long, objs);
    for i := 0 to files.Length
      invariant forall j :: 0 <= j < files.Length ==> files[j].obj == objs[j]
      invariant forall j :: 0 <= j < i ==> files[j].relative == Chosen(shorts, longs, j)
      invariant forall j :: i <= j < files.Length ==> files[j].relative == shorts[j]
    {
      assert CountOf(shorts, shorts[i]) == if shorts[i] in duplicates then duplicates[shorts[i]] else 0;
      if files[i].relative in duplicates && duplicates[files[i].relative] > 1 {
        files[i] := FileObject(files[i].obj, long(files[i].obj));
      }
    }
  }

  predicate AllWellNamed(files: seq<FileObject>, multiCluster: bool) {
    forall i :: 0 <= i < |files| ==> WellNamed(files[i].obj, multiCluster)
  }

  /** Every object has its spelled path, with the group exactly where another object
      differs in nothing else, and two have one path exactly if their keys are equal. */
  predicate AreNamed(extension: string, files: seq<FileObject>, multiCluster: bool) {
    && (forall i :: 0 <= i < |files| ==>
          files[i].relative == SpelledPath(extension, KeyOf(files[i].obj, multiCluster), multiCluster,
                                           HasRival(ObjectsOf(files), multiCluster, i)))
    && (forall i, j :: 0 <= i < j < |files| ==>
          (files[i].relative == files[j].relative
           <==> KeyOf(files[i].obj, multiCluster) == KeyOf(files[j].obj, multiCluster)))
  }

  lemma GeneratedAreNamed(extension: string, files: seq<FileObject>, multiCluster: bool)
    requires '/' !in extension && AllWellNamed(files, multiCluster)
    requires forall i :: 0 <= i < |files| ==>
               files[i].relative == UniquePath(extension, ObjectsOf(files), multiCluster, i)
    ensures AreNamed(extension, files, multiCluster)
  {
    AllUniqueExactly(extension, ObjectsOf(files), multiCluster);
  }

  method NameInTwoPasses(extension: string, multiCluster: bool, files: array<FileObject>)
    modifies files
    ensures ObjectsOf(files[..]) == old(ObjectsOf(files[..]))
    ensures forall i :: 0 <= i < files.Length ==>
              files[i].relative == UniquePath(extension, old(ObjectsOf(files[..])), multiCluster, i)
  {
    ghost var objs := ObjectsOf(files[..]);
    var duplicates := AssignPaths(Namer(extension, multiCluster, false), files, objs);
    LengthenPaths(Namer(extension, multiCluster, true), files, duplicates, objs,
                  PathsOf(Namer(extension, multiCluster, false), objs));
  }

  method GenerateUniqueFileNames(extension: string, multiCluster: bool, files: array<FileObject>)
    modifies files
    ensures ObjectsOf(files[..]) == old(ObjectsOf(files[..]))
    ensures forall i :: 0 <= i < files.Length ==>
              files[i].relative == UniquePath(extension, old(ObjectsOf(files[..])), multiCluster, i)
    ensures '/' !in extension && AllWellNamed(files[..], multiCluster) ==> AreNamed(extension, files[..], multiCluster)
  {
    NameInTwoPasses(extension, multiCluster, files);
    if '/' !in extension && AllWellNamed(files[..], multiCluster) {
      GeneratedAreNamed(extension, files[..], multiCluster);
    }
  }
}
