/** Which dev-only repositories the exported toolchain registrations can reach: a
    depth-first walk over targets that shares one `seen` set and keeps witness paths. */
module DevRepoGuard {
  import opened Common
  import opened Names

  datatype Key = Key(package: string, name: string)

  /** The targets of each package, by name, with the labels each one mentions:
      those parsed from BUILD.bazel files and those from BUILD files. */
  datatype BuildFiles = BuildFiles(
    bazel: map<string, map<string, set<string>>>, plain: map<string, map<string, set<string>>>)

  datatype Violation = Violation(registered: string, repo: string, path: seq<string>)

  // ---------------------------------------------------------------- labels

  /** The first index at or after `i` at which `c` stands; the length if there is none. */
  function Find(s: string, c: char, i: nat): (j: nat)
    requires i <= |s|
    ensures i <= j <= |s|
    decreases |s| - i
  {
    if i == |s| || s[i] == c then i else Find(s, c, i + 1)
  }

  /** `s.rsplit("/", 1)[-1]` */
  function Basename(s: string): string {
    var i := Find(s, '/', 0);
    if i == |s| then s else Basename(s[i + 1..])
  }

  /** `_target_from_label` */
  function TargetFromLabel(lbl: string, package: string): Option<Key> {
    var own := "//" + package + ":";
    if ":" <= lbl then Some(Key(package, lbl[1..]))
    else if own <= lbl then Some(Key(package, lbl[|own|..]))
    else if "//" <= lbl && '@' !in lbl then
      var raw := lbl[2..];
      var i := Find(raw, ':', 0);
      if i < |raw| then Some(Key(raw[..i], raw[i + 1..])) else Some(Key(raw, Basename(raw)))
    else None
  }

  predicate RepoChar(c: char) {
    'A' <= c <= 'Z' || 'a' <= c <= 'z' || '0' <= c <= '9' || c in "_.+-"
  }

  function RunEnd(s: string, i: nat): (j: nat)
    requires i <= |s|
    ensures i <= j <= |s|
    decreases |s| - i
  {
    if i == |s| || !RepoChar(s[i]) then i else RunEnd(s, i + 1)
  }

  /** All matches of `@name//` in `s` from index `i` on, left to right. */
  function ReposFrom(s: string, i: nat): seq<string>
    requires i <= |s|
    decreases |s| - i
  {
    if i == |s| then []
    else if s[i] == '@' then
      var j := RunEnd(s, i + 1);
      if i + 1 < j && j + 2 <= |s| && s[j] == '/' && s[j + 1] == '/' then [s[i + 1..j]] + ReposFrom(s, j + 2)
      else ReposFrom(s, i + 1)
    else ReposFrom(s, i + 1)
  }

  function Repos(lbl: string): seq<string> { ReposFrom(lbl, 0) }

  function TargetLabel(k: Key): string { "//" + k.package + ":" + k.name }

  // ---------------------------------------------------------------- what labels mean

  lemma {:induction false} Finds(s: string, c: char, i: nat)
    requires i <= |s|
    ensures var j := Find(s, c, i); (forall k :: i <= k < j ==> s[k] != c) && (j < |s| ==> s[j] == c)
    decreases |s| - i
  {
    if i < |s| && s[i] != c { Finds(s, c, i + 1); }
  }

  lemma FindsEnd(a: string, c: char, b: string)
    requires c !in a
    ensures Find(a + [c] + b, c, 0) == |a|
    ensures Find(a, c, 0) == |a|
  {
    var s := a + [c] + b;
    Finds(s, c, 0);
    Finds(a, c, 0);
    assert s[|a|] == c;
    assert forall k :: 0 <= k < |a| ==> s[k] == a[k];
  }

  /** What follows the last slash. */
  lemma {:induction false} BasenameOf(dir: string, base: string)
    requires '/' !in base
    ensures Basename(base) == base && Basename(dir + "/" + base) == base
    decreases |dir|
  {
    FindsEnd(base, '/', "");
    var s := dir + "/" + base;
    Finds(dir, '/', 0);
    var i := Find(dir, '/', 0);
    if i == |dir| {
      FindsEnd(dir, '/', base);
      assert s[|dir| + 1..] == base;
    } else {
      var rest := dir[i + 1..];
      assert s == dir[..i] + "/" + (rest + "/" + base);
      FindsEnd(dir[..i], '/', rest + "/" + base);
      assert s[i + 1..] == rest + "/" + base;
      BasenameOf(rest, base);
    }
  }

  predicate Simple(s: string) { ':' !in s && '@' !in s }

  lemma SplitsAtColon(package: string, name: string)
    requires ':' !in package
    ensures var raw := package + ":" + name;
      Find(raw, ':', 0) == |package| < |raw| && raw[..|package|] == package && raw[|package| + 1..] == name
  {
    FindsEnd(package, ':', name);
    assert package + [':'] + name == package + ":" + name;
  }

  /** A label that starts with the mentioning package and a colon is of that package. */
  lemma OwnLabel(here: string, package: string, name: string)
    requires ':' !in here && ':' !in package && ("//" + here + ":") <= "//" + package + ":" + name
    ensures here == package
  {
    var own, lbl := "//" + here + ":", "//" + package + ":" + name;
    var tail := lbl[|own|..];
    assert lbl == own + tail;
    assert package + ":" + name == lbl[2..];
    assert here + ":" + tail == (own + tail)[2..];
    SplitsAtColon(package, name);
    SplitsAtColon(here, tail);
  }

  /** `:name` is of the package that mentions it, `//package:name` of the one it names. */
  lemma LabelNamesTarget(here: string, package: string, name: string)
    requires ':' !in here && Simple(package)
    ensures TargetFromLabel(":" + name, here) == Some(Key(here, name))
    ensures '@' !in name || package == here ==>
      TargetFromLabel("//" + package + ":" + name, here) == Some(Key(package, name))
  {
    var lbl, own := "//" + package + ":" + name, "//" + here + ":";
    assert (":" + name)[1..] == name && lbl[0] == '/';
    if package == here {
      assert lbl == own + name && lbl[|own|..] == name;
    } else {
      assert !(own <= lbl) by { if own <= lbl { OwnLabel(here, package, name); } }
      SplitsAtColon(package, name);
      assert lbl[2..] == package + ":" + name;
      assert '@' !in name ==> '@' !in lbl;
    }
  }

  /** `//directory/base` stands for `//directory/base:base`. */
  lemma LabelWithoutName(here: string, dir: string, base: string)
    requires Simple(dir) && Simple(base) && '/' !in base
    ensures TargetFromLabel("//" + base, here) == Some(Key(base, base))
    ensures TargetFromLabel("//" + dir + "/" + base, here) == Some(Key(dir + "/" + base, base))
  {
    BasenameOf(dir, base);
    PlainLabel(here, base);
    PlainLabel(here, dir + "/" + base);
    assert "//" + (dir + "/" + base) == "//" + dir + "/" + base;
  }

  lemma PlainLabel(here: string, raw: string)
    requires Simple(raw)
    ensures TargetFromLabel("//" + raw, here) == Some(Key(raw, Basename(raw)))
  {
    var lbl, own := "//" + raw, "//" + here + ":";
    assert lbl[2..] == raw && lbl[0] == '/';
    FindsEnd(raw, ':', "");
    assert own[|own| - 1] == ':';
    assert forall k :: 0 <= k < |lbl| ==> lbl[k] != ':';
  }

  /** Every other label names no target of the workspace. */
  lemma ForeignLabel(here: string, lbl: string)
    ensures TargetFromLabel(lbl, here).None? <==>
      !(":" <= lbl) && !(("//" + here + ":") <= lbl) && !("//" <= lbl && '@' !in lbl)
  {
  }

  /** A route spells its targets so that each label leads back to its target. */
  lemma RouteReadsBack(here: string, k: Key)
    requires ':' !in here && Simple(k.package) && '@' !in k.name
    ensures TargetFromLabel(TargetLabel(k), here) == Some(k)
  {
    LabelNamesTarget(here, k.package, k.name);
  }

  lemma {:induction false} RunEnds(s: string, i: nat)
    requires i <= |s|
    ensures var j := RunEnd(s, i); (forall k :: i <= k < j ==> RepoChar(s[k])) && (j < |s| ==> !RepoChar(s[j]))
    decreases |s| - i
  {
    if i < |s| && RepoChar(s[i]) { RunEnds(s, i + 1); }
  }

  /** Letters, digits, plus, minus, dot and underscore, by their codes. */
  lemma RepoCharacters(c: char)
    ensures RepoChar(c) <==>
      var n := c as int; 65 <= n <= 90 || 97 <= n <= 122 || 48 <= n <= 57 || n == 43 || n == 45 || n == 46 || n == 95
  {
  }

  /** `@name//` stands in `s` at `i`. */
  predicate RepoAt(s: string, i: nat, name: string) {
    && i + |name| + 3 <= |s| && name != "" && (forall k :: 0 <= k < |name| ==> RepoChar(name[k]))
    && s[i] == '@' && s[i + 1..i + 1 + |name|] == name
    && s[i + 1 + |name|] == '/' && s[i + 2 + |name|] == '/'
  }

  /** At an `@` there is at most one name: the run of name characters after it. */
  lemma RunIsName(s: string, i: nat, name: string)
    requires i < |s| && s[i] == '@'
    ensures var j := RunEnd(s, i + 1);
      RepoAt(s, i, name) <==> i + 1 < j && j + 2 <= |s| && s[j] == '/' && s[j + 1] == '/' && s[i + 1..j] == name
  {
    RunEnds(s, i + 1);
    var j := RunEnd(s, i + 1);
    if RepoAt(s, i, name) {
      var e := i + 1 + |name|;
      forall k | i + 1 <= k < e ensures RepoChar(s[k]) { assert s[i + 1..e][k - i - 1] == s[k]; }
      assert !RepoChar(s[e]);
      assert j == e;
    }
    if i + 1 < j && j + 2 <= |s| && s[j] == '/' && s[j + 1] == '/' && s[i + 1..j] == name {
        forall k | 0 <= k < |name| ensures RepoChar(name[k]) { assert name[k] == s[i + 1 + k]; }
    }
  }

  /** Where the search goes on after index `i`. */
  function Resume(s: string, i: nat): nat
    requires i < |s|
  {
    if s[i] != '@' then i + 1
    else
      var j := RunEnd(s, i + 1);
      if i + 1 < j && j + 2 <= |s| && s[j] == '/' && s[j + 1] == '/' then j + 2 else i + 1
  }

  lemma NoneSkipped(s: string, i: nat, k: nat, name: string)
    requires i < |s| && i < k < Resume(s, i)
    ensures !RepoAt(s, k, name)
  {
    RunEnds(s, i + 1);
    var j := RunEnd(s, i + 1);
  }

  lemma FoundHere(s: string, i: nat, name: string)
    requires i < |s|
    ensures i < Resume(s, i) <= |s|
    ensures name in ReposFrom(s, i) <==> RepoAt(s, i, name) || name in ReposFrom(s, Resume(s, i))
  {
    if s[i] == '@' { RunIsName(s, i, name); }
  }

  lemma {:induction false} ReposFound(s: string, i: nat, name: string)
    requires i <= |s|
    ensures name in ReposFrom(s, i) <==> exists k: nat :: i <= k && RepoAt(s, k, name)
    decreases |s| - i
  {
    if i == |s| {
      forall k: nat | i <= k ensures !RepoAt(s, k, name) {}
    } else {
      FoundHere(s, i, name);
      hide RepoAt;
      hide ReposFrom;
      ReposFound(s, Resume(s, i), name);
      forall k: nat | i < k < Resume(s, i) ensures !RepoAt(s, k, name) { NoneSkipped(s, i, k, name); }
    }
  }

  /** A label names exactly the repositories that stand in it as `@name//`. */
  lemma ReposExact(lbl: string, name: string)
    ensures name in Repos(lbl) <==> exists k: nat :: RepoAt(lbl, k, name)
  {
    ReposFound(lbl, 0, name);
  }

  // ---------------------------------------------------------------- the target graph

  function Parsed(files: BuildFiles, package: string): map<string, set<string>> {
    if package in files.bazel then files.bazel[package]
    else if package in files.plain then files.plain[package]
    else map[]
  }

  function Lookup(files: BuildFiles, k: Key): Option<set<string>> {
    if k.name in Parsed(files, k.package) then Some(Parsed(files, k.package)[k.name]) else None
  }

  ghost predicate Mentions(files: BuildFiles, k: Key, lbl: string) {
    Lookup(files, k).Some? && lbl in Lookup(files, k).value
  }

  ghost predicate RefersTo(files: BuildFiles, a: Key, b: Key) {
    exists lbl :: Mentions(files, a, lbl) && TargetFromLabel(lbl, a.package) == Some(b)
  }

  /** A package's targets are those of its BUILD.bazel file, or of its BUILD file if there is no other. */
  lemma LookupMeans(files: BuildFiles, k: Key, labels: set<string>)
    ensures Lookup(files, k) == Some(labels) <==>
      || (k.package in files.bazel && k.name in files.bazel[k.package] && files.bazel[k.package][k.name] == labels)
      || (k.package !in files.bazel && k.package in files.plain && k.name in files.plain[k.package]
          && files.plain[k.package][k.name] == labels)
  {
  }

  /** Existing targets, each referring to the next. */
  ghost predicate Chain(files: BuildFiles, start: Key, keys: seq<Key>) {
    && keys != [] && keys[0] == start
    && (forall i :: 0 <= i < |keys| ==> Lookup(files, keys[i]).Some?)
    && (forall i, j :: 0 <= i < j < |keys| && j == i + 1 ==> RefersTo(files, keys[i], keys[j]))
  }

  ghost predicate NamesRepo(files: BuildFiles, k: Key, lbl: string, repo: string) {
    Mentions(files, k, lbl) && repo in Repos(lbl)
  }

  /** From `start`, a chain of target references leads to a label naming `repo`. */
  ghost predicate Reaches(files: BuildFiles, start: Key, repo: string) {
    exists keys, lbl :: LeadsTo(files, start, keys, lbl, repo)
  }

  ghost predicate LeadsTo(files: BuildFiles, start: Key, keys: seq<Key>, lbl: string, repo: string) {
    Chain(files, start, keys) && NamesRepo(files, keys[|keys| - 1], lbl, repo)
  }

  function Route(keys: seq<Key>): seq<string> {
    seq(|keys|, i requires 0 <= i < |keys| => TargetLabel(keys[i]))
  }

  /** The violation's path spells out such a chain and the label that ends it. */
  ghost predicate Witnessed(files: BuildFiles, start: Key, dev: set<string>, v: Violation) {
    exists keys, lbl ::
      LeadsTo(files, start, keys, lbl, v.repo) && v.repo in dev && v.path == Route(keys) + [lbl]
  }

  ghost predicate Reported(violations: seq<Violation>, registered: string, repo: string) {
    exists v :: v in violations && v.registered == registered && v.repo == repo
  }

  /** Everything `k` refers to has been seen and every dev repository it names is reported. */
  ghost predicate Done(
    files: BuildFiles, dev: set<string>, registered: string, seen: set<Key>, violations: seq<Violation>, k: Key)
  {
    && (forall b :: RefersTo(files, k, b) ==> b in seen)
    && (forall lbl, repo :: NamesRepo(files, k, lbl, repo) && repo in dev ==> Reported(violations, registered, repo))
  }

  // ---------------------------------------------------------------- the index

  /** Parses a package the first time one of its targets is asked for. */
  class TargetIndex {
    const files: BuildFiles
    var packages: map<string, map<string, set<string>>>

    ghost predicate Valid()
      reads this
    {
      forall p :: p in packages ==> packages[p] == Parsed(files, p)
    }

    constructor (files: BuildFiles)
      ensures Valid() && this.files == files
    {
      this.files := files;
      packages := map[];
    }

    method Get(k: Key) returns (labels: Option<set<string>>)
      requires Valid()
      modifies this
      ensures Valid() && labels == Lookup(files, k)
    {
      if k.package !in packages {
        packages := packages[k.package := Parsed(files, k.package)];
      }
      labels := if k.name in packages[k.package] then Some(packages[k.package][k.name]) else None;
    }
  }

  method SortedLabels(labels: set<string>) returns (r: seq<string>)
    ensures forall l :: l in r <==> l in labels
    ensures SortedBy(r, Itself)
  {
    var rest, list := labels, [];
    while rest != {}
      invariant forall l :: l in labels <==> l in rest || l in list
      decreases rest
    {
      var l :| l in rest;
      list, rest := list + [l], rest - {l};
    }
    SortIsSorted(list, Itself);
    r := Sort(list, Itself);
    forall l ensures l in r <==> l in list { assert l in multiset(r) <==> l in multiset(list); }
  }

  // ---------------------------------------------------------------- bookkeeping

  /** One label of `k` has been dealt with. */
  ghost predicate LabelDone(
    dev: set<string>, registered: string, seen: set<Key>, violations: seq<Violation>, k: Key, lbl: string)
  {
    && (TargetFromLabel(lbl, k.package).Some? ==> TargetFromLabel(lbl, k.package).value in seen)
    && (forall repo :: repo in Repos(lbl) && repo in dev ==> Reported(violations, registered, repo))
  }

  lemma LabelStaysDone(
    dev: set<string>, registered: string, seen: set<Key>, violations: seq<Violation>,
    seen': set<Key>, violations': seq<Violation>, k: Key, lbl: string)
    requires LabelDone(dev, registered, seen, violations, k, lbl)
    requires seen <= seen' && violations <= violations'
    ensures LabelDone(dev, registered, seen', violations', k, lbl)
  {
    forall v | v in violations ensures v in violations' {}
  }

  lemma StaysDone(
    files: BuildFiles, dev: set<string>, registered: string, seen: set<Key>, violations: seq<Violation>,
    seen': set<Key>, violations': seq<Violation>, k: Key)
    requires Done(files, dev, registered, seen, violations, k) && seen <= seen' && violations <= violations'
    ensures Done(files, dev, registered, seen', violations', k)
  {
    forall v | v in violations ensures v in violations' {}
    forall lbl, repo | NamesRepo(files, k, lbl, repo) && repo in dev ensures Reported(violations', registered, repo) {
      assert Reported(violations, registered, repo);
    }
  }

  lemma LabelsMakeDone(
    files: BuildFiles, dev: set<string>, registered: string, seen: set<Key>, violations: seq<Violation>,
    k: Key, sorted: seq<string>)
    requires Lookup(files, k).Some? ==> forall l :: l in sorted <==> l in Lookup(files, k).value
    requires forall j :: 0 <= j < |sorted| ==> LabelDone(dev, registered, seen, violations, k, sorted[j])
    ensures Done(files, dev, registered, seen, violations, k)
  {
    forall lbl | Mentions(files, k, lbl) ensures LabelDone(dev, registered, seen, violations, k, lbl) {
      var j :| 0 <= j < |sorted| && sorted[j] == lbl;
    }
  }

  lemma ChainExtends(files: BuildFiles, start: Key, trail: seq<Key>, key: Key)
    requires Lookup(files, key).Some?
    requires if trail == [] then key == start
             else Chain(files, start, trail) && RefersTo(files, trail[|trail| - 1], key)
    ensures Chain(files, start, trail + [key])
    ensures Route(trail + [key]) == Route(trail) + [TargetLabel(key)]
  {
  }

  function Universe(files: BuildFiles): set<Key> {
    set p, n | p in files.bazel.Keys + files.plain.Keys && n in Parsed(files, p) :: Key(p, n)
  }

  lemma ExistingInUniverse(files: BuildFiles, k: Key)
    requires Lookup(files, k).Some?
    ensures k in Universe(files)
  {
  }

  // ---------------------------------------------------------------- the walk

  /** The state shared by the nested visits of `_walk_registered_target`. */
  class Walker {
    const registered: string
    const dev: set<string>
    const index: TargetIndex
    ghost const start: Key
    var seen: set<Key>
    var violations: seq<Violation>

    constructor (registered: string, dev: set<string>, index: TargetIndex, ghost start: Key)
      ensures this.registered == registered && this.dev == dev && this.index == index && this.start == start
      ensures seen == {} && violations == []
    {
      this.registered, this.dev, this.index, this.start := registered, dev, index, start;
      seen, violations := {}, [];
    }

    ghost predicate AllWitnessed()
      reads this
    {
      forall v :: v in violations ==> v.registered == registered && Witnessed(index.files, start, dev, v)
    }

    ghost predicate DoneSince(before: set<Key>)
      reads this
    {
      forall k :: k in seen && k !in before ==> Done(index.files, dev, registered, seen, violations, k)
    }

    ghost predicate OnTrail(key: Key, route: seq<string>, trail: seq<Key>) {
      && route == Route(trail)
      && if trail == [] then key == start
         else Chain(index.files, start, trail) && RefersTo(index.files, trail[|trail| - 1], key)
    }

    /** `trail` is the chain of targets that `route` spells. */
    method Visit(key: Key, route: seq<string>, ghost trail: seq<Key>)
      requires index.Valid() && AllWitnessed() && OnTrail(key, route, trail)
      modifies this, index
      ensures index.Valid() && AllWitnessed()
      ensures old(seen) + {key} <= seen && old(violations) <= violations
      ensures DoneSince(old(seen))
      decreases Universe(index.files) - seen, 1
    {
      hide Done;
      hide Chain;
      hide Lookup;
      hide Witnessed;
      hide RefersTo;
      hide Universe;
      if key in seen { return; }
      ghost var before := seen;
      seen := seen + {key};
      var labels := index.Get(key);
      if labels.None? {
        LabelsMakeDone(index.files, dev, registered, seen, violations, key, []);
        return;
      }
      ExistingInUniverse(index.files, key);
      ChainExtends(index.files, start, trail, key);
      var current := route + [TargetLabel(key)];
      var sorted := SortedLabels(labels.value);
      for i := 0 to |sorted|
        invariant index.Valid() && AllWitnessed()
        invariant before + {key} <= seen && old(violations) <= violations
        invariant DoneSince(before + {key})
        invariant forall j :: 0 <= j < i ==> LabelDone(dev, registered, seen, violations, key, sorted[j])
      {
        hide LabelDone;
        ghost var seen0, violations0 := seen, violations;
        VisitLabel(sorted[i], key, current, trail + [key]);
        forall j | 0 <= j < i ensures LabelDone(dev, registered, seen, violations, key, sorted[j]) {
          LabelStaysDone(dev, registered, seen0, violations0, seen, violations, key, sorted[j]);
        }
        forall k | k in seen0 && k !in before + {key} ensures Done(index.files, dev, registered, seen, violations, k) {
          StaysDone(index.files, dev, registered, seen0, violations0, seen, violations, k);
        }
      }
      LabelsMakeDone(index.files, dev, registered, seen, violations, key, sorted);
    }

    /** The body of the loop over a target's labels. */
    method VisitLabel(lbl: string, key: Key, current: seq<string>, ghost keys: seq<Key>)
      requires index.Valid() && AllWitnessed() && key in seen
      requires keys != [] && keys[|keys| - 1] == key
      requires Chain(index.files, start, keys) && current == Route(keys)
      requires Mentions(index.files, key, lbl)
      modifies this, index
      ensures index.Valid() && AllWitnessed()
      ensures old(seen) <= seen && old(violations) <= violations
      ensures DoneSince(old(seen))
      ensures LabelDone(dev, registered, seen, violations, key, lbl)
      decreases Universe(index.files) - seen, 2
    {
      hide Done;
      hide Chain;
      hide Lookup;
      hide Universe;
      var repos := Repos(lbl);
      for i := 0 to |repos|
        invariant index.Valid() && AllWitnessed()
        invariant seen == old(seen) && old(violations) <= violations
        invariant forall j :: 0 <= j < i && repos[j] in dev ==> Reported(violations, registered, repos[j])
      {
        hide Witnessed;
        if repos[i] in dev {
          ghost var before := violations;
          var v := Violation(registered, repos[i], current + [lbl]);
          WitnessFound(index.files, start, dev, v, keys, lbl);
          violations := violations + [v];
          forall j | 0 <= j < i && repos[j] in dev ensures Reported(violations, registered, repos[j]) {
            assert Reported(before, registered, repos[j]);
          }
          assert v in violations;
        }
      }
      ghost var violations0 := violations;
      assert forall repo :: repo in repos && repo in dev ==> Reported(violations0, registered, repo);
      var next := TargetFromLabel(lbl, key.package);
      if next.Some? {
        assert RefersTo(index.files, key, next.value);
        Visit(next.value, current, keys);
        forall repo | repo in repos && repo in dev ensures Reported(violations, registered, repo) {
          var v :| v in violations0 && v.registered == registered && v.repo == repo;
          assert v in violations;
        }
      }
    }
  }

  lemma WitnessFound(files: BuildFiles, start: Key, dev: set<string>, v: Violation, keys: seq<Key>, lbl: string)
    requires Chain(files, start, keys) && Mentions(files, keys[|keys| - 1], lbl)
    requires v.repo in Repos(lbl) && v.repo in dev
    requires v.path == Route(keys) + [lbl]
    ensures Witnessed(files, start, dev, v)
  {
    assert LeadsTo(files, start, keys, lbl, v.repo);
  }

  // ---------------------------------------------------------------- completeness

  lemma {:induction false} ChainIsSeen(
    files: BuildFiles, dev: set<string>, registered: string, seen: set<Key>, violations: seq<Violation>,
    start: Key, keys: seq<Key>, i: nat)
    requires start in seen && forall k :: k in seen ==> Done(files, dev, registered, seen, violations, k)
    requires Chain(files, start, keys) && i < |keys|
    ensures keys[i] in seen
  {
    if i > 0 {
      ChainIsSeen(files, dev, registered, seen, violations, start, keys, i - 1);
      assert RefersTo(files, keys[i - 1], keys[i]);
      assert Done(files, dev, registered, seen, violations, keys[i - 1]);
    }
  }

  /** A set of targets closed under reference misses no reachable dev-only repository. */
  lemma ReachableIsReported(
    files: BuildFiles, dev: set<string>, registered: string, seen: set<Key>, violations: seq<Violation>,
    start: Key, repo: string)
    requires start in seen && forall k :: k in seen ==> Done(files, dev, registered, seen, violations, k)
    requires Reaches(files, start, repo) && repo in dev
    ensures Reported(violations, registered, repo)
  {
    var keys, lbl :| LeadsTo(files, start, keys, lbl, repo);
    ChainIsSeen(files, dev, registered, seen, violations, start, keys, |keys| - 1);
    assert Done(files, dev, registered, seen, violations, keys[|keys| - 1]);
  }

  /** `_walk_registered_target`: reports, each with a genuine chain, exactly the dev-only
      repositories reachable from the registered target, cycles or not. */
  method WalkRegisteredTarget(registered: string, start: Key, index: TargetIndex, dev: set<string>)
    returns (violations: seq<Violation>)
    requires index.Valid()
    modifies index
    ensures index.Valid()
    ensures forall v :: v in violations ==> v.registered == registered && Witnessed(index.files, start, dev, v)
    ensures forall repo :: Reported(violations, registered, repo) <==> repo in dev && Reaches(index.files, start, repo)
  {
    hide Done;
    hide Chain;
    var walker := new Walker(registered, dev, index, start);
    walker.Visit(start, [], []);
    violations := walker.violations;
    forall repo ensures Reported(violations, registered, repo) <==> repo in dev && Reaches(index.files, start, repo) {
      if repo in dev && Reaches(index.files, start, repo) {
        ReachableIsReported(index.files, dev, registered, walker.seen, violations, start, repo);
      }
    }
  }

  // ---------------------------------------------------------------- find_violations

  /** One `name = ...` call of a module file. */
  datatype Declaration = Declaration(name: string, dev: bool)

  ghost predicate Declared(calls: seq<Declaration>, name: string) {
    name != "" && exists c :: c in calls && c.name == name
  }

  ghost predicate DeclaredAs(calls: seq<Declaration>, name: string, dev: bool) {
    name != "" && Declaration(name, dev) in calls
  }

  method RepoDeclarations(calls: seq<Declaration>, fileIsDevOnly: bool) returns (dev: set<string>, nonDev: set<string>)
    ensures forall n :: n in dev <==> DeclaredAs(calls, n, true) || (fileIsDevOnly && DeclaredAs(calls, n, false))
    ensures forall n :: n in nonDev <==> !fileIsDevOnly && DeclaredAs(calls, n, false)
  {
    dev, nonDev := {}, {};
    for i := 0 to |calls|
      invariant forall n :: n in dev <==>
        DeclaredAs(calls[..i], n, true) || (fileIsDevOnly && DeclaredAs(calls[..i], n, false))
      invariant forall n :: n in nonDev <==> !fileIsDevOnly && DeclaredAs(calls[..i], n, false)
    {
      var c := calls[i];
      assert calls[..i + 1] == calls[..i] + [c];
      if c.name == "" { continue; }
      if fileIsDevOnly || c.dev { dev := dev + {c.name}; } else { nonDev := nonDev + {c.name}; }
    }
    assert calls[..|calls|] == calls;
  }

  /** `dev_only_repositories`: declared somewhere, and nowhere as a non-dev dependency. */
  method DevOnlyRepositories(moduleCalls: seq<Declaration>, devModuleCalls: seq<Declaration>)
    returns (repos: set<string>)
    ensures forall n :: n in repos <==>
      (Declared(moduleCalls, n) || Declared(devModuleCalls, n)) && !DeclaredAs(moduleCalls, n, false)
  {
    var dev, nonDev := RepoDeclarations(moduleCalls, false);
    var dev', nonDev' := RepoDeclarations(devModuleCalls, true);
    repos := (dev + dev') - (nonDev + nonDev');
    forall n
      ensures Declared(moduleCalls, n) <==> DeclaredAs(moduleCalls, n, true) || DeclaredAs(moduleCalls, n, false)
    {
      DeclaredEitherWay(moduleCalls, n);
    }
    forall n
      ensures Declared(devModuleCalls, n) <==>
        DeclaredAs(devModuleCalls, n, true) || DeclaredAs(devModuleCalls, n, false)
    {
      DeclaredEitherWay(devModuleCalls, n);
    }
  }

  lemma DeclaredEitherWay(calls: seq<Declaration>, n: string)
    ensures Declared(calls, n) <==> DeclaredAs(calls, n, true) || DeclaredAs(calls, n, false)
  {
    if Declared(calls, n) {
      var c :| c in calls && c.name == n;
      assert c == Declaration(n, true) || c == Declaration(n, false);
    }
  }

  /** A registered label leads to `repo`: through its target, or by naming the repository itself. */
  ghost predicate RegistrationReaches(files: BuildFiles, lbl: string, repo: string) {
    match TargetFromLabel(lbl, "")
    case Some(k) => Reaches(files, k, repo)
    case None => repo in Repos(lbl)
  }

  ghost predicate Listed(found: set<Violation>, registered: string, repo: string) {
    exists v :: v in found && v.registered == registered && v.repo == repo
  }

  /** The path of `v` is a chain from its registration to a label naming its dev-only repository. */
  ghost predicate Genuine(files: BuildFiles, dev: set<string>, v: Violation) {
    match TargetFromLabel(v.registered, "")
    case Some(k) => Witnessed(files, k, dev, v)
    case None => v.repo in dev && v.repo in Repos(v.registered) && v.path == [v.registered]
  }

  lemma RegistrationCases(files: BuildFiles, lbl: string)
    ensures forall repo ::
      RegistrationReaches(files, lbl, repo)
      <==> (if TargetFromLabel(lbl, "").Some? then Reaches(files, TargetFromLabel(lbl, "").value, repo)
            else repo in Repos(lbl))
  {
  }

  /** `find_violations`, as the set that is sorted for display. */
  method FindViolations(files: BuildFiles, registrations: seq<string>, dev: set<string>)
    returns (found: set<Violation>)
    ensures forall lbl, repo ::
      Listed(found, lbl, repo) <==> lbl in registrations && repo in dev && RegistrationReaches(files, lbl, repo)
    ensures forall v :: v in found ==> Genuine(files, dev, v)
  {
    hide RegistrationReaches;
    var index := new TargetIndex(files);
    var violations: seq<Violation> := [];
    for i := 0 to |registrations|
      invariant index.Valid() && index.files == files && fresh(index)
      invariant forall lbl, repo ::
        Reported(violations, lbl, repo) <==>
          lbl in registrations[..i] && repo in dev && RegistrationReaches(files, lbl, repo)
      invariant forall v :: v in violations ==> Genuine(files, dev, v)
    {
      var lbl := registrations[i];
      var target := TargetFromLabel(lbl, "");
      var more: seq<Violation> := [];
      if target.None? {
        var repos := Repos(lbl);
        for j := 0 to |repos|
          invariant index.Valid()
          invariant forall v :: v in more ==> v.registered == lbl && Genuine(files, dev, v)
          invariant forall repo :: Reported(more, lbl, repo) <==> repo in repos[..j] && repo in dev
        {
          assert repos[..j + 1] == repos[..j] + [repos[j]];
          if repos[j] in dev {
            MoreReported(more, Violation(lbl, repos[j], [lbl]));
            more := more + [Violation(lbl, repos[j], [lbl])];
          }
        }
        assert repos[..|repos|] == repos;
      } else {
        more := WalkRegisteredTarget(lbl, target.value, index, dev);
      }
      RegistrationCases(files, lbl);
      assert registrations[..i + 1] == registrations[..i] + [lbl];
      ReportsAdd(files, dev, registrations[..i], violations, lbl, more);
      violations := violations + more;
    }
    assert registrations[..|registrations|] == registrations;
    found := set v | v in violations;
    forall lbl, repo ensures Listed(found, lbl, repo) <==> Reported(violations, lbl, repo) {}
  }

  lemma MoreReported(violations: seq<Violation>, v: Violation)
    ensures forall lbl, repo ::
      Reported(violations + [v], lbl, repo)
      <==> Reported(violations, lbl, repo) || (v.registered == lbl && v.repo == repo)
  {
    forall lbl, repo ensures Reported(violations + [v], lbl, repo)
      <==> Reported(violations, lbl, repo) || (v.registered == lbl && v.repo == repo)
    {
      forall w ensures w in violations + [v] <==> w in violations || w == v {}
    }
  }

  lemma ReportsAdd(
    files: BuildFiles, dev: set<string>, before: seq<string>, violations: seq<Violation>,
    lbl: string, more: seq<Violation>)
    requires forall l, repo ::
      Reported(violations, l, repo) <==> l in before && repo in dev && RegistrationReaches(files, l, repo)
    requires forall v :: v in more ==> v.registered == lbl
    requires forall repo :: Reported(more, lbl, repo) <==> repo in dev && RegistrationReaches(files, lbl, repo)
    ensures forall l, repo ::
      Reported(violations + more, l, repo)
      <==> l in before + [lbl] && repo in dev && RegistrationReaches(files, l, repo)
  {
    hide RegistrationReaches;
    forall l, repo
      ensures Reported(violations + more, l, repo) <==> Reported(violations, l, repo) || Reported(more, l, repo)
    {
      forall w ensures w in violations + more <==> w in violations || w in more {}
    }
  }
}
