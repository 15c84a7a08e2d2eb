/** Discovering release wheels from build events: a fold over records that may
    repeat a file and may omit its length or digest. */
module BuildArtifacts {
  import opened Common
  import opened Names

  /** Path components, relative to the execution root. */
  type Path = seq<string>

  /** The `length` of a record; `Malformed` is a value of the wrong type or not a number. */
  datatype Length = Omitted | Declared(size: int) | Malformed

  /** The `digest` of a record; an omitted one is the empty string. */
  datatype Digest = Text(text: string) | NotText

  datatype Record = Record(path: Path, length: Length, digest: Digest)

  /** An entry of the inventory; entries of older reports may lack a size. */
  datatype Artifact = Artifact(path: Path, size: Option<nat>, digest: string, present: bool)

  /** What `stat` and `is_file` answer. */
  datatype OutputTree = OutputTree(sizes: map<Path, nat>, files: set<Path>)

  // ---------------------------------------------------------------- the specification: sets of records

  predicate WellFormed(r: Record) {
    && r.digest.Text?
    && (r.length.Omitted? || (r.length.Declared? && r.length.size >= 0))
  }

  /** `a` and `b` do not contradict each other. */
  predicate Agree(a: Record, b: Record) {
    a.path == b.path ==>
      && (a.length.Declared? && b.length.Declared? ==> a.length == b.length)
      && (a.digest.Text? && b.digest.Text? && a.digest.text != "" && b.digest.text != "" ==> a.digest == b.digest)
  }

  ghost predicate Consistent(rs: set<Record>) {
    && (forall r :: r in rs ==> WellFormed(r))
    && (forall a, b :: a in rs && b in rs ==> Agree(a, b))
  }

  ghost predicate Declares(rs: set<Record>, p: Path, n: int) {
    exists r :: r in rs && r.path == p && r.length == Declared(n)
  }

  ghost predicate Digests(rs: set<Record>, p: Path, digest: string) {
    exists r :: r in rs && r.path == p && r.digest == Text(digest)
  }

  function StatSize(disk: OutputTree, p: Path): nat {
    if p in disk.sizes then disk.sizes[p] else 0
  }

  /** The entry a set of records determines for a path: the declared length if any record
      declares one, else the size on disk; the digest if any record has one. */
  ghost predicate Describes(rs: set<Record>, disk: OutputTree, a: Artifact) {
    && (exists r :: r in rs && r.path == a.path)
    && a.size.Some?
    && (Declares(rs, a.path, a.size.value)
        || ((forall n :: !Declares(rs, a.path, n))
            && (a.path in disk.sizes ==> a.size.value == disk.sizes[a.path])
            && (a.path !in disk.sizes ==> a.size.value == 0)))
    && (if a.digest == "" then forall d :: d != "" ==> !Digests(rs, a.path, d) else Digests(rs, a.path, a.digest))
    && a.present == (a.path in disk.files)
  }

  /** At most one entry per path. */
  lemma DescriptionIsUnique(rs: set<Record>, disk: OutputTree, a: Artifact, b: Artifact)
    requires Consistent(rs) && Describes(rs, disk, a) && Describes(rs, disk, b) && a.path == b.path
    ensures a == b
  {
    if Declares(rs, a.path, a.size.value) && Declares(rs, b.path, b.size.value) {
      var x :| x in rs && x.path == a.path && x.length == Declared(a.size.value);
      var y :| y in rs && y.path == a.path && y.length == Declared(b.size.value);
      assert Agree(x, y);
    }
    if a.digest != "" && b.digest != "" {
      var x :| x in rs && x.path == a.path && x.digest == Text(a.digest);
      var y :| y in rs && y.path == a.path && y.digest == Text(b.digest);
      assert Agree(x, y);
    }
  }

  /** More records never erase a known length or digest. */
  lemma KnownIsKept(rs: set<Record>, more: set<Record>, disk: OutputTree, a: Artifact, b: Artifact)
    requires rs <= more && Consistent(more) && Describes(rs, disk, a) && Describes(more, disk, b) && a.path == b.path
    ensures Declares(rs, a.path, a.size.value) ==> b.size == a.size
    ensures a.digest != "" ==> b.digest == a.digest
  {
    if Declares(rs, a.path, a.size.value) {
      var x :| x in rs && x.path == a.path && x.length == Declared(a.size.value);
      assert Declares(more, a.path, a.size.value);
      var y :| y in more && y.path == a.path && y.length == Declared(b.size.value);
      assert Agree(x, y);
    }
    if a.digest != "" {
      var x :| x in rs && x.path == a.path && x.digest == Text(a.digest);
      assert Digests(more, a.path, a.digest);
      var y :| y in more && y.path == a.path && y.digest == Text(b.digest);
      assert Agree(x, y);
    }
  }

  // ---------------------------------------------------------------- the fold

  function Records(s: seq<Record>): set<Record> { set r | r in s }

  /** The two dictionaries describe exactly the records seen. */
  ghost predicate Tabled(rs: set<Record>, disk: OutputTree, artifacts: map<Path, Artifact>, lengths: map<Path, int>) {
    && Consistent(rs)
    && (forall p :: p in artifacts <==> exists r :: r in rs && r.path == p)
    && (forall p :: p in artifacts ==> artifacts[p].path == p && Describes(rs, disk, artifacts[p]))
    && (forall p, n :: Declares(rs, p, n) <==> p in lengths && lengths[p] == n)
  }

  /** Whether a further record is accepted. */
  predicate Accepts(artifacts: map<Path, Artifact>, lengths: map<Path, int>, r: Record) {
    && WellFormed(r)
    && (r.length.Declared? && r.path in lengths ==> r.length.size == lengths[r.path])
    && (r.digest.text != "" && r.path in artifacts && artifacts[r.path].digest != "" ==>
          r.digest.text == artifacts[r.path].digest)
  }

  lemma AcceptsIffConsistent(
    rs: set<Record>, disk: OutputTree, artifacts: map<Path, Artifact>, lengths: map<Path, int>, r: Record)
    requires Tabled(rs, disk, artifacts, lengths)
    ensures Accepts(artifacts, lengths, r) <==> Consistent(rs + {r})
  {
    if Accepts(artifacts, lengths, r) {
      forall x | x in rs ensures Agree(x, r) && Agree(r, x) {
        if x.path == r.path {
          if x.length.Declared? { assert Declares(rs, x.path, x.length.size); }
          if x.digest.text != "" {
            assert Digests(rs, x.path, x.digest.text);
            KnownDigest(rs, disk, artifacts[x.path], x);
          }
        }
      }
    }
    if Consistent(rs + {r}) {
      if r.length.Declared? && r.path in lengths {
        assert Declares(rs, r.path, lengths[r.path]);
        var x :| x in rs && x.path == r.path && x.length == Declared(lengths[r.path]);
        assert x in rs + {r} && r in rs + {r} && Agree(x, r);
      }
      if r.digest.Text? && r.path in artifacts && artifacts[r.path].digest != "" {
        var x :| x in rs && x.path == r.path && x.digest == Text(artifacts[r.path].digest);
        assert x in rs + {r} && r in rs + {r} && Agree(x, r);
      }
      assert r in rs + {r} && WellFormed(r);
    }
  }

  lemma KnownDigest(rs: set<Record>, disk: OutputTree, a: Artifact, x: Record)
    requires Consistent(rs) && Describes(rs, disk, a) && x in rs && x.path == a.path
    requires x.digest.Text? && x.digest.text != ""
    ensures a.digest == x.digest.text
  {
    assert Digests(rs, a.path, x.digest.text);
    var y :| y in rs && y.path == a.path && y.digest == Text(a.digest);
    assert Agree(x, y);
  }

  function KnownLength(lengths: map<Path, int>, r: Record): Length {
    if r.length.Omitted? && r.path in lengths then Declared(lengths[r.path]) else r.length
  }

  function EntryFor(disk: OutputTree, artifacts: map<Path, Artifact>, lengths: map<Path, int>, r: Record): Artifact
    requires WellFormed(r) && forall p :: p in lengths ==> lengths[p] >= 0
  {
    var known := KnownLength(lengths, r);
    var oldDigest := if r.path in artifacts then artifacts[r.path].digest else "";
    Artifact(r.path, Some(if known.Omitted? then StatSize(disk, r.path) else known.size),
             if r.digest.text != "" then r.digest.text else oldDigest, r.path in disk.files)
  }

  lemma LengthsAreSizes(rs: set<Record>, disk: OutputTree, artifacts: map<Path, Artifact>, lengths: map<Path, int>)
    requires Tabled(rs, disk, artifacts, lengths)
    ensures forall p :: p in lengths ==> lengths[p] >= 0
  {
    forall p | p in lengths ensures lengths[p] >= 0 { assert Declares(rs, p, lengths[p]); }
  }

  lemma RecordTabled(
    rs: set<Record>, disk: OutputTree, artifacts: map<Path, Artifact>, lengths: map<Path, int>, r: Record)
    requires Tabled(rs, disk, artifacts, lengths) && Accepts(artifacts, lengths, r)
    requires forall p :: p in lengths ==> lengths[p] >= 0
    ensures var known := KnownLength(lengths, r);
      Tabled(rs + {r}, disk, artifacts[r.path := EntryFor(disk, artifacts, lengths, r)],
             if known.Omitted? then lengths else lengths[r.path := known.size])
  {
    hide Describes;
    hide Consistent;
    AcceptsIffConsistent(rs, disk, artifacts, lengths, r);
    var rs' := rs + {r};
    forall p, n ensures Declares(rs', p, n) <==> Declares(rs, p, n) || (r.path == p && r.length == Declared(n)) {}
    EntryDescribes(rs, disk, artifacts, lengths, r);
    forall p | p in artifacts && p != r.path ensures Describes(rs', disk, artifacts[p]) {
      OthersUntouched(rs, disk, artifacts[p], r);
    }
    assert r in rs';
  }

  lemma OthersUntouched(rs: set<Record>, disk: OutputTree, a: Artifact, r: Record)
    requires Describes(rs, disk, a) && a.path != r.path
    ensures Describes(rs + {r}, disk, a)
  {
    var rs' := rs + {r};
    var x :| x in rs && x.path == a.path;
    assert x in rs';
    forall n ensures Declares(rs', a.path, n) <==> Declares(rs, a.path, n) {}
    forall d ensures Digests(rs', a.path, d) <==> Digests(rs, a.path, d) {}
  }

  lemma EntryDescribes(
    rs: set<Record>, disk: OutputTree, artifacts: map<Path, Artifact>, lengths: map<Path, int>, r: Record)
    requires Tabled(rs, disk, artifacts, lengths) && Accepts(artifacts, lengths, r)
    requires forall p :: p in lengths ==> lengths[p] >= 0
    ensures Describes(rs + {r}, disk, EntryFor(disk, artifacts, lengths, r))
  {
    var e, rs' := EntryFor(disk, artifacts, lengths, r), rs + {r};
    assert r in rs' && r.path == e.path;
    forall n ensures Declares(rs', e.path, n) <==> Declares(rs, e.path, n) || r.length == Declared(n) {}
    forall d ensures Digests(rs', e.path, d) <==> Digests(rs, e.path, d) || r.digest == Text(d) {}
    if r.path !in artifacts {
      forall d ensures !Digests(rs, e.path, d) {}
    }
  }

  /** `build_event_artifacts`: succeeds exactly on consistent records, and then lists
      exactly the entries their set determines, one per path, sorted by file name. */
  method BuildEventArtifacts(records: seq<Record>, disk: OutputTree) returns (r: Result<seq<Artifact>>)
    ensures r.Ok? <==> Consistent(Records(records))
    ensures r.Ok? ==> forall a :: a in r.value <==> Describes(Records(records), disk, a)
    ensures r.Ok? ==> forall i, j :: 0 <= i < j < |r.value| ==> r.value[i].path != r.value[j].path
    ensures r.Ok? ==> SortedBy(r.value, FileName)
    ensures r.Ok? ==> forall i, j :: 0 <= i < j < |r.value| && r.value[i].path != [] && r.value[j].path != [] ==>
      Le(r.value[i].path[|r.value[i].path| - 1], r.value[j].path[|r.value[j].path| - 1])
  {
    hide Records;
    hide Tabled;
    hide Consistent;
    hide Describes;
    hide Inserted;
    hide SortedBy;
    hide Sort;
    var artifacts: map<Path, Artifact>, lengths: map<Path, int> := map[], map[];
    var inserted: seq<Path> := [];
    NothingTabled(records, disk);
    assert artifacts.Keys == {};
    for i := 0 to |records|
      invariant Tabled(Records(records[..i]), disk, artifacts, lengths)
      invariant Inserted(inserted, artifacts.Keys)
    {
      var item := records[i];
      ghost var seen := Records(records[..i]);
      RecordsStep(records, i);
      AcceptsIffConsistent(seen, disk, artifacts, lengths, item);
      LengthsAreSizes(seen, disk, artifacts, lengths);
      PrefixConsistent(records, i + 1);
      var length := KnownLength(lengths, item);
      var size := StatSize(disk, item.path);
      if length.Malformed? { return Err; }
      if length.Declared? {
        if length.size < 0 { return Err; }
        if item.path in lengths && length.size != lengths[item.path] { return Err; }
        size := length.size;
      }
      if item.digest.NotText? { return Err; }
      var known := if item.path in artifacts then artifacts[item.path].digest else "";
      if item.digest.text != "" && known != "" && item.digest.text != known { return Err; }
      RecordTabled(seen, disk, artifacts, lengths, item);
      ghost var keys := artifacts.Keys;
      var digest := if item.digest.text != "" then item.digest.text else known;
      var entry := Artifact(item.path, Some(size), digest, item.path in disk.files);
      assert entry == EntryFor(disk, artifacts, lengths, item);
      if length.Declared? { lengths := lengths[item.path := length.size]; }
      InsertOnce(inserted, artifacts.Keys, item.path);
      if item.path !in artifacts { inserted := inserted + [item.path]; }
      artifacts := artifacts[item.path := entry];
      assert artifacts.Keys == keys + {item.path};
    }
    assert records[..|records|] == records;
    InsertedAreKeys(inserted, artifacts.Keys);
    var listed := Values(inserted, artifacts);
    ListedDescribe(Records(records), disk, artifacts, lengths, inserted);
    SortedByFileName(Sort(listed, FileName));
    return Ok(Sort(listed, FileName));
  }

  function FileName(a: Artifact): string { if a.path == [] then "" else a.path[|a.path| - 1] }

  lemma SortedByFileName(s: seq<Artifact>)
    requires SortedBy(s, FileName)
    ensures forall i, j :: 0 <= i < j < |s| && s[i].path != [] && s[j].path != [] ==>
      Le(s[i].path[|s[i].path| - 1], s[j].path[|s[j].path| - 1])
  {
    forall i, j | 0 <= i < j < |s| && s[i].path != [] && s[j].path != []
      ensures Le(s[i].path[|s[i].path| - 1], s[j].path[|s[j].path| - 1])
    {
      assert Le(FileName(s[i]), FileName(s[j]));
    }
  }

  predicate Inserted(inserted: seq<Path>, keys: set<Path>) {
    && (forall i :: 0 <= i < |inserted| ==> inserted[i] in keys)
    && (forall p :: p in keys ==> p in inserted)
    && (forall i, j :: 0 <= i < j < |inserted| ==> inserted[i] != inserted[j])
  }

  lemma RecordsStep(records: seq<Record>, i: nat)
    requires i < |records|
    ensures Records(records[..i + 1]) == Records(records[..i]) + {records[i]}
  {
    assert records[..i + 1] == records[..i] + [records[i]];
  }

  lemma NothingTabled(records: seq<Record>, disk: OutputTree)
    ensures Tabled(Records(records[..0]), disk, map[], map[]) && Inserted([], {})
  {
  }

  lemma InsertedAreKeys(inserted: seq<Path>, keys: set<Path>)
    requires Inserted(inserted, keys)
    ensures forall i :: 0 <= i < |inserted| ==> inserted[i] in keys
  {
  }

  lemma InsertOnce(inserted: seq<Path>, keys: set<Path>, p: Path)
    requires Inserted(inserted, keys)
    ensures Inserted(if p in keys then inserted else inserted + [p], keys + {p})
  {
  }

  lemma PrefixConsistent(records: seq<Record>, i: nat)
    requires i <= |records|
    ensures Consistent(Records(records)) ==> Consistent(Records(records[..i]))
  {
  }

  /** The values of the dictionary, in insertion order. */
  function Values(inserted: seq<Path>, artifacts: map<Path, Artifact>): seq<Artifact>
    requires forall i :: 0 <= i < |inserted| ==> inserted[i] in artifacts
  {
    seq(|inserted|, i requires 0 <= i < |inserted| => artifacts[inserted[i]])
  }

  lemma ListedDescribe(
    rs: set<Record>, disk: OutputTree, artifacts: map<Path, Artifact>, lengths: map<Path, int>, inserted: seq<Path>)
    requires Tabled(rs, disk, artifacts, lengths) && Inserted(inserted, artifacts.Keys)
    ensures Consistent(rs)
    ensures var listed := Sort(Values(inserted, artifacts), FileName);
      && (forall a :: a in listed <==> Describes(rs, disk, a))
      && (forall i, j :: 0 <= i < j < |listed| ==> listed[i].path != listed[j].path)
      && SortedBy(listed, FileName)
  {
    var values := Values(inserted, artifacts);
    var listed := Sort(values, FileName);
    SortIsSorted(values, FileName);
    forall a ensures a in listed <==> Describes(rs, disk, a) {
      assert a in multiset(listed) <==> a in multiset(values);
      ValueIffDescribed(rs, disk, artifacts, lengths, inserted, a);
    }
    PathsStayDistinct(values, listed);
  }

  lemma ValueIffDescribed(
    rs: set<Record>, disk: OutputTree, artifacts: map<Path, Artifact>, lengths: map<Path, int>,
    inserted: seq<Path>, a: Artifact)
    requires Tabled(rs, disk, artifacts, lengths) && Inserted(inserted, artifacts.Keys)
    ensures a in Values(inserted, artifacts) <==> Describes(rs, disk, a)
  {
    var values := Values(inserted, artifacts);
    if a in values {
      var i :| 0 <= i < |values| && values[i] == a;
      assert inserted[i] in artifacts;
    }
    if Describes(rs, disk, a) {
      assert a.path in artifacts;
      DescriptionIsUnique(rs, disk, a, artifacts[a.path]);
      var i :| 0 <= i < |inserted| && inserted[i] == a.path;
      assert values[i] == a;
    }
  }

  lemma PathsStayDistinct(a: seq<Artifact>, b: seq<Artifact>)
    requires multiset(a) == multiset(b) && forall i, j :: 0 <= i < j < |a| ==> a[i].path != a[j].path
    ensures forall i, j :: 0 <= i < j < |b| ==> b[i].path != b[j].path
  {
    forall i, j | 0 <= i < j < |b| ensures b[i].path != b[j].path {
      if b[i].path == b[j].path {
        assert b[i] in multiset(a) && b[j] in multiset(a);
        assert b[i] == b[j];
        assert b == b[..j] + b[j..] && b[..j][i] == b[i] && b[j..][0] == b[i];
        assert multiset(b)[b[i]] >= 2;
        PathOnce(a, b[i]);
      }
    }
  }

  lemma {:induction false} PathOnce(a: seq<Artifact>, x: Artifact)
    requires forall i, j :: 0 <= i < j < |a| ==> a[i].path != a[j].path
    ensures multiset(a)[x] <= 1
  {
    if a != [] {
      var front := a[..|a| - 1];
      PathOnce(front, x);
      assert a == front + [a[|a| - 1]];
      if x == a[|a| - 1] { assert x !in front; }
    }
  }

  /** Success and the entries depend only on which records occur, not on their order or repetition. */
  method BuildTwice(records: seq<Record>, records': seq<Record>, disk: OutputTree)
    returns (r: Result<seq<Artifact>>, r': Result<seq<Artifact>>)
    requires forall x :: x in records <==> x in records'
    ensures r.Ok? <==> r'.Ok?
    ensures r.Ok? ==> multiset(r.value) == multiset(r'.value)
  {
    assert Records(records) == Records(records');
    r := BuildEventArtifacts(records, disk);
    r' := BuildEventArtifacts(records', disk);
    if r.Ok? {
      SameEntries(r.value, r'.value);
    }
  }

  lemma SameEntries(a: seq<Artifact>, b: seq<Artifact>)
    requires forall x :: x in a <==> x in b
    requires forall i, j :: 0 <= i < j < |a| ==> a[i].path != a[j].path
    requires forall i, j :: 0 <= i < j < |b| ==> b[i].path != b[j].path
    ensures multiset(a) == multiset(b)
  {
    forall x ensures multiset(a)[x] == multiset(b)[x] {
      PathOnce(a, x);
      PathOnce(b, x);
      assert x in a <==> x in multiset(a);
      assert x in b <==> x in multiset(b);
    }
  }

  // ---------------------------------------------------------------- checks on the inventory

  predicate Mismatched(a: Artifact, disk: OutputTree) {
    a.size.Some? && a.path in disk.sizes && disk.sizes[a.path] != a.size.value
  }

  function MismatchedPaths(artifacts: seq<Artifact>, disk: OutputTree): seq<Path> {
    if artifacts == [] then []
    else
      var last := artifacts[|artifacts| - 1];
      MismatchedPaths(artifacts[..|artifacts| - 1], disk) + (if Mismatched(last, disk) then [last.path] else [])
  }

  /** `artifact_size_mismatches`: in order, the paths whose size on disk is not the recorded
      one.  A recorded size whose file is unreadable is an error; an entry without a size
      is skipped. */
  method ArtifactSizeMismatches(artifacts: seq<Artifact>, disk: OutputTree) returns (r: Result<seq<Path>>)
    ensures r.Ok? <==> forall a :: a in artifacts && a.size.Some? ==> a.path in disk.sizes
    ensures r.Ok? ==> r.value == MismatchedPaths(artifacts, disk)
    ensures r.Ok? ==> (r.value == [] <==>
      forall a :: a in artifacts && a.size.Some? ==> disk.sizes[a.path] == a.size.value)
  {
    var mismatches := [];
    for i := 0 to |artifacts|
      invariant forall j :: 0 <= j < i && artifacts[j].size.Some? ==> artifacts[j].path in disk.sizes
      invariant mismatches == MismatchedPaths(artifacts[..i], disk)
      invariant mismatches == [] <==> forall j :: 0 <= j < i ==> !Mismatched(artifacts[j], disk)
    {
      var a := artifacts[i];
      assert a in artifacts && artifacts[..i + 1][..i] == artifacts[..i];
      if a.size.None? { continue; }
      if a.path !in disk.sizes { return Err; }
      if disk.sizes[a.path] != a.size.value {
        mismatches := mismatches + [a.path];
      }
    }
    assert artifacts[..|artifacts|] == artifacts;
    return Ok(mismatches);
  }

  datatype Target = Target(package: Path, name: string)

  /** Without a `bazel-out/<configuration>/bin` prefix. */
  function Relative(p: Path): Path {
    if |p| > 3 && p[0] == "bazel-out" && p[2] == "bin" then p[3..] else p
  }

  function Wheelhouse(t: Target): Path { t.package + [t.name + "_wheelhouse"] }

  /** Some artifact lies in the wheelhouse directory of `t`. */
  ghost predicate Covered(artifacts: seq<Artifact>, t: Target) {
    exists a :: a in artifacts && Wheelhouse(t) < Relative(a.path)
  }

  predicate UnderBazelOut(p: Path) {
    |p| > 3 && p[0] == "bazel-out" && p[2] == "bin"
  }

  /** A file somewhere below `<package>/<name>_wheelhouse`, there or in `bazel-out/<configuration>/bin`. */
  ghost predicate IsWheelOf(p: Path, t: Target) {
    || (exists c: string, rest: Path ::
          rest != [] && p == ["bazel-out", c, "bin"] + (t.package + [t.name + "_wheelhouse"] + rest))
    || (!UnderBazelOut(p) && exists rest: Path :: rest != [] && p == t.package + [t.name + "_wheelhouse"] + rest)
  }

  lemma WheelIff(p: Path, t: Target)
    ensures Wheelhouse(t) < Relative(p) <==> IsWheelOf(p, t)
  {
    var w := t.package + [t.name + "_wheelhouse"];
    if Wheelhouse(t) < Relative(p) {
      var rest := Relative(p)[|w|..];
      assert Relative(p) == w + rest;
      if UnderBazelOut(p) {
        assert p == ["bazel-out", p[1], "bin"] + p[3..];
      }
    }
    if c: string, rest: Path :| rest != [] && p == ["bazel-out", c, "bin"] + (w + rest) {
      assert p[3..] == w + rest;
    }
  }

  lemma CoveredIff(artifacts: seq<Artifact>, t: Target)
    ensures Covered(artifacts, t) <==> exists a :: a in artifacts && IsWheelOf(a.path, t)
  {
    hide IsWheelOf;
    forall a | a in artifacts ensures Wheelhouse(t) < Relative(a.path) <==> IsWheelOf(a.path, t) {
      WheelIff(a.path, t);
    }
  }

  /** All proper prefixes of a relative path. */
  method Parents(p: Path) returns (parents: set<Path>)
    ensures forall q :: q in parents <==> q < p
  {
    parents := {};
    for n := 0 to |p|
      invariant forall q :: q in parents <==> q < p && |q| < n
    {
      forall q | q < p && |q| == n ensures q == p[..n] {}
      parents := parents + {p[..n]};
    }
  }

  /** The targets without a wheel in their wheelhouse, in order and as often as requested. */
  ghost function Uncovered(artifacts: seq<Artifact>, targets: seq<Target>): seq<Target> {
    if targets == [] then []
    else
      var last := targets[|targets| - 1];
      Uncovered(artifacts, targets[..|targets| - 1]) + (if Covered(artifacts, last) then [] else [last])
  }

  /** `q` is a directory some artifact lies in. */
  ghost predicate Holding(artifacts: seq<Artifact>, q: Path) {
    exists j :: 0 <= j < |artifacts| && q < Relative(artifacts[j].path)
  }

  method Directories(artifacts: seq<Artifact>) returns (directories: set<Path>)
    ensures forall q :: q in directories <==> Holding(artifacts, q)
  {
    directories := {};
    for i := 0 to |artifacts|
      invariant forall q :: q in directories <==> exists j :: 0 <= j < i && q < Relative(artifacts[j].path)
    {
      var parents := Parents(Relative(artifacts[i].path));
      directories := directories + parents;
    }
  }

  lemma CoveredIffHeld(artifacts: seq<Artifact>, t: Target)
    ensures Holding(artifacts, Wheelhouse(t)) <==> Covered(artifacts, t)
  {
    if Covered(artifacts, t) {
      var a :| a in artifacts && Wheelhouse(t) < Relative(a.path);
      var j :| 0 <= j < |artifacts| && artifacts[j] == a;
    }
  }

  /** `missing_wheel_targets` */
  method MissingWheelTargets(artifacts: seq<Artifact>, targets: seq<Target>) returns (missing: seq<Target>)
    ensures missing == Uncovered(artifacts, targets)
    ensures forall t :: t in missing <==> t in targets && !Covered(artifacts, t)
    ensures forall t :: t in missing <==> t in targets && forall a :: a in artifacts ==> !IsWheelOf(a.path, t)
  {
    hide Covered;
    hide Holding;
    hide IsWheelOf;
    var wheelhouses := Directories(artifacts);
    missing := [];
    for i := 0 to |targets|
      invariant missing == Uncovered(artifacts, targets[..i])
      invariant forall t :: t in missing <==> t in targets[..i] && !Covered(artifacts, t)
    {
      var t := targets[i];
      assert targets[..i + 1] == targets[..i] + [t];
      CoveredIffHeld(artifacts, t);
      if Wheelhouse(t) !in wheelhouses {
        missing := missing + [t];
      }
    }
    assert targets[..|targets|] == targets;
    forall t ensures Covered(artifacts, t) <==> exists a :: a in artifacts && IsWheelOf(a.path, t) {
      CoveredIff(artifacts, t);
    }
  }

  /** Targets are looked at one after the other, artifacts too. */
  lemma {:induction false} UncoveredConcat(artifacts: seq<Artifact>, a: seq<Target>, b: seq<Target>)
    ensures Uncovered(artifacts, a + b) == Uncovered(artifacts, a) + Uncovered(artifacts, b)
  {
    hide Covered;
    if b == [] {
      assert a + b == a;
    } else {
      assert (a + b)[..|a + b| - 1] == a + b[..|b| - 1];
      UncoveredConcat(artifacts, a, b[..|b| - 1]);
    }
  }

  lemma {:induction false} MismatchesConcat(a: seq<Artifact>, b: seq<Artifact>, disk: OutputTree)
    ensures MismatchedPaths(a + b, disk) == MismatchedPaths(a, disk) + MismatchedPaths(b, disk)
  {
    if b == [] {
      assert a + b == a;
    } else {
      assert (a + b)[..|a + b| - 1] == a + b[..|b| - 1];
      MismatchesConcat(a, b[..|b| - 1], disk);
    }
  }

  // ---------------------------------------------------------------- a good build

  /** What a build must leave: consistent records of at least one wheel; every recorded wheel
      materialized, with the length its records declare; and a wheel for every target. */
  ghost predicate GoodBuild(records: seq<Record>, tree: OutputTree, targets: seq<Target>) {
    && records != [] && Consistent(Records(records))
    && (forall r :: r in records ==> r.path in tree.files && r.path in tree.sizes)
    && (forall r :: r in records && r.length.Declared? ==> r.length.size == tree.sizes[r.path])
    && (forall t :: t in targets ==> exists r :: r in records && IsWheelOf(r.path, t))
  }

  /** The checks on the inventory, all of them. */
  ghost predicate PassesChecks(artifacts: seq<Artifact>, tree: OutputTree, targets: seq<Target>) {
    && artifacts != [] && (forall a :: a in artifacts ==> a.present)
    && (forall a :: a in artifacts && a.size.Some? ==> a.path in tree.sizes && tree.sizes[a.path] == a.size.value)
    && (forall t :: t in targets ==> exists a :: a in artifacts && IsWheelOf(a.path, t))
  }

  lemma EntryOf(records: seq<Record>, tree: OutputTree, artifacts: seq<Artifact>, r: Record) returns (a: Artifact)
    requires Consistent(Records(records)) && r in records && WellFormed(r)
    requires forall a :: a in artifacts <==> Describes(Records(records), tree, a)
    ensures a in artifacts && a.path == r.path
    ensures r.length.Declared? ==> a.size.Some? && a.size.value == r.length.size
    ensures a.size.Some? && a.present == (a.path in tree.files)
  {
    var rs := Records(records);
    assert r in rs;
    var size: nat := 0;
    if n: int :| Declares(rs, r.path, n) {
      var x :| x in rs && x.path == r.path && x.length == Declared(n);
      assert WellFormed(x) && Agree(x, r);
      size := n;
    } else {
      assert !r.length.Declared? by { if r.length.Declared? { assert Declares(rs, r.path, r.length.size); } }
      size := StatSize(tree, r.path);
    }
    var digest := "";
    if d: string :| d != "" && Digests(rs, r.path, d) { digest := d; }
    a := Artifact(r.path, Some(size), digest, r.path in tree.files);
    assert Describes(rs, tree, a);
  }

  lemma RecordWellFormed(records: seq<Record>, r: Record)
    requires Consistent(Records(records)) && r in records
    ensures WellFormed(r)
  {
    assert r in Records(records);
  }

  lemma ChecksMakeGood(records: seq<Record>, tree: OutputTree, artifacts: seq<Artifact>, targets: seq<Target>)
    requires Consistent(Records(records)) && PassesChecks(artifacts, tree, targets)
    requires forall a :: a in artifacts <==> Describes(Records(records), tree, a)
    ensures GoodBuild(records, tree, targets)
  {
    hide IsWheelOf;
    assert artifacts[0] in artifacts;
    var some :| some in Records(records) && some.path == artifacts[0].path;
    forall r | r in records
      ensures r.path in tree.files && r.path in tree.sizes
      ensures r.length.Declared? ==> r.length.size == tree.sizes[r.path]
    {
      RecordWellFormed(records, r);
      var a := EntryOf(records, tree, artifacts, r);
    }
    forall t | t in targets ensures exists r :: r in records && IsWheelOf(r.path, t) {
      var a :| a in artifacts && IsWheelOf(a.path, t);
      var r :| r in Records(records) && r.path == a.path;
    }
  }

  lemma GoodMakesChecks(records: seq<Record>, tree: OutputTree, artifacts: seq<Artifact>, targets: seq<Target>)
    requires GoodBuild(records, tree, targets)
    requires forall a :: a in artifacts <==> Describes(Records(records), tree, a)
    ensures PassesChecks(artifacts, tree, targets)
  {
    hide IsWheelOf;
    forall a | a in artifacts
      ensures a.present && (a.size.Some? ==> a.path in tree.sizes && tree.sizes[a.path] == a.size.value)
    {
      var r :| r in Records(records) && r.path == a.path;
      if Declares(Records(records), a.path, a.size.value) {
        var x :| x in Records(records) && x.path == a.path && x.length == Declared(a.size.value);
        assert x in records;
      }
    }
    RecordWellFormed(records, records[0]);
    var first := EntryOf(records, tree, artifacts, records[0]);
    forall t | t in targets ensures exists a :: a in artifacts && IsWheelOf(a.path, t) {
      var r :| r in records && IsWheelOf(r.path, t);
      RecordWellFormed(records, r);
      var a := EntryOf(records, tree, artifacts, r);
    }
  }

  /** The inventory of consistent records passes all checks exactly if the build was good. */
  lemma ChecksFindGoodBuilds(records: seq<Record>, tree: OutputTree, artifacts: seq<Artifact>, targets: seq<Target>)
    requires Consistent(Records(records))
    requires forall a :: a in artifacts <==> Describes(Records(records), tree, a)
    ensures PassesChecks(artifacts, tree, targets) <==> GoodBuild(records, tree, targets)
  {
    hide PassesChecks;
    hide GoodBuild;
    hide Describes;
    hide Consistent;
    if PassesChecks(artifacts, tree, targets) { ChecksMakeGood(records, tree, artifacts, targets); }
    if GoodBuild(records, tree, targets) { GoodMakesChecks(records, tree, artifacts, targets); }
  }

  lemma SizesKnown(rs: set<Record>, tree: OutputTree, artifacts: seq<Artifact>)
    requires forall a :: a in artifacts ==> Describes(rs, tree, a)
    ensures forall a :: a in artifacts ==> a.size.Some?
  {
  }
}
