/** The sparse registry mirror: `acquire` populates an estate from a manifest, and the
    read-only `verify` must accept what it built. */
module BcrMirror {
  import opened Common
  import opened Estate
  import opened Names

  datatype Kind = Metadata | Module | Overlay | Patch | SourceArchive | SourceJson | SourceJsonOriginal

  datatype Row = Row(mod: string, version: string, kind: Kind, url: string, sha256: string, size: nat)

  /** A parsed source.json: the fields the rewrite touches, and the rest. */
  datatype Doc = Doc(urls: Option<seq<string>>, url: Option<string>, mirrorUrls: Option<seq<string>>, rest: bytes)

  /** What lies outside the tool: SHA-256, the JSON codec, URL file names, the text of a
      synthetic metadata file, and the bytes that repo:// and https:// URLs serve. */
  datatype World = World(
    sha: bytes -> string, parse: bytes -> Option<Doc>, dump: Doc -> bytes, basename: string -> string,
    metadata: seq<string> -> bytes, repo: string -> Option<bytes>, net: string -> Option<bytes>)

  ghost predicate FaithfulJson(w: World) {
    forall d :: w.parse(w.dump(d)) == Some(d)
  }

  // ---------------------------------------------------------------- paths and the rewrite

  function UrlBasename(w: World, url: string, fallback: string): string {
    if w.basename(url) == "" then fallback else w.basename(url)
  }

  predicate IsSource(r: Row) { r.kind.SourceJson? || r.kind.SourceJsonOriginal? }

  /** `registry_relative_path` */
  function RegistryPath(w: World, r: Row): seq<string>
    requires !r.kind.SourceArchive?
  {
    match r.kind
    case Metadata => if r.mod == "registry" then ["bazel_registry.json"] else ["modules", r.mod, "metadata.json"]
    case Module => ["modules", r.mod, r.version, "MODULE.bazel"]
    case SourceJson => ["modules", r.mod, r.version, "source.json"]
    case SourceJsonOriginal => ["modules", r.mod, r.version, "source.json"]
    case Patch =>
      ["modules", r.mod, r.version, "patches", UrlBasename(w, r.url, r.mod + "-" + r.version + ".patch")]
    case Overlay =>
      ["modules", r.mod, r.version, "overlay", UrlBasename(w, r.url, r.mod + "-" + r.version + ".overlay")]
  }

  function ArchiveName(w: World, r: Row): string {
    UrlBasename(w, r.url, r.mod + "-" + r.version + ".tar.gz")
  }

  function ArchiveFileUrl(w: World, r: Row): string {
    "file:///vaso/sources/bcr/archives/sha256/" + r.sha256 + "/" + ArchiveName(w, r)
  }

  function Join(parts: seq<string>): string {
    if parts == [] then "" else if |parts| == 1 then parts[0] else parts[0] + "/" + Join(parts[1..])
  }

  function RegistryFileUrl(w: World, r: Row): string
    requires !r.kind.SourceArchive?
  {
    "file:///vaso/sources/bcr/registry/current/" + Join(RegistryPath(w, r))
  }

  function LocalOnly(d: Doc, archiveUrl: string): Doc {
    if d.urls.Some? then d.(mirrorUrls := None, urls := Some([archiveUrl]), url := None)
    else d.(mirrorUrls := None, url := Some(archiveUrl))
  }

  /** `rewrite_source_json` */
  function RewriteSourceJson(w: World, data: bytes, archive: Row): Option<bytes> {
    match w.parse(data)
    case None => None
    case Some(d) => Some(w.dump(LocalOnly(d, ArchiveFileUrl(w, archive))))
  }

  /** `archive_rows.get((module, version))`: the last such row. */
  function ArchiveRow(rows: seq<Row>, mod: string, version: string): (r: Option<Row>)
    ensures r.Some? ==>
      r.value in rows && r.value.kind.SourceArchive? && r.value.mod == mod && r.value.version == version
  {
    if rows == [] then None
    else
      var last := rows[|rows| - 1];
      if last.kind.SourceArchive? && last.mod == mod && last.version == version then Some(last)
      else ArchiveRow(rows[..|rows| - 1], mod, version)
  }

  predicate IsArchiveOf(r: Row, mod: string, version: string) {
    r.kind.SourceArchive? && r.mod == mod && r.version == version
  }

  /** The last source archive listed for the module version, if any is. */
  lemma {:induction false} ArchiveRowIsLast(rows: seq<Row>, mod: string, version: string)
    ensures ArchiveRow(rows, mod, version).Some? <==> exists r :: r in rows && IsArchiveOf(r, mod, version)
    ensures ArchiveRow(rows, mod, version).Some? ==>
      exists i :: 0 <= i < |rows| && rows[i] == ArchiveRow(rows, mod, version).value
        && forall j :: i < j < |rows| ==> !IsArchiveOf(rows[j], mod, version)
  {
    if rows != [] {
      var front, last := rows[..|rows| - 1], rows[|rows| - 1];
      assert rows == front + [last];
      if IsArchiveOf(last, mod, version) {
        assert rows[|rows| - 1] == ArchiveRow(rows, mod, version).value;
      } else {
        ArchiveRowIsLast(front, mod, version);
      }
    }
  }

  // ---------------------------------------------------------------- what a row needs in the estate

  function RegistryLoc(w: World, r: Row): Loc
    requires !r.kind.SourceArchive?
  {
    Registry(RegistryPath(w, r))
  }

  /** The files at digest-named paths. */
  predicate Stored(w: World, files: Files, r: Row) {
    match r.kind
    case SourceArchive =>
      && Holds(w.sha, files, Archive(r.sha256, ArchiveName(w, r)), r.sha256)
      && Holds(w.sha, files, Cached(r.sha256), r.sha256)
    case Overlay => Holds(w.sha, files, Cached(r.sha256), r.sha256)
    case Patch => Holds(w.sha, files, Cached(r.sha256), r.sha256)
    case SourceJson => Holds(w.sha, files, Original(r.sha256), r.sha256)
    case SourceJsonOriginal => Holds(w.sha, files, Original(r.sha256), r.sha256)
    case _ => true
  }

  /** The file in the registry: the pinned bytes, or the rewrite of the pinned original. */
  predicate Published(w: World, rows: seq<Row>, files: Files, r: Row) {
    if r.kind.SourceArchive? then true
    else if IsSource(r) then
      var archive := ArchiveRow(rows, r.mod, r.version);
      archive.Some? && Original(r.sha256) in files && RegistryLoc(w, r) in files
      && RewriteSourceJson(w, files[Original(r.sha256)], archive.value) == Some(files[RegistryLoc(w, r)])
    else Holds(w.sha, files, RegistryLoc(w, r), r.sha256)
  }

  predicate SharePath(w: World, a: Row, b: Row) {
    !a.kind.SourceArchive? && !b.kind.SourceArchive? && RegistryPath(w, a) == RegistryPath(w, b)
  }

  /** After rows 0..n: each is stored, and each that no later one overwrote is published. */
  ghost predicate Built(w: World, rows: seq<Row>, files: Files, n: nat)
    requires n <= |rows|
  {
    forall i :: 0 <= i < n ==>
      && Stored(w, files, rows[i])
      && ((forall j :: i < j < n ==> !SharePath(w, rows[i], rows[j])) ==> Published(w, rows, files, rows[i]))
  }

  ghost predicate Complete(w: World, rows: seq<Row>, files: Files) {
    forall r :: r in rows ==> Stored(w, files, r) && Published(w, rows, files, r)
  }

  // ---------------------------------------------------------------- synthetic metadata

  predicate ExplicitMetadata(rows: seq<Row>, mod: string) {
    exists r :: r in rows && r.kind.Metadata? && r.mod != "registry" && r.mod == mod
  }

  /** The versions listed for a module, each once, in order of appearance. */
  function Versions(rows: seq<Row>, mod: string): seq<string> {
    if rows == [] then []
    else
      var front, last := Versions(rows[..|rows| - 1], mod), rows[|rows| - 1];
      if last.kind.Module? && last.mod == mod && last.version !in front then front + [last.version] else front
  }

  function SyntheticLoc(mod: string): Loc { Registry(["modules", mod, "metadata.json"]) }

  function SyntheticBytes(w: World, rows: seq<Row>, mod: string): bytes {
    w.metadata(Sort(Versions(rows, mod), Itself))
  }

  predicate NeedsSynthetic(rows: seq<Row>, r: Row) {
    r.kind.Module? && !ExplicitMetadata(rows, r.mod)
  }

  ghost predicate SyntheticBuilt(w: World, rows: seq<Row>, files: Files, n: nat)
    requires n <= |rows|
  {
    forall i :: 0 <= i < n && NeedsSynthetic(rows, rows[i]) ==>
      SyntheticLoc(rows[i].mod) in files && files[SyntheticLoc(rows[i].mod)] == SyntheticBytes(w, rows, rows[i].mod)
  }

  ghost predicate ListsVersion(rows: seq<Row>, mod: string, version: string) {
    exists r :: r in rows && r.kind.Module? && r.mod == mod && r.version == version
  }

  lemma {:induction false} VersionsListed(rows: seq<Row>, mod: string, v: string)
    ensures multiset(Versions(rows, mod))[v] == if ListsVersion(rows, mod, v) then 1 else 0
  {
    if rows != [] {
      var front, last := rows[..|rows| - 1], rows[|rows| - 1];
      VersionsListed(front, mod, v);
      assert rows == front + [last];
      VersionsListed(front, mod, last.version);
      assert last.version in Versions(front, mod) <==> last.version in multiset(Versions(front, mod));
    }
  }

  /** A synthetic metadata file lists, in order and once each, the versions of the module's MODULE.bazel rows. */
  lemma SyntheticLists(w: World, rows: seq<Row>, mod: string) returns (versions: seq<string>)
    ensures SyntheticBytes(w, rows, mod) == w.metadata(versions) && SortedBy(versions, Itself)
    ensures forall v :: multiset(versions)[v] == if ListsVersion(rows, mod, v) then 1 else 0
  {
    versions := Sort(Versions(rows, mod), Itself);
    SortIsSorted(Versions(rows, mod), Itself);
    forall v ensures multiset(versions)[v] == if ListsVersion(rows, mod, v) then 1 else 0 {
      VersionsListed(rows, mod, v);
    }
  }

  // ---------------------------------------------------------------- facts about paths

  lemma SyntheticIsNoRow(w: World, rows: seq<Row>, r: Row, s: Row)
    requires r in rows && !r.kind.SourceArchive? && NeedsSynthetic(rows, s)
    ensures RegistryLoc(w, r) != SyntheticLoc(s.mod)
  {
  }

  /** Rows sharing a registry path agree on being a source.json, and then on the module version. */
  lemma SharedPathKind(w: World, a: Row, b: Row)
    requires SharePath(w, a, b)
    ensures IsSource(a) <==> IsSource(b)
    ensures IsSource(a) ==> a.mod == b.mod && a.version == b.version
  {
    var p, q := RegistryPath(w, a), RegistryPath(w, b);
    assert p[|p| - 1] == q[|q| - 1];
    assert |p| == 4 ==> p[1] == q[1] && p[2] == q[2];
  }

  /** Kinds that may share a registry path. */
  predicate SameClass(a: Kind, b: Kind) {
    a == b || (a.SourceJson? && b.SourceJsonOriginal?) || (a.SourceJsonOriginal? && b.SourceJson?)
  }

  /** Two registry rows share a path exactly if they are of the same kind, module and
      version, and for patches and overlays of the same file name; metadata has no version. */
  lemma SharePathMeans(w: World, a: Row, b: Row)
    requires !a.kind.SourceArchive? && !b.kind.SourceArchive?
    ensures SharePath(w, a, b) <==>
      && SameClass(a.kind, b.kind) && a.mod == b.mod
      && (!a.kind.Metadata? ==> a.version == b.version)
      && (a.kind.Patch? || a.kind.Overlay? ==> RegistryPath(w, a)[4] == RegistryPath(w, b)[4])
  {
    var p, q := RegistryPath(w, a), RegistryPath(w, b);
    if p == q {
      assert p[|p| - 1] == q[|q| - 1];
      assert |p| > 1 ==> p[1] == q[1];
      assert |p| > 3 ==> p[2] == q[2] && p[3] == q[3];
    }
  }

  // ---------------------------------------------------------------- writes keep what is there

  lemma StoredSurvives(w: World, before: Files, after: Files, r: Row)
    requires Stored(w, before, r) && Safe(w.sha, before, after)
    ensures Stored(w, after, r)
  {
    forall loc | DigestOf(loc).Some? ensures SafeAt(w.sha, before, after, loc) {}
    assert SafeAt(w.sha, before, after, Archive(r.sha256, ArchiveName(w, r)));
    assert SafeAt(w.sha, before, after, Cached(r.sha256));
    assert SafeAt(w.sha, before, after, Original(r.sha256));
  }

  ghost predicate CollisionFree(sha: bytes -> string) {
    forall a, b :: sha(a) == sha(b) ==> a == b
  }

  ghost predicate RegistryKept(before: Files, after: Files, rel: seq<string>) {
    (Registry(rel) in before <==> Registry(rel) in after)
    && (Registry(rel) in before && Registry(rel) in after ==> before[Registry(rel)] == after[Registry(rel)])
  }

  /** Registry files other than the row's own are untouched. */
  ghost predicate OthersKept(w: World, before: Files, after: Files, r: Row) {
    forall rel: seq<string> :: (r.kind.SourceArchive? || rel != RegistryPath(w, r)) ==> RegistryKept(before, after, rel)
  }

  lemma PublishedSurvives(w: World, rows: seq<Row>, before: Files, after: Files, r: Row)
    requires CollisionFree(w.sha) && Stored(w, before, r) && Published(w, rows, before, r) && Safe(w.sha, before, after)
    requires !r.kind.SourceArchive? ==> RegistryKept(before, after, RegistryPath(w, r))
    ensures Published(w, rows, after, r)
  {
    assert SafeAt(w.sha, before, after, Original(r.sha256));
  }

  /** Processing row `i` after rows 0..i. */
  lemma RowBuilt(w: World, rows: seq<Row>, before: Files, after: Files, i: nat)
    requires CollisionFree(w.sha) && i < |rows| && Built(w, rows, before, i)
    requires Safe(w.sha, before, after) && OthersKept(w, before, after, rows[i])
    requires Stored(w, after, rows[i]) && Published(w, rows, after, rows[i])
    ensures Built(w, rows, after, i + 1)
  {
    hide Stored;
    hide Published;
    hide SharePath;
    hide OthersKept;
    hide CollisionFree;
    hide Safe;
    forall k | 0 <= k < i ensures Stored(w, after, rows[k]) {
      StoredSurvives(w, before, after, rows[k]);
    }
    forall k | 0 <= k < i && (forall j :: k < j < i + 1 ==> !SharePath(w, rows[k], rows[j]))
      ensures Published(w, rows, after, rows[k])
    {
      assert !SharePath(w, rows[k], rows[i]);
      OtherRowSurvives(w, rows, before, after, rows[k], rows[i]);
    }
  }

  lemma OtherRowSurvives(w: World, rows: seq<Row>, before: Files, after: Files, r: Row, written: Row)
    requires CollisionFree(w.sha) && Stored(w, before, r) && Published(w, rows, before, r) && Safe(w.sha, before, after)
    requires OthersKept(w, before, after, written) && !SharePath(w, r, written)
    ensures Published(w, rows, after, r)
  {
    PublishedSurvives(w, rows, before, after, r);
  }

  // ---------------------------------------------------------------- fetching and materializing

  /** `_verify_row_bytes` */
  predicate VerifyRowBytes(w: World, r: Row, data: bytes) {
    w.sha(data) == r.sha256 && (r.size == 0 || |data| == r.size)
  }

  predicate IsRepoUrl(url: string) { "repo:" <= url }

  /** `_fetch` */
  function Fetch(w: World, r: Row, allowNetwork: bool): (data: Option<bytes>)
    ensures data.Some? ==> VerifyRowBytes(w, r, data.value)
    ensures data.Some? && !allowNetwork ==> IsRepoUrl(r.url)
  {
    var served :=
      if IsRepoUrl(r.url) then w.repo(r.url)
      else if !allowNetwork then None
      else w.net(r.url);
    if served.Some? && VerifyRowBytes(w, r, served.value) then served else None
  }

  /** These bytes are what the repository, or the network where it is permitted, serves for
      the row, and they have its digest, and its size if it pins one. */
  ghost predicate ServedAs(w: World, r: Row, allowNetwork: bool, data: bytes) {
    && (if "repo:" <= r.url then w.repo(r.url) == Some(data) else allowNetwork && w.net(r.url) == Some(data))
    && w.sha(data) == r.sha256 && (r.size != 0 ==> |data| == r.size)
  }

  ghost predicate Served(w: World, r: Row, allowNetwork: bool) {
    exists data :: ServedAs(w, r, allowNetwork, data)
  }

  lemma FetchIffServed(w: World, r: Row, allowNetwork: bool)
    ensures forall data :: Fetch(w, r, allowNetwork) == Some(data) <==> ServedAs(w, r, allowNetwork, data)
    ensures Fetch(w, r, allowNetwork).Some? <==> Served(w, r, allowNetwork)
  {
    if Fetch(w, r, allowNetwork).Some? {
      assert ServedAs(w, r, allowNetwork, Fetch(w, r, allowNetwork).value);
    }
  }

  /** The row's files can be made: its bytes are served, and those of a source.json parse
      and have an archive row to point to. */
  ghost predicate Obtainable(w: World, rows: seq<Row>, r: Row, allowNetwork: bool) {
    if IsSource(r) then
      && (exists archive :: archive in rows && IsArchiveOf(archive, r.mod, r.version))
      && exists data :: ServedAs(w, r, allowNetwork, data) && w.parse(data).Some?
    else Served(w, r, allowNetwork)
  }

  lemma ObtainableSource(w: World, rows: seq<Row>, r: Row, allowNetwork: bool)
    requires IsSource(r)
    ensures var data := Fetch(w, r, allowNetwork);
      Obtainable(w, rows, r, allowNetwork)
      <==> ArchiveRow(rows, r.mod, r.version).Some? && data.Some? && w.parse(data.value).Some?
  {
    hide Fetch;
    hide ArchiveRow;
    hide IsArchiveOf;
    FetchIffServed(w, r, allowNetwork);
    ArchiveRowIsLast(rows, r.mod, r.version);
  }

  /** `_materialize_registry_file` and `_materialize_archive`: keep a file with the pinned
      digest, otherwise replace it by verified bytes. */
  method Materialize(w: World, e: Store, dest: Loc, r: Row, allowNetwork: bool) returns (ok: bool)
    requires e.sha == w.sha && (DigestOf(dest).Some? ==> DigestOf(dest).value == r.sha256)
    modifies e
    ensures Safe(w.sha, old(e.files), e.files)
    ensures ok <==> Holds(w.sha, old(e.files), dest, r.sha256) || Served(w, r, allowNetwork)
    ensures Holds(w.sha, old(e.files), dest, r.sha256) ==> e.files == old(e.files)
    ensures ok ==> Holds(w.sha, e.files, dest, r.sha256)
    ensures forall loc :: loc != dest ==> (loc in e.files <==> loc in old(e.files))
    ensures forall loc :: loc != dest && loc in old(e.files) && loc in e.files ==> e.files[loc] == old(e.files)[loc]
  {
    FetchIffServed(w, r, allowNetwork);
    if dest in e.files && w.sha(e.files[dest]) == r.sha256 { return true; }
    var data := Fetch(w, r, allowNetwork);
    if data.None? { return false; }
    SafeWrite(w.sha, e.files, dest, data.value);
    e.files := e.files[dest := data.value];
    return true;
  }

  // ---------------------------------------------------------------- one row

  /** The offline branch for a source.json that is already there. */
  predicate OfflineSourceOk(w: World, files: Files, dest: Loc, r: Row, archive: Row)
    requires dest in files
  {
    var doc := w.parse(files[dest]);
    && doc.Some?
    && (if doc.value.urls.Some? then doc.value.urls.value == [ArchiveFileUrl(w, archive)]
        else doc.value.url == Some(ArchiveFileUrl(w, archive)))
    && doc.value.mirrorUrls.None?
    && Holds(w.sha, files, Original(r.sha256), r.sha256)
    && RewriteSourceJson(w, files[Original(r.sha256)], archive) == Some(files[dest])
  }

  /** A rewritten document names the local archive only, where the original named its
      archives, and keeps everything else; only a document that does not parse has no rewrite. */
  lemma RewriteIsLocal(w: World, data: bytes, archive: Row)
    requires FaithfulJson(w)
    ensures RewriteSourceJson(w, data, archive).Some? <==> w.parse(data).Some?
    ensures RewriteSourceJson(w, data, archive).Some? ==>
      var doc, original := w.parse(RewriteSourceJson(w, data, archive).value), w.parse(data).value;
      && doc.Some? && doc.value.mirrorUrls.None? && doc.value.rest == original.rest
      && (original.urls.Some? ==> doc.value.urls == Some([ArchiveFileUrl(w, archive)]) && doc.value.url.None?)
      && (original.urls.None? ==> doc.value.urls.None? && doc.value.url == Some(ArchiveFileUrl(w, archive)))
  {
  }

  method AcquireArchive(w: World, e: Store, r: Row, allowNetwork: bool) returns (ok: bool)
    requires e.sha == w.sha && r.kind.SourceArchive?
    modifies e
    ensures Safe(w.sha, old(e.files), e.files) && OthersKept(w, old(e.files), e.files, r)
    ensures ok ==> Stored(w, e.files, r)
    ensures Stored(w, old(e.files), r) ==> ok && SameContents(old(e.files), e.files)
    ensures Served(w, r, allowNetwork) ==> ok
    ensures ok ==> Marker(r.sha256, r.url) in e.files && Marker(r.sha256, ArchiveFileUrl(w, r)) in e.files
  {
    var dest := Archive(r.sha256, ArchiveName(w, r));
    ok := Materialize(w, e, dest, r, allowNetwork);
    if !ok { return; }
    ghost var mid := e.files;
    var ids := [r.url, ArchiveFileUrl(w, r)];
    assert ids[0] in ids && ids[1] in ids;
    ok := e.SeedRepositoryCache(e.files[dest], r.sha256, ids);
    SafeCompose(w.sha, old(e.files), mid, e.files);
  }

  method AcquireSource(w: World, e: Store, rows: seq<Row>, r: Row, allowNetwork: bool) returns (ok: bool)
    requires e.sha == w.sha && IsSource(r)
    modifies e
    ensures Safe(w.sha, old(e.files), e.files) && OthersKept(w, old(e.files), e.files, r)
    ensures ok ==> Stored(w, e.files, r) && Published(w, rows, e.files, r)
    ensures !allowNetwork && FaithfulJson(w) && Stored(w, old(e.files), r) && Published(w, rows, old(e.files), r)
      ==> ok && e.files == old(e.files)
    ensures allowNetwork ==> (ok <==> Obtainable(w, rows, r, allowNetwork))
    ensures !allowNetwork && RegistryLoc(w, r) !in old(e.files) ==> (ok <==> Obtainable(w, rows, r, allowNetwork))
  {
    ObtainableSource(w, rows, r, allowNetwork);
    hide Obtainable;
    hide ArchiveRow;
    hide FaithfulJson;
    var archive := ArchiveRow(rows, r.mod, r.version);
    if archive.None? { return false; }
    var dest := RegistryLoc(w, r);
    if !allowNetwork && dest in e.files {
      ok := OfflineSourceOk(w, e.files, dest, r, archive.value);
      return;
    }
    var original := Fetch(w, r, allowNetwork);
    if original.None? { return false; }
    SafeWrite(w.sha, e.files, Original(r.sha256), original.value);
    e.files := e.files[Original(r.sha256) := original.value];
    var rewritten := RewriteSourceJson(w, original.value, archive.value);
    if rewritten.None? { return false; }
    ghost var mid := e.files;
    SafeWrite(w.sha, e.files, dest, rewritten.value);
    e.files := e.files[dest := rewritten.value];
    SafeCompose(w.sha, old(e.files), mid, e.files);
    return true;
  }

  /** The identifiers a patch or overlay goes by in the repository cache. */
  method PatchIds(w: World, rows: seq<Row>, r: Row) returns (ids: seq<string>)
    requires !r.kind.SourceArchive?
    ensures var archive := ArchiveRow(rows, r.mod, r.version);
      forall id :: id in ids <==>
        || id == r.url || id == RegistryFileUrl(w, r)
        || (archive.Some? && (id == archive.value.url || id == ArchiveFileUrl(w, archive.value)))
  {
    ids := [r.url, RegistryFileUrl(w, r)];
    var archive := ArchiveRow(rows, r.mod, r.version);
    if archive.Some? { ids := ids + [archive.value.url, ArchiveFileUrl(w, archive.value)]; }
  }

  method AcquirePatch(w: World, e: Store, rows: seq<Row>, r: Row, allowNetwork: bool) returns (ok: bool)
    requires e.sha == w.sha && (r.kind.Overlay? || r.kind.Patch?)
    modifies e
    ensures Safe(w.sha, old(e.files), e.files) && OthersKept(w, old(e.files), e.files, r)
    ensures ok ==> Stored(w, e.files, r) && Published(w, rows, e.files, r)
    ensures Stored(w, old(e.files), r) && Published(w, rows, old(e.files), r) ==>
      ok && SameContents(old(e.files), e.files)
    ensures Served(w, r, allowNetwork) ==> ok
    ensures ok ==> Marker(r.sha256, r.url) in e.files && Marker(r.sha256, RegistryFileUrl(w, r)) in e.files
  {
    var dest := RegistryLoc(w, r);
    ok := Materialize(w, e, dest, r, allowNetwork);
    if !ok { return; }
    ghost var mid := e.files;
    var ids := PatchIds(w, rows, r);
    ok := e.SeedRepositoryCache(e.files[dest], r.sha256, ids);
    SafeCompose(w.sha, old(e.files), mid, e.files);
  }

  // ---------------------------------------------------------------- acquire

  datatype Counts = Counts(registry: nat, archives: nat, repositoryCache: nat)

  function CountRow(c: Counts, r: Row): Counts {
    if r.kind.SourceArchive? then c.(archives := c.archives + 1, repositoryCache := c.repositoryCache + 1)
    else if r.kind.Overlay? || r.kind.Patch? then
      c.(registry := c.registry + 1, repositoryCache := c.repositoryCache + 1)
    else c.(registry := c.registry + 1)
  }

  method AcquireRow(w: World, e: Store, rows: seq<Row>, r: Row, allowNetwork: bool) returns (ok: bool)
    requires e.sha == w.sha
    modifies e
    ensures Safe(w.sha, old(e.files), e.files) && OthersKept(w, old(e.files), e.files, r)
    ensures ok ==> Stored(w, e.files, r) && Published(w, rows, e.files, r)
    ensures !allowNetwork && FaithfulJson(w) && Stored(w, old(e.files), r) && Published(w, rows, old(e.files), r)
      ==> ok && SameContents(old(e.files), e.files)
    ensures allowNetwork && Obtainable(w, rows, r, allowNetwork) ==> ok
    ensures allowNetwork && IsSource(r) && ok ==> Obtainable(w, rows, r, allowNetwork)
  {
    if r.kind.SourceArchive? {
      ok := AcquireArchive(w, e, r, allowNetwork);
    } else if IsSource(r) {
      ok := AcquireSource(w, e, rows, r, allowNetwork);
    } else if r.kind.Overlay? || r.kind.Patch? {
      ok := AcquirePatch(w, e, rows, r, allowNetwork);
    } else {
      ok := Materialize(w, e, RegistryLoc(w, r), r, allowNetwork);
    }
  }

  lemma CompleteSurvives(w: World, rows: seq<Row>, a: Files, b: Files)
    requires Complete(w, rows, a) && SameContents(a, b)
    ensures Complete(w, rows, b)
  {
    forall r | r in rows ensures Stored(w, b, r) && Published(w, rows, b, r) {
      assert Stored(w, a, r) && Published(w, rows, a, r);
    }
  }

  ghost predicate AllObtainable(w: World, rows: seq<Row>) {
    forall r :: r in rows ==> Obtainable(w, rows, r, true)
  }

  predicate IsArchive(r: Row) { r.kind.SourceArchive? }
  predicate InRegistry(r: Row) { !r.kind.SourceArchive? }
  predicate SeedsCache(r: Row) { r.kind.SourceArchive? || r.kind.Overlay? || r.kind.Patch? }

  ghost function Indices(rows: seq<Row>, f: Row -> bool): set<int> {
    set i | 0 <= i < |rows| && f(rows[i])
  }

  /** The numbers of archives, registry files and seeded cache entries among the rows. */
  ghost predicate Counted(c: Counts, rows: seq<Row>) {
    && c.archives == |Indices(rows, IsArchive)|
    && c.registry == |Indices(rows, InRegistry)|
    && c.repositoryCache == |Indices(rows, SeedsCache)|
  }

  lemma IndicesStep(rows: seq<Row>, f: Row -> bool, n: nat)
    requires n < |rows|
    ensures |Indices(rows[..n + 1], f)| == |Indices(rows[..n], f)| + (if f(rows[n]) then 1 else 0)
  {
    assert Indices(rows[..n + 1], f) == Indices(rows[..n], f) + (if f(rows[n]) then {n} else {});
  }

  lemma CountedRow(c: Counts, rows: seq<Row>, n: nat)
    requires n < |rows| && Counted(c, rows[..n])
    ensures Counted(CountRow(c, rows[n]), rows[..n + 1])
  {
    hide Indices;
    IndicesStep(rows, IsArchive, n);
    IndicesStep(rows, InRegistry, n);
    IndicesStep(rows, SeedsCache, n);
  }

  lemma NothingCounted(rows: seq<Row>)
    ensures Counted(Counts(0, 0, 0), rows[..0])
  {
    assert rows[..0] == [];
  }

  /** Nothing is left to do for `acquire`. */
  ghost predicate Finished(w: World, rows: seq<Row>, files: Files) {
    FaithfulJson(w) && Complete(w, rows, files) && SyntheticBuilt(w, rows, files, |rows|)
  }

  /** `acquire`.  On success every row is stored, and published unless a later row took
      its path; an offline run over a complete estate succeeds and changes no contents. */
  method Acquire(w: World, e: Store, rows: seq<Row>, allowNetwork: bool) returns (r: Result<Counts>)
    requires e.sha == w.sha && CollisionFree(w.sha)
    modifies e
    ensures Safe(w.sha, old(e.files), e.files)
    ensures r.Ok? ==> Built(w, rows, e.files, |rows|) && SyntheticBuilt(w, rows, e.files, |rows|)
    ensures r.Ok? ==> Counted(r.value, rows)
    ensures allowNetwork && AllObtainable(w, rows) ==> r.Ok?
    ensures allowNetwork && r.Ok? ==> forall s :: s in rows && IsSource(s) ==> Obtainable(w, rows, s, true)
    ensures !allowNetwork && Finished(w, rows, old(e.files)) ==> r.Ok? && SameContents(old(e.files), e.files)
  {
    ghost var quiet := !allowNetwork && Finished(w, rows, e.files);
    hide *;
    var counts := Counts(0, 0, 0);
    StartBuilt(w, rows, e.files);
    NothingCounted(rows);
    for i := 0 to |rows|
      invariant Safe(w.sha, old(e.files), e.files)
      invariant Built(w, rows, e.files, i)
      invariant allowNetwork ==> forall j :: 0 <= j < i && IsSource(rows[j]) ==> Obtainable(w, rows, rows[j], true)
      invariant quiet ==> SameContents(old(e.files), e.files)
      invariant Counted(counts, rows[..i])
    {
      ghost var before := e.files;
      if quiet {
        CompleteSurvives(w, rows, old(e.files), before);
        CompleteAt(w, rows, before, i);
      }
      ObtainableAt(w, rows, i);
      var ok := AcquireRow(w, e, rows, rows[i], allowNetwork);
      SafeCompose(w.sha, old(e.files), before, e.files);
      if quiet { SameCompose(old(e.files), before, e.files); }
      if !ok { return Err; }
      RowBuilt(w, rows, before, e.files, i);
      CountedRow(counts, rows, i);
      counts := CountRow(counts, rows[i]);
    }
    ghost var before := e.files;
    WriteSyntheticMetadata(w, e, rows);
    SafeCompose(w.sha, old(e.files), before, e.files);
    if quiet {
      SyntheticSurvives(w, rows, old(e.files), before);
      SameCompose(old(e.files), before, e.files);
    }
    assert rows[..|rows|] == rows;
    return Ok(counts);
  }

  lemma ObtainableAt(w: World, rows: seq<Row>, i: nat)
    requires i < |rows|
    ensures AllObtainable(w, rows) ==> Obtainable(w, rows, rows[i], true)
  {
  }

  lemma StartBuilt(w: World, rows: seq<Row>, files: Files)
    ensures Built(w, rows, files, 0) && Safe(w.sha, files, files) && SameContents(files, files)
  {
  }

  lemma CompleteAt(w: World, rows: seq<Row>, files: Files, i: nat)
    requires Complete(w, rows, files) && i < |rows|
    ensures Stored(w, files, rows[i]) && Published(w, rows, files, rows[i])
  {
  }

  lemma SameCompose(a: Files, b: Files, c: Files)
    requires SameContents(a, b) && SameContents(b, c)
    ensures SameContents(a, c)
  {
  }

  lemma SyntheticSurvives(w: World, rows: seq<Row>, a: Files, b: Files)
    requires SyntheticBuilt(w, rows, a, |rows|) && SameContents(a, b)
    ensures SyntheticBuilt(w, rows, b, |rows|)
  {
  }

  /** Writing one synthetic metadata file. */
  lemma SyntheticWrite(w: World, rows: seq<Row>, before: Files, after: Files, i: nat)
    requires i < |rows| && NeedsSynthetic(rows, rows[i])
    requires Built(w, rows, before, |rows|) && SyntheticBuilt(w, rows, before, i)
    requires after == before[SyntheticLoc(rows[i].mod) := SyntheticBytes(w, rows, rows[i].mod)]
    ensures Built(w, rows, after, |rows|) && SyntheticBuilt(w, rows, after, i + 1) && Safe(w.sha, before, after)
  {
    hide Safe;
    hide Built;
    hide SyntheticBuilt;
    hide NeedsSynthetic;
    hide SyntheticBytes;
    BuiltBesideSynthetic(w, rows, before, rows[i], SyntheticBytes(w, rows, rows[i].mod));
    SyntheticExtends(w, rows, before, after, i);
    SafeWrite(w.sha, before, SyntheticLoc(rows[i].mod), SyntheticBytes(w, rows, rows[i].mod));
  }

  lemma SyntheticExtends(w: World, rows: seq<Row>, before: Files, after: Files, i: nat)
    requires i < |rows| && SyntheticBuilt(w, rows, before, i)
    requires after == before[SyntheticLoc(rows[i].mod) := SyntheticBytes(w, rows, rows[i].mod)]
    ensures SyntheticBuilt(w, rows, after, i + 1)
  {
    hide NeedsSynthetic;
    hide SyntheticBytes;
    forall j | 0 <= j < i + 1 && NeedsSynthetic(rows, rows[j])
      ensures SyntheticLoc(rows[j].mod) in after
      ensures after[SyntheticLoc(rows[j].mod)] == SyntheticBytes(w, rows, rows[j].mod)
    {
      SyntheticLocInjective(rows[j].mod, rows[i].mod);
    }
  }

  lemma SyntheticLocInjective(a: string, b: string)
    ensures SyntheticLoc(a) == SyntheticLoc(b) ==> a == b
  {
    assert ["modules", a, "metadata.json"][1] == a && ["modules", b, "metadata.json"][1] == b;
  }

  lemma BuiltBesideSynthetic(w: World, rows: seq<Row>, before: Files, s: Row, data: bytes)
    requires NeedsSynthetic(rows, s) && Built(w, rows, before, |rows|)
    ensures Built(w, rows, before[SyntheticLoc(s.mod) := data], |rows|)
  {
    hide Stored;
    hide Published;
    hide SharePath;
    hide NeedsSynthetic;
    hide SyntheticLoc;
    forall k | 0 <= k < |rows|
      ensures Stored(w, before, rows[k]) ==> Stored(w, before[SyntheticLoc(s.mod) := data], rows[k])
      ensures Published(w, rows, before, rows[k]) ==> Published(w, rows, before[SyntheticLoc(s.mod) := data], rows[k])
    {
      RowKeptBySynthetic(w, rows, before, rows[k], s, data);
    }
  }

  lemma RowKeptBySynthetic(w: World, rows: seq<Row>, before: Files, r: Row, s: Row, data: bytes)
    requires r in rows && NeedsSynthetic(rows, s)
    ensures Stored(w, before, r) ==> Stored(w, before[SyntheticLoc(s.mod) := data], r)
    ensures Published(w, rows, before, r) ==> Published(w, rows, before[SyntheticLoc(s.mod) := data], r)
  {
    if !r.kind.SourceArchive? { SyntheticIsNoRow(w, rows, r, s); }
  }

  /** `_write_synthetic_metadata`: one file for each module without explicit metadata. */
  method WriteSyntheticMetadata(w: World, e: Store, rows: seq<Row>)
    requires e.sha == w.sha && Built(w, rows, e.files, |rows|)
    modifies e
    ensures Built(w, rows, e.files, |rows|) && SyntheticBuilt(w, rows, e.files, |rows|)
    ensures Safe(w.sha, old(e.files), e.files)
    ensures SyntheticBuilt(w, rows, old(e.files), |rows|) ==> SameContents(old(e.files), e.files)
  {
    hide Built;
    hide Safe;
    StartBuilt(w, rows, e.files);
    for i := 0 to |rows|
      invariant Built(w, rows, e.files, |rows|) && SyntheticBuilt(w, rows, e.files, i)
      invariant Safe(w.sha, old(e.files), e.files)
      invariant SyntheticBuilt(w, rows, old(e.files), |rows|) ==> e.files == old(e.files)
    {
      if NeedsSynthetic(rows, rows[i]) {
        ghost var before := e.files;
        e.files := e.files[SyntheticLoc(rows[i].mod) := SyntheticBytes(w, rows, rows[i].mod)];
        SyntheticWrite(w, rows, before, e.files, i);
        SafeCompose(w.sha, old(e.files), before, e.files);
      }
    }
  }

  /** What acquire has built: each archive in its store and, like every patch and overlay,
      in the repository cache; each source.json's original; and of the rows of one registry
      path the last one's file, with the pinned digest unless it is a rewritten source.json. */
  lemma BuiltMeans(w: World, rows: seq<Row>, files: Files, i: nat)
    requires Built(w, rows, files, |rows|) && i < |rows|
    ensures var r := rows[i];
      && (r.kind.SourceArchive? ==> Holds(w.sha, files, Archive(r.sha256, ArchiveName(w, r)), r.sha256))
      && (SeedsCache(r) ==> Holds(w.sha, files, Cached(r.sha256), r.sha256))
      && (IsSource(r) ==> Holds(w.sha, files, Original(r.sha256), r.sha256))
      && (!r.kind.SourceArchive? && !IsSource(r) && (forall j :: i < j < |rows| ==> !SharePath(w, r, rows[j])) ==>
            Holds(w.sha, files, Registry(RegistryPath(w, r)), r.sha256))
  {
  }

  // ---------------------------------------------------------------- verify

  /** What `verify` checks of one row. */
  predicate RowVerified(w: World, rows: seq<Row>, files: Files, r: Row) {
    if r.kind.SourceArchive? then
      var loc := Archive(r.sha256, ArchiveName(w, r));
      loc in files && VerifyRowBytes(w, r, files[loc])
    else if IsSource(r) then
      var original, archive := Original(r.sha256), ArchiveRow(rows, r.mod, r.version);
      && original in files && VerifyRowBytes(w, r, files[original])
      && archive.Some? && RegistryLoc(w, r) in files
      && RewriteSourceJson(w, files[original], archive.value) == Some(files[RegistryLoc(w, r)])
    else RegistryLoc(w, r) in files && VerifyRowBytes(w, r, files[RegistryLoc(w, r)])
  }

  ghost predicate Verified(w: World, rows: seq<Row>, files: Files) {
    forall r :: r in rows ==> RowVerified(w, rows, files, r)
  }

  /** `verify`: reads only. */
  method VerifyMirror(w: World, e: Store, rows: seq<Row>) returns (r: Result<nat>)
    ensures r.Ok? <==> Verified(w, rows, e.files)
    ensures r.Ok? ==> r.value == |rows|
  {
    for i := 0 to |rows|
      invariant forall j :: 0 <= j < i ==> RowVerified(w, rows, e.files, rows[j])
    {
      if !RowVerified(w, rows, e.files, rows[i]) {
        assert rows[i] in rows;
        return Err;
      }
    }
    return Ok(|rows|);
  }

  // ---------------------------------------------------------------- verify accepts what acquire built

  /** `blob` gives back the bytes of a digest. */
  ghost predicate Preimage(w: World, blob: string -> bytes) {
    forall data :: blob(w.sha(data)) == data
  }

  /** Two rows for one registry path ask for the same contents. */
  ghost predicate SameDemand(w: World, rows: seq<Row>, blob: string -> bytes, a: Row, b: Row)
    requires SharePath(w, a, b)
  {
    if IsSource(a) then
      forall archive :: ArchiveRow(rows, a.mod, a.version) == Some(archive) ==>
        RewriteSourceJson(w, blob(a.sha256), archive) == RewriteSourceJson(w, blob(b.sha256), archive)
    else a.sha256 == b.sha256
  }

  predicate TrueSize(blob: string -> bytes, r: Row) {
    r.size == 0 || |blob(r.sha256)| == r.size
  }

  /** The manifest can be satisfied: rows sharing a path agree, and pinned sizes are true. */
  ghost predicate Satisfiable(w: World, rows: seq<Row>, blob: string -> bytes) {
    && (forall a, b :: a in rows && b in rows && SharePath(w, a, b) ==> SameDemand(w, rows, blob, a, b))
    && (forall r :: r in rows ==> TrueSize(blob, r))
  }

  /** Digest agreement is enough for rows that share a path. */
  lemma SameDigestSameDemand(w: World, rows: seq<Row>, blob: string -> bytes)
    requires forall a, b :: a in rows && b in rows && SharePath(w, a, b) ==> a.sha256 == b.sha256
    requires forall r :: r in rows ==> TrueSize(blob, r)
    ensures Satisfiable(w, rows, blob)
  {
    forall a, b | a in rows && b in rows && SharePath(w, a, b) ensures SameDemand(w, rows, blob, a, b) {
      SharedPathKind(w, a, b);
    }
  }

  lemma {:induction false} LastSharing(w: World, rows: seq<Row>, i: nat, n: nat) returns (j: nat)
    requires i < n <= |rows|
    ensures i <= j < n && (j == i || SharePath(w, rows[i], rows[j]))
    ensures forall k :: j < k < n ==> !SharePath(w, rows[j], rows[k])
  {
    j := i;
    var k := i + 1;
    while k < n
      invariant i <= j < k <= n && (j == i || SharePath(w, rows[i], rows[j]))
      invariant forall x :: j < x < k ==> !SharePath(w, rows[j], rows[x])
    {
      if SharePath(w, rows[j], rows[k]) { j := k; }
      k := k + 1;
    }
  }

  /** With agreeing rows, what acquire built is complete. */
  lemma BuiltIsComplete(w: World, rows: seq<Row>, blob: string -> bytes, files: Files)
    requires Preimage(w, blob) && Satisfiable(w, rows, blob) && Built(w, rows, files, |rows|)
    ensures Complete(w, rows, files)
  {
    forall r | r in rows ensures Stored(w, files, r) && Published(w, rows, files, r) {
      var i :| 0 <= i < |rows| && rows[i] == r;
      var j := LastSharing(w, rows, i, |rows|);
      if j != i { PublishedForBoth(w, rows, blob, files, r, rows[j]); }
    }
  }

  lemma PublishedForBoth(w: World, rows: seq<Row>, blob: string -> bytes, files: Files, a: Row, b: Row)
    requires Preimage(w, blob) && SharePath(w, a, b) && SameDemand(w, rows, blob, a, b)
    requires Stored(w, files, a) && Stored(w, files, b) && Published(w, rows, files, b)
    ensures Published(w, rows, files, a)
  {
    SharedPathKind(w, a, b);
  }

  lemma CompleteIsVerified(w: World, rows: seq<Row>, blob: string -> bytes, files: Files)
    requires Preimage(w, blob) && Complete(w, rows, files) && forall r :: r in rows ==> TrueSize(blob, r)
    ensures Verified(w, rows, files)
  {
    forall r | r in rows ensures RowVerified(w, rows, files, r) {
      assert Stored(w, files, r) && Published(w, rows, files, r) && TrueSize(blob, r);
    }
  }

  /** No estate at all satisfies `verify` for a manifest that is not satisfiable. */
  lemma VerifiedIsSatisfiable(w: World, rows: seq<Row>, blob: string -> bytes, files: Files)
    requires Preimage(w, blob) && Verified(w, rows, files)
    ensures Satisfiable(w, rows, blob)
  {
    forall r | r in rows ensures TrueSize(blob, r) { assert RowVerified(w, rows, files, r); }
    forall a, b | a in rows && b in rows && SharePath(w, a, b) ensures SameDemand(w, rows, blob, a, b) {
      assert RowVerified(w, rows, files, a) && RowVerified(w, rows, files, b);
      SharedPathKind(w, a, b);
    }
  }

  /** After a successful acquire, `verify` accepts if and only if the manifest is satisfiable. */
  lemma VerifyAcceptsIffSatisfiable(w: World, rows: seq<Row>, blob: string -> bytes, files: Files)
    requires Preimage(w, blob) && Built(w, rows, files, |rows|)
    ensures Verified(w, rows, files) <==> Satisfiable(w, rows, blob)
  {
    if Satisfiable(w, rows, blob) {
      BuiltIsComplete(w, rows, blob, files);
      CompleteIsVerified(w, rows, blob, files);
    }
    if Verified(w, rows, files) { VerifiedIsSatisfiable(w, rows, blob, files); }
  }

  lemma NotVerified(w: World, rows: seq<Row>, files: Files, r: Row)
    requires r in rows && !RowVerified(w, rows, files, r)
    ensures !Verified(w, rows, files)
  {
  }

  /** `acquire` alone does not notice a wrong pinned size: here one row pins a size of 1 on
      a file of the right digest that is empty. */
  method WrongSizeSlipsThrough(w: World) returns (acquired: Result<Counts>, verified: Result<nat>)
    requires CollisionFree(w.sha) && FaithfulJson(w)
    ensures acquired.Ok? && verified.Err?
  {
    var r := Row("registry", "", Metadata, "https://bcr.bazel.build/bazel_registry.json", w.sha([]), 1);
    var files: Files := map[RegistryLoc(w, r) := []];
    var rows := [r];
    var e := new Store(w.sha, files);
    assert Complete(w, rows, files) && SyntheticBuilt(w, rows, files, |rows|);
    acquired := Acquire(w, e, rows, false);
    assert RegistryLoc(w, r) in e.files && e.files[RegistryLoc(w, r)] == [];
    NotVerified(w, rows, e.files, r);
    verified := VerifyMirror(w, e, rows);
  }

  lemma PreimageIsCollisionFree(w: World, blob: string -> bytes)
    requires Preimage(w, blob)
    ensures CollisionFree(w.sha)
  {
    forall a, b | w.sha(a) == w.sha(b) ensures a == b {
      assert blob(w.sha(a)) == a && blob(w.sha(b)) == b;
    }
  }

  lemma SourcesAreIrrelevant(w: World, w': World, rows: seq<Row>, files: Files)
    requires w' == w.(repo := w'.repo, net := w'.net)
    ensures Complete(w, rows, files) ==> Complete(w', rows, files)
    ensures SyntheticBuilt(w, rows, files, |rows|) ==> SyntheticBuilt(w', rows, files, |rows|)
  {
    if Complete(w, rows, files) {
      forall r | r in rows ensures Stored(w', files, r) && Published(w', rows, files, r) {
        assert Stored(w, files, r) && Published(w, rows, files, r);
      }
    }
  }

  /** From any starting estate: acquire, verify, and acquire again offline, whatever
      the repository and the network serve by then. */
  method AcquireVerifyReacquire(
    w: World, later: World, ghost blob: string -> bytes, e: Store, rows: seq<Row>, allowNetwork: bool)
    returns (first: Result<Counts>, verified: Result<nat>, second: Result<Counts>, ghost built: Files)
    requires e.sha == w.sha && Preimage(w, blob) && FaithfulJson(w)
    requires later == w.(repo := later.repo, net := later.net)
    modifies e
    ensures Safe(w.sha, old(e.files), e.files)
    ensures first.Ok? ==> (verified.Ok? <==> Satisfiable(w, rows, blob))
    ensures first.Ok? && Satisfiable(w, rows, blob) ==> second.Ok? && SameContents(built, e.files)
    ensures first.Ok? && Satisfiable(w, rows, blob) ==> Complete(w, rows, built)
    ensures allowNetwork && AllObtainable(w, rows) ==> first.Ok?
  {
    PreimageIsCollisionFree(w, blob);
    hide *;
    first := Acquire(w, e, rows, allowNetwork);
    verified, second, built := Err, Err, e.files;
    if first.Ok? {
      verified := VerifyMirror(w, e, rows);
      VerifyAcceptsIffSatisfiable(w, rows, blob, e.files);
      if Satisfiable(w, rows, blob) { BuiltIsComplete(w, rows, blob, e.files); }
      SourcesAreIrrelevant(w, later, rows, e.files);
      SameJson(w, later);
      second := Acquire(later, e, rows, false);
      SafeCompose(w.sha, old(e.files), built, e.files);
    }
  }

  lemma SameJson(w: World, w': World)
    requires w' == w.(repo := w'.repo, net := w'.net)
    ensures FaithfulJson(w) ==> FaithfulJson(w')
    ensures w.sha == w'.sha
  {
  }
}
