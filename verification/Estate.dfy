/** The files of an estate, some of them at paths named by a digest, and the
    verify-then-replace steps that write them. */
module Estate {
  import opened Common

  /** Where a file lives: under the registry, in one of the digest-named stores, or elsewhere. */
  datatype Loc =
    | Registry(rel: seq<string>)
    | Original(sha: string)
    | Archive(sha: string, name: string)
    | Cached(sha: string)
    | Marker(sha: string, id: string)
    | BuildInput(sha: string)
    | Partial(sha: string, run: string)
    | Distdir(sub: string, name: string)

  type Files = map<Loc, bytes>

  /** The digest a path is named by, for the stores that hold finished files. */
  function DigestOf(loc: Loc): Option<string> {
    match loc
    case Original(sha) => Some(sha)
    case Archive(sha, _) => Some(sha)
    case Cached(sha) => Some(sha)
    case BuildInput(sha) => Some(sha)
    case _ => None
  }

  predicate Holds(sha: bytes -> string, files: Files, loc: Loc, digest: string) {
    loc in files && sha(files[loc]) == digest
  }

  /** No correct digest-named file becomes incorrect, and every one newly written is correct. */
  ghost predicate Safe(sha: bytes -> string, before: Files, after: Files) {
    forall loc :: DigestOf(loc).Some? ==> SafeAt(sha, before, after, loc)
  }

  ghost predicate SafeAt(sha: bytes -> string, before: Files, after: Files, loc: Loc)
    requires DigestOf(loc).Some?
  {
    && (Holds(sha, before, loc, DigestOf(loc).value) ==> Holds(sha, after, loc, DigestOf(loc).value))
    && (loc in after && !(loc in before && before[loc] == after[loc]) ==> Holds(sha, after, loc, DigestOf(loc).value))
  }

  /** The stores this is about: pinned originals, archives, the repository cache and completed downloads. */
  lemma SafeStores(sha: bytes -> string, before: Files, after: Files, digest: string, name: string, loc: Loc)
    requires Safe(sha, before, after)
    requires loc in {Original(digest), Archive(digest, name), Cached(digest), BuildInput(digest)}
    ensures loc in before && sha(before[loc]) == digest ==> loc in after && sha(after[loc]) == digest
    ensures loc in after && !(loc in before && before[loc] == after[loc]) ==> sha(after[loc]) == digest
  {
    assert SafeAt(sha, before, after, loc);
  }

  lemma SafeCompose(sha: bytes -> string, a: Files, b: Files, c: Files)
    requires Safe(sha, a, b) && Safe(sha, b, c)
    ensures Safe(sha, a, c)
  {
    forall loc | DigestOf(loc).Some? ensures SafeAt(sha, a, c, loc) {
      assert SafeAt(sha, a, b, loc) && SafeAt(sha, b, c, loc);
    }
  }

  lemma SafeWrite(sha: bytes -> string, files: Files, loc: Loc, data: bytes)
    requires DigestOf(loc).Some? ==> sha(data) == DigestOf(loc).value
    ensures Safe(sha, files, files[loc := data])
  {
  }

  ghost predicate SafeRun(sha: bytes -> string, run: seq<Files>) {
    forall i, j :: 0 <= i < j < |run| && j == i + 1 ==> Safe(sha, run[i], run[j])
  }

  /** Over any stretch of a run of safe steps, whichever of them failed, a correct
      digest-named file stays correct, and a newly written one is correct. */
  lemma {:induction false} RunsAreSafe(sha: bytes -> string, run: seq<Files>, i: nat, j: nat)
    requires SafeRun(sha, run) && i <= j < |run|
    ensures Safe(sha, run[i], run[j])
  {
    if i < j {
      RunsAreSafe(sha, run, i, j - 1);
      assert Safe(sha, run[j - 1], run[j]);
      SafeCompose(sha, run[i], run[j - 1], run[j]);
    }
  }

  /** Equal but for repository-cache marker files. */
  ghost predicate SameContents(a: Files, b: Files) {
    forall loc: Loc :: !loc.Marker? ==> (loc in a <==> loc in b) && (loc in a && loc in b ==> a[loc] == b[loc])
  }

  class Store {
    const sha: bytes -> string
    var files: Files

    constructor (sha: bytes -> string, files: Files)
      ensures this.sha == sha && this.files == files
    {
      this.sha, this.files := sha, files;
    }

    /** `copy_verified_archive`, given the bytes read from the source. */
    method CopyVerifiedArchive(source: bytes, dest: Loc, digest: string) returns (ok: bool)
      requires DigestOf(dest).Some? ==> DigestOf(dest).value == digest
      modifies this
      ensures ok <==> sha(source) == digest
      ensures files == if ok then old(files)[dest := source] else old(files)
      ensures Safe(sha, old(files), files)
    {
      var actual := sha(source);
      if actual != digest { return false; }
      SafeWrite(sha, files, dest, source);
      files := files[dest := source];
      return true;
    }

    /** `marker.touch()` keeps the contents of an existing file. */
    method Touch(marker: Loc)
      requires marker.Marker?
      modifies this
      ensures SameContents(old(files), files) && Safe(sha, old(files), files)
      ensures files == if marker in old(files) then old(files) else old(files)[marker := []]
    {
      if marker !in files { files := files[marker := []]; }
    }

    /** `seed_repository_cache`, given the bytes of the archive. */
    method SeedRepositoryCache(archive: bytes, digest: string, ids: seq<string>) returns (ok: bool)
      modifies this
      ensures ok <==> sha(archive) == digest
      ensures !ok ==> files == old(files)
      ensures ok ==> SameContents(
        if Holds(sha, old(files), Cached(digest), digest) then old(files) else old(files)[Cached(digest) := archive],
        files)
      ensures ok ==> Holds(sha, files, Cached(digest), digest)
      ensures ok ==> forall id :: id in ids ==> Marker(digest, id) in files
      ensures Safe(sha, old(files), files)
    {
      if sha(archive) != digest { return false; }
      if !(Cached(digest) in files && sha(files[Cached(digest)]) == digest) {
        ok := CopyVerifiedArchive(archive, Cached(digest), digest);
      }
      ghost var seeded := files;
      for i := 0 to |ids|
        invariant SameContents(seeded, files) && Safe(sha, old(files), files)
        invariant forall j :: 0 <= j < i ==> Marker(digest, ids[j]) in files
      {
        ghost var before := files;
        Touch(Marker(digest, ids[i]));
        SafeCompose(sha, old(files), before, files);
      }
      ok := true;
    }
  }
}
