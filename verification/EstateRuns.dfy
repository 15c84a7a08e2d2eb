/** Any interleaving of the operations that write to one estate, failing ones included. */
module EstateRuns {
  import opened Common
  import opened Estate
  import opened BcrMirror
  import opened InputStore

  /** One call.  What the repository and the network serve, and what a seed estate holds,
      is each call's own. */
  datatype Operation =
    | AcquireMirror(world: World, rows: seq<Row>, allowNetwork: bool)
    | SeedArchive(archive: bytes, digest: string, ids: seq<string>)
    | InstallAsset(store: InputStore, asset: Asset, source: bytes)
    | PrepareAsset(store: InputStore, asset: Asset, fetch: bool, attempt: string, serve: nat -> Download)

  ghost predicate WorksOn(op: Operation, e: Store) {
    match op
    case AcquireMirror(world, _, _) => world.sha == e.sha
    case SeedArchive(_, _, _) => true
    case InstallAsset(store, _, _) => store.estate == e
    case PrepareAsset(store, _, _, _, _) => store.estate == e
  }

  ghost predicate Ready(op: Operation, e: Store) {
    WorksOn(op, e) && (op.InstallAsset? || op.PrepareAsset? ==> op.store.Valid())
  }

  /** The digest-named files that a successful call leaves correct. */
  ghost predicate Achieved(op: Operation, sha: bytes -> string, files: Files) {
    match op
    case AcquireMirror(world, rows, _) => forall r :: r in rows ==> Stored(world, files, r)
    case SeedArchive(_, digest, _) => Holds(sha, files, Cached(digest), digest)
    case InstallAsset(_, asset, _) => Holds(sha, files, Cached(asset.sha256), asset.sha256)
    case PrepareAsset(_, asset, _, _, _) => Holds(sha, files, Cached(asset.sha256), asset.sha256)
  }

  /** What a call has achieved outlasts every safe step. */
  lemma AchievedLasts(op: Operation, e: Store, before: Files, after: Files)
    requires WorksOn(op, e) && Achieved(op, e.sha, before) && Safe(e.sha, before, after)
    ensures Achieved(op, e.sha, after)
  {
    match op {
      case AcquireMirror(world, rows, _) =>
        forall r | r in rows ensures Stored(world, after, r) { StoredSurvives(world, before, after, r); }
      case SeedArchive(_, digest, _) => assert SafeAt(e.sha, before, after, Cached(digest));
      case InstallAsset(_, asset, _) => assert SafeAt(e.sha, before, after, Cached(asset.sha256));
      case PrepareAsset(_, asset, _, _, _) => assert SafeAt(e.sha, before, after, Cached(asset.sha256));
    }
  }

  lemma BuiltIsStored(w: World, rows: seq<Row>, files: Files)
    requires Built(w, rows, files, |rows|)
    ensures forall r :: r in rows ==> Stored(w, files, r)
  {
  }

  method RunOne(e: Store, op: Operation) returns (ok: bool)
    requires Ready(op, e) && CollisionFree(e.sha)
    modifies e
    ensures Safe(e.sha, old(e.files), e.files)
    ensures ok ==> Achieved(op, e.sha, e.files)
  {
    hide Built;
    hide Safe;
    hide Stored;
    match op {
      case AcquireMirror(world, rows, allowNetwork) =>
        var r := Acquire(world, e, rows, allowNetwork);
        ok := r.Ok?;
        if ok { BuiltIsStored(world, rows, e.files); }
      case SeedArchive(archive, digest, ids) => ok := e.SeedRepositoryCache(archive, digest, ids);
      case InstallAsset(store, asset, source) => ok := store.Install(asset, source);
      case PrepareAsset(store, asset, fetch, attempt, serve) =>
        ok := store.PrepareAsset(asset, fetch, attempt, serve);
    }
  }

  /** Whatever is called in whatever order, and whichever calls fail: over every stretch of
      the run no correct digest-named file becomes incorrect and every newly written one is
      correct, and what a successful call has achieved still holds at the end. */
  method RunAll(e: Store, ops: seq<Operation>) returns (done: seq<bool>, ghost states: seq<Files>)
    requires CollisionFree(e.sha) && forall op :: op in ops ==> Ready(op, e)
    modifies e
    ensures |done| == |ops| && |states| == |ops| + 1 && states[0] == old(e.files) && states[|ops|] == e.files
    ensures forall i, j :: 0 <= i <= j < |states| ==> Safe(e.sha, states[i], states[j])
    ensures Safe(e.sha, old(e.files), e.files)
    ensures forall i :: 0 <= i < |ops| && done[i] ==> Achieved(ops[i], e.sha, e.files)
  {
    hide Safe;
    hide Achieved;
    hide CollisionFree;
    done, states := [], [e.files];
    for n := 0 to |ops|
      invariant |done| == n && |states| == n + 1 && states[0] == old(e.files) && states[n] == e.files
      invariant SafeRun(e.sha, states)
      invariant forall i :: 0 <= i < n && done[i] ==> Achieved(ops[i], e.sha, states[i + 1])
    {
      var ok := RunOne(e, ops[n]);
      done, states := done + [ok], states + [e.files];
    }
    forall i, j | 0 <= i <= j < |states| ensures Safe(e.sha, states[i], states[j]) {
      RunsAreSafe(e.sha, states, i, j);
    }
    forall i | 0 <= i < |ops| && done[i] ensures Achieved(ops[i], e.sha, e.files) {
      assert ops[i] in ops && Safe(e.sha, states[i + 1], states[|ops|]);
      AchievedLasts(ops[i], e, states[i + 1], states[|ops|]);
    }
  }
}
