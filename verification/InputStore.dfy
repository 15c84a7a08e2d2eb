/** Verified source blobs in one estate, optionally read from a seed estate, and the
    acquisition of a pinned asset through failing and lying mirrors. */
module InputStore {
  import opened Common
  import opened Estate

  datatype Asset = Asset(owner: string, sha256: string, urls: seq<string>, filename: Option<string>)

  /** A file in the estate (`seed` false) or the seed estate. */
  datatype Candidate = Candidate(seed: bool, loc: Loc)

  const DISTDIRS: seq<string> := ["native", "pytorch", "triton", "jax", "bazel"]

  /** How an acquisition stage for one URL can end. */
  datatype Download =
    | StageFailed                       // the command failed; the next mirror is tried
    | Raised                            // an interrupt or an operating-system error
    | Delivered(content: Option<bytes>) // the command passed; it may have written nothing

  datatype Attempt = Acquired | TryNext | Abort

  /** A completed download with the digest has replaced the one there was. */
  ghost predicate Published(sha: bytes -> string, before: Files, after: Files, digest: string, run: string) {
    exists data :: sha(data) == digest && after == before[BuildInput(digest) := data] - {Partial(digest, run)}
  }

  lemma AttemptIsSafe(sha: bytes -> string, before: Files, after: Files, digest: string, run: string)
    requires after == before - {Partial(digest, run)} || Published(sha, before, after, digest, run)
    ensures Safe(sha, before, after)
    ensures Published(sha, before, after, digest, run) ==> Holds(sha, after, BuildInput(digest), digest)
  {
  }

  /** The command passed and left the pinned bytes. */
  predicate Delivers(sha: bytes -> string, asset: Asset, d: Download) {
    d.Delivered? && d.content.Some? && sha(d.content.value) == asset.sha256
  }

  /** The command failed, or it passed and left other bytes: the next URL is tried. */
  predicate PassesOn(sha: bytes -> string, asset: Asset, d: Download) {
    d.StageFailed? || (d.Delivered? && d.content.Some? && sha(d.content.value) != asset.sha256)
  }

  /** A file of another digest has the asset's name in the distdir. */
  predicate InTheWay(sha: bytes -> string, files: Files, asset: Asset) {
    && asset.filename.Some? && Distdir("jax", asset.filename.value) in files
    && sha(files[Distdir("jax", asset.filename.value)]) != asset.sha256
  }

  ghost predicate SameDistdir(before: Files, after: Files, asset: Asset) {
    asset.filename.Some? ==>
      var loc := Distdir("jax", asset.filename.value);
      (loc in before <==> loc in after) && (loc in before && loc in after ==> before[loc] == after[loc])
  }

  class InputStore {
    const estate: Store
    const seed: Option<Store>
    /** The file name a URL ends in, and whether the URL may be fetched. */
    const basename: string -> string
    const fetchable: string -> bool

    constructor (estate: Store, seed: Option<Store>, basename: string -> string, fetchable: string -> bool)
      requires seed.Some? ==> seed.value != estate && seed.value.sha == estate.sha
      ensures this.estate == estate && this.seed == seed && this.basename == basename && this.fetchable == fetchable
      ensures Valid()
    {
      this.estate, this.seed, this.basename, this.fetchable := estate, seed, basename, fetchable;
    }

    ghost predicate Valid() {
      seed.Some? ==> seed.value != estate && seed.value.sha == estate.sha
    }

    function SeedFiles(): Files
      reads if seed.Some? then {seed.value} else {}
    {
      if seed.Some? then seed.value.files else map[]
    }

    predicate Matches(c: Candidate, asset: Asset)
      reads estate, if seed.Some? then {seed.value} else {}
    {
      Holds(estate.sha, if c.seed then SeedFiles() else estate.files, c.loc, asset.sha256)
    }

    function FileNames(asset: Asset): set<string> {
      (set u | u in asset.urls :: basename(u)) + (if asset.filename.Some? then {asset.filename.value} else {})
    }

    /** Every place a pinned blob may be taken from; partial downloads are not among them. */
    predicate IsCandidate(c: Candidate, asset: Asset) {
      && (c.seed ==> seed.Some?)
      && match c.loc
         case Cached(sha) => sha == asset.sha256
         case BuildInput(sha) => sha == asset.sha256
         case Distdir(sub, name) => sub in DISTDIRS && name in FileNames(asset) && name != ""
         case _ => false
    }

    predicate InDistdir(c: Candidate, fromSeed: bool, sub: string) {
      c.loc.Distdir? && c.seed == fromSeed && c.loc.sub == sub
    }

    /** All distdir candidates in one estate. */
    method DistdirCandidates(fromSeed: bool, asset: Asset) returns (cs: seq<Candidate>)
      requires fromSeed ==> seed.Some?
      ensures forall c :: c in cs <==> c.loc.Distdir? && c.seed == fromSeed && IsCandidate(c, asset)
    {
      cs := [];
      for i := 0 to |DISTDIRS|
        invariant forall c :: c in cs <==>
          c.loc.Distdir? && c.seed == fromSeed && IsCandidate(c, asset) && c.loc.sub in DISTDIRS[..i]
      {
        assert DISTDIRS[..i + 1] == DISTDIRS[..i] + [DISTDIRS[i]];
        var names := FileNames(asset);
        ghost var before := cs;
        while names != {}
          invariant names <= FileNames(asset)
          invariant forall c :: c in cs <==>
            c in before
            || (InDistdir(c, fromSeed, DISTDIRS[i]) && c.loc.name in FileNames(asset) - names && c.loc.name != "")
          decreases names
        {
          var n :| n in names;
          names := names - {n};
          if n != "" { cs := cs + [Candidate(fromSeed, Distdir(DISTDIRS[i], n))]; }
        }
      }
      assert DISTDIRS[..|DISTDIRS|] == DISTDIRS;
    }

    /** The candidates in the order they are tried: caches, then completed downloads, then distdirs. */
    method Candidates(asset: Asset) returns (cs: seq<Candidate>)
      ensures forall c :: c in cs <==> IsCandidate(c, asset)
      ensures |cs| > 0 && cs[0] == Candidate(false, Cached(asset.sha256))
      ensures forall i, j :: 0 <= i < j < |cs| && cs[i].loc.Distdir? ==> cs[j].loc.Distdir?
    {
      var own := DistdirCandidates(false, asset);
      if seed.None? {
        cs := [Candidate(false, Cached(asset.sha256)), Candidate(false, BuildInput(asset.sha256))] + own;
        return;
      }
      var seeds := DistdirCandidates(true, asset);
      cs := [Candidate(false, Cached(asset.sha256)), Candidate(true, Cached(asset.sha256)),
             Candidate(false, BuildInput(asset.sha256)), Candidate(true, BuildInput(asset.sha256))] + own + seeds;
    }

    /** `find`: some candidate whose bytes have the pinned digest, if there is one at all. */
    method FindAsset(asset: Asset) returns (r: Option<Candidate>)
      requires Valid()
      ensures r.Some? ==> IsCandidate(r.value, asset) && Matches(r.value, asset)
      ensures r.None? ==> forall c :: IsCandidate(c, asset) ==> !Matches(c, asset)
      ensures r.Some? && r.value.loc.Distdir? ==>
        forall c :: IsCandidate(c, asset) && !c.loc.Distdir? ==> !Matches(c, asset)
    {
      var cs := Candidates(asset);
      for i := 0 to |cs|
        invariant forall j :: 0 <= j < i ==> !Matches(cs[j], asset)
      {
        if Matches(cs[i], asset) {
          assert cs[i] in cs;
          forall c | cs[i].loc.Distdir? && IsCandidate(c, asset) && !c.loc.Distdir? ensures !Matches(c, asset) {
            var j :| 0 <= j < |cs| && cs[j] == c;
          }
          return Some(cs[i]);
        }
      }
      return None;
    }

    /** `install`, given the bytes of the source. */
    method Install(asset: Asset, source: bytes) returns (ok: bool)
      requires Valid()
      modifies estate
      ensures Safe(estate.sha, old(estate.files), estate.files)
      ensures estate.sha(source) != asset.sha256 ==> !ok && estate.files == old(estate.files)
      ensures estate.sha(source) == asset.sha256 ==> Holds(estate.sha, estate.files, Cached(asset.sha256), asset.sha256)
      ensures estate.sha(source) == asset.sha256 ==>
        (ok <==> !InTheWay(estate.sha, old(estate.files), asset))
      ensures ok && asset.filename.Some? ==>
        Holds(estate.sha, estate.files, Distdir("jax", asset.filename.value), asset.sha256)
      ensures forall sha, run :: Partial(sha, run) in estate.files <==> Partial(sha, run) in old(estate.files)
    {
      ok := estate.SeedRepositoryCache(source, asset.sha256, asset.urls);
      if !ok || asset.filename.None? { return; }
      var dest := Distdir("jax", asset.filename.value);
      if dest in estate.files && estate.sha(estate.files[dest]) != asset.sha256 { return false; }
      if dest !in estate.files {
        ghost var before := estate.files;
        ok := estate.CopyVerifiedArchive(estate.files[Cached(asset.sha256)], dest, asset.sha256);
        SafeCompose(estate.sha, old(estate.files), before, estate.files);
      }
    }

    /** After a successful install, `find` answers with bytes of the pinned digest. */
    method InstallThenFind(asset: Asset, source: bytes) returns (ok: bool, found: Option<Candidate>)
      requires Valid()
      modifies estate
      ensures ok <==> estate.sha(source) == asset.sha256 && !InTheWay(estate.sha, old(estate.files), asset)
      ensures ok ==> found.Some? && Matches(found.value, asset)
      ensures Safe(estate.sha, old(estate.files), estate.files)
    {
      ok := Install(asset, source);
      found := FindAsset(asset);
      if ok {
        assert IsCandidate(Candidate(false, Cached(asset.sha256)), asset);
        assert Matches(Candidate(false, Cached(asset.sha256)), asset);
      }
    }

    /** One acquisition stage, given how its command ends.  Whatever the command wrote to the
        partial file is removed again, unless it has the pinned digest: then it replaces
        the completed download. */
    method AttemptDownload(asset: Asset, run: string, d: Download) returns (outcome: Attempt)
      modifies estate
      ensures outcome.Acquired? <==> Delivers(estate.sha, asset, d)
      ensures outcome.TryNext? <==> PassesOn(estate.sha, asset, d)
      ensures !outcome.Acquired? ==> estate.files == old(estate.files) - {Partial(asset.sha256, run)}
      ensures outcome.Acquired? ==>
        Published(estate.sha, old(estate.files), estate.files, asset.sha256, run)
    {
      var partial, source := Partial(asset.sha256, run), BuildInput(asset.sha256);
      var wrote: bool, junk: bytes := *, *;
      if wrote { estate.files := estate.files[partial := junk]; }
      match d {
      case StageFailed => outcome := TryNext;
      case Raised => outcome := Abort;
      case Delivered(content) =>
        if content.Some? { estate.files := estate.files[partial := content.value]; }
        if content.None? {
          outcome := Abort;
        } else if estate.sha(content.value) == asset.sha256 {
          estate.files := estate.files[source := content.value];
          outcome := Acquired;
        } else {
          outcome := TryNext;
        }
      }
      estate.files := estate.files - {partial};
      if outcome.Acquired? {
        assert estate.files == old(estate.files)[source := d.content.value] - {partial};
      } else {
        assert estate.files == old(estate.files) - {partial};
      }
    }

    /** URL `i` is the first to deliver the pinned bytes, and no earlier one ends the attempts. */
    predicate DeliversAt(asset: Asset, serve: nat -> Download, i: nat) {
      && i < |asset.urls| && fetchable(asset.urls[i]) && Delivers(estate.sha, asset, serve(i))
      && forall j: nat :: j < i && fetchable(asset.urls[j]) ==> PassesOn(estate.sha, asset, serve(j))
    }

    /** The fetchable URLs in turn, until one delivers the pinned bytes; `serve` says how the
        command for each URL ends. */
    method Download(asset: Asset, run: string, serve: nat -> Download) returns (ok: bool)
      requires Valid()
      modifies estate
      ensures ok <==> exists i: nat :: DeliversAt(asset, serve, i)
      ensures Safe(estate.sha, old(estate.files), estate.files)
      ensures ok ==> Holds(estate.sha, estate.files, BuildInput(asset.sha256), asset.sha256)
      ensures Partial(asset.sha256, run) !in old(estate.files) ==> Partial(asset.sha256, run) !in estate.files
      ensures SameDistdir(old(estate.files), estate.files, asset)
    {
      for i := 0 to |asset.urls|
        invariant Safe(estate.sha, old(estate.files), estate.files)
        invariant Partial(asset.sha256, run) !in old(estate.files) ==> Partial(asset.sha256, run) !in estate.files
        invariant SameDistdir(old(estate.files), estate.files, asset)
        invariant forall j: nat :: j < i && fetchable(asset.urls[j]) ==> PassesOn(estate.sha, asset, serve(j))
      {
        if !fetchable(asset.urls[i]) { continue; }
        ghost var before := estate.files;
        var outcome := AttemptDownload(asset, run, serve(i));
        AttemptIsSafe(estate.sha, before, estate.files, asset.sha256, run);
        SafeCompose(estate.sha, old(estate.files), before, estate.files);
        if outcome.Acquired? {
          assert DeliversAt(asset, serve, i);
          return true;
        }
        if outcome.Abort? { return false; }
      }
      return false;
    }

    /** Somewhere in the estates the pinned bytes are at hand. */
    ghost predicate AtHand(asset: Asset)
      reads estate, if seed.Some? then {seed.value} else {}
    {
      exists c :: IsCandidate(c, asset) && Matches(c, asset)
    }

    /** The pinned bytes are at hand exactly if they lie in the repository cache, among the
        completed downloads or in a distdir under a name of the asset, here or in the seed. */
    lemma AtHandMeans(asset: Asset)
      requires Valid()
      ensures AtHand(asset) <==>
        || HeldIn(estate.sha, estate.files, asset)
        || (seed.Some? && HeldIn(estate.sha, seed.value.files, asset))
    {
      if HeldIn(estate.sha, estate.files, asset) { AtHandIn(asset, false); }
      if seed.Some? && HeldIn(estate.sha, seed.value.files, asset) { AtHandIn(asset, true); }
    }

    lemma AtHandIn(asset: Asset, fromSeed: bool)
      requires Valid() && (fromSeed ==> seed.Some?)
      requires HeldIn(estate.sha, if fromSeed then SeedFiles() else estate.files, asset)
      ensures AtHand(asset)
    {
      var files := if fromSeed then SeedFiles() else estate.files;
      if Holds(estate.sha, files, Cached(asset.sha256), asset.sha256) {
        assert IsCandidate(Candidate(fromSeed, Cached(asset.sha256)), asset);
        assert Matches(Candidate(fromSeed, Cached(asset.sha256)), asset);
      } else if Holds(estate.sha, files, BuildInput(asset.sha256), asset.sha256) {
        assert IsCandidate(Candidate(fromSeed, BuildInput(asset.sha256)), asset);
        assert Matches(Candidate(fromSeed, BuildInput(asset.sha256)), asset);
      } else {
        var sub, name :| IsDistdirFile(asset, sub, name) && Holds(estate.sha, files, Distdir(sub, name), asset.sha256);
        assert IsCandidate(Candidate(fromSeed, Distdir(sub, name)), asset);
        assert Matches(Candidate(fromSeed, Distdir(sub, name)), asset);
      }
    }

    /** A distdir file goes by the asset's own name or by the name a URL of it ends in. */
    predicate IsDistdirFile(asset: Asset, sub: string, name: string) {
      && (sub == "native" || sub == "pytorch" || sub == "triton" || sub == "jax" || sub == "bazel")
      && name != "" && (asset.filename == Some(name) || exists u :: u in asset.urls && basename(u) == name)
    }

    ghost predicate HeldIn(sha: bytes -> string, files: Files, asset: Asset) {
      || Holds(sha, files, Cached(asset.sha256), asset.sha256)
      || Holds(sha, files, BuildInput(asset.sha256), asset.sha256)
      || exists sub, name :: IsDistdirFile(asset, sub, name) && Holds(sha, files, Distdir(sub, name), asset.sha256)
    }

    /** `prepare_asset`: succeeds exactly if the bytes are at hand, or may be fetched and some
        URL delivers them, and no other file is in the way. */
    method PrepareAsset(asset: Asset, fetch: bool, run: string, serve: nat -> Download) returns (ok: bool)
      requires Valid()
      modifies estate
      ensures ok <==>
        && (old(AtHand(asset)) || (fetch && exists i: nat :: DeliversAt(asset, serve, i)))
        && !InTheWay(estate.sha, old(estate.files), asset)
      ensures !old(AtHand(asset)) && !fetch ==> estate.files == old(estate.files)
      ensures Safe(estate.sha, old(estate.files), estate.files)
      ensures ok ==> Holds(estate.sha, estate.files, Cached(asset.sha256), asset.sha256)
      ensures Partial(asset.sha256, run) !in old(estate.files) ==> Partial(asset.sha256, run) !in estate.files
    {
      var found := FindAsset(asset);
      var source: bytes;
      if found.Some? {
        source := (if found.value.seed then SeedFiles() else estate.files)[found.value.loc];
      } else {
        if !fetch { return false; }
        ok := Download(asset, run, serve);
        if !ok { return; }
        source := estate.files[BuildInput(asset.sha256)];
      }
      ghost var before := estate.files;
      ok := Install(asset, source);
      SafeCompose(estate.sha, old(estate.files), before, estate.files);
    }
  }
}
