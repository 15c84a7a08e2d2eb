/** Resolving a path inside a root file system: `..` is clamped at the root, at most
    40 symbolic links are followed, and after each link the walk restarts at `/`. */
module RootfsResolver {
  import opened Common

  type Path = seq<string>

  /** A parsed link target or input path: its components, without the root. */
  datatype PurePath = PurePath(absolute: bool, parts: Path)

  /** The links below the root, by the link-free path that names them, and the files that exist. */
  datatype Filesystem = Filesystem(links: map<Path, PurePath>, files: set<Path>)

  const MAX_LINKS: nat := 40

  predicate Skipped(part: string) { part == "" || part == "." }

  /** No skipped or parent component. */
  predicate Plain(p: Path) {
    forall i :: 0 <= i < |p| ==> !Skipped(p[i]) && p[i] != ".."
  }

  /** No non-empty prefix of `p`, nor `p` itself, is a link. */
  predicate LinkFree(fs: Filesystem, p: Path) {
    forall n :: 0 < n <= |p| ==> p[..n] !in fs.links
  }

  /** `candidate.is_symlink()`: the operating system would follow links in the parent,
      so the answer is that of the model only when the parent is free of links. */
  function ReadLink(fs: Filesystem, parent: Path, part: string): Option<PurePath>
    requires Plain(parent) && LinkFree(fs, parent)
  {
    if parent + [part] in fs.links then Some(fs.links[parent + [part]]) else None
  }

  function Parent(p: Path): Path { if p == [] then [] else p[..|p| - 1] }

  lemma ParentKeeps(fs: Filesystem, p: Path)
    requires Plain(p) && LinkFree(fs, p)
    ensures Plain(Parent(p)) && LinkFree(fs, Parent(p))
  {
    forall n | 0 < n <= |Parent(p)| ensures Parent(p)[..n] !in fs.links {
      assert Parent(p)[..n] == p[..n];
    }
  }

  lemma StepKeeps(fs: Filesystem, p: Path, part: string)
    requires Plain(p) && LinkFree(fs, p) && !Skipped(part) && part != ".." && p + [part] !in fs.links
    ensures Plain(p + [part]) && LinkFree(fs, p + [part])
  {
    forall n | 0 < n <= |p| + 1 ensures (p + [part])[..n] !in fs.links {
      if n <= |p| { assert (p + [part])[..n] == p[..n]; } else { assert (p + [part])[..n] == p + [part]; }
    }
  }

  // ---------------------------------------------------------------- the reference resolver

  datatype Walked = Walked(at: Path, links: nat)

  /** Keeps the resolved prefix and replaces a link by its target: relative to the
      directory that holds the link, or to the root when the target is absolute. */
  function Walk(fs: Filesystem, at: Path, pending: Path, links: nat): (r: Option<Walked>)
    requires Plain(at) && LinkFree(fs, at)
    decreases MAX_LINKS + 1 - links, |pending|
  {
    if links > MAX_LINKS then None
    else if pending == [] then Some(Walked(at, links))
    else
      var part, rest := pending[0], pending[1..];
      if Skipped(part) then Walk(fs, at, rest, links)
      else if part == ".." then
        ParentKeeps(fs, at);
        Walk(fs, Parent(at), rest, links)
      else
        match ReadLink(fs, at, part)
        case Some(target) => Walk(fs, if target.absolute then [] else at, target.parts + rest, links + 1)
        case None =>
          StepKeeps(fs, at, part);
          Walk(fs, at + [part], rest, links)
  }

  /** The result is a plain path of which no prefix is a link, within the link budget. */
  lemma {:induction false} WalkEndsLinkFree(fs: Filesystem, at: Path, pending: Path, links: nat)
    requires Plain(at) && LinkFree(fs, at)
    ensures var r := Walk(fs, at, pending, links);
      r.Some? ==> Plain(r.value.at) && LinkFree(fs, r.value.at) && links <= r.value.links <= MAX_LINKS
    decreases MAX_LINKS + 1 - links, |pending|
  {
    if links <= MAX_LINKS && pending != [] {
      var part, rest := pending[0], pending[1..];
      if Skipped(part) {
        WalkEndsLinkFree(fs, at, rest, links);
      } else if part == ".." {
        ParentKeeps(fs, at);
        WalkEndsLinkFree(fs, Parent(at), rest, links);
      } else if at + [part] in fs.links {
        var target := fs.links[at + [part]];
        WalkEndsLinkFree(fs, if target.absolute then [] else at, target.parts + rest, links + 1);
      } else {
        StepKeeps(fs, at, part);
        WalkEndsLinkFree(fs, at + [part], rest, links);
      }
    }
  }

  /** Walking a path in two parts is walking it whole: what comes after a prefix is
      resolved from where the prefix leads, with the links the prefix left. */
  lemma {:induction false} WalkComposes(fs: Filesystem, at: Path, p: Path, q: Path, links: nat)
    requires Plain(at) && LinkFree(fs, at)
    ensures Walk(fs, at, p, links).Some? ==>
      Plain(Walk(fs, at, p, links).value.at) && LinkFree(fs, Walk(fs, at, p, links).value.at)
    ensures Walk(fs, at, p + q, links)
      == match Walk(fs, at, p, links)
         case None => None
         case Some(w) => Walk(fs, w.at, q, w.links)
    decreases MAX_LINKS + 1 - links, |p|
  {
    WalkEndsLinkFree(fs, at, p, links);
    if p == [] {
      assert p + q == q;
    } else if links <= MAX_LINKS {
      var part, rest := p[0], p[1..];
      assert (p + q)[1..] == rest + q;
      if Skipped(part) {
        WalkComposes(fs, at, rest, q, links);
      } else if part == ".." {
        ParentKeeps(fs, at);
        WalkComposes(fs, Parent(at), rest, q, links);
      } else if at + [part] in fs.links {
        var target := fs.links[at + [part]];
        assert target.parts + (rest + q) == (target.parts + rest) + q;
        WalkComposes(fs, if target.absolute then [] else at, target.parts + rest, q, links + 1);
      } else {
        StepKeeps(fs, at, part);
        WalkComposes(fs, at + [part], rest, q, links);
      }
    }
  }

  lemma PrefixKeeps(fs: Filesystem, p: Path, n: nat)
    requires Plain(p) && LinkFree(fs, p) && n <= |p|
    ensures Plain(p[..n]) && LinkFree(fs, p[..n])
  {
    forall k | 0 < k <= n ensures p[..n][..k] !in fs.links { assert p[..n][..k] == p[..k]; }
  }

  /** A link-free path resolves to itself, at no cost. */
  lemma {:induction false} LinkFreeResolvesToItself(fs: Filesystem, p: Path, n: nat, links: nat)
    requires Plain(p) && LinkFree(fs, p) && n <= |p| && links <= MAX_LINKS
    ensures Plain(p[..n]) && LinkFree(fs, p[..n])
    ensures Walk(fs, p[..n], p[n..], links) == Some(Walked(p, links))
    decreases |p| - n
  {
    PrefixKeeps(fs, p, n);
    if n == |p| {
      assert p[..n] == p;
    } else {
      assert p[..n] + [p[n]] == p[..n + 1];
      assert p[..n + 1] !in fs.links;
      LinkFreeResolvesToItself(fs, p, n + 1, links);
    }
  }

  /** Restarting at the root with the resolved prefix put back changes nothing. */
  lemma RestartIsHarmless(fs: Filesystem, at: Path, pending: Path, links: nat)
    requires Plain(at) && LinkFree(fs, at)
    ensures Walk(fs, [], at + pending, links) == Walk(fs, at, pending, links)
  {
    if links <= MAX_LINKS {
      WalkComposes(fs, [], at, pending, links);
      assert at[..0] == [] && at[0..] == at;
      LinkFreeResolvesToItself(fs, at, 0, links);
    }
  }

  // ---------------------------------------------------------------- the loop

  /** `_rootfs_path` */
  function RootfsPath(root: Path, p: PurePath): Path { root + p.parts }

  /** What resolution inside `root` answers. */
  function Resolved(fs: Filesystem, root: Path, p: PurePath): Option<Path> {
    match Walk(fs, [], p.parts, 0)
    case None => None
    case Some(w) => Some(root + w.at)
  }

  /** `_resolve_inside_rootfs` */
  method ResolveInsideRootfs(fs: Filesystem, root: Path, path: PurePath) returns (r: Option<Path>)
    ensures r == Resolved(fs, root, path)
  {
    var resolved: Path := [];
    var pending := path.parts;
    var seen := 0;
    while pending != []
      invariant Plain(resolved) && LinkFree(fs, resolved)
      invariant seen <= MAX_LINKS
      invariant Walk(fs, resolved, pending, seen) == Walk(fs, [], path.parts, 0)
      decreases MAX_LINKS - seen, |pending|
    {
      var part := pending[0];
      ghost var before := pending;
      pending := pending[1..];
      if Skipped(part) { continue; }
      if part == ".." {
        ParentKeeps(fs, resolved);
        if resolved != [] { resolved := resolved[..|resolved| - 1]; }
        continue;
      }
      var link := ReadLink(fs, resolved, part);
      if link.Some? {
        seen := seen + 1;
        if seen > MAX_LINKS { return None; }
        var target := link.value;
        RestartIsHarmless(fs, resolved, target.parts + pending, seen);
        assert resolved + (target.parts + pending) == (resolved + target.parts) + pending;
        if target.absolute {
          pending := target.parts + pending;
        } else {
          pending := resolved + target.parts + pending;
        }
        resolved := [];
        continue;
      }
      StepKeeps(fs, resolved, part);
      resolved := resolved + [part];
    }
    return Some(RootfsPath(root, PurePath(true, resolved)));
  }

  /** The answer lies under the root, has no parent component and no link at any
      prefix, and is a fixed point of resolution. */
  lemma ResolutionIsSafe(fs: Filesystem, root: Path, path: PurePath, r: Path)
    requires Resolved(fs, root, path) == Some(r)
    ensures root <= r && Plain(r[|root|..]) && LinkFree(fs, r[|root|..])
    ensures Resolved(fs, root, PurePath(true, r[|root|..])) == Some(r)
  {
    WalkEndsLinkFree(fs, [], path.parts, 0);
    var at := Walk(fs, [], path.parts, 0).value.at;
    assert r[|root|..] == at;
    assert at[..0] == [] && at[0..] == at;
    LinkFreeResolvesToItself(fs, at, 0, 0);
  }

  /** The budget only cuts off: a walk that ends after `links'` links already followed ends
      at the same place, with as many further links, when fewer were followed before. */
  lemma {:induction false} BudgetOnlyCuts(fs: Filesystem, at: Path, pending: Path, links: nat, links': nat)
    requires Plain(at) && LinkFree(fs, at) && links <= links'
    requires Walk(fs, at, pending, links').Some?
    ensures var r, r' := Walk(fs, at, pending, links), Walk(fs, at, pending, links');
      r.Some? && r.value.at == r'.value.at && r.value.links + links' == r'.value.links + links
    decreases MAX_LINKS + 1 - links, |pending|
  {
    WalkEndsLinkFree(fs, at, pending, links');
    if pending != [] {
      var part, rest := pending[0], pending[1..];
      if Skipped(part) {
        BudgetOnlyCuts(fs, at, rest, links, links');
      } else if part == ".." {
        ParentKeeps(fs, at);
        BudgetOnlyCuts(fs, Parent(at), rest, links, links');
      } else if at + [part] in fs.links {
        var target := fs.links[at + [part]];
        WalkEndsLinkFree(fs, if target.absolute then [] else at, target.parts + rest, links' + 1);
        BudgetOnlyCuts(fs, if target.absolute then [] else at, target.parts + rest, links + 1, links' + 1);
      } else {
        StepKeeps(fs, at, part);
        BudgetOnlyCuts(fs, at + [part], rest, links, links');
      }
    }
  }

  // ---------------------------------------------------------------- where a path leads

  /** The answer for a path of these components, and how many links it took. */
  function Answer(fs: Filesystem, root: Path, parts: Path): Option<Walked> {
    match Walk(fs, [], parts, 0)
    case None => None
    case Some(w) => Some(Walked(root + w.at, w.links))
  }

  /** A relative path is resolved like an absolute one. */
  lemma AnswerIsResolved(fs: Filesystem, root: Path, p: PurePath)
    ensures Resolved(fs, root, p)
      == match Answer(fs, root, p.parts)
         case None => None
         case Some(w) => Some(w.at)
  {
  }

  lemma AnswerFrom(fs: Filesystem, root: Path, d: Path, q: Path)
    requires Plain(d) && LinkFree(fs, d)
    ensures Answer(fs, root, d + q)
      == match Walk(fs, d, q, 0)
         case None => None
         case Some(w) => Some(Walked(root + w.at, w.links))
  {
    RestartIsHarmless(fs, d, q, 0);
  }

  /** A path without links, skipped or parent components leads to itself. */
  lemma LinkFreeAnswer(fs: Filesystem, root: Path, p: Path)
    requires Plain(p) && LinkFree(fs, p)
    ensures Answer(fs, root, p) == Some(Walked(root + p, 0))
  {
    assert p + [] == p;
    AnswerFrom(fs, root, p, []);
  }

  /** A walk that ends below the budget still ends when one more link has been followed before. */
  lemma {:induction false} BudgetAllows(fs: Filesystem, at: Path, pending: Path, links: nat)
    requires Plain(at) && LinkFree(fs, at)
    requires Walk(fs, at, pending, links).Some? && Walk(fs, at, pending, links).value.links < MAX_LINKS
    ensures Walk(fs, at, pending, links + 1).Some?
    decreases MAX_LINKS + 1 - links, |pending|
  {
    WalkEndsLinkFree(fs, at, pending, links);
    if pending != [] {
      var part, rest := pending[0], pending[1..];
      if Skipped(part) {
        BudgetAllows(fs, at, rest, links);
      } else if part == ".." {
        ParentKeeps(fs, at);
        BudgetAllows(fs, Parent(at), rest, links);
      } else if at + [part] in fs.links {
        var target := fs.links[at + [part]];
        BudgetAllows(fs, if target.absolute then [] else at, target.parts + rest, links + 1);
      } else {
        StepKeeps(fs, at, part);
        BudgetAllows(fs, at + [part], rest, links);
      }
    }
  }

  /** A component that is a link stands for its target, seen from the directory that holds
      the link when the target is relative, from the root when it is absolute; it costs
      one link of the forty. */
  lemma LinkLeadsToTarget(fs: Filesystem, root: Path, d: Path, c: string, q: Path)
    requires Plain(d) && LinkFree(fs, d) && !Skipped(c) && c != ".." && d + [c] in fs.links
    ensures var t := fs.links[d + [c]];
      Answer(fs, root, d + [c] + q)
      == match Answer(fs, root, if t.absolute then t.parts + q else d + t.parts + q)
         case None => None
         case Some(w) => if w.links < 40 then Some(Walked(w.at, w.links + 1)) else None
  {
    var t := fs.links[d + [c]];
    var from := if t.absolute then [] else d;
    assert d + [c] + q == d + ([c] + q) && ([c] + q)[1..] == q;
    AnswerFrom(fs, root, d, [c] + q);
    AnswerFrom(fs, root, from, t.parts + q);
    assert from + (t.parts + q) == if t.absolute then t.parts + q else d + t.parts + q;
    var near, far := Walk(fs, from, t.parts + q, 0), Walk(fs, from, t.parts + q, 1);
    WalkEndsLinkFree(fs, from, t.parts + q, 1);
    if far.Some? { BudgetOnlyCuts(fs, from, t.parts + q, 0, 1); }
    if near.Some? && near.value.links < MAX_LINKS { BudgetAllows(fs, from, t.parts + q, 0); }
  }

  /** `..` undoes a component that is no link. */
  lemma ParentUndoesStep(fs: Filesystem, root: Path, d: Path, c: string, q: Path)
    requires Plain(d) && LinkFree(fs, d) && !Skipped(c) && c != ".." && d + [c] !in fs.links
    ensures Answer(fs, root, d + [c, ".."] + q) == Answer(fs, root, d + q)
  {
    StepKeeps(fs, d, c);
    assert d + [c, ".."] + q == (d + [c]) + ([".."] + q) && ([".."] + q)[1..] == q;
    assert Parent(d + [c]) == d;
    AnswerFrom(fs, root, d + [c], [".."] + q);
    AnswerFrom(fs, root, d, q);
  }

  /** `..` at the root, and skipped components anywhere, lead nowhere. */
  lemma NoStep(fs: Filesystem, root: Path, d: Path, c: string, q: Path)
    requires Plain(d) && LinkFree(fs, d)
    ensures Answer(fs, root, [".."] + q) == Answer(fs, root, q)
    ensures c == "" || c == "." ==> Answer(fs, root, d + [c] + q) == Answer(fs, root, d + q)
  {
    assert ([".."] + q)[1..] == q && ([c] + q)[1..] == q && d + [c] + q == d + ([c] + q);
    AnswerFrom(fs, root, d, [c] + q);
    AnswerFrom(fs, root, d, q);
  }

  /** The `i`-th link of a chain in the root directory: it points to the next. */
  function Rung(i: nat): string { seq(i + 1, _ => 'l') }

  function Ladder(n: nat): Filesystem {
    if n == 0 then Filesystem(map[], {})
    else Filesystem(Ladder(n - 1).links[[Rung(n - 1)] := PurePath(false, [Rung(n)])], {})
  }

  lemma {:induction false} RungLinks(n: nat, i: nat)
    ensures [Rung(i)] in Ladder(n).links <==> i < n
    ensures i < n ==> Ladder(n).links[[Rung(i)]] == PurePath(false, [Rung(i + 1)])
    ensures !Skipped(Rung(i)) && Rung(i) != ".."
  {
    assert Rung(i)[0] == 'l';
    if n > 0 {
      RungLinks(n - 1, i);
      assert i != n - 1 ==> |[Rung(i)][0]| != |[Rung(n - 1)][0]|;
    }
  }

  lemma {:induction false} Climb(n: nat, i: nat, links: nat)
    requires i <= n && links <= MAX_LINKS + 1
    ensures Walk(Ladder(n), [], [Rung(i)], links)
      == if links + (n - i) <= MAX_LINKS then Some(Walked([Rung(n)], links + (n - i))) else None
    decreases n - i
  {
    RungLinks(n, i);
    assert [Rung(i)][1..] == [] && [] + [Rung(i)] == [Rung(i)];
    if i < n && links <= MAX_LINKS {
      assert [Rung(i + 1)] + [] == [Rung(i + 1)];
      Climb(n, i + 1, links + 1);
    }
  }

  /** Forty links in a row are followed, and not one more. */
  lemma FortyLinks(root: Path, n: nat)
    ensures Answer(Ladder(n), root, [Rung(0)]) == if n <= 40 then Some(Walked(root + [Rung(n)], n)) else None
  {
    Climb(n, 0, 0);
  }

  /** `_soname_exists_under_root`: `exists` sees a link-free path, so it asks about the file itself. */
  method SonameExistsUnderRoot(fs: Filesystem, root: Path, soname: string, dirs: seq<PurePath>) returns (found: bool)
    ensures found <==> exists i :: 0 <= i < |dirs| && Provides(fs, root, dirs[i], soname)
  {
    for i := 0 to |dirs|
      invariant forall j :: 0 <= j < i ==> !Provides(fs, root, dirs[j], soname)
    {
      var candidate := ResolveInsideRootfs(fs, root, PurePath(dirs[i].absolute, dirs[i].parts + [soname]));
      if candidate.Some? && candidate.value[|root|..] in fs.files {
        return true;
      }
    }
    return false;
  }

  predicate Provides(fs: Filesystem, root: Path, dir: PurePath, soname: string) {
    var r := Resolved(fs, root, PurePath(dir.absolute, dir.parts + [soname]));
    r.Some? && r.value[|root|..] in fs.files
  }
}
