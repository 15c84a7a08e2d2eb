# Foundry tools: verified models

A Dafny model of the stateful cores of `foundry/tools`, with proofs of what they promise.

| module | what it models |
|---|---|
| `LeakSweep` | the search for leaked path tokens in a stream of arbitrary chunks, against the search of the whole buffer |
| `Digraph`, `BuildGraph` | the name-sorted topological order of the build graph, and the entries emitted from it |
| `PlanKeys` | the round-based fixpoint that computes Merkle keys of committed plans |
| `RootfsResolver` | path resolution inside a root file system, with links followed from the root again |
| `BuildArtifacts` | the fold of build-event records into an artifact inventory, and the checks on it |
| `DevRepoGuard` | the depth-first walk from exported toolchain registrations to dev-only repositories |
| `Estate`, `BcrMirror`, `InputStore`, `EstateRuns` | files at digest-named paths, the registry mirror, the store of pinned inputs, and any interleaving of their operations |
| `BuildReport`, `BuildSession`, `Recovery` | the durable session, its crash points, and the recovery of a run that died |
| `BuildVariants` | the runner and what every handled end of a run leaves behind |
| `Common`, `Names` | bytes, optional values, the order of names and the stable sort |

Loops, dictionaries and objects of the source are loops, maps and classes here, each
proved against a specification that is stated without them: sets of occurrences,
cycles and walks, a recursive key, a reference resolver, sets of records, reachability,
replay of a log.

How the surroundings are modelled:

- Bytes are sequences, a reader is any sequence of non-empty chunks, a file system is a
  map. SHA-256, the JSON codec, URL file names, identifier extraction and name
  normalisation are function parameters. A hash is assumed injective only where a
  theorem says so (`Injective`, `CollisionFree`, `Preimage`).
- A stage is a step with an undetermined end, and how downloads end and what records and
  output tree a build leaves are arbitrary parameters. The estate lock is exclusive use.
- The state directory records every durable state it goes through; a crash leaves one of
  them. Appending one event line, replacing a summary and replacing latest.json are the
  atomic steps.

Four results are worth knowing when changing the code:

- `acquire` does not check pinned sizes of files that are already there, and lets a later
  row overwrite an earlier one at the same path. `verify` accepts what it built exactly
  when rows sharing a path ask for the same contents and every pinned size is 0 or true
  (`BcrMirror.VerifyAcceptsIffSatisfiable`, with `BcrMirror.WrongSizeSlipsThrough` as an
  example).
- `topo_order` reports a cycle also when node hashes repeat; without repeated hashes the
  report is exact.
- The line that recovery appends to a log carries no sequence number, so numbering
  without gaps holds for the lines of the session itself.
- A recovery that dies after it has replaced the summary is never taken up again, so
  latest.json can go on showing a running run, and the result text stay unwritten
  (`Recovery.RecoveryCompletes` says exactly when).

## Model

The main results come first and are marked; below them are the operations and lemmas
they rest on, module by module.

| member | source | states |
|---|---|---|
| `LeakSweep.ScanBothWays` | foundry/tools/leak_sweep.py:128-230 | **Main.** The streaming and the whole-buffer scan of the same bytes report the same (token, offset) pairs equally often, and every streamed context is a suffix of the context the whole-buffer scan reports for that hit, complete from the token on. |
| `LeakSweep.ScanStream` | foundry/tools/leak_sweep.py:160-200 | **Main.** However the stream is cut into non-empty chunks, every occurrence of every token, overlapping ones and those across a cut included, is reported exactly as often as it occurs; each context is the whole-buffer context with at most bytes to the left of the token cut off; what is held back after each read is exactly the last `keep` bytes read so far. |
| `BuildGraph.TopoOrder` | foundry/tools/build_graph.py:134-170 | **Main.** Fails exactly when hashes repeat or the in-graph dependency relation has a cycle (self-loops included, repeated edges and foreign dependencies allowed); otherwise returns every node once, dependencies first, always taking an available node of the smallest name, and with distinct names the least such order by name. |
| `BuildGraph.OrderIgnoresInputOrder` | foundry/tools/build_graph.py:134-170 | **Main.** Two rearrangements of a node list with distinct hashes and names get the same order. |
| `PlanKeys.ComputeSnapshot` | foundry/tools/plan_key_snapshot.py:543-577 | **Main.** With distinct package keys: a snapshot results exactly when no plan is faulty and the plan relation is acyclic; every package is then the hash of its plan's inputs under the snapshot's own keys; the unresolved error occurs only with a cycle and lists exactly the plans that can reach one; any other error means a faulty plan. |
| `PlanKeys.SnapshotKeyIsRecursive` | foundry/tools/plan_key_snapshot.py:379-409 | **Main.** Every key of a snapshot equals the recursive definition: own inputs together with the recursive keys of the linked plans. |
| `PlanKeys.PassIsChainLength` | foundry/tools/plan_key_snapshot.py:548-570 | **Main.** A key is computed in pass n exactly when the longest chain of plan dependencies below it has n-1 links. |
| `PlanKeys.SnapshotIgnoresEnumeration` | foundry/tools/plan_key_snapshot.py:204-205 | **Main.** The keys do not depend on the order in which plan files are enumerated. |
| `PlanKeys.EqualKeysBindInputs` | foundry/tools/plan_key_snapshot.py:379-409 | **Main.** With an injective hash, equal keys in two repositories, each with its own plans and its own files behind the manifest labels, force equal inputs of the package and of every committed plan it transitively depends on. |
| `PlanKeys.EqualKeysBindOwnRecords` | foundry/tools/plan_key_snapshot.py:307-374 | **Main.** So the records of the plan file, schema, sources, patches, inputs, executors, root file system and wrappers are the same in both repositories, for the package and for every committed plan it transitively depends on. |
| `PlanKeys.KeyHashesRecords` | foundry/tools/plan_key_snapshot.py:307-541 | **Main.** A key hashes the plan's own records, then one record per dependency in the order of names, with its own name and target, the key computed for the plan it matches or else its pinned key, and its manifest with the file's digest, then the wrapper records, and nothing else. |
| `PlanKeys.FaultFreeMeans` | foundry/tools/plan_key_snapshot.py:282-400 | **Main.** Acyclic plans of distinct keys have a snapshot exactly if each is valid, no dependency matches two plans, and every key pinned for a committed plan is a placeholder or that plan's recursive key. |
| `RootfsResolver.ResolveInsideRootfs` | foundry/tools/relocatability_guard.py:254-283 | **Main.** Restarting at the root after every link answers what the reference resolver answers that keeps the resolved prefix, `None` after more than 40 followed links included; it ends on every link graph, and each link lookup has a link-free parent. |
| `RootfsResolver.ResolutionIsSafe` | foundry/tools/relocatability_guard.py:254-283 | **Main.** The result lies under the root, has no `..` and no link at any prefix, and resolves to itself. |
| `RootfsResolver.LinkLeadsToTarget` | foundry/tools/relocatability_guard.py:269-280 | **Main.** A component that is a link stands for its target, seen from the directory that holds it when relative and from the root when absolute, and costs one of forty links; the answer is otherwise the same, `None` included. |
| `BuildArtifacts.BuildEventArtifacts` | foundry/tools/build_artifacts.py:94-154 | **Main.** Succeeds exactly when all records are well formed and no two of one path contradict each other; then lists exactly the entries that the set of records determines, one per path, in the order of their last path components. |
| `BuildArtifacts.BuildTwice` | foundry/tools/build_artifacts.py:102-154 | **Main.** Success and the entries are the same for any order and repetition of the same records. |
| `DevRepoGuard.FindViolations` | foundry/tools/module_boundary_dev_repo_guard.py:212-241 | **Main.** A violation for a registration and a repository exists exactly when the registration reaches that dev-only repository; every path is genuine. |
| `BcrMirror.AcquireVerifyReacquire` | foundry/tools/bcr_mirror.py:308-420 | **Main.** From any starting estate: acquire succeeds over the network if every row can be had; after a successful acquire, verify accepts if and only if rows sharing a path ask for the same contents and every pinned size is 0 or true; then a later offline acquire succeeds, whatever the repository and the network serve by then, and leaves every registry, original, archive and cache file as it was. |
| `EstateRuns.RunAll` | foundry/tools/build_variants.py:86-160 | **Main.** Any sequence of acquiring the mirror, seeding the cache, installing and preparing assets on one estate, whichever calls fail: over every stretch of it no correct digest-named file becomes incorrect and every newly written one is correct; and what a successful call has stored is still correct at the end. |
| `InputStore.InputStore.InstallThenFind` | foundry/tools/build_inputs.py:333-376 | **Main.** Install succeeds exactly if the source has the pinned digest and no other file is in the way in the distdir; after success a find answers with bytes of the pinned digest. |
| `BuildSession.Session.LogEvent` | foundry/tools/build_session.py:223-235 | **Main.** Appends the next sequence number; the log then tells the old story with the event applied, and the new durable state is crash consistent. |
| `Recovery.SessionCrashRecovered` | foundry/tools/build_session.py:120-165 | **Main.** For every state a session's disk went through since its first write of latest.json, and any number of recoveries from it that died anywhere: once nothing is left to do, the summary is the abandoned report, and tells what the log with all closing lines tells, without at most the one event the session had not summarized. |
| `Recovery.RecoveryCompletes` | foundry/tools/build_session.py:153-165 | **Main.** A recovery that died after replacing the summary is never taken up again: latest.json shows the abandoned report exactly if the last attempt reached its fourth write, the result text exactly if it reached its third, unless they did before; while latest.json shows a running run, all three agree exactly if the last attempt finished. |
| `BuildVariants.Runner.RunToEnd` | foundry/tools/build_variants.py:309-364 | **Main.** Every handled end, interrupts between calls included, leaves no running variant: built means all planned variants built from good builds with good artifacts, prepared all skipped, failed or interrupted a built prefix, at most one variant with the run's status and then pending ones; the run is interrupted exactly if an interrupt ended it, and its error and exit code are those of the cause; when nothing outside goes wrong and all builds are good, it ends built or prepared; every durable state since the start is in the history and crash consistent, and no other run is touched. |
| `LeakSweep.ScanMmap` | foundry/tools/leak_sweep.py:128-157 | The plain search reports, token by token and in ascending order, all occurrences with their full context. |
| `LeakSweep.ScanBufferRegion` | foundry/tools/leak_sweep.py:203-230 | Reports exactly the occurrences in the window that start below the limit, at absolute offsets. |
| `LeakSweep.WholeScanIsExact` | foundry/tools/leak_sweep.py:141-157 | The whole-buffer report counts each occurrence of each token once per listed token, and nothing else. |
| `LeakSweep.DistinctNamesOccurOnce` | foundry/tools/leak_sweep.py:85-86 | For a list of distinct tokens an occurrence counts once, so the scans report it exactly once. |
| `LeakSweep.RoundExtendsReport` | foundry/tools/leak_sweep.py:174-190 | One round extends a complete report below `base` to a complete report below the new base: nothing is lost or doubled at a chunk boundary. |
| `LeakSweep.StreamedContextIsSuffix` | foundry/tools/leak_sweep.py:105-125 | A hit whose left context was cut is still reported by the whole-buffer scan, with a context that ends in the streamed one. |
| `LeakSweep.PrintableContext` | foundry/tools/leak_sweep.py:89-102 | The printed context is the character-by-character rendering of the bytes (and rendering distributes over concatenation). |
| `LeakSweep.PrintableByteShows` | foundry/tools/leak_sweep.py:89-102 | Printable ASCII shows as itself, tab, newline and carriage return as escapes, every other byte as its two hexadecimal digits. |
| `LeakSweep.WindowShowsMatch` | foundry/tools/leak_sweep.py:116-124 | The context of a match is the match with as many bytes on each side as asked for and available. |
| `LeakSweep.TokenHitsAscend` | foundry/tools/leak_sweep.py:141-157 | The hits of a token carry its name and come in ascending order. |
| `LeakSweep.RegionConcat` | foundry/tools/leak_sweep.py:141-157 | The hits of the tokens follow one another in the order of the tokens. |
| `LeakSweep.CountIsNumber` | foundry/tools/leak_sweep.py:141-157 | Reports are compared by the number of hits of each token at each offset. |
| `BuildGraph.GreedyIsLeast` | foundry/tools/build_graph.py:157-167 | Always taking an available node of the smallest name gives the lexicographically least of all topological orders. |
| `BuildGraph.LeastIsUnique` | foundry/tools/build_graph.py:134-170 | There is only one least topological order. |
| `BuildGraph.InputOrderIsIrrelevant` | foundry/tools/build_graph.py:142-155 | Rearranging the node list changes neither the graph, nor whether hashes are distinct, nor any node's name. |
| `BuildGraph.OrderedIsAcyclic` | foundry/tools/build_graph.py:168-169 | A graph that has a topological order has no cycle. |
| `BuildGraph.KahnEnds` | foundry/tools/build_graph.py:159-170 | When nothing is ready, the order is complete exactly if hashes are distinct and the graph is acyclic. |
| `BuildGraph.LeftoverIsStuck` | foundry/tools/build_graph.py:159-169 | Nodes left over when nothing is ready all wait for one another, so a cycle exists among them. |
| `BuildGraph.InDegreeDrops` | foundry/tools/build_graph.py:162-165 | Counting down one entry per parallel edge removes exactly the edges from the finished node. |
| `BuildGraph.OrderMeans` | foundry/tools/build_graph.py:145-165 | An order of the graph lists exactly the nodes' hashes, once each, and every node after each node that one of its dependency entries names. |
| `BuildGraph.CyclicMeans` | foundry/tools/build_graph.py:145-169 | The relation has a cycle exactly if there are nodes each of which has an entry for the next, and the last for the first. |
| `BuildGraph.GreedyMeans` | foundry/tools/build_graph.py:153-167 | The node placed next is first by name of all nodes not placed yet whose in-graph dependencies are placed. |
| `BuildGraph.EntriesNameDependencies` | foundry/tools/build_graph.py:206-229 | An entry lists every dependency of its node, under the name of the node of that hash if there is one, else under the name the dependency gives. |
| `BuildGraph.BuildEntries` | foundry/tools/build_graph.py:182-232 | Succeeds exactly for distinct hashes, an acyclic graph and valid overrides; the emitted entries are then numbered from zero, one per node, list each node's dependencies sorted by name, and every in-graph dependency has an entry with a smaller index. |
| `Digraph.StuckReachesCycle` | foundry/tools/build_graph.py:168-169 | From every node of a set whose nodes all point into the set, a cycle can be reached. |
| `PlanKeys.MerkleIsUnique` | foundry/tools/plan_key_snapshot.py:535-541 | At most one assignment of keys satisfies the hash equations on acyclic plans. |
| `PlanKeys.FaultsIgnoreEnumeration` | foundry/tools/plan_key_snapshot.py:543-577 | Neither does whether a snapshot exists at all. |
| `PlanKeys.EqualKeysBindManifests` | foundry/tools/plan_key_snapshot.py:400-409 | In particular every manifest file a dependency names has the same digest in both repositories. |
| `PlanKeys.RecordBindsKey` | foundry/tools/plan_key_snapshot.py:384-400 | A dependency record that names a matched plan carries that plan's computed key, whatever key was pinned. |
| `PlanKeys.OwnRecordsHashed` | foundry/tools/plan_key_snapshot.py:307-374 | The records of a package that are not of dependencies are its plan's own and wrapper records, in order; it has one further record per dependency. |
| `PlanKeys.PinsAgree` | foundry/tools/plan_key_snapshot.py:384-394 | In a snapshot a key pinned for a committed plan is a placeholder or the computed key, and only one plan matches. |
| `PlanKeys.PackageKeyForPlan` | foundry/tools/plan_key_snapshot.py:282-541 | Rejects a plan exactly when it is invalid, a dependency matches several plans, or a pinned key differs from the computed one; otherwise hashes the specified input list. |
| `PlanKeys.MissingKeys` | foundry/tools/plan_key_snapshot.py:553-566 | Without an ambiguous dependency, no key is missing exactly when every linked plan has a computed key. |
| `PlanKeys.MatchesFound` | foundry/tools/plan_key_snapshot.py:241-267 | A dependency matches exactly the indexed keys of its profile and line whose package is one of its identifiers, raw or normalized. |
| `PlanKeys.MatchesByName` | foundry/tools/plan_key_snapshot.py:241-267 | A dependency matches the plans of its own profile and line whose package it goes by, as written or normalized, unless its manifest label is neither a plan nor an action. |
| `PlanKeys.PackageKeyNames` | foundry/tools/plan_key_snapshot.py:215-217 | Two plans have the same package key exactly if profile, line and package agree. |
| `PlanKeys.ResolvesIffNoChain` | foundry/tools/plan_key_snapshot.py:548-570 | A plan resolves within n passes exactly if no chain of dependencies below it has n links. |
| `PlanKeys.ResolvesIffNoCycle` | foundry/tools/plan_key_snapshot.py:571-573 | A plan resolves in some pass exactly if it cannot reach a cycle. |
| `PlanKeys.RecursiveKeyIsStable` | foundry/tools/plan_key_snapshot.py:535-541 | The recursive key does not depend on the number of passes allowed. |
| `PlanKeys.PassEnds` | foundry/tools/plan_key_snapshot.py:551-570 | A pass over the pending plans computes exactly those that one more link allows, correctly, and leaves the others in order. |
| `PlanKeys.NoProgress` | foundry/tools/plan_key_snapshot.py:548-573 | When a pass computes nothing, the pending plans are exactly those that can reach a cycle. |
| `RootfsResolver.FortyLinks` | foundry/tools/relocatability_guard.py:271-273 | Forty links in a row are followed, and not one more. |
| `RootfsResolver.RestartIsHarmless` | foundry/tools/relocatability_guard.py:272-280 | Putting the resolved prefix back in front of the pending components and starting over changes nothing. |
| `RootfsResolver.ParentUndoesStep` | foundry/tools/relocatability_guard.py:264-267 | `..` undoes a component that is no link. |
| `RootfsResolver.NoStep` | foundry/tools/relocatability_guard.py:262-267 | `..` at the root and empty or `.` components anywhere lead nowhere. |
| `RootfsResolver.LinkFreeAnswer` | foundry/tools/relocatability_guard.py:282-283 | A path without links, `..` or skipped components leads to itself. |
| `RootfsResolver.WalkEndsLinkFree` | foundry/tools/relocatability_guard.py:258-283 | Every walk ends in a plain path none of whose prefixes is a link, within the link budget. |
| `RootfsResolver.WalkComposes` | foundry/tools/relocatability_guard.py:258-283 | Resolving a path in two parts, the second from where the first leads and with the links it left, is resolving it whole. |
| `RootfsResolver.LinkFreeResolvesToItself` | foundry/tools/relocatability_guard.py:258-283 | A link-free path resolves to itself without spending a link. |
| `RootfsResolver.BudgetOnlyCuts` | foundry/tools/relocatability_guard.py:271-273 | The link budget never changes where a successful walk ends. |
| `RootfsResolver.SonameExistsUnderRoot` | foundry/tools/relocatability_guard.py:286-291 | True exactly when some directory, resolved together with the soname, leads to an existing file. |
| `BuildArtifacts.KnownIsKept` | foundry/tools/build_artifacts.py:117-149 | Further records never erase a declared length or a digest. |
| `BuildArtifacts.DescriptionIsUnique` | foundry/tools/build_artifacts.py:102-154 | Consistent records determine at most one entry per path. |
| `BuildArtifacts.AcceptsIffConsistent` | foundry/tools/build_artifacts.py:128-142 | The checks against the two dictionaries accept a record exactly when it contradicts none seen before. |
| `BuildArtifacts.ArtifactSizeMismatches` | foundry/tools/build_artifacts.py:23-34 | Lists exactly, in order, the entries whose recorded size is not the size on disk; an entry without a size is skipped, an unreadable file with a recorded size is an error. |
| `BuildArtifacts.MissingWheelTargets` | foundry/tools/build_artifacts.py:37-59 | Lists exactly, in order and as often as requested, the targets without an artifact inside `<package>/<name>_wheelhouse`, there or below `bazel-out/<configuration>/bin`. |
| `BuildArtifacts.CoveredIff` | foundry/tools/build_artifacts.py:47-58 | A target is covered exactly if some artifact's path is that of a file in its wheelhouse directory, with or without the three leading components of Bazel's output tree. |
| `BuildArtifacts.ChecksFindGoodBuilds` | foundry/tools/build_variants.py:179-210 | The inventory of consistent records passes all checks exactly if there are records, every recorded wheel is on disk with the length its records declare, and every target has one. |
| `BuildArtifacts.UncoveredConcat` | foundry/tools/build_artifacts.py:54-58 | Targets are looked at one after the other. |
| `DevRepoGuard.WalkRegisteredTarget` | foundry/tools/module_boundary_dev_repo_guard.py:172-209 | For every target graph, cyclic ones included, reports exactly the dev-only repositories reachable from the registration, each with a path that spells a genuine chain of target references. |
| `DevRepoGuard.ReachableIsReported` | foundry/tools/module_boundary_dev_repo_guard.py:181-206 | The shared `seen` set hides nothing: when every seen target is done, every reachable dev-only repository has been reported. |
| `DevRepoGuard.LabelNamesTarget` | foundry/tools/module_boundary_dev_repo_guard.py:121-130 | `:name` is a target of the mentioning package, `//package:name` of the package it names. |
| `DevRepoGuard.LabelWithoutName` | foundry/tools/module_boundary_dev_repo_guard.py:126-132 | `//directory/base` stands for `//directory/base:base`. |
| `DevRepoGuard.ForeignLabel` | foundry/tools/module_boundary_dev_repo_guard.py:120-133 | All other labels name no target of the workspace. |
| `DevRepoGuard.ReposExact` | foundry/tools/module_boundary_dev_repo_guard.py:14 | A label names exactly the repositories that stand in it as `@name//`. |
| `DevRepoGuard.RouteReadsBack` | foundry/tools/module_boundary_dev_repo_guard.py:136-137 | The label a path shows for a target leads back to that target. |
| `DevRepoGuard.LookupMeans` | foundry/tools/module_boundary_dev_repo_guard.py:160-169 | A package's targets are those of its BUILD.bazel file, or of its BUILD file if there is no other. |
| `DevRepoGuard.Walker.Visit` | foundry/tools/module_boundary_dev_repo_guard.py:183-206 | A visit leaves its target seen, every newly seen target done, earlier reports in place and every report witnessed. |
| `DevRepoGuard.TargetIndex.Get` | foundry/tools/module_boundary_dev_repo_guard.py:155-169 | The cached index answers what parsing the package would answer. |
| `DevRepoGuard.DevOnlyRepositories` | foundry/tools/module_boundary_dev_repo_guard.py:89-106 | A repository is dev-only exactly when it is declared and no declaration in the module file is a non-dev one. |
| `BcrMirror.Acquire` | foundry/tools/bcr_mirror.py:308-394 | From any starting estate succeeds over the network if the repository or the network serves every row bytes of its digest and pinned size, and those of each source.json row parse and have an archive row, which for source.json rows is also necessary; on success every row is stored, and published unless a later row took its path, and the counts are the numbers of rows of each sort; on success or failure no correct digest-named file is spoilt; over a complete estate an offline run succeeds and changes no contents. |
| `BcrMirror.VerifyMirror` | foundry/tools/bcr_mirror.py:401-420 | Accepts exactly the estates in which every row passes its check, and writes nothing. |
| `BcrMirror.VerifyAcceptsIffSatisfiable` | foundry/tools/bcr_mirror.py:308-420 | What acquire built is accepted if and only if the manifest is satisfiable. |
| `BcrMirror.VerifiedIsSatisfiable` | foundry/tools/bcr_mirror.py:401-420 | Verify accepts no estate at all for a manifest whose rows fight over a path or pin a false size. |
| `BcrMirror.SameDigestSameDemand` | foundry/tools/bcr_mirror.py:126-151 | Agreement on the digest is enough for rows that share a destination. |
| `BcrMirror.WrongSizeSlipsThrough` | foundry/tools/bcr_mirror.py:263-266 | An estate and a manifest for which an offline acquire succeeds and verify fails: acquire does not notice a wrong pinned size on a file of the right digest that is already there. |
| `BcrMirror.RewriteIsLocal` | foundry/tools/bcr_mirror.py:175-186 | A document has a rewrite exactly if it parses; the rewrite names the local archive where the original named its archives, has no mirrors, and keeps everything else. |
| `BcrMirror.SharedPathKind` | foundry/tools/bcr_mirror.py:126-151 | Rows of one registry path are all source.json rows of one module version, or none is. |
| `BcrMirror.SyntheticIsNoRow` | foundry/tools/bcr_mirror.py:279-305 | Synthetic metadata never takes the path of a manifest row. |
| `BcrMirror.AcquireSource` | foundry/tools/bcr_mirror.py:346-368 | A source.json row ends stored and published; over the network it succeeds exactly if its bytes are served, parse and have an archive row; offline, a published one is accepted unchanged. |
| `BcrMirror.Materialize` | foundry/tools/bcr_mirror.py:251-276 | Succeeds exactly if the file has the pinned digest already or the right bytes are served; then keeps it or replaces it by those; touches no other file. |
| `BcrMirror.FetchIffServed` | foundry/tools/bcr_mirror.py:228-248 | Bytes are fetched exactly if the repository, or the permitted network, serves them with the row's digest and pinned size. |
| `BcrMirror.BuiltMeans` | foundry/tools/bcr_mirror.py:330-392 | What acquire built, row by row: archives, originals and cache entries of the pinned digests, and the registry file of each path's last row. |
| `BcrMirror.ArchiveRowIsLast` | foundry/tools/bcr_mirror.py:323-327 | The archive of a module version is the last one listed, and there is none only if none is listed. |
| `BcrMirror.SharePathMeans` | foundry/tools/bcr_mirror.py:126-151 | Rows share a registry path exactly if kind, module and version agree, and for patches and overlays the file name. |
| `BcrMirror.WriteSyntheticMetadata` | foundry/tools/bcr_mirror.py:279-305 | Each module without explicit metadata gets its synthetic file; rewriting it changes nothing. |
| `BcrMirror.SyntheticLists` | foundry/tools/bcr_mirror.py:279-305 | A synthetic metadata file lists, sorted and once each, the versions of the module's MODULE.bazel rows. |
| `Estate.RunsAreSafe` | foundry/tools/bcr_mirror.py:189-225 | Over any stretch of a run whose every step is safe, failed steps included, no correct digest-named file becomes incorrect and every newly written one is correct. |
| `Estate.SafeStores` | foundry/tools/bcr_mirror.py:189-225 | Safety speaks of originals, archives, the repository cache and completed downloads. |
| `Estate.Store.CopyVerifiedArchive` | foundry/tools/bcr_mirror.py:189-206 | Installs exactly the bytes with the pinned digest, and otherwise leaves everything as it was. |
| `Estate.Store.SeedRepositoryCache` | foundry/tools/bcr_mirror.py:209-225 | Leaves the cache entry correct, replacing it only when it was not, with a marker file for every identifier; marker files aside nothing else changes. |
| `EstateRuns.AchievedLasts` | foundry/tools/bcr_mirror.py:189-225 | The correct digest-named files a successful call left outlast every safe step of others. |
| `InputStore.InputStore.FindAsset` | foundry/tools/build_inputs.py:333-360 | Returns a candidate whose bytes have the pinned digest, and nothing only if no candidate has; distdirs are a last resort; partial downloads are never candidates. |
| `InputStore.InputStore.AtHandMeans` | foundry/tools/build_inputs.py:333-360 | The bytes are at hand exactly if they lie in the repository cache, among the completed downloads, or in a distdir under a name of the asset, in the estate or the seed. |
| `InputStore.InputStore.Install` | foundry/tools/build_inputs.py:362-376 | Fails exactly on a wrong source or a conflicting distdir file; on success the cache entry and the distdir file have the pinned digest. |
| `InputStore.InputStore.AttemptDownload` | foundry/tools/build_variants.py:109-152 | An attempt acquires exactly if the command passes and leaves bytes of the pinned digest, and only then publishes them; a failed command or wrong bytes pass on to the next URL; the partial file is always removed. |
| `InputStore.InputStore.PrepareAsset` | foundry/tools/build_variants.py:86-160 | Succeeds exactly if the bytes are at hand, or fetching is allowed and some URL delivers them before any attempt ends in an error, and no other file is in the way; then the cache entry is correct; no correct digest-named file is spoilt, no partial file is left, and without fetching nothing changes when nothing is found. |
| `BuildSession.Session.constructor` | foundry/tools/build_session.py:185-221 | A new run starts settled: log, summary, latest.json and report agree, and every durable state so far is crash consistent. |
| `BuildSession.Session.Save` | foundry/tools/build_session.py:237-244 | Replaces the summary, then latest.json; both steps are crash consistent, the run is settled afterwards, and latest.json never stops naming a run it has named. |
| `BuildSession.Session.SetPhase` | foundry/tools/build_session.py:246-252 | Changes the phase only; settled again, every intermediate durable state crash consistent. |
| `BuildSession.Session.BeginVariant` | foundry/tools/build_session.py:255-266 | Marks the first matching variant running and nothing else; settled again. |
| `BuildSession.Session.EndVariant` | foundry/tools/build_session.py:268-295 | Marks the variant built, or failed or interrupted with its error; settled again. |
| `BuildSession.Session.Stage` | foundry/tools/build_session.py:329-411 | Adds one finished stage record of that name, line and profile, failed if the command could not run or exited with a positive code, interrupted if it was cancelled or killed, passed otherwise, or adds none when the checkout had changed; a failed record raises a stage failure, an interrupted one an interrupt, a passed one nothing unless the checkout changed meanwhile; settled again. |
| `BuildSession.Session.Finish` | foundry/tools/build_session.py:297-321 | Closes run and variants as the final status demands and writes the result; settled again. |
| `BuildSession.LogKeepsConsistent` | foundry/tools/build_session.py:223-244 | From a state in which log and summary agree, appending an event leaves the log exactly one event ahead, numbered without gaps. |
| `BuildSession.SummaryShowsLog` | foundry/tools/build_session.py:223-321 | When log and summary agree, the summary shows the status, phase and current stage given by the last events of each sort, and one stage record per stage started, in order. |
| `BuildSession.SummaryShowsVariant` | foundry/tools/build_session.py:254-295 | ... and for every planned variant the status given by its last event while the run goes on. |
| `BuildSession.FinishLeaves` | foundry/tools/build_session.py:299-308 | Finishing a prepared run skips what is pending, finishing a failed or interrupted one gives its status to what is running, and nothing else changes. |
| `BuildSession.SameMatch` | foundry/tools/build_session.py:258-262 | Changing a variant's status does not change which variant a line and profile name. |
| `BuildReport.LatestReport` | foundry/tools/build_report.py:88-122 | Selects the run that latest.json names if its summary exists, otherwise the first existing one in the given order. |
| `BuildReport.SelectedIsFirst` | foundry/tools/build_report.py:88-117 | The run latest.json names is selected if it has a summary, otherwise the first in time that has one, and none only if none has. |
| `BuildReport.PointerCounts` | foundry/tools/build_report.py:125-144 | latest.json counts, for each status that occurs, the variants that have it. |
| `Recovery.AbandonStaleRun` | foundry/tools/build_session.py:120-165 | Acts exactly on a selected running report below the state root and refuses exactly a selected running one outside; its four writes, in order, are the only durable changes. |
| `Recovery.NothingLeftRunning` | foundry/tools/build_session.py:138-152 | The abandoned report has no running stage or variant, and records that were terminal or pending are unchanged. |
| `Recovery.CrashThenRecover` | foundry/tools/build_session.py:120-165 | From a crash-consistent state whose latest.json names the run, recovery selects that run and writes the replay of its log closed by the abandonment, without at most the one event the crash cut off from the summary. |
| `Recovery.RecoveryMayCrash` | foundry/tools/build_session.py:153-165 | A recovery that dies at any of its writes leaves a state from which recovery can start again, towards the same report. |
| `Recovery.RecoveryConverges` | foundry/tools/build_session.py:120-165 | A recovery with nothing to do finds the summary abandoned; after a completed one there is nothing to do, in whatever order runs are seen. |
| `Recovery.CrashedRecoveries` | foundry/tools/build_session.py:120-165 | After any number of recoveries of a run, each of which may die at any of its writes, latest.json still selects the run, its summary is the original or the abandoned report, the log has gained exactly one line per attempt, and no other run has changed. |
| `Recovery.CrashesThenRecovered` | foundry/tools/build_session.py:120-165 | The same after any number of recoveries that died: once nothing is left to do, the summary is the abandoned report and the replay of the log with all closing lines. |
| `Recovery.RecoverSession` | foundry/tools/build_session.py:120-165 | Recovery started on any such state acts exactly if the run was still running, and then leaves log, summary, result and latest.json of the abandoned report, which tells what the closed log tells; no other run changes. |
| `Recovery.RecoverTwice` | foundry/tools/build_session.py:120-165 | A second call returns nothing and writes nothing. |
| `BuildVariants.Runner.Execute` | foundry/tools/build_variants.py:73-84 | Success means all variants built, or none started when only preparing; an error leaves the variants stopped at some point of the plan with the status the error calls for. |
| `BuildVariants.Runner.BuildVariant` | foundry/tools/build_variants.py:162-210 | Success extends the built prefix by one; an error leaves this variant with the status and message of the error, never pending, and the later ones pending. |
| `BuildVariants.Runner.InspectBuild` | foundry/tools/build_variants.py:179-210 | Passes exactly if the build's records are readable and consistent, there are some, every recorded wheel is on disk with the declared length, and every target has one; the artifacts recorded are then non-empty, present, size-matching and cover every target. |
| `BuildVariants.FinishKeepsShape` | foundry/tools/build_session.py:299-308 | Finishing a failed or interrupted run changes no variant, since none is running by then. |
| `BuildVariants.PlanIsDistinct` | foundry/tools/build_session.py:68-91 | The plan names each line and profile once. |
| `BuildVariants.PlanAt` | foundry/tools/build_session.py:77-91 | The plan lists the profiles of each line in order, line after line. |
| `Names.LeIsDictionaryOrder` | foundry/tools/build_graph.py:157 | Names are ordered as Python orders strings: a prefix comes first, otherwise the smaller character at the first difference decides. |
| `Names.SortIsStable` | foundry/tools/build_graph.py:157-167 | Sorting keeps the order of elements with equal keys. |

## Left out

- Subprocesses, wall-clock times, durations, log tails and console output.
- BuildVariants.Runner.RunToEnd: an interrupt is one of the ends a stage can have, or arrives between two calls of the runner; one that cuts an event off from its save is modelled only as a crash.
- Failing report writes in a session: events, summaries and latest.json are taken to be written. A torn last line of `events.jsonl` is not modelled either; a crash falls between writes.
- BuildVariants.Runner.PrepareAsset: the session sees the stages, saves and errors of preparing an asset; the files it writes are the subject of `InputStore.InputStore.PrepareAsset`.
- BuildReport.LatestReport: malformed summaries and latest.json files, which the source rejects with an error, and the choice by modification time, which is a given order here.
- LeakSweep.ScanBufferRegion: the path, member and kind of a hit, which are passed through unchanged, and the sweep over trees, links and archive members around the scanners.
- BuildGraph.BuildEntries: what the checks on native overrides look at (their outcome is a parameter), versions, build systems, prefixes, migration status and the histogram of an entry.
- PlanKeys.PackageKeyForPlan: schema validation and the digests of schema, rootfs, patches, inputs and executors are one flag, and the records they contribute are given lists; argv and environment of wrappers are fields of such records.
- PlanKeys.MatchesFound: how identifiers are cut out of labels and how names are normalised are parameters.
- RootfsResolver.SonameExistsUnderRoot: the root directory itself is taken to be reached without links; a soname is one path component, as its caller checks.
- DevRepoGuard.FindViolations: parsing of Starlark, and the sorting of the violations for display.
- BuildArtifacts.MissingWheelTargets: artifact paths are relative to the execution root, so the error for a path outside it does not arise.
- BuildArtifacts.BuildEventArtifacts: the JSON shape of an event and the safety checks on paths come before the records modelled here.
- BcrMirror.Acquire: manifest parsing, HTTP, and module names or versions that contain a slash; the order in which synthetic metadata files are written; a crash in the middle of a plain write of an original or a rewritten source.json.
- InputStore.InputStore.FindAsset: reading the pins from Starlark, JSON and archives (`selected_assets` and the functions below it).
- The regular-expression and text guards, ELF inspection, SBOM and release assembly, plan generation and command lines.
