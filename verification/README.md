# Jenkins release plugin — a Dafny model of its release planning

The Jenkins release plugin adds "minor release" and "major release" actions
to a Maven job. This project models the logic behind those actions. Each
piece is a pure Dafny function, and lemmas state what the plugin promises.

- **Reading the project.** The project is read from its root `pom.xml` and
  the `<modules>` it names. Each module is keyed `groupId:artifactId`.
- **Reverse index.** An index records which modules depend on each module.
- **Dependents closure.** The transitive closure of dependents is computed
  per module. Both versions are modelled: the recursion as written, and a
  corrected one.
- **Minor release.** For a minor release, the plugin gathers the modules
  the selection forgets: every transitive dependent of a selected module,
  and every ancestor of one in the `<parent>` chain. Then it either refuses
  the release, listing them, or adds them to the selection
  (`autoSelectMissingModules`). Finally it splits every module between
  release versions (the ones the user typed) and latest released versions
  (the ones the version handler reports).
- **Version handler.** The version handler derives the major line from
  the root version by cutting `-SNAPSHOT`. It asks the artifact registry for
  the newest release within `[major,next)` for every module. It answers
  current and next release versions, and `getNextVersion` bumps the last
  dot-separated number.
- **Maven command lines.** The two interceptor actions build the Maven
  command line. For a minor release it holds the tag, the tag format, a
  release/development pair per module, `-DignoreSnapshots=true`,
  `--projects` and the extra arguments. For a major release it holds
  batch mode, tag, release and development versions. Both end with
  `release:prepare release:perform`.

Modules:

- `Wrappers`: Option and Result.
- `Text`: Java string operations: trim, `indexOf`, `lastIndexOf`, the
  builder-style join, and split at one character.
- `JavaInt`: `Integer.valueOf` and decimal printing.
- `Poms`: Maven models, `parseMavenModel`, `prepareDependenciesMap`, the
  reverse index.
- `Closure`: `calculateDependencyClosure`, as written and corrected.
- `Versions`: `VersionHandler`.
- `Resolver`: the body of `doPerformMinorRelease`.
- `Commands`: the two `getGoalsAndOptions`.

Java `HashMap` iteration order is unspecified. Wherever the source iterates
over a map's keys, the model takes that order as a parameter `order` that
enumerates the key set exactly once. No property depends on it.

The artifact registry is a parameter, `Registry`. It is a function from a
module key and a version range to `Found(v)`, `NothingFound` or
`RequestFailed`. The file system is a parameter, `PomSource`. It maps paths
to parsed or malformed POMs and says how a module directory resolves to its
`pom.xml`.

## Where the code and its description differ (the model follows the code)

- **Missing modules.** They come out in discovery order, not sorted. First
  come the dependents, selection by selection. Then come the ancestors
  (`ReleaseBuildAction.java:272-308`).
- **Malformed child POM.** It aborts the whole parse. Its reading error is
  not caught inside `parseMavenModel`, so it reaches the catch-all of the
  action (`ReleaseBuildAction.java:392`, `370-372`).
- **Registry failures.** They are swallowed per module. Such a module
  counts as "not released" (`versions/VersionHandler.java:88-90`).
- **Auto-selected ancestors.** Their own dependents are not added. The
  final selection is closed under "dependents of a selected module" and
  "ancestors of a selected module" only for the modules selected by hand.
  `Resolver.SampleAutoSelected` shows a module that depends on an
  auto-selected parent and is still not released.
- **Command-line tokens.** The command line starts with a space. Split at
  single spaces, its first token is empty (`Commands.MinorGoalsTokens`).

## Model

| member | source | states |
|---|---|---|
| Poms.ParseModels | src/main/java/de/cware/plugins/jenkins/releases/ReleaseBuildAction.java:385-414 | every model in a successful parse is the content of some descriptor of the checkout and is stored under its own `groupId:artifactId`; the POM itself is parsed and its key present; a malformed POM fails with its path, and a malformed-POM failure always names a malformed descriptor of the checkout; a module nesting back onto an open POM is reported instead of recursing forever |
| Poms.MergeChildren | src/main/java/de/cware/plugins/jenkins/releases/ReleaseBuildAction.java:401-410 | merging child modules keeps every key already collected and keeps the models well keyed and taken from descriptors of the checkout; a malformed-POM failure names a malformed descriptor of the checkout |
| Poms.MergeFromSource | src/main/java/de/cware/plugins/jenkins/releases/ReleaseBuildAction.java:408 | `putAll` of one well-keyed map of checkout models into another gives a well-keyed map of checkout models |
| Poms.MergeChildrenCovers | src/main/java/de/cware/plugins/jenkins/releases/ReleaseBuildAction.java:401-410 | the loop succeeds only if every listed child whose `pom.xml` exists parses, and then holds every key of that child's result (`putAll`) |
| Poms.ParseModelsComplete | src/main/java/de/cware/plugins/jenkins/releases/ReleaseBuildAction.java:385-414 | a successful parse holds the key of every descriptor reached through existing child modules, which is therefore parsed; a reachable malformed descriptor fails the parse |
| Poms.ReachableExtend | src/main/java/de/cware/plugins/jenkins/releases/ReleaseBuildAction.java:401-408 | a descriptor reachable from a child module is reachable from its parent |
| Poms.MergeReachable | src/main/java/de/cware/plugins/jenkins/releases/ReleaseBuildAction.java:401-408 | merging a child's models into the parent's keeps every model taken from a descriptor reachable from the parent |
| Poms.ParseModelsSound | src/main/java/de/cware/plugins/jenkins/releases/ReleaseBuildAction.java:385-414 | every model of a successful parse is the content of a descriptor reachable from the starting POM |
| Poms.MergeChildrenSound | src/main/java/de/cware/plugins/jenkins/releases/ReleaseBuildAction.java:401-410 | merging the listed child modules adds only models of descriptors reachable from the parent POM |
| Poms.ParseProject | src/main/java/de/cware/plugins/jenkins/releases/ReleaseBuildAction.java:228 | parsing from the root POM yields well-keyed models containing the root module, or fails with the malformed root path |
| Poms.ParseProjectReachable | src/main/java/de/cware/plugins/jenkins/releases/ReleaseBuildAction.java:228 | a successful parse from the root POM holds exactly the modules whose descriptors are reachable through existing child modules, each with the content of such a descriptor; any reachable malformed descriptor makes the parse fail |
| Poms.ParseModelsFailure | src/main/java/de/cware/plugins/jenkins/releases/ReleaseBuildAction.java:385-414 | a failed parse names the end of a chain of existing child modules from the starting POM: either a malformed descriptor there, or a descriptor already open or already on the chain |
| Poms.MergeChildrenFailure | src/main/java/de/cware/plugins/jenkins/releases/ReleaseBuildAction.java:401-410 | a failed merge of child modules comes from one listed existing child, through a chain of existing child modules ending at a malformed descriptor or at a repeated one |
| Poms.ParseProjectSucceeds | src/main/java/de/cware/plugins/jenkins/releases/ReleaseBuildAction.java:228 | parsing from the root POM succeeds exactly when every reachable descriptor parses and no nesting chain from the root returns to a POM on it; a failure names a malformed reachable descriptor or a POM that repeats one earlier on its chain |
| Poms.FirstOccurrences | src/main/java/de/cware/plugins/jenkins/releases/ReleaseBuildAction.java:433-438 | removing repeated dependency keys keeps exactly the same keys and leaves no key twice |
| Poms.PrepareDependencies | src/main/java/de/cware/plugins/jenkins/releases/ReleaseBuildAction.java:425-442 | the loop yields the reference deduplication of the module's dependency keys: duplicate-free, with exactly the declared dependency keys, and empty for an unknown module |
| Poms.AddReferences | src/main/java/de/cware/plugins/jenkins/releases/ReleaseBuildAction.java:234-241 | adding one module's dependencies records that module as a referrer exactly of those dependencies that belong to the project, and of nothing else |
| Poms.ReverseIndex | src/main/java/de/cware/plugins/jenkins/releases/ReleaseBuildAction.java:231-242 | x is listed under d exactly when x is a project module and d is a project module among x's dependencies; only project modules get an entry |
| Poms.ReverseIndexIsDependsOn | src/main/java/de/cware/plugins/jenkins/releases/ReleaseBuildAction.java:231-242 | whatever key order the map iteration takes, y is a referrer of x exactly when y depends directly on x within the project |
| Closure.Explore | src/main/java/de/cware/plugins/jenkins/releases/ReleaseBuildAction.java:450-467 | the corrected traversal returns each key once, keeps what was already visited, covers everything to visit and is closed under referrers |
| Closure.DependentsClosure | src/main/java/de/cware/plugins/jenkins/releases/ReleaseBuildAction.java:450-467 | the dependents closure is duplicate-free, contains every direct referrer, is closed under referrers, and is empty for a module nobody references |
| Closure.ExploreLeast | src/main/java/de/cware/plugins/jenkins/releases/ReleaseBuildAction.java:450-467 | the traversal never leaves any referrer-closed set that contains its starting points |
| Closure.ClosureIsLeast | src/main/java/de/cware/plugins/jenkins/releases/ReleaseBuildAction.java:450-467 | the dependents closure is the least referrer-closed set containing the direct referrers, so it holds nothing that is not a transitive dependent |
| Closure.ClosureTransitive | src/main/java/de/cware/plugins/jenkins/releases/ReleaseBuildAction.java:455-462 | a dependent's dependents are dependents too: the closure of any member lies within the closure of the start |
| Closure.AppendAbsent | src/main/java/de/cware/plugins/jenkins/releases/ReleaseBuildAction.java:458-462 | appending the keys not yet present keeps the accumulated list as a prefix and adds exactly the new keys |
| Closure.AsWrittenClosure | src/main/java/de/cware/plugins/jenkins/releases/ReleaseBuildAction.java:450-467 | the recursion as written has no result once it reaches a module whose call is still open (it recurses without bound); a result holds at least one entry per direct referrer and starts with the first referrer |
| Closure.AsWrittenExpand | src/main/java/de/cware/plugins/jenkins/releases/ReleaseBuildAction.java:454-463 | the loop as written keeps what it accumulated as a prefix, appends the current referrer right after it, and grows by at least one entry per referrer, listed or not |
| Closure.AsWrittenWithin | src/main/java/de/cware/plugins/jenkins/releases/ReleaseBuildAction.java:450-467 | when the recursion as written terminates, its result stays inside every referrer-closed set holding the direct referrers |
| Closure.AsWrittenExpandWithin | src/main/java/de/cware/plugins/jenkins/releases/ReleaseBuildAction.java:455-463 | the loop over referrers as written stays inside every referrer-closed set holding its inputs |
| Closure.AsWrittenCovers | src/main/java/de/cware/plugins/jenkins/releases/ReleaseBuildAction.java:450-467 | when the recursion as written terminates, its result contains the direct referrers and is closed under referrers |
| Closure.AsWrittenExpandCovers | src/main/java/de/cware/plugins/jenkins/releases/ReleaseBuildAction.java:455-463 | the loop as written keeps the accumulated keys and the children, and each key it adds brings its referrers along |
| Closure.AsWrittenAgrees | src/main/java/de/cware/plugins/jenkins/releases/ReleaseBuildAction.java:450-467 | whenever the recursion as written terminates, it yields the same set of modules as the corrected closure |
| Closure.AsWrittenRepeatsKeys | src/main/java/de/cware/plugins/jenkins/releases/ReleaseBuildAction.java:456 | on a diamond (A referenced by B and C, B referenced by C) the recursion as written returns [B, C, C] with C twice, while the corrected closure returns [B, C] |
| Closure.DiamondAsWritten | src/main/java/de/cware/plugins/jenkins/releases/ReleaseBuildAction.java:454-462 | the recursion as written on the diamond, step by step, yields [B, C, C] |
| Closure.DiamondVisited | src/main/java/de/cware/plugins/jenkins/releases/ReleaseBuildAction.java:450-467 | any index shaped like the diamond gets the closure [B, C] from the corrected traversal |
| Closure.AsWrittenDivergesOnSelfDependency | src/main/java/de/cware/plugins/jenkins/releases/ReleaseBuildAction.java:454-457 | a module among its own referrers makes the recursion as written recurse without end, while the corrected closure returns that module |
| Resolver.AddMissing | src/main/java/de/cware/plugins/jenkins/releases/ReleaseBuildAction.java:275-279 | the missing list only grows, by exactly the candidates not selected, without repeating a key and without admitting a selected key |
| Resolver.AncestorWalk | src/main/java/de/cware/plugins/jenkins/releases/ReleaseBuildAction.java:287-306 | a completed walk lists the parent chain inside the project, stopping at the first parent outside it, with no key twice and none already seen |
| Resolver.Ancestors | src/main/java/de/cware/plugins/jenkins/releases/ReleaseBuildAction.java:284-307 | a module's ancestors form its in-project parent chain, without repetitions and without the module itself; a cyclic chain has no answer |
| Resolver.AncestorWalkComplete | src/main/java/de/cware/plugins/jenkins/releases/ReleaseBuildAction.java:287-306 | every duplicate-free in-project parent chain that avoids the keys already seen is exactly what the walk returns: the loop ends on every acyclic chain |
| Resolver.AncestorsComplete | src/main/java/de/cware/plugins/jenkins/releases/ReleaseBuildAction.java:284-307 | a module has ancestors exactly when its parent chain is finite (no repeat, no return to the module), and they are that chain |
| Resolver.WalkableIff | src/main/java/de/cware/plugins/jenkins/releases/ReleaseBuildAction.java:283-308 | the condition on which the parents loop succeeds is exactly "every selected key is a module with a finite parent chain" |
| Resolver.DependentsMissing | src/main/java/de/cware/plugins/jenkins/releases/ReleaseBuildAction.java:272-281 | after the dependents loop, the missing list holds exactly the transitive dependents of the selection that are not selected, each once |
| Resolver.AncestryMissing | src/main/java/de/cware/plugins/jenkins/releases/ReleaseBuildAction.java:283-308 | the parents loop succeeds exactly when every selected module is known and has a finite parent chain (`Walkable`, equal to that condition by `WalkableIff`); it then adds exactly the unselected ancestors; it fails on the first unknown selection (the source's null dereference) or cyclic chain |
| Resolver.ComputeMissing | src/main/java/de/cware/plugins/jenkins/releases/ReleaseBuildAction.java:271-308 | the missing modules are exactly the required modules (dependents and ancestors of the selection) outside the selection, each once; it succeeds exactly when every selected key is a module with a finite parent chain (`Walkable`, see `WalkableIff`); failure names a selected module |
| Resolver.Decide | src/main/java/de/cware/plugins/jenkins/releases/ReleaseBuildAction.java:310-329 | nothing missing keeps the selection; missing modules are appended under auto-select and otherwise refused with a comma list that splits back to the missing modules |
| Resolver.SplitVersions | src/main/java/de/cware/plugins/jenkins/releases/ReleaseBuildAction.java:331-344 | the split succeeds exactly when every project module is a job module and every final module has a requested version; then the two maps partition the project, releases carry the requested versions and the rest the handler's current release version |
| Resolver.Resolve | src/main/java/de/cware/plugins/jenkins/releases/ReleaseBuildAction.java:271-344 | a refusal only happens without auto-select, and a scheduled release releases every selected module |
| Resolver.MinorRelease | src/main/java/de/cware/plugins/jenkins/releases/ReleaseBuildAction.java:228-344 | the whole minor-release planning refuses only without auto-select and, when it schedules, releases every selected module |
| Resolver.ReverseIndexWithin | src/main/java/de/cware/plugins/jenkins/releases/ReleaseBuildAction.java:231-242 | the reverse index mentions only project modules, as keys and as referrers |
| Resolver.RequiredInProject | src/main/java/de/cware/plugins/jenkins/releases/ReleaseBuildAction.java:272-308 | every module the selection requires belongs to the project |
| Resolver.ResolveRefuses | src/main/java/de/cware/plugins/jenkins/releases/ReleaseBuildAction.java:310-329 | the release is refused exactly when the selection resolves, auto-select is off and some required module is not selected |
| Resolver.ResolveFails | src/main/java/de/cware/plugins/jenkins/releases/ReleaseBuildAction.java:370-372 | a selection that cannot be resolved aborts the release with that error |
| Resolver.ResolveRefusalLists | src/main/java/de/cware/plugins/jenkins/releases/ReleaseBuildAction.java:318-326 | the refusal's module list names each missing required module exactly once |
| Resolver.ResolveSchedules | src/main/java/de/cware/plugins/jenkins/releases/ReleaseBuildAction.java:310-344 | a release is scheduled exactly when the selection resolves (every selected key is a module with a finite parent chain: `Walkable`, see `WalkableIff`), nothing required is missing or auto-select is on, and every wanted module can be assigned; then exactly the wanted modules are released and all others get latest versions |
| Resolver.ResolveReleases | src/main/java/de/cware/plugins/jenkins/releases/ReleaseBuildAction.java:331-344 | once a final selection is decided, scheduling succeeds exactly when the version split does and carries its maps |
| Resolver.SplitVersionsKeys | src/main/java/de/cware/plugins/jenkins/releases/ReleaseBuildAction.java:331-344 | the split of a final selection succeeds exactly when the wanted modules are assignable, and then releases exactly them |
| Resolver.MinorReleaseSchedules | src/main/java/de/cware/plugins/jenkins/releases/ReleaseBuildAction.java:228-344 | from the parsed models, a minor release is scheduled exactly when the selection resolves (`Walkable`, see `WalkableIff`), is complete or auto-completed, and can be assigned versions; released modules are exactly selection plus required |
| Resolver.MinorReleaseRefuses | src/main/java/de/cware/plugins/jenkins/releases/ReleaseBuildAction.java:310-329 | from the parsed models, a minor release is refused exactly when auto-select is off and required modules are missing, and the refusal lists each of them once |
| Resolver.ResolveReleasesDependents | src/main/java/de/cware/plugins/jenkins/releases/ReleaseBuildAction.java:272-281 | every transitive dependent of a selected module is released when the release is scheduled |
| Resolver.ScheduledReleasesDependents | src/main/java/de/cware/plugins/jenkins/releases/ReleaseBuildAction.java:231-281 | a module that depends on a selected module, or on one of its transitive dependents, is released when the release is scheduled |
| Resolver.ScheduledReleasesAncestors | src/main/java/de/cware/plugins/jenkins/releases/ReleaseBuildAction.java:283-308 | every in-project ancestor of a selected module is released when the release is scheduled |
| Resolver.SampleReferrers | src/main/java/de/cware/plugins/jenkins/releases/ReleaseBuildAction.java:231-242 | in the four-module sample only c references b and nobody references c |
| Resolver.SampleAncestors | src/main/java/de/cware/plugins/jenkins/releases/ReleaseBuildAction.java:284-307 | in the sample, b's only ancestor is a |
| Resolver.SampleIncomplete | src/main/java/de/cware/plugins/jenkins/releases/ReleaseBuildAction.java:271-308 | selecting b alone leaves a (its parent) and c (its dependent) missing |
| Resolver.SampleRefused | src/main/java/de/cware/plugins/jenkins/releases/ReleaseBuildAction.java:310-329 | selecting b alone without auto-select is refused with the list {a, c} |
| Resolver.SampleAutoSelected | src/main/java/de/cware/plugins/jenkins/releases/ReleaseBuildAction.java:310-344 | with auto-select, selecting b releases exactly a, b and c; d, which depends on the auto-selected a, is not released |
| Versions.MajorLine | src/main/java/de/cware/plugins/jenkins/releases/versions/VersionHandler.java:44-48 | the major line never contains `-SNAPSHOT`; it is the part before the first `-SNAPSHOT`, or the whole version when there is none |
| Versions.PrefixBeforeFirst | src/main/java/de/cware/plugins/jenkins/releases/versions/VersionHandler.java:44-48 | the text before the first `-SNAPSHOT` does not contain it |
| Versions.NextVersion | src/main/java/de/cware/plugins/jenkins/releases/versions/VersionHandler.java:126-129 | bumping succeeds exactly when the part after the last dot parses as an integer; the part up to the last dot is kept and the last number goes up by one; otherwise it fails naming that part |
| Versions.NextVersionTwice | src/main/java/de/cware/plugins/jenkins/releases/versions/VersionHandler.java:126-129 | bumping twice keeps the head and raises the last number by two |
| Versions.NextVersionBumps | src/main/java/de/cware/plugins/jenkins/releases/versions/VersionHandler.java:126-129 | a version ending in a decimal n bumps to the same head followed by n + 1 |
| Versions.NextVersionOfPatch | src/main/java/de/cware/plugins/jenkins/releases/versions/VersionHandler.java:126-129 | 1.4.2 bumps to 1.4.3 |
| Versions.NextVersionOfMinor | src/main/java/de/cware/plugins/jenkins/releases/versions/VersionHandler.java:126-129 | 2.0 bumps to 2.1 |
| Versions.NextVersionWithoutDot | src/main/java/de/cware/plugins/jenkins/releases/versions/VersionHandler.java:126-129 | a version without a dot bumps as a whole: 5 becomes 6 |
| Versions.NextVersionAddsDigit | src/main/java/de/cware/plugins/jenkins/releases/versions/VersionHandler.java:126-129 | 1.4.9 bumps to 1.4.10 |
| Versions.NextVersionRejectsText | src/main/java/de/cware/plugins/jenkins/releases/versions/VersionHandler.java:127 | a non-numeric version fails with a number-format error |
| Versions.NextVersionRejectsQualifier | src/main/java/de/cware/plugins/jenkins/releases/versions/VersionHandler.java:127 | a qualified version such as 1.0-beta fails on the segment 0-beta |
| Versions.NextVersionDropsLeadingZeros | src/main/java/de/cware/plugins/jenkins/releases/versions/VersionHandler.java:127-128 | 1.09 bumps to 1.10, because the last segment is read as a number |
| Versions.QueryRange | src/main/java/de/cware/plugins/jenkins/releases/versions/VersionHandler.java:76 | the range exists exactly when the major line can be bumped (otherwise the source stores nothing, its catch at lines 88-90); it is `[` + major line + `,` + its bump + `)`; when the major line has no comma, splitting the inside at the comma gives back exactly the two bounds |
| Versions.NextVersionCharacters | src/main/java/de/cware/plugins/jenkins/releases/versions/VersionHandler.java:126-129 | bumping introduces no comma, so a comma-free major line yields a two-bound range |
| Versions.Preorder | src/main/java/de/cware/plugins/jenkins/releases/versions/VersionHandler.java:72-97 | the traversal visits the module itself first |
| Versions.PreorderInTree | src/main/java/de/cware/plugins/jenkins/releases/versions/VersionHandler.java:72-97 | the traversal visits exactly the modules of the tree: the module itself and every module below it |
| Versions.PreorderFromInTree | src/main/java/de/cware/plugins/jenkins/releases/versions/VersionHandler.java:91-96 | the loop over the children from the i-th on visits exactly the modules below those children |
| Versions.Populate | src/main/java/de/cware/plugins/jenkins/releases/versions/VersionHandler.java:72-97 | after the traversal, a key has a version exactly when it had one before or is visited and the registry answers; the registry answer wins |
| Versions.Latest | src/main/java/de/cware/plugins/jenkins/releases/versions/VersionHandler.java:76-90 | a module gets a version exactly when the range can be built and the registry finds a version in it, and that version is the registry's; a failed request or an unbuildable range gives none |
| Versions.NewVersionHandler | src/main/java/de/cware/plugins/jenkins/releases/versions/VersionHandler.java:37-70 | the handler's major line is the root version's; a module has a version exactly when it is visited by the traversal (by `PreorderInTree`, in the module tree) and the registry finds one in the major range, and that version is stored |
| Versions.MajorVersion | src/main/java/de/cware/plugins/jenkins/releases/versions/VersionHandler.java:99-101 | the major version is the major line with one more segment, 0 |
| Versions.CurrentReleaseVersion | src/main/java/de/cware/plugins/jenkins/releases/versions/VersionHandler.java:108-114 | a released module reports its stored version, any other the sentinel `- not released -` |
| Versions.NextReleaseVersion | src/main/java/de/cware/plugins/jenkins/releases/versions/VersionHandler.java:116-124 | a released module's next version is its stored version bumped, any other gets the major version |
| Versions.IsNotReleased | src/main/java/de/cware/plugins/jenkins/releases/versions/VersionHandler.java:103-106 | "not released" is exactly the case in which the current version is the sentinel and the next one the major version; otherwise the module has a stored version, reported as current and bumped as next |
| Versions.HandlerReportsRegistry | src/main/java/de/cware/plugins/jenkins/releases/versions/VersionHandler.java:37-124 | a module is "not released" exactly when it is not in the module tree (`InTree`) or the registry finds nothing; otherwise current and next versions are the registry's answer and its bump, else the sentinel and major.0 |
| Versions.HandlerFound | src/main/java/de/cware/plugins/jenkins/releases/versions/VersionHandler.java:76-124 | a module of the tree the registry finds v for in the major range reports v as current and v bumped as next |
| Versions.HandlerNothingFound | src/main/java/de/cware/plugins/jenkins/releases/versions/VersionHandler.java:84-124 | a module the registry never finds reports the sentinel as current and major.0 as next |
| Versions.NextVersionOfMajorLine | src/main/java/de/cware/plugins/jenkins/releases/versions/VersionHandler.java:126-129 | the major line 3.2 bumps to 3.3 |
| Versions.NextVersionOfReference | src/main/java/de/cware/plugins/jenkins/releases/versions/VersionHandler.java:126-129 | 3.2.5 bumps to 3.2.6 |
| Versions.MajorLineOfSnapshot | src/main/java/de/cware/plugins/jenkins/releases/versions/VersionHandler.java:44-45 | 3.2-SNAPSHOT has major line 3.2 |
| Versions.RangeOfMajorLine | src/main/java/de/cware/plugins/jenkins/releases/versions/VersionHandler.java:76 | the major line 3.2 queries the range [3.2,3.3) |
| Versions.ReferenceVersionFound | src/main/java/de/cware/plugins/jenkins/releases/versions/VersionHandler.java:37-124 | with root 3.2-SNAPSHOT and 3.2.5 published in [3.2,3.3), the module reports 3.2.5 and next 3.2.6 |
| Versions.ReferenceVersionMissing | src/main/java/de/cware/plugins/jenkins/releases/versions/VersionHandler.java:37-124 | with root 3.2-SNAPSHOT and nothing published, the module reports `- not released -` and next 3.2.0 |
| JavaInt.NatToString | src/main/java/de/cware/plugins/jenkins/releases/versions/VersionHandler.java:128 | a natural number prints as a non-empty string of decimal digits |
| JavaInt.ParseInt | src/main/java/de/cware/plugins/jenkins/releases/versions/VersionHandler.java:127 | `Integer.valueOf` accepts an unsigned segment exactly when it is a non-empty string of decimal digits, and never accepts the empty string |
| JavaInt.NatToStringValue | src/main/java/de/cware/plugins/jenkins/releases/versions/VersionHandler.java:128 | the printed digits of n denote n |
| JavaInt.ParseIntToString | src/main/java/de/cware/plugins/jenkins/releases/versions/VersionHandler.java:127-128 | parsing a printed integer gives the integer back |
| JavaInt.IntToStringHasNoDot | src/main/java/de/cware/plugins/jenkins/releases/versions/VersionHandler.java:128 | a printed integer contains no dot, so the bumped number stays the last segment |
| Text.IndexOf | src/main/java/de/cware/plugins/jenkins/releases/versions/VersionHandler.java:44-45 | `indexOf` finds the first occurrence of the pattern, and none exactly when the pattern does not occur |
| Text.LastIndexOf | src/main/java/de/cware/plugins/jenkins/releases/versions/VersionHandler.java:127 | `lastIndexOf` gives the position of the last occurrence of the character, or -1 exactly when it is absent |
| Text.TrimSpec | src/main/java/de/cware/plugins/jenkins/releases/MinorReleaseInterceptorAction.java:100 | `trim` returns the slice left after removing the leading and trailing characters up to space, and that slice neither starts nor ends with one |
| Text.TrimIdempotent | src/main/java/de/cware/plugins/jenkins/releases/MinorReleaseInterceptorAction.java:100 | trimming twice is trimming once |
| Text.TrimInfix | src/main/java/de/cware/plugins/jenkins/releases/MinorReleaseInterceptorAction.java:100 | the trimmed text is already trimmed and is a block of the original |
| Text.BuilderJoinIsJoin | src/main/java/de/cware/plugins/jenkins/releases/ReleaseBuildAction.java:318-324 | appending a separator before every non-first part, as the builder loops do, joins non-empty parts with the separator |
| Text.SplitJoin | src/main/java/de/cware/plugins/jenkins/releases/ReleaseBuildAction.java:318-324 | splitting a join of separator-free parts at the separator gives the parts back |
| Text.BuilderJoinRoundTrip | src/main/java/de/cware/plugins/jenkins/releases/MinorReleaseInterceptorAction.java:65-68 | a builder-joined list of non-empty, separator-free parts splits back to the same list |
| Commands.Tag | src/main/java/de/cware/plugins/jenkins/releases/MinorReleaseInterceptorAction.java:47 | the tag is the root module's release version, or "null" when the root module is not released |
| Commands.VersionOptions | src/main/java/de/cware/plugins/jenkins/releases/MinorReleaseInterceptorAction.java:56-81 | the version options contain the release/development pair of every module they are built over |
| Commands.ExtraArgs | src/main/java/de/cware/plugins/jenkins/releases/MinorReleaseInterceptorAction.java:96-101 | without extra arguments nothing is added; otherwise one space followed by a trimmed block of the job's arguments |
| Commands.ProjectOptions | src/main/java/de/cware/plugins/jenkins/releases/MinorReleaseInterceptorAction.java:89-94 | with space-free module keys the fragment splits at spaces into an empty lead, `-DignoreSnapshots=true`, `--projects` and the comma-joined release list |
| Commands.MinorGoals | src/main/java/de/cware/plugins/jenkins/releases/MinorReleaseInterceptorAction.java:39-107 | without modules to release the command is only the two goals; otherwise it starts with tag and tag format, contains a release/development pair for every released and every other module, and ends with the project list, the extra arguments and the goals |
| Commands.MinorOptions | src/main/java/de/cware/plugins/jenkins/releases/MinorReleaseInterceptorAction.java:43-101 | the minor-release options start with tag and tag format, contain every module's version pair and end with the project list, the extra arguments and the goals |
| Commands.MajorGoals | src/main/java/de/cware/plugins/jenkins/releases/MajorReleaseInterceptorAction.java:40-71 | without a major version the command is only the two goals; otherwise it starts with batch mode and the tag and ends with the extra arguments and the goals |
| Commands.CommandTokens | src/main/java/de/cware/plugins/jenkins/releases/MinorReleaseInterceptorAction.java:96-106 | a command of space-free options followed by the extra arguments and the goals splits at spaces into an empty lead, the options, the extra arguments' tokens and the two goals |
| Commands.NoReleaseTokens | src/main/java/de/cware/plugins/jenkins/releases/MinorReleaseInterceptorAction.java:104 | the bare goals split into an empty lead and the two goals |
| Commands.MajorGoalsTokens | src/main/java/de/cware/plugins/jenkins/releases/MajorReleaseInterceptorAction.java:40-71 | the major command splits into exactly batch mode, tag, tag format, release version, development version, the extra arguments' tokens and the goals, or just the goals without a major version |
| Commands.MinorGoalsTokens | src/main/java/de/cware/plugins/jenkins/releases/MinorReleaseInterceptorAction.java:39-107 | the minor command splits into exactly tag, tag format, the version pairs of released and other modules in iteration order, the snapshot switch, `--projects` and its list, the extra arguments' tokens and the goals |
| Commands.ProjectListRoundTrip | src/main/java/de/cware/plugins/jenkins/releases/MinorReleaseInterceptorAction.java:65-68 | the `--projects` list splits at commas back into the released modules, each once and no other |

## Left out

- Web UI, request handling and redirects. The JSON form is left out
  (`ReleaseBuildAction.java:256-269`). The selection and the auto-select
  flag are inputs, and the outcome `Refused` or `Scheduled` stands for the
  redirect.
- Reading release versions from the form. The source looks them up by
  `artifactId` alone (`ReleaseBuildAction.java:337-338`). The model takes a
  map from module key to requested version, so two modules that share an
  artifactId in different groups are not told apart.
- Scheduling of the build, and `ParametersAction`
  (`ReleaseBuildAction.java:351-368`). A scheduled outcome carries the two
  version maps the interceptor receives.
- Whether the root `pom.xml` exists (`ReleaseBuildAction.java:220-225`).
  `Poms.ParseProject` requires the root path to be in the source.
- XML reading. A POM is given already parsed, or malformed.
- `doPerformMajorRelease` (`ReleaseBuildAction.java:180-208`). It only
  stores the major version and schedules the build. The command it leads
  to is `Commands.MajorGoals`.
- Repository setup: `Booter`, the Aether repository system, session and
  credentials (`versions/VersionHandler.java:51-65`). The registry is an
  oracle parameter. A failure of the setup itself, which would leave every
  module unreleased, is not modelled.
- A null root module or module name (`versions/VersionHandler.java:42`).
- A null `latestVersions` map (`MinorReleaseInterceptorAction.java:73`).
- A null `groupId` or `artifactId`. Keys are plain strings.
- The initialize and cleanup interceptors, `ReleaseBuildWrapper`, its
  descriptor, `ReleaseCause` and `ReleaseInterceptorAction`. They are
  Jenkins glue with no logic of their own. `ReleaseBuildWrapper.getMavenArgs`
  is an `Option<string>` input.
- JavaInt.ParseInt: digits are ASCII only, and 32-bit overflow (a
  `NumberFormatException` above 2147483647) is not modelled.
- JavaInt.IntToString: does not wrap at 2^31 when the bumped number
  overflows.
- Resolver.SplitVersions: on failure it reports every module it cannot
  assign. The source stops at the first, with an exception inside the
  catch-all: a null dereference for a key missing from the modules
  (`ReleaseBuildAction.java:334-335`), or a `JSONException` from
  `getJSONObject` for a selected module without a form entry (line 337).
  The outcome is aborted either way.
- Resolver.Resolve and Resolver.MinorRelease describe the source only on
  projects without a dependency cycle. The source computes the dependents
  closure of every module of the project, selected or not, before it reads
  the form (`ReleaseBuildAction.java:246-250`). A cycle anywhere among the
  modules makes that recursion overflow the stack; the resulting `Error`
  escapes the `catch (Exception e)` at lines 370-372, so the source then
  neither schedules nor refuses. The model uses the corrected closure and
  goes on, so `Resolver.ResolveSchedules`, `Resolver.MinorReleaseSchedules`
  and `Resolver.MinorReleaseRefuses` hold for the source only when no
  module depends on itself through other modules. Where the recursion as
  written terminates, it yields the same modules
  (`Closure.AsWrittenAgrees`), and the missing list never repeats a key
  (`ReleaseBuildAction.java:276`).
- Resolver.AncestorWalk: a cyclic parent chain is reported as
  `ParentCycle`, where the source loops forever
  (`ReleaseBuildAction.java:288-306`).
- Poms.ParseModels: a module that lists itself as a (transitive) child
  module is reported as `NestingCycle`, where the source recurses without
  bound until the stack overflows (`ReleaseBuildAction.java:401-409`).
- Java `HashMap` iteration order is a parameter. No ordering is claimed.
- The getters of `ReleaseBuildAction` (`ReleaseBuildAction.java:53-130`,
  `375-377`): icon, name and URL, the module list, the initialized and
  dirty flags, and the work directory. They are display and file-system
  queries.
- `doPerformInitialize` and `doPerformCleanup`
  (`ReleaseBuildAction.java:134-178`). They only schedule builds whose
  interceptors return the constant goals `install` and `release:rollback`.

## Findings

| source | as written | input that shows it | evidently intended | confidence | as-written member | corrected member |
|---|---|---|---|---|---|---|
| src/main/java/de/cware/plugins/jenkins/releases/ReleaseBuildAction.java:456 | each direct referrer is added to the closure unconditionally, before the de-duplicating merge of its own closure | reverse index A → [B, C], B → [C]: the closure of A is [B, C, C] | a duplicate-free list of the transitive dependents, as the `contains` check on line 459 aims for | high, not executed | Closure.AsWrittenRepeatsKeys | Closure.DependentsClosure |
| src/main/java/de/cware/plugins/jenkins/releases/ReleaseBuildAction.java:450-467 | the recursion keeps no visited set | reverse index A → [A] (a module depending on itself, or any dependency cycle): the recursion never ends | the transitive dependents of a module on any dependency graph | high, not executed | Closure.AsWrittenDivergesOnSelfDependency | Closure.ClosureIsLeast |
