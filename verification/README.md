# Ratect, modelled and proved in Dafny

Ratect is a Rust port of Batect: it reads a project's configuration, works out which
containers a task needs, and runs them. This project models the parts of it where a plain
statement of what should happen meets code that gets there by loops, queues, memo tables,
shortcuts and in-place edits, and proves that the two agree.

`dafny verify dfyconfig.toml` checks everything. Every module is one file of the same name.

- **The configuration graph.** `Graphs` and `Chains` hold reachability and link-following.
  `TaskNames`, `FirstToml`, `NetworkOwner`, `Extends`/`ExtendsResolver` and
  `HealthChecks`/`HealthCheckPass`/`HealthCheckGraph` are the passes over it. Each walk ends
  on cyclic input and computes exactly the set, nearest node, owner or inherited field that
  its relational definition names; the health-check expansion is in place, and its effect on
  the whole dependency graph is proved.
- **Loading a project.** `Includes` says what a route of includes is and what boundary
  it ends with; `LoadOrder` states breadth-first order without a queue, `LoadUniqueness`
  and `LoadRoutes` prove it unique and nearest-first; `Loader` is the queue that
  computes it; `Merge` and `ProjectLoader` merge what it loaded, `OrderedUnions` giving
  the order of names.
- **`.dockerignore`.** `PathClean`, `IgnorePatterns` (the compiler), `IgnoreShortcuts` (fast
  forms against the token list), `IgnoreGlobs` (the token list against the pattern's text)
  and `IgnoreMatcher` (the skipping loop against the last
  pattern that hits).
- **Caches.** `Cache`, `CacheStores`, with `Sorting` for the listing's order.
- **The terminal.** `Styles`, `Escapes`, `Grid`, `Screen`, `ScreenLaws`, `Tags` and `Html`: a captured
  transcript becomes a grid of cells, and the HTML for it is read back, character by
  character, to the same grid.
- **The command line.** `CommandLine`: two readers, one meaning; `CommandText` says it on the
  text of the arguments.
- **Conversion and ports.** `Convert`, `Ports` and `PortText`.

Some properties one might expect turn out not to hold everywhere. Each is kept as the code
has it, with the exact condition under which it does hold:

- A `.dockerignore` shortcut accepts what its tokens accept exactly when the pattern is
  neither a literal followed by `**/` nor leading stars followed directly by a name
  (`IgnoreShortcuts.ShortcutsSoundExactly`). Cleaning removes the first form
  (`IgnoreMatcher.NeverASlashRun`), so only the second reaches the matcher.
- A converted include names the conversion of what it named exactly when its spelling ends
  in an ordinary name, and is not a bare `~` (`Convert.IncludePreservedExactly`;
  `Convert.DotDotSpellingBreaks` is a spelling that breaks).
- A conversion that passes the clash checks writes over no source exactly when no included
  file, with its extension made `toml`, is the root (`Convert.SourcesSafeExactly`;
  `Convert.RootOverwritten` is a project where one is).
- Two project keys share a cache volume exactly when one, with its dash, begins the other
  (`Cache.KeysClashExactly`; `Cache.DashedKeysClash` is such a pair).
- A file reached again is refused for a grant it was not loaded with. A comment in
  `ratect-core/src/include_trust.rs` takes it that every such file was recorded when it was
  loaded; the root is not, and arriving there is refused exactly when it carries a grant
  (`Loader.RootLosesEveryGrant`; `Loader.RootAgainIsRefused` is a project where it does).

The regular-expression engine, the tests of which names and blanks are valid, a daemon's
refusals, what cloning gives and what the trust checks answer are parameters: every theorem
holds for all of them.

## Model

| member | source | states |
|---|---|---|
| `TaskNames.ContainerNamesInTask` | ratect-core/src/config.rs:2814-2831 | ends on cyclic graphs; the names are exactly those reached from the task's container and sidecars, the least set holding them and closed under dependencies |
| `FirstToml.FirstTomlReached` | ratect-core/src/config.rs:3857-3879 | ends on cyclic includes; finds a file exactly when some TOML file is one or more local includes away, and the one it finds ends the earliest route to any: shortest first, then in the order includes are declared |
| `FirstToml.FirstIsNearest` | ratect-core/src/config.rs:3862-3879 | none is fewer includes away than the one found |
| `FirstToml.FirstUnique` | ratect-core/src/config.rs:3862-3879 | so which of several nearest files is found is settled |
| `FirstToml.NothingEarlier` | ratect-core/src/config.rs:3862-3879 | while an include is looked at, no earlier route finds anything |
| `NetworkOwner.NetworkNamespaceOwner` | ratect-core/src/config.rs:6494-6537 | succeeds exactly when the links end; the owner is at their end and shares nobody's network; otherwise a genuine loop, entered from the start, or a genuine way out of the configuration, is reported |
| `NetworkOwner.OwnerUnique` | ratect-core/src/config.rs:6494-6537 | a container has at most one owner |
| `NetworkOwner.SameOwnerAlongTheWay` | ratect-core/src/config.rs:6494-6537 | every container along a path of links has the same owner |
| `NetworkOwner.OneOutcome` | ratect-core/src/config.rs:6494-6537 | a container with an owner is in no loop and leads nowhere undefined |
| `Chains.ChainUnique` | ratect-core/src/config.rs:7487-7554 | from one name there is one chain of links |
| `Chains.ChainNeverRepeats` | ratect-core/src/config.rs:7487-7554 | a chain that ends never passes a name twice |
| `Chains.ChainIsNotBad` | ratect-core/src/config.rs:7487-7554 | a name whose chain ends reaches neither an undefined name nor a cycle |
| `Extends.InheritedField` | ratect-core/src/config.rs:7818-7912 | every one of the forty-two inherited fields is the child's if set, else the parent's |
| `Extends.SupplierIndex` | ratect-core/src/config.rs:5391-5412 | the first container along a chain to set a field; the end of the chain if none does |
| `Extends.ResolvesStep` | ratect-core/src/config.rs:7487-7554 | one inheritance step gives what the whole longer chain gives, values and suppliers |
| `ExtendsResolver.Resolver.ResolveContainer` | ratect-core/src/config.rs:7487-7554 | the memo only ever holds each container's chain's answer; a failure is a genuine cycle or undefined parent on the path from where resolution began |
| `ExtendsResolver.ResolveAll` | ratect-core/src/config.rs:7457-7472 | every name resolved; or the failure is that of the first name, as declared, that has no chain |
| `ExtendsResolver.Rebuild` | ratect-core/src/config.rs:7473-7480 | declaration order, not resolution order |
| `ExtendsResolver.ResolveExtends` | ratect-core/src/config.rs:7457-7481 | succeeds exactly when no chain reaches an undefined name or a cycle; then every field is the first set along its chain, every tracked supplier the container that set it; else the first container without a chain is the one reported |
| `ExtendsResolver.MemoIsTheAnswer` | ratect-core/src/config.rs:7487-7554 | an entry right for one chain is right for all: neither order nor memo matters |
| `ExtendsResolver.WitnessedIsBad` | ratect-core/src/config.rs:7487-7554 | a reported failure is one there is |
| `HealthChecks.CompanionNameInjective` | ratect-core/src/config.rs:1951-1960 | different containers have different companions |
| `HealthChecks.CheckedAmongMembers` | ratect-core/src/config.rs:7609-7712 | the checked containers, each once |
| `HealthChecks.GainedMembers` | ratect-core/src/config.rs:7783-7794 | a list gains exactly the companions of the checked containers it names, never its own |
| `HealthChecks.AddOneMore` | ratect-core/src/config.rs:7802-7809 | adding companions one at a time is appending them all |
| `HealthChecks.JudgeCheck` | ratect-core/src/config.rs:7614-7710 | one check: the first of nine faults it has, and none exactly when it can be expanded |
| `HealthChecks.FaultsRuleOut` | ratect-core/src/config.rs:7614-7710 | a check can be expanded exactly when it has none of the nine faults, each spelled out |
| `HealthChecks.UnusableExactly` | ratect-core/src/config.rs:7567-7585 | a path is refused exactly when it does not start with a slash or holds a blank, a quote, a backslash, a backtick or a dollar |
| `HealthCheckPass.Config.CollectChecked` | ratect-core/src/config.rs:7605-7712 | every check is judged; refused is the first offender in declaration order, for the first thing wrong with it |
| `HealthCheckPass.Config.FindReservedUse` | ratect-core/src/config.rs:7723-7755 | finds a use of a reserved name exactly when the user's configuration makes one, and says which |
| `HealthCheckPass.Config.FindReserved` | ratect-core/src/config.rs:7714-7756 | no companion's name is taken, exactly |
| `HealthCheckPass.Config.InsertCompanions` | ratect-core/src/config.rs:7758-7781 | companions go after every declared container, which all stay as they were |
| `HealthCheckPass.Config.AddContainerEdges` | ratect-core/src/config.rs:7783-7790 | every other container naming the checked one gains its companion last; nothing else changes |
| `HealthCheckPass.Config.AddTaskEdges` | ratect-core/src/config.rs:7791-7793 | the same for every task |
| `HealthCheckPass.Config.ExpandExternalHealthChecks` | ratect-core/src/config.rs:7605-7796 | expanded exactly when every check is expandable and no reserved name is used; refused, nothing has changed and the reason is a real one |
| `HealthCheckGraph.StepsProject` | ratect-core/src/config.rs:7783-7794 | a walk of the expanded graph stands for a walk of the original at least half as long |
| `HealthCheckGraph.AcyclicityKept` | ratect-core/src/config.rs:7605-7809 | the expanded graph is acyclic exactly when the original is |
| `HealthCheckGraph.EveryCheckHasItsCompanion` | ratect-core/src/config.rs:7758-7781 | each checked container's companion, under the reserved name, depends on it alone, runs to completion, reports readiness for it, has the pinned image, entrypoint and log driver, and sets nothing else |
| `HealthCheckGraph.TaskGainsExactlyItsCompanions` | ratect-core/src/config.rs:7783-7794 | a task comes to involve what it involved and exactly the companions that it, or another container it involves, waits on |
| `HealthCheckGraph.DeclaredContainersRecovered` | ratect-core/src/config.rs:4352-4359 | the listing of the expanded configuration is what the user declared, in order, unchanged but for added dependencies |
| `Includes.TargetsOfMembers` | ratect-core/src/config.rs:4506-4595 | a file's neighbours are exactly where its entries point |
| `Includes.RouteReaches` | ratect-core/src/config.rs:4499-4681 | a route of includes is a walk of the include graph |
| `Includes.BoundaryIsLastGits` | ratect-core/src/include_trust.rs:171-180 | a route's boundary is its last Git include's; only an owned file's entry grants anything |
| `LoadUniqueness.NextIsForced` | ratect-core/src/config.rs:4499-4681 | where some walk went further, the next step is that walk's next step and passes every check |
| `LoadUniqueness.WalkIsPrefix` | ratect-core/src/config.rs:4499-4681 | of two walks from one root, the one that followed fewer entries is how the other began |
| `LoadUniqueness.OneOrder` | ratect-core/src/config.rs:4499-4681 | a root has one breadth-first order, and one boundary for each file |
| `LoadRoutes.DepthGrows` | ratect-core/src/config.rs:4499-4681 | files are loaded nearest first |
| `LoadRoutes.ReachedIsLoaded` | ratect-core/src/config.rs:4499-4681 | whatever some includes lead to is loaded, by no more of them |
| `LoadRoutes.LoadedAlongShortest` | ratect-core/src/config.rs:4499-4681 | each file is loaded along a shortest route, under that route's boundary |
| `LoadRoutes.LoadedUnderLastGit` | ratect-core/src/config.rs:4456-4681 | each file's boundary is that of the last Git include on a shortest route to it |
| `LoadRoutes.LoadedIsContained` | ratect-core/src/config.rs:4403-4423 | a file loaded inside a boundary lies within it |
| `Loader.FollowEntry` | ratect-core/src/config.rs:4506-4599 | an entry is followed exactly when its checks pass, to where it points; each repository and ref is cloned at most once |
| `Loader.LosesMeansLost` | ratect-core/src/include_trust.rs:780-851 | the recorded grants refuse exactly a route that brings a grant the file was not loaded with |
| `Loader.EverythingLoaded` | ratect-core/src/config.rs:4499-4681 | a complete walk has loaded exactly the files the include graph reaches, each once, each within its boundary, and no included one that says what only the root may |
| `Loader.OnlyTheRootMay` | ratect-core/src/config.rs:4654-4668 | an included file that names the project, or forbids telemetry, stops the load |
| `Loader.LoadFiles` | ratect-core/src/config.rs:4456-4681 | ends on every include graph; succeeds exactly when a complete breadth-first walk exists, with every check passed; otherwise the error is that of the first entry refused, on a real route |
| `Loader.OneFailure` | ratect-core/src/config.rs:4499-4681 | a load has one way to fail: which entry and why is settled |
| `Loader.FailureOrSuccess` | ratect-core/src/config.rs:4499-4681 | and where it can fail it cannot succeed |
| `Loader.RootLosesEveryGrant` | ratect-core/src/include_trust.rs:820-828 | arriving at the root, which is never recorded, is refused exactly when it carries a grant |
| `Loader.RootAgainIsRefused` | ratect-core/src/include_trust.rs:820-828 | a project in a clone of its own repository, included with a grant, is refused for that and nothing else |
| `Merge.MergeKind` | ratect-core/src/config.rs:4693-4759 | names in order first defined, every file defining each, and its first value |
| `Merge.ListedTwiceMeansDefinedTwice` | ratect-core/src/config.rs:4693-4759 | a name has more than one file exactly when two files define it |
| `Merge.FirstClash` | ratect-core/src/config.rs:4693-4759 | finds a clash exactly when there is one, and the first as declared |
| `Merge.FirstClashIsFirst` | ratect-core/src/config.rs:4740-4759 | the clash found is the first name, in the order the files give them, that two files define, and its list is every file that does |
| `Merge.NoClashIsUnion` | ratect-core/src/config.rs:4693-4759 | without a clash the merge is the disjoint union |
| `ProjectLoader.MergeOrClash` | ratect-core/src/config.rs:4693-4759 | refused exactly when two files of the project define one name; reported is the first such name as declared, with every file that defines it |
| `ProjectLoader.OneDirectory` | ratect-core/src/config.rs:4714-4724 | the directory a container is based at is the one its file is a name in: there is no other |
| `ProjectLoader.LoadProject` | ratect-core/src/config.rs:4456-4780 | succeeds exactly when the walk completes and no container, task or variable is defined in two files; the result is their disjoint union, in the order first declared, each container based at its own file's directory and boundary; else the first entry refused, or the first clash, tasks before containers before variables, with every file that defines it |
| `PathClean.CleanIdempotent` | dockerignore/src/pattern.rs:212-212 | cleaning twice is cleaning once |
| `PathClean.CleanNeverEndsInSlash` | dockerignore/src/pattern.rs:255-255 | a cleaned path is never empty and ends in a slash only if it is the root |
| `PathClean.DotDotCancels` | dockerignore/src/pattern.rs:255-255 | `..` takes away the name before it |
| `PathClean.DotVanishes` | dockerignore/src/pattern.rs:255-255 | `.` and an empty component take away nothing |
| `PathClean.DotDotAtRoot` | dockerignore/src/pattern.rs:255-255 | there is nothing above the root |
| `IgnorePatterns.CompileOne` | dockerignore/src/pattern.rs:107-182 | one turn of the loop reads one token and updates the kind |
| `IgnorePatterns.KindStep` | dockerignore/src/pattern.rs:107-182 | the kind kept along the way is the kind of all the tokens read |
| `IgnorePatterns.Compile` | dockerignore/src/pattern.rs:107-182 | the one-pass compiler's answer is that of the whole token list |
| `IgnoreShortcuts.ShortcutAgrees` | dockerignore/src/pattern.rs:71-89 | outside the two misread forms, the shortcut accepts a path exactly when the tokens match it |
| `IgnoreShortcuts.BareStarsAcceptEndings` | dockerignore/src/pattern.rs:71-89 | for stars followed directly by a name, the shortcut accepts exactly the paths ending in it; the tokens accept only whole names |
| `IgnoreShortcuts.TrailingSlashMisread` | dockerignore/src/pattern.rs:71-89 | a path the tokens match and the shortcut rejects |
| `IgnoreShortcuts.BareStarsMisread` | dockerignore/src/pattern.rs:71-89 | a path the shortcut accepts and the tokens do not match |
| `IgnoreShortcuts.ShortcutsSoundExactly` | dockerignore/src/pattern.rs:107-182 | shortcut and tokens agree on every path exactly when the pattern has neither form |
| `IgnoreGlobs.TokensGlob` | dockerignore/src/pattern.rs:107-182 | for every pattern without brackets or escapes, the tokens accept exactly what the pattern's text, read without them, says |
| `IgnoreGlobs.GlobStar` | dockerignore/src/pattern.rs:140-143 | `a*b` accepts exactly `a`, any characters but a slash, and `b` |
| `IgnoreGlobs.GlobQuestion` | dockerignore/src/pattern.rs:144-147 | `a?b` accepts exactly `a`, one character that is no slash, and `b` |
| `IgnoreGlobs.GlobLeadingStars` | dockerignore/src/pattern.rs:118-139 | `**/b` accepts exactly `b`, and `b` below any directories |
| `IgnoreGlobs.GlobInnerStars` | dockerignore/src/pattern.rs:118-139 | `a/**/b` accepts exactly `a/b`, and `b` below any directories of `a` |
| `IgnoreGlobs.GlobFinalStars` | dockerignore/src/pattern.rs:118-139 | `a/**` accepts exactly what is below `a` |
| `IgnoreMatcher.NewMatcher` | dockerignore/src/pattern.rs:200-232 | refused exactly at the first bad line; otherwise one pattern a line, in order, blank lines aside |
| `IgnoreMatcher.TestedAreSelfAndAncestors` | dockerignore/src/pattern.rs:254-304 | the paths tested are exactly the path and its proper prefixes at slashes |
| `IgnoreMatcher.TestPattern` | dockerignore/src/pattern.rs:272-281 | one pattern against the path, then each directory above it |
| `IgnoreMatcher.MatchesOrParentMatches` | dockerignore/src/pattern.rs:254-289 | for all its skipping, the answer is the polarity of the last pattern that hits, and no if none does |
| `IgnoreMatcher.ExclusionIsInherited` | dockerignore/src/pattern.rs:254-289 | with no `!` pattern, what lies below an excluded path is excluded |
| `IgnoreMatcher.LiteralExcludesItselfAndBelow` | dockerignore/src/pattern.rs:254-304 | a wildcard-free pattern excludes exactly itself and what is below it |
| `IgnoreMatcher.MeansWhatItsTextSays` | dockerignore/src/pattern.rs:254-289 | shortcuts and skipping together change nothing: the patterns exclude what their text says |
| `IgnoreMatcher.NeverASlashRun` | dockerignore/src/pattern.rs:206-229 | a line, cleaned, never spells the form that ends in stars and a slash |
| `IgnoreMatcher.IgnoreFileMeansWhatItSays` | dockerignore/src/pattern.rs:200-289 | what the compiled lines exclude is what the lines' text says, when none leads with stars followed directly by a name |
| `IgnoreMatcher.LeavesOut` | ratect-core/src/docker.rs:918-929 | from the lines as written to the answer: refused exactly for a bad line; the Dockerfile and the ignore file are never left out; any other path is, exactly when the last line whose text hits it has no `!` |
| `IgnoreMatcher.StarredLine` | dockerignore/src/pattern.rs:200-289 | the line `a*b` leaves out exactly what is, or lies below, `a`, more of one name, and `b` |
| `IgnoreMatcher.LineSaysItsText` | dockerignore/src/pattern.rs:207-229 | a clean pattern with blanks around it is that pattern |
| `IgnoreMatcher.LineTakesBack` | dockerignore/src/pattern.rs:214-221 | after a `!` it is that pattern, and takes back what it hits |
| `IgnoreMatcher.LoneMarkRefused` | dockerignore/src/pattern.rs:214-219 | a `!` alone is refused |
| `CommandLine.ReadShorts` | ratect-core/src/exit_code.rs:281-296 | a cluster's options, up to the first that takes a value |
| `CommandLine.CommandLineWords` | ratect-core/src/exit_code.rs:266-301 | the words of a line, an option's separate value skipped, nothing after `--` |
| `CommandLine.SplitAtTask` | ratect-compat/src/main.rs:694-769 | cuts the line where the options end, with the first value that would be misread |
| `CommandLine.RefusedExactly` | ratect-compat/src/main.rs:694-769 | refused exactly when an argument read as an option has an empty value after `=` or a separate one that starts with a dash |
| `CommandText.RefusedOnText` | ratect-compat/src/main.rs:700-757 | the same on the text: `--name=` or `-..c=` with nothing after it, or `--name` or `-..c` before an argument that looks like an option |
| `CommandText.WaitsOnText` | ratect-compat/src/main.rs:718-744 | which arguments take the next one as their value |
| `CommandText.OptionsEndAt` | ratect-compat/src/main.rs:711-716 | options end at `--`, a lone dash, or what leads with no dash |
| `CommandText.LongWord` | ratect-core/src/exit_code.rs:276-285 | a long option is its name, whatever follows its `=` |
| `CommandText.ClusterWords` | ratect-core/src/exit_code.rs:286-295 | a cluster is its letters, up to the first that takes a value |
| `CommandLine.SameValueSkipped` | ratect-compat/src/main.rs:717-757 | both readers skip the same values |
| `CommandLine.StopsTogether` | ratect-compat/src/main.rs:694-769 | the splitter stops exactly at the reader's first positional, `--` or the end |
| `CommandLine.OptionsPartReadsTheSame` | ratect-core/src/exit_code.rs:266-301 | the words of the options part are the words of the line before that point |
| `CommandLine.RunDecidedByOptions` | ratect-compat/src/main.rs:648-661 | a line is a run exactly when its options part is |
| `CommandText.NotARunMeans` | ratect-compat/src/main.rs:648-661 | a line is not a run exactly when `list-tasks`, `clean`, `clean-cache`, `upgrade` or `T` is among its options before the task |
| `Cache.NeverProjectAndShared` | ratect-core/src/cache.rs:231-246 | no volume is both a project's and shared |
| `Cache.KeysClashExactly` | ratect-core/src/cache.rs:231-246 | two keys match one volume exactly when one, with its dash, begins the other |
| `Cache.DashedKeysClash` | ratect-core/src/cache.rs:204-246 | two different keys a key file can hold, and a volume both match |
| `Cache.DifferentKeysNeverClash` | ratect-core/src/cache.rs:231-246 | different keys, dash-free or equally long, never match one volume |
| `Cache.VolumeStore.RemoveVolume` | ratect-core/src/cache.rs:379-397 | a removal takes one volume, or is refused and takes none |
| `Cache.FirstRefused` | ratect-core/src/cache.rs:379-397 | where a run of removals stops |
| `Cache.RemoveCacheVolumes` | ratect-core/src/cache.rs:379-397 | paired events up to the first refusal, then one lone announcement; storage loses exactly that prefix and nothing later is attempted |
| `Cache.TraceInPairs` | ratect-core/src/cache.rs:379-397 | each removal is announced, then reported done, by the volume's own name; a refused one is only announced |
| `CacheStores.MatchingMembers` | ratect-core/src/cache.rs:456-468 | the volumes matched are exactly those under the prefix that the names select, or all if none are given |
| `CacheStores.TargetsMean` | ratect-core/src/cache.rs:456-468 | the volumes attempted are exactly those a clean may take, by their full names |
| `CacheStores.SharedOnlyMeans` | ratect-core/src/cache.rs:634-642 | there is something to refuse exactly when a shared cache was named, and it is the first such name |
| `CacheStores.SelectionLists` | ratect-core/src/cache.rs:328-353 | each half lists, in order, exactly the names storage holds volumes for |
| `CacheStores.CacheStore.ProjectCacheKey` | ratect-core/src/cache.rs:756-765 | the key file is read at most once, whatever it holds later |
| `CacheStores.SplitByScope` | ratect-core/src/cache.rs:328-353 | each volume is this project's, shared or neither |
| `CacheStores.CacheStore.List` | ratect-core/src/cache.rs:775-825 | each scope lists, in order, exactly the names its volumes are called by; nothing where the key or the storage cannot be read |
| `CacheStores.CacheStore.Remove` | ratect-core/src/cache.rs:850-906 | outside the shared scope refused exactly when a shared cache is named, by the first such name, within it exactly when none is; whatever storage became since the listing, a shared volume goes only if scoped and named, any other only under this project's prefix, and a finished clean leaves none of them; a refusal changes nothing; the event trace is exact |
| `CacheStores.OnlyTargetsGo` | ratect-core/src/cache.rs:850-906 | even a removal that fails partway takes only what the scope and names allow |
| `CacheStores.ListThenClean` | ratect-core/src/cache.rs:618-623 | with storage unchanged, a clean removes exactly what the listing called actionable, by one key; a nameless shared sweep is refused |
| `Sorting.SortKeeps` | ratect-core/src/cache.rs:775-825 | sorting keeps every name as often as it was |
| `Sorting.SortOrders` | ratect-core/src/cache.rs:775-825 | and puts them in order |
| `Styles.ApplySgr` | tools/mdbook-ansi.py:149-194 | the index-driven loop reads parameters as the step-by-step definition does |
| `Styles.ResetForgets` | tools/mdbook-ansi.py:149-194 | a zero forgets everything before it, unless a colour takes it as its argument |
| `Styles.SgrOk` | tools/mdbook-ansi.py:138-194 | a style only ever holds a themed colour or hexadecimal text |
| `Styles.SgrSplits` | tools/mdbook-ansi.py:149-194 | a sequence does what its two parts do, wherever reading it comes to a parameter of its own |
| `Styles.RgbReads` | tools/mdbook-ansi.py:181-192 | a colour is `#rrggbb` exactly when each component is below 256, and then its digits read back as the components |
| `Styles.CubeColours` | tools/mdbook-ansi.py:138-146 | the cube's indexes count red in thirty-sixes, green in sixes, blue in ones, each in six levels |
| `Styles.Greys` | tools/mdbook-ansi.py:138-146 | the greys are ten apart, and the first sixteen colours the themed ones |
| `Styles.FlagsSet` | tools/mdbook-ansi.py:154-169 | bold, dim, italic and underline: what sets each, what clears it, and that nothing else does |
| `Styles.ForegroundSet` | tools/mdbook-ansi.py:170-175 | the themed foregrounds and their bright forms, what clears them, and that nothing else touches them |
| `Styles.BackgroundSet` | tools/mdbook-ansi.py:176-181 | the same for backgrounds |
| `Styles.ExtendedColours` | tools/mdbook-ansi.py:182-193 | 38 and 48, with a palette index or three components |
| `Styles.PaletteIsSixDigits` | tools/mdbook-ansi.py:138-146 | every index from 16 to 255 is a six-digit colour |
| `Escapes.FindCsiExact` | tools/mdbook-ansi.py:80-80 | the scan finds a control sequence exactly where the expression matches, and there is one match |
| `Escapes.FindOscExact` | tools/mdbook-ansi.py:82-82 | an operating system command ends at its first terminator |
| `Escapes.NextPieceExact` | tools/mdbook-ansi.py:222-231 | the next piece is the only one the three expressions, tried in turn, allow |
| `Screen.Terminal.constructor` | tools/mdbook-ansi.py:201-205 | an empty picture |
| `Screen.Terminal.Line` | tools/mdbook-ansi.py:207-210 | opening rows shows nothing new |
| `Screen.Terminal.Put` | tools/mdbook-ansi.py:212-220 | exactly one cell of the grid changes |
| `Screen.Terminal.EraseInLine` | tools/mdbook-ansi.py:278-287 | exactly the cells EL names are blanked |
| `Screen.Terminal.EraseInPage` | tools/mdbook-ansi.py:288-295 | exactly the cells ED names are blanked |
| `Screen.Terminal.Csi` | tools/mdbook-ansi.py:253-295 | each control does to the picture what it says; a parameter that is no number changes nothing and is an error |
| `Screen.Terminal.Type` | tools/mdbook-ansi.py:232-247 | a character moves the cursor, opens a row or draws one cell |
| `Screen.Terminal.Feed` | tools/mdbook-ansi.py:222-247 | after any transcript the ragged rows stand for the total grid its pieces, one by one, make |
| `Screen.PrintableTextIsShown` | tools/mdbook-ansi.py:212-247 | printable text appears unaltered from the cursor on and nothing else changes |
| `ScreenLaws.StartsEmpty` | tools/mdbook-ansi.py:201-205 | a terminal starts at the margin of one row, its pen plain, every cell a space |
| `ScreenLaws.ColumnAddressed` | tools/mdbook-ansi.py:258-262 | `ESC[kG` and a character: drawn in column `k` of the row, a missing or zero `k` being one |
| `ScreenLaws.PositionAddressed` | tools/mdbook-ansi.py:275-277 | `ESC[r;cH`, or `f`: drawn in that row of the viewport and that column |
| `ScreenLaws.RowAddressed` | tools/mdbook-ansi.py:275-277 | with no column given, in the first |
| `ScreenLaws.DownAndRight` | tools/mdbook-ansi.py:265-268 | `B` and `C`: drawn that many rows down, that many columns right |
| `ScreenLaws.UpAndLeftUndo` | tools/mdbook-ansi.py:263-270 | `A` and `D` take `B` and `C` back |
| `ScreenLaws.UpAndLeftStop` | tools/mdbook-ansi.py:263-270 | and stop at the top of the viewport and at the margin |
| `ScreenLaws.NextAndPreviousLine` | tools/mdbook-ansi.py:271-274 | `E` and `F` are `B` and `A`, then a carriage return |
| `ScreenLaws.LineFed` | tools/mdbook-ansi.py:235-241 | a line feed opens the next row and goes to its start |
| `ScreenLaws.BackSpaced` | tools/mdbook-ansi.py:242-243 | a backspace goes one column back, not past the margin |
| `ScreenLaws.Tabbed` | tools/mdbook-ansi.py:244-245 | a tab goes to the next multiple of eight |
| `ScreenLaws.OtherControlIgnored` | tools/mdbook-ansi.py:246-247 | no other control character shows |
| `ScreenLaws.LineBlanked` | tools/mdbook-ansi.py:278-287 | which cells each form of `K` blanks |
| `ScreenLaws.PageBlanked` | tools/mdbook-ansi.py:288-295 | which cells each form of `J` blanks |
| `ScreenLaws.PenChanged` | tools/mdbook-ansi.py:259-260 | `m` with any list of parameters; none resets the pen |
| `ScreenLaws.OtherSequenceIgnored` | tools/mdbook-ansi.py:253-295 | any other sequence of numbers comes to nothing |
| `ScreenLaws.PrivateIgnored` | tools/mdbook-ansi.py:254-255 | a private sequence comes to nothing |
| `ScreenLaws.TitleIgnored` | tools/mdbook-ansi.py:82-82 | a window title comes to nothing |
| `ScreenLaws.OtherEscapeIgnored` | tools/mdbook-ansi.py:86-86 | a character set, or any other escape of one character, comes to nothing |
| `ScreenLaws.ColonsRead` | tools/mdbook-ansi.py:256-257 | colons between parameters read as semicolons |
| `ScreenLaws.BadParameterRefused` | tools/mdbook-ansi.py:256-257 | a parameter that is not a number, or one of more than 4300 digits, is refused |
| `Grid.CanonicalUnique` | tools/mdbook-ansi.py:297-308 | trimming depends on the grid alone |
| `Grid.CanonicalSame` | tools/mdbook-ansi.py:297-308 | and shows the same grid |
| `Tags.TagRoundTrip` | tools/mdbook-ansi.py:108-132 | reading a span's attributes gives back its style, all of it |
| `Tags.ColourNamedIs` | tools/mdbook-ansi.py:70-76 | the sixteen class names are told apart |
| `Tags.TagShape` | tools/mdbook-ansi.py:108-132 | a tag ends at its first `>` and never spans lines |
| `Tags.FlagsAsWritten` | tools/mdbook-ansi.py:108-119 | the four flags' classes |
| `Tags.ColoursAsWritten` | tools/mdbook-ansi.py:70-76 | each themed colour's class, and an inline colour's property |
| `Tags.TagAsWritten` | tools/mdbook-ansi.py:125-132 | classes and properties each in their own attribute, left out where there is none |
| `Html.RowSpans` | tools/mdbook-ansi.py:303-321 | the loop writes a tag only where the style changes |
| `Html.RowRoundTrip` | tools/mdbook-ansi.py:303-321 | reading a row's HTML, which refuses nested, stray or unclosed spans, gives back every cell |
| `Html.EntitiesAreHtml` | tools/mdbook-ansi.py:318-318 | ampersand and angle brackets as HTML's own entities, every other character as it is |
| `Html.HtmlLosesNothing` | tools/mdbook-ansi.py:297-321 | decoding the HTML recovers every cell of the grid, character and style |
| `Html.HtmlIsTheGrid` | tools/mdbook-ansi.py:297-321 | two screens have the same HTML exactly when they show the same grid |
| `Screen.Terminal.RowHtml` | tools/mdbook-ansi.py:303-321 | pops the row's trailing blanks in place |
| `Screen.Terminal.Html` | tools/mdbook-ansi.py:297-301 | the HTML is the picture's; the rows it trims still show the same picture |
| `Screen.RenderAnsi` | tools/mdbook-ansi.py:324-328 | a whole transcript renders, or is refused for a malformed parameter, exactly as its pieces say |
| `Screen.RenderedAlike` | tools/mdbook-ansi.py:324-328 | two transcripts render alike exactly when they settle into the same grid |
| `Convert.TargetTable` | ratect-core/src/convert.rs:119-163 | succeeds exactly when targets are pairwise distinct and no file is its own; an error names files that do clash |
| `Convert.ExtensionReplaced` | ratect-core/src/convert.rs:119-163 | an extension gives way to `toml`; a name without one, or that only leads with a dot, gains it |
| `Convert.SourcesSafeExactly` | ratect-core/src/convert.rs:119-163 | a conversion that is not refused writes over no source exactly when no included file, with its extension made `toml`, is the root |
| `Convert.RootOverwritten` | ratect-core/src/convert.rs:119-163 | a project that converts, and whose include's target is its root |
| `Convert.ConvertInclude` | ratect-core/src/convert.rs:350-375 | rewritten exactly when what it names is an owned file; the spelling is kept but for its last name; and it leads from the converted file to the conversion of what it named exactly when that spelling ends in an ordinary name and is not a bare `~` that points elsewhere |
| `Convert.IncludeTargetOnText` | ratect-core/src/config.rs:4198-4200 | an include's text leads to what joining it to the top, to home or to its own directory, and cleaning, gives |
| `Convert.HomeOnText` | ratect-core/src/config.rs:5459-5478 | home is meant exactly by `~` alone or `~/` at the front of the text |
| `Convert.IncludePreservedExactly` | ratect-core/src/convert.rs:350-375 | the respelled include leads from the converted file to the conversion of what it named, exactly when its spelling ends in an ordinary name and is not a bare `~` that points elsewhere |
| `Convert.IncludeGraphPreserved` | ratect-core/src/convert.rs:119-163 | over owned files, an include leads to one conversion exactly where it led to one source |
| `Convert.DotDotSpellingBreaks` | ratect-core/src/convert.rs:350-375 | a spelling the load accepts and the rewriting breaks |
| `Ports.Expand` | ratect-core/src/config.rs:2642-2658 | ports are paired by position and stay within 16 bits and within their ranges |
| `Ports.ExpandCoversTheRange` | ratect-core/src/config.rs:2642-2658 | every local port of the range is published once, at its own offset |
| `Ports.MergedPorts` | ratect-core/src/container_spec.rs:889-905 | no duplicates, exactly the union of the expansions, in order of first occurrence |
| `PortText.ParseRange` | ratect-core/src/config.rs:2475-2505 | only a positive, ascending range is ever read |
| `PortText.NewMapping` | ratect-core/src/config.rs:2588-2606 | built exactly when both sides cover the same number of ports |
| `PortText.ParseMapping` | ratect-core/src/config.rs:2608-2639 | every mapping read can be expanded and names a protocol |
| `PortText.RangeRoundTrip` | ratect-core/src/config.rs:2508-2516 | every valid range is read back from its text |
| `PortText.RangeReadExactly` | ratect-core/src/config.rs:2475-2505 | a text is read as a range exactly when it spells it, with or without `+`, positive and ascending, each port within 16 bits |
| `PortText.MappingRoundTrip` | ratect-core/src/config.rs:2608-2639 | a mapping is read back from its text exactly when construction allows it and its protocol is not empty |
| `PortText.ProtocolDefaults` | ratect-core/src/config.rs:2608-2639 | a protocol left out is `tcp` |

## Left out

- The text of a companion's check command, and how durations are parsed: no property here rests on them.
- Bracket classes, `^` and escapes in `.dockerignore` patterns: compiled as they are written, but what the regular-expression engine makes of them is its own. The shortcut theorems are about patterns without them.
- PathClean.Clean models the `path-clean` crate from how it behaves; the crate's own code is not part of this model.
- The directory-backed cache store: the same selection and removal over directories instead of volumes.
- What a bundle's written-for version, its dialect and its trust allow: each is one pass-or-fail answer, `mayDeclare`, `mayLoad` or `contains`. The check of YAML bundles made after the walk, and the inference of a project's name, are not modelled.
- Merge.MergeKind: a name defined twice inside one file is a parse error and does not arise.
- What the inherited settings that no pass reads hold: each is kept as its text.
- Symbolic links: a path is where it says it is.
- Which default file name a pathless Git include finds: `bundleTarget` says.
- The Git arm of include conversion and the TOML text conversion writes.
- Convert.TargetTable: the owned files are given, distinct, as the load gives them. Whether a target that exists is overwritten is up to the command that writes it.
- Reading Markdown and finding its fenced blocks (`transform_markdown`): text plumbing around `render_ansi`.
- Docker, Git, the file system, the terminal, logging and exit codes: foreign calls.
