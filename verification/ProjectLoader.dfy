/** Loading a project: the include walk, then the merge of everything it reached. */
module ProjectLoader {
  import opened Common
  import opened Graphs
  import opened ConfigModel
  import opened PathClean
  import opened Includes
  import opened LoadOrder
  import opened Loader
  import opened Merge

  /** A name, and every file that defines it. */
  datatype SharedName = SharedName(name: string, files: seq<LoadedFile>)

  datatype Clash =
    | TaskClash(shared: SharedName)
    | ContainerClash(shared: SharedName)
    | VariableClash(shared: SharedName)

  datatype ProjectError = NotLoaded(error: LoadError) | Clashed(clash: Clash)

  datatype LoadedConfig = LoadedConfig(
    containers: Merged<LoadedFile, Container>,
    tasks: Merged<LoadedFile, Task>,
    variables: Merged<LoadedFile, string>,
    basePaths: map<string, Path>,
    boundaries: map<string, Boundary>,
    files: seq<LoadedFile>)

  /** The directory a file is in: Rust's `parent`, or nothing where it has none. */
  function DirectoryOf(path: Path): Path {
    match LastSlash(path)
    case None => ""
    case Some(i) => if path == "/" then "" else if i == 0 then "/" else path[..i]
  }

  /** `path` is a name right inside `dir`; only what has no slash, or is the root, is inside nothing. */
  ghost predicate InsideOf(path: Path, dir: Path) {
    if '/' !in path || path == "/" then dir == ""
    else exists name :: '/' !in name && IsNameIn(path, dir, name)
  }

  predicate IsNameIn(path: Path, dir: Path, name: string) {
    (dir == "/" && path == "/" + name) || (dir != "" && path == dir + "/" + name)
  }

  lemma DirectoryHolds(path: Path)
    ensures InsideOf(path, DirectoryOf(path))
  {
    if '/' in path && path != "/" {
      var i := LastSlash(path).value;
      var name := path[i + 1..];
      assert path == path[..i] + "/" + name;
      assert i == 0 ==> path == "/" + name;
      assert '/' !in name && IsNameIn(path, DirectoryOf(path), name);
    }
  }

  /** A path is inside one directory. */
  lemma OneDirectory(path: Path, dir: Path, other: Path)
    requires InsideOf(path, dir) && InsideOf(path, other)
    ensures dir == other
  {
    if '/' in path && path != "/" {
      var a :| '/' !in a && IsNameIn(path, dir, a);
      var b :| '/' !in b && IsNameIn(path, other, b);
      LastSlashIs(path, dir, a);
      LastSlashIs(path, other, b);
    }
  }

  lemma LastSlashIs(path: Path, dir: Path, name: string)
    requires '/' !in name && IsNameIn(path, dir, name) && path != "/"
    ensures LastSlash(path).Some?
    ensures dir == if LastSlash(path).value == 0 then "/" else path[..LastSlash(path).value]
  {
    var front := if path == "/" + name then "" else dir;
    assert path == front + "/" + name;
    assert path[|front|] == '/' && path[..|front|] == front && path[|front| + 1..] == name;
    assert forall j :: |front| < j < |path| ==> path[j] == name[j - |front| - 1];
    var last := LastSlash(path).value;
    assert last == |front|;
  }

  function ContainerSources(w: World, loaded: seq<LoadedFile>): (r: seq<Source<LoadedFile, Container>>)
    requires forall i :: 0 <= i < |loaded| ==> loaded[i].path in w.files
  {
    seq(|loaded|, i requires 0 <= i < |loaded| => Source(loaded[i], w.files[loaded[i].path].containers))
  }

  function TaskSources(w: World, loaded: seq<LoadedFile>): seq<Source<LoadedFile, Task>>
    requires forall i :: 0 <= i < |loaded| ==> loaded[i].path in w.files
  {
    seq(|loaded|, i requires 0 <= i < |loaded| => Source(loaded[i], w.files[loaded[i].path].tasks))
  }

  function VariableSources(w: World, loaded: seq<LoadedFile>): seq<Source<LoadedFile, string>>
    requires forall i :: 0 <= i < |loaded| ==> loaded[i].path in w.files
  {
    seq(|loaded|, i requires 0 <= i < |loaded| => Source(loaded[i], w.files[loaded[i].path].variables))
  }

  /** No file names one thing twice: its maps are maps. */
  ghost predicate WellFormed(w: World) {
    forall p :: p in w.files ==>
      && Unique(w.files[p].containers) && Unique(w.files[p].tasks) && Unique(w.files[p].variables)
  }

  /** Two different files of the project define `n`. */
  ghost predicate SharesName<V(!new)>(w: World, root: Path, defs: ConfigFile -> seq<(string, V)>, n: string) {
    exists p, q ::
      && p != q && p in w.files && q in w.files
      && Reached(IncludeGraph(w), {root}, p) && Reached(IncludeGraph(w), {root}, q)
      && Defines(defs(w.files[p]), n) && Defines(defs(w.files[q]), n)
  }

  ghost predicate Shares<V(!new)>(w: World, root: Path, defs: ConfigFile -> seq<(string, V)>) {
    exists n :: SharesName(w, root, defs, n)
  }

  /** The clash is real, and no kind reported before its own has one. */
  ghost predicate RealClash(w: World, root: Path, clash: Clash) {
    match clash
    case TaskClash(s) => SharesName(w, root, (f: ConfigFile) => f.tasks, s.name)
    case ContainerClash(s) =>
      && !Shares(w, root, (f: ConfigFile) => f.tasks)
      && SharesName(w, root, (f: ConfigFile) => f.containers, s.name)
    case VariableClash(s) =>
      && !Shares(w, root, (f: ConfigFile) => f.tasks) && !Shares(w, root, (f: ConfigFile) => f.containers)
      && SharesName(w, root, (f: ConfigFile) => f.variables, s.name)
  }

  ghost predicate AnyNameShared(w: World, root: Path) {
    || Shares(w, root, (f: ConfigFile) => f.containers)
    || Shares(w, root, (f: ConfigFile) => f.tasks)
    || Shares(w, root, (f: ConfigFile) => f.variables)
  }

  /** `sources` holds the loaded files' definitions of one kind. */
  ghost predicate SourcesOf<V>(w: World, loaded: seq<LoadedFile>, sources: seq<Source<LoadedFile, V>>,
                               defs: ConfigFile -> seq<(string, V)>) {
    && |sources| == |loaded|
    && (forall i :: 0 <= i < |loaded| ==> loaded[i].path in w.files)
    && (forall i :: 0 <= i < |loaded| ==> sources[i] == Source(loaded[i], defs(w.files[loaded[i].path])))
  }

  /** Over the loaded files, defined twice is shared by two files of the project. */
  lemma TwiceIsShared<V(!new)>(w: World, root: Path, loaded: seq<LoadedFile>, sources: seq<Source<LoadedFile, V>>,
                               defs: ConfigFile -> seq<(string, V)>, n: string)
    requires LoadsEverything(w, root, loaded) && SourcesOf(w, loaded, sources, defs) && DefinedTwice(sources, n)
    ensures SharesName(w, root, defs, n)
  {
    hide LoadsEverything, Reached, Defines, IncludeGraph;
    var i, j :| 0 <= i < j < |sources| && Defines(sources[i].defs, n) && Defines(sources[j].defs, n);
    LoadedPair(w, root, loaded, i, j);
    var p, q := loaded[i].path, loaded[j].path;
    assert Defines(defs(w.files[p]), n) && Defines(defs(w.files[q]), n);
  }

  lemma SharedIsTwice<V(!new)>(w: World, root: Path, loaded: seq<LoadedFile>, sources: seq<Source<LoadedFile, V>>,
                               defs: ConfigFile -> seq<(string, V)>)
    requires LoadsEverything(w, root, loaded) && SourcesOf(w, loaded, sources, defs) && Shares(w, root, defs)
    ensures exists n :: DefinedTwice(sources, n)
  {
    hide LoadsEverything, Reached, Defines, IncludeGraph;
    var n :| SharesName(w, root, defs, n);
    var p, q :| && p != q && p in w.files && q in w.files
                && Reached(IncludeGraph(w), {root}, p) && Reached(IncludeGraph(w), {root}, q)
                && Defines(defs(w.files[p]), n) && Defines(defs(w.files[q]), n);
    var i := WhereLoaded(w, root, loaded, p);
    var j := WhereLoaded(w, root, loaded, q);
    assert Defines(sources[i].defs, n) && Defines(sources[j].defs, n);
    assert DefinedTwice(sources, n);
  }

  lemma LoadedPair(w: World, root: Path, loaded: seq<LoadedFile>, i: nat, j: nat)
    requires LoadsEverything(w, root, loaded) && i < j < |loaded|
    ensures var p, q := loaded[i].path, loaded[j].path;
      && p != q && p in w.files && q in w.files
      && Reached(IncludeGraph(w), {root}, p) && Reached(IncludeGraph(w), {root}, q)
  {
    hide Reached, Arrives, IncludeGraph;
  }

  lemma WhereLoaded(w: World, root: Path, loaded: seq<LoadedFile>, p: Path) returns (i: nat)
    requires LoadsEverything(w, root, loaded) && Reached(IncludeGraph(w), {root}, p)
    ensures i < |loaded| && loaded[i].path == p
  {
    hide Reached, Arrives, IncludeGraph;
    i :| 0 <= i < |loaded| && loaded[i].path == p;
  }

  /** What a successful load is: everything reached, merged disjointly, each container based at its own file. */
  ghost predicate LoadedProject(w: World, root: Path, c: LoadedConfig) {
    && LoadsEverything(w, root, c.files)
    && DisjointUnion(ContainerSources(w, c.files), c.containers)
    && DisjointUnion(TaskSources(w, c.files), c.tasks)
    && DisjointUnion(VariableSources(w, c.files), c.variables)
    && (forall i, n :: 0 <= i < |c.files| && Defines(w.files[c.files[i].path].containers, n) ==>
          BasedAt(c, n, c.files[i]))
  }

  ghost predicate BasedAt(c: LoadedConfig, n: string, file: LoadedFile) {
    && n in c.basePaths && InsideOf(file.path, c.basePaths[n])
    && (n in c.boundaries <==> file.boundary.Some?)
    && (n in c.boundaries ==> Some(c.boundaries[n]) == file.boundary)
  }

  /** The first name, as declared, that two files define, with every file that does. */
  ghost predicate FirstShared<V>(sources: seq<Source<LoadedFile, V>>, s: SharedName) {
    FirstDefinedTwice(sources, s.name) && s.files == DefinedIn(sources, s.name)
  }

  /** The clash reported for what was loaded is the first of its kind. */
  ghost predicate ReportsFirst(w: World, loaded: seq<LoadedFile>, clash: Clash)
    requires forall i :: 0 <= i < |loaded| ==> loaded[i].path in w.files
  {
    match clash
    case TaskClash(s) => FirstShared(TaskSources(w, loaded), s)
    case ContainerClash(s) => FirstShared(ContainerSources(w, loaded), s)
    case VariableClash(s) => FirstShared(VariableSources(w, loaded), s)
  }

  ghost predicate ClashOfLoaded(w: World, root: Path, clash: Clash) {
    exists loaded: seq<LoadedFile>, at ::
      && Complete(w, root, loaded, at)
      && (forall i :: 0 <= i < |loaded| ==> loaded[i].path in w.files)
      && ReportsFirst(w, loaded, clash)
  }

  /** One kind: merged, or the first clash, which is real. */
  method MergeOrClash<V(!new)>(w: World, root: Path, loaded: seq<LoadedFile>,
                               sources: seq<Source<LoadedFile, V>>, ghost defs: ConfigFile -> seq<(string, V)>)
    returns (m: Merged<LoadedFile, V>, clash: Option<SharedName>)
    requires LoadsEverything(w, root, loaded) && SourcesOf(w, loaded, sources, defs)
    requires forall i :: 0 <= i < |loaded| ==> Unique(sources[i].defs)
    ensures clash.Some? <==> Shares(w, root, defs)
    ensures clash.Some? ==> SharesName(w, root, defs, clash.value.name) && FirstShared(sources, clash.value)
    ensures clash.None? ==> DisjointUnion(sources, m)
  {
    hide LoadsEverything, SharesName, DisjointUnion, DefinedTwice, RightLists, RightValues, RightOrder, Unique;
    m := MergeKind(sources);
    var name := FirstClash(m);
    clash := None;
    if name.None? {
      NoClashIsUnion(sources, m);
      UnionHasNoTwice(sources, m);
      if Shares(w, root, defs) {
        SharedIsTwice(w, root, loaded, sources, defs);
      }
    } else {
      ghost var i :| 0 <= i < |m.order| && FirstListedTwice(m, i, name.value);
      FirstClashIsFirst(sources, m, i);
      ClashIsDefinedTwice(sources, m, name.value);
      TwiceIsShared(w, root, loaded, sources, defs, name.value);
      clash := Some(SharedName(name.value, m.definedIn[name.value]));
    }
  }

  lemma UnionHasNoTwice<F, V>(sources: seq<Source<F, V>>, m: Merged<F, V>)
    requires DisjointUnion(sources, m)
    ensures !exists n :: DefinedTwice(sources, n)
  {
  }

  /** Loads and merges: succeeds exactly when the walk completes and no two files share a name. */
  method LoadProject(w: World, root: Path) returns (r: Result<LoadedConfig, ProjectError>)
    requires WellFormed(w)
    ensures r.Ok? <==> Loadable(w, root) && !AnyNameShared(w, root)
    ensures r.Ok? ==> LoadedProject(w, root, r.value)
    ensures r.Ok? ==> exists at :: Complete(w, root, r.value.files, at)
    ensures r.Err? && r.error.NotLoaded? ==>
      FailsFirst(w, root, r.error.error) && Witnessed(w, root, r.error.error)
    ensures r.Err? && r.error.Clashed? ==>
      RealClash(w, root, r.error.clash) && ClashOfLoaded(w, root, r.error.clash)
    ensures AllChecksPass(w, root) ==> (r.Ok? <==> !AnyNameShared(w, root))
  {
    hide AllChecksPass, Witnessed, FailsFirst, LoadsEverything, Loadable, Complete, SharesName, DisjointUnion, Unique;
    hide FirstShared;
    var loaded, clones, requested := LoadFiles(w, root);
    if loaded.Err? {
      return Err(NotLoaded(loaded.error));
    }
    var files := loaded.value;
    FilesAreRead(w, root, files);
    var containers, containerClash :=
      MergeOrClash(w, root, files, ContainerSources(w, files), (f: ConfigFile) => f.containers);
    var tasks, taskClash := MergeOrClash(w, root, files, TaskSources(w, files), (f: ConfigFile) => f.tasks);
    var variables, variableClash :=
      MergeOrClash(w, root, files, VariableSources(w, files), (f: ConfigFile) => f.variables);
    if taskClash.Some? {
      return Err(Clashed(TaskClash(taskClash.value)));
    }
    if containerClash.Some? {
      return Err(Clashed(ContainerClash(containerClash.value)));
    }
    if variableClash.Some? {
      return Err(Clashed(VariableClash(variableClash.value)));
    }
    var c := Configured(containers, tasks, variables, files);
    BasesAreRight(w, root, c);
    r := Ok(c);
  }

  /** The merged configuration, each container based where it was first defined. */
  function Configured(containers: Merged<LoadedFile, Container>, tasks: Merged<LoadedFile, Task>,
                      variables: Merged<LoadedFile, string>, files: seq<LoadedFile>): LoadedConfig
  {
    LoadedConfig(
      containers, tasks, variables,
      map n | n in containers.definedIn && containers.definedIn[n] != [] ::
        DirectoryOf(containers.definedIn[n][0].path),
      map n | n in containers.definedIn && containers.definedIn[n] != [] && containers.definedIn[n][0].boundary.Some? ::
        containers.definedIn[n][0].boundary.value,
      files)
  }

  lemma FilesAreRead(w: World, root: Path, files: seq<LoadedFile>)
    requires LoadsEverything(w, root, files)
    ensures forall i :: 0 <= i < |files| ==> files[i].path in w.files
  {
    hide Reached, Arrives;
  }

  lemma BasesAreRight(w: World, root: Path, c: LoadedConfig)
    requires forall i :: 0 <= i < |c.files| ==> c.files[i].path in w.files
    requires c == Configured(c.containers, c.tasks, c.variables, c.files)
    requires DisjointUnion(ContainerSources(w, c.files), c.containers)
    ensures forall i, n :: 0 <= i < |c.files| && Defines(w.files[c.files[i].path].containers, n) ==>
      BasedAt(c, n, c.files[i])
  {
    hide Defines, DirectoryOf, InsideOf, SameNames, DefinedTwice;
    var sources := ContainerSources(w, c.files);
    forall i, n | 0 <= i < |c.files| && Defines(w.files[c.files[i].path].containers, n)
      ensures BasedAt(c, n, c.files[i])
    {
      assert DefinedBy(sources[i], c.containers, n);
      DirectoryHolds(c.files[i].path);
    }
  }
}
