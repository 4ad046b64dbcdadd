/** What loading a project's include tree means: targets, routes and the boundary each route carries. */
module Includes {
  import opened Common
  import opened Graphs
  import opened ConfigModel

  type Path = string

  /** What an entry asks for, and what a file is loaded under. */
  datatype Grants = Grants(hostPaths: bool, nestedGit: bool)

  datatype Bundle = Bundle(repo: string, gitRef: string, trust: Grants)

  /** The clone a file's own includes must stay within, and the bundle it came from. */
  datatype Boundary = Boundary(repoDir: Path, bundle: Bundle)

  datatype Include =
    | File(path: string)
    | Git(repo: string, gitRef: string, within: Option<string>, asked: Grants)

  datatype ConfigFile = ConfigFile(
    includes: seq<Include>,
    containers: seq<(string, Container)>,
    tasks: seq<(string, Task)>,
    variables: seq<(string, string)>,
    projectName: Option<string>,
    forbidTelemetry: Option<bool>)

  /**
   The world outside the load: the files as parsed, where paths point, what cloning
   gives, and the checks made elsewhere, each an abstract pass or fail.
   */
  datatype World = World(
    files: map<Path, ConfigFile>,
    localTarget: (Path, string) -> Option<Path>,
    clone: ((string, string)) -> Option<Path>,
    bundleTarget: (Path, Option<string>) -> Option<Path>,
    contains: (Boundary, Path) -> bool,
    mayDeclare: (Path, Option<Boundary>, Include) -> bool,
    mayLoad: (Path, Option<Boundary>, Include) -> bool)

  /** Where an entry points: a local path from its declaring file, a Git one into its clone. */
  function Target(w: World, declaring: Path, entry: Include): Option<Path> {
    match entry
    case File(path) => w.localTarget(declaring, path)
    case Git(repo, gitRef, within, _) =>
      match w.clone((repo, gitRef))
      case Some(dir) => w.bundleTarget(dir, within)
      case None => None
  }

  /** Only an owned file's entry can grant anything. */
  function Granted(declaring: Option<Boundary>, asked: Grants): Grants {
    if declaring.None? then asked else Grants(false, false)
  }

  /** The boundary past an entry: a local include keeps its file's, a Git include starts its own. */
  function BoundaryPast(w: World, boundary: Option<Boundary>, entry: Include): Option<Boundary> {
    match entry
    case File(_) => boundary
    case Git(repo, gitRef, _, asked) =>
      match w.clone((repo, gitRef))
      case Some(dir) => Some(Boundary(dir, Bundle(repo, gitRef, Granted(boundary, asked))))
      case None => None
  }

  /** Every check on following an entry passes. */
  predicate EntryOk(w: World, declaring: Path, boundary: Option<Boundary>, entry: Include) {
    && (entry.Git? ==> w.mayDeclare(declaring, boundary, entry))
    && Target(w, declaring, entry).Some?
    && (BoundaryPast(w, boundary, entry).Some? ==>
          w.contains(BoundaryPast(w, boundary, entry).value, Target(w, declaring, entry).value))
  }

  /** Every check on loading an included file passes. */
  predicate FileOk(w: World, path: Path, boundary: Option<Boundary>, entry: Include) {
    && path in w.files
    && w.mayLoad(path, boundary, entry)
    && w.files[path].projectName.None?
    && w.files[path].forbidTelemetry != Some(true)
  }

  function TargetsOf(w: World, declaring: Path, includes: seq<Include>): seq<Path> {
    if includes == [] then []
    else
      TargetsOf(w, declaring, includes[..|includes| - 1])
      + match Target(w, declaring, includes[|includes| - 1]) case Some(p) => [p] case None => []
  }

  lemma {:induction false} TargetsOfMembers(w: World, declaring: Path, includes: seq<Include>, p: Path)
    ensures p in TargetsOf(w, declaring, includes) <==>
      exists i :: 0 <= i < |includes| && Target(w, declaring, includes[i]) == Some(p)
  {
    if includes != [] {
      TargetsOfMembers(w, declaring, includes[..|includes| - 1], p);
    }
  }

  /** Which files include which. */
  function IncludeGraph(w: World): Graph<Path> {
    map p | p in w.files :: TargetsOf(w, p, w.files[p].includes)
  }

  /** A way to a file: the entries followed from the root, one declared by each file on the way. */
  ghost predicate Route(w: World, root: Path, route: seq<Include>, p: Path, boundary: Option<Boundary>)
    decreases |route|
  {
    if route == [] then p == root && boundary.None?
    else
      var last := route[|route| - 1];
      exists q, b ::
        && Route(w, root, route[..|route| - 1], q, b)
        && q in w.files && last in w.files[q].includes
        && Target(w, q, last) == Some(p)
        && boundary == BoundaryPast(w, b, last)
  }

  ghost predicate Arrives(w: World, root: Path, p: Path, boundary: Option<Boundary>) {
    exists route :: Route(w, root, route, p, boundary)
  }

  lemma ArrivesPast(w: World, root: Path, q: Path, b: Option<Boundary>, entry: Include)
    requires Arrives(w, root, q, b) && q in w.files && entry in w.files[q].includes
    requires Target(w, q, entry).Some?
    ensures Arrives(w, root, Target(w, q, entry).value, BoundaryPast(w, b, entry))
  {
    var route :| Route(w, root, route, q, b);
    var longer := route + [entry];
    assert longer[..|longer| - 1] == route && longer[|longer| - 1] == entry;
    assert Route(w, root, longer[..|longer| - 1], q, b);
    assert Route(w, root, longer, Target(w, q, entry).value, BoundaryPast(w, b, entry));
  }

  lemma EntryIsEdge(w: World, q: Path, entry: Include, p: Path)
    requires q in w.files && entry in w.files[q].includes && Target(w, q, entry) == Some(p)
    ensures p in Successors(IncludeGraph(w), q)
  {
    TargetsOfMembers(w, q, w.files[q].includes, p);
  }

  /** A file there is a route to is one the include graph reaches. */
  lemma {:induction false} RouteReaches(w: World, root: Path, route: seq<Include>, p: Path, b: Option<Boundary>)
    requires Route(w, root, route, p, b)
    ensures Steps(IncludeGraph(w), {root}, p, |route|)
    decreases |route|
  {
    hide Target, BoundaryPast, IncludeGraph;
    if route != [] {
      var last := route[|route| - 1];
      var q, c :| && Route(w, root, route[..|route| - 1], q, c)
                  && q in w.files && last in w.files[q].includes
                  && Target(w, q, last) == Some(p) && b == BoundaryPast(w, c, last);
      RouteReaches(w, root, route[..|route| - 1], q, c);
      EntryIsEdge(w, q, last, p);
    }
  }

  // ----- the boundary a route ends with

  /** Where the last Git include of a route is; its length if there is none. */
  function LastGit(route: seq<Include>): (i: nat)
    ensures i <= |route| && (i < |route| ==> route[i].Git?)
    ensures i == |route| ==> forall j :: 0 <= j < |route| ==> route[j].File?
    ensures i < |route| ==> forall j :: i < j < |route| ==> route[j].File?
  {
    if route == [] then 0
    else if route[|route| - 1].Git? then |route| - 1
    else
      var i := LastGit(route[..|route| - 1]);
      if i == |route| - 1 then |route| else i
  }

  ghost predicate AllLocal(route: seq<Include>) {
    forall j :: 0 <= j < |route| ==> route[j].File?
  }

  /** The boundary of a route's last Git include; none where it has none. */
  ghost predicate IsLastGits(w: World, route: seq<Include>, b: Option<Boundary>) {
    var i := LastGit(route);
    if i == |route| then b.None?
    else
      var git := route[i];
      var dir := w.clone((git.repo, git.gitRef));
      && dir.Some?
      && b == Some(Boundary(dir.value, Bundle(git.repo, git.gitRef,
               if AllLocal(route[..i]) then git.asked else Grants(false, false))))
  }

  /** A route's boundary is its last Git include's, and grants only what an owned file asked for. */
  lemma {:induction false} BoundaryIsLastGits(w: World, root: Path, route: seq<Include>, p: Path, b: Option<Boundary>)
    requires Route(w, root, route, p, b)
    ensures IsLastGits(w, route, b)
    decreases |route|
  {
    if route != [] {
      var front, last := route[..|route| - 1], route[|route| - 1];
      var q, c :| && Route(w, root, front, q, c)
                  && q in w.files && last in w.files[q].includes
                  && Target(w, q, last) == Some(p) && b == BoundaryPast(w, c, last);
      BoundaryIsLastGits(w, root, front, q, c);
      if last.Git? {
        assert LastGit(route) == |front| && route[..|front|] == front;
        assert AllLocal(front) <==> LastGit(front) == |front|;
      } else {
        var i := LastGit(front);
        if i < |front| {
          assert front[..i] == route[..i];
        }
      }
    }
  }
}
