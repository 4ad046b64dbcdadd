/** The breadth-first include walk: every file once, by whichever route arrives first. */
module Loader {
  import opened Common
  import opened Graphs
  import opened Includes
  import opened LoadOrder
  import opened LoadUniqueness
  import opened LoadRoutes

  datatype LoadError =
    | RootUnreadable
    | EntryRefused(declaring: Path, entry: Include)
    | FileRefused(path: Path)
    | GrantLost(path: Path)

  type CloneKey = (string, string)

  // ----- one entry

  /** The clones made so far, each asked for once, and each what the cache gave. */
  ghost predicate Memo(w: World, clones: map<CloneKey, Path>, requested: seq<CloneKey>) {
    && NoDuplicates(requested)
    && (forall k :: k in clones ==> k in requested && w.clone(k) == Some(clones[k]))
    && (forall k :: k in requested && k !in clones ==> w.clone(k).None?)
  }

  /** Follows one entry as far as the file it names, with every check on the way. */
  method FollowEntry(w: World, declaring: Path, boundary: Option<Boundary>, entry: Include,
                     clones: map<CloneKey, Path>, ghost requested: seq<CloneKey>)
    returns (r: Option<LoadedFile>, clones': map<CloneKey, Path>, ghost requested': seq<CloneKey>)
    requires Memo(w, clones, requested) && forall k :: k in requested ==> k in clones
    ensures r.Some? <==> EntryOk(w, declaring, boundary, entry)
    ensures r.Some? ==>
      r == Some(LoadedFile(Target(w, declaring, entry).value, BoundaryPast(w, boundary, entry)))
    ensures Memo(w, clones', requested') && (r.Some? ==> forall k :: k in requested' ==> k in clones')
  {
    clones', requested' := clones, requested;
    match entry
    case File(path) =>
      var target := w.localTarget(declaring, path);
      if target.None? || (boundary.Some? && !w.contains(boundary.value, target.value)) {
        return None, clones', requested';
      }
      r := Some(LoadedFile(target.value, boundary));
    case Git(repo, gitRef, within, asked) =>
      if !w.mayDeclare(declaring, boundary, entry) {
        return None, clones', requested';
      }
      var key := (repo, gitRef);
      if key !in clones' {
        requested' := requested' + [key];
        var dir := w.clone(key);
        if dir.None? {
          return None, clones', requested';
        }
        clones' := clones'[key := dir.value];
      }
      var own := Boundary(clones'[key], Bundle(repo, gitRef, Granted(boundary, asked)));
      var target := w.bundleTarget(clones'[key], within);
      if target.None? || !w.contains(own, target.value) {
        return None, clones', requested';
      }
      r := Some(LoadedFile(target.value, Some(own)));
  }

  // ----- the grants a later route may have lost

  /** What each loaded file was loaded under; the root is never recorded. */
  type Recorded = map<Path, Option<Grants>>

  /** Whether arriving with `wanted` loses something the file was not loaded with. */
  predicate Loses(recorded: Recorded, path: Path, wanted: Option<Grants>) {
    var effective := if path in recorded then recorded[path] else Some(Grants(false, false));
    effective.Some? && Exceeds(wanted, effective.value)
  }

  ghost predicate RecordedOk(loaded: seq<LoadedFile>, recorded: Recorded) {
    && loaded != [] && loaded[0].path !in recorded
    && (forall i :: 0 < i < |loaded| ==>
          loaded[i].path in recorded && recorded[loaded[i].path] == TrustOf(loaded[i].boundary))
  }

  lemma LosesMeansLost(w: World, root: Path, loaded: seq<LoadedFile>, at: seq<nat>, recorded: Recorded,
                       i: nat, boundary: Option<Boundary>)
    requires InEntryOrder(w, root, loaded, at) && RecordedOk(loaded, recorded) && i < |loaded|
    ensures Loses(recorded, loaded[i].path, TrustOf(boundary)) <==> Lost(root, loaded[i], boundary)
  {
    hide LoadedBy, Exceeds, TrustOf;
  }

  // ----- how a load can fail

  /** The failure is real: a route leads to the entry or file refused. */
  ghost predicate Witnessed(w: World, root: Path, error: LoadError) {
    match error
    case RootUnreadable => root !in w.files
    case EntryRefused(q, entry) =>
      exists b :: && Arrives(w, root, q, b) && q in w.files && entry in w.files[q].includes
                  && !EntryOk(w, q, b, entry)
    case FileRefused(p) =>
      exists q, b, entry ::
        && Arrives(w, root, q, b) && q in w.files && entry in w.files[q].includes
        && EntryOk(w, q, b, entry) && Target(w, q, entry) == Some(p) && p != root
        && !FileOk(w, p, BoundaryPast(w, b, entry), entry)
    case GrantLost(p) =>
      exists b :: Arrives(w, root, p, b) && Carries(b) && (p == root || LoadedWithLess(w, root, p, b))
  }

  /** Another route reaches the file inside a boundary that grants less. */
  ghost predicate LoadedWithLess(w: World, root: Path, p: Path, b: Option<Boundary>) {
    exists less :: Arrives(w, root, p, less) && less.Some? && Exceeds(TrustOf(b), less.value.bundle.trust)
  }

  /** A route that carries a grant. */
  predicate Carries(b: Option<Boundary>) {
    b.Some? && (b.value.bundle.trust.hostPaths || b.value.bundle.trust.nestedGit)
  }

  /** Every check passes along every route, and no route carries a grant that another lost. */
  ghost predicate AllChecksPass(w: World, root: Path) {
    && root in w.files
    && (forall p, b :: Arrives(w, root, p, b) && Carries(b) ==> p != root && !LoadedWithLess(w, root, p, b))
    && (forall q, b, entry :: Arrives(w, root, q, b) && q in w.files && entry in w.files[q].includes ==>
          && EntryOk(w, q, b, entry)
          && (Target(w, q, entry) != Some(root) ==>
                FileOk(w, Target(w, q, entry).value, BoundaryPast(w, b, entry), entry)))
  }

  lemma NothingToWitness(w: World, root: Path, error: LoadError)
    requires AllChecksPass(w, root)
    ensures !Witnessed(w, root, error)
  {
    hide Arrives, EntryOk, FileOk;
  }

  lemma LoadedArrives(w: World, root: Path, loaded: seq<LoadedFile>, at: seq<nat>, i: nat)
    requires InEntryOrder(w, root, loaded, at) && i < |loaded|
    ensures Arrives(w, root, loaded[i].path, loaded[i].boundary)
  {
    hide InEntryOrder, Route;
    var route := LoadedAlong(w, root, loaded, at, i);
  }

  /** A route leads to the file declaring each entry, and past it where its checks allow. */
  lemma EntryArrives(w: World, root: Path, loaded: seq<LoadedFile>, at: seq<nat>, n: nat)
    requires InEntryOrder(w, root, loaded, at) && n < |Entries(w, loaded)|
    ensures var e := Entries(w, loaded)[n];
      && Arrives(w, root, e.declaring, e.boundary)
      && e.declaring in w.files && e.entry in w.files[e.declaring].includes
      && (Target(w, e.declaring, e.entry).Some? ==>
            Arrives(w, root, Target(w, e.declaring, e.entry).value, BoundaryPast(w, e.boundary, e.entry)))
  {
    hide InEntryOrder, Arrives, Target, BoundaryPast, Owner, Entries;
    var e := Entries(w, loaded)[n];
    OwnerDeclares(w, loaded, n);
    LoadedArrives(w, root, loaded, at, Owner(w, loaded, n));
    if Target(w, e.declaring, e.entry).Some? {
      ArrivesPast(w, root, e.declaring, e.boundary, e.entry);
    }
  }

  lemma LosingIsWitnessed(w: World, root: Path, loaded: seq<LoadedFile>, at: seq<nat>, i: nat, b: Option<Boundary>)
    requires InEntryOrder(w, root, loaded, at) && i < |loaded|
    requires Arrives(w, root, loaded[i].path, b) && Lost(root, loaded[i], b)
    ensures Witnessed(w, root, GrantLost(loaded[i].path))
  {
    hide Arrives, InEntryOrder;
    LoadedArrives(w, root, loaded, at, i);
    assert Carries(b);
    if loaded[i].path != root {
      assert LoadedWithLess(w, root, loaded[i].path, b);
    }
  }

  // ----- the whole walk

  /** Each reachable file exactly once, within the boundary of a route that leads to it. */
  ghost predicate LoadsEverything(w: World, root: Path, loaded: seq<LoadedFile>) {
    && loaded != [] && loaded[0] == LoadedFile(root, None)
    && (forall i, j :: 0 <= i < j < |loaded| ==> loaded[i].path != loaded[j].path)
    && (forall p :: Reached(IncludeGraph(w), {root}, p) <==> exists i :: 0 <= i < |loaded| && loaded[i].path == p)
    && (forall i :: 0 <= i < |loaded| ==>
          loaded[i].path in w.files && Arrives(w, root, loaded[i].path, loaded[i].boundary))
    && (forall i :: 0 <= i < |loaded| && loaded[i].boundary.Some? ==>
          w.contains(loaded[i].boundary.value, loaded[i].path))
    && (forall i :: 0 < i < |loaded| ==> MayBeIncluded(w, loaded[i].path))
  }

  /** A file that leaves to the root what only the root may say. */
  ghost predicate MayBeIncluded(w: World, p: Path) {
    p in w.files && w.files[p].projectName.None? && w.files[p].forbidTelemetry != Some(true)
  }

  lemma LoadedFileRead(w: World, root: Path, loaded: seq<LoadedFile>, at: seq<nat>, i: nat)
    requires InEntryOrder(w, root, loaded, at) && i < |loaded|
    ensures loaded[i].path in w.files
    ensures i > 0 ==> MayBeIncluded(w, loaded[i].path)
  {
    if i > 0 {
      assert LoadedBy(w, loaded, at[i], i);
    }
  }

  lemma LoadedIsReached(w: World, root: Path, loaded: seq<LoadedFile>, at: seq<nat>, i: nat)
    requires InEntryOrder(w, root, loaded, at) && i < |loaded|
    ensures Reached(IncludeGraph(w), {root}, loaded[i].path)
  {
    hide InEntryOrder, Route;
    var route := LoadedAlong(w, root, loaded, at, i);
    RouteReaches(w, root, route, loaded[i].path, loaded[i].boundary);
  }

  /** A complete walk has loaded exactly what the include graph reaches. */
  lemma EverythingLoaded(w: World, root: Path, loaded: seq<LoadedFile>, at: seq<nat>)
    requires Complete(w, root, loaded, at)
    ensures LoadsEverything(w, root, loaded)
  {
    hide LoadedBy, Settled, Arrives, IncludeGraph, Steps, MayBeIncluded;
    forall p | Reached(IncludeGraph(w), {root}, p) ensures exists i :: 0 <= i < |loaded| && loaded[i].path == p {
      var k: nat :| Steps(IncludeGraph(w), {root}, p, k);
      var i := ReachedIsLoaded(w, root, loaded, at, p, k);
    }
    forall i | 0 <= i < |loaded|
      ensures loaded[i].path in w.files && Arrives(w, root, loaded[i].path, loaded[i].boundary)
      ensures Reached(IncludeGraph(w), {root}, loaded[i].path)
    {
      LoadedFileRead(w, root, loaded, at, i);
      LoadedArrives(w, root, loaded, at, i);
      LoadedIsReached(w, root, loaded, at, i);
    }
    forall i | 0 < i < |loaded| ensures MayBeIncluded(w, loaded[i].path) {
      LoadedFileRead(w, root, loaded, at, i);
    }
    forall i | 0 <= i < |loaded| && loaded[i].boundary.Some?
      ensures w.contains(loaded[i].boundary.value, loaded[i].path)
    {
      LoadedIsContained(w, root, loaded, at, |Entries(w, loaded)|, i);
    }
  }

  /** Every file some entry points at, and the root: what the walk can ever see. */
  ghost function Universe(w: World, root: Path): set<Path> {
    {root} + set q, entry | q in w.files && entry in w.files[q].includes && Target(w, q, entry).Some?
                            :: Target(w, q, entry).value
  }

  /** What the loop keeps: the entries still queued, the files seen, and what each was loaded under. */
  ghost predicate Walking(w: World, root: Path, loaded: seq<LoadedFile>, at: seq<nat>, n: nat,
                          queue: seq<Pending>, seen: set<Path>, recorded: Recorded) {
    && Walked(w, root, loaded, at, n)
    && queue == Entries(w, loaded)[n..]
    && (forall p :: p in seen <==> Holds(loaded, p))
    && RecordedOk(loaded, recorded)
  }

  lemma StartWalking(w: World, root: Path)
    requires root in w.files
    ensures Walking(w, root, [LoadedFile(root, None)], [0], 0,
                    Queued(root, None, w.files[root].includes), {root}, map[])
  {
    RootLoaded(w, root);
    var loaded := [LoadedFile(root, None)];
    assert loaded[..0] == [] && Entries(w, loaded) == EntriesOf(w, loaded[0]);
    assert Holds(loaded, root);
  }

  /** The entry at the front of the queue is the next one to follow. */
  lemma FrontIsNext(w: World, root: Path, loaded: seq<LoadedFile>, at: seq<nat>, n: nat,
                    queue: seq<Pending>, seen: set<Path>, recorded: Recorded)
    requires Walking(w, root, loaded, at, n, queue, seen, recorded) && queue != []
    ensures n < |Entries(w, loaded)| && queue[0] == Entries(w, loaded)[n]
    ensures var e := queue[0];
      && Arrives(w, root, e.declaring, e.boundary)
      && e.declaring in w.files && e.entry in w.files[e.declaring].includes
      && (Target(w, e.declaring, e.entry).Some? ==>
            Arrives(w, root, Target(w, e.declaring, e.entry).value, BoundaryPast(w, e.boundary, e.entry)))
  {
    hide InEntryOrder, Settled, Arrives, Target, BoundaryPast, Entries, RecordedOk, Holds;
    EntryArrives(w, root, loaded, at, n);
  }

  lemma SkipFront(w: World, root: Path, loaded: seq<LoadedFile>, at: seq<nat>, n: nat,
                  queue: seq<Pending>, seen: set<Path>, recorded: Recorded, i: nat)
    requires Walking(w, root, loaded, at, n, queue, seen, recorded) && queue != [] && i < |loaded|
    requires EntryOk(w, queue[0].declaring, queue[0].boundary, queue[0].entry) && LeadsTo(w, root, queue[0], loaded[i])
    ensures Walking(w, root, loaded, at, n + 1, queue[1..], seen, recorded)
  {
    hide Walked, Entries, EntryOk, LeadsTo, RecordedOk, Holds;
    assert n <= |Entries(w, loaded)| by { WalkedWithin(w, root, loaded, at, n); }
    EntryMet(w, root, loaded, at, n, i);
  }

  lemma WalkedWithin(w: World, root: Path, loaded: seq<LoadedFile>, at: seq<nat>, n: nat)
    requires Walked(w, root, loaded, at, n)
    ensures n <= |Entries(w, loaded)| && InEntryOrder(w, root, loaded, at)
  {
  }

  lemma HoldsMore(loaded: seq<LoadedFile>, file: LoadedFile, p: Path)
    ensures Holds(loaded + [file], p) <==> Holds(loaded, p) || p == file.path
  {
    var longer := loaded + [file];
    assert longer[|loaded|] == file;
    if Holds(loaded, p) {
      var i :| 0 <= i < |loaded| && loaded[i].path == p;
      assert longer[i].path == p;
    }
  }

  lemma RecordedMore(loaded: seq<LoadedFile>, recorded: Recorded, file: LoadedFile)
    requires RecordedOk(loaded, recorded) && !Holds(loaded, file.path)
    ensures RecordedOk(loaded + [file], recorded[file.path := TrustOf(file.boundary)])
  {
    hide TrustOf;
  }

  lemma LoadFront(w: World, root: Path, loaded: seq<LoadedFile>, at: seq<nat>, n: nat,
                  queue: seq<Pending>, seen: set<Path>, recorded: Recorded, file: LoadedFile)
    requires Walking(w, root, loaded, at, n, queue, seen, recorded) && queue != []
    requires EntryOk(w, queue[0].declaring, queue[0].boundary, queue[0].entry)
    requires Target(w, queue[0].declaring, queue[0].entry).Some? && file == Arrival(w, queue[0])
    requires file.path !in seen && FileOk(w, file.path, file.boundary, queue[0].entry) && file.path in w.files
    ensures Walking(w, root, loaded + [file], at + [n], n + 1,
                    queue[1..] + Queued(file.path, file.boundary, w.files[file.path].includes),
                    seen + {file.path}, recorded[file.path := TrustOf(file.boundary)])
  {
    WalkedWithin(w, root, loaded, at, n);
    hide Walked, Entries, EntryOk, Holds, RecordedOk, FileOk, Target, BoundaryPast;
    EntryLoads(w, root, loaded, at, n);
    EntriesAppend(w, loaded, file);
    RecordedMore(loaded, recorded, file);
    forall p ensures Holds(loaded + [file], p) <==> Holds(loaded, p) || p == file.path {
      HoldsMore(loaded, file, p);
    }
  }

  lemma WalkFinished(w: World, root: Path, loaded: seq<LoadedFile>, at: seq<nat>, n: nat,
                     queue: seq<Pending>, seen: set<Path>, recorded: Recorded)
    requires Walking(w, root, loaded, at, n, queue, seen, recorded) && queue == []
    ensures Complete(w, root, loaded, at)
  {
    hide InEntryOrder, Settled, Entries, RecordedOk, Holds;
  }

  // ----- the first failure

  /** Following `e` next is refused, for this reason. */
  ghost predicate Refuses(w: World, root: Path, loaded: seq<LoadedFile>, e: Pending, error: LoadError) {
    match error
    case RootUnreadable => false
    case EntryRefused(q, entry) =>
      q == e.declaring && entry == e.entry && !EntryOk(w, e.declaring, e.boundary, e.entry)
    case FileRefused(p) =>
      && EntryOk(w, e.declaring, e.boundary, e.entry) && Target(w, e.declaring, e.entry) == Some(p)
      && !Holds(loaded, p) && !FileOk(w, p, BoundaryPast(w, e.boundary, e.entry), e.entry)
    case GrantLost(p) =>
      && EntryOk(w, e.declaring, e.boundary, e.entry) && Target(w, e.declaring, e.entry) == Some(p)
      && exists i :: && 0 <= i < |loaded| && loaded[i].path == p
                     && Lost(root, loaded[i], BoundaryPast(w, e.boundary, e.entry))
  }

  /** Every entry before number `n` was followed, and that one is refused. */
  ghost predicate FailsAt(w: World, root: Path, loaded: seq<LoadedFile>, at: seq<nat>, n: nat, error: LoadError) {
    Walked(w, root, loaded, at, n) && n < |Entries(w, loaded)| && Refuses(w, root, loaded, Entries(w, loaded)[n], error)
  }

  /** The error is what the load meets first. */
  ghost predicate FailsFirst(w: World, root: Path, error: LoadError) {
    || (error.RootUnreadable? && root !in w.files)
    || exists loaded, at, n: nat :: FailsAt(w, root, loaded, at, n, error)
  }

  lemma WalkedReadsRoot(w: World, root: Path, loaded: seq<LoadedFile>, at: seq<nat>, n: nat)
    requires Walked(w, root, loaded, at, n)
    ensures root in w.files && n <= |Entries(w, loaded)|
  {
    hide LoadedBy, Settled;
  }

  /** What one walk refuses, no walk that goes further has followed. */
  lemma NotFollowed(w: World, root: Path, a: seq<LoadedFile>, aAt: seq<nat>, n: nat, error: LoadError,
                    b: seq<LoadedFile>, bAt: seq<nat>, m: nat)
    requires FailsAt(w, root, a, aAt, n, error) && Walked(w, root, b, bAt, m)
    ensures m <= n
  {
    hide Walked, Entries, EntryOk, Lost, FileOk, Target, BoundaryPast, Holds;
    if n < m {
      WalkIsPrefix(w, root, a, aAt, n, b, bAt, m);
      NextIsForced(w, root, a, aAt, n, b, bAt, m);
    }
  }

  /** One entry is refused for one reason. */
  lemma RefusedOnce(w: World, root: Path, loaded: seq<LoadedFile>, e: Pending, error: LoadError, other: LoadError)
    requires Refuses(w, root, loaded, e, error) && Refuses(w, root, loaded, e, other)
    ensures error == other
  {
    hide EntryOk, Lost, FileOk, Target, BoundaryPast;
  }

  /** A load has one way to fail. */
  lemma OneFailure(w: World, root: Path, error: LoadError, other: LoadError)
    requires FailsFirst(w, root, error) && FailsFirst(w, root, other)
    ensures error == other
  {
    hide Walked, Entries, Refuses;
    if root !in w.files {
      if !error.RootUnreadable? || !other.RootUnreadable? {
        var loaded, at, n: nat :| FailsAt(w, root, loaded, at, n, if error.RootUnreadable? then other else error);
        WalkedReadsRoot(w, root, loaded, at, n);
      }
    } else {
      var a, aAt, n: nat :| FailsAt(w, root, a, aAt, n, error);
      var b, bAt, m: nat :| FailsAt(w, root, b, bAt, m, other);
      NotFollowed(w, root, a, aAt, n, error, b, bAt, m);
      NotFollowed(w, root, b, bAt, m, other, a, aAt, n);
      WalkIsPrefix(w, root, a, aAt, n, b, bAt, m);
      WalkIsPrefix(w, root, b, bAt, m, a, aAt, n);
      assert a == b && n == m;
      RefusedOnce(w, root, a, Entries(w, a)[n], error, other);
    }
  }

  /** A load that fails cannot also succeed. */
  lemma FailureOrSuccess(w: World, root: Path, error: LoadError)
    requires FailsFirst(w, root, error)
    ensures !Loadable(w, root)
  {
    hide Walked, Entries, Refuses;
    if Loadable(w, root) {
      var all, allAt :| Complete(w, root, all, allAt);
      WalkedReadsRoot(w, root, all, allAt, |Entries(w, all)|);
      var a, aAt, n: nat :| FailsAt(w, root, a, aAt, n, error);
      NotFollowed(w, root, a, aAt, n, error, all, allAt, |Entries(w, all)|);
      WalkIsPrefix(w, root, all, allAt, |Entries(w, all)|, a, aAt, n);
      NothingAfter(w, root, all, allAt, a, aAt, n);
    }
  }

  lemma NothingAfter(w: World, root: Path, all: seq<LoadedFile>, allAt: seq<nat>,
                     longer: seq<LoadedFile>, at: seq<nat>, n: nat)
    requires Complete(w, root, all, allAt) && Walked(w, root, longer, at, n) && all <= longer
    requires |Entries(w, all)| <= n
    ensures n == |Entries(w, longer)|
  {
    hide InEntryOrder, Settled, Entries;
    InOrderLengths(w, root, all, allAt);
    if |all| < |longer| {
      NextIsLater(w, root, all, allAt, |Entries(w, all)|, longer, at);
    } else {
      assert longer == all;
    }
  }

  /** The failure is one on a route that leads to it. */
  lemma FailureIsWitnessed(w: World, root: Path, loaded: seq<LoadedFile>, at: seq<nat>, n: nat, error: LoadError)
    requires FailsAt(w, root, loaded, at, n, error)
    ensures Witnessed(w, root, error)
  {
    WalkedWithin(w, root, loaded, at, n);
    RootIsHeld(w, root, loaded, at);
    hide Walked, InEntryOrder, Arrives, Entries, EntryOk, FileOk, Target, BoundaryPast, Lost, Carries, LoadedWithLess;
    EntryArrives(w, root, loaded, at, n);
    var e := Entries(w, loaded)[n];
    if error.GrantLost? {
      var i :| && 0 <= i < |loaded| && loaded[i].path == error.path
               && Lost(root, loaded[i], BoundaryPast(w, e.boundary, e.entry));
      LosingIsWitnessed(w, root, loaded, at, i, BoundaryPast(w, e.boundary, e.entry));
    }
  }

  lemma RootIsHeld(w: World, root: Path, loaded: seq<LoadedFile>, at: seq<nat>)
    requires InEntryOrder(w, root, loaded, at)
    ensures Holds(loaded, root)
  {
    hide LoadedBy;
    assert loaded[0].path == root;
  }

  /** Stopping at the front of the queue: the error is the first there is, a real one, and rules out success. */
  lemma Stops(w: World, root: Path, loaded: seq<LoadedFile>, at: seq<nat>, n: nat,
              queue: seq<Pending>, seen: set<Path>, recorded: Recorded, error: LoadError)
    requires Walking(w, root, loaded, at, n, queue, seen, recorded) && queue != []
    requires Refuses(w, root, loaded, queue[0], error)
    ensures FailsFirst(w, root, error) && Witnessed(w, root, error)
    ensures !Loadable(w, root) && !AllChecksPass(w, root)
  {
    WalkedWithin(w, root, loaded, at, n);
    hide Walked, Entries, Refuses, Witnessed, AllChecksPass, Loadable, RecordedOk, Holds;
    assert FailsAt(w, root, loaded, at, n, error);
    FailureIsWitnessed(w, root, loaded, at, n, error);
    FailureOrSuccess(w, root, error);
    if AllChecksPass(w, root) { NothingToWitness(w, root, error); }
  }

  /**
   Ends on every include graph, cyclic ones included; succeeds exactly when a complete walk
   exists, and otherwise says what the walk met first.
   */
  method LoadFiles(w: World, root: Path)
    returns (r: Result<seq<LoadedFile>, LoadError>, clones: map<CloneKey, Path>, ghost requested: seq<CloneKey>)
    ensures r.Ok? <==> Loadable(w, root)
    ensures r.Ok? ==> exists at :: Complete(w, root, r.value, at)
    ensures r.Ok? ==> LoadsEverything(w, root, r.value)
    ensures r.Err? ==> FailsFirst(w, root, r.error) && Witnessed(w, root, r.error)
    ensures AllChecksPass(w, root) ==> r.Ok?
    ensures Memo(w, clones, requested)
  {
    hide Walking, Complete, Arrives, Target, EntryOk, BoundaryPast, FileOk, LoadsEverything, FailsFirst, Witnessed;
    hide AllChecksPass, Memo, Loses, Lost, TrustOf, Holds, InEntryOrder, Entries, Loadable;
    clones, requested := map[], [];
    NoClones(w);
    if root !in w.files {
      NoRoot(w, root);
      r := Err(RootUnreadable);
      return;
    }
    var seen := {root};
    var recorded: Recorded := map[];
    var loaded := [LoadedFile(root, None)];
    var queue := Queued(root, None, w.files[root].includes);
    ghost var at: seq<nat>, n: nat := [0], 0;
    StartWalking(w, root);
    while queue != []
      invariant Walking(w, root, loaded, at, n, queue, seen, recorded)
      invariant seen <= Universe(w, root)
      invariant Memo(w, clones, requested) && forall k :: k in requested ==> k in clones
      decreases Universe(w, root) - seen, |queue|
    {
      var e := queue[0];
      FrontIsNext(w, root, loaded, at, n, queue, seen, recorded);
      var followed;
      followed, clones, requested := FollowEntry(w, e.declaring, e.boundary, e.entry, clones, requested);
      if followed.None? {
        r := Err(EntryRefused(e.declaring, e.entry));
        Stops(w, root, loaded, at, n, queue, seen, recorded, r.error);
        return;
      }
      var file := followed.value;
      EntryHasTarget(w, e.declaring, e.boundary, e.entry);
      if file.path in seen {
        ghost var i := WhereSeen(w, root, loaded, at, n, queue, seen, recorded, file);
        if Loses(recorded, file.path, TrustOf(file.boundary)) {
          r := Err(GrantLost(file.path));
          Stops(w, root, loaded, at, n, queue, seen, recorded, r.error);
          return;
        }
        SkipFront(w, root, loaded, at, n, queue, seen, recorded, i);
        queue := queue[1..];
      } else {
        if !FileOk(w, file.path, file.boundary, e.entry) {
          SeenIsHeld(w, root, loaded, at, n, queue, seen, recorded, file.path);
          r := Err(FileRefused(file.path));
          Stops(w, root, loaded, at, n, queue, seen, recorded, r.error);
          return;
        }
        FileOkReads(w, file.path, file.boundary, e.entry);
        LoadFront(w, root, loaded, at, n, queue, seen, recorded, file);
        recorded := recorded[file.path := TrustOf(file.boundary)];
        queue := queue[1..] + Queued(file.path, file.boundary, w.files[file.path].includes);
        seen := seen + {file.path};
        loaded := loaded + [file];
        at := at + [n];
      }
      n := n + 1;
    }
    WalkFinished(w, root, loaded, at, n, queue, seen, recorded);
    EverythingLoaded(w, root, loaded, at);
    IsLoadable(w, root, loaded, at);
    r := Ok(loaded);
  }

  lemma NoRoot(w: World, root: Path)
    requires root !in w.files
    ensures FailsFirst(w, root, RootUnreadable) && Witnessed(w, root, RootUnreadable)
    ensures !Loadable(w, root) && !AllChecksPass(w, root)
  {
    hide LoadedBy, Settled;
  }

  lemma SeenIsHeld(w: World, root: Path, loaded: seq<LoadedFile>, at: seq<nat>, n: nat,
                   queue: seq<Pending>, seen: set<Path>, recorded: Recorded, p: Path)
    requires Walking(w, root, loaded, at, n, queue, seen, recorded)
    ensures p in seen <==> Holds(loaded, p)
  {
    hide Walked, Entries, RecordedOk, Holds;
  }

  lemma IsLoadable(w: World, root: Path, loaded: seq<LoadedFile>, at: seq<nat>)
    requires Complete(w, root, loaded, at)
    ensures Loadable(w, root)
  {
  }

  lemma WhereSeen(w: World, root: Path, loaded: seq<LoadedFile>, at: seq<nat>, n: nat,
                  queue: seq<Pending>, seen: set<Path>, recorded: Recorded, file: LoadedFile) returns (i: nat)
    requires Walking(w, root, loaded, at, n, queue, seen, recorded) && file.path in seen
    ensures i < |loaded| && loaded[i].path == file.path && InEntryOrder(w, root, loaded, at)
    ensures Loses(recorded, file.path, TrustOf(file.boundary)) <==> Lost(root, loaded[i], file.boundary)
  {
    hide InEntryOrder, Settled, Loses, Lost, TrustOf, Entries, RecordedOk;
    i :| 0 <= i < |loaded| && loaded[i].path == file.path;
    LosesMeansLost(w, root, loaded, at, recorded, i, file.boundary);
  }

  lemma NoClones(w: World)
    ensures Memo(w, map[], [])
  {
  }

  lemma EntryHasTarget(w: World, q: Path, b: Option<Boundary>, entry: Include)
    requires EntryOk(w, q, b, entry)
    ensures Target(w, q, entry).Some?
  {
  }

  lemma FileOkReads(w: World, p: Path, b: Option<Boundary>, entry: Include)
    requires FileOk(w, p, b, entry)
    ensures p in w.files
  {
  }

  /** An included file that names the project, or forbids telemetry, stops the load. */
  lemma OnlyTheRootMay(w: World, root: Path, p: Path)
    requires Reached(IncludeGraph(w), {root}, p) && p != root && p in w.files
    requires w.files[p].projectName.Some? || w.files[p].forbidTelemetry == Some(true)
    ensures !Loadable(w, root)
  {
    hide Complete, IncludeGraph, Reached, Arrives;
    if Loadable(w, root) {
      var loaded, at :| Complete(w, root, loaded, at);
      EverythingLoaded(w, root, loaded, at);
    }
  }

  // ----- the root, included again

  /** The root is loaded but never recorded, so arriving there with any grant at all loses it. */
  lemma RootLosesEveryGrant(root: Path, b: Option<Boundary>)
    ensures Lost(root, LoadedFile(root, None), b) <==> Carries(b)
  {
  }

  const ROOT_AGAIN := "/clone/batect.yml"

  /** A project kept in the clone of its own repository, which its root includes with a grant. */
  function RootAgain(): World {
    World(
      map[ROOT_AGAIN := ConfigFile([Git("repo", "main", None, Grants(true, false))], [], [], [], None, None)],
      (q, p) => None,
      key => Some("/clone"),
      (dir, within) => Some(ROOT_AGAIN),
      (b: Boundary, p: Path) => b.repoDir + "/" <= p,
      (q, b, entry) => true,
      (p, b, entry) => true)
  }

  /** It is refused for the grant, and for nothing else: an unrecorded file does reach the check. */
  lemma RootAgainIsRefused(error: LoadError)
    ensures FailsFirst(RootAgain(), ROOT_AGAIN, error) <==> error == GrantLost(ROOT_AGAIN)
    ensures !Loadable(RootAgain(), ROOT_AGAIN)
  {
    var w := RootAgain();
    var loaded := [LoadedFile(ROOT_AGAIN, None)];
    var entry := Git("repo", "main", None, Grants(true, false));
    var boundary := Some(Boundary("/clone", Bundle("repo", "main", Grants(true, false))));
    var lost := GrantLost(ROOT_AGAIN);
    RootLoaded(w, ROOT_AGAIN);
    assert loaded[..0] == [] && Entries(w, loaded) == EntriesOf(w, loaded[0]);
    assert Entries(w, loaded)[0] == Pending(ROOT_AGAIN, None, entry);
    assert BoundaryPast(w, None, entry) == boundary;
    assert "/clone" + "/" <= ROOT_AGAIN by {
      assert ROOT_AGAIN[..7] == "/clone/";
    }
    RootLosesEveryGrant(ROOT_AGAIN, boundary);
    assert Refuses(w, ROOT_AGAIN, loaded, Entries(w, loaded)[0], lost);
    assert FailsAt(w, ROOT_AGAIN, loaded, [0], 0, lost);
    FailureOrSuccess(w, ROOT_AGAIN, lost);
    if FailsFirst(w, ROOT_AGAIN, error) {
      OneFailure(w, ROOT_AGAIN, error, lost);
    }
  }
}
