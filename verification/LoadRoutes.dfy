/** The routes files were loaded along: nearest first, each a shortest one, and what boundary it ends with. */
module LoadRoutes {
  import opened Common
  import opened Graphs
  import opened Includes
  import opened LoadOrder
  import opened LoadUniqueness

  /** Which file entry `m` belongs to. */
  function Owner(w: World, loaded: seq<LoadedFile>, m: nat): (j: nat)
    requires m < |Entries(w, loaded)|
    ensures j < |loaded|
  {
    var front := loaded[..|loaded| - 1];
    if m < |Entries(w, front)| then Owner(w, front, m) else |front|
  }

  lemma {:induction false} OwnerDeclares(w: World, loaded: seq<LoadedFile>, m: nat)
    requires m < |Entries(w, loaded)|
    ensures var e, file := Entries(w, loaded)[m], loaded[Owner(w, loaded, m)];
      && file.path in w.files && e.declaring == file.path && e.boundary == file.boundary
      && e.entry in w.files[file.path].includes
  {
    var front, last := loaded[..|loaded| - 1], loaded[|loaded| - 1];
    if m < |Entries(w, front)| {
      OwnerDeclares(w, front, m);
    } else {
      assert Entries(w, loaded)[m] == EntriesOf(w, last)[m - |Entries(w, front)|];
    }
  }

  lemma {:induction false} OwnerGrows(w: World, loaded: seq<LoadedFile>, m: nat, n: nat)
    requires m <= n < |Entries(w, loaded)|
    ensures Owner(w, loaded, m) <= Owner(w, loaded, n)
  {
    hide EntriesOf;
    var front := loaded[..|loaded| - 1];
    if n < |Entries(w, front)| {
      OwnerGrows(w, front, m, n);
    }
  }

  /** Numbering does not depend on what is loaded later. */
  lemma {:induction false} OwnerKept(w: World, loaded: seq<LoadedFile>, i: nat, m: nat)
    requires i <= |loaded| && m < |Entries(w, loaded[..i])|
    ensures m < |Entries(w, loaded)| && Owner(w, loaded, m) == Owner(w, loaded[..i], m)
    ensures Entries(w, loaded)[m] == Entries(w, loaded[..i])[m]
    decreases |loaded|
  {
    hide EntriesOf;
    EntriesPrefix(w, loaded, i);
    if i == |loaded| {
      assert loaded[..i] == loaded;
    } else {
      var front := loaded[..|loaded| - 1];
      assert front[..i] == loaded[..i];
      OwnerKept(w, front, i, m);
    }
  }

  /** The number of every include of a loaded file. */
  lemma {:induction false} NumberOf(w: World, loaded: seq<LoadedFile>, j: nat, entry: Include) returns (m: nat)
    requires j < |loaded| && loaded[j].path in w.files && entry in w.files[loaded[j].path].includes
    ensures m < |Entries(w, loaded)| && Owner(w, loaded, m) == j
    ensures Entries(w, loaded)[m] == Pending(loaded[j].path, loaded[j].boundary, entry)
    decreases |loaded|
  {
    var front, last := loaded[..|loaded| - 1], loaded[|loaded| - 1];
    if j < |front| {
      m := NumberOf(w, front, j, entry);
    } else {
      var k :| 0 <= k < |w.files[last.path].includes| && w.files[last.path].includes[k] == entry;
      m := |Entries(w, front)| + k;
      assert Entries(w, loaded)[m] == EntriesOf(w, last)[k];
    }
  }

  lemma LoaderIsEarlier(w: World, root: Path, loaded: seq<LoadedFile>, at: seq<nat>, i: nat)
    requires InEntryOrder(w, root, loaded, at) && 0 < i < |loaded|
    ensures |at| == |loaded| && at[i] < |Entries(w, loaded)| && Owner(w, loaded, at[i]) < i
  {
    assert LoadedBy(w, loaded, at[i], i);
    OwnerKept(w, loaded, i, at[i]);
  }

  /** How many includes led to file `i`. */
  ghost function Depth(w: World, root: Path, loaded: seq<LoadedFile>, at: seq<nat>, i: nat): nat
    requires InEntryOrder(w, root, loaded, at) && i < |loaded|
  {
    if i == 0 then 0
    else
      LoaderIsEarlier(w, root, loaded, at, i);
      1 + Depth(w, root, loaded, at, Owner(w, loaded, at[i]))
  }

  /** Files are loaded nearest first. */
  lemma {:induction false} DepthGrows(w: World, root: Path, loaded: seq<LoadedFile>, at: seq<nat>, i: nat, j: nat)
    requires InEntryOrder(w, root, loaded, at) && i <= j < |loaded|
    ensures Depth(w, root, loaded, at, i) <= Depth(w, root, loaded, at, j)
    decreases j
  {
    hide InEntryOrder, Owner, Entries;
    if 0 < i {
      LoaderIsEarlier(w, root, loaded, at, i);
      LoaderIsEarlier(w, root, loaded, at, j);
      NumbersGrow(w, root, loaded, at, i, j);
      OwnerGrows(w, loaded, at[i], at[j]);
      DepthGrows(w, root, loaded, at, Owner(w, loaded, at[i]), Owner(w, loaded, at[j]));
    }
  }

  /** The route that loaded a file ends with the boundary it was loaded under. */
  lemma {:induction false} LoadedAlong(w: World, root: Path, loaded: seq<LoadedFile>, at: seq<nat>, i: nat)
    returns (route: seq<Include>)
    requires InEntryOrder(w, root, loaded, at) && i < |loaded|
    ensures |route| == Depth(w, root, loaded, at, i)
    ensures Route(w, root, route, loaded[i].path, loaded[i].boundary)
    decreases i
  {
    hide Owner, Target, BoundaryPast, FileOk, Entries;
    if i == 0 {
      route := [];
    } else {
      LoaderIsEarlier(w, root, loaded, at, i);
      var j := Owner(w, loaded, at[i]);
      OwnerDeclares(w, loaded, at[i]);
      var shorter := LoadedAlong(w, root, loaded, at, j);
      assert LoadedBy(w, loaded, at[i], i);
      OwnerKept(w, loaded, i, at[i]);
      var entry := Entries(w, loaded)[at[i]].entry;
      RoutePast(w, root, shorter, loaded[j].path, loaded[j].boundary, entry);
      route := shorter + [entry];
    }
  }

  lemma RoutePast(w: World, root: Path, route: seq<Include>, q: Path, b: Option<Boundary>, entry: Include)
    requires Route(w, root, route, q, b) && q in w.files && entry in w.files[q].includes
    requires Target(w, q, entry).Some?
    ensures Route(w, root, route + [entry], Target(w, q, entry).value, BoundaryPast(w, b, entry))
  {
    hide Target, BoundaryPast;
    var longer := route + [entry];
    assert longer[..|longer| - 1] == route && longer[|longer| - 1] == entry;
    assert Route(w, root, longer[..|longer| - 1], q, b);
  }

  lemma EdgeEntry(w: World, q: Path, p: Path) returns (entry: Include)
    requires p in Successors(IncludeGraph(w), q)
    ensures q in w.files && entry in w.files[q].includes && Target(w, q, entry) == Some(p)
  {
    hide Target;
    TargetsOfMembers(w, q, w.files[q].includes, p);
    var x :| 0 <= x < |w.files[q].includes| && Target(w, q, w.files[q].includes[x]) == Some(p);
    entry := w.files[q].includes[x];
  }

  /** What a loaded file includes is loaded, at most one include farther. */
  lemma IncludedIsLoaded(w: World, root: Path, loaded: seq<LoadedFile>, at: seq<nat>, j: nat, entry: Include, p: Path)
    returns (i: nat)
    requires Complete(w, root, loaded, at) && j < |loaded| && loaded[j].path in w.files
    requires entry in w.files[loaded[j].path].includes && Target(w, loaded[j].path, entry) == Some(p)
    ensures i < |loaded| && loaded[i].path == p
    ensures Depth(w, root, loaded, at, i) <= Depth(w, root, loaded, at, j) + 1
  {
    hide InEntryOrder, Settled, Owner, Target, Lost, BoundaryPast, EntryOk, Entries;
    var m := NumberOf(w, loaded, j, entry);
    i := WhereItLeads(w, root, loaded, at, |Entries(w, loaded)|, m);
    if i > 0 {
      LoaderIsEarlier(w, root, loaded, at, i);
      OwnerGrows(w, loaded, at[i], m);
      DepthGrows(w, root, loaded, at, Owner(w, loaded, at[i]), j);
    }
  }

  /** Whatever some includes lead to is loaded, by no more of them. */
  lemma {:induction false} ReachedIsLoaded(w: World, root: Path, loaded: seq<LoadedFile>, at: seq<nat>, p: Path, k: nat)
    returns (i: nat)
    requires Complete(w, root, loaded, at) && Steps(IncludeGraph(w), {root}, p, k)
    ensures i < |loaded| && loaded[i].path == p && Depth(w, root, loaded, at, i) <= k
    decreases k
  {
    hide InEntryOrder, Settled, Target, Entries, IncludeGraph, Successors;
    InOrderLengths(w, root, loaded, at);
    if k == 0 {
      i := 0;
    } else {
      var q :| Steps(IncludeGraph(w), {root}, q, k - 1) && p in Successors(IncludeGraph(w), q);
      var j := ReachedIsLoaded(w, root, loaded, at, q, k - 1);
      var entry := EdgeEntry(w, q, p);
      i := IncludedIsLoaded(w, root, loaded, at, j, entry, p);
    }
  }

  /** Each file was loaded along a shortest route, and its boundary is that route's. */
  lemma LoadedAlongShortest(w: World, root: Path, loaded: seq<LoadedFile>, at: seq<nat>, i: nat)
    returns (route: seq<Include>)
    requires Complete(w, root, loaded, at) && i < |loaded|
    ensures Route(w, root, route, loaded[i].path, loaded[i].boundary)
    ensures |route| == Depth(w, root, loaded, at, i)
    ensures forall other, b :: Route(w, root, other, loaded[i].path, b) ==> |route| <= |other|
  {
    hide InEntryOrder, Settled, Route;
    route := LoadedAlong(w, root, loaded, at, i);
    forall other, b | Route(w, root, other, loaded[i].path, b) ensures |route| <= |other| {
      RouteReaches(w, root, other, loaded[i].path, b);
      var j := ReachedIsLoaded(w, root, loaded, at, loaded[i].path, |other|);
      PathsDistinct(w, root, loaded, at, i, j);
    }
  }

  /** So its boundary is that of the last Git include on a shortest route to it. */
  lemma LoadedUnderLastGit(w: World, root: Path, loaded: seq<LoadedFile>, at: seq<nat>, i: nat)
    returns (route: seq<Include>)
    requires Complete(w, root, loaded, at) && i < |loaded|
    ensures Route(w, root, route, loaded[i].path, loaded[i].boundary)
    ensures forall other, b :: Route(w, root, other, loaded[i].path, b) ==> |route| <= |other|
    ensures IsLastGits(w, route, loaded[i].boundary)
  {
    hide Complete, Route, IsLastGits;
    route := LoadedAlongShortest(w, root, loaded, at, i);
    BoundaryIsLastGits(w, root, route, loaded[i].path, loaded[i].boundary);
  }

  /** A file loaded inside a boundary lies within it. */
  lemma LoadedIsContained(w: World, root: Path, loaded: seq<LoadedFile>, at: seq<nat>, n: nat, i: nat)
    requires Walked(w, root, loaded, at, n) && i < |loaded| && loaded[i].boundary.Some?
    ensures w.contains(loaded[i].boundary.value, loaded[i].path)
  {
    hide Lost, FileOk, Entries;
    InOrderLengths(w, root, loaded, at);
    NumberBelow(w, root, loaded, at, n, i);
    assert LoadedBy(w, loaded, at[i], i);
    EntriesPrefix(w, loaded, i);
    var j := WhereItLeads(w, root, loaded, at, n, at[i]);
  }
}
