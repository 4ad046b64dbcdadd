/** Breadth-first order leaves no choice: two walks from one root agree as far as both go. */
module LoadUniqueness {
  import opened Includes
  import opened LoadOrder

  /** What an entry already followed leads to is loaded. */
  lemma FollowedIsLoaded(w: World, root: Path, loaded: seq<LoadedFile>, at: seq<nat>, n: nat, m: nat)
    requires Walked(w, root, loaded, at, n) && m < n
    ensures var e := Entries(w, loaded)[m];
      Target(w, e.declaring, e.entry).Some? && Holds(loaded, Target(w, e.declaring, e.entry).value)
  {
    hide Lost, BoundaryPast, Target, InEntryOrder;
    InOrderLengths(w, root, loaded, at);
    assert Settled(w, root, loaded, at, Entries(w, loaded)[m], m);
  }

  lemma NextNotHeld(w: World, root: Path, loaded: seq<LoadedFile>, all: seq<LoadedFile>, allAt: seq<nat>)
    requires InEntryOrder(w, root, all, allAt) && loaded <= all && |loaded| < |all|
    ensures !Holds(loaded, all[|loaded|].path)
  {
    hide LoadedBy;
  }

  lemma NextLoadedBy(w: World, root: Path, loaded: seq<LoadedFile>, all: seq<LoadedFile>, allAt: seq<nat>)
    requires InEntryOrder(w, root, all, allAt) && loaded <= all && 0 < |loaded| < |all|
    ensures var m := allAt[|loaded|];
      && m < |Entries(w, loaded)|
      && var e := Entries(w, loaded)[m];
      && Target(w, e.declaring, e.entry).Some? && all[|loaded|] == Arrival(w, e)
      && FileOk(w, Arrival(w, e).path, Arrival(w, e).boundary, e.entry)
  {
    hide FileOk, BoundaryPast, Target;
    assert all[..|loaded|] == loaded;
    assert LoadedBy(w, all, allAt[|loaded|], |loaded|);
  }

  /** The next file of a complete walk was loaded by an entry not yet followed. */
  lemma NextIsLater(w: World, root: Path, loaded: seq<LoadedFile>, at: seq<nat>, n: nat,
                    all: seq<LoadedFile>, allAt: seq<nat>)
    requires Walked(w, root, loaded, at, n) && InEntryOrder(w, root, all, allAt)
    requires loaded <= all && 0 < |loaded| < |all|
    ensures n <= allAt[|loaded|] < |Entries(w, loaded)|
  {
    hide Walked, InEntryOrder, Target, BoundaryPast, FileOk, Holds;
    InOrderLengths(w, root, all, allAt);
    NextLoadedBy(w, root, loaded, all, allAt);
    NextNotHeld(w, root, loaded, all, allAt);
    if allAt[|loaded|] < n {
      FollowedIsLoaded(w, root, loaded, at, n, allAt[|loaded|]);
    }
  }

  /** Where a walk took an entry. */
  lemma WhereItLeads(w: World, root: Path, all: seq<LoadedFile>, allAt: seq<nat>, n: nat, m: nat) returns (i: nat)
    requires Walked(w, root, all, allAt, n) && m < n
    ensures m < |Entries(w, all)|
    ensures i < |all| == |allAt| && (i == 0 || allAt[i] <= m) && LeadsTo(w, root, Entries(w, all)[m], all[i])
    ensures var e := Entries(w, all)[m]; EntryOk(w, e.declaring, e.boundary, e.entry)
  {
    hide LeadsTo, EntryOk, LoadedBy;
    var e := Entries(w, all)[m];
    assert Settled(w, root, all, allAt, e, m);
    i :| 0 <= i < |all| && (i == 0 || allAt[i] <= m) && LeadsTo(w, root, e, all[i]);
  }

  lemma PathsDistinct(w: World, root: Path, all: seq<LoadedFile>, allAt: seq<nat>, i: nat, j: nat)
    requires InEntryOrder(w, root, all, allAt) && i < |all| && j < |all| && all[i].path == all[j].path
    ensures i == j
  {
    hide LoadedBy;
  }

  lemma NumbersGrow(w: World, root: Path, all: seq<LoadedFile>, allAt: seq<nat>, i: nat, j: nat)
    requires InEntryOrder(w, root, all, allAt) && 0 < i <= j < |all|
    ensures |allAt| == |all| && allAt[i] <= allAt[j]
  {
    hide LoadedBy;
  }

  /** The next entry, where some walk went further the same way: followed as that walk followed it. */
  lemma NextIsForced(w: World, root: Path, loaded: seq<LoadedFile>, at: seq<nat>, n: nat,
                     all: seq<LoadedFile>, allAt: seq<nat>, further: nat)
    requires Walked(w, root, loaded, at, n) && Walked(w, root, all, allAt, further)
    requires loaded <= all && at <= allAt && n < |Entries(w, loaded)| && n < further
    ensures var e := Entries(w, loaded)[n];
      && EntryOk(w, e.declaring, e.boundary, e.entry) && Target(w, e.declaring, e.entry).Some?
      && (forall i :: 0 <= i < |loaded| && loaded[i].path == Arrival(w, e).path ==> LeadsTo(w, root, e, loaded[i]))
      && (!Holds(loaded, Arrival(w, e).path) ==>
            && FileOk(w, Arrival(w, e).path, Arrival(w, e).boundary, e.entry)
            && loaded + [Arrival(w, e)] <= all && at + [n] <= allAt)
  {
    hide InEntryOrder, Settled, Lost, BoundaryPast, Target, FileOk, EntryOk;
    InOrderLengths(w, root, loaded, at);
    InOrderLengths(w, root, all, allAt);
    EntriesKept(w, loaded, all);
    var e := Entries(w, loaded)[n];
    var i := WhereItLeads(w, root, all, allAt, further, n);
    forall j | 0 <= j < |loaded| && loaded[j].path == all[i].path ensures j == i {
      PathsDistinct(w, root, all, allAt, i, j);
    }
    if i >= |loaded| {
      var next := |loaded|;
      NextIsLater(w, root, loaded, at, n, all, allAt);
      NumbersGrow(w, root, all, allAt, next, i);
      NextLoadedBy(w, root, loaded, all, allAt);
      assert allAt[next] == n && all[next] == Arrival(w, e);
    }
  }

  lemma NotLater(w: World, root: Path, a: seq<LoadedFile>, aAt: seq<nat>, b: seq<LoadedFile>, bAt: seq<nat>, n: nat,
                 i: nat)
    requires InEntryOrder(w, root, a, aAt) && Walked(w, root, b, bAt, n)
    requires 0 < i < |a| == |aAt| && i <= |b| && a[..i] == b[..i] && aAt[i] < n
    ensures |bAt| == |b| && i < |b| && bAt[i] <= aAt[i]
  {
    hide InEntryOrder, Settled, Lost, BoundaryPast, Target, FileOk, EntryOk, Entries;
    InOrderLengths(w, root, b, bAt);
    NextLoadedBy(w, root, a[..i], a, aAt);
    EntriesKept(w, b[..i], b);
    var j := WhereItLeads(w, root, b, bAt, n, aAt[i]);
    if j < i {
      assert a[j] == a[..i][j] && b[j] == b[..i][j];
      PathsDistinct(w, root, a, aAt, i, j);
    } else {
      NumbersGrow(w, root, b, bAt, i, j);
    }
  }

  lemma NumberBelow(w: World, root: Path, loaded: seq<LoadedFile>, at: seq<nat>, n: nat, i: nat)
    requires Walked(w, root, loaded, at, n) && 0 < i < |loaded|
    ensures |at| == |loaded| && at[i] < n
  {
    hide LoadedBy, Settled;
  }

  lemma {:induction false} SameUpTo(w: World, root: Path, a: seq<LoadedFile>, aAt: seq<nat>, n: nat,
                                    b: seq<LoadedFile>, bAt: seq<nat>, m: nat, i: nat)
    requires Walked(w, root, a, aAt, n) && Walked(w, root, b, bAt, m) && n <= m && 0 < i <= |a|
    ensures |aAt| == |a| && |bAt| == |b|
    ensures i <= |b| && a[..i] == b[..i] && aAt[..i] == bAt[..i]
    decreases i
  {
    hide InEntryOrder, Settled, Target, FileOk, Entries;
    InOrderLengths(w, root, a, aAt);
    InOrderLengths(w, root, b, bAt);
    if i > 1 {
      var k := i - 1;
      SameUpTo(w, root, a, aAt, n, b, bAt, m, k);
      NumberBelow(w, root, a, aAt, n, k);
      NotLater(w, root, a, aAt, b, bAt, m, k);
      NotLater(w, root, b, bAt, a, aAt, n, k);
      NextLoadedBy(w, root, a[..k], a, aAt);
      NextLoadedBy(w, root, b[..k], b, bAt);
      assert a[..i] == a[..k] + [a[k]] && b[..i] == b[..k] + [b[k]];
      assert aAt[..i] == aAt[..k] + [aAt[k]] && bAt[..i] == bAt[..k] + [bAt[k]];
    }
  }

  /** Of two walks, the one that followed fewer entries is how the other began. */
  lemma WalkIsPrefix(w: World, root: Path, a: seq<LoadedFile>, aAt: seq<nat>, n: nat,
                     b: seq<LoadedFile>, bAt: seq<nat>, m: nat)
    requires Walked(w, root, a, aAt, n) && Walked(w, root, b, bAt, m) && n <= m
    ensures a <= b && aAt <= bAt
  {
    hide InEntryOrder, Settled, Entries;
    InOrderLengths(w, root, a, aAt);
    SameUpTo(w, root, a, aAt, n, b, bAt, m, |a|);
    assert a[..|a|] == a && aAt[..|a|] == aAt;
  }

  lemma CompleteIsAll(w: World, root: Path, a: seq<LoadedFile>, aAt: seq<nat>, b: seq<LoadedFile>, bAt: seq<nat>)
    requires Complete(w, root, a, aAt) && Complete(w, root, b, bAt) && |Entries(w, a)| <= |Entries(w, b)|
    ensures a == b
  {
    hide InEntryOrder, Settled, Entries;
    InOrderLengths(w, root, a, aAt);
    WalkIsPrefix(w, root, a, aAt, |Entries(w, a)|, b, bAt, |Entries(w, b)|);
    if |a| < |b| {
      NextIsLater(w, root, a, aAt, |Entries(w, a)|, b, bAt);
    }
  }

  /** Breadth-first order is unique: a root loads one sequence of files, each under one boundary. */
  lemma OneOrder(w: World, root: Path, a: seq<LoadedFile>, aAt: seq<nat>, b: seq<LoadedFile>, bAt: seq<nat>)
    requires Complete(w, root, a, aAt) && Complete(w, root, b, bAt)
    ensures a == b
  {
    hide Complete, Entries;
    if |Entries(w, a)| <= |Entries(w, b)| {
      CompleteIsAll(w, root, a, aAt, b, bAt);
    } else {
      CompleteIsAll(w, root, b, bAt, a, aAt);
    }
  }
}
