/**
 The order an include walk loads files in: breadth first, each file by the first entry
 that leads to it. Stated without a queue: every entry of the loaded files has a number,
 and each file knows the number of the entry that loaded it.
 */
module LoadOrder {
  import opened Common
  import opened Includes

  datatype LoadedFile = LoadedFile(path: Path, boundary: Option<Boundary>)

  datatype Pending = Pending(declaring: Path, boundary: Option<Boundary>, entry: Include)

  function Queued(declaring: Path, boundary: Option<Boundary>, includes: seq<Include>): seq<Pending> {
    seq(|includes|, i requires 0 <= i < |includes| => Pending(declaring, boundary, includes[i]))
  }

  function EntriesOf(w: World, file: LoadedFile): seq<Pending> {
    if file.path in w.files then Queued(file.path, file.boundary, w.files[file.path].includes) else []
  }

  /** Every include of the loaded files, file by file. */
  function Entries(w: World, loaded: seq<LoadedFile>): seq<Pending> {
    if loaded == [] then [] else Entries(w, loaded[..|loaded| - 1]) + EntriesOf(w, loaded[|loaded| - 1])
  }

  /** What following an entry would load. */
  function Arrival(w: World, e: Pending): LoadedFile
    requires Target(w, e.declaring, e.entry).Some?
  {
    LoadedFile(Target(w, e.declaring, e.entry).value, BoundaryPast(w, e.boundary, e.entry))
  }

  // ----- grants a later route may have lost

  function TrustOf(boundary: Option<Boundary>): Option<Grants> {
    match boundary
    case Some(b) => Some(b.bundle.trust)
    case None => None
  }

  predicate Exceeds(wanted: Option<Grants>, effective: Grants) {
    && wanted.Some?
    && ((wanted.value.hostPaths && !effective.hostPaths) || (wanted.value.nestedGit && !effective.nestedGit))
  }

  /** Arriving again at a file, under `boundary`, loses a grant; nothing is ever granted to the root. */
  predicate Lost(root: Path, file: LoadedFile, boundary: Option<Boundary>) {
    var effective := if file.path == root then Some(Grants(false, false)) else TrustOf(file.boundary);
    effective.Some? && Exceeds(TrustOf(boundary), effective.value)
  }

  // ----- the order

  /** File `i` was loaded by an entry of an earlier file, and passed every check on loading it. */
  ghost predicate LoadedBy(w: World, loaded: seq<LoadedFile>, m: nat, i: nat)
    requires i < |loaded|
  {
    && m < |Entries(w, loaded[..i])|
    && var e := Entries(w, loaded[..i])[m];
    && Target(w, e.declaring, e.entry).Some? && loaded[i] == Arrival(w, e)
    && FileOk(w, loaded[i].path, loaded[i].boundary, e.entry)
  }

  /** The root first, then each file once, in the order of the entries that loaded them. */
  ghost predicate InEntryOrder(w: World, root: Path, loaded: seq<LoadedFile>, at: seq<nat>) {
    && root in w.files && loaded != [] && loaded[0] == LoadedFile(root, None)
    && |at| == |loaded| && at[0] == 0
    && (forall i, j :: 0 <= i < j < |loaded| ==> loaded[i].path != loaded[j].path)
    && (forall i :: 0 < i < |loaded| ==> LoadedBy(w, loaded, at[i], i))
    && (forall i, j :: 0 < i < j < |at| ==> at[i] < at[j])
  }

  /** Entry `m` passed its checks, and leads to a file that it or an earlier entry loaded, losing nothing. */
  ghost predicate Settled(w: World, root: Path, loaded: seq<LoadedFile>, at: seq<nat>, e: Pending, m: nat)
    requires |at| == |loaded|
  {
    && EntryOk(w, e.declaring, e.boundary, e.entry)
    && exists i :: 0 <= i < |loaded| && (i == 0 || at[i] <= m) && LeadsTo(w, root, e, loaded[i])
  }

  ghost predicate LeadsTo(w: World, root: Path, e: Pending, file: LoadedFile) {
    && Target(w, e.declaring, e.entry) == Some(file.path)
    && !Lost(root, file, BoundaryPast(w, e.boundary, e.entry))
  }

  /** The first `n` entries have been followed. */
  ghost predicate Walked(w: World, root: Path, loaded: seq<LoadedFile>, at: seq<nat>, n: nat) {
    && InEntryOrder(w, root, loaded, at)
    && (forall i :: 0 < i < |at| ==> at[i] < n)
    && n <= |Entries(w, loaded)|
    && (forall m :: 0 <= m < n ==> Settled(w, root, loaded, at, Entries(w, loaded)[m], m))
  }

  /** All of them have: `loaded` is what a load of `root` gives. */
  ghost predicate Complete(w: World, root: Path, loaded: seq<LoadedFile>, at: seq<nat>) {
    Walked(w, root, loaded, at, |Entries(w, loaded)|)
  }

  ghost predicate Loadable(w: World, root: Path) {
    exists loaded, at :: Complete(w, root, loaded, at)
  }

  // ----- numbering

  lemma EntriesAppend(w: World, loaded: seq<LoadedFile>, file: LoadedFile)
    ensures Entries(w, loaded + [file]) == Entries(w, loaded) + EntriesOf(w, file)
  {
    assert (loaded + [file])[..|loaded|] == loaded;
  }

  lemma {:induction false} EntriesPrefix(w: World, loaded: seq<LoadedFile>, i: nat)
    requires i <= |loaded|
    ensures Entries(w, loaded[..i]) <= Entries(w, loaded)
    decreases |loaded| - i
  {
    if i < |loaded| {
      EntriesPrefix(w, loaded, i + 1);
      assert loaded[..i + 1] == loaded[..i] + [loaded[i]];
      EntriesAppend(w, loaded[..i], loaded[i]);
    } else {
      assert loaded[..i] == loaded;
    }
  }

  lemma EntriesKept(w: World, some: seq<LoadedFile>, all: seq<LoadedFile>)
    requires some <= all
    ensures Entries(w, some) <= Entries(w, all)
  {
    assert some == all[..|some|];
    EntriesPrefix(w, all, |some|);
  }

  // ----- the steps of a walk

  lemma RootLoaded(w: World, root: Path)
    requires root in w.files
    ensures Walked(w, root, [LoadedFile(root, None)], [0], 0)
  {
  }

  /** An entry that leads to a file already loaded. */
  lemma EntryMet(w: World, root: Path, loaded: seq<LoadedFile>, at: seq<nat>, n: nat, i: nat)
    requires Walked(w, root, loaded, at, n) && n < |Entries(w, loaded)| && i < |loaded|
    requires var e := Entries(w, loaded)[n];
      EntryOk(w, e.declaring, e.boundary, e.entry) && LeadsTo(w, root, e, loaded[i])
    ensures Walked(w, root, loaded, at, n + 1)
  {
    hide EntryOk, LeadsTo, InEntryOrder;
    InOrderLengths(w, root, loaded, at);
    assert Settled(w, root, loaded, at, Entries(w, loaded)[n], n);
  }

  lemma InOrderLengths(w: World, root: Path, loaded: seq<LoadedFile>, at: seq<nat>)
    requires InEntryOrder(w, root, loaded, at)
    ensures |at| == |loaded| > 0 && loaded[0] == LoadedFile(root, None) && at[0] == 0
  {
  }

  ghost predicate Holds(loaded: seq<LoadedFile>, p: Path) {
    exists i :: 0 <= i < |loaded| && loaded[i].path == p
  }

  lemma OrderGrows(w: World, root: Path, loaded: seq<LoadedFile>, at: seq<nat>, n: nat)
    requires Walked(w, root, loaded, at, n) && n < |Entries(w, loaded)|
    requires var e := Entries(w, loaded)[n];
      && Target(w, e.declaring, e.entry).Some? && FileOk(w, Arrival(w, e).path, Arrival(w, e).boundary, e.entry)
      && !Holds(loaded, Arrival(w, e).path)
    ensures InEntryOrder(w, root, loaded + [Arrival(w, Entries(w, loaded)[n])], at + [n])
  {
    hide FileOk, Settled, Arrival, Target, Entries;
    var e := Entries(w, loaded)[n];
    var longer := loaded + [Arrival(w, e)];
    forall i | 0 < i < |longer| ensures LoadedBy(w, longer, (at + [n])[i], i) {
      if i < |loaded| {
        assert longer[..i] == loaded[..i];
        assert LoadedBy(w, loaded, at[i], i);
      } else {
        assert longer[..i] == loaded;
      }
    }
  }

  lemma NeverLostAtFirst(root: Path, file: LoadedFile)
    requires file.path != root
    ensures !Lost(root, file, file.boundary)
  {
  }

  lemma StillSettled(w: World, root: Path, loaded: seq<LoadedFile>, at: seq<nat>, file: LoadedFile, n: nat,
                     e: Pending, m: nat)
    requires |at| == |loaded| && Settled(w, root, loaded, at, e, m)
    ensures Settled(w, root, loaded + [file], at + [n], e, m)
  {
    hide EntryOk, LeadsTo;
    var i :| 0 <= i < |loaded| && (i == 0 || at[i] <= m) && LeadsTo(w, root, e, loaded[i]);
    assert (loaded + [file])[i] == loaded[i] && (at + [n])[i] == at[i];
  }

  /** An entry that leads to a new file. */
  lemma EntryLoads(w: World, root: Path, loaded: seq<LoadedFile>, at: seq<nat>, n: nat)
    requires Walked(w, root, loaded, at, n) && n < |Entries(w, loaded)|
    requires var e := Entries(w, loaded)[n];
      && EntryOk(w, e.declaring, e.boundary, e.entry)
      && FileOk(w, Arrival(w, e).path, Arrival(w, e).boundary, e.entry)
      && !Holds(loaded, Arrival(w, e).path)
    ensures Walked(w, root, loaded + [Arrival(w, Entries(w, loaded)[n])], at + [n], n + 1)
  {
    hide Entries, InEntryOrder, Settled, FileOk, BoundaryPast;
    var e := Entries(w, loaded)[n];
    var file := Arrival(w, e);
    InOrderLengths(w, root, loaded, at);
    assert loaded[0].path == root;
    OrderGrows(w, root, loaded, at, n);
    EntriesAppend(w, loaded, file);
    var longer, more := loaded + [file], at + [n];
    assert |Entries(w, loaded)| <= |Entries(w, longer)|;
    NewSettled(w, root, loaded, at, n, e);
    hide Target, EntryOk;
    forall m | 0 <= m < n + 1 ensures Settled(w, root, longer, more, Entries(w, longer)[m], m) {
      assert Entries(w, longer)[m] == Entries(w, loaded)[m];
      if m < n {
        StillSettled(w, root, loaded, at, file, n, Entries(w, loaded)[m], m);
      }
    }
  }

  /** The entry that loads a file is settled by it. */
  lemma NewSettled(w: World, root: Path, loaded: seq<LoadedFile>, at: seq<nat>, n: nat, e: Pending)
    requires |at| == |loaded| > 0 && loaded[0].path == root
    requires EntryOk(w, e.declaring, e.boundary, e.entry) && Arrival(w, e).path != root
    ensures Settled(w, root, loaded + [Arrival(w, e)], at + [n], e, n)
  {
    var file := Arrival(w, e);
    var longer, more := loaded + [file], at + [n];
    NeverLostAtFirst(root, file);
    hide EntryOk, Lost;
    assert longer[|loaded|] == file && more[|loaded|] == n && LeadsTo(w, root, e, file);
  }
}
