/** Listing and cleaning caches: two steps over storage others may change in between. */
module CacheStores {
  import opened Common
  import opened Sorting
  import opened Cache

  datatype CacheSelection = CacheSelection(owned: seq<string>, shared: seq<string>, scope: Option<Scope>) {
    /** The names within reach of a clean under this scope. */
    function Actionable(): seq<string> {
      if scope == Some(Shared) then shared else owned
    }

    /** Of the names wanted, those that belong to shared caches. */
    function SharedOnly(wanted: set<string>): seq<string> {
      Sort(Wanted(shared, wanted))
    }
  }

  datatype Refusal = SharedNotNamed(name: string) | SharedSweepNotNamed

  datatype Outcome = Cleaned(removed: seq<RemovedCache>) | Refused(refusal: Refusal) | Failed

  function Wanted(names: seq<string>, wanted: set<string>): seq<string> {
    if names == [] then []
    else (if names[0] in wanted then [names[0]] else []) + Wanted(names[1..], wanted)
  }

  lemma {:induction false} WantedMembers(names: seq<string>, wanted: set<string>)
    ensures forall n :: n in Wanted(names, wanted) <==> n in names && n in wanted
  {
    if names != [] {
      WantedMembers(names[1..], wanted);
    }
  }

  /** The names of the volumes under `prefix`. */
  function NamesUnder(volumes: seq<string>, prefix: string): seq<string> {
    if volumes == [] then []
    else
      NamesUnder(volumes[..|volumes| - 1], prefix)
      + match StripPrefix(volumes[|volumes| - 1], prefix) case Some(name) => [name] case None => []
  }

  /** Whether a volume is one `only` selects under `prefix`; an empty `only` selects them all. */
  predicate Selects(prefix: string, only: set<string>, volume: string) {
    StartsWith(volume, prefix) && (only == {} || volume[|prefix|..] in only)
  }

  function MatchingCacheVolumes(existing: seq<string>, prefix: string, only: set<string>): seq<string> {
    if existing == [] then []
    else
      var last := existing[|existing| - 1];
      MatchingCacheVolumes(existing[..|existing| - 1], prefix, only)
      + if Selects(prefix, only, last) then [last] else []
  }

  /** For a shared cache an empty `only` selects nothing. */
  function MatchingSharedCacheVolumes(existing: seq<string>, only: set<string>): seq<string> {
    if only == {} then [] else MatchingCacheVolumes(existing, SharedCacheVolumeName(""), only)
  }

  lemma {:induction false} MatchingMembers(existing: seq<string>, prefix: string, only: set<string>)
    ensures forall v :: v in MatchingCacheVolumes(existing, prefix, only) <==> v in existing && Selects(prefix, only, v)
  {
    if existing != [] {
      MatchingMembers(existing[..|existing| - 1], prefix, only);
      assert existing == existing[..|existing| - 1] + [existing[|existing| - 1]];
    }
  }

  /** What `list` reports for one state of storage. */
  function Selection(volumes: seq<string>, key: Option<string>, scope: Option<Scope>): CacheSelection {
    CacheSelection(
      if scope == Some(Shared) || key.None? then [] else Sort(NamesUnder(volumes, ProjectPrefix(key.value))),
      if scope == Some(Project) then [] else Sort(NamesUnder(volumes, SharedCacheVolumeName(""))),
      scope)
  }

  /** The only volumes a clean may take: named shared ones under `--scope shared`, else this key's own. */
  ghost predicate MayRemove(scope: Option<Scope>, only: set<string>, key: Option<string>, volume: string) {
    if scope == Some(Shared) then exists n :: n in only && volume == "ratect-shared-cache-" + n
    else
      key.Some? && exists n :: volume == "batect-cache-" + key.value + "-" + n && (only == {} || n in only)
  }

  lemma SelectsMeans(prefix: string, only: set<string>, volume: string)
    ensures Selects(prefix, only, volume) <==> exists n :: volume == prefix + n && (only == {} || n in only)
  {
    if StartsWith(volume, prefix) {
      assert volume == prefix + volume[|prefix|..];
    }
    forall n | volume == prefix + n ensures volume[|prefix|..] == n {
    }
  }

  /** A clean's targets are the volumes it may remove. */
  lemma TargetsMean(volumes: seq<string>, scope: Option<Scope>, only: set<string>, key: Option<string>, v: string)
    ensures v in Targets(volumes, scope, only, key) <==> v in volumes && MayRemove(scope, only, key, v)
  {
    hide MatchingCacheVolumes, Selects;
    var prefix := TargetPrefix(scope, key);
    assert key.Some? ==> ProjectPrefix(key.value) == "batect-cache-" + key.value + "-";
    assert SharedCacheVolumeName("") == "ratect-shared-cache-";
    MatchingMembers(volumes, prefix, only);
    SelectsMeans(prefix, only, v);
  }

  lemma {:induction false} NamesUnderMembers(volumes: seq<string>, prefix: string, n: string)
    ensures n in NamesUnder(volumes, prefix) <==> prefix + n in volumes
  {
    if volumes != [] {
      var front, last := volumes[..|volumes| - 1], volumes[|volumes| - 1];
      NamesUnderMembers(front, prefix, n);
      assert volumes == front + [last];
      if StartsWith(last, prefix) {
        assert last == prefix + last[|prefix|..];
        assert last == prefix + n <==> last[|prefix|..] == n by {
          assert (prefix + n)[|prefix|..] == n;
        }
      }
    }
  }

  /** What a listing says of storage: each name is that of a volume there, in the half it belongs to. */
  ghost predicate Lists(volumes: seq<string>, key: Option<string>, found: CacheSelection) {
    && InOrder(found.owned) && InOrder(found.shared)
    && (forall n :: n in found.owned <==>
          found.scope != Some(Shared) && key.Some? && "batect-cache-" + key.value + "-" + n in volumes)
    && (forall n :: n in found.shared <==>
          found.scope != Some(Project) && "ratect-shared-cache-" + n in volumes)
  }

  lemma SelectionLists(volumes: seq<string>, key: Option<string>, scope: Option<Scope>)
    ensures Lists(volumes, key, Selection(volumes, key, scope))
  {
    hide Sort, NamesUnder;
    SortNothing();
    var prefix := if key.Some? then ProjectPrefix(key.value) else "";
    assert key.Some? ==> prefix == "batect-cache-" + key.value + "-";
    SortOrders(NamesUnder(volumes, prefix));
    SortMembers(NamesUnder(volumes, prefix));
    SortOrders(NamesUnder(volumes, SharedCacheVolumeName("")));
    SortMembers(NamesUnder(volumes, SharedCacheVolumeName("")));
    forall n ensures n in NamesUnder(volumes, prefix) <==> prefix + n in volumes {
      NamesUnderMembers(volumes, prefix, n);
    }
    forall n
      ensures n in NamesUnder(volumes, SharedCacheVolumeName("")) <==> "ratect-shared-cache-" + n in volumes
    {
      NamesUnderMembers(volumes, SharedCacheVolumeName(""), n);
      assert SharedCacheVolumeName("") == "ratect-shared-cache-";
    }
  }

  lemma SortNothing()
    ensures Sort([]) == [] && InOrder([])
  {
  }

  /** Which volumes a clean that is not refused attempts, in order. */
  function Targets(volumes: seq<string>, scope: Option<Scope>, only: set<string>, key: Option<string>): seq<string> {
    if scope == Some(Shared) then MatchingSharedCacheVolumes(volumes, only)
    else if key.Some? then MatchingCacheVolumes(volumes, ProjectPrefix(key.value), only)
    else []
  }

  function TargetPrefix(scope: Option<Scope>, key: Option<string>): string {
    if scope == Some(Shared) then SharedCacheVolumeName("")
    else if key.Some? then ProjectPrefix(key.value) else ""
  }

  /** Outside the shared scope a clean may name no shared cache; within it, it must name some. */
  ghost predicate MustRefuse(found: CacheSelection, only: set<string>) {
    if found.scope == Some(Shared) then only == {} else exists n :: n in found.shared && n in only
  }

  /** The refusal says which of the two, and names the first shared cache that was named. */
  ghost predicate RightRefusal(found: CacheSelection, only: set<string>, refusal: Refusal) {
    match refusal
    case SharedSweepNotNamed => found.scope == Some(Shared)
    case SharedNotNamed(name) =>
      && found.scope != Some(Shared) && name in found.shared && name in only
      && forall n :: n in found.shared && n in only ==> Leq(name, n)
  }

  lemma SharedOnlyMeans(found: CacheSelection, only: set<string>)
    ensures var refused := found.SharedOnly(only);
      && (refused != [] <==> exists n :: n in found.shared && n in only)
      && (refused != [] && found.scope != Some(Shared) ==> RightRefusal(found, only, SharedNotNamed(refused[0])))
  {
    hide Sort, Wanted;
    var refused := found.SharedOnly(only);
    WantedMembers(found.shared, only);
    SortMembers(Wanted(found.shared, only));
    SortOrders(Wanted(found.shared, only));
    if refused != [] {
      assert refused[0] in refused;
      forall n | n in found.shared && n in only ensures Leq(refused[0], n) {
        var i :| 0 <= i < |refused| && refused[i] == n;
        LeqTotal(n, n);
      }
    } else {
      forall n | n in found.shared && n in only ensures n in refused {
      }
    }
  }

  class CacheStore {
    const docker: VolumeStore
    var key: Option<string>

    constructor (docker: VolumeStore)
      ensures this.docker == docker && key == None
    {
      this.docker, key := docker, None;
    }

    /** The key, read from its file at most once; `keyFile` is what reading it now would give. */
    method ProjectCacheKey(keyFile: Option<string>) returns (r: Option<string>)
      modifies this`key
      ensures r == key == Or(old(key), keyFile)
    {
      if key.None? {
        key := keyFile;
      }
      r := key;
    }

    /** Both halves read from storage, if the daemon `answers`, then narrowed by `scope`. */
    method List(scope: Option<Scope>, keyFile: Option<string>, answers: bool) returns (r: Option<CacheSelection>)
      modifies this`key
      ensures key == if scope == Some(Shared) then old(key) else Or(old(key), keyFile)
      ensures r == if (scope != Some(Shared) && key.None?) || !answers then None
                   else Some(Selection(docker.volumes, if scope == Some(Shared) then None else key, scope))
      ensures r.Some? ==> r.value.scope == scope && Lists(docker.volumes, key, r.value)
    {
      var listKey: Option<string> := None;
      if scope != Some(Shared) {
        listKey := ProjectCacheKey(keyFile);
        if listKey.None? {
          return None;
        }
      }
      if !answers {
        return None;
      }
      var owned, shared := SplitByScope(docker.volumes, listKey);
      if scope == Some(Shared) {
        owned := [];
      }
      if scope == Some(Project) {
        shared := [];
      }
      assert Sort([]) == [];
      SelectionLists(docker.volumes, if scope == Some(Shared) then None else key, scope);
      r := Some(CacheSelection(Sort(owned), Sort(shared), scope));
    }

    /** Removes what `only` names from `found`, or refuses; storage may have changed since `found`. */
    method Remove(found: CacheSelection, only: set<string>, keyFile: Option<string>, answers: bool)
      returns (events: seq<CleanEvent>, outcome: Outcome)
      modifies this`key, docker
      ensures outcome.Refused? <==> MustRefuse(found, only)
      ensures outcome.Refused? ==>
        && RightRefusal(found, only, outcome.refusal) && events == []
        && docker.volumes == old(docker.volumes) && key == old(key)
      ensures !outcome.Refused? ==>
        key == (if found.scope == Some(Shared) then old(key) else Or(old(key), keyFile))
        && var targets := if answers then Targets(old(docker.volumes), found.scope, only, key) else [];
           var prefix := TargetPrefix(found.scope, key);
           var k := FirstRefused(targets, docker.refuses, old(docker.attempts));
           && events == Trace(targets, prefix, k)
           && docker.volumes == Without(old(docker.volumes), SetOf(targets[..k]))
           && outcome == (if answers && (found.scope == Some(Shared) || key.Some?) && k == |targets|
                          then Cleaned(CachesOf(targets, prefix)) else Failed)
      ensures forall v :: v in old(docker.volumes) && v !in docker.volumes ==> MayRemove(found.scope, only, key, v)
      ensures outcome.Cleaned? ==>
        forall v :: v in docker.volumes <==> v in old(docker.volumes) && !MayRemove(found.scope, only, key, v)
    {
      hide Without, Trace, FirstRefused, CachesOf, MatchingCacheVolumes, Sort, Wanted, MayRemove, RightRefusal;
      SharedOnlyMeans(found, only);
      if only == {} && found.scope == Some(Shared) {
        SweepRefused(found, only);
        return [], Refused(SharedSweepNotNamed);
      }
      if found.scope != Some(Shared) {
        var refused := found.SharedOnly(only);
        if refused != [] {
          return [], Refused(SharedNotNamed(refused[0]));
        }
      }
      ghost var before, attempts := docker.volumes, docker.attempts;
      var removed: Option<seq<RemovedCache>>;
      if found.scope == Some(Shared) {
        if !answers {
          NoTargets(before, TargetPrefix(found.scope, key), docker.refuses, attempts);
          return [], Failed;
        }
        var matched := MatchingSharedCacheVolumes(docker.volumes, only);
        events, removed := RemoveCacheVolumes(docker, matched, SharedCacheVolumeName(""));
      } else {
        var projectKey := ProjectCacheKey(keyFile);
        if projectKey.None? || !answers {
          NoTargets(before, TargetPrefix(found.scope, key), docker.refuses, attempts);
          return [], Failed;
        }
        var prefix := ProjectPrefix(projectKey.value);
        var matched := MatchingCacheVolumes(docker.volumes, prefix, only);
        events, removed := RemoveCacheVolumes(docker, matched, prefix);
      }
      OnlyTargetsGo(before, found.scope, only, key, docker.refuses, attempts);
      AllTargetsGo(before, found.scope, only, key);
      outcome := match removed case Some(caches) => Cleaned(caches) case None => Failed;
    }
  }

  lemma SweepRefused(found: CacheSelection, only: set<string>)
    requires found.scope == Some(Shared)
    ensures RightRefusal(found, only, SharedSweepNotNamed)
  {
  }

  lemma NoTargets(volumes: seq<string>, prefix: string, refuses: (nat, string) -> bool, from: nat)
    ensures FirstRefused([], refuses, from) == 0 && Trace([], prefix, 0) == []
    ensures Without(volumes, SetOf([])) == volumes
  {
    WithoutNothing(volumes);
    assert SetOf([]) == {};
  }

  /** Whatever part of the targets goes, each was one the scope and the names allow. */
  lemma OnlyTargetsGo(volumes: seq<string>, scope: Option<Scope>, only: set<string>, key: Option<string>,
                      refuses: (nat, string) -> bool, from: nat)
    ensures var targets := Targets(volumes, scope, only, key);
      var k := FirstRefused(targets, refuses, from);
      forall v :: v in volumes && v !in Without(volumes, SetOf(targets[..k])) ==> MayRemove(scope, only, key, v)
  {
    hide Without, Targets, FirstRefused, MayRemove;
    var targets := Targets(volumes, scope, only, key);
    var k := FirstRefused(targets, refuses, from);
    WithoutMembers(volumes, SetOf(targets[..k]));
    forall v | v in volumes && v in SetOf(targets[..k]) ensures MayRemove(scope, only, key, v) {
      TargetsMean(volumes, scope, only, key, v);
      assert v in targets;
    }
  }

  /** And when all of them go, nothing they allow is left. */
  lemma AllTargetsGo(volumes: seq<string>, scope: Option<Scope>, only: set<string>, key: Option<string>)
    ensures var targets := Targets(volumes, scope, only, key);
      forall v :: v in Without(volumes, SetOf(targets[..|targets|])) <==>
        v in volumes && !MayRemove(scope, only, key, v)
  {
    hide Without, Targets, MayRemove;
    var targets := Targets(volumes, scope, only, key);
    assert targets[..|targets|] == targets;
    WithoutMembers(volumes, SetOf(targets));
    forall v ensures v in targets <==> v in volumes && MayRemove(scope, only, key, v) {
      TargetsMean(volumes, scope, only, key, v);
    }
  }

  /** The listing loop: each volume is this project's, shared, or neither. */
  method SplitByScope(volumes: seq<string>, key: Option<string>) returns (owned: seq<string>, shared: seq<string>)
    ensures owned == if key.Some? then NamesUnder(volumes, ProjectPrefix(key.value)) else []
    ensures shared == NamesUnder(volumes, SharedCacheVolumeName(""))
  {
    owned, shared := [], [];
    for i := 0 to |volumes|
      invariant owned == if key.Some? then NamesUnder(volumes[..i], ProjectPrefix(key.value)) else []
      invariant shared == NamesUnder(volumes[..i], SharedCacheVolumeName(""))
    {
      assert volumes[..i + 1][..i] == volumes[..i];
      var volume := volumes[i];
      if key.Some? && StartsWith(volume, ProjectPrefix(key.value)) {
        NeverProjectAndShared(volume, key.value);
        owned := owned + [volume[|ProjectPrefix(key.value)|..]];
      } else {
        match StripPrefix(volume, SharedCacheVolumeName(""))
        case Some(name) => shared := shared + [name];
        case None =>
      }
    }
    assert volumes[..|volumes|] == volumes;
  }

  // ----- a listing followed by the clean it promises

  function NamesOf(caches: seq<RemovedCache>): seq<string> {
    seq(|caches|, i requires 0 <= i < |caches| => caches[i].name)
  }

  lemma NamesOfAppend(volumes: seq<string>, prefix: string, volume: string)
    ensures NamesOf(CachesOf(volumes + [volume], prefix))
         == NamesOf(CachesOf(volumes, prefix)) + [CacheOf(volume, prefix).name]
  {
  }

  /** Selecting by every name under a prefix selects every volume under it. */
  lemma {:induction false} EveryNameIsEveryVolume(volumes: seq<string>, prefix: string, only: set<string>)
    requires only == {} || forall n :: n in NamesUnder(volumes, prefix) ==> n in only
    ensures NamesOf(CachesOf(MatchingCacheVolumes(volumes, prefix, only), prefix)) == NamesUnder(volumes, prefix)
    ensures forall v :: v in volumes && StartsWith(v, prefix) ==> Selects(prefix, only, v)
  {
    if volumes != [] {
      var front, last := volumes[..|volumes| - 1], volumes[|volumes| - 1];
      assert volumes == front + [last];
      EveryNameIsEveryVolume(front, prefix, only);
      var matched := MatchingCacheVolumes(front, prefix, only);
      if StartsWith(last, prefix) {
        assert last[|prefix|..] in NamesUnder(volumes, prefix);
        NamesOfAppend(matched, prefix, last);
      } else {
        assert matched + [] == matched;
      }
    }
  }

  /** What a finished clean leaves: everything outside the prefix, and nothing under it. */
  ghost predicate SweptExactly(before: seq<string>, after: seq<string>, prefix: string) {
    forall v :: v in after <==> v in before && !StartsWith(v, prefix)
  }

  lemma SweptByTargets(volumes: seq<string>, prefix: string, only: set<string>)
    requires only == {} || forall n :: n in NamesUnder(volumes, prefix) ==> n in only
    ensures SweptExactly(volumes, Without(volumes, SetOf(MatchingCacheVolumes(volumes, prefix, only))), prefix)
  {
    MatchingMembers(volumes, prefix, only);
    EveryNameIsEveryVolume(volumes, prefix, only);
    WithoutMembers(volumes, SetOf(MatchingCacheVolumes(volumes, prefix, only)));
  }

  /** With storage left alone and nothing failing, the clean takes exactly what the listing offered. */
  method ListThenClean(store: CacheStore, scope: Option<Scope>, keyAtList: Option<string>, keyAtClean: Option<string>)
    returns (found: Option<CacheSelection>, outcome: Outcome)
    requires forall n, v :: !store.docker.refuses(n, v)
    modifies store`key, store.docker
    ensures found.None? ==> scope != Some(Shared) && Or(old(store.key), keyAtList).None?
                            && store.docker.volumes == old(store.docker.volumes)
    ensures found.Some? && scope != Some(Shared) ==>
      && outcome.Cleaned? && multiset(NamesOf(outcome.removed)) == multiset(found.value.Actionable())
      && store.key.Some? && store.key == Or(old(store.key), keyAtList)
      && SweptExactly(old(store.docker.volumes), store.docker.volumes, ProjectPrefix(store.key.value))
    ensures found.Some? && scope == Some(Shared) && found.value.Actionable() == [] ==>
      outcome == Refused(SharedSweepNotNamed) && store.docker.volumes == old(store.docker.volumes)
    ensures found.Some? && scope == Some(Shared) && found.value.Actionable() != [] ==>
      && outcome.Cleaned? && multiset(NamesOf(outcome.removed)) == multiset(found.value.Actionable())
      && SweptExactly(old(store.docker.volumes), store.docker.volumes, SharedCacheVolumeName(""))
  {
    hide Without, Trace, CachesOf, MatchingCacheVolumes, Sort, Wanted, NamesUnder, NamesOf, SweptExactly, SetOf;
    ghost var volumes := store.docker.volumes;
    found := store.List(scope, keyAtList, true);
    if found.None? {
      return found, Failed;
    }
    var only := if scope == Some(Shared) then SetOf(found.value.Actionable()) else {};
    NothingWanted(found.value);
    ghost var prefix := TargetPrefix(scope, store.key);
    ActionableNames(volumes, prefix, found.value.Actionable(), only);
    var events;
    events, outcome := store.Remove(found.value, only, keyAtClean, true);
    ghost var targets := Targets(volumes, scope, only, store.key);
    assert targets[..|targets|] == targets;
  }

  lemma NothingWanted(found: CacheSelection)
    ensures found.SharedOnly({}) == []
  {
    WantedMembers(found.shared, {});
    if Wanted(found.shared, {}) != [] {
      assert Wanted(found.shared, {})[0] in Wanted(found.shared, {});
    }
  }

  lemma ActionableNames(volumes: seq<string>, prefix: string, actionable: seq<string>, only: set<string>)
    requires actionable == Sort(NamesUnder(volumes, prefix))
    requires only == {} || only == SetOf(actionable)
    ensures SetOf(actionable) == {} <==> actionable == []
    ensures multiset(NamesOf(CachesOf(MatchingCacheVolumes(volumes, prefix, only), prefix))) == multiset(actionable)
    ensures SweptExactly(volumes, Without(volumes, SetOf(MatchingCacheVolumes(volumes, prefix, only))), prefix)
  {
    SortKeeps(NamesUnder(volumes, prefix));
    SortMembers(NamesUnder(volumes, prefix));
    hide Sort, NamesUnder, Without, MatchingCacheVolumes, CachesOf, NamesOf, SweptExactly;
    if actionable != [] {
      assert actionable[0] in SetOf(actionable);
    }
    EveryNameIsEveryVolume(volumes, prefix, only);
    SweptByTargets(volumes, prefix, only);
  }
}
