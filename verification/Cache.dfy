/** Cache volumes: how they are named, which ones a clean may touch, and what it reports. */
module Cache {
  import opened Common

  datatype Scope = Project | Shared

  const SHARED_PREFIX := "ratect-shared-cache-"

  function CacheVolumeName(key: string, name: string): string {
    "batect-cache-" + key + "-" + name
  }

  function SharedCacheVolumeName(name: string): string {
    SHARED_PREFIX + name
  }

  function ProjectPrefix(key: string): string {
    CacheVolumeName(key, "")
  }

  /** No volume is both a project's and shared: the prefixes part at their first letter. */
  lemma NeverProjectAndShared(volume: string, key: string)
    requires StartsWith(volume, ProjectPrefix(key))
    ensures !StartsWith(volume, SharedCacheVolumeName(""))
  {
    assert volume[0] == ProjectPrefix(key)[0] == 'b';
    assert SharedCacheVolumeName("")[0] == 'r';
  }

  /** Two keys share a volume exactly when one, with its dash, begins the other. */
  lemma KeysClashExactly(k1: string, k2: string)
    ensures (exists v :: StartsWith(v, ProjectPrefix(k1)) && StartsWith(v, ProjectPrefix(k2)))
      <==> StartsWith(k1 + "-", k2 + "-") || StartsWith(k2 + "-", k1 + "-")
  {
    var p1, p2 := ProjectPrefix(k1), ProjectPrefix(k2);
    PrefixesCompare(k1, k2);
    PrefixesCompare(k2, k1);
    if v :| StartsWith(v, p1) && StartsWith(v, p2) {
      assert p1 == v[..|p1|] && p2 == v[..|p2|];
      assert |p1| <= |p2| ==> p1 == p2[..|p1|];
      assert |p2| <= |p1| ==> p2 == p1[..|p2|];
    }
    if StartsWith(p1, p2) {
      assert StartsWith(p1, p1);
    } else if StartsWith(p2, p1) {
      assert StartsWith(p2, p2);
    }
  }

  /** Two keys that do clash, and a volume both take for their own: one key goes on from the other's dash. */
  lemma DashedKeysClash()
    ensures "a" != "a-b"
    ensures StartsWith("batect-cache-a-b-x", ProjectPrefix("a"))
    ensures StartsWith("batect-cache-a-b-x", ProjectPrefix("a-b"))
  {
    assert ProjectPrefix("a") == "batect-cache-a-";
    assert ProjectPrefix("a-b") == "batect-cache-a-b-";
  }

  lemma PrefixesCompare(k1: string, k2: string)
    ensures StartsWith(ProjectPrefix(k1), ProjectPrefix(k2)) <==> StartsWith(k1 + "-", k2 + "-")
  {
    var lead := "batect-cache-";
    assert ProjectPrefix(k1) == lead + (k1 + "-") && ProjectPrefix(k2) == lead + (k2 + "-");
    assert ProjectPrefix(k1)[|lead|..] == k1 + "-" && ProjectPrefix(k2)[|lead|..] == k2 + "-";
    CommonLead(lead, k1 + "-", k2 + "-");
  }

  lemma CommonLead(lead: string, a: string, b: string)
    ensures StartsWith(lead + a, lead + b) <==> StartsWith(a, b)
  {
    if StartsWith(lead + a, lead + b) {
      assert (lead + a)[|lead|..] == a && (lead + b)[|lead|..] == b;
      assert forall i :: 0 <= i < |b| ==> b[i] == (lead + b)[|lead| + i] == (lead + a)[|lead| + i] == a[i];
    }
  }

  /** So two different keys that hold no dash, or are equally long, never share one. */
  lemma DifferentKeysNeverClash(k1: string, k2: string, volume: string)
    requires k1 != k2 && (('-' !in k1 && '-' !in k2) || |k1| == |k2|)
    ensures !(StartsWith(volume, ProjectPrefix(k1)) && StartsWith(volume, ProjectPrefix(k2)))
  {
    KeysClashExactly(k1, k2);
    hide ProjectPrefix;
    NotAnotherKeysLead(k1, k2);
    NotAnotherKeysLead(k2, k1);
  }

  lemma NotAnotherKeysLead(k1: string, k2: string)
    requires k1 != k2 && ('-' !in k1 || |k1| == |k2|)
    ensures !StartsWith(k1 + "-", k2 + "-")
  {
    LeadMeans(k1, k2);
  }

  lemma LeadMeans(k1: string, k2: string)
    ensures StartsWith(k1 + "-", k2 + "-") ==>
      |k2| <= |k1| && k2 == k1[..|k2|] && (|k2| < |k1| ==> k1[|k2|] == '-')
  {
    var long, short := k1 + "-", k2 + "-";
    assert short[|k2|] == '-' && long[..|k1|] == k1 && short[..|k2|] == k2;
  }

  // ----- the daemon's volumes

  /** The volumes a daemon holds. A removal may be refused, for any reason, at any attempt. */
  class VolumeStore {
    var volumes: seq<string>
    var attempts: nat
    const refuses: (nat, string) -> bool

    constructor (volumes: seq<string>, refuses: (nat, string) -> bool)
      ensures this.volumes == volumes && attempts == 0 && this.refuses == refuses
    {
      this.volumes, attempts, this.refuses := volumes, 0, refuses;
    }

    method RemoveVolume(name: string) returns (ok: bool)
      modifies this
      ensures ok == !refuses(old(attempts), name) && attempts == old(attempts) + 1
      ensures volumes == if ok then Without(old(volumes), {name}) else old(volumes)
    {
      ok := !refuses(attempts, name);
      attempts := attempts + 1;
      if ok {
        volumes := Without(volumes, {name});
      }
    }
  }

  function Without(volumes: seq<string>, gone: set<string>): seq<string> {
    if volumes == [] then []
    else (if volumes[0] in gone then [] else [volumes[0]]) + Without(volumes[1..], gone)
  }

  lemma {:induction false} WithoutMembers(volumes: seq<string>, gone: set<string>)
    ensures forall v :: v in Without(volumes, gone) <==> v in volumes && v !in gone
  {
    if volumes != [] {
      WithoutMembers(volumes[1..], gone);
    }
  }

  lemma {:induction false} WithoutTwice(volumes: seq<string>, a: set<string>, b: set<string>)
    ensures Without(Without(volumes, a), b) == Without(volumes, a + b)
  {
    if volumes != [] {
      WithoutTwice(volumes[1..], a, b);
      var rest := Without(volumes[1..], a);
      if volumes[0] !in a {
        assert ([volumes[0]] + rest)[1..] == rest;
      } else {
        assert [] + rest == rest;
      }
    }
  }

  lemma {:induction false} WithoutNothing(volumes: seq<string>)
    ensures Without(volumes, {}) == volumes
  {
    if volumes != [] {
      WithoutNothing(volumes[1..]);
    }
  }

  // ----- removing a list of volumes

  datatype RemovedCache = RemovedCache(name: string, storage: string)

  datatype CleanEvent = Removing(cache: RemovedCache) | Removed(cache: RemovedCache)

  function CacheOf(volume: string, prefix: string): RemovedCache {
    RemovedCache(match StripPrefix(volume, prefix) case Some(name) => name case None => volume, volume)
  }

  function CachesOf(volumes: seq<string>, prefix: string): seq<RemovedCache> {
    seq(|volumes|, i requires 0 <= i < |volumes| => CacheOf(volumes[i], prefix))
  }

  /** What is reported for volumes removed one after another. */
  function Reports(volumes: seq<string>, prefix: string): seq<CleanEvent> {
    if volumes == [] then []
    else
      var last := CacheOf(volumes[|volumes| - 1], prefix);
      Reports(volumes[..|volumes| - 1], prefix) + [Removing(last), Removed(last)]
  }

  /** The first volume whose removal is refused, counting attempts from `from`; all of them if none is. */
  function FirstRefused(volumes: seq<string>, refuses: (nat, string) -> bool, from: nat): (k: nat)
    ensures k <= |volumes|
    ensures forall i :: 0 <= i < k ==> !refuses(from + i, volumes[i])
    ensures k < |volumes| ==> refuses(from + k, volumes[k])
  {
    if volumes == [] || refuses(from, volumes[0]) then 0
    else
      assert forall i :: 0 < i < |volumes| ==> volumes[i] == volumes[1..][i - 1];
      1 + FirstRefused(volumes[1..], refuses, from + 1)
  }

  lemma FirstRefusedIs(volumes: seq<string>, refuses: (nat, string) -> bool, from: nat, k: nat)
    requires k <= |volumes| && (forall i :: 0 <= i < k ==> !refuses(from + i, volumes[i]))
    requires k < |volumes| ==> refuses(from + k, volumes[k])
    ensures k == FirstRefused(volumes, refuses, from)
  {
  }

  /** The whole trace of a removal run: pairs up to the first refusal, then one lone announcement. */
  function Trace(volumes: seq<string>, prefix: string, k: nat): seq<CleanEvent>
    requires k <= |volumes|
  {
    Reports(volumes[..k], prefix) + if k < |volumes| then [Removing(CacheOf(volumes[k], prefix))] else []
  }

  /** An event tells of this volume, by the name it goes by under the prefix. */
  ghost predicate Tells(cache: RemovedCache, volume: string, prefix: string) {
    cache.storage == volume && (StartsWith(volume, prefix) ==> prefix + cache.name == volume)
  }

  /** The trace, event by event. */
  lemma {:induction false} TraceInPairs(volumes: seq<string>, prefix: string, k: nat)
    requires k <= |volumes|
    ensures var trace := Trace(volumes, prefix, k);
      && |trace| == 2 * k + (if k < |volumes| then 1 else 0)
      && (forall i :: 0 <= i < k ==> IsPair(trace[2 * i], trace[2 * i + 1], volumes[i], prefix))
      && (k < |volumes| ==> trace[2 * k].Removing? && Tells(trace[2 * k].cache, volumes[k], prefix))
  {
    ReportsInPairs(volumes[..k], prefix);
  }

  /** A removal announced, then done. */
  ghost predicate IsPair(first: CleanEvent, second: CleanEvent, volume: string, prefix: string) {
    first.Removing? && second == Removed(first.cache) && Tells(first.cache, volume, prefix)
  }

  lemma PairOf(volume: string, prefix: string)
    ensures IsPair(Removing(CacheOf(volume, prefix)), Removed(CacheOf(volume, prefix)), volume, prefix)
  {
  }

  lemma {:induction false} ReportsInPairs(volumes: seq<string>, prefix: string)
    ensures var reports := Reports(volumes, prefix);
      && |reports| == 2 * |volumes|
      && (forall i :: 0 <= i < |volumes| ==> IsPair(reports[2 * i], reports[2 * i + 1], volumes[i], prefix))
  {
    hide CacheOf, IsPair;
    if volumes != [] {
      var front, last := volumes[..|volumes| - 1], volumes[|volumes| - 1];
      ReportsInPairs(front, prefix);
      PairOf(last, prefix);
      var before, cache := Reports(front, prefix), CacheOf(last, prefix);
      var reports := Reports(volumes, prefix);
      assert reports == before + [Removing(cache), Removed(cache)];
      hide Reports;
      forall i | 0 <= i < |volumes| ensures IsPair(reports[2 * i], reports[2 * i + 1], volumes[i], prefix) {
        if i < |front| {
          assert reports[2 * i] == before[2 * i] && reports[2 * i + 1] == before[2 * i + 1];
        }
      }
    }
  }

  method RemoveCacheVolumes(store: VolumeStore, volumes: seq<string>, prefix: string)
    returns (events: seq<CleanEvent>, removed: Option<seq<RemovedCache>>)
    modifies store
    ensures var k := FirstRefused(volumes, store.refuses, old(store.attempts));
      && events == Trace(volumes, prefix, k)
      && store.volumes == Without(old(store.volumes), SetOf(volumes[..k]))
      && store.attempts == old(store.attempts) + k + (if k < |volumes| then 1 else 0)
      && removed == if k == |volumes| then Some(CachesOf(volumes, prefix)) else None
  {
    hide Reports, Without, CachesOf, CacheOf, FirstRefused, SetOf;
    events := [];
    var gone: seq<RemovedCache> := [];
    NothingRemoved(store.volumes, volumes, prefix);
    for i := 0 to |volumes|
      invariant store.attempts == old(store.attempts) + i
      invariant forall j :: 0 <= j < i ==> !store.refuses(old(store.attempts) + j, volumes[j])
      invariant events == Reports(volumes[..i], prefix)
      invariant gone == CachesOf(volumes[..i], prefix)
      invariant store.volumes == Without(old(store.volumes), SetOf(volumes[..i]))
    {
      OneMoreReported(volumes, prefix, i);
      OneMoreGone(old(store.volumes), volumes, i);
      var cache := CacheOf(volumes[i], prefix);
      events := events + [Removing(cache)];
      var ok := store.RemoveVolume(volumes[i]);
      if !ok {
        FirstRefusedIs(volumes, store.refuses, old(store.attempts), i);
        return events, None;
      }
      events := events + [Removed(cache)];
      gone := gone + [cache];
    }
    FirstRefusedIs(volumes, store.refuses, old(store.attempts), |volumes|);
    assert volumes[..|volumes|] == volumes;
    assert events + [] == events;
    removed := Some(gone);
  }

  function SetOf(volumes: seq<string>): set<string> {
    set v | v in volumes
  }

  lemma NothingRemoved(had: seq<string>, volumes: seq<string>, prefix: string)
    ensures Reports(volumes[..0], prefix) == [] && CachesOf(volumes[..0], prefix) == []
    ensures Without(had, SetOf(volumes[..0])) == had
  {
    WithoutNothing(had);
    assert SetOf(volumes[..0]) == {};
  }

  lemma OneMoreReported(volumes: seq<string>, prefix: string, i: nat)
    requires i < |volumes|
    ensures var cache := CacheOf(volumes[i], prefix);
      && Reports(volumes[..i + 1], prefix) == Reports(volumes[..i], prefix) + [Removing(cache)] + [Removed(cache)]
      && CachesOf(volumes[..i + 1], prefix) == CachesOf(volumes[..i], prefix) + [cache]
  {
    hide CacheOf;
    assert volumes[..i + 1][..i] == volumes[..i];
  }

  lemma OneMoreGone(had: seq<string>, volumes: seq<string>, i: nat)
    requires i < |volumes|
    ensures Without(Without(had, SetOf(volumes[..i])), {volumes[i]}) == Without(had, SetOf(volumes[..i + 1]))
  {
    hide Without;
    WithoutTwice(had, SetOf(volumes[..i]), {volumes[i]});
    assert volumes[..i + 1] == volumes[..i] + [volumes[i]];
    assert SetOf(volumes[..i]) + {volumes[i]} == SetOf(volumes[..i + 1]);
  }
}
