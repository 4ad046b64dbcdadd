/**
 The first TOML file reached through local includes, in the order they are declared. A
 route is the position taken at each include; routes are ordered by length, then by the
 first position where they part.
 */
module FirstToml {
  import opened Common
  import opened Graphs

  type Route = seq<nat>

  function Front(r: Route): Route
    requires r != []
  {
    r[..|r| - 1]
  }

  function Last(r: Route): nat
    requires r != []
  {
    r[|r| - 1]
  }

  /** Where a route from `entry` ends, if each position on it is there. */
  function Follow<V(==)>(g: Graph<V>, entry: V, r: Route): Option<V>
    decreases |r|
  {
    if r == [] then Some(entry)
    else
      match Follow(g, entry, Front(r))
      case Some(q) => if Last(r) < |Successors(g, q)| then Some(Successors(g, q)[Last(r)]) else None
      case None => None
  }

  /** Shorter first; of two as long, the one declared earlier where they part. */
  predicate Earlier(a: Route, b: Route)
    decreases |a|
  {
    b != [] && (a == [] || Earlier(Front(a), Front(b)) || (Front(a) == Front(b) && Last(a) < Last(b)))
  }

  predicate NoLater(a: Route, b: Route) {
    a == b || Earlier(a, b)
  }

  // ----- the order

  lemma {:induction false} EarlierTotal(a: Route, b: Route)
    ensures NoLater(a, b) || Earlier(b, a)
    decreases |a|
  {
    if a != [] && b != [] {
      EarlierTotal(Front(a), Front(b));
      assert a == Front(a) + [Last(a)] && b == Front(b) + [Last(b)];
    }
  }

  lemma {:induction false} EarlierTransitive(a: Route, b: Route, c: Route)
    requires NoLater(a, b) && NoLater(b, c)
    ensures NoLater(a, c) && (Earlier(a, b) || Earlier(b, c) ==> Earlier(a, c))
    decreases |a|
  {
    if a != [] && b != [] && c != [] && a != b && b != c {
      EarlierTransitive(Front(a), Front(b), Front(c));
    }
  }

  lemma {:induction false} EarlierIsNotLater(a: Route, b: Route)
    requires Earlier(a, b)
    ensures !NoLater(b, a)
    decreases |a|
  {
    if a != [] && Earlier(Front(a), Front(b)) {
      EarlierIsNotLater(Front(a), Front(b));
    } else if a != [] {
      NotEarlierThanItself(Front(a));
    }
  }

  lemma {:induction false} NotEarlierThanItself(a: Route)
    ensures !Earlier(a, a)
    decreases |a|
  {
    if a != [] {
      NotEarlierThanItself(Front(a));
    }
  }

  lemma {:induction false} FrontIsEarlier(r: Route)
    requires r != []
    ensures Earlier(Front(r), r)
    decreases |r|
  {
    if |r| > 1 {
      FrontIsEarlier(Front(r));
    }
  }

  lemma {:induction false} EarlierIsNoLonger(a: Route, b: Route)
    requires NoLater(a, b)
    ensures |a| <= |b|
    decreases |a|
  {
    if a != [] && a != b && Earlier(Front(a), Front(b)) {
      EarlierIsNoLonger(Front(a), Front(b));
    }
  }

  lemma StepsCompare(a: Route, i: nat, b: Route, j: nat)
    ensures Earlier(a + [i], b + [j]) <==> Earlier(a, b) || (a == b && i < j)
  {
    assert Front(a + [i]) == a && Front(b + [j]) == b;
  }

  lemma FollowOne<V>(g: Graph<V>, entry: V, r: Route, q: V, i: nat)
    requires Follow(g, entry, r) == Some(q) && i < |Successors(g, q)|
    ensures Follow(g, entry, r + [i]) == Some(Successors(g, q)[i])
  {
    assert Front(r + [i]) == r;
  }

  // ----- what is looked for

  /** `r` leads to a wanted file by one or more includes. */
  ghost predicate Finds<V>(g: Graph<V>, entry: V, wanted: V -> bool, r: Route) {
    r != [] && Follow(g, entry, r).Some? && wanted(Follow(g, entry, r).value)
  }

  /** `found` is where the earliest route to a wanted file ends. */
  ghost predicate First<V>(g: Graph<V>, entry: V, wanted: V -> bool, found: V) {
    exists r :: && Finds(g, entry, wanted, r) && Follow(g, entry, r) == Some(found)
                && forall other :: Finds(g, entry, wanted, other) ==> NoLater(r, other)
  }

  /** Some wanted file is reached from `entry` by one or more includes. */
  ghost predicate Includes<V(!new)>(g: Graph<V>, entry: V, wanted: V -> bool) {
    exists n, k: nat :: wanted(n) && k > 0 && Steps(g, {entry}, n, k)
  }

  lemma {:induction false} FollowSteps<V(!new)>(g: Graph<V>, entry: V, r: Route)
    requires Follow(g, entry, r).Some?
    ensures Steps(g, {entry}, Follow(g, entry, r).value, |r|)
    decreases |r|
  {
    if r != [] {
      FollowSteps(g, entry, Front(r));
      assert Follow(g, entry, r).value in Successors(g, Follow(g, entry, Front(r)).value);
    }
  }

  lemma {:induction false} StepsFollow<V(!new)>(g: Graph<V>, entry: V, v: V, n: nat) returns (r: Route)
    requires Steps(g, {entry}, v, n)
    ensures |r| == n && Follow(g, entry, r) == Some(v)
    decreases n
  {
    if n == 0 {
      r := [];
    } else {
      var w :| Steps(g, {entry}, w, n - 1) && v in Successors(g, w);
      var shorter := StepsFollow(g, entry, w, n - 1);
      var i :| 0 <= i < |Successors(g, w)| && Successors(g, w)[i] == v;
      FollowOne(g, entry, shorter, w, i);
      r := shorter + [i];
    }
  }

  /** The first found is a nearest one. */
  lemma FirstIsNearest<V(!new)>(g: Graph<V>, entry: V, wanted: V -> bool, found: V) returns (k: nat)
    requires First(g, entry, wanted, found)
    ensures k > 0 && wanted(found) && Steps(g, {entry}, found, k)
    ensures forall n, m: nat :: wanted(n) && m > 0 && Steps(g, {entry}, n, m) ==> k <= m
  {
    hide Steps, Follow, Earlier;
    var r :| && Finds(g, entry, wanted, r) && Follow(g, entry, r) == Some(found)
             && forall other :: Finds(g, entry, wanted, other) ==> NoLater(r, other);
    k := |r|;
    FollowSteps(g, entry, r);
    forall n, m: nat | wanted(n) && m > 0 && Steps(g, {entry}, n, m) ensures k <= m {
      var other := StepsFollow(g, entry, n, m);
      assert Finds(g, entry, wanted, other);
      EarlierIsNoLonger(r, other);
    }
  }

  /** And it is the only first one. */
  lemma FirstUnique<V>(g: Graph<V>, entry: V, wanted: V -> bool, a: V, b: V)
    requires First(g, entry, wanted, a) && First(g, entry, wanted, b)
    ensures a == b
  {
    hide Follow, Earlier;
    var r :| && Finds(g, entry, wanted, r) && Follow(g, entry, r) == Some(a)
             && forall other :: Finds(g, entry, wanted, other) ==> NoLater(r, other);
    var s :| && Finds(g, entry, wanted, s) && Follow(g, entry, s) == Some(b)
             && forall other :: Finds(g, entry, wanted, other) ==> NoLater(s, other);
    if r != s {
      EarlierIsNotLater(r, s);
    }
  }

  // ----- the search

  /** Each file seen, with a route to it. */
  type Seen<V(==)> = map<V, Route>

  ghost predicate Sound<V>(g: Graph<V>, entry: V, at: Seen<V>) {
    && entry in at && at[entry] == []
    && forall u :: u in at ==> Follow(g, entry, at[u]) == Some(u)
  }

  /** Include `j` of `u` has been looked at: not wanted, and seen no later than through `u`. */
  ghost predicate Looked<V(!new)>(g: Graph<V>, wanted: V -> bool, at: Seen<V>, u: V, j: nat)
    requires u in at && j < |Successors(g, u)|
  {
    var v := Successors(g, u)[j];
    !wanted(v) && v in at && NoLater(at[v], at[u] + [j])
  }

  ghost predicate Done<V(!new)>(g: Graph<V>, wanted: V -> bool, at: Seen<V>, u: V)
    requires u in at
  {
    forall j :: 0 <= j < |Successors(g, u)| ==> Looked(g, wanted, at, u, j)
  }

  /** The queue is in order of route. */
  ghost predicate InOrder<V>(at: Seen<V>, queue: seq<V>) {
    && (forall k :: 0 <= k < |queue| ==> queue[k] in at)
    && (forall k, l :: 0 <= k < l < |queue| ==> Earlier(at[queue[k]], at[queue[l]]))
  }

  /** Nothing seen has a route as late as `limit`. */
  ghost predicate AllEarlier<V>(at: Seen<V>, limit: Route) {
    forall u :: u in at ==> Earlier(at[u], limit)
  }

  /** Between files: what is not queued is done. */
  ghost predicate Searching<V(!new)>(g: Graph<V>, entry: V, wanted: V -> bool, at: Seen<V>, queue: seq<V>) {
    && Sound(g, entry, at) && InOrder(at, queue)
    && (forall u :: u in at && u !in queue ==> Done(g, wanted, at, u))
    && (queue != [] ==> AllEarlier(at, at[queue[0]] + [0]))
  }

  /** Inside `file`, the first `i` of whose includes have been looked at. */
  ghost predicate Expanding<V(!new)>(g: Graph<V>, entry: V, wanted: V -> bool, at: Seen<V>, queue: seq<V>,
                                     file: V, i: nat) {
    && Sound(g, entry, at) && file in at && InOrder(at, [file] + queue)
    && (forall u :: u in at && u !in [file] + queue ==> Done(g, wanted, at, u))
    && i <= |Successors(g, file)| && (forall j :: 0 <= j < i ==> Looked(g, wanted, at, file, j))
    && AllEarlier(at, at[file] + [i])
  }

  lemma SearchStarts<V(!new)>(g: Graph<V>, entry: V, wanted: V -> bool)
    ensures Searching(g, entry, wanted, map[entry := []], [entry])
  {
  }

  lemma ExpandStarts<V(!new)>(g: Graph<V>, entry: V, wanted: V -> bool, at: Seen<V>, queue: seq<V>)
    requires Searching(g, entry, wanted, at, queue) && queue != []
    ensures Expanding(g, entry, wanted, at, queue[1..], queue[0], 0)
  {
    hide Done, Looked, AllEarlier, Earlier, Follow;
    assert [queue[0]] + queue[1..] == queue;
  }

  /** What a done file includes was seen no later than through it. */
  lemma SeenThrough<V(!new)>(g: Graph<V>, entry: V, wanted: V -> bool, at: Seen<V>, o: Route)
    requires o != [] && Follow(g, entry, o).Some?
    requires var q := Follow(g, entry, Front(o)).value;
      q in at && NoLater(at[q], Front(o)) && Done(g, wanted, at, q)
    ensures var u := Follow(g, entry, o).value; u in at && NoLater(at[u], o)
  {
    hide Done, Earlier;
    var p, j, u := Front(o), Last(o), Follow(g, entry, o).value;
    var q := Follow(g, entry, p).value;
    DoneLooked(g, wanted, at, q, j);
    assert o == p + [j];
    StepsCompare(at[q], j, p, j);
    EarlierTransitive(at[u], at[q] + [j], o);
  }

  /** A route earlier than the one to `file` leads to a file that is done, and was seen no later. */
  lemma {:induction false} EarlierIsDone<V(!new)>(g: Graph<V>, entry: V, wanted: V -> bool, at: Seen<V>, queue: seq<V>,
                                                  file: V, i: nat, o: Route)
    requires Expanding(g, entry, wanted, at, queue, file, i)
    requires Follow(g, entry, o).Some? && Earlier(o, at[file])
    ensures var u := Follow(g, entry, o).value;
      u in at && NoLater(at[u], o) && u !in [file] + queue
    decreases |o|
  {
    hide Done, AllEarlier, InOrder, Looked, Earlier;
    if o != [] {
      FrontIsEarlier(o);
      EarlierTransitive(Front(o), o, at[file]);
      EarlierIsDone(g, entry, wanted, at, queue, file, i, Front(o));
      SeenThrough(g, entry, wanted, at, o);
    }
    NotQueued(at, [file] + queue, Follow(g, entry, o).value, o);
  }

  lemma DoneLooked<V(!new)>(g: Graph<V>, wanted: V -> bool, at: Seen<V>, u: V, j: nat)
    requires u in at && Done(g, wanted, at, u) && j < |Successors(g, u)|
    ensures Looked(g, wanted, at, u, j)
  {
  }

  /** What is seen before the front of a queue in order is not in it. */
  lemma NotQueued<V>(at: Seen<V>, queue: seq<V>, u: V, o: Route)
    requires queue != [] && InOrder(at, queue) && u in at && NoLater(at[u], o) && Earlier(o, at[queue[0]])
    ensures u !in queue
  {
    hide Earlier;
    forall k | 0 <= k < |queue| ensures queue[k] != u {
      EarlierTransitive(at[u], o, at[queue[0]]);
      EarlierTransitive(at[u], at[queue[0]], at[queue[k]]);
      NotEarlierThanItself(at[u]);
    }
  }

  /** No route earlier than the include being looked at finds anything. */
  lemma NothingEarlier<V(!new)>(g: Graph<V>, entry: V, wanted: V -> bool, at: Seen<V>, queue: seq<V>,
                                file: V, i: nat, other: Route)
    requires Expanding(g, entry, wanted, at, queue, file, i)
    requires Earlier(other, at[file] + [i])
    ensures !Finds(g, entry, wanted, other)
  {
    hide Done, InOrder, AllEarlier, Earlier;
    if other != [] && Follow(g, entry, other).Some? {
      var p, j := Front(other), Last(other);
      assert other == p + [j];
      StepsCompare(p, j, at[file], i);
      if Earlier(p, at[file]) {
        EarlierIsDone(g, entry, wanted, at, queue, file, i, p);
        DoneLooked(g, wanted, at, Follow(g, entry, p).value, j);
      } else {
        assert Looked(g, wanted, at, file, j);
      }
    }
  }

  lemma ExpandFinds<V(!new)>(g: Graph<V>, entry: V, wanted: V -> bool, at: Seen<V>, queue: seq<V>, file: V, i: nat)
    requires Expanding(g, entry, wanted, at, queue, file, i)
    requires i < |Successors(g, file)| && wanted(Successors(g, file)[i])
    ensures First(g, entry, wanted, Successors(g, file)[i])
  {
    hide Done, InOrder, AllEarlier, Earlier;
    var r := at[file] + [i];
    FollowOne(g, entry, at[file], file, i);
    forall other | Finds(g, entry, wanted, other) ensures NoLater(r, other) {
      EarlierTotal(r, other);
      if Earlier(other, r) {
        NothingEarlier(g, entry, wanted, at, queue, file, i, other);
      }
    }
    assert Finds(g, entry, wanted, r);
  }

  lemma LaterLimit<V>(at: Seen<V>, file: V, i: nat)
    requires file in at && AllEarlier(at, at[file] + [i])
    ensures AllEarlier(at, at[file] + [i + 1])
  {
    hide Earlier;
    StepsCompare(at[file], i, at[file], i + 1);
    forall u | u in at ensures Earlier(at[u], at[file] + [i + 1]) {
      EarlierTransitive(at[u], at[file] + [i], at[file] + [i + 1]);
    }
  }

  lemma ExpandSkips<V(!new)>(g: Graph<V>, entry: V, wanted: V -> bool, at: Seen<V>, queue: seq<V>, file: V, i: nat)
    requires Expanding(g, entry, wanted, at, queue, file, i) && i < |Successors(g, file)|
    requires Successors(g, file)[i] in at && !wanted(Successors(g, file)[i])
    ensures Expanding(g, entry, wanted, at, queue, file, i + 1)
  {
    hide Done, InOrder, Earlier, Follow;
    LaterLimit(at, file, i);
    assert Looked(g, wanted, at, file, i);
  }

  lemma StillDone<V(!new)>(g: Graph<V>, wanted: V -> bool, at: Seen<V>, v: V, r: Route, u: V)
    requires u in at && v !in at && Done(g, wanted, at, u)
    ensures Done(g, wanted, at[v := r], u)
  {
    hide Earlier;
    var now := at[v := r];
    forall j | 0 <= j < |Successors(g, u)| ensures Looked(g, wanted, now, u, j) {
      assert Looked(g, wanted, at, u, j);
    }
  }

  lemma QueueGrows<V>(at: Seen<V>, file: V, queue: seq<V>, i: nat, v: V)
    requires file in at && InOrder(at, [file] + queue) && v !in at && AllEarlier(at, at[file] + [i])
    ensures InOrder(at[v := at[file] + [i]], [file] + (queue + [v]))
  {
    hide Earlier;
    var all := [file] + queue;
    assert [file] + (queue + [v]) == all + [v];
  }

  lemma LimitGrows<V>(at: Seen<V>, file: V, i: nat, v: V)
    requires file in at && v !in at && AllEarlier(at, at[file] + [i])
    ensures AllEarlier(at[v := at[file] + [i]], at[file] + [i + 1])
  {
    hide Earlier;
    LaterLimit(at, file, i);
    StepsCompare(at[file], i, at[file], i + 1);
  }

  lemma ExpandAdds<V(!new)>(g: Graph<V>, entry: V, wanted: V -> bool, at: Seen<V>, queue: seq<V>, file: V, i: nat)
    requires Expanding(g, entry, wanted, at, queue, file, i) && i < |Successors(g, file)|
    requires Successors(g, file)[i] !in at && !wanted(Successors(g, file)[i])
    ensures var v := Successors(g, file)[i];
      Expanding(g, entry, wanted, at[v := at[file] + [i]], queue + [v], file, i + 1)
  {
    var v := Successors(g, file)[i];
    var r := at[file] + [i];
    FollowOne(g, entry, at[file], file, i);
    QueueGrows(at, file, queue, i, v);
    LimitGrows(at, file, i, v);
    hide InOrder, AllEarlier, Earlier, Follow;
    var now := at[v := r];
    forall j | 0 <= j < i ensures Looked(g, wanted, now, file, j) {
      assert Looked(g, wanted, at, file, j);
    }
    hide Done;
    forall u | u in at[v := r] && u !in [file] + (queue + [v]) ensures Done(g, wanted, at[v := r], u) {
      assert u in at && u !in [file] + queue;
      StillDone(g, wanted, at, v, r, u);
    }
  }

  lemma ExpandEnds<V(!new)>(g: Graph<V>, entry: V, wanted: V -> bool, at: Seen<V>, queue: seq<V>, file: V)
    requires Expanding(g, entry, wanted, at, queue, file, |Successors(g, file)|)
    ensures Searching(g, entry, wanted, at, queue)
  {
    var all := [file] + queue;
    assert InOrder(at, queue) by {
      assert forall k :: 0 <= k < |queue| ==> queue[k] == all[k + 1];
    }
    if queue != [] {
      NextLimit(at, file, |Successors(g, file)|, queue[0]) by {
        assert all[0] == file && all[1] == queue[0];
      }
    }
    hide InOrder, AllEarlier, Earlier, Follow;
  }

  lemma NextLimit<V>(at: Seen<V>, file: V, n: nat, next: V)
    requires file in at && next in at && Earlier(at[file], at[next]) && AllEarlier(at, at[file] + [n])
    ensures AllEarlier(at, at[next] + [0])
  {
    hide Earlier;
    StepsCompare(at[file], n, at[next], 0);
    forall u | u in at ensures Earlier(at[u], at[next] + [0]) {
      EarlierTransitive(at[u], at[file] + [n], at[next] + [0]);
    }
  }

  lemma {:induction false} EverythingDone<V(!new)>(g: Graph<V>, entry: V, wanted: V -> bool, at: Seen<V>, r: Route)
    requires Searching(g, entry, wanted, at, []) && Follow(g, entry, r).Some?
    ensures Follow(g, entry, r).value in at && !Finds(g, entry, wanted, r)
    decreases |r|
  {
    hide Done;
    if r != [] {
      EverythingDone(g, entry, wanted, at, Front(r));
      DoneLooked(g, wanted, at, Follow(g, entry, Front(r)).value, Last(r));
    }
  }

  lemma SearchEnds<V(!new)>(g: Graph<V>, entry: V, wanted: V -> bool, at: Seen<V>)
    requires Searching(g, entry, wanted, at, [])
    ensures !Includes(g, entry, wanted)
  {
    hide Searching, Steps;
    forall n, k: nat | wanted(n) && k > 0 ensures !Steps(g, {entry}, n, k) {
      if Steps(g, {entry}, n, k) {
        var r := StepsFollow(g, entry, n, k);
        EverythingDone(g, entry, wanted, at, r);
      }
    }
  }

  lemma FoundIncluded<V(!new)>(g: Graph<V>, entry: V, wanted: V -> bool, found: V)
    requires First(g, entry, wanted, found)
    ensures Includes(g, entry, wanted)
  {
    hide First, Steps;
    var k := FirstIsNearest(g, entry, wanted, found);
  }

  /** Ends on cyclic includes; finds a TOML file exactly when one is reached, and the first as declared. */
  method FirstTomlReached(entry: string, localIncludes: Graph<string>, isToml: string -> bool)
    returns (found: Option<string>)
    ensures found.Some? <==> Includes(localIncludes, entry, isToml)
    ensures found.Some? ==> First(localIncludes, entry, isToml, found.value)
  {
    hide Searching, Expanding, Includes, First;
    var g := localIncludes;
    ghost var universe := {entry} + (set u, v | u in g && v in g[u] :: v);
    ghost var at: Seen<string> := map[entry := []];
    var seen := {entry};
    var queue := [entry];
    SearchStarts(g, entry, isToml);
    while queue != []
      invariant seen == at.Keys <= universe
      invariant Searching(g, entry, isToml, at, queue)
      decreases universe - seen, |queue|
    {
      ExpandStarts(g, entry, isToml, at, queue);
      ghost var before := seen;
      var file, rest := queue[0], queue[1..];
      queue := rest;
      var targets := Successors(g, file);
      FileIsSeen(g, entry, isToml, at, queue, file, 0);
      for i := 0 to |targets|
        invariant before <= seen == at.Keys <= universe && (seen == before ==> queue == rest) && file in at
        invariant Expanding(g, entry, isToml, at, queue, file, i)
      {
        if isToml(targets[i]) {
          ExpandFinds(g, entry, isToml, at, queue, file, i);
          FoundIncluded(g, entry, isToml, targets[i]);
          return Some(targets[i]);
        }
        if targets[i] in seen {
          ExpandSkips(g, entry, isToml, at, queue, file, i);
        } else {
          ExpandAdds(g, entry, isToml, at, queue, file, i);
          assert file in g && targets[i] in g[file];
          seen := seen + {targets[i]};
          queue := queue + [targets[i]];
          at := at[targets[i] := at[file] + [i]];
        }
      }
      ExpandEnds(g, entry, isToml, at, queue, file);
    }
    SearchEnds(g, entry, isToml, at);
    found := None;
  }

  lemma FileIsSeen<V(!new)>(g: Graph<V>, entry: V, wanted: V -> bool, at: Seen<V>, queue: seq<V>, file: V, i: nat)
    requires Expanding(g, entry, wanted, at, queue, file, i)
    ensures file in at
  {
  }
}
