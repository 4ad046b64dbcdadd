/** Reachability over finite adjacency lists, cyclic or not. */
module Graphs {

  type Graph<V(==)> = map<V, seq<V>>

  function Successors<V(==)>(g: Graph<V>, v: V): seq<V> {
    if v in g then g[v] else []
  }

  /** `v` is reached from one of `roots` by following exactly `n` edges. */
  ghost predicate Steps<V(!new)>(g: Graph<V>, roots: set<V>, v: V, n: nat) {
    if n == 0 then v in roots
    else exists w :: Steps(g, roots, w, n - 1) && v in Successors(g, w)
  }

  ghost predicate Reached<V(!new)>(g: Graph<V>, roots: set<V>, v: V) {
    exists n: nat :: Steps(g, roots, v, n)
  }

  /** No node reaches itself by one or more edges. */
  ghost predicate Acyclic<V(!new)>(g: Graph<V>) {
    forall v, n: nat :: Steps(g, {v}, v, n) ==> n == 0
  }

  ghost predicate Closed<V(!new)>(g: Graph<V>, s: set<V>) {
    forall u, v :: u in s && v in Successors(g, u) ==> v in s
  }

  /** `names` is the least set holding `roots` and closed under the graph's edges. */
  ghost predicate LeastClosed<V(!new)>(g: Graph<V>, roots: set<V>, names: set<V>) {
    && roots <= names
    && Closed(g, names)
    && (forall s: set<V> :: Closed(g, s) && roots <= s ==> names <= s)
  }

  lemma ReachedRoot<V(!new)>(g: Graph<V>, roots: set<V>, v: V)
    requires v in roots
    ensures Reached(g, roots, v)
  {
    assert Steps(g, roots, v, 0);
  }

  lemma ReachedNext<V(!new)>(g: Graph<V>, roots: set<V>, w: V, v: V)
    requires Reached(g, roots, w) && v in Successors(g, w)
    ensures Reached(g, roots, v)
  {
    var n: nat :| Steps(g, roots, w, n);
    assert Steps(g, roots, v, n + 1);
  }

  /** A closed set holding the roots holds everything reached from them. */
  lemma {:induction false} ClosedHoldsSteps<V(!new)>(g: Graph<V>, roots: set<V>, s: set<V>, v: V, n: nat)
    requires Closed(g, s) && roots <= s && Steps(g, roots, v, n)
    ensures v in s
    decreases n
  {
    if n > 0 {
      var w :| Steps(g, roots, w, n - 1) && v in Successors(g, w);
      ClosedHoldsSteps(g, roots, s, w, n - 1);
    }
  }

  lemma ClosedHoldsReached<V(!new)>(g: Graph<V>, roots: set<V>, s: set<V>, v: V)
    requires Closed(g, s) && roots <= s && Reached(g, roots, v)
    ensures v in s
  {
    var n: nat :| Steps(g, roots, v, n);
    ClosedHoldsSteps(g, roots, s, v, n);
  }

  /** What a walk keeps: `names` has been expanded, `pending` is still to do. */
  ghost predicate Walking<V(!new)>(g: Graph<V>, roots: set<V>, names: set<V>, pending: seq<V>) {
    && (forall n :: n in names ==> Reached(g, roots, n))
    && (forall n :: n in pending ==> Reached(g, roots, n))
    && (forall r :: r in roots ==> r in names || r in pending)
    && (forall u, v :: u in names && v in Successors(g, u) ==> v in names || v in pending)
  }

  lemma WalkStarts<V(!new)>(g: Graph<V>, roots: set<V>, pending: seq<V>)
    requires forall r :: r in roots <==> r in pending
    ensures Walking(g, roots, {}, pending)
  {
    forall r | r in roots ensures Reached(g, roots, r) {
      ReachedRoot(g, roots, r);
    }
  }

  /** A name met again changes nothing. */
  lemma WalkSkips<V(!new)>(g: Graph<V>, roots: set<V>, names: set<V>, pending: seq<V>, name: V, rest: seq<V>)
    requires Walking(g, roots, names, pending) && name in names
    requires forall n :: n in pending <==> n in rest || n == name
    ensures Walking(g, roots, names, rest)
  {
  }

  /** Expanding a new name keeps the walk's invariant. */
  lemma WalkExpands<V(!new)>(g: Graph<V>, roots: set<V>, names: set<V>, pending: seq<V>, name: V, rest: seq<V>)
    requires Walking(g, roots, names, pending)
    requires name in pending && forall n :: n in pending <==> n in rest || n == name
    ensures Walking(g, roots, names + {name}, rest + Successors(g, name))
  {
    forall v | v in Successors(g, name) ensures Reached(g, roots, v) {
      ReachedNext(g, roots, name, v);
    }
  }

  /** A finished walk holds exactly what the roots reach, the least closed set. */
  lemma WalkEnds<V(!new)>(g: Graph<V>, roots: set<V>, names: set<V>)
    requires Walking(g, roots, names, [])
    ensures forall n :: n in names <==> Reached(g, roots, n)
    ensures LeastClosed(g, roots, names)
  {
    forall n | Reached(g, roots, n) ensures n in names {
      ClosedHoldsReached(g, roots, names, n);
    }
    forall s: set<V>, n | Closed(g, s) && roots <= s && n in names ensures n in s {
      ClosedHoldsReached(g, roots, s, n);
    }
  }
}
