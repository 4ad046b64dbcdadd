/** What the expansion does to the dependency graph as a whole. */
module HealthCheckGraph {
  import opened Common
  import opened Graphs
  import opened ConfigModel
  import opened TaskNames
  import opened HealthChecks
  import Extends

  predicate IsCompanion(checked: seq<string>, v: string) {
    PREFIX <= v && v[|PREFIX|..] in checked
  }

  /** The container a node stands for: a companion stands for the one it checks. */
  function Origin(checked: seq<string>, v: string): string {
    if IsCompanion(checked, v) then v[|PREFIX|..] else v
  }

  function Weight(checked: seq<string>, v: string): nat {
    if IsCompanion(checked, v) then 1 else 0
  }

  lemma CompanionOf(checked: seq<string>, x: string)
    requires x in checked
    ensures IsCompanion(checked, CompanionName(x)) && Origin(checked, CompanionName(x)) == x
  {
    assert CompanionName(x)[|PREFIX|..] == x;
  }

  lemma IsCompanionName(checked: seq<string>, v: string)
    requires IsCompanion(checked, v)
    ensures v == CompanionName(Origin(checked, v)) && Origin(checked, v) in checked
  {
  }

  /** Whether the expanded graph has the edge from `u` to `v`. */
  predicate EdgeAfter(g: Graph<string>, checked: seq<string>, u: string, v: string) {
    if IsCompanion(checked, u) then v == Origin(checked, u)
    else
      || v in Successors(g, u)
      || (IsCompanion(checked, v) && Origin(checked, v) != u && Origin(checked, v) in Successors(g, u))
  }

  /** `g'` has exactly the expanded graph's edges, and `g` never mentions a companion. */
  ghost predicate GraphExpansion(g: Graph<string>, g': Graph<string>, checked: seq<string>) {
    && (forall u, v :: v in Successors(g', u) <==> EdgeAfter(g, checked, u, v))
    && (forall u :: u in g ==> !IsCompanion(checked, u))
    && (forall u, v :: v in Successors(g, u) ==> !IsCompanion(checked, v))
    && (forall x :: x in checked ==> !IsCompanion(checked, x))
  }

  // ----- walks of the two graphs

  lemma EdgeIsExpected(g: Graph<string>, g': Graph<string>, checked: seq<string>, u: string, v: string)
    requires GraphExpansion(g, g', checked)
    ensures v in Successors(g', u) <==> EdgeAfter(g, checked, u, v)
  {
  }

  /** An edge of the expanded graph stands for an edge, or for a companion's wait on its own. */
  lemma EdgeProjects(g: Graph<string>, g': Graph<string>, checked: seq<string>, u: string, v: string)
    requires GraphExpansion(g, g', checked) && v in Successors(g', u)
    ensures if IsCompanion(checked, u) then v == Origin(checked, u) && !IsCompanion(checked, v)
            else Origin(checked, v) in Successors(g, u)
  {
    assert EdgeAfter(g, checked, u, v);
    if IsCompanion(checked, u) {
      IsCompanionName(checked, u);
    }
  }

  /** A walk of the expanded graph shrinks to a walk of the original at least half as long. */
  lemma {:induction false} StepsProject(g: Graph<string>, g': Graph<string>, checked: seq<string>,
                                        u: string, v: string, n: nat)
    returns (m: nat)
    requires GraphExpansion(g, g', checked) && Steps(g', {u}, v, n)
    ensures Steps(g, {Origin(checked, u)}, Origin(checked, v), m)
    ensures n + Weight(checked, v) <= 2 * m + Weight(checked, u)
    decreases n
  {
    hide GraphExpansion, IsCompanion;
    if n == 0 {
      m := 0;
    } else {
      var w :| Steps(g', {u}, w, n - 1) && v in Successors(g', w);
      m := StepsProject(g, g', checked, u, w, n - 1);
      EdgeProjects(g, g', checked, w, v);
      if !IsCompanion(checked, w) {
        assert Steps(g, {Origin(checked, u)}, Origin(checked, v), m + 1);
        m := m + 1;
      }
    }
  }

  lemma EdgeKept(g: Graph<string>, g': Graph<string>, checked: seq<string>, u: string, v: string)
    requires GraphExpansion(g, g', checked) && v in Successors(g, u)
    ensures !IsCompanion(checked, u) && v in Successors(g', u)
  {
    assert EdgeAfter(g, checked, u, v);
  }

  /** Every walk of the original graph is still there. */
  lemma {:induction false} StepsKept(g: Graph<string>, g': Graph<string>, checked: seq<string>,
                                     roots: set<string>, roots': set<string>, v: string, n: nat)
    requires GraphExpansion(g, g', checked) && roots <= roots' && Steps(g, roots, v, n)
    ensures Steps(g', roots', v, n)
    decreases n
  {
    hide GraphExpansion;
    if n > 0 {
      var w :| Steps(g, roots, w, n - 1) && v in Successors(g, w);
      StepsKept(g, g', checked, roots, roots', w, n - 1);
      EdgeKept(g, g', checked, w, v);
    }
  }

  lemma ReachedKept(g: Graph<string>, g': Graph<string>, checked: seq<string>,
                    roots: set<string>, roots': set<string>, v: string)
    requires GraphExpansion(g, g', checked) && roots <= roots' && Reached(g, roots, v)
    ensures Reached(g', roots', v)
  {
    var n: nat :| Steps(g, roots, v, n);
    StepsKept(g, g', checked, roots, roots', v, n);
  }

  lemma AcyclicGraphsAgree(g: Graph<string>, g': Graph<string>, checked: seq<string>)
    requires GraphExpansion(g, g', checked)
    ensures Acyclic(g') <==> Acyclic(g)
  {
    if Acyclic(g) {
      forall v, n: nat | Steps(g', {v}, v, n) ensures n == 0 {
        var m := StepsProject(g, g', checked, v, v, n);
      }
    }
    if Acyclic(g') {
      forall v, n: nat | Steps(g, {v}, v, n) ensures n == 0 {
        StepsKept(g, g', checked, {v}, {v}, v, n);
      }
    }
  }

  // ----- what one task involves

  /** `n` is a companion someone involved now waits on: the task itself, or another container. */
  ghost predicate WaitedOn(g: Graph<string>, checked: seq<string>, roots: set<string>, listed: seq<string>, n: string) {
    && IsCompanion(checked, n)
    && (|| Origin(checked, n) in listed
        || exists o :: Reached(g, roots, o) && o != Origin(checked, n) && Origin(checked, n) in Successors(g, o))
  }

  /** The expanded task's roots: the old ones and the companions of what it lists. */
  ghost predicate RootsExpansion(checked: seq<string>, roots: set<string>, listed: seq<string>, roots': set<string>) {
    && (forall x :: x in listed ==> x in roots)
    && (forall r :: r in roots ==> !IsCompanion(checked, r))
    && (forall n :: n in roots' <==> n in roots || (IsCompanion(checked, n) && Origin(checked, n) in listed))
  }

  lemma NeverReachesCompanion(g: Graph<string>, g': Graph<string>, checked: seq<string>, roots: set<string>, v: string)
    requires GraphExpansion(g, g', checked) && (forall r :: r in roots ==> !IsCompanion(checked, r))
    requires Reached(g, roots, v)
    ensures !IsCompanion(checked, v)
  {
    var n: nat :| Steps(g, roots, v, n);
  }

  /** What a companion waits on was involved already. */
  lemma CompanionInvolved(g: Graph<string>, checked: seq<string>, roots: set<string>, listed: seq<string>, w: string)
    requires (forall x :: x in listed ==> x in roots) && WaitedOn(g, checked, roots, listed, w)
    ensures Reached(g, roots, Origin(checked, w))
  {
    var x := Origin(checked, w);
    if x in listed {
      ReachedRoot(g, roots, x);
    } else {
      var o :| Reached(g, roots, o) && o != x && x in Successors(g, o);
      ReachedNext(g, roots, o, x);
    }
  }

  lemma {:induction false} InvolvedOnly(g: Graph<string>, g': Graph<string>, checked: seq<string>,
                                        roots: set<string>, listed: seq<string>, roots': set<string>, v: string, n: nat)
    requires GraphExpansion(g, g', checked) && RootsExpansion(checked, roots, listed, roots')
    requires Steps(g', roots', v, n)
    ensures Reached(g, roots, v) || WaitedOn(g, checked, roots, listed, v)
    decreases n
  {
    hide GraphExpansion, IsCompanion;
    if n == 0 {
      if v in roots {
        ReachedRoot(g, roots, v);
      }
    } else {
      var w :| Steps(g', roots', w, n - 1) && v in Successors(g', w);
      InvolvedOnly(g, g', checked, roots, listed, roots', w, n - 1);
      EdgeIsExpected(g, g', checked, w, v);
      if IsCompanion(checked, w) {
        if Reached(g, roots, w) {
          NeverReachesCompanion(g, g', checked, roots, w);
          assert false;
        }
        CompanionInvolved(g, checked, roots, listed, w);
      } else if v in Successors(g, w) {
        ReachedNext(g, roots, w, v);
      }
    }
  }

  lemma InvolvedExactly(g: Graph<string>, g': Graph<string>, checked: seq<string>,
                        roots: set<string>, listed: seq<string>, roots': set<string>, v: string)
    requires GraphExpansion(g, g', checked) && RootsExpansion(checked, roots, listed, roots')
    ensures Reached(g', roots', v) <==> Reached(g, roots, v) || WaitedOn(g, checked, roots, listed, v)
  {
    hide GraphExpansion, IsCompanion;
    if Reached(g', roots', v) {
      var n: nat :| Steps(g', roots', v, n);
      InvolvedOnly(g, g', checked, roots, listed, roots', v, n);
    }
    if Reached(g, roots, v) {
      ReachedKept(g, g', checked, roots, roots', v);
    }
    if WaitedOn(g, checked, roots, listed, v) {
      var x := Origin(checked, v);
      if x in listed {
        ReachedRoot(g', roots', v);
      } else {
        var o :| Reached(g, roots, o) && o != x && x in Successors(g, o);
        ReachedKept(g, g', checked, roots, roots', o);
        NeverReachesCompanion(g, g', checked, roots, o);
        EdgeIsExpected(g, g', checked, o, v);
        ReachedNext(g', roots', o, v);
      }
    }
  }

  // ----- the expanded configuration has the expanded graph

  /** A name the user wrote is never a companion's. */
  lemma UserNames(before: Project)
    requires before.Valid() && NothingReserved(before)
    ensures var checked := Checked(before);
      && (forall n :: n in before.containers.entries ==> !IsCompanion(checked, n))
      && (forall o, n :: n in Successors(before.DependencyGraph(), o) ==> !IsCompanion(checked, n))
      && (forall t, n :: t in before.tasks.entries && Mentions(before.tasks.entries[t], n) ==> !IsCompanion(checked, n))
  {
    var checked := Checked(before);
    forall n | IsCompanion(checked, n)
      ensures n !in before.containers.entries
      ensures forall o :: n !in Successors(before.DependencyGraph(), o)
      ensures forall t :: t in before.tasks.entries ==> !Mentions(before.tasks.entries[t], n)
    {
      IsCompanionName(checked, n);
      assert !Reserves(before, Origin(checked, n));
    }
  }

  lemma ListedAfter(dependencies: Option<seq<string>>, checked: seq<string>, self: Option<string>, v: string)
    ensures v in Listed(WithCompanions(dependencies, checked, self)) <==>
      || v in Listed(dependencies)
      || (IsCompanion(checked, v) && self != Some(Origin(checked, v)) && Origin(checked, v) in Listed(dependencies))
  {
    if dependencies.Some? {
      GainedMembers(dependencies.value, checked, self);
      if IsCompanion(checked, v) {
        IsCompanionName(checked, v);
      }
      forall x | x in checked && v == CompanionName(x) ensures IsCompanion(checked, v) && Origin(checked, v) == x {
        CompanionOf(checked, x);
      }
    }
  }

  lemma KeysAfter(before: Project, after: Project)
    requires before.Valid() && Expansion(before, after)
    ensures after.Valid() && after.containers.keys == before.containers.keys + Companions(Checked(before))
  {
  }

  lemma OnlyDeclaredAndCompanions(before: Project, after: Project, u: string)
    requires before.Valid() && Expansion(before, after)
    ensures u in after.containers.entries ==> u in before.containers.entries || IsCompanion(Checked(before), u)
  {
    hide Expansion, Checked, IsCompanion, Origin, CompanionName;
    KeysAfter(before, after);
    var checked := Checked(before);
    if u in Companions(checked) {
      var i :| 0 <= i < |checked| && u == CompanionName(checked[i]);
      CompanionOf(checked, checked[i]);
    }
    assert u in after.containers.keys <==> u in before.containers.keys || u in Companions(checked);
  }

  lemma EdgesAfter(before: Project, after: Project, u: string, v: string)
    requires before.Valid() && Expansion(before, after)
    requires u in before.containers.entries ==> !IsCompanion(Checked(before), u)
    ensures v in Successors(after.DependencyGraph(), u) <==>
      EdgeAfter(before.DependencyGraph(), Checked(before), u, v)
  {
    var checked := Checked(before);
    if IsCompanion(checked, u) {
      IsCompanionName(checked, u);
      assert Successors(after.DependencyGraph(), u) == [Origin(checked, u)];
    } else if u in before.containers.entries {
      assert after.containers.entries[u] == ContainerAfter(u, before.containers.entries[u], checked);
      ListedAfter(before.containers.entries[u].dependencies, checked, Some(u), v);
    } else {
      OnlyDeclaredAndCompanions(before, after, u);
    }
  }

  lemma ExpandsTheGraph(before: Project, after: Project)
    requires before.Valid() && Expansion(before, after)
    ensures GraphExpansion(before.DependencyGraph(), after.DependencyGraph(), Checked(before))
  {
    var g, g', checked := before.DependencyGraph(), after.DependencyGraph(), Checked(before);
    UserNames(before);
    CheckedAmongMembers(before.containers.keys, before.containers.entries);
    forall u, v ensures v in Successors(g', u) <==> EdgeAfter(g, checked, u, v) {
      EdgesAfter(before, after, u, v);
    }
  }

  lemma ExpandsTheRoots(before: Project, after: Project, t: string, root: string)
    requires before.Valid() && Expansion(before, after)
    requires t in before.tasks.entries && before.tasks.entries[t].run == Some(root)
    ensures t in after.tasks.entries && after.tasks.entries[t].run == Some(root)
    ensures RootsExpansion(Checked(before),
                           WalkRoots(root, before.tasks.entries[t].dependencies),
                           Listed(before.tasks.entries[t].dependencies),
                           WalkRoots(root, after.tasks.entries[t].dependencies))
  {
    var checked, task := Checked(before), before.tasks.entries[t];
    UserNames(before);
    assert after.tasks.entries[t] == TaskAfter(task, checked);
    forall r | r in WalkRoots(root, task.dependencies) ensures !IsCompanion(checked, r) {
      assert Mentions(task, r);
    }
    forall n
      ensures n in Listed(after.tasks.entries[t].dependencies) <==>
        n in Listed(task.dependencies) || (IsCompanion(checked, n) && Origin(checked, n) in Listed(task.dependencies))
    {
      ListedAfter(task.dependencies, checked, None, n);
    }
  }

  // ----- the results

  /** Expansion neither makes a dependency cycle nor hides one. */
  lemma AcyclicityKept(before: Project, after: Project)
    requires before.Valid() && Expansion(before, after)
    ensures Acyclic(after.DependencyGraph()) <==> Acyclic(before.DependencyGraph())
  {
    ExpandsTheGraph(before, after);
    AcyclicGraphsAgree(before.DependencyGraph(), after.DependencyGraph(), Checked(before));
  }

  /** Expansion adds to a task exactly the companions of what it, or another container it involves, waits on. */
  lemma TaskGainsExactlyItsCompanions(before: Project, after: Project, t: string, root: string, n: string)
    requires before.Valid() && Expansion(before, after)
    requires t in before.tasks.entries && before.tasks.entries[t].run == Some(root)
    ensures t in after.tasks.entries
    ensures var task := before.tasks.entries[t];
      var roots := WalkRoots(root, task.dependencies);
      Reached(after.DependencyGraph(), WalkRoots(root, after.tasks.entries[t].dependencies), n) <==>
        || Reached(before.DependencyGraph(), roots, n)
        || WaitedOn(before.DependencyGraph(), Checked(before), roots, Listed(task.dependencies), n)
  {
    ExpandsTheGraph(before, after);
    ExpandsTheRoots(before, after, t, root);
    var task := before.tasks.entries[t];
    InvolvedExactly(before.DependencyGraph(), after.DependencyGraph(), Checked(before),
                    WalkRoots(root, task.dependencies), Listed(task.dependencies),
                    WalkRoots(root, after.tasks.entries[t].dependencies), n);
  }

  /** Whether a listing shown to the user leaves `name` out. */
  predicate Generated(name: string, entries: map<string, Container>) {
    match StripPrefix(name, PREFIX)
    case Some(checked) => checked in entries && IsChecked(entries[checked])
    case None => false
  }

  /** `declared_containers`, as the names it yields. */
  function DeclaredAmong(keys: seq<string>, entries: map<string, Container>): seq<string> {
    if keys == [] then []
    else (if Generated(keys[0], entries) then [] else [keys[0]]) + DeclaredAmong(keys[1..], entries)
  }

  lemma {:induction false} DeclaredSplits(first: seq<string>, second: seq<string>, entries: map<string, Container>)
    requires forall k :: k in first ==> !Generated(k, entries)
    requires forall k :: k in second ==> Generated(k, entries)
    ensures DeclaredAmong(first + second, entries) == first
    decreases |first| + |second|
  {
    if first == [] {
      assert first + second == second;
      if second != [] {
        assert [] + second[1..] == second[1..];
        DeclaredSplits([], second[1..], entries);
      }
    } else {
      DeclaredSplits(first[1..], second, entries);
      assert (first + second)[1..] == first[1..] + second;
    }
  }

  lemma DeclaredIsListed(before: Project, after: Project, k: string)
    requires before.Valid() && Expansion(before, after) && k in before.containers.entries
    ensures !Generated(k, after.containers.entries)
  {
    hide Reserves;
    var checked := Checked(before);
    CheckedAmongMembers(before.containers.keys, before.containers.entries);
    UserNames(before);
    if PREFIX <= k {
      var x := k[|PREFIX|..];
      OnlyDeclaredAndCompanions(before, after, x);
      if IsCompanion(checked, x) {
        IsCompanionName(checked, x);
        assert after.containers.entries[x] == Companion(Origin(checked, x));
      } else if x in before.containers.entries {
        assert after.containers.entries[x] == ContainerAfter(x, before.containers.entries[x], checked);
      }
    }
  }

  lemma CompanionIsGenerated(before: Project, after: Project, x: string)
    requires before.Valid() && Expansion(before, after) && x in Checked(before)
    ensures Generated(CompanionName(x), after.containers.entries)
  {
    hide Reserves;
    var checked := Checked(before);
    CheckedAmongMembers(before.containers.keys, before.containers.entries);
    CompanionOf(checked, x);
    assert after.containers.entries[x] == ContainerAfter(x, before.containers.entries[x], checked);
  }

  /** A listing of the expanded configuration is the listing the user wrote, in order. */
  lemma DeclaredContainersRecovered(before: Project, after: Project)
    requires before.Valid() && Expansion(before, after)
    ensures DeclaredAmong(after.containers.keys, after.containers.entries) == before.containers.keys
    ensures forall n :: n in before.containers.entries ==>
      n in after.containers.entries
      && after.containers.entries[n].(dependencies := before.containers.entries[n].dependencies)
         == before.containers.entries[n]
  {
    hide Generated, Reserves, IsCompanion, CompanionName;
    var checked := Checked(before);
    forall k | k in before.containers.keys ensures !Generated(k, after.containers.entries) {
      DeclaredIsListed(before, after, k);
    }
    forall k | k in Companions(checked) ensures Generated(k, after.containers.entries) {
      var i :| 0 <= i < |checked| && k == CompanionName(checked[i]);
      CompanionIsGenerated(before, after, checked[i]);
    }
    DeclaredSplits(before.containers.keys, Companions(checked), after.containers.entries);
  }

  /** What a companion sets; every other field of a container is left alone. */
  const COMPANION_FIELDS := {
    Extends.Image, Extends.Dependencies, Extends.RunToCompletion, Extends.Entrypoint, Extends.LogDriver}

  /** `c` waits for `x` alone, runs its check to completion, and reports readiness in its name. */
  ghost predicate ChecksFor(c: Container, x: string) {
    && c.dependencies == Some([x])
    && c.runToCompletion == Some(true)
    && c.reportsReadinessFor == Some(x)
    && c.image == Some("curlimages/curl@sha256:c1fe1679c34d9784c1b0d1e5f62ac0a79fca01fb6377cdd33e90473c6f9f9a69")
    && c.entrypoint == Some("sh")
    && c.logDriver == Some("json-file")
    && c.extendsFrom.None?
    && (forall f :: f !in COMPANION_FIELDS ==> Extends.Get(c, f).None?)
  }

  lemma CompanionChecks(x: string)
    ensures ChecksFor(Companion(x), x)
  {
    forall f | f !in COMPANION_FIELDS ensures Extends.Get(Companion(x), f).None? {
    }
  }

  /** Each checked container has its companion, under its own name. */
  lemma EveryCheckHasItsCompanion(before: Project, after: Project, x: string)
    requires before.Valid() && Expansion(before, after)
    requires x in before.containers.entries && before.containers.entries[x].externalHealthCheck.Some?
    ensures ("ratect-health-check-" + x) in after.containers.entries
    ensures ChecksFor(after.containers.entries["ratect-health-check-" + x], x)
  {
    hide Expansion, CheckedAmong, ChecksFor, Companion;
    assert CompanionName(x) == "ratect-health-check-" + x;
    CheckedIsChecked(before, x);
    CompanionAfter(before, after, x);
    CompanionChecks(x);
  }

  lemma CheckedIsChecked(p: Project, x: string)
    requires p.Valid() && x in p.containers.entries && p.containers.entries[x].externalHealthCheck.Some?
    ensures x in Checked(p)
  {
    CheckedAmongMembers(p.containers.keys, p.containers.entries);
  }

  lemma CompanionAfter(before: Project, after: Project, x: string)
    requires before.Valid() && Expansion(before, after) && x in Checked(before)
    ensures CompanionName(x) in after.containers.entries
    ensures after.containers.entries[CompanionName(x)] == Companion(x)
  {
  }
}
