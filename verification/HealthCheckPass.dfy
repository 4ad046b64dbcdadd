/** The in-place pass: `expand_external_health_checks` over a mutable configuration. */
module HealthCheckPass {
  import opened Common
  import opened ConfigModel
  import opened HealthChecks

  class Config {
    var containers: IndexMap<Container>
    var tasks: IndexMap<Task>

    constructor (containers: IndexMap<Container>, tasks: IndexMap<Task>)
      ensures Snapshot() == Project(containers, tasks)
    {
      this.containers, this.tasks := containers, tasks;
    }

    function Snapshot(): Project
      reads this
    {
      Project(containers, tasks)
    }

    /** Judges every check in declaration order; the first offender is the one refused. */
    method CollectChecked(validName: string -> bool, blank: char -> bool)
      returns (checked: seq<string>, refused: Option<Refusal>)
      requires Snapshot().Valid()
      ensures refused.None? <==> AllExpandable(Snapshot(), validName, blank)
      ensures refused.None? ==> checked == Checked(Snapshot())
      ensures refused.Some? ==> FirstOffender(refused.value, validName, blank)
    {
      hide Expandable, FirstFault;
      checked := [];
      for i := 0 to |containers.keys|
        invariant checked == CheckedAmong(containers.keys[..i], containers.entries)
        invariant forall j :: 0 <= j < i ==> !Offends(containers.keys[j], validName, blank)
      {
        var name := containers.keys[i];
        assert containers.keys[..i + 1][..i] == containers.keys[..i];
        var c := containers.entries[name];
        if IsChecked(c) {
          var fault := JudgeCheck(name, c, validName, blank);
          if fault.Some? {
            return checked, Some(InvalidCheck(name, fault.value));
          }
          checked := checked + [name];
        }
      }
      assert containers.keys[..|containers.keys|] == containers.keys;
      refused := None;
    }

    ghost predicate FirstOffender(refusal: Refusal, validName: string -> bool, blank: char -> bool)
      reads this
    {
      exists i :: 0 <= i < |containers.keys|
                  && refusal.InvalidCheck? && refusal.container == containers.keys[i]
                  && Offends(refusal.container, validName, blank)
                  && FirstFault(refusal.fault, refusal.container, containers.entries[refusal.container],
                                validName, blank)
                  && forall j :: 0 <= j < i ==> !Offends(containers.keys[j], validName, blank)
    }

    ghost predicate Offends(name: string, validName: string -> bool, blank: char -> bool)
      reads this
    {
      && name in containers.entries
      && IsChecked(containers.entries[name])
      && !Expandable(name, containers.entries[name], validName, blank)
    }

    /** Any mention the user made of the name about to be generated. */
    method FindReservedUse(name: string) returns (refused: Option<Refusal>)
      requires Snapshot().Valid()
      ensures refused.Some? <==> Reserves(Snapshot(), name)
      ensures refused.Some? ==> RealUse(Snapshot(), refused.value, name)
    {
      var companion := CompanionName(name);
      if companion in containers.entries {
        return Some(CompanionDeclared(companion));
      }
      for i := 0 to |containers.keys|
        invariant forall j :: 0 <= j < i ==>
          companion !in Listed(containers.entries[containers.keys[j]].dependencies)
      {
        var other := containers.keys[i];
        if companion in Listed(containers.entries[other].dependencies) {
          return Some(ContainerDependsOn(other, companion));
        }
      }
      for i := 0 to |tasks.keys|
        invariant forall j :: 0 <= j < i ==> !Mentions(tasks.entries[tasks.keys[j]], companion)
      {
        var task := tasks.keys[i];
        if tasks.entries[task].run == Some(companion) {
          return Some(TaskRuns(task, companion));
        }
        if companion in Listed(tasks.entries[task].dependencies) {
          return Some(TaskDependsOn(task, companion));
        }
      }
      refused := None;
    }

    /** Whether any companion's name is taken, looked for before a single one exists. */
    method FindReserved(checked: seq<string>) returns (refused: Option<Refusal>)
      requires Snapshot().Valid() && checked == Checked(Snapshot())
      ensures refused.None? <==> NothingReserved(Snapshot())
      ensures refused.Some? ==> exists x :: x in checked && RealUse(Snapshot(), refused.value, x)
    {
      for i := 0 to |checked|
        invariant forall j :: 0 <= j < i ==> !Reserves(Snapshot(), checked[j])
      {
        refused := FindReservedUse(checked[i]);
        if refused.Some? { return; }
      }
      refused := None;
    }

    /** Adds the generated containers, after every declared one. */
    method InsertCompanions(checked: seq<string>)
      requires containers.Valid() && NoDuplicates(checked)
      requires forall x :: x in checked ==> CompanionName(x) !in containers.entries
      modifies this
      ensures tasks == old(tasks)
      ensures Inserted(old(containers), containers, checked, |checked|)
    {
      ghost var before := containers;
      for i := 0 to |checked|
        invariant tasks == old(tasks)
        invariant Inserted(before, containers, checked, i)
      {
        InsertOne(before, containers, checked, i);
        containers := containers.Insert(CompanionName(checked[i]), Companion(checked[i]));
      }
    }

    /** One checked container's edges from every other container. */
    method AddContainerEdges(name: string)
      requires containers.Valid()
      modifies this`containers
      ensures containers.Valid() && containers.keys == old(containers.keys)
      ensures forall n :: n in containers.entries ==>
        n in old(containers.entries) && containers.entries[n] == EdgeAdded(n, old(containers.entries)[n], name)
    {
      hide AddDependencyAfter, CompanionName;
      var keys := containers.keys;
      for i := 0 to |keys|
        invariant containers.keys == keys
        invariant forall n :: n in containers.entries <==> n in old(containers.entries)
        invariant forall j :: 0 <= j < i ==>
          containers.entries[keys[j]] == EdgeAdded(keys[j], old(containers.entries)[keys[j]], name)
        invariant forall j :: i <= j < |keys| ==>
          containers.entries[keys[j]] == old(containers.entries)[keys[j]]
      {
        var other := keys[i];
        if other != name && other != CompanionName(name) {
          var c := containers.entries[other];
          containers := containers.(entries := containers.entries[other :=
            c.(dependencies := AddDependencyAfter(c.dependencies, name, CompanionName(name)))]);
        }
      }
    }

    /** One checked container's edges from every task. */
    method AddTaskEdges(name: string)
      requires tasks.Valid()
      modifies this`tasks
      ensures tasks.Valid() && tasks.keys == old(tasks.keys)
      ensures forall t :: t in tasks.entries ==>
        t in old(tasks.entries) && tasks.entries[t] == TaskEdgeAdded(old(tasks.entries)[t], name)
    {
      var keys := tasks.keys;
      for i := 0 to |keys|
        invariant tasks.keys == keys
        invariant forall t :: t in tasks.entries <==> t in old(tasks.entries)
        invariant forall j :: 0 <= j < i ==>
          tasks.entries[keys[j]] == TaskEdgeAdded(old(tasks.entries)[keys[j]], name)
        invariant forall j :: i <= j < |keys| ==>
          tasks.entries[keys[j]] == old(tasks.entries)[keys[j]]
      {
        var task := tasks.entries[keys[i]];
        tasks := tasks.(entries := tasks.entries[keys[i] :=
          task.(dependencies := AddDependencyAfter(task.dependencies, name, CompanionName(name)))]);
      }
    }

    /** The whole pass: refused with nothing changed, or expanded exactly. */
    method ExpandExternalHealthChecks(validName: string -> bool, blank: char -> bool)
      returns (refused: Option<Refusal>)
      requires Snapshot().Valid()
      modifies this
      ensures refused.None? <==>
        AllExpandable(old(Snapshot()), validName, blank) && NothingReserved(old(Snapshot()))
      ensures refused.Some? ==>
        && Snapshot() == old(Snapshot())
        && (FirstOffender(refused.value, validName, blank)
            || exists x :: x in Checked(Snapshot()) && RealUse(Snapshot(), refused.value, x))
      ensures refused.None? ==> Expansion(old(Snapshot()), Snapshot())
    {
      hide AllExpandable, RealUse, Reserves, Unclashing, Companion, EdgeAdded, TaskEdgeAdded, Expansion, CheckedAmong;
      ghost var before := Snapshot();
      var checked;
      checked, refused := CollectChecked(validName, blank);
      if refused.Some? {
        return;
      }
      refused := FindReserved(checked);
      if refused.Some? {
        return;
      }
      NoClashes(before);
      InsertCompanions(checked);
      PartialStarts(before, Snapshot());
      for i := 0 to |checked|
        invariant Partial(before, Snapshot(), checked, i)
      {
        ghost var previous := Snapshot();
        AddContainerEdges(checked[i]);
        AddTaskEdges(checked[i]);
        PartialStep(before, previous, Snapshot(), checked, i);
      }
      PartialDone(before, Snapshot());
    }
  }

  function EdgeAdded(n: string, c: Container, target: string): Container {
    if n == target || n == CompanionName(target) then c
    else c.(dependencies := AddDependencyAfter(c.dependencies, target, CompanionName(target)))
  }

  function TaskEdgeAdded(task: Task, target: string): Task {
    task.(dependencies := AddDependencyAfter(task.dependencies, target, CompanionName(target)))
  }

  /** The companions of the first `i` checked containers have been inserted. */
  ghost predicate Inserted(before: IndexMap<Container>, now: IndexMap<Container>, checked: seq<string>, i: nat)
    requires i <= |checked|
  {
    && now.Valid()
    && now.keys == before.keys + Companions(checked)[..i]
    && (forall n :: n in before.entries ==> n in now.entries && now.entries[n] == before.entries[n])
    && (forall j :: 0 <= j < i ==>
          CompanionName(checked[j]) in now.entries
          && now.entries[CompanionName(checked[j])] == Companion(checked[j]))
  }

  lemma InsertFresh(m: IndexMap<Container>, k: string, v: Container)
    requires m.Valid() && k !in m.entries
    ensures m.Insert(k, v).Valid()
  {
    var inserted := m.Insert(k, v);
    forall x ensures x in inserted.keys <==> x in inserted.entries {
      assert x in m.keys <==> x in m.entries;
    }
  }

  lemma CompanionFresh(before: IndexMap<Container>, now: IndexMap<Container>, checked: seq<string>, i: nat)
    requires before.Valid() && NoDuplicates(checked) && i < |checked|
    requires CompanionName(checked[i]) !in before.entries && Inserted(before, now, checked, i)
    ensures CompanionName(checked[i]) !in now.entries
  {
    hide Companion, CompanionName;
    var sofar := Companions(checked)[..i];
    forall j | 0 <= j < i ensures sofar[j] != CompanionName(checked[i]) {
      CompanionNameInjective(checked[i], checked[j]);
    }
    assert CompanionName(checked[i]) !in before.keys + sofar;
  }

  lemma InsertOne(before: IndexMap<Container>, now: IndexMap<Container>, checked: seq<string>, i: nat)
    requires before.Valid() && NoDuplicates(checked) && i < |checked|
    requires CompanionName(checked[i]) !in before.entries && Inserted(before, now, checked, i)
    ensures Inserted(before, now.Insert(CompanionName(checked[i]), Companion(checked[i])), checked, i + 1)
  {
    hide Companion, CompanionName, NoDuplicates;
    hide IndexMap.Valid;
    var companion := CompanionName(checked[i]);
    CompanionFresh(before, now, checked, i);
    InsertFresh(now, companion, Companion(checked[i]));
    var after := now.Insert(companion, Companion(checked[i]));
    assert after.keys == before.keys + Companions(checked)[..i + 1] by {
      assert Companions(checked)[..i + 1] == Companions(checked)[..i] + [companion];
    }
    forall j | 0 <= j < i + 1
      ensures CompanionName(checked[j]) in after.entries
      ensures after.entries[CompanionName(checked[j])] == Companion(checked[j])
    {
      assert j < i ==> CompanionName(checked[j]) in now.entries;
    }
  }

  /** What an unreserved project gives the pass: no checked name is a companion's, no list names one. */
  ghost predicate Unclashing(p: Project, checked: seq<string>) {
    && NoDuplicates(checked)
    && (forall x :: x in checked ==> x in p.containers.entries && CompanionName(x) !in p.containers.entries)
    && (forall x, n :: x in checked && n in p.containers.entries ==>
          CompanionName(x) !in Listed(p.containers.entries[n].dependencies))
    && (forall x, t :: x in checked && t in p.tasks.entries ==>
          CompanionName(x) !in Listed(p.tasks.entries[t].dependencies))
  }

  lemma NoClashes(p: Project)
    requires p.Valid() && NothingReserved(p)
    ensures Unclashing(p, Checked(p))
  {
    CheckedAmongMembers(p.containers.keys, p.containers.entries);
    forall x | x in Checked(p) ensures !Reserves(p, x) {}
    forall x, t | x in Checked(p) && t in p.tasks.entries
      ensures !Mentions(p.tasks.entries[t], CompanionName(x))
    {
      assert !Reserves(p, x);
    }
  }

  /** The edges of the first `i` checked containers have been added. */
  ghost predicate Partial(before: Project, now: Project, checked: seq<string>, i: nat)
    requires i <= |checked|
  {
    && now.Valid()
    && now.containers.keys == before.containers.keys + Companions(checked)
    && now.tasks.keys == before.tasks.keys
    && (forall n :: n in before.containers.entries ==>
          n in now.containers.entries
          && now.containers.entries[n] == ContainerAfter(n, before.containers.entries[n], checked[..i]))
    && (forall x :: x in checked ==>
          CompanionName(x) in now.containers.entries
          && now.containers.entries[CompanionName(x)] == Companion(x))
    && (forall t :: t in before.tasks.entries ==>
          t in now.tasks.entries
          && now.tasks.entries[t] == TaskAfter(before.tasks.entries[t], checked[..i]))
  }

  lemma NothingGained(dependencies: Option<seq<string>>, self: Option<string>)
    ensures WithCompanions(dependencies, [], self) == dependencies
  {
    assert dependencies.Some? ==>
      dependencies.value + Gained(dependencies.value, [], self) == dependencies.value;
  }

  lemma PartialStarts(before: Project, now: Project)
    requires before.Valid() && now.tasks == before.tasks
    requires Inserted(before.containers, now.containers, Checked(before), |Checked(before)|)
    ensures Partial(before, now, Checked(before), 0)
  {
    var checked := Checked(before);
    assert checked[..0] == [];
    assert Companions(checked)[..|checked|] == Companions(checked);
    hide CheckedAmong, Companion, CompanionName, WithCompanions, NoDuplicates;
    forall d, self {:trigger WithCompanions(d, [], self)} ensures WithCompanions(d, [], self) == d {
      NothingGained(d, self);
    }
  }

  lemma ContainerStep(n: string, c: Container, checked: seq<string>, i: nat)
    requires i < |checked| && NoDuplicates(checked) && n != CompanionName(checked[i])
    requires CompanionName(checked[i]) !in Listed(c.dependencies)
    requires forall j :: 0 <= j < |checked| ==> checked[i] != CompanionName(checked[j])
    ensures EdgeAdded(n, ContainerAfter(n, c, checked[..i]), checked[i]) == ContainerAfter(n, c, checked[..i + 1])
  {
    AddOneMore(c.dependencies, checked, i, Some(n));
  }

  lemma TaskStep(task: Task, checked: seq<string>, i: nat)
    requires i < |checked| && NoDuplicates(checked)
    requires CompanionName(checked[i]) !in Listed(task.dependencies)
    requires forall j :: 0 <= j < |checked| ==> checked[i] != CompanionName(checked[j])
    ensures TaskEdgeAdded(TaskAfter(task, checked[..i]), checked[i]) == TaskAfter(task, checked[..i + 1])
  {
    AddOneMore(task.dependencies, checked, i, None);
  }

  /** A companion's own list, naming one declared container, never grows. */
  lemma CompanionStep(y: string, target: string)
    ensures EdgeAdded(CompanionName(y), Companion(y), target) == Companion(y)
  {
    CompanionNameInjective(y, target);
  }

  lemma PartialStep(before: Project, previous: Project, now: Project, checked: seq<string>, i: nat)
    requires before.Valid() && Unclashing(before, checked)
    requires i < |checked| && Partial(before, previous, checked, i) && now.Valid()
    requires now.containers.keys == previous.containers.keys && now.tasks.keys == previous.tasks.keys
    requires forall n :: n in now.containers.entries ==>
      now.containers.entries[n] == EdgeAdded(n, previous.containers.entries[n], checked[i])
    requires forall t :: t in now.tasks.entries ==>
      now.tasks.entries[t] == TaskEdgeAdded(previous.tasks.entries[t], checked[i])
    ensures Partial(before, now, checked, i + 1)
  {
    forall j | 0 <= j < |checked| ensures checked[i] != CompanionName(checked[j]) {
      assert checked[i] in checked && checked[j] in checked;
    }
    forall n | n in before.containers.entries
      ensures n in now.containers.entries
      ensures now.containers.entries[n] == ContainerAfter(n, before.containers.entries[n], checked[..i + 1])
    {
      assert n in previous.containers.keys && checked[i] in checked;
      ContainerStep(n, before.containers.entries[n], checked, i);
    }
    forall y | y in checked
      ensures CompanionName(y) in now.containers.entries
      ensures now.containers.entries[CompanionName(y)] == Companion(y)
    {
      assert CompanionName(y) in previous.containers.keys;
      CompanionStep(y, checked[i]);
    }
    forall t | t in before.tasks.entries
      ensures t in now.tasks.entries
      ensures now.tasks.entries[t] == TaskAfter(before.tasks.entries[t], checked[..i + 1])
    {
      assert t in previous.tasks.keys && checked[i] in checked;
      TaskStep(before.tasks.entries[t], checked, i);
    }
  }

  lemma PartialDone(before: Project, now: Project)
    requires before.Valid() && NothingReserved(before)
    requires Partial(before, now, Checked(before), |Checked(before)|)
    ensures Expansion(before, now)
  {
    var checked := Checked(before);
    assert checked[..|checked|] == checked;
  }
}
