/**
 External health checks: each checked container gains a generated companion,
 and whatever depends on the checked container comes to depend on it too.
 */
module HealthChecks {
  import opened Common
  import opened ConfigModel

  const PREFIX := "ratect-health-check-"
  const COMPANION_IMAGE :=
    "curlimages/curl@sha256:c1fe1679c34d9784c1b0d1e5f62ac0a79fca01fb6377cdd33e90473c6f9f9a69"

  /** What can be wrong with an external check, in the order it is looked for. */
  datatype Fault =
    | InternalCheckToo | AlreadyExited | SetUpTooSoon | UnusableName | UnusablePath
    | PortZero | ImpossibleStatus | NoTimeout | NeverTried

  datatype Refusal =
    | InvalidCheck(container: string, fault: Fault)
    | CompanionDeclared(companion: string)
    | ContainerDependsOn(container: string, companion: string)
    | TaskRuns(task: string, companion: string)
    | TaskDependsOn(task: string, companion: string)

  function CompanionName(container: string): string {
    PREFIX + container
  }

  lemma CompanionNameInjective(x: string, y: string)
    ensures CompanionName(x) == CompanionName(y) <==> x == y
  {
    assert CompanionName(x)[|PREFIX|..] == x && CompanionName(y)[|PREFIX|..] == y;
  }

  /** The generated container; its `command`, the script of the check, is left unset. */
  function Companion(container: string): Container {
    UNSET_CONTAINER.(
      image := Some(COMPANION_IMAGE),
      entrypoint := Some("sh"),
      dependencies := Some([container]),
      runToCompletion := Some(true),
      reportsReadinessFor := Some(container),
      logDriver := Some("json-file"))
  }

  predicate IsChecked(c: Container) {
    c.externalHealthCheck.Some?
  }

  /** Characters a URL path cannot hold unescaped; `blank` is Rust's whitespace-or-control test. */
  predicate ValidPath(path: string, blank: char -> bool) {
    && path != "" && path[0] == '/'
    && forall i :: 0 <= i < |path| ==> !blank(path[i]) && path[i] !in "'\"\\`$"
  }

  predicate NeedsEscaping(c: char, blank: char -> bool) {
    blank(c) || c == '\'' || c == '"' || c == '\\' || c == '`' || c == '$'
  }

  /** A path is unusable exactly when it does not start at the root, or holds what must be escaped. */
  lemma UnusableExactly(path: string, blank: char -> bool)
    ensures !ValidPath(path, blank) <==>
      || path == "" || path[0] != '/'
      || exists a, c, b :: path == a + [c] + b && NeedsEscaping(c, blank)
  {
    forall i | 0 <= i < |path| && NeedsEscaping(path[i], blank)
      ensures exists a, c, b :: path == a + [c] + b && NeedsEscaping(c, blank)
    {
      assert path == path[..i] + [path[i]] + path[i + 1..];
    }
    forall a, c, b | path == a + [c] + b ensures |a| < |path| && path[|a|] == c {
    }
  }

  /** A check that can be expanded: nothing beside it conflicts, and it can pass. */
  predicate Expandable(name: string, c: Container, validName: string -> bool, blank: char -> bool)
    requires IsChecked(c)
  {
    var check := c.externalHealthCheck.value;
    && c.healthCheck.None?
    && c.runToCompletion != Some(true)
    && Listed(c.setupCommands) == []
    && validName(name)
    && (check.kind.Http? ==> ValidPath(check.kind.path, blank))
    && check.kind.port != 0
    && (check.kind.Http? ==> 100 <= check.kind.expectedStatus <= 999)
    && check.timeout != Some(0)
    && check.retries != Some(0)
  }

  predicate HasFault(fault: Fault, name: string, c: Container, validName: string -> bool, blank: char -> bool)
    requires IsChecked(c)
  {
    var check := c.externalHealthCheck.value;
    match fault
    case InternalCheckToo => c.healthCheck.Some?
    case AlreadyExited => c.runToCompletion == Some(true)
    case SetUpTooSoon => c.setupCommands.Some? && c.setupCommands.value != []
    case UnusableName => !validName(name)
    case UnusablePath => check.kind.Http? && !ValidPath(check.kind.path, blank)
    case PortZero => check.kind.port == 0
    case ImpossibleStatus => check.kind.Http? && (check.kind.expectedStatus < 100 || check.kind.expectedStatus > 999)
    case NoTimeout => check.timeout == Some(0)
    case NeverTried => check.retries == Some(0)
  }

  const FAULTS := [InternalCheckToo, AlreadyExited, SetUpTooSoon, UnusableName, UnusablePath,
                   PortZero, ImpossibleStatus, NoTimeout, NeverTried]

  /** `fault` is the first of them that the check has. */
  ghost predicate FirstFault(fault: Fault, name: string, c: Container, validName: string -> bool, blank: char -> bool)
    requires IsChecked(c)
  {
    exists i :: && 0 <= i < |FAULTS| && FAULTS[i] == fault && HasFault(fault, name, c, validName, blank)
                && forall j :: 0 <= j < i ==> !HasFault(FAULTS[j], name, c, validName, blank)
  }

  /** Judges one check; a check with no fault is one that can be expanded. */
  method JudgeCheck(name: string, c: Container, validName: string -> bool, blank: char -> bool)
    returns (fault: Option<Fault>)
    requires IsChecked(c)
    ensures fault.None? <==> Expandable(name, c, validName, blank)
    ensures fault.Some? ==> FirstFault(fault.value, name, c, validName, blank)
  {
    FaultsRuleOut(name, c, validName, blank);
    FaultsInOrder();
    hide ValidPath, Expandable;
    var check := c.externalHealthCheck.value;
    if c.healthCheck.Some? { return Some(InternalCheckToo); }
    if c.runToCompletion == Some(true) { return Some(AlreadyExited); }
    if c.setupCommands.Some? && c.setupCommands.value != [] { return Some(SetUpTooSoon); }
    if !validName(name) { return Some(UnusableName); }
    if check.kind.Http? && !ValidPath(check.kind.path, blank) { return Some(UnusablePath); }
    if check.kind.port == 0 { return Some(PortZero); }
    if check.kind.Http? && !(100 <= check.kind.expectedStatus <= 999) { return Some(ImpossibleStatus); }
    if check.timeout == Some(0) { return Some(NoTimeout); }
    if check.retries == Some(0) { return Some(NeverTried); }
    fault := None;
  }

  lemma FaultsInOrder()
    ensures |FAULTS| == 9
    ensures FAULTS[0] == InternalCheckToo && FAULTS[1] == AlreadyExited && FAULTS[2] == SetUpTooSoon
    ensures FAULTS[3] == UnusableName && FAULTS[4] == UnusablePath && FAULTS[5] == PortZero
    ensures FAULTS[6] == ImpossibleStatus && FAULTS[7] == NoTimeout && FAULTS[8] == NeverTried
  {
  }

  /** A check can be expanded exactly when it has none of the faults. */
  lemma FaultsRuleOut(name: string, c: Container, validName: string -> bool, blank: char -> bool)
    requires IsChecked(c)
    ensures Expandable(name, c, validName, blank) <==>
      forall i :: 0 <= i < |FAULTS| ==> !HasFault(FAULTS[i], name, c, validName, blank)
  {
    hide ValidPath;
    FaultsInOrder();
  }

  /** The checked containers among `keys`, in declaration order. */
  function CheckedAmong(keys: seq<string>, entries: map<string, Container>): seq<string>
    requires forall k :: k in keys ==> k in entries
  {
    if keys == [] then []
    else
      var last := keys[|keys| - 1];
      CheckedAmong(keys[..|keys| - 1], entries) + if IsChecked(entries[last]) then [last] else []
  }

  lemma {:induction false} CheckedAmongMembers(keys: seq<string>, entries: map<string, Container>)
    requires forall k :: k in keys ==> k in entries
    requires NoDuplicates(keys)
    ensures forall x :: x in CheckedAmong(keys, entries) <==> x in keys && IsChecked(entries[x])
    ensures NoDuplicates(CheckedAmong(keys, entries))
  {
    if keys != [] {
      var front := keys[..|keys| - 1];
      CheckedAmongMembers(front, entries);
      assert keys == front + [keys[|keys| - 1]];
    }
  }

  function Checked(p: Project): seq<string>
    requires p.Valid()
  {
    CheckedAmong(p.containers.keys, p.containers.entries)
  }

  function Companions(checked: seq<string>): seq<string> {
    seq(|checked|, i requires 0 <= i < |checked| => CompanionName(checked[i]))
  }

  /** The companions a list naming some of `checked` gains; `self` never waits on its own. */
  function Gained(listed: seq<string>, checked: seq<string>, self: Option<string>): seq<string> {
    if checked == [] then []
    else
      var last := checked[|checked| - 1];
      Gained(listed, checked[..|checked| - 1], self)
      + if last in listed && self != Some(last) then [CompanionName(last)] else []
  }

  lemma {:induction false} GainedMembers(listed: seq<string>, checked: seq<string>, self: Option<string>)
    ensures forall y :: y in Gained(listed, checked, self) <==>
      exists x :: x in checked && x in listed && self != Some(x) && y == CompanionName(x)
  {
    if checked != [] {
      var front := checked[..|checked| - 1];
      GainedMembers(listed, front, self);
      assert checked == front + [checked[|checked| - 1]];
    }
  }

  function WithCompanions(dependencies: Option<seq<string>>, checked: seq<string>, self: Option<string>)
    : Option<seq<string>>
  {
    match dependencies
    case None => None
    case Some(listed) => Some(listed + Gained(listed, checked, self))
  }

  predicate Mentions(task: Task, companion: string) {
    task.run == Some(companion) || companion in Listed(task.dependencies)
  }

  /** What the user's own configuration may not mention. */
  ghost predicate Reserves(p: Project, x: string) {
    var companion := CompanionName(x);
    || companion in p.containers.entries
    || (exists o :: o in p.containers.entries && companion in Listed(p.containers.entries[o].dependencies))
    || (exists t :: t in p.tasks.entries && Mentions(p.tasks.entries[t], companion))
  }

  /** The refusal names a use the user really made of `x`'s companion. */
  ghost predicate RealUse(p: Project, refusal: Refusal, x: string) {
    var companion := CompanionName(x);
    match refusal
    case InvalidCheck(_, _) => false
    case CompanionDeclared(c) => c == companion && c in p.containers.entries
    case ContainerDependsOn(o, c) =>
      c == companion && o in p.containers.entries && c in Listed(p.containers.entries[o].dependencies)
    case TaskRuns(t, c) => c == companion && t in p.tasks.entries && p.tasks.entries[t].run == Some(c)
    case TaskDependsOn(t, c) =>
      c == companion && t in p.tasks.entries && c in Listed(p.tasks.entries[t].dependencies)
  }

  ghost predicate AllExpandable(p: Project, validName: string -> bool, blank: char -> bool) {
    forall n :: n in p.containers.entries && IsChecked(p.containers.entries[n]) ==>
      Expandable(n, p.containers.entries[n], validName, blank)
  }

  ghost predicate NothingReserved(p: Project)
    requires p.Valid()
  {
    forall x :: x in Checked(p) ==> !Reserves(p, x)
  }

  /** `after` is `before` with companions appended and nothing else changed. */
  ghost predicate Expansion(before: Project, after: Project)
    requires before.Valid()
  {
    var checked := Checked(before);
    && after.Valid()
    && NothingReserved(before)
    && after.containers.keys == before.containers.keys + Companions(checked)
    && (forall n :: n in before.containers.entries ==>
          n in after.containers.entries
          && after.containers.entries[n] == ContainerAfter(n, before.containers.entries[n], checked))
    && (forall x :: x in checked ==>
          CompanionName(x) in after.containers.entries
          && after.containers.entries[CompanionName(x)] == Companion(x))
    && after.tasks.keys == before.tasks.keys
    && (forall t :: t in before.tasks.entries ==>
          t in after.tasks.entries
          && after.tasks.entries[t] == TaskAfter(before.tasks.entries[t], checked))
  }

  function ContainerAfter(name: string, c: Container, checked: seq<string>): Container {
    c.(dependencies := WithCompanions(c.dependencies, checked, Some(name)))
  }

  function TaskAfter(task: Task, checked: seq<string>): Task {
    task.(dependencies := WithCompanions(task.dependencies, checked, None))
  }

  /** One list's edge: the companion goes last, once, where the target is named. */
  function AddDependencyAfter(dependencies: Option<seq<string>>, target: string, companion: string)
    : Option<seq<string>>
  {
    match dependencies
    case None => None
    case Some(listed) => if target in listed && companion !in listed then Some(listed + [companion]) else dependencies
  }

  /** Adding the companions one at a time is appending them all. */
  lemma AddOneMore(dependencies: Option<seq<string>>, checked: seq<string>, i: nat, self: Option<string>)
    requires i < |checked| && NoDuplicates(checked)
    requires CompanionName(checked[i]) !in Listed(dependencies)
    requires forall j :: 0 <= j < |checked| ==> checked[i] != CompanionName(checked[j])
    ensures WithCompanions(dependencies, checked[..i + 1], self)
         == if self == Some(checked[i]) then WithCompanions(dependencies, checked[..i], self)
            else AddDependencyAfter(WithCompanions(dependencies, checked[..i], self),
                                    checked[i], CompanionName(checked[i]))
  {
    if dependencies.Some? {
      var listed := dependencies.value;
      var x := checked[i];
      assert checked[..i + 1][..i] == checked[..i] && checked[..i + 1][i] == x;
      assert Gained(listed, checked[..i], self) + [] == Gained(listed, checked[..i], self);
      GainedMembers(listed, checked[..i], self);
      assert forall j :: 0 <= j < |checked[..i]| ==> checked[..i][j] == checked[j];
      assert x !in Gained(listed, checked[..i], self);
      forall j | 0 <= j < i ensures CompanionName(x) != CompanionName(checked[j]) {
        CompanionNameInjective(x, checked[j]);
      }
      assert CompanionName(x) !in Gained(listed, checked[..i], self);
      assert listed + Gained(listed, checked[..i], self) + [CompanionName(x)]
          == listed + (Gained(listed, checked[..i], self) + [CompanionName(x)]);
    }
  }
}
