/** Container inheritance: what an `extends` chain means, field by field. */
module Extends {
  import opened Common
  import opened Chains
  import opened ConfigModel

  datatype Field =
    | Image | Volumes | BuildDirectory | BuildSecrets | BuildSsh | RunAsCurrentUser
    | Dependencies | InternalCheck | SetupCommands | RunToCompletion | ExternalCheck
    | Entrypoint | LogDriver | Network | Plain(setting: PlainSetting)

  datatype Value =
    | Text(text: string)
    | Names(names: seq<string>)
    | Flag(flag: bool)
    | Check(check: ExternalHealthCheck)
    | Mode(mode: NetworkMode)

  function OfText(o: Option<string>): Option<Value> { if o.Some? then Some(Text(o.value)) else None }
  function OfNames(o: Option<seq<string>>): Option<Value> { if o.Some? then Some(Names(o.value)) else None }
  function OfFlag(o: Option<bool>): Option<Value> { if o.Some? then Some(Flag(o.value)) else None }
  function OfCheck(o: Option<ExternalHealthCheck>): Option<Value> { if o.Some? then Some(Check(o.value)) else None }
  function OfMode(o: Option<NetworkMode>): Option<Value> { if o.Some? then Some(Mode(o.value)) else None }

  /** One field's setting, whatever its type. */
  function Get(c: Container, f: Field): Option<Value> {
    match f
    case Image => OfText(c.image)
    case Volumes => OfNames(c.volumes)
    case BuildDirectory => OfText(c.buildDirectory)
    case BuildSecrets => OfNames(c.buildSecrets)
    case BuildSsh => OfNames(c.buildSsh)
    case RunAsCurrentUser => OfFlag(c.runAsCurrentUser)
    case Dependencies => OfNames(c.dependencies)
    case InternalCheck => OfText(c.healthCheck)
    case SetupCommands => OfNames(c.setupCommands)
    case RunToCompletion => OfFlag(c.runToCompletion)
    case ExternalCheck => OfCheck(c.externalHealthCheck)
    case Entrypoint => OfText(c.entrypoint)
    case LogDriver => OfText(c.logDriver)
    case Network => OfMode(c.networkMode)
    case Plain(setting) => if setting in c.settings then Some(Text(c.settings[setting])) else None
  }

  /** Every field the child left unset, taken from the parent; `extends` itself is never inherited. */
  function InheritContainerFields(child: Container, parent: Container): Container {
    child.(
      image := Or(child.image, parent.image),
      volumes := Or(child.volumes, parent.volumes),
      buildDirectory := Or(child.buildDirectory, parent.buildDirectory),
      buildSecrets := Or(child.buildSecrets, parent.buildSecrets),
      buildSsh := Or(child.buildSsh, parent.buildSsh),
      runAsCurrentUser := Or(child.runAsCurrentUser, parent.runAsCurrentUser),
      dependencies := Or(child.dependencies, parent.dependencies),
      healthCheck := Or(child.healthCheck, parent.healthCheck),
      setupCommands := Or(child.setupCommands, parent.setupCommands),
      runToCompletion := Or(child.runToCompletion, parent.runToCompletion),
      externalHealthCheck := Or(child.externalHealthCheck, parent.externalHealthCheck),
      entrypoint := Or(child.entrypoint, parent.entrypoint),
      logDriver := Or(child.logDriver, parent.logDriver),
      networkMode := Or(child.networkMode, parent.networkMode),
      settings := parent.settings + child.settings)
  }

  lemma InheritedField(child: Container, parent: Container, f: Field)
    ensures Get(InheritContainerFields(child, parent), f) == Or(Get(child, f), Get(parent, f))
  {
  }

  /** For the fields anchored on their declaring file: which container's declaration each came from. */
  datatype Suppliers = Suppliers(
    image: string, volumes: string, buildDirectory: string,
    buildSecrets: string, buildSsh: string, runAsCurrentUser: string)

  function Own(name: string): Suppliers {
    Suppliers(name, name, name, name, name, name)
  }

  predicate Tracked(f: Field) {
    f in {Image, Volumes, BuildDirectory, BuildSecrets, BuildSsh, RunAsCurrentUser}
  }

  function SupplierOf(s: Suppliers, f: Field): string
    requires Tracked(f)
  {
    match f
    case Image => s.image
    case Volumes => s.volumes
    case BuildDirectory => s.buildDirectory
    case BuildSecrets => s.buildSecrets
    case BuildSsh => s.buildSsh
    case RunAsCurrentUser => s.runAsCurrentUser
  }

  type Source = map<string, Container>

  /** Who extends whom. */
  function Parents(src: Source): Links {
    map n | n in src :: src[n].extendsFrom
  }

  // ----- what a chain gives a container

  /** Where along the chain `f` is first set; the end of the chain if it never is. */
  function SupplierIndex(src: Source, c: seq<string>, f: Field): (i: nat)
    requires c != [] && forall j :: 0 <= j < |c| ==> c[j] in src
    ensures i < |c|
    ensures forall j :: 0 <= j < i ==> Get(src[c[j]], f).None?
    ensures Get(src[c[i]], f).Some? || i == |c| - 1
  {
    if Get(src[c[0]], f).Some? || |c| == 1 then 0
    else
      var rest := c[1..];
      assert forall j :: 0 < j < |c| ==> c[j] == rest[j - 1];
      1 + SupplierIndex(src, rest, f)
  }

  /** `merged` and `supplied` are what the chain `c` gives its first container. */
  ghost predicate Resolves(src: Source, c: seq<string>, merged: Container, supplied: Suppliers) {
    && Chain(Parents(src), c)
    && merged.extendsFrom.None?
    && merged.reportsReadinessFor == src[c[0]].reportsReadinessFor
    && (forall f :: Get(merged, f) == Get(src[c[SupplierIndex(src, c, f)]], f))
    && (forall f :: Tracked(f) ==> SupplierOf(supplied, f) == c[SupplierIndex(src, c, f)])
  }

  /** Suppliers after one inheritance step, judged before the fields are filled in. */
  function Inherited(child: Container, name: string, parent: Suppliers): Suppliers {
    Suppliers(
      if child.image.None? then parent.image else name,
      if child.volumes.None? then parent.volumes else name,
      if child.buildDirectory.None? then parent.buildDirectory else name,
      if child.buildSecrets.None? then parent.buildSecrets else name,
      if child.buildSsh.None? then parent.buildSsh else name,
      if child.runAsCurrentUser.None? then parent.runAsCurrentUser else name)
  }

  lemma InheritedSupplier(child: Container, name: string, parent: Suppliers, f: Field)
    requires Tracked(f)
    ensures SupplierOf(Inherited(child, name, parent), f)
         == if Get(child, f).None? then SupplierOf(parent, f) else name
  {
  }

  lemma ResolvesAlone(src: Source, n: string)
    requires n in src && src[n].extendsFrom.None?
    ensures Resolves(src, [n], src[n].(extendsFrom := None), Own(n))
  {
  }

  /** Consuming `extends` changes no field, and no field decides it. */
  lemma ConsumedField(child: Container, parent: Container, f: Field)
    ensures Get(InheritContainerFields(child, parent).(extendsFrom := None), f) == Or(Get(child, f), Get(parent, f))
  {
    InheritedField(child, parent, f);
  }

  lemma ConsumedKeeps(child: Container, parent: Container)
    ensures var r := InheritContainerFields(child, parent).(extendsFrom := None);
      r.extendsFrom.None? && r.reportsReadinessFor == child.reportsReadinessFor
  {
  }

  lemma SupplierOfLonger(src: Source, n: string, c: seq<string>, f: Field)
    requires n in src && c != [] && forall j :: 0 <= j < |c| ==> c[j] in src
    ensures (forall j :: 0 <= j < |[n] + c| ==> ([n] + c)[j] in src)
    ensures ([n] + c)[SupplierIndex(src, [n] + c, f)]
         == if Get(src[n], f).Some? then n else c[SupplierIndex(src, c, f)]
  {
    hide Get;
    assert ([n] + c)[1..] == c;
  }

  lemma LongerChain(src: Source, n: string, c: seq<string>)
    requires n in src && Chain(Parents(src), c) && src[n].extendsFrom == Some(c[0])
    ensures Chain(Parents(src), [n] + c)
  {
  }

  /** One inheritance step gives what the longer chain gives. */
  lemma ResolvesStep(src: Source, n: string, c: seq<string>, merged: Container, supplied: Suppliers)
    requires n in src && Resolves(src, c, merged, supplied) && src[n].extendsFrom == Some(c[0])
    ensures Resolves(src, [n] + c,
                     InheritContainerFields(src[n], merged).(extendsFrom := None),
                     Inherited(src[n], n, supplied))
  {
    LongerChain(src, n, c);
    ConsumedKeeps(src[n], merged);
    hide Get, InheritContainerFields, Inherited, SupplierOf, SupplierIndex, Tracked;
    forall f
      ensures Get(InheritContainerFields(src[n], merged).(extendsFrom := None), f)
           == Get(src[([n] + c)[SupplierIndex(src, [n] + c, f)]], f)
      ensures Tracked(f) ==>
        SupplierOf(Inherited(src[n], n, supplied), f) == ([n] + c)[SupplierIndex(src, [n] + c, f)]
    {
      SupplierOfLonger(src, n, c, f);
      ConsumedField(src[n], merged, f);
      if Tracked(f) {
        InheritedSupplier(src[n], n, supplied, f);
      }
    }
  }
}
