/** The memoised, cycle-checked resolution of every `extends`. */
module ExtendsResolver {
  import opened Common
  import opened Chains
  import opened ConfigModel
  import opened Extends

  datatype Failure =
    | Cyclic(path: seq<string>)
    | Undefined(container: string, parent: string)

  /** The failure is real: what resolving `start` ran into. */
  ghost predicate Witnessed(src: Source, start: string, failure: Failure) {
    match failure
    case Cyclic(path) => Loops(Parents(src), path) && path[0] == start
    case Undefined(container, parent) =>
      exists p :: Dangles(Parents(src), p) && p[0] == start
                  && p[|p| - 1] == container && src[container].extendsFrom == Some(parent)
  }

  class Resolver {
    const source: Source
    var resolved: map<string, Container>
    var suppliers: map<string, Suppliers>
    var ancestors: seq<string>

    constructor (source: Source)
      ensures this.source == source && resolved == map[] && ancestors == [] && Valid()
    {
      this.source := source;
      resolved, suppliers, ancestors := map[], map[], [];
    }

    /** Every memo entry is what that container's own chain gives it. */
    ghost predicate Valid()
      reads this
    {
      && resolved.Keys == suppliers.Keys
      && forall n :: n in resolved ==> Memoised(n)
    }

    ghost predicate Memoised(n: string)
      requires n in resolved && resolved.Keys == suppliers.Keys
      reads this
    {
      exists c :: c != [] && c[0] == n && Resolves(source, c, resolved[n], suppliers[n])
    }

    /** Adds one answer to the memo. */
    method Remember(name: string, merged: Container, supplied: Suppliers, ghost c: seq<string>)
      requires Valid() && c != [] && c[0] == name && Resolves(source, c, merged, supplied)
      modifies this`resolved, this`suppliers
      ensures Valid() && resolved == old(resolved)[name := merged]
    {
      resolved := resolved[name := merged];
      suppliers := suppliers[name := supplied];
      forall n | n in resolved ensures Memoised(n) {
        if n != name {
          assert old(Memoised(n));
        }
      }
    }

    /** Resolves one container and the chain above it; `ancestors` is the path that led here. */
    method ResolveContainer(name: string) returns (failure: Option<Failure>)
      requires Valid() && name in source && Path(Parents(source), ancestors + [name])
      modifies this`resolved, this`suppliers, this`ancestors
      ensures failure.None? ==> Valid() && name in resolved && ancestors == old(ancestors)
      ensures failure.None? ==> old(resolved.Keys) <= resolved.Keys
      ensures failure.Some? ==> Witnessed(source, (old(ancestors) + [name])[0], failure.value)
      decreases source.Keys - set a | a in ancestors
    {
      if name in resolved {
        return None;
      }
      ghost var path := ancestors + [name];
      if name in ancestors {
        CycleFound(Parents(source), ancestors, name);
        ancestors := ancestors + [name];
        return Some(Cyclic(ancestors));
      }
      var merged := source[name];
      var supplied := Own(name);
      ghost var c := [name];
      if merged.extendsFrom.None? {
        ResolvesAlone(source, name);
      } else {
        var parent := merged.extendsFrom.value;
        if parent !in source {
          assert Dangles(Parents(source), path);
          return Some(Undefined(name, parent));
        }
        ancestors := ancestors + [name];
        PathExtends(Parents(source), path, parent);
        assert name !in source.Keys - (set a | a in ancestors);
        failure := ResolveContainer(parent);
        if failure.Some? {
          return;
        }
        ancestors := ancestors[..|ancestors| - 1];
        assert Memoised(parent);
        ghost var above :| above != [] && above[0] == parent
                           && Resolves(source, above, resolved[parent], suppliers[parent]);
        ResolvesStep(source, name, above, resolved[parent], suppliers[parent]);
        c := [name] + above;
        supplied := Inherited(merged, name, suppliers[parent]);
        merged := InheritContainerFields(merged, resolved[parent]);
      }
      Remember(name, merged.(extendsFrom := None), supplied, c);
      failure := None;
    }
  }

  /** A configuration with every `extends` consumed, and who supplied each tracked field. */
  datatype Resolution = Resolution(containers: IndexMap<Container>, suppliers: map<string, Suppliers>)

  /** Every container is what its own chain, and nothing else, gives it, in declaration order. */
  ghost predicate Resolved(before: IndexMap<Container>, after: Resolution) {
    && after.containers.Valid()
    && after.containers.keys == before.keys
    && (forall n :: n in before.entries ==> n in after.containers.entries && n in after.suppliers)
    && (forall n, c :: n in before.entries && Chain(Parents(before.entries), c) && c[0] == n ==>
          Resolves(before.entries, c, after.containers.entries[n], after.suppliers[n]))
  }

  /** Name `i` is the first with no chain, and `failure` says why it has none. */
  ghost predicate FirstUnresolved(src: Source, names: seq<string>, i: nat, failure: Failure)
    requires i < |names|
  {
    && Witnessed(src, names[i], failure)
    && forall j :: 0 <= j < i ==> HasChain(Parents(src), names[j])
  }

  lemma StartsAlone(src: Source, n: string)
    requires n in src
    ensures Path(Parents(src), [] + [n]) && ([] + [n])[0] == n
  {
    assert [] + [n] == [n];
  }

  lemma MemoHasChain(resolver: Resolver, n: string)
    requires resolver.Valid() && n in resolver.resolved
    ensures HasChain(Parents(resolver.source), n)
  {
    assert resolver.Memoised(n);
    MemoIsTheAnswer(resolver.source, n, resolver.resolved[n], resolver.suppliers[n]);
  }

  /** Resolves each name in declaration order, stopping at the first that cannot be. */
  method ResolveAll(resolver: Resolver, names: seq<string>) returns (failure: Option<Failure>)
    requires resolver.Valid() && resolver.ancestors == [] && forall n :: n in names ==> n in resolver.source
    modifies resolver
    ensures failure.None? ==> resolver.Valid() && forall n :: n in names ==> n in resolver.resolved
    ensures failure.Some? ==> exists i :: 0 <= i < |names| && FirstUnresolved(resolver.source, names, i, failure.value)
  {
    hide Path, HasChain, Witnessed, Parents;
    hide Resolver.Valid;
    for i := 0 to |names|
      invariant resolver.Valid() && resolver.ancestors == []
      invariant forall j :: 0 <= j < i ==> names[j] in resolver.resolved
      invariant forall j :: 0 <= j < i ==> HasChain(Parents(resolver.source), names[j])
    {
      StartsAlone(resolver.source, names[i]);
      failure := resolver.ResolveContainer(names[i]);
      if failure.Some? {
        assert FirstUnresolved(resolver.source, names, i, failure.value);
        return;
      }
      MemoHasChain(resolver, names[i]);
    }
    failure := None;
  }

  /** The resolved containers, put back in declaration order. */
  method Rebuild(names: seq<string>, resolved: map<string, Container>) returns (r: IndexMap<Container>)
    requires NoDuplicates(names) && forall n :: n in names ==> n in resolved
    ensures r.Valid() && r.keys == names && forall n :: n in names ==> r.entries[n] == resolved[n]
  {
    var entries: map<string, Container> := map[];
    for i := 0 to |names|
      invariant forall n :: n in entries <==> n in names[..i]
      invariant forall n :: n in entries ==> n in resolved && entries[n] == resolved[n]
    {
      entries := entries[names[i] := resolved[names[i]]];
    }
    assert names[..|names|] == names;
    r := IndexMap(names, entries);
  }

  /** Succeeds exactly when every chain ends, whatever order the memo was filled in. */
  method ResolveExtends(containers: IndexMap<Container>) returns (r: Result<Resolution, Failure>)
    requires containers.Valid()
    ensures r.Ok? <==> forall n :: n in containers.entries ==> HasChain(Parents(containers.entries), n)
    ensures r.Ok? <==> forall n :: n in containers.entries ==> !Bad(Parents(containers.entries), n)
    ensures r.Ok? ==> Resolved(containers, r.value)
    ensures r.Err? ==> exists i ::
      0 <= i < |containers.keys| && FirstUnresolved(containers.entries, containers.keys, i, r.error)
  {
    var resolver := new Resolver(containers.entries);
    var failure := ResolveAll(resolver, containers.keys);
    if failure.Some? {
      ghost var i :| 0 <= i < |containers.keys|
                     && FirstUnresolved(containers.entries, containers.keys, i, failure.value);
      WitnessedIsBad(containers.entries, containers.keys[i], failure.value);
      assert containers.keys[i] in containers.keys;
      return Err(failure.value);
    }
    var rebuilt := Rebuild(containers.keys, resolver.resolved);
    r := Ok(Resolution(rebuilt, resolver.suppliers));
    forall n | n in containers.entries
      ensures HasChain(Parents(containers.entries), n) && !Bad(Parents(containers.entries), n)
      ensures forall c :: Chain(Parents(containers.entries), c) && c[0] == n ==>
        Resolves(containers.entries, c, rebuilt.entries[n], resolver.suppliers[n])
    {
      assert n in containers.keys && resolver.Memoised(n);
      MemoIsTheAnswer(containers.entries, n, rebuilt.entries[n], resolver.suppliers[n]);
    }
  }

  /** A memo entry right for one chain is right for every chain: there is only one. */
  lemma MemoIsTheAnswer(src: Source, n: string, merged: Container, supplied: Suppliers)
    requires exists c :: c != [] && c[0] == n && Resolves(src, c, merged, supplied)
    ensures HasChain(Parents(src), n) && !Bad(Parents(src), n)
    ensures forall c :: Chain(Parents(src), c) && c[0] == n ==> Resolves(src, c, merged, supplied)
  {
    var d :| d != [] && d[0] == n && Resolves(src, d, merged, supplied);
    ChainIsNotBad(Parents(src), n);
    forall c | Chain(Parents(src), c) && c[0] == n ensures Resolves(src, c, merged, supplied) {
      ChainUnique(Parents(src), c, d);
    }
  }

  /** A failure reported is a failure there is: that container has no chain. */
  lemma WitnessedIsBad(src: Source, n: string, failure: Failure)
    requires Witnessed(src, n, failure)
    ensures Bad(Parents(src), n) && !HasChain(Parents(src), n)
  {
    if HasChain(Parents(src), n) {
      ChainIsNotBad(Parents(src), n);
    }
  }
}
