/** Merging the names the loaded files define: one map per kind, and every clash found. */
module Merge {
  import opened Common
  import opened OrderedUnions

  /** One loaded file's definitions of one kind, in order; `F` says which file. */
  datatype Source<F, V> = Source(file: F, defs: seq<(string, V)>)

  ghost predicate Unique<V>(defs: seq<(string, V)>) {
    forall i, j :: 0 <= i < j < |defs| ==> defs[i].0 != defs[j].0
  }

  ghost predicate Defines<V>(defs: seq<(string, V)>, n: string) {
    exists i :: 0 <= i < |defs| && defs[i].0 == n
  }

  /** Every file that defines `n`, in load order. */
  ghost function DefinedIn<F, V>(sources: seq<Source<F, V>>, n: string): seq<F> {
    if sources == [] then []
    else
      var last := sources[|sources| - 1];
      DefinedIn(sources[..|sources| - 1], n) + if Defines(last.defs, n) then [last.file] else []
  }

  /** `v` is what the first file to define `n` defines it as. */
  ghost predicate FirstDefinition<F, V>(sources: seq<Source<F, V>>, n: string, v: V) {
    exists i, k ::
      && 0 <= i < |sources| && 0 <= k < |sources[i].defs| && sources[i].defs[k] == (n, v)
      && forall j :: 0 <= j < i ==> !Defines(sources[j].defs, n)
  }

  /** The merged names in the order first defined, where each is defined, and its first value. */
  datatype Merged<F, V> = Merged(order: seq<string>, definedIn: map<string, seq<F>>, values: map<string, V>)

  ghost predicate SameNames<F, V>(m: Merged<F, V>) {
    && NoDuplicates(m.order)
    && (forall n :: n in m.order <==> n in m.definedIn)
    && (forall n :: n in m.definedIn <==> n in m.values)
  }

  ghost predicate RightLists<F, V>(sources: seq<Source<F, V>>, m: Merged<F, V>) {
    && (forall n :: n in m.definedIn <==> DefinedIn(sources, n) != [])
    && (forall n :: n in m.definedIn ==> m.definedIn[n] == DefinedIn(sources, n))
  }

  ghost predicate RightValues<F, V>(sources: seq<Source<F, V>>, m: Merged<F, V>) {
    forall n :: n in m.values ==> FirstDefinition(sources, n, m.values[n])
  }

  function NamesOf<V>(defs: seq<(string, V)>): seq<string> {
    seq(|defs|, i requires 0 <= i < |defs| => defs[i].0)
  }

  /** Every name as the files give them, repeats and all. */
  function AllNames<F, V>(sources: seq<Source<F, V>>): seq<string> {
    if sources == [] then []
    else AllNames(sources[..|sources| - 1]) + NamesOf(sources[|sources| - 1].defs)
  }

  ghost predicate RightOrder<F, V>(sources: seq<Source<F, V>>, m: Merged<F, V>) {
    OrderedUnion(AllNames(sources), m.order)
  }

  ghost predicate Represents<F, V>(sources: seq<Source<F, V>>, m: Merged<F, V>) {
    SameNames(m) && RightOrder(sources, m) && RightLists(sources, m) && RightValues(sources, m)
  }

  function Define<F, V>(m: Merged<F, V>, file: F, n: string, v: V): Merged<F, V> {
    if n in m.definedIn then m.(definedIn := m.definedIn[n := m.definedIn[n] + [file]])
    else Merged(m.order + [n], m.definedIn[n := [file]], m.values[n := v])
  }

  lemma DefinesMore<V>(defs: seq<(string, V)>, j: nat, n: string)
    requires j < |defs|
    ensures Defines(defs[..j + 1], n) <==> Defines(defs[..j], n) || defs[j].0 == n
  {
    var few, more := defs[..j], defs[..j + 1];
    assert more == few + [defs[j]];
    assert more[j].0 == defs[j].0;
    assert forall i :: 0 <= i < j ==> more[i].0 == few[i].0;
  }

  /** One more definition of the file being read changes only its own name's list. */
  lemma DefinedInMore<F, V>(done: seq<Source<F, V>>, file: F, defs: seq<(string, V)>, j: nat, n: string)
    requires j < |defs| && Unique(defs)
    ensures var before, after := done + [Source(file, defs[..j])], done + [Source(file, defs[..j + 1])];
      DefinedIn(after, n) == DefinedIn(before, n) + if defs[j].0 == n then [file] else []
  {
    var before, after := done + [Source(file, defs[..j])], done + [Source(file, defs[..j + 1])];
    assert before[..|before| - 1] == done && after[..|after| - 1] == done;
    DefinesMore(defs, j, n);
    if defs[j].0 == n {
      assert !Defines(defs[..j], n);
    }
  }

  lemma FirstDefinitionKept<F, V>(done: seq<Source<F, V>>, file: F, defs: seq<(string, V)>, j: nat, n: string, v: V)
    requires j < |defs| && FirstDefinition(done + [Source(file, defs[..j])], n, v)
    ensures FirstDefinition(done + [Source(file, defs[..j + 1])], n, v)
  {
    var before, after := done + [Source(file, defs[..j])], done + [Source(file, defs[..j + 1])];
    var i, k :| && 0 <= i < |before| && 0 <= k < |before[i].defs| && before[i].defs[k] == (n, v)
                && forall l :: 0 <= l < i ==> !Defines(before[l].defs, n);
    assert after[i].defs[k] == (n, v);
    assert forall l :: 0 <= l < i ==> after[l] == before[l];
  }

  lemma {:induction false} NotDefined<F, V>(sources: seq<Source<F, V>>, n: string)
    requires DefinedIn(sources, n) == []
    ensures forall i :: 0 <= i < |sources| ==> !Defines(sources[i].defs, n)
  {
    if sources != [] {
      NotDefined(sources[..|sources| - 1], n);
      assert forall i :: 0 <= i < |sources| - 1 ==> sources[..|sources| - 1][i] == sources[i];
    }
  }

  lemma DefineNames<F, V>(m: Merged<F, V>, file: F, n: string, v: V)
    requires SameNames(m)
    ensures SameNames(Define(m, file, n, v))
  {
  }

  lemma DefineLists<F, V>(done: seq<Source<F, V>>, file: F, defs: seq<(string, V)>, j: nat, m: Merged<F, V>)
    requires j < |defs| && Unique(defs) && RightLists(done + [Source(file, defs[..j])], m)
    ensures RightLists(done + [Source(file, defs[..j + 1])], Define(m, file, defs[j].0, defs[j].1))
  {
    var before, after := done + [Source(file, defs[..j])], done + [Source(file, defs[..j + 1])];
    var m' := Define(m, file, defs[j].0, defs[j].1);
    hide DefinedIn;
    forall n
      ensures n in m'.definedIn <==> DefinedIn(after, n) != []
      ensures n in m'.definedIn ==> m'.definedIn[n] == DefinedIn(after, n)
    {
      DefinedInMore(done, file, defs, j, n);
      assert n in m.definedIn <==> DefinedIn(before, n) != [];
      assert n !in m.definedIn ==> DefinedIn(before, n) + [file] == [file];
    }
  }

  lemma DefineValues<F, V>(done: seq<Source<F, V>>, file: F, defs: seq<(string, V)>, j: nat, m: Merged<F, V>)
    requires j < |defs| && Represents(done + [Source(file, defs[..j])], m)
    ensures RightValues(done + [Source(file, defs[..j + 1])], Define(m, file, defs[j].0, defs[j].1))
  {
    hide DefinedIn, FirstDefinition;
    var m' := Define(m, file, defs[j].0, defs[j].1);
    forall n | n in m'.values ensures FirstDefinition(done + [Source(file, defs[..j + 1])], n, m'.values[n]) {
      if n in m.values {
        FirstDefinitionKept(done, file, defs, j, n, m.values[n]);
      } else {
        DefinedFirstHere(done, file, defs, j);
      }
    }
  }

  lemma DefinedFirstHere<F, V>(done: seq<Source<F, V>>, file: F, defs: seq<(string, V)>, j: nat)
    requires j < |defs| && DefinedIn(done + [Source(file, defs[..j])], defs[j].0) == []
    ensures FirstDefinition(done + [Source(file, defs[..j + 1])], defs[j].0, defs[j].1)
  {
    var before, after := done + [Source(file, defs[..j])], done + [Source(file, defs[..j + 1])];
    NotDefined(before, defs[j].0);
    assert after[|done|].defs[j] == defs[j];
    assert forall l :: 0 <= l < |done| ==> after[l] == before[l];
  }

  lemma AllNamesLast<F, V>(done: seq<Source<F, V>>, last: Source<F, V>)
    ensures AllNames(done + [last]) == AllNames(done) + NamesOf(last.defs)
  {
    assert (done + [last])[..|done|] == done;
  }

  lemma DefineOrder<F, V>(done: seq<Source<F, V>>, file: F, defs: seq<(string, V)>, j: nat, m: Merged<F, V>)
    requires j < |defs| && SameNames(m) && RightOrder(done + [Source(file, defs[..j])], m)
    ensures RightOrder(done + [Source(file, defs[..j + 1])], Define(m, file, defs[j].0, defs[j].1))
  {
    hide OrderedUnion, AllNames;
    var n := defs[j].0;
    AllNamesLast(done, Source(file, defs[..j]));
    AllNamesLast(done, Source(file, defs[..j + 1]));
    var all := AllNames(done + [Source(file, defs[..j])]);
    assert NamesOf(defs[..j + 1]) == NamesOf(defs[..j]) + [n];
    assert AllNames(done + [Source(file, defs[..j + 1])]) == all + [n];
    if n in m.definedIn {
      UnionSkips(all, m.order, n);
    } else {
      UnionAdds(all, m.order, n);
    }
  }

  lemma NewFileOrder<F, V>(done: seq<Source<F, V>>, file: F, m: Merged<F, V>)
    requires RightOrder(done, m)
    ensures RightOrder(done + [Source(file, [])], m)
  {
    hide OrderedUnion, AllNames;
    AllNamesLast(done, Source(file, []));
    assert AllNames(done) + NamesOf<V>([]) == AllNames(done);
  }

  lemma DefineOne<F, V>(done: seq<Source<F, V>>, file: F, defs: seq<(string, V)>, j: nat, m: Merged<F, V>)
    requires j < |defs| && Unique(defs) && Represents(done + [Source(file, defs[..j])], m)
    ensures Represents(done + [Source(file, defs[..j + 1])], Define(m, file, defs[j].0, defs[j].1))
  {
    hide RightLists, RightValues, RightOrder, SameNames, Define;
    DefineNames(m, file, defs[j].0, defs[j].1);
    DefineOrder(done, file, defs, j, m);
    DefineLists(done, file, defs, j, m);
    DefineValues(done, file, defs, j, m);
  }

  lemma NewFileLists<F, V>(done: seq<Source<F, V>>, file: F, n: string)
    ensures DefinedIn(done + [Source<F, V>.Source(file, [])], n) == DefinedIn(done, n)
  {
    var after := done + [Source<F, V>.Source(file, [])];
    assert after[..|after| - 1] == done;
    assert !Defines(after[|after| - 1].defs, n);
  }

  lemma NewFileValues<F, V>(done: seq<Source<F, V>>, file: F, n: string, v: V)
    requires FirstDefinition(done, n, v)
    ensures FirstDefinition(done + [Source(file, [])], n, v)
  {
    var after := done + [Source<F, V>.Source(file, [])];
    var i, k :| && 0 <= i < |done| && 0 <= k < |done[i].defs| && done[i].defs[k] == (n, v)
                && forall l :: 0 <= l < i ==> !Defines(done[l].defs, n);
    assert after[i].defs[k] == (n, v);
    assert forall l :: 0 <= l < i ==> after[l] == done[l];
  }

  lemma NewFile<F, V>(done: seq<Source<F, V>>, file: F, m: Merged<F, V>)
    requires Represents(done, m)
    ensures Represents(done + [Source(file, [])], m)
  {
    hide DefinedIn, FirstDefinition, RightOrder;
    NewFileOrder(done, file, m);
    var after := done + [Source<F, V>.Source(file, [])];
    forall n ensures DefinedIn(after, n) == DefinedIn(done, n) {
      NewFileLists(done, file, n);
    }
    forall n | n in m.values ensures FirstDefinition(after, n, m.values[n]) {
      NewFileValues(done, file, n, m.values[n]);
    }
  }

  /** One kind over every loaded file. */
  method MergeKind<F, V>(sources: seq<Source<F, V>>) returns (m: Merged<F, V>)
    requires forall i :: 0 <= i < |sources| ==> Unique(sources[i].defs)
    ensures Represents(sources, m)
  {
    hide Represents, Unique, Define;
    m := Merged([], map[], map[]);
    EmptyMerge<F, V>();
    assert sources[..0] == [];
    for i := 0 to |sources|
      invariant Represents(sources[..i], m)
    {
      var file, defs := sources[i].file, sources[i].defs;
      NewFile(sources[..i], file, m);
      assert defs[..0] == [];
      for j := 0 to |defs|
        invariant Represents(sources[..i] + [Source(file, defs[..j])], m)
      {
        DefineOne(sources[..i], file, defs, j, m);
        m := Define(m, file, defs[j].0, defs[j].1);
      }
      assert defs[..|defs|] == defs && sources[..i] + [sources[i]] == sources[..i + 1];
    }
    assert sources[..|sources|] == sources;
  }

  lemma EmptyMerge<F, V>()
    ensures Represents<F, V>([], Merged([], map[], map[]))
  {
    EmptyUnion<string>();
  }

  // ----- clashes

  ghost predicate DefinedTwice<F, V>(sources: seq<Source<F, V>>, n: string) {
    exists i, j :: 0 <= i < j < |sources| && Defines(sources[i].defs, n) && Defines(sources[j].defs, n)
  }

  lemma {:induction false} DefinedSomewhere<F, V>(sources: seq<Source<F, V>>, n: string)
    ensures DefinedIn(sources, n) != [] <==> exists i :: 0 <= i < |sources| && Defines(sources[i].defs, n)
    ensures forall i :: 0 <= i < |sources| && Defines(sources[i].defs, n) ==> sources[i].file in DefinedIn(sources, n)
  {
    if sources != [] {
      var front, last := sources[..|sources| - 1], sources[|sources| - 1];
      DefinedSomewhere(front, n);
      assert forall i :: 0 <= i < |front| ==> sources[i] == front[i];
      hide Defines;
    }
  }

  /** A name's list is longer than one exactly when two files define it. */
  lemma {:induction false} ListedTwiceMeansDefinedTwice<F, V>(sources: seq<Source<F, V>>, n: string)
    ensures |DefinedIn(sources, n)| > 1 <==> DefinedTwice(sources, n)
  {
    if sources != [] {
      var front, last := sources[..|sources| - 1], |sources| - 1;
      ListedTwiceMeansDefinedTwice(front, n);
      DefinedSomewhere(front, n);
      hide Defines;
      assert forall i :: 0 <= i < |front| ==> sources[i] == front[i];
      if DefinedTwice(front, n) {
        var i, j :| 0 <= i < j < |front| && Defines(front[i].defs, n) && Defines(front[j].defs, n);
        assert Defines(sources[i].defs, n) && Defines(sources[j].defs, n);
      }
      if DefinedTwice(sources, n) {
        var i, j :| 0 <= i < j < |sources| && Defines(sources[i].defs, n) && Defines(sources[j].defs, n);
        assert Defines(front[i].defs, n);
        if j < last {
          assert Defines(front[j].defs, n);
        }
      }
      if Defines(sources[last].defs, n) && DefinedIn(front, n) != [] {
        var i :| 0 <= i < |front| && Defines(front[i].defs, n);
        assert Defines(sources[i].defs, n);
      }
    }
  }

  ghost predicate FirstListedTwice<F, V>(m: Merged<F, V>, i: nat, n: string)
    requires i < |m.order|
  {
    && m.order[i] == n
    && forall j :: 0 <= j < i ==> m.order[j] in m.definedIn && |m.definedIn[m.order[j]]| <= 1
  }

  /** The first name, as declared, that more than one file defines. */
  method FirstClash<F, V>(m: Merged<F, V>) returns (clash: Option<string>)
    requires SameNames(m)
    ensures clash.None? <==> forall n :: n in m.definedIn ==> |m.definedIn[n]| <= 1
    ensures clash.Some? ==> clash.value in m.definedIn && |m.definedIn[clash.value]| > 1
    ensures clash.Some? ==> exists i :: 0 <= i < |m.order| && FirstListedTwice(m, i, clash.value)
  {
    for i := 0 to |m.order|
      invariant forall j :: 0 <= j < i ==> m.order[j] in m.definedIn && |m.definedIn[m.order[j]]| <= 1
    {
      assert m.order[i] in m.order;
      if |m.definedIn[m.order[i]]| > 1 {
        assert FirstListedTwice(m, i, m.order[i]);
        return Some(m.order[i]);
      }
    }
    forall n | n in m.definedIn ensures |m.definedIn[n]| <= 1 {
      assert n in m.order;
    }
    clash := None;
  }

  /** The merge is the disjoint union: each definition of each file, and nothing else. */
  ghost predicate DisjointUnion<F, V>(sources: seq<Source<F, V>>, m: Merged<F, V>) {
    && SameNames(m) && RightOrder(sources, m)
    && (forall n :: n in m.values <==> exists i :: 0 <= i < |sources| && Defines(sources[i].defs, n))
    && (forall n :: !DefinedTwice(sources, n))
    && (forall i, n :: 0 <= i < |sources| && Defines(sources[i].defs, n) ==> DefinedBy(sources[i], m, n))
  }

  /** `n` in the merge is what this file, and only this file, defines it as. */
  ghost predicate DefinedBy<F, V>(source: Source<F, V>, m: Merged<F, V>, n: string) {
    && n in m.values && n in m.definedIn
    && m.definedIn[n] == [source.file]
    && exists k :: 0 <= k < |source.defs| && source.defs[k] == (n, m.values[n])
  }

  lemma NoClashIsUnion<F, V>(sources: seq<Source<F, V>>, m: Merged<F, V>)
    requires Represents(sources, m) && forall n :: n in m.definedIn ==> |m.definedIn[n]| <= 1
    ensures DisjointUnion(sources, m)
  {
    hide DefinedIn;
    forall n ensures !DefinedTwice(sources, n) {
      ListedTwiceMeansDefinedTwice(sources, n);
      DefinedSomewhere(sources, n);
    }
    forall n ensures n in m.values <==> exists i :: 0 <= i < |sources| && Defines(sources[i].defs, n) {
      DefinedSomewhere(sources, n);
    }
    forall i, n | 0 <= i < |sources| && Defines(sources[i].defs, n) ensures DefinedBy(sources[i], m, n) {
      UnionDefines(sources, m, i, n);
    }
  }

  lemma UnionDefines<F, V>(sources: seq<Source<F, V>>, m: Merged<F, V>, i: nat, n: string)
    requires Represents(sources, m) && !DefinedTwice(sources, n)
    requires i < |sources| && Defines(sources[i].defs, n)
    ensures DefinedBy(sources[i], m, n)
  {
    DefinedSomewhere(sources, n);
    ListedTwiceMeansDefinedTwice(sources, n);
    hide DefinedIn, NoDuplicates, RightOrder;
    assert FirstDefinition(sources, n, m.values[n]);
    var k, d :| && 0 <= k < |sources| && 0 <= d < |sources[k].defs| && sources[k].defs[d] == (n, m.values[n])
                && forall j :: 0 <= j < k ==> !Defines(sources[j].defs, n);
    assert Defines(sources[k].defs, n);
    assert k == i;
  }

  lemma ClashIsDefinedTwice<F, V>(sources: seq<Source<F, V>>, m: Merged<F, V>, n: string)
    requires Represents(sources, m) && n in m.definedIn && |m.definedIn[n]| > 1
    ensures DefinedTwice(sources, n)
  {
    ListedTwiceMeansDefinedTwice(sources, n);
  }

  /** Reading the files in order, `n` is the first name met that two of them define. */
  ghost predicate FirstDefinedTwice<F, V>(sources: seq<Source<F, V>>, n: string) {
    exists k :: && 0 <= k < |AllNames(sources)| && AllNames(sources)[k] == n && DefinedTwice(sources, n)
                && forall j :: 0 <= j < k ==> !DefinedTwice(sources, AllNames(sources)[j])
  }

  /** A name met before the first appearance of `kept[i]` is kept before it. */
  lemma KeptBefore<T>(all: seq<T>, kept: seq<T>, at: seq<nat>, i: nat, j: nat) returns (l: nat)
    requires FirstSeenAt(all, kept, at) && i < |kept| && j < at[i] && all[j] in kept
    ensures l < i && kept[l] == all[j]
  {
    l :| 0 <= l < |kept| && kept[l] == all[j];
    assert at[l] <= j;
  }

  /** The first clash found is the first there is, and its list names every file that defines it. */
  lemma FirstClashIsFirst<F, V>(sources: seq<Source<F, V>>, m: Merged<F, V>, i: nat)
    requires Represents(sources, m) && i < |m.order| && FirstListedTwice(m, i, m.order[i])
    requires m.order[i] in m.definedIn && |m.definedIn[m.order[i]]| > 1
    ensures FirstDefinedTwice(sources, m.order[i])
    ensures m.definedIn[m.order[i]] == DefinedIn(sources, m.order[i])
  {
    ClashIsDefinedTwice(sources, m, m.order[i]);
    ListIsRight(sources, m, m.order[i]);
    hide DefinedIn, DefinedTwice, RightLists, RightValues, SameNames, AllNames, FirstSeenAt, OrderedUnion;
    var all := AllNames(sources);
    var at := SeenAt(all, m.order);
    SeenAtBounds(all, m.order, at, i);
    forall j | 0 <= j < at[i] ensures !DefinedTwice(sources, all[j]) {
      UnionMembers(all, m.order);
      assert all[j] in all;
      var l := KeptBefore(all, m.order, at, i, j);
      ListIsRight(sources, m, m.order[l]);
      ListedTwiceMeansDefinedTwice(sources, all[j]);
    }
  }

  lemma SeenAt<T(!new)>(all: seq<T>, kept: seq<T>) returns (at: seq<nat>)
    requires OrderedUnion(all, kept)
    ensures FirstSeenAt(all, kept, at)
  {
    at :| FirstSeenAt(all, kept, at);
  }

  lemma ListIsRight<F, V>(sources: seq<Source<F, V>>, m: Merged<F, V>, n: string)
    requires RightLists(sources, m) && n in m.definedIn
    ensures m.definedIn[n] == DefinedIn(sources, n)
  {
  }

  lemma SeenAtBounds<T>(all: seq<T>, kept: seq<T>, at: seq<nat>, i: nat)
    requires FirstSeenAt(all, kept, at) && i < |kept|
    ensures |at| == |kept| && at[i] < |all| && all[at[i]] == kept[i]
  {
  }
}
