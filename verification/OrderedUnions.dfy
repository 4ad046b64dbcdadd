/** A sequence without its repeats, in the order things first appear. */
module OrderedUnions {
  import opened Common

  /** Where in `all` each kept element first appears, in order. */
  ghost predicate FirstSeenAt<T>(all: seq<T>, kept: seq<T>, at: seq<nat>) {
    && |at| == |kept|
    && (forall i :: 0 <= i < |at| ==> at[i] < |all| && kept[i] == all[at[i]] && all[at[i]] !in all[..at[i]])
    && (forall i, j :: 0 <= i < j < |at| ==> at[i] < at[j])
  }

  /** `kept` is `all` with every repeat dropped and first-seen order kept. */
  ghost predicate OrderedUnion<T(!new)>(all: seq<T>, kept: seq<T>) {
    && NoDuplicates(kept)
    && (forall t :: t in kept <==> t in all)
    && exists at: seq<nat> :: FirstSeenAt(all, kept, at)
  }

  lemma UnionSkips<T(!new)>(all: seq<T>, kept: seq<T>, t: T)
    requires OrderedUnion(all, kept) && t in kept
    ensures OrderedUnion(all + [t], kept)
  {
    var at: seq<nat> :| FirstSeenAt(all, kept, at);
    forall i | 0 <= i < |at| ensures (all + [t])[..at[i]] == all[..at[i]] {}
    assert FirstSeenAt(all + [t], kept, at);
  }

  lemma UnionAdds<T(!new)>(all: seq<T>, kept: seq<T>, t: T)
    requires OrderedUnion(all, kept) && t !in kept
    ensures OrderedUnion(all + [t], kept + [t])
  {
    var at: seq<nat> :| FirstSeenAt(all, kept, at);
    forall i | 0 <= i < |at| ensures (all + [t])[..at[i]] == all[..at[i]] {}
    assert (all + [t])[..|all|] == all;
    assert FirstSeenAt(all + [t], kept + [t], at + [|all|]);
  }

  lemma EmptyUnion<T(!new)>()
    ensures OrderedUnion<T>([], [])
  {
    assert FirstSeenAt<T>([], [], []);
  }

  lemma UnionMembers<T(!new)>(all: seq<T>, kept: seq<T>)
    requires OrderedUnion(all, kept)
    ensures forall t :: t in kept <==> t in all
  {
  }
}
