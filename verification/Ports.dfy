/** Published ports: ranges, mappings, and the ordered union a container ends up with. */
module Ports {
  import opened Common
  import opened OrderedUnions

  newtype u16 = x: int | 0 <= x < 0x1_0000
  newtype u32 = x: int | 0 <= x < 0x1_0000_0000

  datatype PortRange = PortRange(first: u16, last: u16) {
    predicate Valid() {
      0 < first <= last
    }

    /** How many ports the range covers. */
    function Size(): u32
      requires Valid()
    {
      (last as u32 - first as u32) + 1
    }
  }

  datatype PortMapping = PortMapping(local: PortRange, container: PortRange, protocol: string) {
    /** What construction guarantees: two ranges of one size. */
    predicate Valid() {
      local.Valid() && container.Valid() && local.Size() == container.Size()
    }
  }

  type Triple = (u16, u16, string)

  /** The mapping's concrete ports, paired by position; no sum leaves 16 bits. */
  function Expand(m: PortMapping): (r: seq<Triple>)
    requires m.Valid()
    ensures |r| == m.local.Size() as int
    ensures forall i :: 0 <= i < |r| ==>
      r[i].0 as int == m.local.first as int + i && r[i].1 as int == m.container.first as int + i
      && m.local.first <= r[i].0 <= m.local.last && m.container.first <= r[i].1 <= m.container.last
      && r[i].2 == m.protocol
  {
    seq(m.local.Size() as int, i requires 0 <= i < m.local.Size() as int =>
      (m.local.first + i as u16, m.container.first + i as u16, m.protocol))
  }

  /** Each local port of the range is published once, to the container port at its own offset. */
  lemma ExpandCoversTheRange(m: PortMapping, port: u16)
    requires m.Valid() && m.local.first <= port <= m.local.last
    ensures var i := port as int - m.local.first as int;
      && 0 <= i < |Expand(m)|
      && Expand(m)[i] == (port, m.container.first + (port - m.local.first), m.protocol)
      && forall j :: 0 <= j < |Expand(m)| && Expand(m)[j].0 == port ==> j == i
  {
  }

  function ExpandAll(mappings: seq<PortMapping>): seq<Triple>
    requires forall i :: 0 <= i < |mappings| ==> mappings[i].Valid()
  {
    if mappings == [] then [] else ExpandAll(mappings[..|mappings| - 1]) + Expand(mappings[|mappings| - 1])
  }

  /** Some mapping publishes `t`. */
  ghost predicate PublishedBy(mappings: seq<PortMapping>, t: Triple)
    requires forall i :: 0 <= i < |mappings| ==> mappings[i].Valid()
  {
    exists i :: 0 <= i < |mappings| && t in Expand(mappings[i])
  }

  lemma {:induction false} ExpandAllMembers(mappings: seq<PortMapping>)
    requires forall i :: 0 <= i < |mappings| ==> mappings[i].Valid()
    ensures forall t :: t in ExpandAll(mappings) <==> PublishedBy(mappings, t)
  {
    if mappings != [] {
      ExpandAllMembers(mappings[..|mappings| - 1]);
    }
  }

  function OrNone(ports: Option<seq<PortMapping>>): seq<PortMapping> {
    match ports
    case Some(mappings) => mappings
    case None => []
  }

  /** The container's own ports, then the overlay's, without repeats. */
  method MergedPorts(containerPorts: Option<seq<PortMapping>>, overlayPorts: Option<seq<PortMapping>>)
    returns (merged: seq<Triple>)
    requires forall i :: 0 <= i < |OrNone(containerPorts)| ==> OrNone(containerPorts)[i].Valid()
    requires forall i :: 0 <= i < |OrNone(overlayPorts)| ==> OrNone(overlayPorts)[i].Valid()
    ensures OrderedUnion(ExpandAll(OrNone(containerPorts) + OrNone(overlayPorts)), merged)
    ensures forall t :: t in merged <==>
      PublishedBy(OrNone(containerPorts), t) || PublishedBy(OrNone(overlayPorts), t)
  {
    hide Expand, OrderedUnion, PublishedBy;
    var mappings := OrNone(containerPorts) + OrNone(overlayPorts);
    merged := [];
    EmptyUnion<Triple>();
    for i := 0 to |mappings|
      invariant OrderedUnion(ExpandAll(mappings[..i]), merged)
    {
      assert mappings[..i + 1][..i] == mappings[..i];
      merged := AddTriples(ExpandAll(mappings[..i]), merged, Expand(mappings[i]));
    }
    assert mappings[..|mappings|] == mappings;
    ExpandAllMembers(mappings);
    UnionMembers(ExpandAll(mappings), merged);
    hide ExpandAll;
    SplitMembers(OrNone(containerPorts), OrNone(overlayPorts));
  }

  lemma SplitMembers(a: seq<PortMapping>, b: seq<PortMapping>)
    requires forall i :: 0 <= i < |a| ==> a[i].Valid()
    requires forall i :: 0 <= i < |b| ==> b[i].Valid()
    ensures forall t :: PublishedBy(a + b, t) <==> PublishedBy(a, t) || PublishedBy(b, t)
  {
    hide Expand;
    forall t | PublishedBy(b, t) ensures PublishedBy(a + b, t) {
      var i :| 0 <= i < |b| && t in Expand(b[i]);
      assert (a + b)[|a| + i] == b[i];
    }
    forall t | PublishedBy(a, t) ensures PublishedBy(a + b, t) {
      var i :| 0 <= i < |a| && t in Expand(a[i]);
      assert (a + b)[i] == a[i];
    }
  }

  /** One mapping's triples, each pushed unless it is already there. */
  method AddTriples(ghost all: seq<Triple>, kept: seq<Triple>, triples: seq<Triple>) returns (merged: seq<Triple>)
    requires OrderedUnion(all, kept)
    ensures OrderedUnion(all + triples, merged)
  {
    hide OrderedUnion;
    merged := kept;
    assert all + triples[..0] == all;
    for i := 0 to |triples|
      invariant OrderedUnion(all + triples[..i], merged)
    {
      assert all + triples[..i] + [triples[i]] == all + triples[..i + 1];
      if triples[i] !in merged {
        UnionAdds(all + triples[..i], merged, triples[i]);
        merged := merged + [triples[i]];
      } else {
        UnionSkips(all + triples[..i], merged, triples[i]);
      }
    }
    assert triples[..|triples|] == triples;
  }
}
