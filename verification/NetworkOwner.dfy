/** Which container's network another ends up in: `network_namespace_owner`. */
module NetworkOwner {
  import opened Common
  import opened Chains
  import opened ConfigModel

  /** Whose network each container shares, if anyone's. */
  function Shares(containers: map<string, Container>): Links {
    map n | n in containers ::
      match containers[n].networkMode
      case Some(ShareWith(other)) => Some(other)
      case _ => None
  }

  datatype Owner = Owner(container: string, mode: Option<NetworkMode>)

  datatype Failure =
    | NotAContainer(reached: string)
    | Loop(members: seq<string>)

  /** Following links from `n` ends at `o`, which shares nobody's network. */
  ghost predicate OwnedBy(next: Links, n: string, o: string) {
    exists c :: Chain(next, c) && c[0] == n && c[|c| - 1] == o
  }

  lemma OwnerUnique(next: Links, n: string, o: string, o': string)
    requires OwnedBy(next, n, o) && OwnedBy(next, n, o')
    ensures o == o'
  {
    var c :| Chain(next, c) && c[0] == n && c[|c| - 1] == o;
    var d :| Chain(next, d) && d[0] == n && d[|d| - 1] == o';
    ChainUnique(next, c, d);
  }

  lemma PathJoins(next: Links, p: seq<string>, c: seq<string>)
    requires Path(next, p) && Chain(next, c) && p[|p| - 1] == c[0]
    ensures Chain(next, p + c[1..]) && (p + c[1..])[|p + c[1..]| - 1] == c[|c| - 1]
  {
    var joined := p + c[1..];
    forall i | 0 < i < |joined| ensures next[joined[i - 1]] == Some(joined[i]) {
      if i >= |p| {
        assert next[c[i - |p|]] == Some(c[i - |p| + 1]);
      }
    }
  }

  /** Every container along a chain of links has the same owner. */
  lemma SameOwnerAlongTheWay(next: Links, p: seq<string>, o: string)
    requires Path(next, p)
    ensures OwnedBy(next, p[0], o) <==> OwnedBy(next, p[|p| - 1], o)
  {
    if OwnedBy(next, p[0], o) {
      var c :| Chain(next, c) && c[0] == p[0] && c[|c| - 1] == o;
      PathIsPrefix(next, c, p, |p| - 1);
      PathTail(next, c, |p| - 1);
      var tail := c[|p| - 1..];
      assert Chain(next, tail) && tail[0] == p[|p| - 1] && tail[|tail| - 1] == o;
    }
    if OwnedBy(next, p[|p| - 1], o) {
      var c :| Chain(next, c) && c[0] == p[|p| - 1] && c[|c| - 1] == o;
      PathJoins(next, p, c);
    }
  }

  /** A genuine loop: links lead round `members` and back to where they began, and `n` leads into it. */
  ghost predicate LoopFrom(next: Links, n: string, members: seq<string>) {
    && |members| >= 2
    && Path(next, members)
    && members[0] == members[|members| - 1]
    && NoDuplicates(members[1..])
    && exists p :: Path(next, p) && p[0] == n && p[|p| - 1] == members[0]
  }

  /** Links from `n` lead to a name that is not a container, or `n` is one. */
  ghost predicate LeadsOut(next: Links, n: string, reached: string) {
    && reached !in next
    && (n == reached
        || exists p :: Dangles(next, p) && p[0] == n && next[p[|p| - 1]] == Some(reached))
  }

  lemma LoopClosed(next: Links, visited: seq<string>, owner: string, start: nat)
    requires Path(next, visited + [owner]) && NoDuplicates(visited)
    requires start < |visited| && visited[start] == owner
    ensures LoopFrom(next, visited[0], visited[start..] + [owner])
  {
    var whole := visited + [owner];
    var members := visited[start..] + [owner];
    PathTail(next, whole, start);
    assert whole[start..] == members;
    var lead := whole[..start + 1];
    assert Path(next, lead) && lead[0] == visited[0] && lead[|lead| - 1] == members[0];
    forall i, j | 0 <= i < j < |members[1..]| ensures members[1..][i] != members[1..][j] {
      assert members[1..][i] == visited[start + 1 + i];
    }
  }

  /** Whatever the outcome, it is not one of the others. */
  lemma OneOutcome(next: Links, n: string)
    ensures HasChain(next, n) ==> forall members :: !LoopFrom(next, n, members)
    ensures HasChain(next, n) ==> forall reached :: !LeadsOut(next, n, reached)
  {
    if HasChain(next, n) {
      ChainIsNotBad(next, n);
      forall members | LoopFrom(next, n, members) ensures false {
        var p :| Path(next, p) && p[0] == n && p[|p| - 1] == members[0];
        var c :| Chain(next, c) && c[0] == n;
        SameOwnerAlongTheWay(next, p, c[|c| - 1]);
        assert HasChain(next, members[0]);
        ChainIsNotBad(next, members[0]);
        assert Loops(next, members);
      }
    }
  }

  method NetworkNamespaceOwner(containers: map<string, Container>, target: string)
    returns (r: Result<Owner, Failure>)
    ensures r.Ok? <==> HasChain(Shares(containers), target)
    ensures r.Ok? ==> r.value.container in containers && OwnedBy(Shares(containers), target, r.value.container)
    ensures r.Ok? ==> r.value.mode == containers[r.value.container].networkMode
                      && (r.value.mode.Some? ==> !r.value.mode.value.ShareWith?)
    ensures r.Err? && r.error.NotAContainer? ==> LeadsOut(Shares(containers), target, r.error.reached)
    ensures r.Err? && r.error.Loop? ==> LoopFrom(Shares(containers), target, r.error.members)
  {
    ghost var next := Shares(containers);
    OneOutcome(next, target);
    var path: seq<string> := [];
    var owner := target;
    while true
      invariant NoDuplicates(path) && forall n :: n in path ==> n in containers
      invariant path != [] ==> Path(next, path) && path[0] == target && next[path[|path| - 1]] == Some(owner)
      invariant path == [] ==> owner == target
      decreases containers.Keys - set n | n in path
    {
      if owner !in containers {
        assert path != [] ==> Dangles(next, path);
        assert LeadsOut(next, target, owner);
        return Err(NotAContainer(owner));
      }
      assert Path(next, path + [owner]) by {
        if path != [] { PathExtends(next, path, owner); }
      }
      if owner in path {
        var start := IndexOf(path, owner);
        LoopClosed(next, path, owner, start);
        return Err(Loop(path[start..] + [owner]));
      }
      ghost var longer := path + [owner];
      assert owner in containers.Keys - (set n | n in path) && owner !in containers.Keys - (set n | n in longer);
      path := path + [owner];
      match containers[owner].networkMode
      case Some(ShareWith(other)) =>
        owner := other;
      case Some(mode) =>
        assert Chain(next, path);
        return Ok(Owner(owner, Some(mode)));
      case None =>
        assert Chain(next, path);
        return Ok(Owner(owner, None));
    }
  }

  /** The first place `x` is in `s`: Rust's `position`. */
  method IndexOf(s: seq<string>, x: string) returns (i: nat)
    requires x in s
    ensures i < |s| && s[i] == x && x !in s[..i]
  {
    i := 0;
    while s[i] != x
      invariant i < |s| && x !in s[..i]
      decreases |s| - i
    {
      assert x in s[i + 1..];
      i := i + 1;
    }
  }
}
