/**
 Following single links from name to name: an `extends` parent, or the container
 whose network another shares. Every name has at most one link, so where a walk
 goes is decided by where it starts.
 */
module Chains {
  import opened Common

  /** Each declared name, with the name it links to if any. */
  type Links = map<string, Option<string>>

  /** `p` follows the links from declared name to declared name. */
  ghost predicate Path(next: Links, p: seq<string>) {
    && p != []
    && (forall i :: 0 <= i < |p| ==> p[i] in next)
    && (forall i :: 0 < i < |p| ==> next[p[i - 1]] == Some(p[i]))
  }

  /** A path that ends at a name with no link. */
  ghost predicate Chain(next: Links, c: seq<string>) {
    Path(next, c) && next[c[|c| - 1]].None?
  }

  ghost predicate HasChain(next: Links, n: string) {
    exists c :: Chain(next, c) && c[0] == n
  }

  /** A path whose last name links to one nobody declared. */
  ghost predicate Dangles(next: Links, p: seq<string>) {
    && Path(next, p)
    && next[p[|p| - 1]].Some?
    && next[p[|p| - 1]].value !in next
  }

  /** A path that comes back to a name it passed. */
  ghost predicate Loops(next: Links, p: seq<string>) {
    Path(next, p) && !NoDuplicates(p)
  }

  ghost predicate Bad(next: Links, n: string) {
    exists p :: (Dangles(next, p) || Loops(next, p)) && p[0] == n
  }

  lemma PathTail(next: Links, p: seq<string>, i: nat)
    requires Path(next, p) && i < |p|
    ensures Path(next, p[i..])
  {
    var t := p[i..];
    forall j | 0 < j < |t| ensures next[t[j - 1]] == Some(t[j]) {
      assert p[i + j - 1] == t[j - 1] && p[i + j] == t[j];
    }
  }

  /** A path from where a chain starts is the start of that chain. */
  lemma {:induction false} PathIsPrefix(next: Links, c: seq<string>, p: seq<string>, i: nat)
    requires Chain(next, c) && Path(next, p) && p[0] == c[0] && i < |p|
    ensures i < |c| && p[i] == c[i]
  {
    if i > 0 {
      PathIsPrefix(next, c, p, i - 1);
      assert next[p[i - 1]] == Some(p[i]);
      assert i < |c|;
      assert next[c[i - 1]] == Some(c[i]);
    }
  }

  lemma ChainUnique(next: Links, c: seq<string>, d: seq<string>)
    requires Chain(next, c) && Chain(next, d) && c[0] == d[0]
    ensures c == d
  {
    PathIsPrefix(next, c, d, |d| - 1);
    PathIsPrefix(next, d, c, |c| - 1);
    forall i | 0 <= i < |c| ensures c[i] == d[i] {
      PathIsPrefix(next, c, d, i);
    }
  }

  /** A chain, being finite, never passes one name twice. */
  lemma ChainNeverRepeats(next: Links, c: seq<string>)
    requires Chain(next, c)
    ensures NoDuplicates(c)
  {
    forall i, j | 0 <= i < j < |c| ensures c[i] != c[j] {
      if c[i] == c[j] {
        PathTail(next, c, i);
        PathTail(next, c, j);
        ChainUnique(next, c[i..], c[j..]);
        assert false;
      }
    }
  }

  lemma ChainPathIsSound(next: Links, c: seq<string>, p: seq<string>)
    requires Chain(next, c) && Path(next, p) && p[0] == c[0]
    ensures !Dangles(next, p) && NoDuplicates(p)
  {
    ChainNeverRepeats(next, c);
    forall i | 0 <= i < |p| ensures i < |c| && p[i] == c[i] {
      PathIsPrefix(next, c, p, i);
    }
    if |p| < |c| {
      assert next[c[|p| - 1]] == Some(c[|p|]);
    }
  }

  /** A name with a chain reaches neither an undefined name nor a cycle. */
  lemma ChainIsNotBad(next: Links, n: string)
    requires HasChain(next, n)
    ensures !Bad(next, n)
  {
    var c :| Chain(next, c) && c[0] == n;
    forall p | Path(next, p) && p[0] == n ensures !Dangles(next, p) && !Loops(next, p) {
      ChainPathIsSound(next, c, p);
    }
  }

  lemma PathExtends(next: Links, p: seq<string>, target: string)
    requires Path(next, p) && target in next && next[p[|p| - 1]] == Some(target)
    ensures Path(next, p + [target]) && (p + [target])[0] == p[0]
  {
  }

  lemma CycleFound(next: Links, visited: seq<string>, name: string)
    requires Path(next, visited + [name]) && name in visited
    ensures Loops(next, visited + [name])
  {
    var k :| 0 <= k < |visited| && visited[k] == name;
    var path := visited + [name];
    assert path[k] == path[|path| - 1];
  }
}
