/** Small vocabulary shared by every model in this project. */
module Common {

  datatype Option<+T> = None | Some(value: T)

  datatype Result<+T, +E> = Ok(value: T) | Err(error: E)

  /** The value of the first option that holds one: Rust's `Option::or`. */
  function Or<T>(first: Option<T>, second: Option<T>): Option<T> {
    if first.Some? then first else second
  }

  ghost predicate NoDuplicates<T>(s: seq<T>) {
    forall i, j :: 0 <= i < j < |s| ==> s[i] != s[j]
  }

  predicate StartsWith(s: string, prefix: string) {
    prefix <= s
  }

  predicate EndsWith(s: string, suffix: string) {
    |suffix| <= |s| && s[|s| - |suffix|..] == suffix
  }

  /** Rust's `strip_prefix`. */
  function StripPrefix(s: string, prefix: string): Option<string> {
    if prefix <= s then Some(s[|prefix|..]) else None
  }

  /** The parts around the first `separator`: Rust's `split_once`. */
  function SplitOnce(s: string, separator: char): (r: Option<(string, string)>)
    ensures r.None? ==> separator !in s
    ensures r.Some? ==> s == r.value.0 + [separator] + r.value.1 && separator !in r.value.0
  {
    if s == "" then None
    else if s[0] == separator then Some(("", s[1..]))
    else
      match SplitOnce(s[1..], separator)
      case None => None
      case Some((name, value)) => Some(([s[0]] + name, value))
  }

  lemma {:induction false} SplitOnceAt(a: string, separator: char, b: string)
    requires separator !in a
    ensures SplitOnce(a + [separator] + b, separator) == Some((a, b))
  {
    var s := a + [separator] + b;
    if a == "" {
      assert s[1..] == b;
    } else {
      assert s[1..] == a[1..] + [separator] + b && s[0] == a[0] && a == [a[0]] + a[1..];
      SplitOnceAt(a[1..], separator, b);
    }
  }

  /** `s` cut at every `separator`; never empty, as Rust's `split`. */
  function Split(s: string, separator: char): (parts: seq<string>)
    ensures |parts| > 0
  {
    if s == "" then [""]
    else
      var rest := Split(s[1..], separator);
      if s[0] == separator then [""] + rest else [[s[0]] + rest[0]] + rest[1..]
  }

  /** The parts glued back with `separator`: Rust's `join`. */
  function Join(parts: seq<string>, separator: string): string {
    if parts == [] then ""
    else if |parts| == 1 then parts[0]
    else parts[0] + separator + Join(parts[1..], separator)
  }

  /** Cutting and gluing are inverse. */
  lemma {:induction false} JoinSplit(s: string, separator: char)
    ensures Join(Split(s, separator), [separator]) == s
  {
    if s != "" {
      JoinSplit(s[1..], separator);
      var rest := Split(s[1..], separator);
      var parts := Split(s, separator);
      if s[0] == separator {
        assert parts[1..] == rest;
      } else if |rest| > 1 {
        assert parts[1..] == rest[1..];
      }
    }
  }

  lemma {:induction false} SplitOfPlain(part: string, separator: char)
    requires separator !in part
    ensures Split(part, separator) == [part]
  {
    if part != "" {
      SplitOfPlain(part[1..], separator);
      assert [part[0]] + part[1..] == part;
    }
  }

  /** One character more at the front of what is cut. */
  function SplitCons(c: char, separator: char, rest: seq<string>): seq<string>
    requires rest != []
  {
    if c == separator then [""] + rest else [[c] + rest[0]] + rest[1..]
  }

  lemma SplitConsAppend(c: char, separator: char, head: seq<string>, tail: seq<string>)
    requires head != []
    ensures SplitCons(c, separator, head + tail) == SplitCons(c, separator, head) + tail
  {
    assert (head + tail)[1..] == head[1..] + tail;
  }

  lemma SplitUnfold(c: char, s: string, separator: char)
    ensures Split([c] + s, separator) == SplitCons(c, separator, Split(s, separator))
  {
    assert ([c] + s)[1..] == s;
  }

  /** Cutting at a separator known to be there. */
  lemma {:induction false} SplitAppend(a: string, separator: char, b: string)
    ensures Split(a + [separator] + b, separator) == Split(a, separator) + Split(b, separator)
  {
    if a == "" {
      assert a + [separator] + b == [separator] + b;
      SplitUnfold(separator, b, separator);
    } else {
      SplitAppend(a[1..], separator, b);
      assert a + [separator] + b == [a[0]] + (a[1..] + [separator] + b) && a == [a[0]] + a[1..];
      SplitUnfold(a[0], a[1..] + [separator] + b, separator);
      SplitUnfold(a[0], a[1..], separator);
      SplitConsAppend(a[0], separator, Split(a[1..], separator), Split(b, separator));
    }
  }

  /** Gluing parts that do not hold the separator, then cutting, gives them back. */
  lemma {:induction false} SplitJoin(parts: seq<string>, separator: char)
    requires |parts| > 0
    requires forall i :: 0 <= i < |parts| ==> separator !in parts[i]
    ensures Split(Join(parts, [separator]), separator) == parts
  {
    if |parts| == 1 {
      SplitOfPlain(parts[0], separator);
    } else {
      SplitJoin(parts[1..], separator);
      SplitAppend(parts[0], separator, Join(parts[1..], [separator]));
      SplitOfPlain(parts[0], separator);
      assert [parts[0]] + parts[1..] == parts;
    }
  }

  lemma {:induction false} SplitHasNoSeparator(s: string, separator: char)
    ensures forall i :: 0 <= i < |Split(s, separator)| ==> separator !in Split(s, separator)[i]
  {
    if s != "" {
      SplitHasNoSeparator(s[1..], separator);
    }
  }
}
