/** The exact, prefix and suffix shortcuts against what the token list accepts. */
module IgnoreShortcuts {
  import opened Common
  import opened IgnorePatterns

  const NEWLINE := '\n'

  /** What the expression built from `ts`, anchored at both ends, accepts; `.` never takes a newline. */
  ghost predicate Match(ts: seq<Token>, s: string) {
    if ts == [] then s == ""
    else
      match ts[0]
      case Lit(c) => s != "" && s[0] == c && Match(ts[1..], s[1..])
      case SegOne => s != "" && s[0] != '/' && Match(ts[1..], s[1..])
      case SegRun => exists k :: 0 <= k <= |s| && '/' !in s[..k] && Match(ts[1..], s[k..])
      case AnyRun => exists k :: 0 <= k <= |s| && NEWLINE !in s[..k] && Match(ts[1..], s[k..])
      case OptDirs =>
        || Match(ts[1..], s)
        || exists k :: 0 < k <= |s| && s[k - 1] == '/' && NEWLINE !in s[..k - 1] && Match(ts[1..], s[k..])
      case _ => false
  }

  /** Patterns whose translation is fully described by `Match`. */
  predicate InFragment(p: string) {
    forall i :: 0 <= i < |p| ==> p[i] != '[' && p[i] != ']' && p[i] != '^' && p[i] != '\\'
  }

  predicate TokensInFragment(ts: seq<Token>) {
    forall i :: 0 <= i < |ts| ==>
      !ts[i].Escaped? && !ts[i].Bracket? && !ts[i].Backslash? && ts[i] != Lit('^')
  }

  /** A regular-expression engine that reads the modelled tokens as `Match` does. */
  ghost predicate Reads(engine: (seq<Token>, string) -> bool) {
    forall ts, s :: TokensInFragment(ts) ==> (engine(ts, s) <==> Match(ts, s))
  }

  /** `Pattern::matches`. */
  predicate Accepts(m: MatchType, p: string, path: string, engine: (seq<Token>, string) -> bool)
  {
    match m
    case Exact => path == p
    case Prefix => |p| >= 2 && StartsWith(path, p[..|p| - 2])
    case Suffix => |p| >= 2 && (EndsWith(path, p[2..]) || (StartsWith(p[2..], "/") && path == p[3..]))
    case Regexp(ts) => engine(ts, path)
  }

  /** No wildcard character. */
  predicate Literal(s: string) {
    forall i :: 0 <= i < |s| ==> s[i] != '*' && s[i] != '?'
  }

  /** The two forms a shortcut misreads: `x**` `/` at the end, and `**x` with no slash after the stars. */
  predicate TrailingSlashRun(p: string) {
    EndsWith(p, "**/") && Literal(p[..|p| - 3])
  }

  predicate BareLeadingStars(p: string) {
    |p| > 2 && p[0] == '*' && p[1] == '*' && p[2] != '/' && Literal(p[2..])
  }

  function Lits(s: string): seq<Token> {
    seq(|s|, i requires 0 <= i < |s| => Lit(s[i]))
  }

  // ----- what the tokens say about the pattern

  lemma {:induction false} TranslateStaysInFragment(p: string)
    requires InFragment(p)
    ensures TokensInFragment(Translate(p))
    decreases |p|
  {
    if p != "" {
      var rest := p[HeadLength(p)..];
      TranslateStaysInFragment(rest);
      assert Translate(p) == [HeadToken(p)] + Translate(rest);
    }
  }

  lemma TranslateOne(p: string)
    requires p != "" && InFragment(p[..1]) && Literal(p[..1])
    ensures Translate(p) == [Lit(p[0])] + Translate(p[1..])
  {
    assert p[..1][0] == p[0];
  }

  /** A literal pattern translates to itself, character by character. */
  lemma {:induction false} TranslateLiteral(q: string, rest: string)
    requires InFragment(q) && Literal(q)
    ensures Translate(q + rest) == Lits(q) + Translate(rest)
  {
    hide Translate;
    if q == "" {
      assert q + rest == rest && Lits(q) == [];
      assert [] + Translate(rest) == Translate(rest);
    } else {
      TranslateLiteral(q[1..], rest);
      assert (q + rest)[0] == q[0] && (q + rest)[1..] == q[1..] + rest;
      TranslateOne(q + rest);
      LitsCons(q);
      Reassociate(Lit(q[0]), Lits(q[1..]), Translate(rest));
    }
  }

  lemma LitsCons(q: string)
    requires q != ""
    ensures Lits(q) == [Lit(q[0])] + Lits(q[1..])
  {
  }

  lemma Reassociate(t: Token, a: seq<Token>, b: seq<Token>)
    ensures [t] + (a + b) == [t] + a + b
  {
  }

  /** A pattern starts with a literal stretch, then ends or meets a wildcard. */
  lemma {:induction false} SplitLiteral(p: string) returns (q: string, rest: string)
    ensures p == q + rest && Literal(q)
    ensures rest == "" || rest[0] == '*' || rest[0] == '?'
    ensures InFragment(p) ==> InFragment(q)
  {
    if p == "" || p[0] == '*' || p[0] == '?' {
      q, rest := "", p;
    } else {
      q, rest := SplitLiteral(p[1..]);
      q := [p[0]] + q;
    }
  }

  lemma PlainTokensMeanLiteral(p: string)
    requires InFragment(p)
    ensures AllPlain(Translate(p)) <==> Literal(p)
  {
    var q, rest := SplitLiteral(p);
    TranslateLiteral(q, rest);
    if rest == "" {
      assert p == q && Translate("") == [];
    } else {
      assert Translate(p)[|q|] == HeadToken(rest);
      assert rest[0] in p;
    }
  }

  // ----- what the forms accept

  /** Matching a literal stretch first is starting with it. */
  lemma {:induction false} MatchLits(q: string, ts: seq<Token>, s: string)
    ensures Match(Lits(q) + ts, s) <==> StartsWith(s, q) && Match(ts, s[|q|..])
  {
    if q == "" {
      assert Lits(q) + ts == ts;
    } else {
      var all := Lits(q) + ts;
      assert all[0] == Lit(q[0]) && all[1..] == Lits(q[1..]) + ts;
      if s != "" && s[0] == q[0] {
        MatchLits(q[1..], ts, s[1..]);
        if |q| <= |s| {
          assert s[1..][|q[1..]|..] == s[|q|..];
        }
        assert StartsWith(s, q) <==> StartsWith(s[1..], q[1..]) by {
          assert q == [q[0]] + q[1..] && s == [s[0]] + s[1..];
        }
      }
    }
  }

  lemma MatchLiteral(q: string, s: string)
    ensures Match(Lits(q), s) <==> s == q
  {
    assert Lits(q) + [] == Lits(q);
    MatchLits(q, [], s);
  }

  lemma MatchAnyRun(s: string)
    ensures Match([AnyRun], s) <==> NEWLINE !in s
  {
    assert [AnyRun][1..] == [];
    assert s[..|s|] == s && s[|s|..] == "";
    if Match([AnyRun], s) {
      var k :| 0 <= k <= |s| && NEWLINE !in s[..k] && Match([], s[k..]);
      assert k == |s|;
    }
  }

  lemma MatchOptDirs(x: string, s: string)
    requires NEWLINE !in s
    ensures Match([OptDirs] + Lits(x), s) <==> s == x || EndsWith(s, "/" + x)
  {
    var ts := [OptDirs] + Lits(x);
    assert ts[1..] == Lits(x);
    MatchLiteral(x, s);
    forall k | 0 < k <= |s|
      ensures s[k - 1] == '/' && Match(Lits(x), s[k..]) <==> s[k - 1..] == "/" + x
    {
      MatchLiteral(x, s[k..]);
      assert s[k - 1..] == [s[k - 1]] + s[k..];
      assert ("/" + x)[1..] == x;
    }
    if EndsWith(s, "/" + x) {
      var k := |s| - |x|;
      assert s[k - 1..] == "/" + x;
      assert s[..k - 1] <= s;
    }
  }

  // ----- each kind

  lemma ExactAgrees(p: string, path: string)
    requires InFragment(p) && KindOf(Translate(p)) == KExact
    ensures Match(Translate(p), path) <==> path == p
  {
    PlainTokensMeanLiteral(p);
    TranslateLiteral(p, "");
    assert p + "" == p && Lits(p) + [] == Lits(p);
    MatchLiteral(p, path);
  }

  /** A suffix shortcut stands for leading stars, then a literal. */
  lemma SuffixForm(p: string)
    requires InFragment(p) && KindOf(Translate(p)) == KSuffix
    ensures DoubleStar(p) && Literal(p[HeadLength(p)..])
    ensures var x := p[HeadLength(p)..];
      Translate(p) == if x == "" then [AnyRun] else [OptDirs] + Lits(x)
  {
    var x := p[HeadLength(p)..];
    assert Translate(p)[1..] == Translate(x);
    PlainTokensMeanLiteral(x);
    TranslateLiteral(x, "");
    assert x + "" == x && Lits(x) + [] == Lits(x);
  }

  /** A prefix shortcut stands for a literal, then trailing stars. */
  lemma PrefixForm(p: string) returns (q: string)
    requires InFragment(p) && KindOf(Translate(p)) == KPrefix
    ensures q != "" && Literal(q) && (p == q + "**" || p == q + "**/")
    ensures Translate(p) == Lits(q) + [AnyRun]
  {
    var rest;
    q, rest := SplitLiteral(p);
    TranslateLiteral(q, rest);
    PlainTokensMeanLiteral(p);
    assert q + "" == q;
    PrefixTokens(q, HeadToken(rest), Translate(rest[HeadLength(rest)..]));
    RunReadsAll(rest);
  }

  /** A prefix kind leaves room for one unbounded run after the literal, and nothing else. */
  lemma PrefixTokens(q: string, t: Token, tail: seq<Token>)
    requires !Plain(t) && KindOf(Lits(q) + ([t] + tail)) == KPrefix
    ensures q != "" && t == AnyRun && tail == []
  {
    var ts := Lits(q) + ([t] + tail);
    assert ts[|q|] == t;
    assert forall j :: 0 <= j < |ts| - 1 ==> ts[..|ts| - 1][j] == ts[j];
    assert forall j :: 0 <= j < |ts| - 1 ==> ts[1..][j] == ts[j + 1];
  }

  lemma RunReadsAll(p: string)
    requires p != "" && HeadToken(p).AnyRun?
    ensures p == "**" || p == "**/"
  {
  }

  /** On every path the shortcut chosen accepts what the tokens do, unless the form is one of the two. */
  lemma ShortcutAgrees(p: string, path: string, validRegex: seq<Token> -> bool,
                       engine: (seq<Token>, string) -> bool)
    requires InFragment(p) && NEWLINE !in path && Reads(engine)
    requires !TrailingSlashRun(p) && !BareLeadingStars(p)
    requires Compiled(Translate(p), validRegex).Some?
    ensures Accepts(Compiled(Translate(p), validRegex).value, p, path, engine) <==> Match(Translate(p), path)
  {
    hide Translate, Match, KindOf, TrailingSlashRun, BareLeadingStars;
    match KindOf(Translate(p))
    case KExact =>
      ExactAgrees(p, path);
    case KPrefix =>
      PrefixAgrees(p, path);
    case KSuffix =>
      SuffixAgrees(p, path);
    case KRegexp =>
      TranslateStaysInFragment(p);
  }

  lemma PrefixAgrees(p: string, path: string)
    requires InFragment(p) && KindOf(Translate(p)) == KPrefix && NEWLINE !in path
    requires !TrailingSlashRun(p)
    ensures |p| >= 2 && (StartsWith(path, p[..|p| - 2]) <==> Match(Translate(p), path))
  {
    hide Translate, Match, KindOf;
    var q := PrefixForm(p);
    TrailingSlashForm(q);
    assert p == q + "**" && p[..|p| - 2] == q;
    MatchLits(q, [AnyRun], path);
    if StartsWith(path, q) {
      MatchAnyRun(path[|q|..]);
    }
  }

  lemma TrailingSlashForm(q: string)
    ensures TrailingSlashRun(q + "**/") <==> Literal(q)
  {
    var p := q + "**/";
    assert p[|p| - 3..] == "**/" && p[..|p| - 3] == q;
  }

  lemma SuffixAgrees(p: string, path: string)
    requires InFragment(p) && KindOf(Translate(p)) == KSuffix && NEWLINE !in path
    requires !TrailingSlashRun(p) && !BareLeadingStars(p)
    ensures |p| >= 2
    ensures EndsWith(path, p[2..]) || (StartsWith(p[2..], "/") && path == p[3..]) <==> Match(Translate(p), path)
  {
    hide Translate, Match, KindOf;
    SuffixForm(p);
    var x := p[HeadLength(p)..];
    if x == "" {
      MatchAnyRun(path);
      TrailingSlashForm("");
      assert p == "**" || p == "" + "**/";
      assert path[|path|..] == "";
    } else {
      BareOrSlash(p);
      MatchOptDirs(x, path);
    }
  }

  lemma BareOrSlash(p: string)
    requires DoubleStar(p) && |p| > HeadLength(p) && Literal(p[HeadLength(p)..]) && !BareLeadingStars(p)
    ensures HeadLength(p) == 3 && p[2..] == "/" + p[3..] && StartsWith(p[2..], "/")
  {
  }

  /** With bare leading stars the shortcut accepts exactly the paths ending in what follows them. */
  lemma BareStarsAcceptEndings(p: string, path: string, validRegex: seq<Token> -> bool,
                               engine: (seq<Token>, string) -> bool)
    requires InFragment(p) && BareLeadingStars(p)
    ensures Compiled(Translate(p), validRegex) == Some(Suffix)
    ensures Accepts(Suffix, p, path, engine) <==> EndsWith(path, p[2..])
    ensures NEWLINE !in path ==>
      (Match(Translate(p), path) <==> path == p[2..] || EndsWith(path, "/" + p[2..]))
  {
    var x := p[2..];
    PlainTokensMeanLiteral(x);
    TranslateLiteral(x, "");
    assert x + "" == x && Lits(x) + [] == Lits(x);
    assert Translate(p) == [OptDirs] + Lits(x);
    var ts := Translate(p);
    assert ts[1..] == Lits(x);
    if NEWLINE !in path {
      MatchOptDirs(x, path);
    }
  }

  /** `q**` with a slash after it is compiled to a prefix, or a suffix, that rejects `q` or `a`. */
  lemma TrailingSlashMisread(p: string, validRegex: seq<Token> -> bool, engine: (seq<Token>, string) -> bool)
    returns (path: string)
    requires InFragment(p) && NEWLINE !in p && TrailingSlashRun(p)
    ensures NEWLINE !in path && Compiled(Translate(p), validRegex).Some?
    ensures Match(Translate(p), path)
    ensures !Accepts(Compiled(Translate(p), validRegex).value, p, path, engine)
  {
    hide Translate, Match, KindOf;
    var q := p[..|p| - 3];
    assert p == q + "**/";
    TrailingSlashTokens(q);
    TrailingSlashKind(q);
    if q == "" {
      path := "a";
      assert Lits(q) + [AnyRun] == [AnyRun];
      MatchAnyRun(path);
      assert p[2..] == "/" && path != p[3..];
    } else {
      path := q;
      MatchLits(q, [AnyRun], q);
      MatchAnyRun("");
      assert q[|q|..] == "";
      assert |p[..|p| - 2]| > |q|;
    }
  }

  lemma TrailingSlashKind(q: string)
    ensures KindOf(Lits(q) + [AnyRun]) == if q == "" then KSuffix else KPrefix
  {
    var ts := Lits(q) + [AnyRun];
    assert ts[|q|] == AnyRun && ts[..|ts| - 1] == Lits(q);
    assert q != "" ==> ts[0] == Lit(q[0]);
  }

  lemma TrailingSlashTokens(q: string)
    requires InFragment(q) && Literal(q)
    ensures Translate(q + "**/") == Lits(q) + [AnyRun]
  {
    var tail := "**/";
    TranslateLiteral(q, tail);
    assert HeadLength(tail) == 3 && tail[3..] == "";
  }

  /** With bare leading stars, a path that merely ends in the name is accepted. */
  lemma BareStarsMisread(p: string, validRegex: seq<Token> -> bool, engine: (seq<Token>, string) -> bool)
    returns (path: string)
    requires InFragment(p) && NEWLINE !in p && BareLeadingStars(p)
    ensures NEWLINE !in path && Compiled(Translate(p), validRegex).Some?
    ensures !Match(Translate(p), path)
    ensures Accepts(Compiled(Translate(p), validRegex).value, p, path, engine)
  {
    hide Translate, Match, Compiled;
    var x := p[2..];
    path := "a" + x;
    assert path[1..] == x && path[0] == 'a';
    BareStarsAcceptEndings(p, path, validRegex, engine);
    assert !EndsWith(path, "/" + x) by {
      assert ("/" + x)[0] == '/' && path[|path| - |"/" + x|..] == path;
    }
  }

  /** The shortcuts are sound for a pattern exactly when it has neither of the two forms. */
  lemma ShortcutsSoundExactly(p: string, validRegex: seq<Token> -> bool, engine: (seq<Token>, string) -> bool)
    requires InFragment(p) && NEWLINE !in p && Reads(engine)
    requires Compiled(Translate(p), validRegex).Some?
    ensures (forall path :: NEWLINE !in path ==>
              (Accepts(Compiled(Translate(p), validRegex).value, p, path, engine) <==> Match(Translate(p), path)))
      <==> !TrailingSlashRun(p) && !BareLeadingStars(p)
  {
    if TrailingSlashRun(p) {
      var path := TrailingSlashMisread(p, validRegex, engine);
    } else if BareLeadingStars(p) {
      var path := BareStarsMisread(p, validRegex, engine);
    } else {
      forall path | NEWLINE !in path
        ensures Accepts(Compiled(Translate(p), validRegex).value, p, path, engine) <==> Match(Translate(p), path)
      {
        ShortcutAgrees(p, path, validRegex, engine);
      }
    }
  }
}
