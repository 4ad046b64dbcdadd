/**
 `.dockerignore` patterns: the token translation every pattern has, what a token
 list accepts, and the one-pass compiler that picks a shortcut instead.
 */
module IgnorePatterns {
  import opened Common

  /** One piece of the generated regular expression. */
  datatype Token =
    | Lit(c: char)        // the character itself, escaped where the engine needs it
    | AnyRun              // .*
    | OptDirs             // (.*/)?
    | SegRun              // [^/]*
    | SegOne              // [^/]
    | Escaped(c: char)    // a backslash and what followed it, passed on as written
    | Bracket(c: char)    // [ or ], passed on as written
    | Backslash           // a backslash with nothing after it

  datatype MatchType = Exact | Prefix | Suffix | Regexp(tokens: seq<Token>)

  datatype Kind = KExact | KPrefix | KSuffix | KRegexp

  predicate DoubleStar(p: string) {
    |p| >= 2 && p[0] == '*' && p[1] == '*'
  }

  /** How many characters the first token of a pattern reads. */
  function HeadLength(p: string): (n: nat)
    requires p != ""
    ensures 0 < n <= |p|
  {
    if DoubleStar(p) then if |p| >= 3 && p[2] == '/' then 3 else 2
    else if p[0] == '\\' && |p| >= 2 then 2
    else 1
  }

  /** The first token of a pattern. */
  function HeadToken(p: string): Token
    requires p != ""
  {
    if DoubleStar(p) then if HeadLength(p) == |p| then AnyRun else OptDirs
    else if p[0] == '*' then SegRun
    else if p[0] == '?' then SegOne
    else if p[0] == '\\' then if |p| >= 2 then Escaped(p[1]) else Backslash
    else if p[0] == '[' || p[0] == ']' then Bracket(p[0])
    else Lit(p[0])
  }

  /** The token-by-token reading of a pattern, with no shortcut taken. */
  function Translate(p: string): seq<Token> {
    if p == "" then [] else [HeadToken(p)] + Translate(p[HeadLength(p)..])
  }

  predicate Plain(t: Token) {
    t.Lit? || t.Backslash?
  }

  predicate AllPlain(ts: seq<Token>) {
    forall i :: 0 <= i < |ts| ==> Plain(ts[i])
  }

  predicate IsStars(t: Token) {
    t.AnyRun? || t.OptDirs?
  }

  /** Which shortcut a token list allows. */
  function KindOf(ts: seq<Token>): Kind {
    if AllPlain(ts) then KExact
    else if IsStars(ts[0]) && AllPlain(ts[1..]) then KSuffix
    else if ts[|ts| - 1].AnyRun? && AllPlain(ts[..|ts| - 1]) then KPrefix
    else KRegexp
  }

  /** How the kind changes on reading one more token; `first` if it is the first. */
  function NextKind(kind: Kind, t: Token, first: bool): Kind {
    match t
    case Lit(_) => kind
    case Backslash => kind
    case AnyRun => if first then KSuffix else if kind == KExact then KPrefix else KRegexp
    case OptDirs => if first then KSuffix else KRegexp
    case _ => KRegexp
  }

  /** Only a final `**` translates to an unbounded run. */
  lemma {:induction false} AnyRunOnlyLast(p: string)
    ensures forall i :: 0 <= i < |Translate(p)| - 1 ==> !Translate(p)[i].AnyRun?
    decreases |p|
  {
    if p != "" {
      AnyRunOnlyLast(p[HeadLength(p)..]);
    }
  }

  /** Reading tokens one at a time arrives at the kind of the whole list. */
  lemma KindStep(ts: seq<Token>, t: Token)
    requires forall i :: 0 <= i < |ts| ==> !ts[i].AnyRun?
    ensures KindOf(ts + [t]) == NextKind(KindOf(ts), t, ts == [])
  {
    var longer := ts + [t];
    assert longer[|ts|] == t;
    if AllPlain(ts) {
      assert AllPlain(longer) <==> Plain(t);
      if ts != [] {
        assert Plain(longer[0]);
        assert longer[..|longer| - 1] == ts;
      }
    } else {
      assert ts != [] && longer[0] == ts[0];
      assert longer[1..] == ts[1..] + [t];
      assert AllPlain(longer[1..]) <==> AllPlain(ts[1..]) && Plain(t) by {
        assert longer[1..][|ts| - 1] == t;
        assert forall i :: 0 <= i < |ts[1..]| ==> longer[1..][i] == ts[1..][i];
      }
      assert longer[..|longer| - 1] == ts;
      assert !AllPlain(longer) by {
        var i :| 0 <= i < |ts| && !Plain(ts[i]);
        assert longer[i] == ts[i];
      }
    }
  }

  /** One turn of the compiler's loop; a run that a shortcut will stand for is not pushed. */
  method CompileOne(p: string, start: nat, tokens: seq<Token>, kind: Kind, first: bool)
    returns (i: nat, tokens': seq<Token>, kind': Kind)
    requires start < |p|
    ensures i == start + HeadLength(p[start..]) <= |p|
    ensures kind' == NextKind(kind, HeadToken(p[start..]), first)
    ensures i < |p| || kind' == KRegexp ==> tokens' == tokens + [HeadToken(p[start..])]
  {
    tokens', kind' := tokens, kind;
    ghost var rest := p[start..];
    assert rest[0] == p[start] && |rest| == |p| - start;
    assert |rest| > 1 ==> rest[1] == p[start + 1];
    assert |rest| > 2 ==> rest[2] == p[start + 2];
    var ch := p[start];
    i := start + 1;
    if ch == '*' && i < |p| && p[i] == '*' {
      i := i + 1;
      if i < |p| && p[i] == '/' {
        i := i + 1;
      }
      if i >= |p| {
        if kind' == KExact {
          kind' := KPrefix;
        } else {
          tokens' := tokens' + [AnyRun];
          kind' := KRegexp;
        }
      } else {
        tokens' := tokens' + [OptDirs];
        kind' := KRegexp;
      }
      if first {
        kind' := KSuffix;
      }
    } else if ch == '*' {
      tokens' := tokens' + [SegRun];
      kind' := KRegexp;
    } else if ch == '?' {
      tokens' := tokens' + [SegOne];
      kind' := KRegexp;
    } else if ShouldEscape(ch) {
      tokens' := tokens' + [Lit(ch)];
    } else if ch == '\\' {
      if i < |p| {
        tokens' := tokens' + [Escaped(p[i])];
        i := i + 1;
        kind' := KRegexp;
      } else {
        tokens' := tokens' + [Backslash];
      }
    } else if ch == '[' || ch == ']' {
      tokens' := tokens' + [Bracket(ch)];
      kind' := KRegexp;
    } else {
      tokens' := tokens' + [Lit(ch)];
    }
  }

  /** The compiler: one pass over the characters, building tokens and a kind together. */
  method Compile(p: string, validRegex: seq<Token> -> bool) returns (r: Option<MatchType>)
    ensures r == Compiled(Translate(p), validRegex)
  {
    hide KindOf, Translate, HeadToken, HeadLength;
    var tokens: seq<Token>, kind, first, i := [], KExact, true, 0;
    ghost var ts, k: nat := Translate(p), 0;
    NothingRead(p, ts);
    while i < |p|
      invariant 0 <= i <= |p| && k <= |ts| && ts[k..] == Translate(p[i..])
      invariant kind == KindOf(ts[..k]) && (first <==> k == 0)
      invariant i < |p| || kind == KRegexp ==> tokens == ts[..k]
    {
      ReadOneMore(ts, k, p, i);
      KindOneMore(ts, k, p);
      i, tokens, kind := CompileOne(p, i, tokens, kind, first);
      first := false;
      k := k + 1;
    }
    AllRead(p, i, ts, k);
    match kind
    case KExact => r := Some(Exact);
    case KPrefix => r := Some(Prefix);
    case KSuffix => r := Some(Suffix);
    case KRegexp => r := if validRegex(tokens) then Some(Regexp(tokens)) else None;
  }

  /** What a token list compiles to: a shortcut, or the expression itself if the engine takes it. */
  function Compiled(ts: seq<Token>, validRegex: seq<Token> -> bool): Option<MatchType> {
    match KindOf(ts)
    case KExact => Some(Exact)
    case KPrefix => Some(Prefix)
    case KSuffix => Some(Suffix)
    case KRegexp => if validRegex(ts) then Some(Regexp(ts)) else None
  }

  lemma NothingRead(p: string, ts: seq<Token>)
    ensures KindOf(ts[..0]) == KExact && ts[0..] == ts && p[0..] == p
  {
  }

  lemma AllRead(p: string, i: nat, ts: seq<Token>, k: nat)
    requires i == |p| && k <= |ts| && ts[k..] == Translate(p[i..])
    ensures ts[..k] == ts
  {
    assert p[i..] == "";
  }

  /** Regex-special characters that are not also glob-special. */
  predicate ShouldEscape(c: char) {
    c in ".+()|{}$"
  }

  /** Reading one more token: what it is and what is left. */
  lemma ReadOneMore(ts: seq<Token>, k: nat, p: string, i: nat)
    requires k <= |ts| && i < |p| && ts[k..] == Translate(p[i..])
    ensures i + HeadLength(p[i..]) <= |p|
    ensures k < |ts| && ts[k] == HeadToken(p[i..])
    ensures ts[k + 1..] == Translate(p[i + HeadLength(p[i..])..])
  {
    hide HeadToken, HeadLength;
    var rest := p[i..];
    assert rest[HeadLength(rest)..] == p[i + HeadLength(rest)..];
    assert ts[k..][0] == ts[k] && ts[k..][1..] == ts[k + 1..];
  }

  /** ... and what becomes of the kind. */
  lemma KindOneMore(ts: seq<Token>, k: nat, p: string)
    requires ts == Translate(p) && k < |ts|
    ensures KindOf(ts[..k + 1]) == NextKind(KindOf(ts[..k]), ts[k], k == 0)
  {
    AnyRunOnlyLast(p);
    hide Translate;
    KindStep(ts[..k], ts[k]);
    assert ts[..k] + [ts[k]] == ts[..k + 1];
  }
}
