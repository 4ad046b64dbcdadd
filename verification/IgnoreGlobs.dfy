/**
 What an ignore pattern means, read off its text: no tokens, no expression, no shortcut.
 */
module IgnoreGlobs {
  import opened Common
  import opened IgnorePatterns
  import opened IgnoreShortcuts

  /** What follows a pattern's leading `**`, and the slash after it if there is one. */
  function AfterStars(p: string): string
    requires StartsWith(p, "**")
  {
    if StartsWith(p, "**/") then p[3..] else p[2..]
  }

  /** The pattern `p` accepts the whole of `s`. */
  ghost predicate Globs(p: string, s: string)
    decreases |p|
  {
    if p == "" then s == ""
    else if StartsWith(p, "**") then
      if AfterStars(p) == "" then NEWLINE !in s
      else Globs(AfterStars(p), s) || exists dirs, tail :: Cut(s, dirs, tail) && Globs(AfterStars(p), tail)
    else if p[0] == '*' then exists run, tail :: s == run + tail && '/' !in run && Globs(p[1..], tail)
    else if p[0] == '?' then s != "" && s[0] != '/' && Globs(p[1..], s[1..])
    else s != "" && s[0] == p[0] && Globs(p[1..], s[1..])
  }

  /** `s` is `tail` inside some directories. */
  predicate Cut(s: string, dirs: string, tail: string) {
    s == dirs + "/" + tail && NEWLINE !in dirs
  }

  // ----- the tokens mean the text

  lemma StarsText(p: string)
    requires p != ""
    ensures DoubleStar(p) <==> StartsWith(p, "**")
    ensures StartsWith(p, "**") ==> AfterStars(p) == p[HeadLength(p)..]
  {
    if DoubleStar(p) {
      assert p[..2] == "**";
      if |p| >= 3 {
        assert p[..3] == ['*', '*', p[2]];
      }
    }
  }

  /** Read token by token, a pattern accepts exactly what its text says. */
  lemma {:induction false} TokensGlob(p: string, s: string)
    requires InFragment(p)
    ensures Match(Translate(p), s) <==> Globs(p, s)
    decreases |p|, 0
  {
    if p != "" {
      StarsText(p);
      var rest, ts := p[HeadLength(p)..], Translate(p[HeadLength(p)..]);
      assert Translate(p)[0] == HeadToken(p) && Translate(p)[1..] == ts;
      assert InFragment(rest);
      if DoubleStar(p) {
        if rest == "" {
          RunAccepts(ts, s);
        } else {
          DirsAccept(rest, ts, s);
        }
      } else if p[0] == '*' {
        SegmentAccepts(rest, ts, s);
      } else if s != "" {
        TokensGlob(rest, s[1..]);
      }
    }
  }

  lemma RunAccepts(ts: seq<Token>, s: string)
    requires ts == []
    ensures Match([AnyRun] + ts, s) <==> NEWLINE !in s
  {
    assert [AnyRun] + ts == [AnyRun];
    MatchAnyRun(s);
  }

  lemma {:induction false} SegmentAccepts(rest: string, ts: seq<Token>, s: string)
    requires InFragment(rest) && ts == Translate(rest)
    ensures Match([SegRun] + ts, s) <==> exists run, tail :: s == run + tail && '/' !in run && Globs(rest, tail)
    decreases |rest|, 1
  {
    hide Globs, Translate, InFragment;
    var all := [SegRun] + ts;
    assert all[0] == SegRun && all[1..] == ts;
    if Match(all, s) {
      var k :| 0 <= k <= |s| && '/' !in s[..k] && Match(ts, s[k..]);
      TokensGlob(rest, s[k..]);
      assert s == s[..k] + s[k..];
    }
    if exists run, tail :: s == run + tail && '/' !in run && Globs(rest, tail) {
      var run, tail :| s == run + tail && '/' !in run && Globs(rest, tail);
      TokensGlob(rest, tail);
      assert s[..|run|] == run && s[|run|..] == tail;
    }
  }

  lemma {:induction false} DirsAccept(rest: string, ts: seq<Token>, s: string)
    requires InFragment(rest) && ts == Translate(rest)
    ensures Match([OptDirs] + ts, s) <==>
      Globs(rest, s) || exists dirs, tail :: Cut(s, dirs, tail) && Globs(rest, tail)
    decreases |rest|, 2
  {
    hide Globs, Translate, InFragment, Match, InDirs, Cut;
    DirsUnfold(ts, s);
    TokensGlob(rest, s);
    if exists k :: InDirs(ts, s, k) {
      var k :| InDirs(ts, s, k);
      DirsToText(rest, ts, s, k);
    }
    if exists dirs, tail :: Cut(s, dirs, tail) && Globs(rest, tail) {
      var dirs, tail :| Cut(s, dirs, tail) && Globs(rest, tail);
      TextToDirs(rest, ts, s, dirs, tail);
    }
  }

  lemma {:induction false} DirsToText(rest: string, ts: seq<Token>, s: string, k: int)
    requires InFragment(rest) && ts == Translate(rest) && InDirs(ts, s, k)
    ensures exists dirs, tail :: Cut(s, dirs, tail) && Globs(rest, tail)
    decreases |rest|, 1
  {
    hide Globs, Translate, InFragment, Match;
    TokensGlob(rest, s[k..]);
    assert s == s[..k - 1] + "/" + s[k..];
    assert Cut(s, s[..k - 1], s[k..]);
  }

  lemma {:induction false} TextToDirs(rest: string, ts: seq<Token>, s: string, dirs: string, tail: string)
    requires InFragment(rest) && ts == Translate(rest) && Cut(s, dirs, tail) && Globs(rest, tail)
    ensures exists k :: InDirs(ts, s, k)
    decreases |rest|, 1
  {
    hide Globs, Translate, InFragment, Match;
    TokensGlob(rest, tail);
    var k := |dirs| + 1;
    assert s[..k - 1] == dirs && s[k - 1] == '/' && s[k..] == tail;
    assert InDirs(ts, s, k);
  }

  /** The tokens accept what is left of `s` after the slash before `k`. */
  ghost predicate InDirs(ts: seq<Token>, s: string, k: int) {
    0 < k <= |s| && s[k - 1] == '/' && NEWLINE !in s[..k - 1] && Match(ts, s[k..])
  }

  lemma DirsUnfold(ts: seq<Token>, s: string)
    ensures Match([OptDirs] + ts, s) <==> Match(ts, s) || exists k :: InDirs(ts, s, k)
  {
    var all := [OptDirs] + ts;
    assert all[0] == OptDirs && all[1..] == ts;
    if exists k :: InDirs(ts, s, k) {
      var k :| InDirs(ts, s, k);
      assert 0 < k <= |s| && s[k - 1] == '/' && NEWLINE !in s[..k - 1] && Match(all[1..], s[k..]);
    }
    if exists k :: 0 < k <= |s| && s[k - 1] == '/' && NEWLINE !in s[..k - 1] && Match(all[1..], s[k..]) {
      var k :| 0 < k <= |s| && s[k - 1] == '/' && NEWLINE !in s[..k - 1] && Match(all[1..], s[k..]);
      assert InDirs(ts, s, k);
    }
  }

  // ----- what each wildcard means

  /** A literal stretch stands for itself. */
  lemma {:induction false} GlobLiteral(a: string, rest: string, s: string)
    requires Literal(a)
    ensures Globs(a + rest, s) <==> StartsWith(s, a) && Globs(rest, s[|a|..])
    decreases |a|
  {
    if a == "" {
      assert a + rest == rest && s[0..] == s;
    } else {
      var p := a + rest;
      assert p[0] == a[0] && p[1..] == a[1..] + rest && !StartsWith(p, "**");
      if s != "" && s[0] == a[0] {
        GlobLiteral(a[1..], rest, s[1..]);
        assert StartsWith(s, a) <==> StartsWith(s[1..], a[1..]) by {
          assert a == [a[0]] + a[1..] && s == [s[0]] + s[1..];
        }
        if StartsWith(s, a) {
          assert s[1..][|a| - 1..] == s[|a|..];
        }
      }
    }
  }

  lemma GlobJust(b: string, s: string)
    requires Literal(b)
    ensures Globs(b, s) <==> s == b
  {
    assert b + "" == b;
    GlobLiteral(b, "", s);
    if StartsWith(s, b) {
      assert s == b + s[|b|..];
    }
  }

  lemma StarUnfold(b: string, s: string)
    requires Literal(b)
    ensures Globs("*" + b, s) <==> exists run, tail :: s == run + tail && '/' !in run && Globs(b, tail)
  {
    var rest := "*" + b;
    assert rest[1..] == b && rest[0] == '*';
    assert !StartsWith(rest, "**") by {
      assert b != "" ==> rest[1] == b[0];
    }
  }

  /** `*` stands for any characters but a slash, or none. */
  lemma GlobStar(a: string, b: string, s: string)
    requires Literal(a) && Literal(b)
    ensures Globs(a + "*" + b, s) <==> exists mid :: s == a + mid + b && '/' !in mid
  {
    hide Globs, Literal;
    if Globs(a + "*" + b, s) {
      var mid := GlobStarTaken(a, b, s);
    }
    if exists mid :: s == a + mid + b && '/' !in mid {
      var mid :| s == a + mid + b && '/' !in mid;
      GlobStarTakes(a, mid, b);
    }
  }

  lemma GlobStarTaken(a: string, b: string, s: string) returns (mid: string)
    requires Literal(a) && Literal(b) && Globs(a + "*" + b, s)
    ensures s == a + mid + b && '/' !in mid
  {
    hide Globs, Literal;
    assert a + "*" + b == a + ("*" + b);
    GlobLiteral(a, "*" + b, s);
    var tail := s[|a|..];
    assert s == a + tail;
    mid := StarTaken(b, tail);
    assert a + (mid + b) == a + mid + b;
  }

  lemma GlobStarTakes(a: string, mid: string, b: string)
    requires Literal(a) && Literal(b) && '/' !in mid
    ensures Globs(a + "*" + b, a + mid + b)
  {
    hide Globs, Literal;
    var s := a + mid + b;
    assert a + "*" + b == a + ("*" + b) && s == a + (mid + b);
    GlobLiteral(a, "*" + b, s);
    assert s[|a|..] == mid + b && s[..|a|] == a;
    StarTakes(mid, b);
  }

  lemma StarTaken(b: string, s: string) returns (mid: string)
    requires Literal(b) && Globs("*" + b, s)
    ensures s == mid + b && '/' !in mid
  {
    StarUnfold(b, s);
    hide Globs, Literal;
    var run, tail :| s == run + tail && '/' !in run && Globs(b, tail);
    GlobJust(b, tail);
    mid := run;
  }

  lemma StarTakes(mid: string, b: string)
    requires Literal(b) && '/' !in mid
    ensures Globs("*" + b, mid + b)
  {
    StarUnfold(b, mid + b);
    hide Globs, Literal;
    GlobJust(b, b);
  }

  /** `?` stands for one character that is not a slash. */
  lemma GlobQuestion(a: string, b: string, s: string)
    requires Literal(a) && Literal(b)
    ensures Globs(a + "?" + b, s) <==> exists c :: s == a + [c] + b && c != '/'
  {
    var rest := "?" + b;
    assert a + "?" + b == a + rest && rest[1..] == b && rest[0] == '?' && !StartsWith(rest, "**");
    GlobLiteral(a, rest, s);
    hide Literal;
    if StartsWith(s, a) && Globs(rest, s[|a|..]) {
      var tail := s[|a|..];
      GlobJust(b, tail[1..]);
      assert s == a + [tail[0]] + b;
    }
    if exists c :: s == a + [c] + b && c != '/' {
      var c :| s == a + [c] + b && c != '/';
      GlobJust(b, b);
      assert s[|a|..] == [c] + b && s[..|a|] == a && s[|a|..][1..] == b;
    }
  }

  lemma StarsLead(b: string, s: string)
    requires Literal(b) && b != ""
    ensures Globs("**/" + b, s) <==> s == b || exists dirs :: Cut(s, dirs, b)
  {
    var p := "**/" + b;
    assert p[..2] == "**" && p[..3] == "**/" && p[3..] == b;
    GlobJust(b, s);
    if exists dirs, tail :: Cut(s, dirs, tail) && Globs(b, tail) {
      var dirs, tail :| Cut(s, dirs, tail) && Globs(b, tail);
      GlobJust(b, tail);
    }
    GlobJust(b, b);
  }

  /** A leading `**` and slash stand for any directories, or none. */
  lemma GlobLeadingStars(b: string, s: string)
    requires Literal(b) && b != ""
    ensures Globs("**/" + b, s) <==> s == b || exists dirs :: s == dirs + "/" + b && NEWLINE !in dirs
  {
    StarsLead(b, s);
    forall dirs ensures Cut(s, dirs, b) <==> s == dirs + "/" + b && NEWLINE !in dirs {
    }
  }

  /** `**` between slashes stands for any directories, or none. */
  lemma GlobInnerStars(a: string, b: string, s: string)
    requires Literal(a) && Literal(b) && b != ""
    ensures Globs(a + "/**/" + b, s) <==>
      s == a + "/" + b || exists dirs :: s == a + "/" + dirs + "/" + b && NEWLINE !in dirs
  {
    var lead := a + "/";
    assert a + "/**/" + b == lead + ("**/" + b);
    GlobLiteral(lead, "**/" + b, s);
    if StartsWith(s, lead) {
      var tail := s[|lead|..];
      assert s == lead + tail;
      GlobLeadingStars(b, tail);
      assert tail == b <==> s == a + "/" + b;
      forall dirs ensures tail == dirs + "/" + b <==> s == a + "/" + dirs + "/" + b {
        assert lead + (dirs + "/" + b) == a + "/" + dirs + "/" + b;
        assert (lead + (dirs + "/" + b))[|lead|..] == dirs + "/" + b;
      }
    } else {
      forall dirs ensures s != a + "/" + dirs + "/" + b {
        assert StartsWith(a + "/" + dirs + "/" + b, lead);
      }
    }
  }

  /** A final `**` stands for whatever is below. */
  lemma GlobFinalStars(a: string, s: string)
    requires Literal(a)
    ensures Globs(a + "/**", s) <==> exists below :: s == a + "/" + below && NEWLINE !in below
  {
    var lead := a + "/";
    assert a + "/**" == lead + "**" && "**"[..2] == "**" && AfterStars("**") == "";
    GlobLiteral(lead, "**", s);
    if StartsWith(s, lead) {
      assert s == lead + s[|lead|..];
    }
    if exists below :: s == a + "/" + below && NEWLINE !in below {
      var below :| s == a + "/" + below && NEWLINE !in below;
      assert s[|lead|..] == below && s[..|lead|] == lead;
    }
  }
}
