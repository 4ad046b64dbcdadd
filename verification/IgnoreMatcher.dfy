/** A compiled ignore file: which paths its patterns, in order, exclude. */
module IgnoreMatcher {
  import opened Common
  import opened PathClean
  import opened IgnorePatterns
  import opened IgnoreShortcuts
  import opened IgnoreGlobs

  datatype Pattern = Pattern(cleaned: string, exclusion: bool, matchType: MatchType)

  datatype Matcher = Matcher(patterns: seq<Pattern>, exclusions: bool)

  datatype Error = InvalidPattern(pattern: string) | EmptyExclusion

  type Engine = (seq<Token>, string) -> bool

  // ----- reading the file

  /** The characters with Unicode's White_Space property: what Rust's `trim` drops. */
  predicate IsWhitespace(c: char) {
    || '\t' <= c <= '\r' || c == ' ' || c == '\U{85}' || c == '\U{A0}' || c == '\U{1680}'
    || '\U{2000}' <= c <= '\U{200A}' || c == '\U{2028}' || c == '\U{2029}' || c == '\U{202F}'
    || c == '\U{205F}' || c == '\U{3000}'
  }

  function TrimStart(s: string): string {
    if s != "" && IsWhitespace(s[0]) then TrimStart(s[1..]) else s
  }

  function TrimEnd(s: string): string {
    if s != "" && IsWhitespace(s[|s| - 1]) then TrimEnd(s[..|s| - 1]) else s
  }

  function Trim(s: string): string {
    TrimEnd(TrimStart(s))
  }

  predicate Blank(line: string) {
    Trim(line) == ""
  }

  /** A line that is only a `!` once cleaned. */
  predicate LoneExclusion(line: string) {
    Clean(Trim(line)) == "!"
  }

  /** The pattern a line spells, without its `!`. */
  function PatternText(line: string): string {
    var cleaned := Clean(Trim(line));
    if StartsWith(cleaned, "!") then cleaned[1..] else cleaned
  }

  predicate Negated(line: string) {
    StartsWith(Clean(Trim(line)), "!")
  }

  predicate LineOk(line: string, validRegex: seq<Token> -> bool) {
    Blank(line) || (!LoneExclusion(line) && Compiled(Translate(PatternText(line)), validRegex).Some?)
  }

  function LinePattern(line: string, validRegex: seq<Token> -> bool): seq<Pattern>
    requires LineOk(line, validRegex)
  {
    if Blank(line) then []
    else [Pattern(PatternText(line), Negated(line), Compiled(Translate(PatternText(line)), validRegex).value)]
  }

  function LinePatterns(lines: seq<string>, validRegex: seq<Token> -> bool): seq<Pattern>
    requires forall i :: 0 <= i < |lines| ==> LineOk(lines[i], validRegex)
  {
    if lines == [] then []
    else LinePatterns(lines[..|lines| - 1], validRegex) + LinePattern(lines[|lines| - 1], validRegex)
  }

  /** `PatternMatcher::new`: refused at the first bad line, otherwise one pattern a line, in order. */
  method NewMatcher(lines: seq<string>, validRegex: seq<Token> -> bool) returns (r: Result<Matcher, Error>)
    ensures r.Ok? <==> forall i :: 0 <= i < |lines| ==> LineOk(lines[i], validRegex)
    ensures r.Ok? ==> r.value.patterns == LinePatterns(lines, validRegex)
    ensures r.Ok? ==> (r.value.exclusions <==>
                         exists i :: 0 <= i < |r.value.patterns| && r.value.patterns[i].exclusion)
    ensures r.Err? ==> exists i :: 0 <= i < |lines| && !LineOk(lines[i], validRegex)
                         && (forall j :: 0 <= j < i ==> LineOk(lines[j], validRegex))
                         && r.error == if LoneExclusion(lines[i]) then EmptyExclusion
                                       else InvalidPattern(PatternText(lines[i]))
  {
    hide Trim, Clean, Translate, Compiled;
    var patterns: seq<Pattern>, exclusions := [], false;
    for i := 0 to |lines|
      invariant forall j :: 0 <= j < i ==> LineOk(lines[j], validRegex)
      invariant patterns == LinePatterns(lines[..i], validRegex)
      invariant exclusions <==> exists k :: 0 <= k < |patterns| && patterns[k].exclusion
    {
      assert lines[..i + 1][..i] == lines[..i];
      var trimmed := Trim(lines[i]);
      if trimmed != "" {
        var cleaned := Clean(trimmed);
        var exclusion := StartsWith(cleaned, "!");
        if exclusion {
          if |cleaned| == 1 {
            assert cleaned == "!";
            return Err(EmptyExclusion);
          }
          cleaned := cleaned[1..];
        }
        var compiled := Compile(cleaned, validRegex);
        if compiled.None? {
          return Err(InvalidPattern(cleaned));
        }
        ghost var before := patterns;
        patterns := patterns + [Pattern(cleaned, exclusion, compiled.value)];
        assert patterns[|before|].exclusion == exclusion;
        assert forall k :: 0 <= k < |before| ==> patterns[k] == before[k];
        exclusions := exclusions || exclusion;
      }
    }
    assert lines[..|lines|] == lines;
    r := Ok(Matcher(patterns, exclusions));
  }

  // ----- which paths are tested

  function ParentOf(path: string): string {
    match LastSlash(path)
    case None => "."
    case Some(i) => if i == 0 then "/" else Clean(path[..i])
  }

  function ParentDirs(file: string): seq<string> {
    if ParentOf(file) == "." then [] else Split(ParentOf(file), '/')
  }

  /** `c` is `file` itself or a directory above it, cut at a slash. */
  predicate SelfOrAncestor(file: string, c: string) {
    c == file || StartsWith(file, c + "/")
  }

  /** The paths the code tests for `file`. */
  ghost predicate Tested(file: string, c: string) {
    c == file || exists k :: 0 < k <= |ParentDirs(file)| && c == Join(ParentDirs(file)[..k], "/")
  }

  /** A cleaned path relative to the context root, and not the root itself. */
  ghost predicate Relative(file: string) {
    Clean(file) == file && !Absolute(file) && file != "."
  }

  lemma RelativeParts(file: string) returns (parts: seq<string>)
    requires Relative(file)
    ensures parts != [] && Components(parts) && PathClean.Resolved(false, parts) && file == Join(parts, "/")
  {
    CleanParts(file);
    parts := Resolve(false, PartsOf(file), []);
  }

  lemma {:induction false} JoinAppend(front: seq<string>, back: seq<string>)
    requires front != [] && back != []
    ensures Join(front + back, "/") == Join(front, "/") + "/" + Join(back, "/")
  {
    var all := front + back;
    if |front| == 1 {
      assert all[1..] == back;
    } else {
      JoinAppend(front[1..], back);
      assert all[1..] == front[1..] + back;
    }
  }

  lemma ParentOfParts(front: seq<string>, last: string)
    requires front != [] && PathClean.Resolved(false, front) && Component(last)
    ensures ParentOf(Join(front, "/") + "/" + last) == Join(front, "/")
  {
    var dir := Join(front, "/");
    var file := dir + "/" + last;
    JoinIsRelative(front);
    assert Render(false, front) == dir;
    CleanOfRendered(false, front);
    hide Clean, Join;
    forall j | |dir| < j < |file| ensures file[j] != '/' {
      assert file[j] == last[j - |dir| - 1];
    }
    assert file[|dir|] == '/';
    assert LastSlash(file) == Some(|dir|);
    assert file[..|dir|] == dir;
  }

  lemma ResolvedFront(parts: seq<string>)
    requires parts != [] && PathClean.Resolved(false, parts)
    ensures PathClean.Resolved(false, parts[..|parts| - 1]) && Component(parts[|parts| - 1])
  {
  }

  lemma ParentDirsBelow(front: seq<string>, last: string)
    requires front != [] && PathClean.Resolved(false, front) && Component(last)
    ensures ParentDirs(Join(front, "/") + "/" + last) == front
  {
    ParentOfParts(front, last);
    NotADot(front);
    hide Join, ParentOf, Split, PathClean.Resolved;
  }

  lemma ParentDirsOfName(name: string)
    requires Component(name)
    ensures ParentDirs(name) == []
  {
    assert LastSlash(name).None?;
  }

  lemma ParentDirsOfParts(parts: seq<string>)
    requires parts != [] && PathClean.Resolved(false, parts)
    ensures ParentDirs(Join(parts, "/")) == parts[..|parts| - 1]
  {
    hide PathClean.Resolved, ParentDirs, Component;
    var front, last := parts[..|parts| - 1], parts[|parts| - 1];
    ResolvedFront(parts);
    if front == [] {
      ParentDirsOfName(last);
    } else {
      assert front + [last] == parts;
      JoinAppend(front, [last]);
      ParentDirsBelow(front, last);
    }
  }

  lemma NotADot(parts: seq<string>)
    requires parts != [] && Components(parts)
    ensures Join(parts, "/") != "." && Split(Join(parts, "/"), '/') == parts
  {
    PartsOfJoin(parts);
    SplitOfPlain(".", '/');
    assert Component(parts[0]);
  }

  lemma PrefixIsAncestor(parts: seq<string>, k: nat)
    requires 0 < k < |parts|
    ensures SelfOrAncestor(Join(parts, "/"), Join(parts[..k], "/"))
  {
    assert parts[..k] + parts[k..] == parts;
    JoinAppend(parts[..k], parts[k..]);
  }

  lemma AncestorIsPrefix(parts: seq<string>, c: string) returns (k: nat)
    requires parts != [] && Components(parts) && StartsWith(Join(parts, "/"), c + "/")
    ensures 0 < k < |parts| && c == Join(parts[..k], "/")
  {
    var file := Join(parts, "/");
    var rest := file[|c| + 1..];
    assert file == c + "/" + rest;
    SplitAppend(c, '/', rest);
    PartsOfJoin(parts);
    JoinSplit(c, '/');
    k := |Split(c, '/')|;
    hide Split, Join;
    assert parts[..k] == Split(c, '/');
  }

  /** For a relative cleaned path, what is tested is exactly the path and the directories above it. */
  lemma TestedAreSelfAndAncestors(file: string, c: string)
    requires Relative(file)
    ensures Tested(file, c) <==> SelfOrAncestor(file, c)
  {
    var parts := RelativeParts(file);
    ParentDirsOfParts(parts);
    hide ParentDirs, Join, Relative, PathClean.Resolved;
    var dirs := parts[..|parts| - 1];
    if c != file && Tested(file, c) {
      var k :| 0 < k <= |dirs| && c == Join(dirs[..k], "/");
      assert dirs[..k] == parts[..k];
      PrefixIsAncestor(parts, k);
    }
    if StartsWith(file, c + "/") {
      var k := AncestorIsPrefix(parts, c);
      assert dirs[..k] == parts[..k];
    }
  }

  // ----- which paths are excluded

  ghost predicate HitsTested(p: Pattern, file: string, engine: Engine) {
    exists c :: Tested(file, c) && Accepts(p.matchType, p.cleaned, c, engine)
  }

  /** The pattern accepts the path or a directory above it. */
  ghost predicate Hits(p: Pattern, file: string, engine: Engine) {
    exists c :: SelfOrAncestor(file, c) && Accepts(p.matchType, p.cleaned, c, engine)
  }

  lemma HitsAgree(p: Pattern, file: string, engine: Engine)
    requires Relative(file)
    ensures HitsTested(p, file, engine) <==> Hits(p, file, engine)
  {
    forall c ensures Tested(file, c) <==> SelfOrAncestor(file, c) {
      TestedAreSelfAndAncestors(file, c);
    }
  }

  /** The last of the first `n` patterns that hits decides, and with none the path is kept. */
  ghost predicate LastHitExcludes(ps: seq<Pattern>, n: nat, hits: Pattern -> bool)
    requires n <= |ps|
  {
    if n == 0 then false
    else if hits(ps[n - 1]) then !ps[n - 1].exclusion
    else LastHitExcludes(ps, n - 1, hits)
  }

  /** What an ignore file means for a relative cleaned path: the last pattern that hits decides. */
  ghost predicate Excluded(ps: seq<Pattern>, file: string, engine: Engine) {
    LastHitExcludes(ps, |ps|, p => Hits(p, file, engine))
  }

  /** One pattern against the path, then against each directory above it. */
  method TestPattern(p: Pattern, file: string, parentDirs: seq<string>, engine: Engine) returns (isMatch: bool)
    requires parentDirs == ParentDirs(file)
    ensures isMatch <==> HitsTested(p, file, engine)
  {
    isMatch := Accepts(p.matchType, p.cleaned, file, engine);
    if !isMatch && parentDirs != [] {
      var i := 0;
      while i < |parentDirs|
        invariant 0 <= i <= |parentDirs| && !isMatch
        invariant forall k :: 0 < k <= i ==> !Accepts(p.matchType, p.cleaned, Join(parentDirs[..k], "/"), engine)
      {
        isMatch := Accepts(p.matchType, p.cleaned, Join(parentDirs[..i + 1], "/"), engine);
        if isMatch {
          assert Tested(file, Join(parentDirs[..i + 1], "/"));
          break;
        }
        i := i + 1;
      }
    }
  }

  lemma TestedDecidesAsMeant(ps: seq<Pattern>, file: string, engine: Engine)
    requires Relative(file)
    ensures LastHitExcludes(ps, |ps|, p => HitsTested(p, file, engine)) <==> Excluded(ps, file, engine)
  {
    hide HitsTested, Hits;
    forall p ensures HitsTested(p, file, engine) <==> Hits(p, file, engine) {
      HitsAgree(p, file, engine);
    }
    SameHitsBelow(ps, |ps|, p => HitsTested(p, file, engine), p => Hits(p, file, engine));
  }

  lemma CleanRelative(path: string)
    requires !Absolute(path) && Clean(path) != "."
    ensures Relative(Clean(path))
  {
    CleanIdempotent(path);
    CleanParts(path);
    RenderReadsBack(false, Resolve(false, PartsOf(path), []));
  }

  /** Skips a pattern that could only confirm the answer so far, and still answers as the last hit does. */
  method MatchesOrParentMatches(m: Matcher, path: string, engine: Engine) returns (matched: bool)
    ensures Clean(path) == "." ==> !matched
    ensures Clean(path) != "." ==>
      (matched <==> LastHitExcludes(m.patterns, |m.patterns|, p => HitsTested(p, Clean(path), engine)))
    ensures Clean(path) != "." && !Absolute(path) ==>
      (matched <==> Excluded(m.patterns, Clean(path), engine))
  {
    hide Clean, ParentDirs, HitsTested, Hits;
    var file := Clean(path);
    if file == "." {
      return false;
    }
    var parentDirs := ParentDirs(file);
    ghost var hits := p => HitsTested(p, file, engine);
    matched := false;
    for i := 0 to |m.patterns|
      invariant matched <==> LastHitExcludes(m.patterns, i, hits)
    {
      var pattern := m.patterns[i];
      if pattern.exclusion == matched {
        var isMatch := TestPattern(pattern, file, parentDirs, engine);
        if isMatch {
          matched := !pattern.exclusion;
        }
      }
    }
    if !Absolute(path) {
      CleanRelative(path);
      TestedDecidesAsMeant(m.patterns, file, engine);
    }
  }

  // ----- what follows

  lemma AncestorsOfAncestors(file: string, below: string, c: string)
    requires SelfOrAncestor(below, file) && SelfOrAncestor(file, c)
    ensures SelfOrAncestor(below, c)
  {
    if below != file && c != file {
      assert (c + "/") <= file <= below;
    }
  }

  lemma {:induction false} SomeHitExcludes(ps: seq<Pattern>, n: nat, hits: Pattern -> bool)
    requires n <= |ps| && forall i :: 0 <= i < |ps| ==> !ps[i].exclusion
    ensures LastHitExcludes(ps, n, hits) <==> exists i :: 0 <= i < n && hits(ps[i])
  {
    if n > 0 {
      SomeHitExcludes(ps, n - 1, hits);
    }
  }

  /** With no `!` pattern, what lies below an excluded path is excluded. */
  lemma ExclusionIsInherited(ps: seq<Pattern>, file: string, below: string, engine: Engine)
    requires forall i :: 0 <= i < |ps| ==> !ps[i].exclusion
    requires SelfOrAncestor(below, file) && Excluded(ps, file, engine)
    ensures Excluded(ps, below, engine)
  {
    SomeHitExcludes(ps, |ps|, p => Hits(p, file, engine));
    SomeHitExcludes(ps, |ps|, p => Hits(p, below, engine));
    var i :| 0 <= i < |ps| && Hits(ps[i], file, engine);
    var c :| SelfOrAncestor(file, c) && Accepts(ps[i].matchType, ps[i].cleaned, c, engine);
    AncestorsOfAncestors(file, below, c);
    assert Hits(ps[i], below, engine);
  }

  /** A pattern with no wildcard excludes exactly itself and what lies below it. */
  lemma LiteralExcludesItselfAndBelow(p: string, validRegex: seq<Token> -> bool, file: string, engine: Engine)
    requires InFragment(p) && Literal(p)
    ensures Compiled(Translate(p), validRegex) == Some(Exact)
    ensures Excluded([Pattern(p, false, Exact)], file, engine) <==> file == p || StartsWith(file, p + "/")
  {
    PlainTokensMeanLiteral(p);
    var ps := [Pattern(p, false, Exact)];
    SomeHitExcludes(ps, 1, q => Hits(q, file, engine));
    hide Translate, LastHitExcludes;
    assert Hits(ps[0], file, engine) <==> SelfOrAncestor(file, p) by {
      if SelfOrAncestor(file, p) {
        assert Accepts(Exact, p, p, engine);
      }
    }
    assert forall i :: 0 <= i < 1 ==> ps[i] == ps[0];
  }

  /** The simple reading of a pattern: its text accepts the path or a directory above it. */
  ghost predicate TextHits(text: string, file: string) {
    exists c :: SelfOrAncestor(file, c) && Globs(text, c)
  }

  /** A pattern the shortcuts read as written. */
  ghost predicate ReadAsWritten(p: Pattern, validRegex: seq<Token> -> bool) {
    && InFragment(p.cleaned)
    && !TrailingSlashRun(p.cleaned) && !BareLeadingStars(p.cleaned)
    && Compiled(Translate(p.cleaned), validRegex) == Some(p.matchType)
  }

  lemma HitsAsWritten(p: Pattern, validRegex: seq<Token> -> bool, file: string, engine: Engine)
    requires Reads(engine) && NEWLINE !in file && ReadAsWritten(p, validRegex)
    ensures Hits(p, file, engine) <==> TextHits(p.cleaned, file)
  {
    hide Match, Globs, Translate, Accepts, Compiled, TrailingSlashRun, BareLeadingStars, InFragment, Reads;
    forall c | SelfOrAncestor(file, c)
      ensures Accepts(p.matchType, p.cleaned, c, engine) <==> Globs(p.cleaned, c)
    {
      assert c <= file;
      ShortcutAgrees(p.cleaned, c, validRegex, engine);
      TokensGlob(p.cleaned, c);
    }
  }

  lemma {:induction false} SameHitsBelow(ps: seq<Pattern>, n: nat, some: Pattern -> bool, other: Pattern -> bool)
    requires n <= |ps| && forall i :: 0 <= i < n ==> (some(ps[i]) <==> other(ps[i]))
    ensures LastHitExcludes(ps, n, some) <==> LastHitExcludes(ps, n, other)
  {
    if n > 0 {
      SameHitsBelow(ps, n - 1, some, other);
    }
  }

  /** Shortcuts and skipping together change nothing: the patterns mean what their text says. */
  lemma MeansWhatItsTextSays(ps: seq<Pattern>, validRegex: seq<Token> -> bool, file: string, engine: Engine)
    requires Reads(engine) && NEWLINE !in file
    requires forall i :: 0 <= i < |ps| ==> ReadAsWritten(ps[i], validRegex)
    ensures Excluded(ps, file, engine) <==> LastHitExcludes(ps, |ps|, (p: Pattern) => TextHits(p.cleaned, file))
  {
    hide Hits, TextHits, ReadAsWritten, Reads;
    forall i | 0 <= i < |ps| ensures Hits(ps[i], file, engine) <==> TextHits(ps[i].cleaned, file) {
      HitsAsWritten(ps[i], validRegex, file, engine);
    }
    SameHitsBelow(ps, |ps|, p => Hits(p, file, engine), (p: Pattern) => TextHits(p.cleaned, file));
  }

  /** Cleaning leaves no slash at the end, so a line never spells the first misread form. */
  lemma NeverASlashRun(line: string)
    ensures !TrailingSlashRun(PatternText(line))
  {
    hide Clean, Literal;
    CleanNeverEndsInSlash(Trim(line));
  }

  /** A line of the modelled fragment whose stars, if it leads with them, are not followed by a name. */
  predicate Ordinary(line: string) {
    Blank(line) || (InFragment(PatternText(line)) && !BareLeadingStars(PatternText(line)))
  }

  lemma {:induction false} OrdinaryReadAsWritten(lines: seq<string>, validRegex: seq<Token> -> bool)
    requires forall i :: 0 <= i < |lines| ==> LineOk(lines[i], validRegex) && Ordinary(lines[i])
    ensures forall i :: 0 <= i < |LinePatterns(lines, validRegex)| ==>
      ReadAsWritten(LinePatterns(lines, validRegex)[i], validRegex)
  {
    hide PatternText, Blank, TrailingSlashRun, BareLeadingStars, InFragment, Compiled, Translate, Negated;
    if lines != [] {
      var last := lines[|lines| - 1];
      OrdinaryReadAsWritten(lines[..|lines| - 1], validRegex);
      NeverASlashRun(last);
      assert LineOk(last, validRegex) && Ordinary(last);
    }
  }

  /** What the first `n` lines of an ignore file say of a path: the last that hits it decides. */
  ghost predicate LinesExclude(lines: seq<string>, n: nat, file: string)
    requires n <= |lines|
  {
    if n == 0 then false
    else if Blank(lines[n - 1]) || !TextHits(PatternText(lines[n - 1]), file) then LinesExclude(lines, n - 1, file)
    else !Negated(lines[n - 1])
  }

  lemma {:induction false} LinesExcludeFront(lines: seq<string>, n: nat, file: string)
    requires n < |lines|
    ensures LinesExclude(lines, n, file) <==> LinesExclude(lines[..|lines| - 1], n, file)
  {
    hide TextHits, PatternText, Blank, Negated;
    if n > 0 {
      LinesExcludeFront(lines, n - 1, file);
    }
  }

  lemma {:induction false} LastHitFront(ps: seq<Pattern>, more: seq<Pattern>, n: nat, hits: Pattern -> bool)
    requires n <= |ps|
    ensures LastHitExcludes(ps + more, n, hits) <==> LastHitExcludes(ps, n, hits)
  {
    if n > 0 {
      LastHitFront(ps, more, n - 1, hits);
    }
  }

  lemma {:induction false} PatternsSayTheLines(lines: seq<string>, validRegex: seq<Token> -> bool, file: string)
    requires forall i :: 0 <= i < |lines| ==> LineOk(lines[i], validRegex)
    ensures var ps := LinePatterns(lines, validRegex);
      LastHitExcludes(ps, |ps|, (p: Pattern) => TextHits(p.cleaned, file)) <==> LinesExclude(lines, |lines|, file)
  {
    hide TextHits, PatternText, Blank, Negated, LineOk, Compiled, Translate;
    if lines != [] {
      var front, last := lines[..|lines| - 1], lines[|lines| - 1];
      var hits := (p: Pattern) => TextHits(p.cleaned, file);
      PatternsSayTheLines(front, validRegex, file);
      LinesExcludeFront(lines, |front|, file);
      var ps := LinePatterns(front, validRegex);
      LastHitFront(ps, LinePattern(last, validRegex), |ps|, hits);
      assert LineOk(last, validRegex);
      LinePatternIs(last, validRegex);
      assert Blank(last) ==> ps + LinePattern(last, validRegex) == ps;
    }
  }

  lemma LinePatternIs(line: string, validRegex: seq<Token> -> bool)
    requires LineOk(line, validRegex)
    ensures var ps := LinePattern(line, validRegex);
      if Blank(line) then ps == []
      else |ps| == 1 && ps[0].cleaned == PatternText(line) && ps[0].exclusion == Negated(line)
  {
  }

  /** So an ignore file of ordinary lines excludes exactly what its lines say. */
  lemma IgnoreFileMeansWhatItSays(lines: seq<string>, validRegex: seq<Token> -> bool, file: string, engine: Engine)
    requires Reads(engine) && NEWLINE !in file
    requires forall i :: 0 <= i < |lines| ==> LineOk(lines[i], validRegex) && Ordinary(lines[i])
    ensures Excluded(LinePatterns(lines, validRegex), file, engine) <==> LinesExclude(lines, |lines|, file)
  {
    hide Reads, LineOk, Ordinary, Excluded, LastHitExcludes, LinesExclude, ReadAsWritten, LinePatterns;
    OrdinaryReadAsWritten(lines, validRegex);
    MeansWhatItsTextSays(LinePatterns(lines, validRegex), validRegex, file, engine);
    PatternsSayTheLines(lines, validRegex, file);
  }

  /** Whether a build context leaves `path` out: compiled, matched, and the two files always sent aside. */
  method LeavesOut(lines: seq<string>, dockerfile: string, path: string, validRegex: seq<Token> -> bool, engine: Engine)
    returns (r: Result<bool, Error>)
    ensures r.Ok? <==> forall i :: 0 <= i < |lines| ==> LineOk(lines[i], validRegex)
    ensures r.Ok? && (path == dockerfile || path == ".dockerignore" || Clean(path) == ".") ==> !r.value
    ensures r.Ok? && path != dockerfile && path != ".dockerignore" && Clean(path) != "." && !Absolute(path) ==>
      (Reads(engine) && NEWLINE !in Clean(path) && (forall i :: 0 <= i < |lines| ==> Ordinary(lines[i])) ==>
         (r.value <==> LinesExclude(lines, |lines|, Clean(path))))
  {
    hide Clean, LineOk, Ordinary, LinePatterns, Excluded, LastHitExcludes, LinesExclude, HitsTested, Reads;
    hide LoneExclusion, PatternText;
    var matcher := NewMatcher(lines, validRegex);
    if matcher.Err? {
      return Err(matcher.error);
    }
    if path == dockerfile || path == ".dockerignore" {
      return Ok(false);
    }
    var matched := MatchesOrParentMatches(matcher.value, path, engine);
    if Reads(engine) && NEWLINE !in Clean(path) && (forall i :: 0 <= i < |lines| ==> Ordinary(lines[i])) {
      IgnoreFileMeansWhatItSays(lines, validRegex, Clean(path), engine);
    }
    r := Ok(matched);
  }

  // ----- what a line says

  predicate AllBlank(s: string) {
    forall i :: 0 <= i < |s| ==> IsWhitespace(s[i])
  }

  /** Text with nothing to trim. */
  predicate Tight(text: string) {
    text != "" && !IsWhitespace(text[0]) && !IsWhitespace(text[|text| - 1])
  }

  lemma {:induction false} TrimStartIs(before: string, text: string)
    requires AllBlank(before) && text != "" && !IsWhitespace(text[0])
    ensures TrimStart(before + text) == text
  {
    if before == "" {
      assert before + text == text;
    } else {
      assert (before + text)[1..] == before[1..] + text;
      TrimStartIs(before[1..], text);
    }
  }

  lemma {:induction false} TrimEndIs(text: string, after: string)
    requires AllBlank(after) && text != "" && !IsWhitespace(text[|text| - 1])
    ensures TrimEnd(text + after) == text
  {
    if after == "" {
      assert text + after == text;
    } else {
      var line := text + after;
      assert line[..|line| - 1] == text + after[..|after| - 1];
      TrimEndIs(text, after[..|after| - 1]);
    }
  }

  lemma TrimIs(before: string, text: string, after: string)
    requires AllBlank(before) && Tight(text) && AllBlank(after)
    ensures Trim(before + text + after) == text
  {
    hide IsWhitespace;
    assert before + text + after == before + (text + after);
    TrimStartIs(before, text + after);
    TrimEndIs(text, after);
  }

  /** A pattern written clean, with any blanks around it, is that pattern. */
  lemma LineSaysItsText(before: string, text: string, after: string)
    requires AllBlank(before) && Tight(text) && AllBlank(after)
    requires Clean(text) == text && text[0] != '!'
    ensures var line := before + text + after;
      !Blank(line) && !Negated(line) && PatternText(line) == text
  {
    hide Clean, IsWhitespace;
    TrimIs(before, text, after);
  }

  /** After a `!` it is that pattern too, and takes back what it hits. */
  lemma LineTakesBack(before: string, parts: seq<string>, after: string)
    requires AllBlank(before) && AllBlank(after) && parts != [] && Components(parts)
    requires (forall i :: 0 <= i < |parts| ==> parts[i] != "..") && Tight("!" + Join(parts, "/"))
    ensures var line := before + ("!" + Join(parts, "/")) + after;
      !Blank(line) && Negated(line) && PatternText(line) == Join(parts, "/")
  {
    var text := Join(parts, "/");
    MarkedIsClean(parts);
    hide Clean, IsWhitespace, Join;
    TrimIs(before, "!" + text, after);
    assert ("!" + text)[1..] == text;
  }

  lemma MarkedIsClean(parts: seq<string>)
    requires parts != [] && Components(parts) && forall i :: 0 <= i < |parts| ==> parts[i] != ".."
    ensures Clean("!" + Join(parts, "/")) == "!" + Join(parts, "/")
  {
    hide Clean, Join;
    var marked := ["!" + parts[0]] + parts[1..];
    MarkedJoin(parts);
    MarkedResolved(parts);
    CleanOfRendered(false, marked);
    assert Render(false, marked) == Join(marked, "/");
  }

  lemma MarkedResolved(parts: seq<string>)
    requires parts != [] && Components(parts) && forall i :: 0 <= i < |parts| ==> parts[i] != ".."
    ensures PathClean.Resolved(false, ["!" + parts[0]] + parts[1..])
  {
    var marked := ["!" + parts[0]] + parts[1..];
    assert marked[0][0] == '!';
    assert forall i :: 0 < i < |parts| ==> marked[i] == parts[i];
    MarkedComponent(parts[0]);
  }

  lemma MarkedComponent(x: string)
    requires Component(x)
    ensures Component("!" + x) && "!" + x != ".."
  {
    assert ("!" + x)[0] == '!';
  }

  lemma MarkedJoin(parts: seq<string>)
    requires parts != []
    ensures Join(["!" + parts[0]] + parts[1..], "/") == "!" + Join(parts, "/")
  {
    if |parts| == 1 {
      assert ["!" + parts[0]] + parts[1..] == ["!" + parts[0]];
    } else {
      JoinCons("!" + parts[0], parts[1..]);
      JoinCons(parts[0], parts[1..]);
      assert [parts[0]] + parts[1..] == parts;
      hide Join;
      Prepended("!", parts[0], "/" + Join(parts[1..], "/"));
    }
  }

  /** A `!` with nothing after it is refused. */
  lemma LoneMarkRefused(before: string, after: string, validRegex: seq<Token> -> bool)
    requires AllBlank(before) && AllBlank(after)
    ensures !LineOk(before + "!" + after, validRegex)
  {
    hide Clean, IsWhitespace;
    MarkIsClean();
    TrimIs(before, "!", after);
  }

  lemma MarkIsClean()
    ensures Clean("!") == "!" && Tight("!")
  {
    assert Component("!");
    CleanOfRendered(false, ["!"]);
  }

  lemma JoinCons(first: string, rest: seq<string>)
    requires rest != []
    ensures Join([first] + rest, "/") == first + ("/" + Join(rest, "/"))
  {
    assert ([first] + rest)[1..] == rest;
  }

  lemma Prepended(mark: string, a: string, b: string)
    ensures mark + a + b == mark + (a + b)
  {
  }

  /** An ignore file of one starred line: `a*b` leaves out what is, or lies below, `a`, a name's rest and `b`. */
  lemma StarredLine(a: string, b: string, file: string)
    requires Literal(a) && Literal(b) && Tight(a + "*" + b)
    requires Clean(a + "*" + b) == a + "*" + b && (a + "*" + b)[0] != '!'
    ensures LinesExclude([a + "*" + b], 1, file) <==>
      exists c, mid :: SelfOrAncestor(file, c) && c == a + mid + b && '/' !in mid
  {
    hide Clean, PatternText, Globs, Tight, Literal, Blank, Negated;
    var text := a + "*" + b;
    assert AllBlank("") && "" + text + "" == text;
    LineSaysItsText("", text, "");
    forall c ensures Globs(text, c) <==> exists mid :: c == a + mid + b && '/' !in mid {
      GlobStar(a, b, c);
    }
    assert LinesExclude([text], 1, file) <==> TextHits(text, file);
    if exists c, mid :: SelfOrAncestor(file, c) && c == a + mid + b && '/' !in mid {
      var c, mid :| SelfOrAncestor(file, c) && c == a + mid + b && '/' !in mid;
      assert Globs(text, c);
    }
  }
}
