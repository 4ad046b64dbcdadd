/** Converting a project's own files to TOML: where each goes, and what its includes then name. */
module Convert {
  import opened Common
  import opened PathClean

  /** An absolute cleaned path, as its components. */
  type AbsPath = seq<string>

  ghost predicate Absolute(p: AbsPath) {
    PathClean.Resolved(true, p)
  }

  function Directory(p: AbsPath): AbsPath
    requires p != []
  {
    p[..|p| - 1]
  }

  function FileName(p: AbsPath): string
    requires p != []
  {
    p[|p| - 1]
  }

  /** Where the last dot of a name is, if there is one. */
  function LastDot(name: string): (r: Option<nat>)
    ensures r.Some? ==> r.value < |name| && name[r.value] == '.'
  {
    if name == "" then None
    else if name[|name| - 1] == '.' then Some(|name| - 1)
    else LastDot(name[..|name| - 1])
  }

  /** A file name with its extension, if it has one, made `toml`. */
  function WithToml(name: string): string {
    match LastDot(name)
    case Some(i) => if i == 0 then name + ".toml" else name[..i] + ".toml"
    case None => name + ".toml"
  }

  const NATIVE_CONFIG_FILE := "ratect.toml"

  /** The root converts to `ratect.toml` beside it, an include to its own name with `.toml`. */
  function TargetOf(source: AbsPath, isRoot: bool): AbsPath
    requires source != []
  {
    Directory(source) + [if isRoot then NATIVE_CONFIG_FILE else WithToml(FileName(source))]
  }

  lemma TargetIsAFile(source: AbsPath, isRoot: bool)
    requires source != [] && Absolute(source)
    ensures var t := TargetOf(source, isRoot);
      && t != [] && Absolute(t) && Directory(t) == Directory(source)
      && FileName(t) != "~" && FileName(t) != ".."
  {
    var t := TargetOf(source, isRoot);
    var name := FileName(t);
    assert |name| >= 5;
    assert Component(FileName(source));
    assert Component(name) by {
      var stem := FileName(source);
      assert forall i :: 0 <= i < |name| - 5 && !isRoot ==> name[i] == stem[i];
      assert name[|name| - 5..] == ".toml";
      NoSlashInToml(name, stem, isRoot);
    }
    assert Directory(t) == Directory(source);
  }

  lemma NoSlashInToml(name: string, stem: string, isRoot: bool)
    requires name == if isRoot then NATIVE_CONFIG_FILE else WithToml(stem)
    requires '/' !in stem
    ensures '/' !in name
  {
    assert '/' !in ".toml" && '/' !in NATIVE_CONFIG_FILE;
  }

  datatype ConvertError =
    | OwnTarget(source: AbsPath)
    | SameTarget(first: AbsPath, second: AbsPath)
    | NotReached(resolved: AbsPath)

  /** Each owned file's target, root first. */
  function Targets(owned: seq<AbsPath>): seq<AbsPath>
    requires forall i :: 0 <= i < |owned| ==> owned[i] != []
  {
    seq(|owned|, i requires 0 <= i < |owned| => TargetOf(owned[i], i == 0))
  }

  ghost predicate Convertible(owned: seq<AbsPath>)
    requires forall i :: 0 <= i < |owned| ==> owned[i] != []
  {
    Unclashing(owned, Targets(owned), |owned|)
  }

  /** The table of sources and targets; refused when two files, or a file and itself, would clash. */
  method TargetTable(owned: seq<AbsPath>) returns (r: Result<map<AbsPath, AbsPath>, ConvertError>)
    requires forall i :: 0 <= i < |owned| ==> owned[i] != []
    requires NoDuplicates(owned)
    ensures r.Ok? <==> Convertible(owned)
    ensures r.Ok? ==> Tabled(owned, Targets(owned), |owned|, r.value)
    ensures r.Err? ==> RealClash(owned, Targets(owned), r.error)
  {
    var targets := Targets(owned);
    r := ClaimTargets(owned, targets);
  }

  /** The loop over files and their targets, whatever a path is. */
  method ClaimTargets(owned: seq<AbsPath>, targets: seq<AbsPath>)
    returns (r: Result<map<AbsPath, AbsPath>, ConvertError>)
    requires |owned| == |targets| && NoDuplicates(owned)
    ensures r.Ok? <==> Unclashing(owned, targets, |owned|)
    ensures r.Ok? ==> Tabled(owned, targets, |owned|, r.value)
    ensures r.Err? ==> RealClash(owned, targets, r.error)
  {
    hide Unclashing, Tabled, Claimed;
    var targetOf: map<AbsPath, AbsPath> := map[];
    var claimed: map<AbsPath, AbsPath> := map[];
    NothingClaimed(owned, targets);
    assert claimed.Keys == {};
    for i := 0 to |owned|
      invariant Unclashing(owned, targets, i)
      invariant Claimed(targets, i, claimed.Keys)
      invariant Tabled(owned, targets, i, targetOf)
      invariant forall t :: t in claimed ==> exists j :: 0 <= j < i && owned[j] == claimed[t] && targets[j] == t
    {
      ClaimOne(owned, targets, i, claimed.Keys, targetOf);
      if targets[i] == owned[i] {
        FewerClash(owned, targets, i);
        return Err(OwnTarget(owned[i]));
      }
      if targets[i] in claimed {
        FewerClash(owned, targets, i);
        return Err(SameTarget(claimed[targets[i]], owned[i]));
      }
      assert claimed[targets[i] := owned[i]].Keys == claimed.Keys + {targets[i]};
      claimed := claimed[targets[i] := owned[i]];
      targetOf := targetOf[owned[i] := targets[i]];
    }
    r := Ok(targetOf);
  }

  /** Among the first `n` files, none is its own target and no two share one. */
  ghost predicate Unclashing<P>(owned: seq<P>, targets: seq<P>, n: nat)
    requires n <= |owned| == |targets|
  {
    && (forall i :: 0 <= i < n ==> targets[i] != owned[i])
    && (forall i, j :: 0 <= i < j < n ==> targets[i] != targets[j])
  }

  /** The files an error names do clash. */
  ghost predicate RealClash(owned: seq<AbsPath>, targets: seq<AbsPath>, error: ConvertError)
    requires |owned| == |targets|
  {
    match error
    case OwnTarget(source) => exists i :: 0 <= i < |owned| && owned[i] == source && targets[i] == source
    case SameTarget(first, second) =>
      exists i, j :: 0 <= i < j < |owned| && owned[i] == first && owned[j] == second && targets[i] == targets[j]
    case NotReached(_) => false
  }

  ghost predicate Claimed<P(!new)>(targets: seq<P>, n: nat, claimed: set<P>)
    requires n <= |targets|
  {
    forall t :: t in claimed <==> exists j :: 0 <= j < n && targets[j] == t
  }

  ghost predicate Tabled<P(!new)>(owned: seq<P>, targets: seq<P>, n: nat, table: map<P, P>)
    requires n <= |owned| == |targets|
  {
    && (forall p :: p in table <==> exists j :: 0 <= j < n && owned[j] == p)
    && (forall j :: 0 <= j < n ==> owned[j] in table && table[owned[j]] == targets[j])
  }

  lemma NothingClaimed<P(!new)>(owned: seq<P>, targets: seq<P>)
    requires |owned| == |targets|
    ensures Unclashing(owned, targets, 0) && Claimed(targets, 0, {}) && Tabled(owned, targets, 0, map[])
  {
  }

  lemma ClaimOne<P(!new)>(owned: seq<P>, targets: seq<P>, i: nat, claimed: set<P>, table: map<P, P>)
    requires i < |owned| == |targets| && NoDuplicates(owned)
    requires Unclashing(owned, targets, i) && Claimed(targets, i, claimed) && Tabled(owned, targets, i, table)
    ensures Unclashing(owned, targets, i + 1) <==> targets[i] != owned[i] && targets[i] !in claimed
    ensures Claimed(targets, i + 1, claimed + {targets[i]})
    ensures Tabled(owned, targets, i + 1, table[owned[i] := targets[i]])
  {
  }

  lemma FewerClash<P>(owned: seq<P>, targets: seq<P>, i: nat)
    requires i < |owned| == |targets| && !Unclashing(owned, targets, i + 1)
    ensures !Unclashing(owned, targets, |owned|)
  {
  }

  // ----- include entries

  /**
   A local include's path as spelled. Empty components and every `.` are left aside but one:
   a leading `.`, which keeps a `~` after it from meaning the home directory.
   */
  datatype Spelled = Spelled(absolute: bool, dotted: bool, parts: seq<string>)

  /** Whether the path leads with `~`. */
  predicate FromHome(entry: Spelled) {
    !entry.absolute && !entry.dotted && entry.parts != [] && entry.parts[0] == "~"
  }

  /** Where a local include points, from the directory of the file declaring it. */
  function IncludeTarget(home: AbsPath, dir: AbsPath, entry: Spelled): AbsPath {
    if entry.absolute then Resolve(true, entry.parts, [])
    else if FromHome(entry) then Resolve(true, entry.parts[1..], home)
    else Resolve(true, entry.parts, dir)
  }

  /** Whether the spelling ends in an ordinary name. */
  predicate EndsInName(entry: Spelled) {
    entry.parts != [] && entry.parts[|entry.parts| - 1] != ".."
  }

  /** Rust's `with_file_name`: the last name replaced, or one added where there is none. */
  function WithFileName(entry: Spelled, name: string): Spelled {
    entry.(parts := (if EndsInName(entry) then entry.parts[..|entry.parts| - 1] else entry.parts) + [name])
  }

  /** A name at the end of what is resolved ends up at the end of the result. */
  lemma {:induction false} ResolveEndsInName(parts: seq<string>, name: string, kept: seq<string>)
    requires name != ".."
    ensures Resolve(true, parts + [name], kept) == Resolve(true, parts, kept) + [name]
    decreases |parts|
  {
    var all := parts + [name];
    if parts == [] {
      assert all[1..] == [];
    } else {
      assert all[0] == parts[0] && all[1..] == parts[1..] + [name];
      if parts[0] != ".." {
        ResolveEndsInName(parts[1..], name, kept + [parts[0]]);
      } else if kept == [] {
        ResolveEndsInName(parts[1..], name, []);
      } else if kept[|kept| - 1] == ".." {
        ResolveEndsInName(parts[1..], name, kept + [".."]);
      } else {
        ResolveEndsInName(parts[1..], name, kept[..|kept| - 1]);
      }
    }
  }

  /** The home directory spelled alone: its name is replaced, but not where it points. */
  predicate BareHome(entry: Spelled) {
    FromHome(entry) && |entry.parts| == 1
  }

  lemma RenamedName(home: AbsPath, dir: AbsPath, entry: Spelled, name: string)
    requires EndsInName(entry) && !BareHome(entry) && name != ".." && name != "~"
    ensures var source := IncludeTarget(home, dir, entry);
      source != [] && IncludeTarget(home, dir, WithFileName(entry, name)) == Directory(source) + [name]
  {
    var front, last := entry.parts[..|entry.parts| - 1], entry.parts[|entry.parts| - 1];
    var renamed := front + [name];
    assert entry.parts == front + [last];
    if FromHome(entry) {
      assert entry.parts[1..] == front[1..] + [last] && renamed[1..] == front[1..] + [name];
      ResolveEndsInName(front[1..], last, home);
      ResolveEndsInName(front[1..], name, home);
    } else {
      var base := if entry.absolute then [] else dir;
      ResolveEndsInName(front, last, base);
      ResolveEndsInName(front, name, base);
      assert front != [] ==> renamed[0] == entry.parts[0];
    }
  }

  lemma AddedName(home: AbsPath, dir: AbsPath, entry: Spelled, name: string)
    requires !EndsInName(entry) && name != ".." && name != "~"
    ensures IncludeTarget(home, dir, WithFileName(entry, name)) == IncludeTarget(home, dir, entry) + [name]
  {
    var longer := entry.parts + [name];
    if FromHome(entry) {
      assert longer[1..] == entry.parts[1..] + [name];
      ResolveEndsInName(entry.parts[1..], name, home);
    } else {
      ResolveEndsInName(entry.parts, name, if entry.absolute then [] else dir);
    }
  }

  /**
   A rewritten include names, from the converted file, the conversion of what it named:
   exactly when its spelling ends in an ordinary name, and is not a bare `~` (which names
   the home directory wherever it is written, while its rewriting is relative).
   */
  lemma IncludePreservedExactly(home: AbsPath, declaring: AbsPath, declaringIsRoot: bool,
                                source: AbsPath, sourceIsRoot: bool, entry: Spelled)
    requires declaring != [] && Absolute(declaring) && source != [] && Absolute(source) && Absolute(home)
    requires source == IncludeTarget(home, Directory(declaring), entry)
    ensures var from := Directory(TargetOf(declaring, declaringIsRoot));
      var target := TargetOf(source, sourceIsRoot);
      IncludeTarget(home, from, WithFileName(entry, FileName(target))) == target
      <==> EndsInName(entry) && (BareHome(entry) ==> Directory(declaring) == Directory(source))
  {
    TargetIsAFile(declaring, declaringIsRoot);
    TargetIsAFile(source, sourceIsRoot);
    var dir, target := Directory(declaring), TargetOf(source, sourceIsRoot);
    var name := FileName(target);
    assert target == Directory(source) + [name];
    if !EndsInName(entry) {
      AddedName(home, dir, entry, name);
      assert |source + [name]| != |target|;
    } else if BareHome(entry) {
      var renamed := WithFileName(entry, name);
      assert renamed.parts == [name];
      assert Resolve(true, [name], dir) == dir + [name] by {
        assert [name][1..] == [];
      }
      assert dir + [name] == target <==> dir == Directory(source) by {
        assert Directory(dir + [name]) == dir;
      }
    } else {
      RenamedName(home, dir, entry, name);
    }
  }

  /** Everything of the spelling but its last name. */
  predicate SpelledAlike(entry: Spelled, rewritten: Spelled) {
    && rewritten.absolute == entry.absolute && rewritten.dotted == entry.dotted && rewritten.parts != []
    && rewritten.parts[..|rewritten.parts| - 1]
       == if EndsInName(entry) then entry.parts[..|entry.parts| - 1] else entry.parts
  }

  lemma RenamedAlike(entry: Spelled, name: string)
    ensures SpelledAlike(entry, WithFileName(entry, name))
  {
  }

  /**
   Rewrites an include declared by owned file `i`. It keeps its spelling but for the last
   name, and leads from the converted file to the conversion of what it named exactly when
   that spelling allows.
   */
  method ConvertInclude(home: AbsPath, ghost owned: seq<AbsPath>, ghost i: nat, declaring: AbsPath, entry: Spelled,
                        targetOf: map<AbsPath, AbsPath>)
    returns (r: Result<Spelled, ConvertError>)
    requires Absolute(home) && forall k :: 0 <= k < |owned| ==> owned[k] != [] && Absolute(owned[k])
    requires Tabled(owned, Targets(owned), |owned|, targetOf) && i < |owned| && owned[i] == declaring
    ensures var resolved := IncludeTarget(home, Directory(declaring), entry);
      && (r.Ok? <==> resolved in owned)
      && (r.Err? ==> r.error == NotReached(resolved))
      && (r.Ok? ==> SpelledAlike(entry, r.value))
      && (r.Ok? ==>
            (IncludeTarget(home, Directory(Targets(owned)[i]), r.value) == targetOf[resolved]
             <==> EndsInName(entry) && (BareHome(entry) ==> Directory(declaring) == Directory(resolved))))
  {
    var resolved := IncludeTarget(home, Directory(declaring), entry);
    if resolved !in targetOf {
      return Err(NotReached(resolved));
    }
    ghost var j :| 0 <= j < |owned| && owned[j] == resolved;
    TargetIsAFile(resolved, j == 0);
    IncludePreservedExactly(home, declaring, i == 0, resolved, j == 0, entry);
    hide Absolute, IncludeTarget, TargetOf, BareHome;
    assert Targets(owned)[i] == TargetOf(declaring, i == 0);
    assert targetOf[resolved] == TargetOf(resolved, j == 0);
    r := Ok(WithFileName(entry, FileName(targetOf[resolved])));
    RenamedAlike(entry, FileName(targetOf[resolved]));
  }

  /** Over the owned files, an ordinary include leads to one conversion exactly where it led to one source. */
  lemma IncludeGraphPreserved(home: AbsPath, owned: seq<AbsPath>, i: nat, j: nat, entry: Spelled)
    requires forall k :: 0 <= k < |owned| ==> owned[k] != [] && Absolute(owned[k])
    requires Absolute(home) && Convertible(owned) && i < |owned| && j < |owned|
    requires IncludeTarget(home, Directory(owned[i]), entry) == owned[j]
    requires EndsInName(entry) && !BareHome(entry)
    ensures var targets := Targets(owned);
      var rewritten := WithFileName(entry, FileName(targets[j]));
      forall k :: 0 <= k < |owned| ==>
        (IncludeTarget(home, Directory(targets[i]), rewritten) == targets[k] <==> k == j)
  {
    IncludePreservedExactly(home, owned[i], i == 0, owned[j], j == 0, entry);
    hide IncludeTarget, WithFileName, TargetOf;
    var targets := Targets(owned);
    assert targets[i] == TargetOf(owned[i], i == 0) && targets[j] == TargetOf(owned[j], j == 0);
  }

  /** A spelling the load accepts and the rewriting breaks: `c.yml/x/..` is `c.yml`. */
  lemma DotDotSpellingBreaks()
    ensures IncludeTarget([], ["p"], Spelled(false, false, ["c.yml", "x", ".."])) == ["p", "c.yml"]
    ensures WithToml("c.yml") == "c.toml"
    ensures IncludeTarget([], ["p"], WithFileName(Spelled(false, false, ["c.yml", "x", ".."]), "c.toml"))
         == ["p", "c.yml", "c.toml"]
  {
    var dir := ["p"];
    var parts := ["c.yml", "x", ".."];
    assert Resolve(true, parts, dir) == ["p", "c.yml"] by {
      assert parts[1..] == ["x", ".."] && ["x", ".."][1..] == [".."] && [".."][1..] == [];
      assert dir + ["c.yml"] == ["p", "c.yml"] && ["p", "c.yml"] + ["x"] == ["p", "c.yml", "x"];
      assert ["p", "c.yml", "x"][..2] == ["p", "c.yml"];
    }
    assert parts[0] != "~";
    ResolveEndsInName(parts, "c.toml", dir);
    assert (parts + ["c.toml"])[0] != "~";
    assert LastDot("c.yml") == Some(1) by {
      assert "c.yml"[..4] == "c.ym" && "c.ym"[..3] == "c.y" && "c.y"[..2] == "c.";
    }
    assert "c.yml"[..1] == "c";
  }

  // ----- targets and sources

  lemma LastDotIs(name: string, i: nat)
    requires i < |name| && name[i] == '.' && forall j :: i < j < |name| ==> name[j] != '.'
    ensures LastDot(name) == Some(i)
    decreases |name|
  {
    if i < |name| - 1 {
      LastDotIs(name[..|name| - 1], i);
    }
  }

  lemma TomlOfStem(stem: string)
    requires stem != ""
    ensures WithToml(stem + ".toml") == stem + ".toml"
  {
    var name := stem + ".toml";
    LastDotIs(name, |stem|);
    assert name[..|stem|] == stem;
  }

  /** A name that already has the extension keeps it. */
  lemma WithTomlTwice(name: string)
    requires name != ""
    ensures WithToml(WithToml(name)) == WithToml(name)
  {
    match LastDot(name)
    case Some(i) => TomlOfStem(if i == 0 then name else name[..i]);
    case None => TomlOfStem(name);
  }

  lemma RootTargetKept()
    ensures WithToml(NATIVE_CONFIG_FILE) == NATIVE_CONFIG_FILE
  {
    TomlOfStem("ratect");
    assert "ratect" + ".toml" == NATIVE_CONFIG_FILE;
  }

  lemma SamePath(p: AbsPath, q: AbsPath)
    requires p != [] && q != [] && Directory(p) == Directory(q) && FileName(p) == FileName(q)
    ensures p == q
  {
    assert p == Directory(p) + [FileName(p)] && q == Directory(q) + [FileName(q)];
  }

  /** An included file that another file's target would overwrite is its own target. */
  lemma HitIncludeIsItsOwn(owned: seq<AbsPath>, i: nat, j: nat)
    requires forall k :: 0 <= k < |owned| ==> owned[k] != [] && Absolute(owned[k])
    requires i < |owned| && 0 < j < |owned| && Targets(owned)[i] == owned[j]
    ensures Targets(owned)[j] == owned[j]
  {
    var hit := owned[j];
    assert Targets(owned)[j] == TargetOf(hit, false) && Targets(owned)[i] == TargetOf(owned[i], i == 0);
    assert FileName(TargetOf(hit, false)) == WithToml(FileName(hit));
    assert Directory(TargetOf(hit, false)) == Directory(hit);
    if i == 0 {
      RootTargetKept();
    } else {
      assert FileName(hit) == WithToml(FileName(owned[i]));
      assert Component(FileName(owned[i]));
      WithTomlTwice(FileName(owned[i]));
    }
    SamePath(TargetOf(hit, false), hit);
  }

  /**
   A conversion that is not refused leaves every source alone exactly when no included file,
   with its extension made `toml`, is the root: the clash check compares targets with one
   another, and each only with its own source.
   */
  lemma SourcesSafeExactly(owned: seq<AbsPath>)
    requires forall k :: 0 <= k < |owned| ==> owned[k] != [] && Absolute(owned[k])
    requires Convertible(owned) && owned != []
    ensures (forall i, j :: 0 <= i < |owned| && 0 <= j < |owned| ==> Targets(owned)[i] != owned[j])
      <==> (forall i :: 0 < i < |owned| ==> TargetOf(owned[i], false) != owned[0])
  {
    var targets := Targets(owned);
    hide TargetOf, Absolute;
    assert forall i :: 0 < i < |owned| ==> targets[i] == TargetOf(owned[i], false);
    if forall i :: 0 < i < |owned| ==> TargetOf(owned[i], false) != owned[0] {
      forall i, j | 0 <= i < |owned| && 0 <= j < |owned| ensures targets[i] != owned[j] {
        if targets[i] == owned[j] && j > 0 {
          HitIncludeIsItsOwn(owned, i, j);
        }
      }
    }
  }

  /** A project that converts, and whose include is converted onto its root. */
  lemma RootOverwritten()
    ensures var owned := [["p", "app.toml"], ["p", "app.yml"]];
      Convertible(owned) && Targets(owned) == [["p", "ratect.toml"], ["p", "app.toml"]]
  {
    var owned := [["p", "app.toml"], ["p", "app.yml"]];
    LastDotIs("app.yml", 3);
    assert "app.yml"[..3] == "app" && "app" + ".toml" == "app.toml";
    assert WithToml("app.yml") == "app.toml";
    assert ["p", "app.toml"][..1] == ["p"] && ["p", "app.yml"][..1] == ["p"];
    assert Targets(owned)[0] == ["p", "ratect.toml"] && Targets(owned)[1] == ["p", "app.toml"];
    assert Targets(owned)[0][1] != Targets(owned)[1][1] by {
      assert "ratect.toml"[0] == 'r' && "app.toml"[0] == 'a';
    }
    assert Targets(owned)[1][1] != owned[1][1] by {
      assert |"app.toml"| == 8 && |"app.yml"| == 7;
    }
  }

  // ----- on the text

  lemma {:induction false} NoDot(name: string)
    requires '.' !in name
    ensures LastDot(name).None?
  {
    if name != "" {
      NoDot(name[..|name| - 1]);
    }
  }

  lemma LastDotOf(stem: string, extension: string)
    requires '.' !in extension
    ensures LastDot(stem + "." + extension) == Some(|stem|)
  {
    var name := stem + "." + extension;
    assert name[|stem|] == '.' && name[|stem| + 1..] == extension;
    forall j | |stem| < j < |name| ensures name[j] != '.' {
      assert name[j] == extension[j - |stem| - 1];
    }
    LastDotIs(name, |stem|);
  }

  /** An extension gives way to `toml`; a name without one, or that only leads with a dot, gains it. */
  lemma ExtensionReplaced(stem: string, extension: string)
    requires '.' !in extension
    ensures stem != "" ==> WithToml(stem + "." + extension) == stem + ".toml"
    ensures WithToml("." + extension) == "." + extension + ".toml"
    ensures WithToml(extension) == extension + ".toml"
  {
    hide LastDot;
    LastDotOf(stem, extension);
    LastDotOf("", extension);
    assert "" + "." + extension == "." + extension;
    assert (stem + "." + extension)[..|stem|] == stem;
    NoDot(extension);
  }

  /** An include as it is written. */
  function Text(entry: Spelled): string {
    (if entry.absolute then "/" else if entry.dotted then "./" else "") + Join(entry.parts, "/")
  }

  lemma JoinedFromBase(base: AbsPath, parts: seq<string>)
    requires Absolute(base) && Components(parts)
    ensures Clean(Render(true, base) + "/" + Join(parts, "/")) == Render(true, Resolve(true, parts, base))
  {
    PartsAppend(Render(true, base), Join(parts, "/"));
    RenderReadsBack(true, base);
    PartsOfJoin(parts);
    assert [] + base == base;
    ResolveKeeps(true, base, []);
    ResolveAppend(true, base, parts, []);
    var path := Render(true, base) + "/" + Join(parts, "/");
    assert PathClean.Absolute(path);
  }

  /** Where the text of an include leads: from the top, from home after a leading `~`, or from its own directory. */
  lemma IncludeTargetOnText(home: AbsPath, dir: AbsPath, entry: Spelled)
    requires Absolute(home) && Absolute(dir) && Components(entry.parts)
    ensures var target := Render(true, IncludeTarget(home, dir, entry));
      if entry.absolute then target == Clean(Text(entry))
      else if FromHome(entry) then
        target == Clean(Render(true, home) + "/" + Join(entry.parts[1..], "/"))
      else target == Clean(Render(true, dir) + "/" + Text(entry))
  {
    hide Resolve, Render, Clean;
    var joined := Join(entry.parts, "/");
    if entry.absolute {
      FromTheTop(entry.parts);
      assert Text(entry) == "/" + joined;
    } else if FromHome(entry) {
      JoinedFromBase(home, entry.parts[1..]);
    } else {
      JoinedFromBase(dir, entry.parts);
      if entry.dotted {
        DotVanishes(Render(true, dir), joined);
        assert Render(true, dir) + "/" + Text(entry) == Render(true, dir) + "/./" + joined;
      } else {
        assert Text(entry) == joined;
      }
    }
  }

  lemma FromTheTop(parts: seq<string>)
    requires Components(parts)
    ensures Clean("/" + Join(parts, "/")) == Render(true, Resolve(true, parts, []))
  {
    var text := Join(parts, "/");
    assert "/" + text == "" + "/" + text;
    PartsAppend("", text);
    NoPart();
    PartsOfJoin(parts);
    hide Join, PartsOf, Resolve, Render;
    assert PartsOf("/" + text) == [] + parts == parts;
    assert PathClean.Absolute("/" + text);
  }

  /** The text leads with `~` and nothing else before the first slash. */
  lemma HomeOnText(entry: Spelled)
    requires Components(entry.parts)
    ensures FromHome(entry) <==> Text(entry) == "~" || StartsWith(Text(entry), "~/")
  {
    var text := Text(entry);
    if entry.absolute {
      assert text[0] == '/';
    } else if entry.dotted {
      assert text[0] == '.';
    } else if |entry.parts| == 1 {
      assert text == entry.parts[0];
      NoLeadingSlashPart(text);
    } else if entry.parts != [] {
      FirstPart(entry.parts);
    }
  }

  lemma FirstPart(parts: seq<string>)
    requires Components(parts) && |parts| > 1
    ensures var text := Join(parts, "/");
      parts[0] == "~" <==> text == "~" || StartsWith(text, "~/")
  {
    var text := Join(parts, "/");
    var first := parts[0];
    assert text == first + "/" + Join(parts[1..], "/");
    assert text[|first|] == '/' && text[..|first|] == first;
    if StartsWith(text, "~/") {
      assert text[0] == '~' && text[1] == '/';
      assert |first| == 1 by {
        assert '/' !in first;
        if |first| > 1 {
          SlashInside(first, text);
        }
      }
    }
  }

  lemma NoLeadingSlashPart(x: string)
    requires '/' !in x
    ensures !StartsWith(x, "~/")
  {
    if |x| > 1 {
      assert x[1] != '/';
    }
  }

  lemma SlashInside(first: string, text: string)
    requires |first| > 1 && first <= text && text[1] == '/'
    ensures '/' in first
  {
    assert first[1] == text[1];
  }
}
