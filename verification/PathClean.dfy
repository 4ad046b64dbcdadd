/** Lexical path cleaning, as the `path-clean` crate does it for `/`-separated paths. */
module PathClean {
  import opened Common

  /** A component that stands for itself. */
  predicate Component(c: string) {
    c != "" && c != "." && '/' !in c
  }

  predicate Components(parts: seq<string>) {
    forall i :: 0 <= i < |parts| ==> Component(parts[i])
  }

  function DropEmpty(parts: seq<string>): (r: seq<string>) {
    if parts == [] then []
    else (if parts[0] == "" || parts[0] == "." then [] else [parts[0]]) + DropEmpty(parts[1..])
  }

  /** A path's components; `..` is kept, empty ones and `.` are not. */
  function PartsOf(path: string): seq<string> {
    DropEmpty(Split(path, '/'))
  }

  predicate Absolute(path: string) {
    path != "" && path[0] == '/'
  }

  /** Resolves each `..` against what is already kept. */
  function Resolve(absolute: bool, parts: seq<string>, kept: seq<string>): seq<string>
    decreases |parts|
  {
    if parts == [] then kept
    else if parts[0] != ".." then Resolve(absolute, parts[1..], kept + [parts[0]])
    else if kept == [] then Resolve(absolute, parts[1..], if absolute then [] else [".."])
    else if kept[|kept| - 1] == ".." then Resolve(absolute, parts[1..], kept + [".."])
    else Resolve(absolute, parts[1..], kept[..|kept| - 1])
  }

  function Render(absolute: bool, parts: seq<string>): string {
    if absolute then "/" + Join(parts, "/")
    else if parts == [] then "."
    else Join(parts, "/")
  }

  /** Where the last slash is, if there is one: Rust's `rfind`. */
  function LastSlash(path: string): (r: Option<nat>)
    ensures r.None? ==> forall j :: 0 <= j < |path| ==> path[j] != '/'
    ensures r.Some? ==> r.value < |path| && path[r.value] == '/' && forall j :: r.value < j < |path| ==> path[j] != '/'
  {
    if path == "" then None
    else if path[|path| - 1] == '/' then Some(|path| - 1)
    else LastSlash(path[..|path| - 1])
  }

  function Clean(path: string): string {
    Render(Absolute(path), Resolve(Absolute(path), PartsOf(path), []))
  }

  /** Components with `..` only at the front, and nowhere in an absolute path. */
  ghost predicate Resolved(absolute: bool, parts: seq<string>) {
    && Components(parts)
    && (forall i :: 0 <= i < |parts| && parts[i] == ".." ==> !absolute && forall j :: 0 <= j < i ==> parts[j] == "..")
  }

  lemma {:induction false} DropEmptyLeavesComponents(parts: seq<string>)
    requires forall i :: 0 <= i < |parts| ==> '/' !in parts[i]
    ensures Components(DropEmpty(parts))
  {
    if parts != [] {
      DropEmptyLeavesComponents(parts[1..]);
    }
  }

  lemma PartsAreComponents(path: string)
    ensures Components(PartsOf(path))
  {
    SplitHasNoSeparator(path, '/');
    DropEmptyLeavesComponents(Split(path, '/'));
  }

  lemma {:induction false} DropEmptyKeepsComponents(parts: seq<string>)
    requires Components(parts)
    ensures DropEmpty(parts) == parts
  {
    if parts != [] {
      DropEmptyKeepsComponents(parts[1..]);
    }
  }

  lemma {:induction false} ResolveResolves(absolute: bool, parts: seq<string>, kept: seq<string>)
    requires Components(parts) && Resolved(absolute, kept)
    ensures Resolved(absolute, Resolve(absolute, parts, kept))
    decreases |parts|
  {
    if parts != [] {
      var rest := parts[1..];
      if parts[0] != ".." {
        ResolveResolves(absolute, rest, kept + [parts[0]]);
      } else if kept == [] {
        ResolveResolves(absolute, rest, if absolute then [] else [".."]);
      } else if kept[|kept| - 1] == ".." {
        ResolveResolves(absolute, rest, kept + [".."]);
      } else {
        ResolveResolves(absolute, rest, kept[..|kept| - 1]);
      }
    }
  }

  /** What is already resolved stays as it is. */
  lemma {:induction false} ResolveKeeps(absolute: bool, parts: seq<string>, kept: seq<string>)
    requires Resolved(absolute, kept + parts)
    ensures Resolve(absolute, parts, kept) == kept + parts
    decreases |parts|
  {
    if parts == [] {
      assert kept + parts == kept;
    } else {
      assert (kept + parts)[|kept|] == parts[0];
      assert kept + [parts[0]] + parts[1..] == kept + parts;
      if parts[0] == ".." {
        assert !absolute;
        if kept == [] {
          assert kept + [parts[0]] == [".."];
        } else {
          assert (kept + parts)[|kept| - 1] == kept[|kept| - 1] == "..";
        }
      }
      ResolveKeeps(absolute, parts[1..], kept + [parts[0]]);
    }
  }

  lemma PartsOfJoin(parts: seq<string>)
    requires Components(parts)
    ensures PartsOf(Join(parts, "/")) == parts
    ensures parts != [] ==> Split(Join(parts, "/"), '/') == parts
  {
    if parts == [] {
      assert Split("", '/') == [""];
      assert DropEmpty([""]) == [];
    } else {
      SplitJoin(parts, '/');
      DropEmptyKeepsComponents(parts);
    }
  }

  lemma JoinIsRelative(parts: seq<string>)
    requires Components(parts) && parts != []
    ensures Join(parts, "/") != "" && Join(parts, "/")[0] == parts[0][0] != '/'
  {
    assert parts[0][0] in parts[0];
  }

  /** A rendered path reads back as the components it was rendered from. */
  lemma RenderReadsBack(absolute: bool, parts: seq<string>)
    requires Components(parts)
    ensures Absolute(Render(absolute, parts)) == absolute
    ensures PartsOf(Render(absolute, parts)) == parts
  {
    PartsOfJoin(parts);
    if absolute {
      var text := Join(parts, "/");
      assert ("/" + text)[1..] == text;
      assert Split("/" + text, '/') == [""] + Split(text, '/');
      assert ([""] + Split(text, '/'))[1..] == Split(text, '/');
    } else if parts == [] {
      assert Split(".", '/') == ["."] by { SplitOfPlain(".", '/'); }
      assert DropEmpty(["."]) == [];
    } else {
      JoinIsRelative(parts);
    }
  }

  lemma CleanParts(path: string)
    ensures Resolved(Absolute(path), Resolve(Absolute(path), PartsOf(path), []))
  {
    PartsAreComponents(path);
    ResolveResolves(Absolute(path), PartsOf(path), []);
  }

  /** A rendering of resolved components is already clean. */
  lemma CleanOfRendered(absolute: bool, parts: seq<string>)
    requires Resolved(absolute, parts)
    ensures Clean(Render(absolute, parts)) == Render(absolute, parts)
  {
    hide Render, Resolve, PartsOf, Absolute;
    RenderReadsBack(absolute, parts);
    assert [] + parts == parts;
    ResolveKeeps(absolute, parts, []);
  }

  /** Cleaning twice is cleaning once. */
  lemma CleanIdempotent(path: string)
    ensures Clean(Clean(path)) == Clean(path)
  {
    CleanParts(path);
    CleanOfRendered(Absolute(path), Resolve(Absolute(path), PartsOf(path), []));
  }

  lemma {:induction false} JoinEnds(parts: seq<string>)
    requires Components(parts) && parts != []
    ensures var text := Join(parts, "/"); text != "" && text[|text| - 1] != '/'
  {
    if |parts| == 1 {
      assert parts[0][|parts[0]| - 1] in parts[0];
    } else {
      JoinEnds(parts[1..]);
    }
  }

  /** A cleaned path ends in a slash only if it is the root. */
  lemma CleanNeverEndsInSlash(path: string)
    ensures Clean(path) != "" && (EndsWith(Clean(path), "/") ==> Clean(path) == "/")
  {
    CleanParts(path);
    var parts := Resolve(Absolute(path), PartsOf(path), []);
    var cleaned := Clean(path);
    if parts != [] {
      JoinEnds(parts);
      var text := Join(parts, "/");
      assert cleaned[|cleaned| - 1] == text[|text| - 1];
      assert cleaned[|cleaned| - 1..][0] == text[|text| - 1];
    }
  }

  // ----- what cleaning takes away

  lemma {:induction false} DropEmptyAppend(a: seq<string>, b: seq<string>)
    ensures DropEmpty(a + b) == DropEmpty(a) + DropEmpty(b)
  {
    if a == [] {
      assert a + b == b;
    } else {
      assert (a + b)[1..] == a[1..] + b;
      DropEmptyAppend(a[1..], b);
    }
  }

  lemma PartsAppend(a: string, b: string)
    ensures PartsOf(a + "/" + b) == PartsOf(a) + PartsOf(b)
  {
    SplitAppend(a, '/', b);
    DropEmptyAppend(Split(a, '/'), Split(b, '/'));
  }

  lemma {:induction false} ResolveAppend(absolute: bool, a: seq<string>, b: seq<string>, kept: seq<string>)
    ensures Resolve(absolute, a + b, kept) == Resolve(absolute, b, Resolve(absolute, a, kept))
    decreases |a|
  {
    if a == [] {
      assert a + b == b;
    } else {
      assert (a + b)[0] == a[0] && (a + b)[1..] == a[1..] + b;
      if a[0] != ".." {
        ResolveAppend(absolute, a[1..], b, kept + [a[0]]);
      } else if kept == [] {
        ResolveAppend(absolute, a[1..], b, if absolute then [] else [".."]);
      } else if kept[|kept| - 1] == ".." {
        ResolveAppend(absolute, a[1..], b, kept + [".."]);
      } else {
        ResolveAppend(absolute, a[1..], b, kept[..|kept| - 1]);
      }
    }
  }

  /** Whatever lies between `a` and `b` and comes to nothing can be left out. */
  lemma NothingBetween(a: string, middle: seq<string>, path: string, b: string)
    requires PartsOf(path) == PartsOf(a) + middle + PartsOf(b)
    requires Absolute(path) == Absolute(a + "/" + b)
    requires forall kept :: Resolve(Absolute(path), middle, kept) == kept
    ensures Clean(path) == Clean(a + "/" + b)
  {
    hide Resolve, Render;
    var absolute := Absolute(path);
    PartsAppend(a, b);
    ResolveAppend(absolute, PartsOf(a) + middle, PartsOf(b), []);
    ResolveAppend(absolute, PartsOf(a), middle, []);
    ResolveAppend(absolute, PartsOf(a), PartsOf(b), []);
  }

  lemma NamePart(x: string)
    requires Component(x)
    ensures PartsOf(x) == [x]
  {
    SplitOfPlain(x, '/');
    DropEmptyKeepsComponents([x]);
  }

  lemma UpIsComponent()
    ensures Component("..")
  {
  }

  lemma UpCancels(absolute: bool, x: string, kept: seq<string>)
    requires x != ".."
    ensures Resolve(absolute, [x, ".."], kept) == kept
  {
    assert [x, ".."][1..] == [".."] && [".."][1..] == [];
    assert (kept + [x])[..|kept|] == kept;
  }

  /** `..` takes away the name before it. */
  lemma DotDotCancels(a: string, x: string, b: string)
    requires Component(x) && x != ".."
    ensures Clean(a + "/" + x + "/../" + b) == Clean(a + "/" + b)
  {
    hide PartsOf, Resolve, Clean, Component;
    var path := a + "/" + x + "/../" + b;
    assert path == a + "/" + (x + "/" + (".." + "/" + b));
    PartsAppend(a, x + "/" + (".." + "/" + b));
    PartsAppend(x, ".." + "/" + b);
    PartsAppend("..", b);
    NamePart(x);
    NamePart("..") by { UpIsComponent(); }
    assert PartsOf(path) == PartsOf(a) + [x, ".."] + PartsOf(b);
    forall kept ensures Resolve(Absolute(path), [x, ".."], kept) == kept {
      UpCancels(Absolute(path), x, kept);
    }
    NothingBetween(a, [x, ".."], path, b);
  }

  /** A `.`, or nothing at all, between slashes takes away nothing. */
  lemma DotVanishes(a: string, b: string)
    ensures Clean(a + "/./" + b) == Clean(a + "/" + b)
    ensures Clean(a + "//" + b) == Clean(a + "/" + b)
  {
    assert a + "/./" + b == a + "/" + ("." + "/" + b) && a + "//" + b == a + "/" + ("" + "/" + b);
    PartsAppend(a, "." + "/" + b);
    PartsAppend(".", b);
    PartsAppend(a, "" + "/" + b);
    PartsAppend("", b);
    NoPart();
    assert PartsOf(a) + [] == PartsOf(a);
    NothingBetween(a, [], a + "/./" + b, b);
    NothingBetween(a, [], a + "//" + b, b);
  }

  lemma NoPart()
    ensures PartsOf(".") == [] && PartsOf("") == []
  {
    SplitOfPlain(".", '/');
    assert ["."][1..] == [] && [""][1..] == [];
  }

  /** There is nothing above the root. */
  lemma DotDotAtRoot(b: string)
    ensures Clean("/../" + b) == Clean("/" + b)
  {
    assert "/../" + b == "" + "/" + (".." + "/" + b) && "/" + b == "" + "/" + b;
    PartsAppend("", ".." + "/" + b);
    PartsAppend("..", b);
    PartsAppend("", b);
    NamePart("..");
    NoPart();
    assert [] + PartsOf(b) == PartsOf(b) && [] + ([".."] + PartsOf(b)) == [".."] + PartsOf(b);
    ResolveAppend(true, [".."], PartsOf(b), []);
    assert [".."][1..] == [] && Resolve(true, [".."], []) == [];
    hide PartsOf, Resolve, Render;
    assert Absolute("/../" + b) && Absolute("/" + b);
  }
}
