/** What the options of a command line are, on the text of the arguments themselves. */
module CommandText {
  import opened Common
  import opened CommandLine

  /** One dash, then letters. */
  predicate IsCluster(arg: string) {
    |arg| > 1 && arg[0] == '-' && arg[1] != '-'
  }

  predicate NoneTakes(letters: string, takes: TakesValue) {
    forall i :: 0 <= i < |letters| ==> !takes(Short(letters[i]))
  }

  /** `-..c` and then `attached`, where `c` is the first letter that takes a value. */
  ghost predicate Spells(arg: string, before: string, c: char, attached: string, takes: TakesValue) {
    arg == "-" + (before + [c] + attached) && IsCluster(arg) && NoneTakes(before, takes) && takes(Short(c))
  }

  /** `--name` or `-..c`, whose value is the next argument. */
  ghost predicate WaitsForNext(arg: string, takes: TakesValue) {
    || (exists name :: name != "" && '=' !in name && arg == "--" + name && takes(Long(name)))
    || (exists before, c :: Spells(arg, before, c, "", takes))
  }

  /** `--name=` or `-..c=`, with nothing after it. */
  ghost predicate EndsInEquals(arg: string, takes: TakesValue) {
    || (exists name :: '=' !in name && arg == "--" + name + "=" && takes(Long(name)))
    || (exists before, c :: Spells(arg, before, c, "=", takes))
  }

  /** An argument that would pass for an option. */
  predicate LooksLikeAnOption(arg: string) {
    arg != "" && arg[0] == '-' && arg != "-"
  }

  /** Options end at `--`, at a lone dash, and at anything that does not lead with one. */
  lemma OptionsEndAt(arg: string)
    ensures EndsOptions(arg) <==> arg == "--" || arg == "-" || arg == "" || arg[0] != '-'
  {
    if |arg| > 1 {
      assert arg[..2] == [arg[0], arg[1]];
    }
  }

  // ----- clusters

  lemma {:induction false} FirstTaking(before: string, c: char, attached: string, takes: TakesValue)
    requires NoneTakes(before, takes) && takes(Short(c))
    ensures FindValueShort(before + [c] + attached, takes) == Some((c, attached))
  {
    var shorts := before + [c] + attached;
    if before == "" {
      assert shorts[1..] == attached;
    } else {
      assert shorts[1..] == before[1..] + [c] + attached;
      FirstTaking(before[1..], c, attached, takes);
    }
  }

  lemma {:induction false} WhereTaking(shorts: string, takes: TakesValue) returns (before: string)
    ensures match FindValueShort(shorts, takes)
      case Some((c, attached)) => shorts == before + [c] + attached && NoneTakes(before, takes) && takes(Short(c))
      case None => NoneTakes(shorts, takes)
  {
    if shorts == "" || takes(Short(shorts[0])) {
      before := "";
      assert shorts != "" ==> shorts == "" + [shorts[0]] + shorts[1..];
    } else {
      var rest := WhereTaking(shorts[1..], takes);
      before := [shorts[0]] + rest;
      assert shorts == [shorts[0]] + shorts[1..];
    }
  }

  lemma ClusterIsShorts(arg: string)
    ensures IsCluster(arg) <==> IsShorts(arg)
  {
    if |arg| > 1 {
      assert arg[..2] == [arg[0], arg[1]];
    }
  }

  /** The letter found and what is attached to it, on the text. */
  lemma SpelledExactly(arg: string, c: char, attached: string, takes: TakesValue)
    requires IsShorts(arg)
    ensures FindValueShort(arg[1..], takes) == Some((c, attached)) <==>
      exists before :: Spells(arg, before, c, attached, takes)
  {
    ClusterIsShorts(arg);
    var shorts := arg[1..];
    assert arg == "-" + shorts;
    hide FindValueShort, NoneTakes, IsCluster;
    if FindValueShort(shorts, takes) == Some((c, attached)) {
      var before := WhereTaking(shorts, takes);
      assert Spells(arg, before, c, attached, takes);
    }
    if exists before :: Spells(arg, before, c, attached, takes) {
      var before :| Spells(arg, before, c, attached, takes);
      assert ("-" + (before + [c] + attached))[1..] == before + [c] + attached;
      FirstTaking(before, c, attached, takes);
    }
  }

  lemma ClusterTakes(arg: string, attached: string, takes: TakesValue)
    requires IsShorts(arg)
    ensures (var found := FindValueShort(arg[1..], takes); found.Some? && found.value.1 == attached) <==>
      exists before, c :: Spells(arg, before, c, attached, takes)
  {
    hide FindValueShort, Spells;
    var found := FindValueShort(arg[1..], takes);
    if found.Some? && found.value.1 == attached {
      SpelledExactly(arg, found.value.0, attached, takes);
    }
    if exists before, c :: Spells(arg, before, c, attached, takes) {
      var before, c :| Spells(arg, before, c, attached, takes);
      SpelledExactly(arg, c, attached, takes);
    }
  }

  lemma LongIsNoCluster(arg: string, before: string, c: char, attached: string, takes: TakesValue)
    requires IsLong(arg)
    ensures !Spells(arg, before, c, attached, takes)
  {
    assert arg[1] == "--"[1];
  }

  // ----- which values would be misread

  lemma WaitsOnText(arg: string, takes: TakesValue)
    requires !EndsOptions(arg)
    ensures ValueOption(arg, takes).Some? <==> WaitsForNext(arg, takes)
  {
    hide FindValueShort, Spells, SplitOnce;
    if IsLong(arg) {
      LongWaits(arg, takes);
      forall before, c ensures !Spells(arg, before, c, "", takes) {
        LongIsNoCluster(arg, before, c, "", takes);
      }
    } else {
      forall name ensures arg != "--" + name {
        assert StartsWith("--" + name, "--");
      }
      ClusterTakes(arg, "", takes);
    }
  }

  lemma LongWaits(arg: string, takes: TakesValue)
    requires IsLong(arg) && arg != "--"
    ensures SplitOnce(arg[2..], '=').None? && takes(Long(arg[2..])) <==>
      exists name :: name != "" && '=' !in name && arg == "--" + name && takes(Long(name))
  {
    var name := arg[2..];
    assert arg == "--" + name;
    forall other | arg == "--" + other ensures other == name {
      assert ("--" + other)[2..] == other;
    }
  }

  lemma LongEquals(arg: string, takes: TakesValue)
    requires IsLong(arg)
    ensures (var cut := SplitOnce(arg[2..], '='); cut.Some? && cut.value.1 == "" && takes(Long(cut.value.0))) <==>
      exists name :: '=' !in name && arg == "--" + name + "=" && takes(Long(name))
  {
    var rest := arg[2..];
    assert arg == "--" + rest;
    forall name | '=' !in name && arg == "--" + name + "=" ensures SplitOnce(rest, '=') == Some((name, "")) {
      assert ("--" + name + "=")[2..] == name + "=" + "";
      SplitOnceAt(name, '=', "");
    }
    var cut := SplitOnce(rest, '=');
    if cut.Some? && cut.value.1 == "" {
      assert arg == "--" + cut.value.0 + "=";
    }
  }

  lemma EmptyOnText(arg: string, takes: TakesValue)
    requires !EndsOptions(arg)
    ensures EmptyValue(arg, takes).Some? <==> EndsInEquals(arg, takes)
  {
    hide FindValueShort, Spells, SplitOnce;
    if IsLong(arg) {
      LongEquals(arg, takes);
      forall before, c ensures !Spells(arg, before, c, "=", takes) {
        LongIsNoCluster(arg, before, c, "=", takes);
      }
    } else {
      forall name ensures arg != "--" + name + "=" {
        assert StartsWith("--" + name + "=", "--");
      }
      ClusterTakes(arg, "=", takes);
    }
  }

  /** An argument read as an option has an empty value after `=`, or waits for one that looks like an option. */
  ghost predicate MisreadText(args: seq<string>, i: nat, takes: TakesValue) {
    && i < |args|
    && (EndsInEquals(args[i], takes)
        || (WaitsForNext(args[i], takes) && i + 1 < |args| && LooksLikeAnOption(args[i + 1])))
  }

  lemma MisreadOnText(args: seq<string>, i: nat, takes: TakesValue)
    requires ReadAsOption(args, i, takes)
    ensures Misread(args, i, takes) <==> MisreadText(args, i, takes)
  {
    OptionsAreOptions(args, i, takes);
    WaitsOnText(args[i], takes);
    EmptyOnText(args[i], takes);
    hide EmptyValue, ValueOption, EndsInEquals, WaitsForNext, ReadAsOption, EndsOptions;
    if i + 1 < |args| {
      assert args[i..][1] == args[i + 1];
      assert StartsWith(args[i + 1], "-") <==> args[i + 1] != "" && args[i + 1][0] == '-';
    }
  }

  /** A command line is refused exactly when, on its text, one of its options has a value that would be misread. */
  lemma RefusedOnText(args: seq<string>, takes: TakesValue)
    ensures FirstRefusal(args, takes).Some? <==>
      exists i: nat :: ReadAsOption(args, i, takes) && MisreadText(args, i, takes)
  {
    RefusedExactly(args, takes);
    hide FirstRefusal, ReadAsOption, Misread, MisreadText;
    forall i: nat | ReadAsOption(args, i, takes)
      ensures Misread(args, i, takes) <==> MisreadText(args, i, takes)
    {
      MisreadOnText(args, i, takes);
    }
  }

  // ----- which words are read

  function Shorts(letters: string): seq<Word> {
    seq(|letters|, i requires 0 <= i < |letters| => Short(letters[i]))
  }

  /** A long option is its name, with or without a value after `=`. */
  lemma LongWord(name: string, value: string, takes: TakesValue)
    requires '=' !in name
    ensures OptionWords("--" + name + "=" + value, takes) == [Long(name)]
    ensures name != "" ==> OptionWords("--" + name, takes) == [Long(name)]
  {
    var arg := "--" + name + "=" + value;
    assert arg[..2] == "--" && arg[2..] == name + "=" + value;
    SplitOnceAt(name, '=', value);
    assert ("--" + name)[..2] == "--" && ("--" + name)[2..] == name;
  }

  lemma {:induction false} LettersRead(before: string, c: char, attached: string, takes: TakesValue)
    requires NoneTakes(before, takes)
    ensures takes(Short(c)) ==> ShortWords(before + [c] + attached, takes) == Shorts(before) + [Short(c)]
    ensures ShortWords(before, takes) == Shorts(before)
  {
    var shorts := before + [c] + attached;
    if before == "" {
      assert shorts[0] == c;
    } else {
      assert shorts[1..] == before[1..] + [c] + attached && shorts[0] == before[0];
      LettersRead(before[1..], c, attached, takes);
      assert Shorts(before) == [Short(before[0])] + Shorts(before[1..]);
    }
  }

  /** A cluster is its letters, up to the first that takes a value. */
  lemma ClusterWords(arg: string, before: string, c: char, attached: string, takes: TakesValue)
    requires IsCluster(arg)
    ensures Spells(arg, before, c, attached, takes) ==> OptionWords(arg, takes) == Shorts(before) + [Short(c)]
    ensures NoneTakes(arg[1..], takes) ==> OptionWords(arg, takes) == Shorts(arg[1..])
  {
    ClusterIsShorts(arg);
    hide NoneTakes, IsCluster;
    if Spells(arg, before, c, attached, takes) {
      assert arg[1..] == before + [c] + attached;
      LettersRead(before, c, attached, takes);
    }
    if NoneTakes(arg[1..], takes) {
      LettersRead(arg[1..], c, attached, takes);
    }
  }

  /** A line is not a run when an option before the task asks for something else. */
  lemma NotARunMeans(args: seq<string>, takes: TakesValue)
    ensures !IsARun(args, takes) <==>
      var words := OptionsOnly(Words(args, takes));
      || Long("list-tasks") in words || Long("clean") in words || Long("clean-cache") in words
      || Long("upgrade") in words || Short('T') in words
  {
    hide Words, OptionsOnly;
    var listed := REPLACES_A_TASK;
    assert listed[0] == Long("list-tasks") && listed[1] == Long("clean") && listed[2] == Long("clean-cache");
    assert listed[3] == Long("upgrade") && listed[4] == Short('T');
  }
}
