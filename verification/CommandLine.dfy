/** Two separately written readers of one command line, and why they agree. */
module CommandLine {
  import opened Common

  datatype Word = Long(name: string) | Short(short: char) | Positional(text: string)

  type TakesValue = Word -> bool

  predicate IsLong(arg: string) {
    StartsWith(arg, "--")
  }

  predicate IsShorts(arg: string) {
    !IsLong(arg) && |arg| > 1 && arg[0] == '-'
  }

  /** Where options stop: a task name, or `--`. */
  predicate EndsOptions(arg: string) {
    arg == "--" || (!IsLong(arg) && !IsShorts(arg))
  }

  // ----- `command_line_words`

  /** The short options read off a cluster, up to the first that takes a value. */
  function ShortWords(shorts: string, takes: TakesValue): seq<Word> {
    if shorts == "" then []
    else [Short(shorts[0])] + if takes(Short(shorts[0])) then [] else ShortWords(shorts[1..], takes)
  }

  /** Whether the cluster's value, if it takes one, is the next argument. */
  predicate ShortsTakeNext(shorts: string, takes: TakesValue) {
    shorts != "" && if takes(Short(shorts[0])) then |shorts| == 1 else ShortsTakeNext(shorts[1..], takes)
  }

  function OptionWords(arg: string, takes: TakesValue): seq<Word>
    requires !EndsOptions(arg)
  {
    if IsLong(arg) then
      match SplitOnce(arg[2..], '=')
      case Some((name, _)) => [Long(name)]
      case None => [Long(arg[2..])]
    else ShortWords(arg[1..], takes)
  }

  predicate TakesNext(arg: string, takes: TakesValue)
    requires !EndsOptions(arg)
  {
    if IsLong(arg) then SplitOnce(arg[2..], '=').None? && takes(Long(arg[2..]))
    else ShortsTakeNext(arg[1..], takes)
  }

  /** How many arguments an option uses up: itself, and its value if that is separate and there. */
  function Used(args: seq<string>, takes: TakesValue): (n: nat)
    requires args != [] && !EndsOptions(args[0])
    ensures 0 < n <= |args|
  {
    if TakesNext(args[0], takes) && |args| > 1 then 2 else 1
  }

  /** The words a whole line reads as; nothing after `--` is read. */
  function Words(args: seq<string>, takes: TakesValue): seq<Word> {
    if args == [] || args[0] == "--" then []
    else if EndsOptions(args[0]) then [Positional(args[0])] + Words(args[1..], takes)
    else OptionWords(args[0], takes) + Words(args[Used(args, takes)..], takes)
  }

  lemma ShortStep(words: seq<Word>, shorts: string, i: nat, takes: TakesValue)
    requires i < |shorts|
    ensures var word := Short(shorts[i]);
      && words + ShortWords(shorts[i..], takes)
         == words + [word] + (if takes(word) then [] else ShortWords(shorts[i + 1..], takes))
      && ShortsTakeNext(shorts[i..], takes)
         == if takes(word) then i + 1 == |shorts| else ShortsTakeNext(shorts[i + 1..], takes)
  {
    assert shorts[i..][1..] == shorts[i + 1..];
    assert words + ([Short(shorts[i])] + ShortWords(shorts[i + 1..], takes))
        == words + [Short(shorts[i])] + ShortWords(shorts[i + 1..], takes);
  }

  /** The inner loop over one cluster of short options. */
  method ReadShorts(shorts: string, takes: TakesValue) returns (words: seq<Word>, takesNext: bool)
    ensures words == ShortWords(shorts, takes) && takesNext == ShortsTakeNext(shorts, takes)
  {
    hide ShortWords, ShortsTakeNext;
    words := [];
    ghost var all := ShortWords(shorts, takes);
    assert shorts[0..] == shorts;
    var i := 0;
    while i < |shorts|
      invariant 0 <= i <= |shorts|
      invariant all == words + ShortWords(shorts[i..], takes)
      invariant ShortsTakeNext(shorts, takes) == ShortsTakeNext(shorts[i..], takes)
    {
      ShortStep(words, shorts, i, takes);
      words := words + [Short(shorts[i])];
      if takes(Short(shorts[i])) {
        return words, i + 1 == |shorts|;
      }
      i := i + 1;
    }
    NoShorts(shorts[i..], takes);
    takesNext := false;
  }

  lemma NoShorts(shorts: string, takes: TakesValue)
    requires shorts == ""
    ensures ShortWords(shorts, takes) == [] && !ShortsTakeNext(shorts, takes)
  {
  }

  lemma OptionStep(words: seq<Word>, args: seq<string>, i: nat, takes: TakesValue)
    requires i < |args| && !EndsOptions(args[i])
    ensures words + Words(args[i..], takes)
         == words + OptionWords(args[i], takes) + Words(args[i + Used(args[i..], takes)..], takes)
  {
    var rest := args[i..];
    assert rest[Used(rest, takes)..] == args[i + Used(rest, takes)..];
    hide OptionWords;
  }

  lemma PositionalStep(words: seq<Word>, args: seq<string>, i: nat, takes: TakesValue)
    requires i < |args| && args[i] != "--" && EndsOptions(args[i])
    ensures words + Words(args[i..], takes) == words + [Positional(args[i])] + Words(args[i + 1..], takes)
  {
    assert args[i..][1..] == args[i + 1..];
  }

  lemma NothingMore(args: seq<string>, i: nat, takes: TakesValue)
    requires i <= |args| && (i < |args| ==> args[i] == "--")
    ensures Words(args[i..], takes) == []
  {
  }

  method CommandLineWords(args: seq<string>, takes: TakesValue) returns (words: seq<Word>)
    ensures words == Words(args, takes)
  {
    hide Words, ShortWords, ShortsTakeNext;
    words := [];
    assert args[0..] == args && [] + Words(args, takes) == Words(args, takes);
    var i := 0;
    while i < |args|
      invariant 0 <= i <= |args|
      invariant Words(args, takes) == words + Words(args[i..], takes)
    {
      var arg := args[i];
      if arg == "--" {
        break;
      }
      if EndsOptions(arg) {
        PositionalStep(words, args, i, takes);
      } else {
        OptionStep(words, args, i, takes);
      }
      i := i + 1;
      if IsLong(arg) {
        match SplitOnce(arg[2..], '=')
        case Some((name, _)) =>
          words := words + [Long(name)];
        case None =>
          words := words + [Long(arg[2..])];
          if takes(Long(arg[2..])) && i < |args| {
            i := i + 1;
          }
      } else if |arg| > 1 && arg[0] == '-' {
        var shorts, takesNext := ReadShorts(arg[1..], takes);
        words := words + shorts;
        if takesNext && i < |args| {
          i := i + 1;
        }
      } else {
        words := words + [Positional(arg)];
      }
    }
    NothingMore(args, i, takes);
    assert words + [] == words;
  }

  // ----- `split_at_task`

  datatype Refusal =
    | EmptyAfterEquals(option: string)
    | ValueStartsWithDash(option: string, value: string)

  /** The first option of a cluster that takes a value, with what is attached after it. */
  function FindValueShort(shorts: string, takes: TakesValue): Option<(char, string)> {
    if shorts == "" then None
    else if takes(Short(shorts[0])) then Some((shorts[0], shorts[1..]))
    else FindValueShort(shorts[1..], takes)
  }

  /** The option this argument ends with that takes the next one as its value, if any. */
  function ValueOption(arg: string, takes: TakesValue): Option<string>
    requires !EndsOptions(arg)
  {
    if IsLong(arg) then
      if SplitOnce(arg[2..], '=').None? && takes(Long(arg[2..])) then Some("--" + arg[2..]) else None
    else
      match FindValueShort(arg[1..], takes)
      case Some((short, attached)) => if attached == "" then Some("-" + [short]) else None
      case None => None
  }

  /** What the argument itself is refused for: an empty value after `=`. */
  function EmptyValue(arg: string, takes: TakesValue): Option<Refusal>
    requires !EndsOptions(arg)
  {
    if IsLong(arg) then
      match SplitOnce(arg[2..], '=')
      case Some((name, value)) =>
        if value == "" && takes(Long(name)) then Some(EmptyAfterEquals("--" + name)) else None
      case None => None
    else
      match FindValueShort(arg[1..], takes)
      case Some((short, attached)) => if attached == "=" then Some(EmptyAfterEquals("-" + [short])) else None
      case None => None
  }

  /** What the argument after it is refused for: a separate value that looks like an option. */
  function DashValue(args: seq<string>, takes: TakesValue): Option<Refusal>
    requires args != [] && !EndsOptions(args[0])
  {
    var option := ValueOption(args[0], takes);
    if option.Some? && |args| > 1 && StartsWith(args[1], "-") && args[1] != "-"
    then Some(ValueStartsWithDash(option.value, args[1])) else None
  }

  /** How many arguments the options take up. */
  function OptionsEnd(args: seq<string>, takes: TakesValue): (n: nat)
    ensures n <= |args|
  {
    if args == [] || EndsOptions(args[0]) then 0
    else
      var step := if ValueOption(args[0], takes).Some? && |args| > 1 then 2 else 1;
      step + OptionsEnd(args[step..], takes)
  }

  /** The first misread value among the options. */
  function FirstRefusal(args: seq<string>, takes: TakesValue): Option<Refusal> {
    if args == [] || EndsOptions(args[0]) then None
    else
      var step := if ValueOption(args[0], takes).Some? && |args| > 1 then 2 else 1;
      Or(EmptyValue(args[0], takes), Or(DashValue(args, takes), FirstRefusal(args[step..], takes)))
  }

  /** Argument `i` is read as an option, not as another option's value and not after the options. */
  ghost predicate ReadAsOption(args: seq<string>, i: nat, takes: TakesValue)
    decreases |args|
  {
    if args == [] || EndsOptions(args[0]) then false
    else
      var step := if ValueOption(args[0], takes).Some? && |args| > 1 then 2 else 1;
      i == 0 || (i >= step && ReadAsOption(args[step..], i - step, takes))
  }

  lemma {:induction false} OptionsAreOptions(args: seq<string>, i: nat, takes: TakesValue)
    requires ReadAsOption(args, i, takes)
    ensures i < OptionsEnd(args, takes) && !EndsOptions(args[i])
    decreases |args|
  {
    hide EndsOptions, ValueOption;
    var step := if ValueOption(args[0], takes).Some? && |args| > 1 then 2 else 1;
    if i != 0 {
      OptionsAreOptions(args[step..], i - step, takes);
    }
  }

  /** Option `i` has a value that would be misread. */
  ghost predicate Misread(args: seq<string>, i: nat, takes: TakesValue)
    requires ReadAsOption(args, i, takes)
  {
    OptionsAreOptions(args, i, takes);
    EmptyValue(args[i], takes).Some? || DashValue(args[i..], takes).Some?
  }

  ghost predicate SomeMisread(args: seq<string>, takes: TakesValue) {
    exists i: nat :: ReadAsOption(args, i, takes) && Misread(args, i, takes)
  }

  lemma MisreadLater(args: seq<string>, step: nat, i: nat, takes: TakesValue)
    requires step <= i && step <= |args| && ReadAsOption(args, i, takes) && ReadAsOption(args[step..], i - step, takes)
    ensures Misread(args, i, takes) <==> Misread(args[step..], i - step, takes)
  {
    OptionsAreOptions(args, i, takes);
    assert args[step..][i - step..] == args[i..];
  }

  /** A command line is refused exactly when one of its options has a value that would be misread. */
  lemma {:induction false} RefusedExactly(args: seq<string>, takes: TakesValue)
    ensures FirstRefusal(args, takes).Some? <==> SomeMisread(args, takes)
    decreases |args|
  {
    hide EndsOptions, ValueOption, EmptyValue, DashValue;
    if args != [] && !EndsOptions(args[0]) {
      var step := if ValueOption(args[0], takes).Some? && |args| > 1 then 2 else 1;
      var later := args[step..];
      RefusedExactly(later, takes);
      assert args[0..] == args && ReadAsOption(args, 0, takes);
      if SomeMisread(later, takes) {
        var j: nat :| ReadAsOption(later, j, takes) && Misread(later, j, takes);
        assert ReadAsOption(args, step + j, takes);
        MisreadLater(args, step, step + j, takes);
      }
      if SomeMisread(args, takes) {
        var i: nat :| ReadAsOption(args, i, takes) && Misread(args, i, takes);
        if i != 0 {
          assert ReadAsOption(later, i - step, takes);
          MisreadLater(args, step, i, takes);
        }
      }
    }
  }

  /** Splits the arguments, program name first, where the options stop. */
  method SplitAtTask(arguments: seq<string>, takes: TakesValue)
    returns (options: seq<string>, rest: seq<string>, refused: Option<Refusal>)
    ensures arguments == [] ==> options == [] && rest == [] && refused == None
    ensures arguments != [] ==>
      var end := 1 + OptionsEnd(arguments[1..], takes);
      options == arguments[..end] && rest == arguments[end..] && refused == FirstRefusal(arguments[1..], takes)
  {
    refused := None;
    var index := 1;
    ghost var args := if arguments == [] then [] else arguments[1..];
    while index < |arguments|
      invariant 1 <= index && (arguments != [] ==> index <= |arguments|)
      invariant arguments != [] ==> OptionsEnd(args, takes) == index - 1 + OptionsEnd(arguments[index..], takes)
      invariant arguments != [] ==> FirstRefusal(args, takes) == Or(refused, FirstRefusal(arguments[index..], takes))
      invariant arguments == [] ==> refused == None
    {
      var argument := arguments[index];
      ghost var left := arguments[index..];
      assert left[1..] == arguments[index + 1..];
      if EndsOptions(argument) {
        break;
      }
      var empty, option := EmptyValue(argument, takes), ValueOption(argument, takes);
      refused := Or(refused, empty);
      if option.Some? && index + 1 < |arguments| {
        assert left[2..] == arguments[index + 2..] && left[1] == arguments[index + 1];
        var value := arguments[index + 1];
        if StartsWith(value, "-") && value != "-" {
          refused := Or(refused, Some(ValueStartsWithDash(option.value, value)));
        }
        index := index + 1;
      }
      index := index + 1;
    }
    var end := if index < |arguments| then index else |arguments|;
    options, rest := arguments[..end], arguments[end..];
  }

  // ----- the two agree

  lemma {:induction false} ShortsAgree(shorts: string, takes: TakesValue)
    ensures ShortsTakeNext(shorts, takes) <==>
      FindValueShort(shorts, takes).Some? && FindValueShort(shorts, takes).value.1 == ""
  {
    if shorts != "" {
      ShortsAgree(shorts[1..], takes);
    }
  }

  /** Both readers skip the same values. */
  lemma SameValueSkipped(arg: string, takes: TakesValue)
    requires !EndsOptions(arg)
    ensures TakesNext(arg, takes) <==> ValueOption(arg, takes).Some?
  {
    if !IsLong(arg) {
      ShortsAgree(arg[1..], takes);
    }
  }

  predicate IsOption(w: Word) {
    !w.Positional?
  }

  /** The words before the first positional: what `is_a_run` looks at. */
  function OptionsOnly(words: seq<Word>): seq<Word> {
    if words == [] || words[0].Positional? then [] else [words[0]] + OptionsOnly(words[1..])
  }

  lemma {:induction false} OptionsOnlyAppend(front: seq<Word>, back: seq<Word>)
    requires forall w :: w in front ==> IsOption(w)
    ensures OptionsOnly(front + back) == front + OptionsOnly(back)
  {
    if front == [] {
      assert front + back == back;
    } else {
      OptionsOnlyAppend(front[1..], back);
      var all := front + back;
      assert front[0] in front && all[0] == front[0] && all[1..] == front[1..] + back;
      assert [front[0]] + (front[1..] + OptionsOnly(back)) == front + OptionsOnly(back);
    }
  }

  lemma {:induction false} ShortWordsAreOptions(shorts: string, takes: TakesValue)
    ensures forall w :: w in ShortWords(shorts, takes) ==> IsOption(w)
  {
    if shorts != "" {
      ShortWordsAreOptions(shorts[1..], takes);
    }
  }

  lemma OptionWordsAreOptions(arg: string, takes: TakesValue)
    requires !EndsOptions(arg)
    ensures forall w :: w in OptionWords(arg, takes) ==> IsOption(w)
  {
    if !IsLong(arg) {
      ShortWordsAreOptions(arg[1..], takes);
    }
  }

  /** The splitter stops exactly at the reader's first positional, `--` or the end. */
  lemma StopsTogether(args: seq<string>, takes: TakesValue)
    ensures var end := OptionsEnd(args, takes);
      && (end < |args| ==> EndsOptions(args[end]))
      && Words(args[end..], takes)
         == if end == |args| || args[end] == "--" then [] else [Positional(args[end])] + Words(args[end + 1..], takes)
  {
    OptionsEndStops(args, takes);
    var end := OptionsEnd(args, takes);
    if end < |args| {
      assert args[end..][1..] == args[end + 1..];
    }
  }

  lemma {:induction false} OptionsEndStops(args: seq<string>, takes: TakesValue)
    ensures OptionsEnd(args, takes) < |args| ==> EndsOptions(args[OptionsEnd(args, takes)])
    decreases |args|
  {
    if args != [] && !EndsOptions(args[0]) {
      SameValueSkipped(args[0], takes);
      OptionsEndStops(args[Used(args, takes)..], takes);
    }
  }

  /** The words of the options part are exactly the words of the whole line before that point. */
  lemma {:induction false} OptionsPartReadsTheSame(args: seq<string>, takes: TakesValue)
    ensures var end := OptionsEnd(args, takes);
      && (forall w :: w in Words(args[..end], takes) ==> IsOption(w))
      && Words(args, takes) == Words(args[..end], takes) + Words(args[end..], takes)
    decreases |args|
  {
    hide Words, OptionWords;
    var end := OptionsEnd(args, takes);
    if args == [] || EndsOptions(args[0]) {
      assert args[..0] == [] && args[0..] == args;
      NothingMore([], 0, takes);
      assert [] + Words(args, takes) == Words(args, takes);
    } else {
      var n := Used(args, takes);
      var rest := args[n..];
      SameValueSkipped(args[0], takes);
      assert end == n + OptionsEnd(rest, takes);
      hide OptionsEnd, Used, EndsOptions;
      OptionsPartReadsTheSame(rest, takes);
      OptionWordsAreOptions(args[0], takes);
      OptionsFront(args, end, takes);
      assert rest[end - n..] == args[end..] && rest[..end - n] == args[n..end];
      WordsReassociate(OptionWords(args[0], takes), Words(args[n..end], takes), Words(args[end..], takes));
    }
  }

  lemma WordsReassociate(a: seq<Word>, b: seq<Word>, c: seq<Word>)
    ensures a + (b + c) == (a + b) + c
    ensures forall w :: w in a + b <==> w in a || w in b
  {
  }

  /** Reading the options part first reads its first option as the whole line does. */
  lemma OptionsFront(args: seq<string>, end: nat, takes: TakesValue)
    requires args != [] && !EndsOptions(args[0]) && Used(args, takes) <= end <= |args|
    ensures var n := Used(args, takes);
      && Words(args, takes) == OptionWords(args[0], takes) + Words(args[n..], takes)
      && Words(args[..end], takes) == OptionWords(args[0], takes) + Words(args[n..end], takes)
  {
    var n := Used(args, takes);
    var front := args[..end];
    assert front[0] == args[0] && Used(front, takes) == n && front[n..] == args[n..end];
  }

  const REPLACES_A_TASK := [Long("list-tasks"), Long("clean"), Long("clean-cache"), Long("upgrade"), Short('T')]

  /** `is_a_run`, on the words of a line. */
  predicate IsARun(args: seq<string>, takes: TakesValue) {
    forall w :: w in OptionsOnly(Words(args, takes)) ==> w !in REPLACES_A_TASK
  }

  /** So a line is a run exactly when its options part is one. */
  lemma RunDecidedByOptions(args: seq<string>, takes: TakesValue)
    ensures OptionsOnly(Words(args, takes)) == Words(args[..OptionsEnd(args, takes)], takes)
    ensures IsARun(args, takes) <==> IsARun(args[..OptionsEnd(args, takes)], takes)
  {
    var end := OptionsEnd(args, takes);
    var options := Words(args[..end], takes);
    OptionsPartReadsTheSame(args, takes);
    StopsTogether(args, takes);
    OptionsOnlyAppend(options, Words(args[end..], takes));
    OptionsOnlyAppend(options, []);
    hide Words;
    assert options + [] == options;
  }
}
