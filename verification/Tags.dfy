/** The opening tag a style becomes, and the reading that takes it back. */
module Tags {
  import opened Common
  import opened Styles

  const COLOUR_NAMES: seq<string> := ["black", "red", "green", "yellow", "blue", "magenta", "cyan", "white"]

  function ColourName(index: nat): string
    requires index < 8
  {
    COLOUR_NAMES[index]
  }

  /** The name of a themed colour; there are sixteen of them. */
  function ColourWord(index: nat): string {
    if index < 8 then ColourName(index)
    else if index < 16 then "bright-" + ColourName(index - 8)
    else ""
  }

  function Flag(on: bool, word: string): seq<string> {
    if on then [word] else []
  }

  function ThemedClass(prefix: string, colour: Option<Colour>): seq<string> {
    match colour
    case Some(Indexed(i)) => [prefix + ColourWord(i)]
    case _ => []
  }

  function InlineProperty(name: string, colour: Option<Colour>): seq<string> {
    match colour
    case Some(Hex(text)) => [name + text]
    case _ => []
  }

  function ClassWords(s: Style): seq<string> {
    Flag(s.bold, "ansi-bold") + (Flag(s.dim, "ansi-dim") + (Flag(s.italic, "ansi-italic")
    + (Flag(s.underline, "ansi-underline")
    + (ThemedClass("ansi-fg-", s.fg) + (ThemedClass("ansi-bg-", s.bg) + [])))))
  }

  function PropertyWords(s: Style): seq<string> {
    InlineProperty("color:", s.fg) + (InlineProperty("background-color:", s.bg) + [])
  }

  function SpanOpen(s: Style): string {
    var classes := ClassWords(s);
    var properties := PropertyWords(s);
    "<span"
    + (if classes != [] then " class=\"" + Join(classes, " ") + "\"" else "")
    + (if properties != [] then " style=\"" + Join(properties, ";") + "\"" else "")
    + ">"
  }

  // ----- reading a tag

  /** The themed colour of this name, from `index` on. */
  function ColourNamed(name: string, index: nat): Option<Colour>
    decreases 16 - index
  {
    if index >= 16 then None
    else if ColourWord(index) == name then Some(Indexed(index))
    else ColourNamed(name, index + 1)
  }

  function WithClass(s: Style, word: string): Style {
    if word == "ansi-bold" then s.(bold := true)
    else if word == "ansi-dim" then s.(dim := true)
    else if word == "ansi-italic" then s.(italic := true)
    else if word == "ansi-underline" then s.(underline := true)
    else if "ansi-fg-" <= word then s.(fg := ColourNamed(word[8..], 0))
    else if "ansi-bg-" <= word then s.(bg := ColourNamed(word[8..], 0))
    else s
  }

  function WithProperty(s: Style, word: string): Style {
    if "color:" <= word then s.(fg := Some(Hex(word[6..])))
    else if "background-color:" <= word then s.(bg := Some(Hex(word[17..])))
    else s
  }

  function WithAll(s: Style, words: seq<string>, one: (Style, string) -> Style): Style
    decreases |words|
  {
    if words == [] then s else WithAll(one(s, words[0]), words[1..], one)
  }

  /** The style an opening tag gives the text after it; none if it is not such a tag. */
  function StyleOf(tag: string): Option<Style> {
    var parts := Split(tag, '"');
    if |parts| == 3 && parts[0] == "<span class=" && parts[2] == ">" then
      Some(WithAll(DEFAULT, Split(parts[1], ' '), WithClass))
    else if |parts| == 3 && parts[0] == "<span style=" && parts[2] == ">" then
      Some(WithAll(DEFAULT, Split(parts[1], ';'), WithProperty))
    else if |parts| == 5 && parts[0] == "<span class=" && parts[2] == " style=" && parts[4] == ">" then
      Some(WithAll(WithAll(DEFAULT, Split(parts[1], ' '), WithClass), Split(parts[3], ';'), WithProperty))
    else None
  }

  // ----- the words are told apart

  lemma NamesDistinct(i: nat, j: nat)
    requires i < j < 8
    ensures ColourName(i) != ColourName(j)
  {
    assert COLOUR_NAMES[0][2] == 'a' && COLOUR_NAMES[2][2] == 'e' && COLOUR_NAMES[7][2] == 'i';
    assert COLOUR_NAMES[4][0] == 'b' && COLOUR_NAMES[6][0] == 'c';
  }

  lemma NamesNotBright(i: nat, rest: string)
    requires i < 8
    ensures ColourName(i) != "bright-" + rest
  {
    assert ("bright-" + rest)[0] == 'b' && ("bright-" + rest)[1] == 'r';
  }

  lemma BrightDistinct(a: string, b: string)
    requires a != b
    ensures "bright-" + a != "bright-" + b
  {
    assert ("bright-" + a)[7..] == a && ("bright-" + b)[7..] == b;
  }

  lemma ColourWordsDistinct(i: nat, j: nat)
    requires i < j < 16
    ensures ColourWord(i) != ColourWord(j)
  {
    hide ColourName;
    if j < 8 {
      NamesDistinct(i, j);
    } else if i < 8 {
      NamesNotBright(i, ColourName(j - 8));
    } else {
      NamesDistinct(i - 8, j - 8);
      BrightDistinct(ColourName(i - 8), ColourName(j - 8));
    }
  }

  lemma {:induction false} ColourNamedIs(i: nat, from: nat)
    requires from <= i < 16
    ensures ColourNamed(ColourWord(i), from) == Some(Indexed(i))
    decreases i - from
  {
    hide ColourWord;
    if from < i {
      ColourWordsDistinct(from, i);
      ColourNamedIs(i, from + 1);
    }
  }

  lemma {:induction false} WithAllOptional(s: Style, head: seq<string>, rest: seq<string>,
                                           one: (Style, string) -> Style)
    requires |head| <= 1
    ensures WithAll(s, head + rest, one) == WithAll(Applied(s, head, one), rest, one)
  {
    if head == [] {
      assert head + rest == rest;
    } else {
      assert (head + rest)[1..] == rest;
    }
  }

  // ----- each word does to a style what it says

  /** The colour, if it is a themed one. */
  function Themed(colour: Option<Colour>): Option<Colour> {
    if colour.Some? && colour.value.Indexed? then colour else None
  }

  function Applied(s: Style, words: seq<string>, one: (Style, string) -> Style): Style {
    if words == [] then s else one(s, words[0])
  }

  lemma FlagsRead(s: Style)
    ensures WithClass(s, "ansi-bold") == s.(bold := true)
    ensures WithClass(s, "ansi-dim") == s.(dim := true)
    ensures WithClass(s, "ansi-italic") == s.(italic := true)
    ensures WithClass(s, "ansi-underline") == s.(underline := true)
  {
    hide ColourNamed;
  }

  lemma ForegroundWord(s: Style, name: string)
    ensures WithClass(s, "ansi-fg-" + name) == s.(fg := ColourNamed(name, 0))
  {
    hide ColourNamed;
    var word := "ansi-fg-" + name;
    assert word[5] == 'f' && word[8..] == name && word[..8] == "ansi-fg-";
  }

  lemma BackgroundWord(s: Style, name: string)
    ensures WithClass(s, "ansi-bg-" + name) == s.(bg := ColourNamed(name, 0))
  {
    hide ColourNamed;
    var word := "ansi-bg-" + name;
    assert word[5] == 'b' && word[6] == 'g' && word[8..] == name && word[..8] == "ansi-bg-";
  }

  lemma ForegroundRead(s: Style, colour: Option<Colour>)
    requires ColourOk(colour)
    ensures Applied(s, ThemedClass("ansi-fg-", colour), WithClass)
         == if Themed(colour).Some? then s.(fg := colour) else s
  {
    hide WithClass, ColourNamed, ColourWord;
    if Themed(colour).Some? {
      ForegroundWord(s, ColourWord(colour.value.index));
      ColourNamedIs(colour.value.index, 0);
    }
  }

  lemma BackgroundRead(s: Style, colour: Option<Colour>)
    requires ColourOk(colour)
    ensures Applied(s, ThemedClass("ansi-bg-", colour), WithClass)
         == if Themed(colour).Some? then s.(bg := colour) else s
  {
    hide WithClass, ColourNamed, ColourWord;
    if Themed(colour).Some? {
      BackgroundWord(s, ColourWord(colour.value.index));
      ColourNamedIs(colour.value.index, 0);
    }
  }

  lemma PropertiesRead(s: Style, text: string)
    ensures WithProperty(s, "color:" + text) == s.(fg := Some(Hex(text)))
    ensures WithProperty(s, "background-color:" + text) == s.(bg := Some(Hex(text)))
  {
    var fg, bg := "color:" + text, "background-color:" + text;
    assert fg[..6] == "color:" && fg[6..] == text;
    assert bg[0] == 'b' && bg[..17] == "background-color:" && bg[17..] == text;
  }

  /** Reading a style's class words gives all of it but the inline colours. */
  lemma ClassWordsRead(s: Style)
    requires StyleOk(s)
    ensures WithAll(DEFAULT, ClassWords(s), WithClass) == s.(fg := Themed(s.fg), bg := Themed(s.bg))
  {
    hide WithAll, WithClass, ColourOk, ThemedClass;
    var words5 := ThemedClass("ansi-bg-", s.bg) + [];
    var words4 := ThemedClass("ansi-fg-", s.fg) + words5;
    var words3 := Flag(s.underline, "ansi-underline") + words4;
    var words2 := Flag(s.italic, "ansi-italic") + words3;
    var words1 := Flag(s.dim, "ansi-dim") + words2;
    var s1 := DEFAULT.(bold := s.bold);
    var s2 := s1.(dim := s.dim);
    var s3 := s2.(italic := s.italic);
    var s4 := s3.(underline := s.underline);
    var s5 := s4.(fg := Themed(s.fg));
    FlagStep(DEFAULT, s.bold, "ansi-bold", words1, s1) by { FlagsRead(DEFAULT); }
    FlagStep(s1, s.dim, "ansi-dim", words2, s2) by { FlagsRead(s1); }
    FlagStep(s2, s.italic, "ansi-italic", words3, s3) by { FlagsRead(s2); }
    FlagStep(s3, s.underline, "ansi-underline", words4, s4) by { FlagsRead(s3); }
    ThemedStep("ansi-fg-", s.fg);
    ThemedStep("ansi-bg-", s.bg);
    WithAllOptional(s4, ThemedClass("ansi-fg-", s.fg), words5, WithClass);
    ForegroundRead(s4, s.fg);
    WithAllOptional(s5, ThemedClass("ansi-bg-", s.bg), [], WithClass);
    BackgroundRead(s5, s.bg);
    WithNone(s5.(bg := Themed(s.bg)), WithClass);
  }

  lemma WithNone(s: Style, one: (Style, string) -> Style)
    ensures WithAll(s, [], one) == s
  {
  }

  lemma ThemedStep(prefix: string, colour: Option<Colour>)
    ensures |ThemedClass(prefix, colour)| <= 1
  {
  }

  lemma FlagStep(s: Style, on: bool, word: string, rest: seq<string>, next: Style)
    requires next == if on then WithClass(s, word) else s
    ensures WithAll(s, Flag(on, word) + rest, WithClass) == WithAll(next, rest, WithClass)
  {
    hide WithAll, WithClass;
    WithAllOptional(s, Flag(on, word), rest, WithClass);
  }

  /** Reading its property words then gives the inline colours too. */
  lemma PropertyWordsRead(s: Style, t: Style)
    requires t == s.(fg := Themed(s.fg), bg := Themed(s.bg))
    ensures WithAll(t, PropertyWords(s), WithProperty) == s
  {
    hide WithProperty, WithAll;
    var last := InlineProperty("background-color:", s.bg) + [];
    WithAllOptional(t, InlineProperty("color:", s.fg), last, WithProperty);
    var t1 := t.(fg := s.fg);
    if s.fg.Some? && s.fg.value.Hex? {
      PropertiesRead(t, s.fg.value.text);
    }
    WithAllOptional(t1, InlineProperty("background-color:", s.bg), [], WithProperty);
    if s.bg.Some? && s.bg.value.Hex? {
      PropertiesRead(t1, s.bg.value.text);
    }
    WithNone(s, WithProperty);
  }

  // ----- no word holds a character that ends one

  predicate PlainChar(c: char) {
    'a' <= c <= 'z' || '0' <= c <= '9' || c == '-' || c == ':' || c == '#'
  }

  predicate Plain(word: string) {
    forall i :: 0 <= i < |word| ==> PlainChar(word[i])
  }

  predicate AllPlain(words: seq<string>) {
    forall i :: 0 <= i < |words| ==> Plain(words[i])
  }

  lemma PlainAppend(a: string, b: string)
    requires Plain(a) && Plain(b)
    ensures Plain(a + b)
  {
  }

  lemma ColourWordPlain(index: nat)
    ensures Plain(ColourWord(index))
  {
    if index < 8 {
      ColourNamePlain(index);
    } else if index < 16 {
      ColourNamePlain(index - 8);
      PlainAppend("bright-", ColourName(index - 8));
    }
  }

  lemma ColourNamePlain(index: nat)
    requires index < 8
    ensures Plain(ColourName(index))
  {
  }

  lemma ThemedPlain(prefix: string, colour: Option<Colour>)
    requires Plain(prefix)
    ensures AllPlain(ThemedClass(prefix, colour))
  {
    hide ColourWord;
    if Themed(colour).Some? {
      ColourWordPlain(colour.value.index);
      PlainAppend(prefix, ColourWord(colour.value.index));
    }
  }

  lemma InlinePlain(name: string, colour: Option<Colour>)
    requires Plain(name) && ColourOk(colour)
    ensures AllPlain(InlineProperty(name, colour))
  {
    if colour.Some? && colour.value.Hex? {
      PlainAppend(name, colour.value.text);
    }
  }

  lemma AllPlainAppend(a: seq<string>, b: seq<string>)
    requires AllPlain(a) && AllPlain(b)
    ensures AllPlain(a + b)
  {
    hide Plain;
  }

  lemma FlagPlain(on: bool, word: string, rest: seq<string>)
    requires Plain(word) && AllPlain(rest)
    ensures AllPlain(Flag(on, word) + rest)
  {
    hide Plain;
  }

  lemma FlagWordsPlain()
    ensures Plain("ansi-bold") && Plain("ansi-dim") && Plain("ansi-italic") && Plain("ansi-underline")
    ensures Plain("ansi-fg-") && Plain("ansi-bg-") && Plain("color:") && Plain("background-color:")
  {
  }

  lemma ClassWordsPlain(s: Style)
    ensures AllPlain(ClassWords(s))
  {
    hide Plain, AllPlain, ThemedClass, Flag;
    FlagWordsPlain();
    ThemedPlain("ansi-bg-", s.bg);
    ThemedPlain("ansi-fg-", s.fg);
    var words5 := ThemedClass("ansi-bg-", s.bg) + [];
    assert words5 == ThemedClass("ansi-bg-", s.bg);
    var words4 := ThemedClass("ansi-fg-", s.fg) + words5;
    AllPlainAppend(ThemedClass("ansi-fg-", s.fg), words5);
    var words3 := Flag(s.underline, "ansi-underline") + words4;
    FlagPlain(s.underline, "ansi-underline", words4);
    var words2 := Flag(s.italic, "ansi-italic") + words3;
    FlagPlain(s.italic, "ansi-italic", words3);
    var words1 := Flag(s.dim, "ansi-dim") + words2;
    FlagPlain(s.dim, "ansi-dim", words2);
    FlagPlain(s.bold, "ansi-bold", words1);
  }

  lemma PropertyWordsPlain(s: Style)
    requires StyleOk(s)
    ensures AllPlain(PropertyWords(s))
  {
    hide Plain, AllPlain, InlineProperty;
    FlagWordsPlain();
    InlinePlain("color:", s.fg);
    InlinePlain("background-color:", s.bg);
    var last := InlineProperty("background-color:", s.bg) + [];
    assert last == InlineProperty("background-color:", s.bg);
    AllPlainAppend(InlineProperty("color:", s.fg), last);
  }

  lemma {:induction false} JoinedPlain(words: seq<string>, separator: char, c: char)
    requires AllPlain(words) && !PlainChar(c) && c != separator
    ensures c !in Join(words, [separator])
  {
    if words != [] {
      JoinedPlain(words[1..], separator, c);
    }
  }

  lemma SplitPlain(words: seq<string>, separator: char)
    requires words != [] && AllPlain(words) && !PlainChar(separator)
    ensures Split(Join(words, [separator]), separator) == words
  {
    SplitJoin(words, separator);
  }

  // ----- the round trip

  /** What the tag holds between quotes: its attributes' names and values in turn. */
  function TagParts(s: Style): seq<string> {
    var classes := Join(ClassWords(s), " ");
    var properties := Join(PropertyWords(s), ";");
    if PropertyWords(s) == [] then ["<span class=", classes, ">"]
    else if ClassWords(s) == [] then ["<span style=", properties, ">"]
    else ["<span class=", classes, " style=", properties, ">"]
  }

  lemma Join3(a: string, b: string, c: string)
    ensures Join([a, b, c], "\"") == a + "\"" + b + "\"" + c
  {
    assert [a, b, c][1..] == [b, c] && [b, c][1..] == [c];
    assert Join([b, c], "\"") == b + "\"" + c;
  }

  lemma Join5(a: string, b: string, c: string, d: string, e: string)
    ensures Join([a, b, c, d, e], "\"") == a + "\"" + b + "\"" + c + "\"" + d + "\"" + e
  {
    assert [a, b, c, d, e][1..] == [b, c, d, e] && [b, c, d, e][1..] == [c, d, e];
    Join3(c, d, e);
  }

  lemma StyledHasWords(s: Style)
    requires s != DEFAULT && StyleOk(s)
    ensures ClassWords(s) != [] || PropertyWords(s) != []
  {
  }

  lemma SpanOpenParts(s: Style)
    requires s != DEFAULT && StyleOk(s)
    ensures SpanOpen(s) == Join(TagParts(s), "\"")
  {
    hide ClassWords, PropertyWords, Join;
    StyledHasWords(s);
    var classes := Join(ClassWords(s), " ");
    var properties := Join(PropertyWords(s), ";");
    Join3("<span class=", classes, ">");
    Join3("<span style=", properties, ">");
    Join5("<span class=", classes, " style=", properties, ">");
  }

  lemma PartsSplit(s: Style)
    requires s != DEFAULT && StyleOk(s)
    ensures Split(SpanOpen(s), '"') == TagParts(s)
  {
    hide ClassWords, PropertyWords, Join, Split, SpanOpen;
    ClassWordsPlain(s);
    PropertyWordsPlain(s);
    JoinedPlain(ClassWords(s), ' ', '"');
    JoinedPlain(PropertyWords(s), ';', '"');
    SpanOpenParts(s);
    SplitJoin(TagParts(s), '"');
  }

  /** An opening tag says exactly which style it opens. */
  lemma TagRoundTrip(s: Style)
    requires s != DEFAULT && StyleOk(s)
    ensures StyleOf(SpanOpen(s)) == Some(s)
  {
    hide ClassWords, PropertyWords, Join, Split, SpanOpen, WithAll, WithClass, WithProperty, StyleOk;
    PartsSplit(s);
    StyledHasWords(s);
    ClassWordsPlain(s);
    PropertyWordsPlain(s);
    if ClassWords(s) != [] {
      SplitPlain(ClassWords(s), ' ');
    }
    if PropertyWords(s) != [] {
      SplitPlain(PropertyWords(s), ';');
    }
    ClassWordsRead(s);
    PropertyWordsRead(s, s.(fg := Themed(s.fg), bg := Themed(s.bg)));
    WithNone(DEFAULT, WithClass);
    WithNone(s.(fg := Themed(s.fg), bg := Themed(s.bg)), WithProperty);
  }

  /** The tag opens with `<s` and closes at its first `>`. */
  lemma TagShape(s: Style)
    requires StyleOk(s)
    ensures var tag := SpanOpen(s);
      && |tag| >= 6 && tag[..2] == "<s" && tag[|tag| - 1] == '>'
      && '>' !in tag[..|tag| - 1] && '\n' !in tag
  {
    hide ClassWords, PropertyWords, Join;
    ClassWordsPlain(s);
    PropertyWordsPlain(s);
    var classes, properties := ClassWords(s), PropertyWords(s);
    AttributeHolds(" class=\"", classes, ' ', '>');
    AttributeHolds(" class=\"", classes, ' ', '\n');
    AttributeHolds(" style=\"", properties, ';', '>');
    AttributeHolds(" style=\"", properties, ';', '\n');
    var first, second := Attribute(" class=\"", classes, ' '), Attribute(" style=\"", properties, ';');
    assert SpanOpen(s) == "<span" + first + second + ">";
    hide Attribute, SpanOpen;
    TagOf(first, second);
  }

  /** One attribute of a tag, left out where there is nothing to say. */
  function Attribute(lead: string, words: seq<string>, separator: char): string {
    if words == [] then "" else lead + Join(words, [separator]) + "\""
  }

  lemma AttributeHolds(lead: string, words: seq<string>, separator: char, c: char)
    requires AllPlain(words) && !PlainChar(c) && c != separator && c !in lead && c != '"'
    ensures c !in Attribute(lead, words, separator)
  {
    hide Join;
    JoinedPlain(words, separator, c);
  }

  lemma TagOf(first: string, second: string)
    requires '>' !in first && '>' !in second && '\n' !in first && '\n' !in second
    ensures var tag := "<span" + first + second + ">";
      && |tag| >= 6 && tag[..2] == "<s" && tag[|tag| - 1] == '>'
      && '>' !in tag[..|tag| - 1] && '\n' !in tag
  {
    var body := "<span" + first + second;
    assert (body + ">")[..|body|] == body && body[..2] == "<s";
    assert (body + ">")[..2] == body[..2];
  }

  // ----- as written

  /** The classes and properties are those the page's style sheet knows. */
  lemma FlagsAsWritten()
    ensures ClassWords(DEFAULT.(bold := true)) == ["ansi-bold"]
    ensures ClassWords(DEFAULT.(dim := true)) == ["ansi-dim"]
    ensures ClassWords(DEFAULT.(italic := true)) == ["ansi-italic"]
    ensures ClassWords(DEFAULT.(underline := true)) == ["ansi-underline"]
  {
  }

  lemma ColoursAsWritten(index: nat, text: string)
    requires index < 8
    ensures ClassWords(DEFAULT.(fg := Some(Indexed(index)))) == ["ansi-fg-" + COLOUR_NAMES[index]]
    ensures ClassWords(DEFAULT.(bg := Some(Indexed(index)))) == ["ansi-bg-" + COLOUR_NAMES[index]]
    ensures ClassWords(DEFAULT.(fg := Some(Indexed(index + 8)))) == ["ansi-fg-" + ("bright-" + COLOUR_NAMES[index])]
    ensures ClassWords(DEFAULT.(bg := Some(Indexed(index + 8)))) == ["ansi-bg-" + ("bright-" + COLOUR_NAMES[index])]
    ensures PropertyWords(DEFAULT.(fg := Some(Hex(text)))) == ["color:" + text]
    ensures PropertyWords(DEFAULT.(bg := Some(Hex(text)))) == ["background-color:" + text]
  {
    assert ColourWord(index) == ColourName(index) && ColourWord(index + 8) == "bright-" + ColourName(index);
    assert ColourName(index) == COLOUR_NAMES[index];
    hide ColourWord, ColourName;
  }

  /** They go between quotes, the one kind after the other. */
  lemma TagAsWritten(s: Style)
    ensures var classes, properties := ClassWords(s), PropertyWords(s);
      && (classes != [] && properties == [] ==> SpanOpen(s) == "<span class=\"" + Join(classes, " ") + "\">")
      && (classes == [] && properties != [] ==> SpanOpen(s) == "<span style=\"" + Join(properties, ";") + "\">")
      && (classes != [] && properties != [] ==>
            SpanOpen(s) == "<span class=\"" + Join(classes, " ") + "\" style=\"" + Join(properties, ";") + "\">")
  {
    hide ClassWords, PropertyWords, Join;
    var classes, properties := ClassWords(s), PropertyWords(s);
    var c, q := Join(classes, " "), Join(properties, ";");
    TagText(c, q);
    if properties == [] {
      assert classes != [] ==> SpanOpen(s) == "<span" + (" class=\"" + c + "\"") + "" + ">";
    } else if classes == [] {
      assert SpanOpen(s) == "<span" + "" + (" style=\"" + q + "\"") + ">";
    } else {
      assert SpanOpen(s) == "<span" + (" class=\"" + c + "\"") + (" style=\"" + q + "\"") + ">";
    }
  }

  lemma TagText(c: string, q: string)
    ensures "<span" + (" class=\"" + c + "\"") + "" + ">" == "<span class=\"" + c + "\">"
    ensures "<span" + "" + (" style=\"" + q + "\"") + ">" == "<span style=\"" + q + "\">"
    ensures "<span" + (" class=\"" + c + "\"") + (" style=\"" + q + "\"") + ">"
         == "<span class=\"" + c + "\" style=\"" + q + "\">"
  {
    assert "<span" + " class=\"" == "<span class=\"" && "<span" + " style=\"" == "<span style=\"";
    assert "\"" + " style=\"" == "\" style=\"" && "\"" + ">" == "\">";
  }
}
