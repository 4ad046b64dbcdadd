/**
 The HTML of a settled screen. Whatever reads it back, tag by tag and character by
 character, must find the grid again.
 */
module Html {
  import opened Common
  import opened Styles
  import opened Tags
  import opened Grid

  const CLOSE := "</span>"

  /** One character of text, as HTML. */
  function Escaped(ch: char): string {
    if ch == '&' then "&amp;"
    else if ch == '<' then "&lt;"
    else if ch == '>' then "&gt;"
    else [ch]
  }

  /** What ends the style `from` and begins the style `to`. */
  function Switch(from: Style, to: Style): string {
    if from == to then ""
    else (if from != DEFAULT then CLOSE else "") + (if to != DEFAULT then SpanOpen(to) else "")
  }

  /** The rest of a row's HTML, where `current` is the style in force. */
  function RowText(row: seq<Cell>, current: Style): string {
    if row == [] then Switch(current, DEFAULT)
    else Switch(current, row[0].style) + Escaped(row[0].ch) + RowText(row[1..], row[0].style)
  }

  /** One row's HTML: a span opens and closes only where the style changes. */
  method RowSpans(row: seq<Cell>) returns (html: string)
    ensures html == RowText(row, DEFAULT)
  {
    hide RowText, SpanOpen, Escaped;
    html := "";
    var current := DEFAULT;
    assert row[0..] == row && "" + RowText(row, DEFAULT) == RowText(row, DEFAULT);
    for i := 0 to |row|
      invariant html + RowText(row[i..], current) == RowText(row, DEFAULT)
    {
      RowTextUnfold(row, i, current);
      ghost var before := html;
      var cell := row[i];
      if cell.style != current {
        if current != DEFAULT {
          html := html + CLOSE;
        }
        if cell.style != DEFAULT {
          html := html + SpanOpen(cell.style);
        }
      }
      assert html == before + Switch(current, cell.style);
      current := cell.style;
      html := html + Escaped(cell.ch);
    }
    RowTextDone(row[|row|..], current);
    if current != DEFAULT {
      html := html + CLOSE;
    }
  }

  lemma RowTextUnfold(row: seq<Cell>, i: nat, current: Style)
    requires i < |row|
    ensures RowText(row[i..], current)
         == Switch(current, row[i].style) + Escaped(row[i].ch) + RowText(row[i + 1..], row[i].style)
  {
    hide Switch, Escaped;
    assert row[i..][1..] == row[i + 1..];
  }

  lemma RowTextDone(row: seq<Cell>, current: Style)
    requires row == []
    ensures RowText(row, current) == if current != DEFAULT then CLOSE else ""
  {
  }

  function Lines(rows: Rows): (lines: seq<string>)
    ensures |lines| == |rows|
    ensures forall r :: 0 <= r < |rows| ==> lines[r] == RowText(rows[r], DEFAULT)
  {
    if rows == [] then [] else [RowText(rows[0], DEFAULT)] + Lines(rows[1..])
  }

  function HtmlOf(rows: Rows): string {
    Join(Lines(Canonical(rows)), "\n")
  }

  // ----- reading it back

  /** Where the first `>` is; the length of the text if there is none. */
  function FirstClose(text: string): (i: nat)
    ensures i <= |text|
  {
    if text == "" || text[0] == '>' then 0 else 1 + FirstClose(text[1..])
  }

  function Entity(text: string): Option<(char, nat)> {
    if "&amp;" <= text then Some(('&', 5))
    else if "&lt;" <= text then Some(('<', 4))
    else if "&gt;" <= text then Some(('>', 4))
    else None
  }

  function Before(cell: Cell, rest: Option<seq<Cell>>): Option<seq<Cell>> {
    if rest.Some? then Some([cell] + rest.value) else None
  }

  /** The cells of one line. Refused: a span opened inside another, closed twice or left open. */
  function Decode(text: string, current: Style): Option<seq<Cell>>
    decreases |text|
  {
    if text == "" then
      if current == DEFAULT then Some([]) else None
    else if text[0] == '<' then
      var end := FirstClose(text);
      if end == |text| then None
      else if text[..end + 1] == CLOSE then
        if current == DEFAULT then None else Decode(text[end + 1..], DEFAULT)
      else if current == DEFAULT && StyleOf(text[..end + 1]).Some? then
        Decode(text[end + 1..], StyleOf(text[..end + 1]).value)
      else None
    else if text[0] == '&' then
      if Entity(text).None? then None
      else Before(Cell(Entity(text).value.0, current), Decode(text[Entity(text).value.1..], current))
    else Before(Cell(text[0], current), Decode(text[1..], current))
  }

  function DecodeLines(lines: seq<string>): Option<Rows> {
    if lines == [] then Some([])
    else
      match (Decode(lines[0], DEFAULT), DecodeLines(lines[1..]))
      case (Some(row), Some(rest)) => Some([row] + rest)
      case _ => None
  }

  function DecodePage(html: string): Option<Rows> {
    DecodeLines(Split(html, '\n'))
  }

  // ----- each piece is read as it was written

  lemma {:induction false} FirstCloseIs(body: string, rest: string)
    requires '>' !in body
    ensures FirstClose(body + ">" + rest) == |body|
  {
    if body == "" {
      assert body + ">" + rest == ">" + rest;
    } else {
      assert (body + ">" + rest)[1..] == body[1..] + ">" + rest;
      FirstCloseIs(body[1..], rest);
    }
  }

  lemma TagEnd(tag: string, rest: string)
    requires tag != "" && tag[|tag| - 1] == '>' && '>' !in tag[..|tag| - 1]
    ensures var text := tag + rest; var end := FirstClose(text);
      end < |text| && text[..end + 1] == tag && text[end + 1..] == rest
  {
    var body := tag[..|tag| - 1];
    assert tag == body + ">";
    FirstCloseIs(body, rest);
  }

  lemma CloseRead(current: Style, rest: string)
    requires current != DEFAULT
    ensures Decode(CLOSE + rest, current) == Decode(rest, DEFAULT)
  {
    hide StyleOf, Entity;
    TagEnd(CLOSE, rest);
  }

  lemma OpenRead(to: Style, rest: string)
    requires to != DEFAULT && StyleOk(to)
    ensures Decode(SpanOpen(to) + rest, DEFAULT) == Decode(rest, to)
  {
    hide StyleOf, SpanOpen, Entity, StyleOk;
    var tag := SpanOpen(to);
    TagShape(to);
    TagEnd(tag, rest);
    TagRoundTrip(to);
    assert tag[0] == tag[..2][0] && tag[1] == tag[..2][1] && CLOSE[1] == '/';
  }

  lemma CharRead(ch: char, current: Style, rest: string)
    ensures Decode(Escaped(ch) + rest, current) == Before(Cell(ch, current), Decode(rest, current))
  {
    hide StyleOf, FirstClose;
    var text := Escaped(ch) + rest;
    if ch == '&' {
      assert text[..5] == "&amp;" && text[5..] == rest;
    } else if ch == '<' {
      assert text[1] == 'l' && text[..4] == "&lt;" && text[4..] == rest;
    } else if ch == '>' {
      assert text[1] == 'g' && text[..4] == "&gt;" && text[4..] == rest;
    } else {
      assert text[1..] == rest;
    }
  }

  lemma SwitchRead(from: Style, to: Style, rest: string)
    requires StyleOk(to)
    ensures Decode(Switch(from, to) + rest, from) == Decode(rest, to)
  {
    hide Decode, SpanOpen, StyleOk;
    if from == to {
      assert "" + rest == rest;
    } else if from == DEFAULT {
      OpenRead(to, rest);
      assert Switch(from, to) == SpanOpen(to);
    } else if to == DEFAULT {
      CloseRead(from, rest);
      assert Switch(from, to) == CLOSE;
    } else {
      CloseRead(from, SpanOpen(to) + rest);
      OpenRead(to, rest);
      assert CLOSE + SpanOpen(to) + rest == CLOSE + (SpanOpen(to) + rest);
    }
  }

  /** A row's HTML, read back, is the row: every character, every style, spans balanced. */
  lemma {:induction false} RowRoundTrip(row: seq<Cell>, current: Style)
    requires RowOk(row)
    ensures Decode(RowText(row, current), current) == Some(row)
    decreases |row|
  {
    hide Decode, Switch, Escaped, StyleOk;
    if row == [] {
      EndRead(current);
    } else {
      var first, rest := row[0], RowText(row[1..], row[0].style);
      RowRoundTrip(row[1..], first.style);
      assert CellOk(first);
      SwitchRead(current, first.style, Escaped(first.ch) + rest);
      CharRead(first.ch, first.style, rest);
      var opening := Switch(current, first.style);
      assert opening + Escaped(first.ch) + rest == opening + (Escaped(first.ch) + rest);
      assert row == [first] + row[1..];
    }
  }

  lemma EndRead(current: Style)
    ensures Decode(Switch(current, DEFAULT), current) == Some([])
  {
    SwitchRead(current, DEFAULT, "");
    assert Switch(current, DEFAULT) + "" == Switch(current, DEFAULT);
  }

  // ----- whole pages

  lemma SwitchOneLine(from: Style, to: Style)
    requires StyleOk(to)
    ensures '\n' !in Switch(from, to)
  {
    hide SpanOpen, StyleOk;
    TagShape(to);
  }

  lemma {:induction false} RowOneLine(row: seq<Cell>, current: Style)
    requires RowOk(row)
    ensures '\n' !in RowText(row, current)
    decreases |row|
  {
    hide Switch, StyleOk;
    if row == [] {
      DefaultOk();
      SwitchOneLine(current, DEFAULT);
    } else {
      assert CellOk(row[0]);
      SwitchOneLine(current, row[0].style);
      RowOneLine(row[1..], row[0].style);
    }
  }

  lemma DefaultOk()
    ensures StyleOk(DEFAULT)
  {
  }

  lemma {:induction false} LinesRead(rows: Rows)
    requires RowsOk(rows)
    ensures DecodeLines(Lines(rows)) == Some(rows)
  {
    hide Decode, RowText, RowOk;
    if rows != [] {
      RowRoundTrip(rows[0], DEFAULT);
      assert RowOk(rows[0]);
      LinesRead(rows[1..]);
      assert Lines(rows)[1..] == Lines(rows[1..]);
      assert [rows[0]] + rows[1..] == rows;
    }
  }

  lemma EmptyPage()
    ensures DecodePage("") == Some([[]])
  {
    assert Split("", '\n') == [""];
    LinesRead([[]]);
    assert Lines([[]]) == [""];
  }

  lemma PageRead(rows: Rows)
    requires RowsOk(rows)
    ensures DecodePage(Join(Lines(rows), "\n")) == Some(if rows == [] then [[]] else rows)
  {
    hide DecodeLines, RowText, RowOk;
    if rows == [] {
      EmptyPage();
    } else {
      forall r | 0 <= r < |rows| ensures '\n' !in Lines(rows)[r] {
        RowOneLine(rows[r], DEFAULT);
      }
      SplitJoin(Lines(rows), '\n');
      LinesRead(rows);
    }
  }

  /** Decoding the HTML recovers every cell of the grid, its character and its style. */
  lemma HtmlLosesNothing(rows: Rows)
    requires RowsOk(rows)
    ensures DecodePage(HtmlOf(rows)).Some?
    ensures SameGrid(DecodePage(HtmlOf(rows)).value, rows)
  {
    hide DecodePage, Canonical, Lines, RowOk;
    CanonicalOk(rows);
    CanonicalSame(rows);
    PageRead(Canonical(rows));
  }

  /** The HTML is a function of the grid, and a faithful one: equal exactly when the grids are. */
  lemma HtmlIsTheGrid(a: Rows, b: Rows)
    requires RowsOk(a) && RowsOk(b)
    ensures HtmlOf(a) == HtmlOf(b) <==> SameGrid(a, b)
  {
    hide DecodePage, Canonical, Lines, RowOk;
    HtmlLosesNothing(a);
    HtmlLosesNothing(b);
    if SameGrid(a, b) {
      CanonicalUnique(a, b);
    }
    if HtmlOf(a) == HtmlOf(b) {
      var page := DecodePage(HtmlOf(a)).value;
      forall r: nat, c: nat ensures CellAt(a, r, c) == CellAt(b, r, c) {
        assert CellAt(page, r, c) == CellAt(a, r, c) && CellAt(page, r, c) == CellAt(b, r, c);
      }
    }
  }

  /** The three characters HTML reads specially are written as its own entities, all others as they are. */
  lemma EntitiesAreHtml(ch: char)
    ensures Escaped('&') == "&amp;" && Escaped('<') == "&lt;" && Escaped('>') == "&gt;"
    ensures ch !in "&<>" ==> Escaped(ch) == [ch]
    ensures CLOSE == "</span>"
  {
  }
}
