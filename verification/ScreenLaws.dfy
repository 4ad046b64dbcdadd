/**
 What each control does, as laws about text fed to a terminal: which cell the next
 character is drawn in, which cells go blank, and which sequences come to nothing.
 */
module ScreenLaws {
  import opened Common
  import opened Decimals
  import opened Styles
  import opened Escapes
  import opened Grid
  import opened Screen

  /** A control sequence as written. */
  function Csi(params: string, final: char): string {
    [ESC, '['] + params + [final]
  }

  /** A parameter as written: decimal digits, or none. */
  predicate IsNumber(digits: string) {
    AllDigits(digits) && |digits| <= 4300
  }

  /** How far a control moves: a parameter that is missing or zero reads as one. */
  function Count(digits: string): nat {
    if DecimalValue(digits) < 1 then 1 else DecimalValue(digits)
  }

  /** The first row of the viewport. */
  function TopRow(p: Picture): nat {
    if p.height > 24 then p.height - 24 else 0
  }

  /** Exactly one cell has been drawn, at this row and column, and the cursor is past it. */
  ghost predicate DrewAt(before: Picture, after: Option<Picture>, row: nat, col: nat, cell: Cell) {
    && after.Some? && after.value.row == row && after.value.col == col + 1
    && forall r: nat, c: nat :: after.value.grid(r, c) == if r == row && c == col then cell else before.grid(r, c)
  }

  /** A terminal starts at the margin of one open row, its pen plain, and every cell a plain space. */
  lemma StartsEmpty(r: nat, c: nat)
    ensures START.row == 0 && START.col == 0 && START.height == 1
    ensures START.style == Style(false, false, false, false, None, None)
    ensures START.grid(r, c) == Cell(' ', START.style)
  {
  }

  // ----- reading one sequence

  lemma FedPiece(p: Picture, text: string, piece: Piece, rest: string)
    requires text != "" && NextPiece(text + rest) == (piece, |text|)
    ensures Shown(p, piece).Some? ==> Fed(p, text + rest) == Fed(Shown(p, piece).value, rest)
    ensures Shown(p, piece).None? ==> Fed(p, text + rest).None?
  {
    hide NextPiece, Shown;
    assert (text + rest)[|text|..] == rest;
  }

  lemma SequenceRead(params: string, final: char, rest: string)
    requires All(params, IsParam) && IsFinal(final)
    ensures NextPiece(Csi(params, final) + rest) == (Control(params, final), |params| + 3)
  {
    hide IsParam, IsFinal, FindCsi;
    var text := Csi(params, final) + rest;
    var n := |params| + 3;
    assert text[..n] == [ESC, '['] + params + "" + [final];
    CsiFound(text, n, params, "", final);
    assert text[0] == ESC;
  }

  lemma {:induction false} ParsedAll(fields: seq<string>)
    requires forall i :: 0 <= i < |fields| ==> IsNumber(fields[i])
    ensures ParseAll(fields) == Some(Values(fields))
  {
    hide DecimalValue;
    if fields != [] {
      ParsedAll(fields[1..]);
      DigitsOfDigits(fields[0]);
      assert Values(fields) == [Value(fields[0])] + Values(fields[1..]);
      ValueIs(fields[0]);
    }
  }

  function Value(digits: string): nat {
    if DecimalValue(digits) < 0 then 0 else DecimalValue(digits)
  }

  lemma {:induction false} ValueIs(digits: string)
    requires AllDigits(digits)
    ensures DecimalValue(digits) == Value(digits)
  {
    if digits != "" {
      ValueIs(digits[..|digits| - 1]);
    }
  }

  function Values(fields: seq<string>): seq<nat> {
    seq(|fields|, i requires 0 <= i < |fields| => Value(fields[i]))
  }

  predicate ParamChar(c: char) {
    '0' <= c <= '9' || c == ';'
  }

  predicate ParamText(s: string) {
    forall i :: 0 <= i < |s| ==> ParamChar(s[i])
  }

  lemma ParamTextAppend(a: string, b: string)
    requires ParamText(a) && ParamText(b)
    ensures ParamText(a + ";" + b)
  {
  }

  lemma {:induction false} JoinedParams(fields: seq<string>)
    requires fields != [] && forall i :: 0 <= i < |fields| ==> IsNumber(fields[i])
    ensures ParamText(Join(fields, ";"))
  {
    assert IsNumber(fields[0]);
    if |fields| > 1 {
      JoinedParams(fields[1..]);
      ParamTextAppend(fields[0], Join(fields[1..], ";"));
    }
  }

  lemma ParamCharIs(c: char)
    requires ParamChar(c)
    ensures IsParam(c) && c != ':' && c !in "<=>?"
  {
  }

  lemma ParamTextRead(text: string)
    requires ParamText(text)
    ensures All(text, IsParam) && !Private(text) && ColonsAsSemicolons(text) == text
  {
    hide ParamChar, IsParam;
    forall i | 0 <= i < |text| ensures IsParam(text[i]) && text[i] != ':' && text[i] !in "<=>?" {
      ParamCharIs(text[i]);
    }
  }

  /** Numbers between semicolons are read as those numbers, and nothing as none. */
  lemma ParamsRead(fields: seq<string>)
    requires fields != [] && forall i :: 0 <= i < |fields| ==> IsNumber(fields[i])
    ensures var text := Join(fields, ";");
      && All(text, IsParam) && !Private(text)
      && ParseParams(text) == if text == "" then Some([]) else Some(Values(fields))
  {
    var text := Join(fields, ";");
    JoinedParams(fields);
    forall i | 0 <= i < |fields| ensures ';' !in fields[i] {
      assert IsNumber(fields[i]);
    }
    hide All, Private, IsNumber, ColonsAsSemicolons, ParseAll, Values, ParamText, Join, Split;
    ParamTextRead(text);
    SplitJoin(fields, ';');
    ParsedAll(fields);
  }

  /** A whole sequence of numbers, and the picture after it. */
  lemma FedSequence(p: Picture, fields: seq<string>, final: char, rest: string)
    requires fields != [] && (forall i :: 0 <= i < |fields| ==> IsNumber(fields[i])) && IsFinal(final)
    ensures var text := Join(fields, ";");
      Fed(p, Csi(text, final) + rest) == Fed(p.Controlled(if text == "" then [] else Values(fields), final), rest)
  {
    hide Fed, NextPiece, ParseParams, Private, All, IsNumber, Values;
    hide Picture.Controlled;
    var text := Join(fields, ";");
    ParamsRead(fields);
    SequenceRead(text, final, rest);
    FedPiece(p, Csi(text, final), Control(text, final), rest);
  }

  lemma FedOne(p: Picture, digits: string, final: char, rest: string)
    requires IsNumber(digits) && IsFinal(final)
    ensures Fed(p, Csi(digits, final) + rest)
         == Fed(p.Controlled(if digits == "" then [] else [Value(digits)], final), rest)
  {
    hide Fed, IsNumber, Value, Csi;
    hide Picture.Controlled;
    FedSequence(p, [digits], final, rest);
    assert Join([digits], ";") == digits;
    assert Values([digits]) == [Value(digits)];
  }

  lemma CountIs(digits: string)
    requires AllDigits(digits)
    ensures Count(digits) == if digits != "" && Value(digits) != 0 then Value(digits) else 1
    ensures digits == "" ==> Value(digits) == 0
  {
    ValueIs(digits);
  }

  lemma Printed(p: Picture, ch: char)
    requires ch >= ' '
    ensures DrewAt(p, Fed(p, [ch]), p.row, p.col, Cell(ch, p.style))
  {
    PrintableTextIsShown(p, [ch]);
  }

  // ----- moving the cursor

  /** G: to a column of the same row, counted from one. */
  lemma ColumnAddressed(p: Picture, digits: string, ch: char)
    requires IsNumber(digits) && ch >= ' '
    ensures DrewAt(p, Fed(p, Csi(digits, 'G') + [ch]), p.row, Count(digits) - 1, Cell(ch, p.style))
  {
    hide Fed, Csi, DecimalValue, Value, Count;
    FedOne(p, digits, 'G', [ch]);
    CountIs(digits);
    Printed(p.(col := Count(digits) - 1), ch);
  }

  /** H and f: to a row of the viewport and a column, both counted from one. */
  lemma PositionAddressed(p: Picture, row: string, col: string, final: char, ch: char)
    requires IsNumber(row) && IsNumber(col) && (final == 'H' || final == 'f') && ch >= ' '
    ensures DrewAt(p, Fed(p, Csi(row + ";" + col, final) + [ch]),
                   TopRow(p) + Count(row) - 1, Count(col) - 1, Cell(ch, p.style))
  {
    hide Fed, Csi, DecimalValue, Value, Count, Values;
    FedSequence(p, [row, col], final, [ch]);
    TwoFields(row, col);
    CountIs(row);
    CountIs(col);
    Printed(p.(row := TopRow(p) + Count(row) - 1, col := Count(col) - 1), ch);
  }

  lemma TwoFields(a: string, b: string)
    ensures Join([a, b], ";") == a + ";" + b && Values([a, b]) == [Value(a), Value(b)]
    ensures forall i :: 0 <= i < |[a, b]| ==> [a, b][i] == a || [a, b][i] == b
  {
    assert [a, b][1..] == [b];
  }

  /** With a row alone, or nothing, the column is the first. */
  lemma RowAddressed(p: Picture, row: string, final: char, ch: char)
    requires IsNumber(row) && (final == 'H' || final == 'f') && ch >= ' '
    ensures DrewAt(p, Fed(p, Csi(row, final) + [ch]), TopRow(p) + Count(row) - 1, 0, Cell(ch, p.style))
  {
    hide Fed, Csi, DecimalValue, Value, Count;
    FedOne(p, row, final, [ch]);
    CountIs(row);
    Printed(p.(row := TopRow(p) + Count(row) - 1, col := 0), ch);
  }

  /** B and C: that many rows down, that many columns right. */
  lemma DownAndRight(p: Picture, digits: string, ch: char)
    requires IsNumber(digits) && ch >= ' '
    ensures DrewAt(p, Fed(p, Csi(digits, 'B') + [ch]), p.row + Count(digits), p.col, Cell(ch, p.style))
    ensures DrewAt(p, Fed(p, Csi(digits, 'C') + [ch]), p.row, p.col + Count(digits), Cell(ch, p.style))
  {
    hide Fed, Csi, DecimalValue, Value, Count;
    FedOne(p, digits, 'B', [ch]);
    FedOne(p, digits, 'C', [ch]);
    CountIs(digits);
    Printed(p.(row := p.row + Count(digits)), ch);
    Printed(p.(col := p.col + Count(digits)), ch);
  }

  /** A and D take them back. */
  lemma UpAndLeftUndo(p: Picture, digits: string, rest: string)
    requires IsNumber(digits)
    ensures TopRow(p) <= p.row ==> Fed(p, Csi(digits, 'B') + (Csi(digits, 'A') + rest)) == Fed(p, rest)
    ensures Fed(p, Csi(digits, 'C') + (Csi(digits, 'D') + rest)) == Fed(p, rest)
  {
    hide Fed, Csi, DecimalValue, Value, Count;
    var n := Count(digits);
    CountIs(digits);
    FedOne(p, digits, 'B', Csi(digits, 'A') + rest);
    FedOne(p, digits, 'C', Csi(digits, 'D') + rest);
    FedOne(p.(row := p.row + n), digits, 'A', rest);
    FedOne(p.(col := p.col + n), digits, 'D', rest);
    assert p.(row := p.row) == p && p.(col := p.col) == p;
  }

  /** And go no farther than the top of the viewport, or the margin. */
  lemma UpAndLeftStop(p: Picture, digits: string, ch: char)
    requires IsNumber(digits) && ch >= ' '
    ensures p.row < TopRow(p) + Count(digits) ==>
      DrewAt(p, Fed(p, Csi(digits, 'A') + [ch]), TopRow(p), p.col, Cell(ch, p.style))
    ensures p.col < Count(digits) ==>
      DrewAt(p, Fed(p, Csi(digits, 'D') + [ch]), p.row, 0, Cell(ch, p.style))
  {
    hide Fed, Csi, DecimalValue, Value, Count;
    FedOne(p, digits, 'A', [ch]);
    FedOne(p, digits, 'D', [ch]);
    CountIs(digits);
    Printed(p.(row := TopRow(p)), ch);
    Printed(p.(col := 0), ch);
  }

  /** E and F are B and A, then back to the margin. */
  lemma NextAndPreviousLine(p: Picture, digits: string, rest: string)
    requires IsNumber(digits)
    ensures Fed(p, Csi(digits, 'E') + rest) == Fed(p, Csi(digits, 'B') + ("\r" + rest))
    ensures Fed(p, Csi(digits, 'F') + rest) == Fed(p, Csi(digits, 'A') + ("\r" + rest))
  {
    hide Fed, Csi, DecimalValue, Value;
    var params := if digits == "" then [] else [Value(digits)];
    FedOne(p, digits, 'E', rest);
    FedOne(p, digits, 'F', rest);
    FedOne(p, digits, 'B', "\r" + rest);
    FedOne(p, digits, 'A', "\r" + rest);
    Returned(p.Controlled(params, 'B'), rest);
    Returned(p.Controlled(params, 'A'), rest);
  }

  // ----- single characters

  lemma FedChar(p: Picture, ch: char, rest: string)
    requires ch != ESC
    ensures Fed(p, [ch] + rest) == Fed(p.Typed(ch), rest)
  {
    hide Fed;
    hide Picture.Typed;
    assert ([ch] + rest)[0] == ch;
    FedPiece(p, [ch], Typed(ch), rest);
  }

  lemma Returned(p: Picture, rest: string)
    ensures Fed(p, "\r" + rest) == Fed(p.(col := 0), rest)
  {
    hide Fed;
    FedChar(p, '\r', rest);
    assert "\r" == ['\r'];
  }

  /** A line feed goes to the start of the next row, and opens it. */
  lemma LineFed(p: Picture, rest: string)
    ensures Fed(p, "\n" + rest)
         == Fed(p.(row := p.row + 1, col := 0, height := if p.height < p.row + 2 then p.row + 2 else p.height), rest)
  {
    hide Fed;
    FedChar(p, '\n', rest);
    assert "\n" == ['\n'];
  }

  /** A backspace goes one column back, but not past the margin. */
  lemma BackSpaced(p: Picture, rest: string)
    ensures Fed(p, "\U{8}" + rest) == Fed(if p.col == 0 then p else p.(col := p.col - 1), rest)
  {
    hide Fed;
    FedChar(p, '\U{8}', rest);
    assert "\U{8}" == ['\U{8}'];
    assert p.(col := p.col) == p;
  }

  /** A tab goes to the next column that is a multiple of eight. */
  lemma Tabbed(p: Picture, rest: string) returns (col: nat)
    ensures p.col < col <= p.col + 8 && col % 8 == 0
    ensures Fed(p, "\t" + rest) == Fed(p.(col := col), rest)
  {
    hide Fed;
    FedChar(p, '\t', rest);
    assert "\t" == ['\t'];
    col := p.col + 8 - p.col % 8;
  }

  /** No other control character shows. */
  lemma OtherControlIgnored(p: Picture, ch: char, rest: string)
    requires ch < ' ' && ch !in "\r\n\t\U{8}" && ch != ESC
    ensures Fed(p, [ch] + rest) == Fed(p, rest)
  {
    hide Fed;
    FedChar(p, ch, rest);
  }

  // ----- erasing

  /** The cursor, the pen and every cell outside the region stay; the region is blank. */
  ghost predicate Blanked(before: Picture, after: Option<Picture>, region: (nat, nat) -> bool) {
    && after.Some? && after.value.row == before.row && after.value.col == before.col
    && after.value.style == before.style
    && forall r: nat, c: nat :: after.value.grid(r, c) == if region(r, c) then BLANK else before.grid(r, c)
  }

  lemma FedDone(p: Picture, digits: string, final: char)
    requires IsNumber(digits) && IsFinal(final)
    ensures Fed(p, Csi(digits, final)) == Some(p.Controlled(if digits == "" then [] else [Value(digits)], final))
  {
    hide Csi, Value;
    hide Picture.Controlled;
    FedOne(p, digits, final, "");
    assert Csi(digits, final) + "" == Csi(digits, final);
  }

  /** K: the row from the cursor on, up to and under it, or all of it. */
  lemma LineBlanked(p: Picture, digits: string)
    requires IsNumber(digits)
    ensures var after := Fed(p, Csi(digits, 'K'));
      && (Value(digits) == 0 ==> Blanked(p, after, (r: nat, c: nat) => r == p.row && c >= p.col))
      && (Value(digits) == 1 ==> Blanked(p, after, (r: nat, c: nat) => r == p.row && c <= p.col))
      && (Value(digits) == 2 ==> Blanked(p, after, (r: nat, c: nat) => r == p.row))
      && (Value(digits) > 2 ==> Blanked(p, after, (r: nat, c: nat) => false))
      && after.value.height == if p.height < p.row + 1 then p.row + 1 else p.height
  {
    hide Fed, Csi, DecimalValue;
    FedDone(p, digits, 'K');
    CountIs(digits);
  }

  /** J: everything from the cursor on, with the rows below closed, or the whole viewport. */
  lemma PageBlanked(p: Picture, digits: string)
    requires IsNumber(digits)
    ensures var after := Fed(p, Csi(digits, 'J'));
      && (Value(digits) == 0 ==>
            && Blanked(p, after, (r: nat, c: nat) => r > p.row || (r == p.row && c >= p.col))
            && after.value.height == p.row + 1)
      && (Value(digits) == 2 || Value(digits) == 3 ==>
            Blanked(p, after, (r: nat, c: nat) => r >= TopRow(p)) && after.value.height == p.height)
      && (Value(digits) == 1 || Value(digits) > 3 ==> after == Some(p))
  {
    hide Fed, Csi, DecimalValue;
    FedDone(p, digits, 'J');
    CountIs(digits);
  }

  // ----- the pen, and what comes to nothing

  /** m: the pen takes on the parameters; none at all resets it. */
  lemma PenChanged(p: Picture, fields: seq<string>, rest: string)
    requires fields != [] && forall i :: 0 <= i < |fields| ==> IsNumber(fields[i])
    ensures var text := Join(fields, ";");
      Fed(p, Csi(text, 'm') + rest)
      == Fed(p.(style := if text == "" then DEFAULT else Sgr(p.style, Values(fields))), rest)
  {
    hide Fed, Csi, Value, Join, Sgr;
    FedSequence(p, fields, 'm', rest);
    AloneIsOne(p.style, 0);
    assert Values(fields) != [];
  }

  /** Any other control sequence of numbers comes to nothing. */
  lemma OtherSequenceIgnored(p: Picture, digits: string, final: char, rest: string)
    requires IsNumber(digits) && IsFinal(final) && final !in "mGABCDEFHfKJ"
    ensures Fed(p, Csi(digits, final) + rest) == Fed(p, rest)
  {
    hide Fed, Csi, Value;
    FedOne(p, digits, final, rest);
    OtherFinal(final);
  }

  lemma OtherFinal(final: char)
    requires final !in "mGABCDEFHfKJ"
    ensures final != 'm' && final != 'G' && final != 'A' && final != 'B' && final != 'C' && final != 'D'
    ensures final != 'E' && final != 'F' && final != 'H' && final != 'f' && final != 'K' && final != 'J'
  {
  }

  /** So does a private one, whatever it asks for. */
  lemma PrivateIgnored(p: Picture, mark: char, params: string, final: char, rest: string)
    requires mark in "<=>?" && All(params, IsParam) && IsFinal(final)
    ensures Fed(p, Csi([mark] + params, final) + rest) == Fed(p, rest)
  {
    hide Fed, IsFinal, NextPiece;
    assert All([mark] + params, IsParam);
    SequenceRead([mark] + params, final, rest);
    FedPiece(p, Csi([mark] + params, final), Control([mark] + params, final), rest);
  }

  /** So does a window title, or anything else between `ESC ]` and a bell. */
  lemma TitleIgnored(p: Picture, title: string, rest: string)
    requires BEL !in title && ESC !in title
    ensures Fed(p, [ESC, ']'] + title + [BEL] + rest) == Fed(p, rest)
  {
    hide Fed;
    var text := [ESC, ']'] + title + [BEL];
    var all := text + rest;
    assert all[0] == ESC && all[1] == ']' && all[..|text|] == text;
    TitleIsOsc(title);
    FindOscExact(all, |text|);
    assert NextPiece(all) == (Ignored, |text|);
    FedPiece(p, text, Ignored, rest);
  }

  lemma TitleIsOsc(title: string)
    requires BEL !in title && ESC !in title
    ensures IsOsc([ESC, ']'] + title + [BEL])
  {
    var text := [ESC, ']'] + title + [BEL];
    forall i | 2 <= i < |text| - 1 ensures text[i] != BEL && text[i] != ESC {
      assert text[i] == title[i - 2];
    }
    forall n | 0 <= n < |text| ensures !EndsOsc(text[..n]) {
      if n >= 3 {
        assert text[..n][n - 1] == text[n - 1];
        if n >= 4 {
          assert text[..n][n - 2..][0] == text[n - 2];
        }
      }
    }
  }

  /** So does naming a character set, and any other escape of one character. */
  lemma OtherEscapeIgnored(p: Picture, ch: char, set_: char, rest: string)
    requires ch != '[' && ch != ']'
    ensures ch in "()*+-./" ==> Fed(p, [ESC, ch, set_] + rest) == Fed(p, rest)
    ensures ch !in "()*+-./" ==> Fed(p, [ESC, ch] + rest) == Fed(p, rest)
  {
    hide Fed;
    var long, short := [ESC, ch, set_] + rest, [ESC, ch] + rest;
    assert long[1] == ch && short[1] == ch;
    assert NextPiece(long).1 == 3 || ch !in "()*+-./";
    if ch in "()*+-./" {
      FedPiece(p, [ESC, ch, set_], Ignored, rest);
    } else {
      FedPiece(p, [ESC, ch], Ignored, rest);
    }
  }

  // ----- parameters written otherwise

  lemma {:induction false} JoinedColons(fields: seq<string>)
    requires forall i :: 0 <= i < |fields| ==> IsNumber(fields[i])
    ensures ColonsAsSemicolons(Join(fields, ":")) == Join(fields, ";")
    ensures Join(fields, ":") == "" <==> Join(fields, ";") == ""
  {
    if |fields| == 1 {
      NoColons(fields[0]);
    } else if |fields| > 1 {
      JoinedColons(fields[1..]);
      NoColons(fields[0]);
      ColonsAppend(fields[0], ":" + Join(fields[1..], ":"));
      ColonsAppend(":", Join(fields[1..], ":"));
      assert Join(fields, ":") == fields[0] + (":" + Join(fields[1..], ":"));
      assert Join(fields, ";") == fields[0] + (";" + Join(fields[1..], ";"));
      assert ColonsAsSemicolons(":") == ";";
    }
  }

  lemma NoColons(digits: string)
    requires IsNumber(digits)
    ensures ColonsAsSemicolons(digits) == digits
  {
  }

  lemma ColonsAppend(a: string, b: string)
    ensures ColonsAsSemicolons(a + b) == ColonsAsSemicolons(a) + ColonsAsSemicolons(b)
  {
  }

  lemma {:induction false} ColonsAreParams(fields: seq<string>)
    requires forall i :: 0 <= i < |fields| ==> IsNumber(fields[i])
    ensures forall c :: c in Join(fields, ":") ==> '0' <= c <= '9' || c == ':'
  {
    if |fields| == 1 {
      assert IsNumber(fields[0]);
    } else if |fields| > 1 {
      assert IsNumber(fields[0]);
      ColonsAreParams(fields[1..]);
    }
  }

  lemma ColonsParsed(fields: seq<string>)
    requires fields != [] && (forall i :: 0 <= i < |fields| ==> IsNumber(fields[i]))
    ensures ParseParams(Join(fields, ":")) == ParseParams(Join(fields, ";"))
  {
    JoinedColons(fields);
    JoinedParams(fields);
    ParamTextRead(Join(fields, ";"));
    hide All, IsNumber, Join, Private, ParseAll, Split, ColonsAsSemicolons, ParamText;
  }

  lemma FedAlike(p: Picture, a: string, b: string, final: char, rest: string)
    requires All(a, IsParam) && All(b, IsParam) && IsFinal(final) && !Private(a) && !Private(b)
    requires ParseParams(a) == ParseParams(b)
    ensures Fed(p, Csi(a, final) + rest) == Fed(p, Csi(b, final) + rest)
    ensures ParseParams(a).None? ==> Fed(p, Csi(a, final) + rest).None?
  {
    SequenceRead(a, final, rest);
    SequenceRead(b, final, rest);
    hide Fed, NextPiece, All, Private, ParseParams, IsFinal;
    hide Picture.Controlled;
    FedPiece(p, Csi(a, final), Control(a, final), rest);
    FedPiece(p, Csi(b, final), Control(b, final), rest);
  }

  /** Colons between parameters read as semicolons. */
  lemma ColonsRead(p: Picture, fields: seq<string>, final: char, rest: string)
    requires fields != [] && (forall i :: 0 <= i < |fields| ==> IsNumber(fields[i])) && IsFinal(final)
    ensures Fed(p, Csi(Join(fields, ":"), final) + rest) == Fed(p, Csi(Join(fields, ";"), final) + rest)
  {
    hide Fed, Csi, All, IsNumber, Join, Private, ParseParams, IsFinal, Values;
    ColonsAreParams(fields);
    ColonText(Join(fields, ":"));
    ParamsRead(fields);
    ColonsParsed(fields);
    FedAlike(p, Join(fields, ":"), Join(fields, ";"), final, rest);
  }

  lemma ColonText(text: string)
    requires forall c :: c in text ==> '0' <= c <= '9' || c == ':'
    ensures All(text, IsParam) && !Private(text)
  {
    forall i | 0 <= i < |text| ensures IsParam(text[i]) && text[i] !in "<=>?" {
      assert text[i] in text;
    }
  }

  /** A parameter that is not a number is refused, and so is one too long. */
  lemma BadParameterRefused(p: Picture, field: string, final: char, rest: string)
    requires All(field, IsParam) && ':' !in field && ';' !in field && !Private(field) && IsFinal(final)
    requires !IsNumber(field)
    ensures Fed(p, Csi(field, final) + rest).None?
  {
    BadParameter(field);
    hide Fed, Csi, All, Private, ParseParams, IsFinal, IsNumber;
    FedAlike(p, field, field, final, rest);
  }

  lemma BadParameter(field: string)
    requires ':' !in field && ';' !in field && !IsNumber(field)
    ensures ParseParams(field).None?
  {
    if !AllDigits(field) {
      DigitsOfOther(field, 0);
    }
    assert ColonsAsSemicolons(field) == field;
    SplitOfPlain(field, ';');
    hide Split, Digits;
    assert ParseAll([field]).None?;
  }
}
