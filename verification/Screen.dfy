/**
 A terminal settled into a still picture: the program keeps ragged rows, a cursor and a
 pen, and every input changes the picture they stand for exactly as the control says.
 */
module Screen {
  import opened Common
  import opened Decimals
  import opened Styles
  import opened Escapes
  import opened Grid
  import opened Html

  const VIEWPORT_ROWS := 24

  function Max(a: int, b: int): int {
    if a < b then b else a
  }

  function Min(a: int, b: int): int {
    if a < b then a else b
  }

  // ----- the picture

  /** What a terminal shows: a total grid, how many rows have been opened, a cursor and a pen. */
  datatype Picture = Picture(grid: (nat, nat) -> Cell, height: nat, row: nat, col: nat, style: Style) {
    /** The first row of the viewport. */
    function Top(): nat {
      Max(0, height - VIEWPORT_ROWS)
    }

    /** The cursor's row opened. */
    function Opened(): Picture {
      this.(height := Max(height, row + 1))
    }

    /** One cell drawn, the cursor one further. */
    function Drawn(ch: char): Picture {
      Opened().(
        grid := (r: nat, c: nat) => if r == row && c == col then Cell(ch, style) else grid(r, c),
        col := col + 1)
    }

    /** Exactly the cells of a region blanked. */
    function Erased(region: (nat, nat) -> bool): Picture {
      this.(grid := (r: nat, c: nat) => if region(r, c) then BLANK else grid(r, c))
    }

    /** EL, erase in line (ECMA-48 section 8.3.41). */
    function LineErased(mode: nat): Picture {
      if mode == 0 then Opened().Erased((r: nat, c: nat) => r == row && col <= c)
      else if mode == 1 then Opened().Erased((r: nat, c: nat) => r == row && c <= col)
      else if mode == 2 then Opened().Erased((r: nat, c: nat) => r == row)
      else Opened()
    }

    /** ED, erase in page (ECMA-48 section 8.3.39); erasing below also closes the rows below. */
    function PageErased(mode: nat): Picture {
      if mode == 0 then Erased((r: nat, c: nat) => (r == row && col <= c) || row < r).(height := row + 1)
      else if mode == 2 || mode == 3 then Erased((r: nat, c: nat) => Top() <= r)
      else this
    }

    /** One control sequence, its parameters read. */
    function Controlled(params: seq<nat>, final: char): Picture {
      var n := if params != [] && params[0] != 0 then params[0] else 1;
      var mode := if params == [] then 0 else params[0];
      match final
      case 'm' => this.(style := Sgr(style, if params == [] then [0] else params))
      case 'G' => this.(col := n - 1)
      case 'A' => this.(row := Max(Top(), row - n))
      case 'B' => this.(row := row + n)
      case 'C' => this.(col := col + n)
      case 'D' => this.(col := Max(0, col - n))
      case 'E' => this.(row := row + n, col := 0)
      case 'F' => this.(row := Max(Top(), row - n), col := 0)
      case 'H' => Addressed(params, n)
      case 'f' => Addressed(params, n)
      case 'K' => LineErased(mode)
      case 'J' => PageErased(mode)
      case _ => this
    }

    function Addressed(params: seq<nat>, n: nat): Picture
      requires n > 0
    {
      this.(row := Top() + n - 1, col := if |params| > 1 && params[1] != 0 then params[1] - 1 else 0)
    }

    /** One character that is not part of a control sequence. */
    function Typed(ch: char): Picture {
      if ch == '\r' then this.(col := 0)
      else if ch == '\n' then this.(row := row + 1, col := 0).Opened()
      else if ch == '\U{8}' then this.(col := Max(0, col - 1))
      else if ch == '\t' then this.(col := col + 8 - col % 8)
      else if ch >= ' ' then Drawn(ch)
      else this
    }
  }

  // ----- what each change of the rows does to the grid

  lemma OpenedRow(rows: Rows, r: nat, c: nat)
    ensures CellAt(rows + [[]], r, c) == CellAt(rows, r, c)
  {
  }

  lemma PaddedLine(rows: Rows, row: nat, r: nat, c: nat)
    requires row < |rows|
    ensures CellAt(rows[row := rows[row] + [BLANK]], r, c) == CellAt(rows, r, c)
  {
  }

  lemma DrawnCell(rows: Rows, row: nat, col: nat, cell: Cell, r: nat, c: nat)
    requires row < |rows| && col <= |rows[row]|
    ensures var line := if col < |rows[row]| then rows[row][col := cell] else rows[row] + [cell];
      CellAt(rows[row := line], r, c) == if r == row && c == col then cell else CellAt(rows, r, c)
  {
  }

  lemma CutLine(rows: Rows, row: nat, col: nat, r: nat, c: nat)
    requires row < |rows|
    ensures CellAt(rows[row := rows[row][..Min(col, |rows[row]|)]], r, c)
         == if r == row && col <= c then BLANK else CellAt(rows, r, c)
  {
  }

  lemma CutRows(rows: Rows, row: nat, r: nat, c: nat)
    requires row < |rows|
    ensures CellAt(rows[..row + 1], r, c) == if row < r then BLANK else CellAt(rows, r, c)
  {
  }

  lemma BlankedCell(rows: Rows, row: nat, col: nat, r: nat, c: nat)
    requires row < |rows| && col < |rows[row]|
    ensures CellAt(rows[row := rows[row][col := BLANK]], r, c)
         == if r == row && c == col then BLANK else CellAt(rows, r, c)
  {
  }

  lemma ClearedLine(rows: Rows, row: nat, r: nat, c: nat)
    requires row < |rows|
    ensures CellAt(rows[row := []], r, c) == if r == row then BLANK else CellAt(rows, r, c)
  {
  }

  // ----- the program

  class Terminal {
    var rows: Rows
    var row: nat
    var col: nat
    var style: Style

    constructor ()
      ensures Valid() && Shows(START)
    {
      rows, row, col, style := [[]], 0, 0, DEFAULT;
    }

    ghost predicate Valid()
      reads this
    {
      rows != [] && RowsOk(rows) && StyleOk(style)
    }

    /** The fields stand for the picture `p`. */
    ghost predicate Shows(p: Picture)
      reads this
    {
      && p.height == |rows| && p.row == row && p.col == col && p.style == style
      && Draws(rows, p)
    }

    function Top(): nat
      reads this
    {
      Max(0, |rows| - VIEWPORT_ROWS)
    }

    /** Opens the cursor's row. */
    method Line(ghost p: Picture)
      requires Valid() && Shows(p)
      modifies this`rows
      ensures Valid() && Shows(p.Opened()) && row < |rows|
    {
      while |rows| <= row
        invariant Valid() && |rows| <= Max(p.height, row + 1) && p.height <= |rows|
        invariant forall r: nat, c: nat :: p.grid(r, c) == CellAt(rows, r, c)
      {
        forall r: nat, c: nat ensures CellAt(rows + [[]], r, c) == CellAt(rows, r, c) {
          OpenedRow(rows, r, c);
        }
        rows := rows + [[]];
      }
    }

    /** Draws one character and moves on: one cell of the grid changes. */
    method Put(ch: char, ghost p: Picture)
      requires Valid() && Shows(p) && ch >= ' '
      modifies this`rows, this`col
      ensures Valid() && Shows(p.Drawn(ch))
    {
      Line(p);
      while |rows[row]| < col
        invariant Valid() && row < |rows| && |rows| == p.Opened().height && col == p.col
        invariant forall r: nat, c: nat :: p.grid(r, c) == CellAt(rows, r, c)
      {
        forall r: nat, c: nat
          ensures CellAt(rows[row := rows[row] + [BLANK]], r, c) == CellAt(rows, r, c)
        {
          PaddedLine(rows, row, r, c);
        }
        rows := rows[row := rows[row] + [BLANK]];
      }
      ghost var before, cell := rows, Cell(ch, style);
      if col < |rows[row]| {
        rows := rows[row := rows[row][col := Cell(ch, style)]];
      } else {
        rows := rows[row := rows[row] + [Cell(ch, style)]];
      }
      forall r: nat, c: nat
        ensures CellAt(rows, r, c) == if r == row && c == col then cell else CellAt(before, r, c)
      {
        DrawnCell(before, row, col, cell, r, c);
      }
      col := col + 1;
    }

    /** EL: the rows change, the grid loses exactly the region. */
    method EraseInLine(mode: nat, ghost p: Picture)
      requires Valid() && Shows(p)
      modifies this`rows
      ensures Valid() && Shows(p.LineErased(mode))
    {
      Line(p);
      ghost var before := rows;
      if mode == 0 {
        rows := rows[row := rows[row][..Min(col, |rows[row]|)]];
        forall r: nat, c: nat
          ensures CellAt(rows, r, c) == if r == row && col <= c then BLANK else CellAt(before, r, c)
        {
          CutLine(before, row, col, r, c);
        }
      } else if mode == 1 {
        BlankUpTo(Min(col + 1, |rows[row]|));
      } else if mode == 2 {
        rows := rows[row := []];
        forall r: nat, c: nat ensures CellAt(rows, r, c) == if r == row then BLANK else CellAt(before, r, c) {
          ClearedLine(before, row, r, c);
        }
      }
    }

    /** Blanks the first `n` cells of the cursor's row, in place. */
    method BlankUpTo(n: nat)
      requires Valid() && row < |rows| && n <= |rows[row]|
      modifies this`rows
      ensures Valid() && |rows| == |old(rows)|
      ensures forall r: nat, c: nat ::
        CellAt(rows, r, c) == if r == row && c < n then BLANK else CellAt(old(rows), r, c)
    {
      for i := 0 to n
        invariant Valid() && |rows| == |old(rows)| && |rows[row]| == |old(rows)[row]|
        invariant forall r: nat, c: nat ::
          CellAt(rows, r, c) == if r == row && c < i then BLANK else CellAt(old(rows), r, c)
      {
        ghost var before := rows;
        rows := rows[row := rows[row][i := BLANK]];
        forall r: nat, c: nat
          ensures CellAt(rows, r, c) == if r == row && c == i then BLANK else CellAt(before, r, c)
        {
          BlankedCell(before, row, i, r, c);
        }
      }
    }

    /** ED: below the cursor, or the whole viewport. */
    method EraseInPage(mode: nat, ghost p: Picture)
      requires Valid() && Shows(p)
      modifies this`rows
      ensures Valid() && Shows(p.PageErased(mode))
    {
      if mode == 0 {
        Line(p);
        ghost var before := rows;
        rows := rows[row := rows[row][..Min(col, |rows[row]|)]];
        ghost var cut := rows;
        rows := rows[..row + 1];
        forall r: nat, c: nat
          ensures CellAt(rows, r, c) == if (r == row && col <= c) || row < r then BLANK else CellAt(before, r, c)
        {
          CutLine(before, row, col, r, c);
          CutRows(cut, row, r, c);
        }
      } else if mode == 2 || mode == 3 {
        ClearFrom(Top());
      }
    }

    /** Clears every row from `first` on, in place. */
    method ClearFrom(first: nat)
      requires Valid() && first <= |rows|
      modifies this`rows
      ensures Valid() && |rows| == |old(rows)|
      ensures forall r: nat, c: nat ::
        CellAt(rows, r, c) == if first <= r then BLANK else CellAt(old(rows), r, c)
    {
      for i := first to |rows|
        invariant Valid() && |rows| == |old(rows)|
        invariant forall r: nat, c: nat ::
          CellAt(rows, r, c) == if first <= r < i then BLANK else CellAt(old(rows), r, c)
      {
        ghost var before := rows;
        rows := rows[i := []];
        forall r: nat, c: nat ensures CellAt(rows, r, c) == if r == i then BLANK else CellAt(before, r, c) {
          ClearedLine(before, i, r, c);
        }
      }
    }

    /** One control sequence; a parameter that is not a number, or is too long a one, is an error. */
    method Csi(rawParams: string, final: char, ghost p: Picture) returns (ok: bool)
      requires Valid() && Shows(p)
      modifies this
      ensures ok <==> Private(rawParams) || ParseParams(rawParams).Some?
      ensures Valid() && Shows(if ok then Commanded(p, rawParams, final) else p)
    {
      hide Sgr, ParseParams, Private, StyleOk, RowsOk, CellAt;
      hide Picture.LineErased, Picture.PageErased;
      if Private(rawParams) {
        return true;
      }
      var parsed := ParseParams(rawParams);
      if parsed.None? {
        return false;
      }
      ok := true;
      var params := parsed.value;
      var n := if params != [] && params[0] != 0 then params[0] else 1;
      var mode := if params == [] then 0 else params[0];
      match final
      case 'm' =>
        SgrOk(style, if params == [] then [0] else params);
        style := ApplySgr(style, if params == [] then [0] else params);
      case 'G' => col := n - 1;
      case 'A' => row := Max(Top(), row - n);
      case 'B' => row := row + n;
      case 'C' => col := col + n;
      case 'D' => col := Max(0, col - n);
      case 'E' => row, col := row + n, 0;
      case 'F' => row, col := Max(Top(), row - n), 0;
      case 'H' =>
        row, col := Top() + n - 1, if |params| > 1 && params[1] != 0 then params[1] - 1 else 0;
      case 'f' =>
        row, col := Top() + n - 1, if |params| > 1 && params[1] != 0 then params[1] - 1 else 0;
      case 'K' => EraseInLine(mode, p);
      case 'J' => EraseInPage(mode, p);
      case _ =>
    }

    /** One character that is not part of an escape sequence. */
    method Type(ch: char, ghost p: Picture)
      requires Valid() && Shows(p)
      modifies this
      ensures Valid() && Shows(p.Typed(ch))
    {
      hide StyleOk, RowsOk, CellAt;
      hide Picture.Drawn;
      if ch == '\r' {
        col := 0;
      } else if ch == '\n' {
        row, col := row + 1, 0;
        Line(p.(row := p.row + 1, col := 0));
      } else if ch == '\U{8}' {
        col := Max(0, col - 1);
      } else if ch == '\t' {
        col := col + 8 - col % 8;
      } else if ch >= ' ' {
        Put(ch, p);
      }
    }

    /** A whole transcript: the screen shows what its pieces, one by one, make of the picture. */
    method Feed(text: string, ghost p: Picture) returns (ok: bool)
      requires Valid() && Shows(p)
      modifies this
      ensures Valid() && ok == Fed(p, text).Some? && (ok ==> Shows(Fed(p, text).value))
    {
      hide Fed, NextPiece, Commanded, ParseParams, Private, StyleOk, RowsOk, CellAt;
      hide Picture.Typed;
      ok := true;
      var i := 0;
      ghost var now := p;
      assert text[0..] == text;
      while i < |text|
        invariant 0 <= i <= |text| && Valid() && Shows(now)
        invariant Fed(p, text) == Fed(now, text[i..])
      {
        var (piece, length) := NextPiece(text[i..]);
        FedUnfold(now, text, i);
        match piece {
          case Typed(ch) =>
            Type(ch, now);
            now := now.Typed(ch);
          case Control(params, final) =>
            ok := Csi(params, final, now);
            if !ok {
              return;
            }
            now := Commanded(now, params, final);
          case Ignored =>
        }
        i := i + length;
      }
      FedNothing(now, text[i..]);
    }

    /** The HTML of row `r`, whose trailing blanks are popped in place. */
    method RowHtml(r: nat) returns (html: string)
      requires r < |rows|
      modifies this`rows
      ensures rows == old(rows)[r := Trim(old(rows)[r])]
      ensures html == RowText(rows[r], DEFAULT)
    {
      while rows[r] != [] && rows[r][|rows[r]| - 1] == BLANK
        invariant r < |rows| && rows == old(rows)[r := rows[r]]
        invariant Trim(rows[r]) == Trim(old(rows)[r])
        decreases |rows[r]|
      {
        rows := rows[r := rows[r][..|rows[r]| - 1]];
      }
      html := RowSpans(rows[r]);
    }

    /**
     The HTML of the picture. It trims rows as it goes, which the picture does not show;
     and reading the HTML back gives every cell of the picture.
     */
    method Html(ghost p: Picture) returns (html: string)
      requires Valid() && Shows(p)
      modifies this`rows
      ensures Valid() && Shows(p)
      ensures html == HtmlOf(old(rows))
      ensures HtmlShows(html, p)
    {
      hide Kept, Visible, Trim, RowText, Join, HtmlShows, CellAt, RowOk, RowsOk, StyleOk;
      var kept := rows;
      while kept != [] && !Visible(kept[|kept| - 1])
        invariant kept <= rows == old(rows) && Kept(kept) == Kept(rows)
      {
        KeptUnfold(kept);
        kept := kept[..|kept| - 1];
      }
      KeptUnfold(kept);
      var lines := [];
      for r := 0 to |kept|
        invariant |lines| == r && |kept| <= |rows| == |old(rows)|
        invariant forall k :: 0 <= k < r ==> rows[k] == Trim(old(rows)[k]) && lines[k] == RowText(rows[k], DEFAULT)
        invariant forall k :: r <= k < |rows| ==> rows[k] == old(rows)[k]
      {
        var line := RowHtml(r);
        lines := lines + [line];
      }
      html := Join(lines, "\n");
      assert lines == Lines(Canonical(old(rows)));
      TrimmedOk(old(rows), rows, |kept|);
      TrimmedSame(old(rows), rows, |kept|);
      OldRowsShow(old(rows), html, p);
    }
  }

  /** A terminal before any input. */
  const START := Picture((r: nat, c: nat) => BLANK, 1, 0, 0, DEFAULT)

  ghost predicate Draws(rows: Rows, p: Picture) {
    forall r: nat, c: nat :: p.grid(r, c) == CellAt(rows, r, c)
  }

  /**
   The HTML is the picture's grid and nothing else: reading it gives every cell back, and
   any rows at all that stand for the same grid have the same HTML.
   */
  ghost predicate HtmlShows(html: string, p: Picture) {
    && DecodePage(html).Some? && Draws(DecodePage(html).value, p)
    && (exists rows :: RowsOk(rows) && Draws(rows, p))
    && forall rows :: RowsOk(rows) && Draws(rows, p) ==> HtmlOf(rows) == html
  }

  lemma OldRowsShow(rows: Rows, html: string, p: Picture)
    requires RowsOk(rows) && Draws(rows, p) && html == HtmlOf(rows)
    ensures HtmlShows(html, p)
  {
    hide HtmlOf, DecodePage, RowsOk, CellAt;
    HtmlLosesNothing(rows);
    var page := DecodePage(html).value;
    forall r: nat, c: nat ensures p.grid(r, c) == CellAt(page, r, c) {
      assert CellAt(page, r, c) == CellAt(rows, r, c);
    }
    forall other | RowsOk(other) && Draws(other, p) ensures HtmlOf(other) == html {
      forall r: nat, c: nat ensures CellAt(other, r, c) == CellAt(rows, r, c) {
        assert p.grid(r, c) == CellAt(rows, r, c);
      }
      HtmlIsTheGrid(other, rows);
    }
  }

  /** A captured transcript as one block of HTML; none where a parameter is not a number. */
  method RenderAnsi(text: string) returns (page: Option<string>)
    ensures page.Some? <==> Fed(START, text).Some?
    ensures page.Some? ==> exists html ::
      && HtmlShows(html, Fed(START, text).value)
      && page.value == "<pre><code class=\"nohighlight ansi\">" + html + "</code></pre>"
  {
    hide HtmlShows, Fed;
    var terminal := new Terminal();
    var ok := terminal.Feed(text, START);
    if !ok {
      return None;
    }
    var html := terminal.Html(Fed(START, text).value);
    page := Some("<pre><code class=\"nohighlight ansi\">" + html + "</code></pre>");
  }

  /** Two transcripts render alike exactly when they settle into the same grid. */
  lemma RenderedAlike(p: Picture, q: Picture, a: string, b: string)
    requires HtmlShows(a, p) && HtmlShows(b, q)
    ensures a == b <==> forall r: nat, c: nat :: p.grid(r, c) == q.grid(r, c)
  {
    hide DecodePage, HtmlOf, RowsOk, CellAt;
    var page := DecodePage(a).value;
    if a == b {
      forall r: nat, c: nat ensures p.grid(r, c) == q.grid(r, c) {
        assert p.grid(r, c) == CellAt(page, r, c) && q.grid(r, c) == CellAt(page, r, c);
      }
    }
    if forall r: nat, c: nat :: p.grid(r, c) == q.grid(r, c) {
      var rows :| RowsOk(rows) && Draws(rows, p);
      assert Draws(rows, q);
    }
  }

  /** Some rows trimmed: nothing that shows, and nothing that makes them well formed, is lost. */
  lemma TrimmedSame(before: Rows, after: Rows, n: nat)
    requires n <= |before| == |after|
    requires forall k :: 0 <= k < n ==> after[k] == Trim(before[k])
    requires forall k :: n <= k < |before| ==> after[k] == before[k]
    ensures SameGrid(before, after)
  {
    hide Trim;
    forall r: nat, c: nat ensures CellAt(before, r, c) == CellAt(after, r, c) {
      if r < n {
        TrimIs(before[r]);
      }
    }
  }

  lemma TrimmedOk(before: Rows, after: Rows, n: nat)
    requires n <= |before| == |after| && RowsOk(before)
    requires forall k :: 0 <= k < n ==> after[k] == Trim(before[k])
    requires forall k :: n <= k < |before| ==> after[k] == before[k]
    ensures RowsOk(after)
  {
    hide Trim, CellOk;
    forall r | 0 <= r < |after| ensures RowOk(after[r]) {
      TrimIs(before[r]);
      assert RowOk(before[r]);
    }
  }

  lemma KeptUnfold(rows: Rows)
    ensures Kept(rows) == if rows != [] && !Visible(rows[|rows| - 1]) then Kept(rows[..|rows| - 1]) else rows
  {
  }

  /** What one piece makes of a picture; none if a parameter is not a number. */
  ghost function Shown(p: Picture, piece: Piece): Option<Picture> {
    match piece
    case Typed(ch) => Some(p.Typed(ch))
    case Control(params, final) =>
      if Private(params) || ParseParams(params).Some? then Some(Commanded(p, params, final)) else None
    case Ignored => Some(p)
  }

  ghost function Fed(p: Picture, text: string): Option<Picture>
    decreases |text|
  {
    if text == "" then Some(p)
    else
      var (piece, length) := NextPiece(text);
      match Shown(p, piece)
      case None => None
      case Some(q) => Fed(q, text[length..])
  }

  lemma FedUnfold(p: Picture, text: string, i: nat)
    requires i < |text|
    ensures var (piece, length) := NextPiece(text[i..]);
      && i < i + length <= |text|
      && (Shown(p, piece).Some? ==> Fed(p, text[i..]) == Fed(Shown(p, piece).value, text[i + length..]))
      && (Shown(p, piece).None? ==> Fed(p, text[i..]).None?)
  {
    hide Shown;
    var (piece, length) := NextPiece(text[i..]);
    assert text[i..][length..] == text[i + length..];
  }

  lemma FedNothing(p: Picture, text: string)
    requires text == ""
    ensures Fed(p, text) == Some(p)
  {
  }

  /** Printable text appears, unaltered, from the cursor on, and nothing else changes. */
  lemma {:induction false} PrintableTextIsShown(p: Picture, text: string)
    requires forall i :: 0 <= i < |text| ==> text[i] >= ' '
    ensures Fed(p, text).Some?
    ensures var q := Fed(p, text).value;
      && q.row == p.row && q.col == p.col + |text| && q.style == p.style
      && forall r: nat, c: nat ::
        q.grid(r, c) == if r == p.row && p.col <= c < p.col + |text|
                        then Cell(text[c - p.col], p.style) else p.grid(r, c)
    decreases |text|
  {
    if text != "" {
      assert NextPiece(text) == (Typed(text[0]), 1);
      var next := p.Drawn(text[0]);
      PrintableTextIsShown(next, text[1..]);
    }
  }

  // ----- reading control sequences

  predicate Private(rawParams: string) {
    rawParams != "" && rawParams[0] in "<=>?"
  }

  function ColonsAsSemicolons(s: string): string {
    seq(|s|, i requires 0 <= i < |s| => if s[i] == ':' then ';' else s[i])
  }

  /** How many digits Python's `int` reads before it refuses a number as too long. */
  const MAX_DIGITS := 4300

  function ParseNumber(field: string): Option<nat> {
    if |field| > MAX_DIGITS then None else Digits(field, 0)
  }

  function ParseAll(fields: seq<string>): Option<seq<nat>> {
    if fields == [] then Some([])
    else
      match (ParseNumber(fields[0]), ParseAll(fields[1..]))
      case (Some(n), Some(rest)) => Some([n] + rest)
      case _ => None
  }

  /** The numbers between semicolons, an empty one being zero; none if anything else is there. */
  function ParseParams(rawParams: string): Option<seq<nat>> {
    if rawParams == "" then Some([]) else ParseAll(Split(ColonsAsSemicolons(rawParams), ';'))
  }

  ghost function Commanded(p: Picture, rawParams: string, final: char): Picture
    requires Private(rawParams) || ParseParams(rawParams).Some?
  {
    if Private(rawParams) then p else p.Controlled(ParseParams(rawParams).value, final)
  }
}
