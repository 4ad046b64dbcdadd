/**
 Ragged rows of styled cells, and the unbounded grid they stand for: blank wherever
 nothing was drawn.
 */
module Grid {
  import opened Styles

  datatype Cell = Cell(ch: char, style: Style)

  const BLANK := Cell(' ', DEFAULT)

  type Rows = seq<seq<Cell>>

  function RowAt(row: seq<Cell>, c: nat): Cell {
    if c < |row| then row[c] else BLANK
  }

  /** The cell of the grid that ragged rows stand for. */
  function CellAt(rows: Rows, r: nat, c: nat): Cell {
    if r < |rows| then RowAt(rows[r], c) else BLANK
  }

  ghost predicate SameGrid(a: Rows, b: Rows) {
    forall r: nat, c: nat :: CellAt(a, r, c) == CellAt(b, r, c)
  }

  /** A cell a transcript can hold: no control character, and a style an attribute can carry. */
  predicate CellOk(cell: Cell) {
    cell.ch >= ' ' && StyleOk(cell.style)
  }

  predicate RowOk(row: seq<Cell>) {
    forall c :: 0 <= c < |row| ==> CellOk(row[c])
  }

  predicate RowsOk(rows: Rows) {
    forall r :: 0 <= r < |rows| ==> RowOk(rows[r])
  }

  // ----- the part that can be seen

  predicate Visible(row: seq<Cell>) {
    exists c :: 0 <= c < |row| && row[c] != BLANK
  }

  /** A row without its trailing blanks. */
  function Trim(row: seq<Cell>): seq<Cell> {
    if row != [] && row[|row| - 1] == BLANK then Trim(row[..|row| - 1]) else row
  }

  /** The rows without the blank ones at the end. */
  function Kept(rows: Rows): Rows {
    if rows != [] && !Visible(rows[|rows| - 1]) then Kept(rows[..|rows| - 1]) else rows
  }

  function TrimAll(rows: Rows): (trimmed: Rows)
    ensures |trimmed| == |rows|
    ensures forall r :: 0 <= r < |rows| ==> trimmed[r] == Trim(rows[r])
  {
    if rows == [] then [] else [Trim(rows[0])] + TrimAll(rows[1..])
  }

  /** The least rows that stand for the same grid. */
  function Canonical(rows: Rows): Rows {
    TrimAll(Kept(rows))
  }

  // ----- the least rows are a function of the grid

  lemma {:induction false} TrimIs(row: seq<Cell>)
    ensures Trim(row) <= row
    ensures Trim(row) != [] ==> Trim(row)[|Trim(row)| - 1] != BLANK
    ensures forall c: nat :: RowAt(Trim(row), c) == RowAt(row, c)
  {
    if row != [] && row[|row| - 1] == BLANK {
      TrimIs(row[..|row| - 1]);
    }
  }

  lemma TrimUnique(a: seq<Cell>, b: seq<Cell>)
    requires forall c: nat :: RowAt(a, c) == RowAt(b, c)
    ensures Trim(a) == Trim(b)
  {
    hide Trim;
    TrimIs(a);
    TrimIs(b);
    TrimNoLonger(Trim(a), Trim(b));
    TrimNoLonger(Trim(b), Trim(a));
    forall c | 0 <= c < |Trim(a)| ensures Trim(a)[c] == Trim(b)[c] {
      assert RowAt(Trim(a), c) == RowAt(a, c) && RowAt(Trim(b), c) == RowAt(b, c);
    }
  }

  lemma TrimNoLonger(a: seq<Cell>, b: seq<Cell>)
    requires a != [] ==> a[|a| - 1] != BLANK
    requires forall c: nat :: RowAt(a, c) == RowAt(b, c)
    ensures |a| <= |b|
  {
    if a != [] {
      assert RowAt(a, |a| - 1) == RowAt(b, |a| - 1);
    }
  }

  lemma {:induction false} KeptIs(rows: Rows)
    ensures Kept(rows) <= rows
    ensures Kept(rows) != [] ==> Visible(Kept(rows)[|Kept(rows)| - 1])
    ensures forall r :: |Kept(rows)| <= r < |rows| ==> !Visible(rows[r])
  {
    hide Visible;
    if rows != [] && !Visible(rows[|rows| - 1]) {
      KeptIs(rows[..|rows| - 1]);
    }
  }

  lemma KeptNoLonger(a: Rows, b: Rows)
    requires SameGrid(a, b)
    ensures |Kept(a)| <= |Kept(b)|
  {
    hide Kept;
    KeptIs(a);
    KeptIs(b);
    if Kept(a) != [] {
      var r := |Kept(a)| - 1;
      var c :| 0 <= c < |Kept(a)[r]| && Kept(a)[r][c] != BLANK;
      assert CellAt(a, r, c) == CellAt(b, r, c);
    }
  }

  /** Rows that stand for the same grid have the same least form. */
  lemma CanonicalUnique(a: Rows, b: Rows)
    requires SameGrid(a, b)
    ensures Canonical(a) == Canonical(b)
  {
    hide Kept, Trim;
    KeptNoLonger(a, b);
    KeptNoLonger(b, a);
    KeptIs(a);
    KeptIs(b);
    forall r | 0 <= r < |Kept(a)| ensures Canonical(a)[r] == Canonical(b)[r] {
      forall c: nat ensures RowAt(a[r], c) == RowAt(b[r], c) {
        assert CellAt(a, r, c) == CellAt(b, r, c);
      }
      TrimUnique(a[r], b[r]);
    }
  }

  /** The least rows show what the rows show. */
  lemma CanonicalSame(rows: Rows)
    ensures SameGrid(Canonical(rows), rows)
  {
    hide Kept, Trim;
    KeptIs(rows);
    forall r: nat, c: nat ensures CellAt(Canonical(rows), r, c) == CellAt(rows, r, c) {
      if r < |Kept(rows)| {
        TrimIs(rows[r]);
      }
    }
  }

  lemma CanonicalOk(rows: Rows)
    requires RowsOk(rows)
    ensures RowsOk(Canonical(rows))
  {
    hide Kept, Trim, CellOk;
    KeptIs(rows);
    forall r | 0 <= r < |Kept(rows)| ensures RowOk(Canonical(rows)[r]) {
      TrimIs(rows[r]);
      assert RowOk(rows[r]);
    }
  }
}
