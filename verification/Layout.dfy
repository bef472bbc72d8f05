/** What the console shows: the last rows of the layout of everything printed since it was cleared. */
module Layout {
  import opened Bytes
  import opened Console

  /** Length of the first row of a text: up to a row end, the right margin or the end of the text. */
  function RowLength(b: seq<byte>): (e: nat)
    ensures e <= |b| && e <= COLS
    ensures forall i | 0 <= i < e :: !EndsRow(b[i])
    ensures e < COLS && e < |b| ==> EndsRow(b[e])
  {
    RowLengthFrom(b, 0)
  }

  function RowLengthFrom(b: seq<byte>, i: nat): (e: nat)
    requires i <= |b| && i <= COLS
    requires forall j | 0 <= j < i :: !EndsRow(b[j])
    ensures i <= e <= |b| && e <= COLS
    ensures forall j | 0 <= j < e :: !EndsRow(b[j])
    ensures e < COLS && e < |b| ==> EndsRow(b[e])
    decreases COLS - i
  {
    if i == |b| || i == COLS || EndsRow(b[i]) then i else RowLengthFrom(b, i + 1)
  }

  predicate RowComplete(b: seq<byte>)
  {
    RowLength(b) == COLS || RowLength(b) < |b|
  }

  function FirstRow(b: seq<byte>): seq<byte>
  {
    b[..RowLength(b)]
  }

  function AfterRow(b: seq<byte>): (r: seq<byte>)
    requires RowComplete(b)
    ensures |r| < |b|
  {
    if RowLength(b) == COLS then b[COLS..] else b[RowLength(b) + 1..]
  }

  /** The rows of a text on an endless screen of COLS columns.  A row that reaches the right margin ends
      there, so a row end after exactly COLS characters leaves an empty row behind. */
  function Rows(b: seq<byte>): (rows: seq<seq<byte>>)
    ensures rows != [] && |rows[|rows| - 1]| < COLS
    decreases |b|
  {
    if RowComplete(b) then [FirstRow(b)] + Rows(AfterRow(b)) else [b]
  }

  /** Printing one more byte on the endless screen. */
  function Extend(rows: seq<seq<byte>>, c: byte): seq<seq<byte>>
    requires rows != []
  {
    var n := |rows| - 1;
    if EndsRow(c) then rows + [[]]
    else if |rows[n]| + 1 >= COLS then rows[..n] + [rows[n] + [c], []]
    else rows[..n] + [rows[n] + [c]]
  }

  lemma RowLengthIs(b: seq<byte>, e: nat)
    requires e <= |b| && e <= COLS
    requires forall i | 0 <= i < e :: !EndsRow(b[i])
    requires e < COLS && e < |b| ==> EndsRow(b[e])
    ensures RowLength(b) == e
  {
  }

  lemma ExtendCons(r: seq<byte>, rows: seq<seq<byte>>, c: byte)
    requires rows != []
    ensures Extend([r] + rows, c) == [r] + Extend(rows, c)
  {
  }

  lemma RowStaysComplete(b: seq<byte>, c: byte)
    requires RowComplete(b)
    ensures RowComplete(b + [c]) && FirstRow(b + [c]) == FirstRow(b) && AfterRow(b + [c]) == AfterRow(b) + [c]
  {
    RowLengthIs(b + [c], RowLength(b));
  }

  lemma {:induction false} RowsSnoc(b: seq<byte>, c: byte)
    ensures Rows(b + [c]) == Extend(Rows(b), c)
    decreases |b|
  {
    hide RowLength, AfterRow, FirstRow, Extend;
    if RowComplete(b) {
      RowStaysComplete(b, c);
      RowsSnoc(AfterRow(b), c);
      ExtendCons(FirstRow(b), Rows(AfterRow(b)), c);
    } else {
      LastRowGrows(b, c);
    }
  }

  lemma RowsEmpty()
    ensures Rows([]) == [[]]
  {
  }

  lemma LastRowGrows(b: seq<byte>, c: byte)
    requires !RowComplete(b)
    ensures Rows(b + [c]) == Extend([b], c)
  {
    hide Rows, RowLengthFrom;
    RowsEmpty();
    var d := b + [c];
    RowLengthIs(d, if EndsRow(c) then |b| else |b| + 1);
    RowsUnfold(d);
    assert d[..|b|] == b && d[..|b| + 1] == d && d[|b| + 1..] == [];
  }

  lemma RowsUnfold(b: seq<byte>)
    ensures Rows(b) == if RowComplete(b) then [FirstRow(b)] + Rows(AfterRow(b)) else [b]
  {
  }

  // ----- What it means for a screen to show a list of rows.

  function Cell(s: Screen, row: int, col: int): byte
    requires Ok(s) && 0 <= row < ROWS && 0 <= col < COLS
  {
    s.text[COLS * row + col]
  }

  function Glyph(rows: seq<seq<byte>>, row: int, col: int): byte
    requires 0 <= row && 0 <= col
  {
    if row < |rows| && col < |rows[row]| then rows[row][col] else SPACE
  }

  /** Index of the row shown at the top of the screen. */
  function Top(rows: seq<seq<byte>>): (t: nat)
  {
    if |rows| <= ROWS then 0 else |rows| - ROWS
  }

  ghost predicate ShowsText(s: Screen, rows: seq<seq<byte>>, top: nat)
    requires Ok(s)
  {
    forall row, col | 0 <= row < ROWS && 0 <= col < COLS ::
      Cell(s, row, col) == Glyph(rows, top + row, col)
  }

  /** The screen shows the last ROWS rows, blank-padded, in the one attribute, with the cursor after the
      last character. */
  ghost predicate Shows(s: Screen, rows: seq<seq<byte>>)
    requires Ok(s) && rows != []
  {
    && s.y == |rows| - 1 - Top(rows)
    && s.x == |rows[|rows| - 1]|
    && s.attr == Repeat(ATTRIB, CELLS)
    && ShowsText(s, rows, Top(rows))
  }

  lemma NextRowShows(s: Screen, rows: seq<seq<byte>>)
    requires Ok(s) && rows != [] && s.attr == Repeat(ATTRIB, CELLS)
    requires s.y == |rows| - 1 - Top(rows) && ShowsText(s, rows, Top(rows))
    ensures Shows(NextRow(s), rows + [[]])
  {
    var t, after := NextRow(s), rows + [[]];
    forall row, col | 0 <= row < ROWS && 0 <= col < COLS
      ensures Cell(t, row, col) == Glyph(after, Top(after) + row, col)
    {
      if s.y + 1 < ROWS {
        assert Cell(t, row, col) == Cell(s, row, col);
      } else if row < ROWS - 1 {
        assert Cell(t, row, col) == Cell(s, row + 1, col);
      } else {
        assert Cell(t, row, col) == SPACE;
      }
    }
  }

  lemma WrittenShows(s: Screen, rows: seq<seq<byte>>, c: byte)
    requires Ok(s) && rows != [] && Shows(s, rows)
    ensures var n := |rows| - 1; var after := rows[..n] + [rows[n] + [c]];
            var t := Written(s, c);
            t.attr == Repeat(ATTRIB, CELLS) && ShowsText(t, after, Top(after))
  {
    var n := |rows| - 1;
    var after, t := rows[..n] + [rows[n] + [c]], Written(s, c);
    forall row, col | 0 <= row < ROWS && 0 <= col < COLS
      ensures Cell(t, row, col) == Glyph(after, Top(after) + row, col)
    {
      assert Cell(s, row, col) == Glyph(rows, Top(rows) + row, col);
    }
  }

  lemma PutShows(s: Screen, rows: seq<seq<byte>>, c: byte)
    requires Ok(s) && rows != [] && Shows(s, rows)
    ensures Shows(Put(s, c), Extend(rows, c))
  {
    var n := |rows| - 1;
    if EndsRow(c) {
      NextRowShows(s, rows);
    } else {
      WrittenShows(s, rows, c);
      var after := rows[..n] + [rows[n] + [c]];
      if s.x + 1 >= COLS {
        NextRowShows(Written(s, c), after);
        assert Extend(rows, c) == after + [[]];
      } else {
        WrittenKeepsText(s, after, c);
      }
    }
  }

  lemma WrittenKeepsText(s: Screen, rows: seq<seq<byte>>, c: byte)
    requires Ok(s) && s.x + 1 < COLS && ShowsText(Written(s, c), rows, Top(rows))
    ensures ShowsText(Written(s, c).(x := s.x + 1), rows, Top(rows))
  {
    var t := Written(s, c).(x := s.x + 1);
    forall row, col | 0 <= row < ROWS && 0 <= col < COLS
      ensures Cell(t, row, col) == Glyph(rows, Top(rows) + row, col)
    {
      assert Cell(Written(s, c), row, col) == Glyph(rows, Top(rows) + row, col);
    }
  }

  lemma ClearedShows()
    ensures Shows(Cleared(), Rows([]))
  {
  }

  /** Whatever is printed after a clear, the screen shows the end of its layout. */
  lemma {:induction false} ConsoleShowsLayout(bytes: seq<byte>)
    ensures Shows(PutAll(Cleared(), bytes), Rows(bytes))
    decreases |bytes|
  {
    hide Shows, Rows, Put, Extend, Cleared;
    if bytes == [] {
      ClearedShows();
    } else {
      var b, c := bytes[..|bytes| - 1], bytes[|bytes| - 1];
      ConsoleShowsLayout(b);
      RowsSnoc(b, c);
      assert b + [c] == bytes;
      PutShows(PutAll(Cleared(), b), Rows(b), c);
    }
  }

  /** Shows leaves nothing open: two screens that show the same rows are the same screen. */
  lemma ShowsDetermines(s: Screen, t: Screen, rows: seq<seq<byte>>)
    requires Ok(s) && Ok(t) && rows != [] && Shows(s, rows) && Shows(t, rows)
    ensures s == t
  {
    forall i | 0 <= i < CELLS ensures s.text[i] == t.text[i] {
      assert Cell(s, i / COLS, i % COLS) == Cell(t, i / COLS, i % COLS);
    }
  }

  /** Everything from the cursor on is blank. */
  lemma BlankFromCursor(s: Screen, rows: seq<seq<byte>>)
    requires Ok(s) && rows != [] && Shows(s, rows)
    ensures forall i | Cursor(s) <= i < CELLS :: s.text[i] == SPACE
  {
    forall i | Cursor(s) <= i < CELLS ensures s.text[i] == SPACE {
      assert Cell(s, i / COLS, i % COLS) == Glyph(rows, Top(rows) + i / COLS, i % COLS);
    }
  }

  // ----- The layout of a text, said without the terms it is defined with.

  /** No byte that ends a row. */
  ghost predicate NoRowEnd(b: seq<byte>)
  {
    forall i | 0 <= i < |b| :: b[i] != 10 && b[i] != 13
  }

  /** A short text is one row; a newline or a carriage return ends a row of fewer than 80 characters; 80 characters
      fill a row. */
  lemma RowsOfText(a: seq<byte>, c: byte, b: seq<byte>)
    requires NoRowEnd(a)
    ensures |a| < 80 ==> Rows(a) == [a]
    ensures |a| < 80 && (c == 10 || c == 13) ==> Rows(a + [c] + b) == [a] + Rows(b)
    ensures |a| == 80 ==> Rows(a + b) == [a] + Rows(b)
  {
    hide Rows, RowLengthFrom;
    if |a| < 80 {
      RowLengthIs(a, |a|);
      RowsUnfold(a);
      if c == 10 || c == 13 {
        var d := a + [c] + b;
        RowLengthIs(d, |a|);
        RowsUnfold(d);
        assert d[..|a|] == a && d[|a| + 1..] == b;
      }
    } else if |a| == 80 {
      var d := a + b;
      RowLengthIs(d, 80);
      RowsUnfold(d);
      assert d[..80] == a && d[80..] == b;
    }
  }

  // ----- The other operations, cell by cell.

  /** Clearing a row blanks its 80 cells and no others. */
  lemma BlankRowCells(s: Screen, which: int, row: int, col: int)
    requires Ok(s) && 0 <= which < ROWS && 0 <= row < ROWS && 0 <= col < COLS
    ensures Cell(BlankRow(s, which), row, col) == if row == which then 32 else Cell(s, row, col)
    ensures BlankRow(s, which).attr[80 * row + col] == if row == which then 7 else s.attr[80 * row + col]
    ensures BlankRow(s, which).x == s.x && BlankRow(s, which).y == s.y
  {
  }

  /** Scrolling moves every row up by one and keeps the last. */
  lemma ScrolledCells(s: Screen, row: int, col: int)
    requires Ok(s) && 0 <= row < ROWS && 0 <= col < COLS
    ensures Cell(Scrolled(s), row, col) == Cell(s, if row < 24 then row + 1 else 24, col)
    ensures Scrolled(s).attr[80 * row + col] == if row < 24 then 7 else s.attr[80 * row + col]
    ensures Scrolled(s).x == s.x && Scrolled(s).y == s.y
  {
  }

  /** Backspace takes the last character off a row that has one. */
  lemma BackspaceShows(s: Screen, rows: seq<seq<byte>>)
    requires Ok(s) && rows != [] && Shows(s, rows) && rows[|rows| - 1] != []
    ensures var n := |rows| - 1;
            Shows(Deleted(s), rows[..n] + [rows[n][..|rows[n]| - 1]])
  {
    var n := |rows| - 1;
    var last := rows[n];
    var after, t := rows[..n] + [last[..|last| - 1]], Deleted(s);
    forall row, col | 0 <= row < ROWS && 0 <= col < COLS
      ensures Cell(t, row, col) == Glyph(after, Top(after) + row, col)
    {
      assert Cell(s, row, col) == Glyph(rows, Top(rows) + row, col);
    }
  }

  /** Backspace undoes the printing of a character, over the end of a row too, unless that has scrolled the screen. */
  lemma BackspaceUndoesPut(s: Screen, rows: seq<seq<byte>>, c: byte)
    requires Ok(s) && rows != [] && Shows(s, rows) && c != 10 && c != 13
    requires !(s.x == 79 && s.y == 24)
    ensures Deleted(Put(s, c)) == s
  {
    BlankFromCursor(s, rows);
    var t := Deleted(Put(s, c));
    assert t.text == s.text[Cursor(s) := c][Cursor(s) := SPACE];
    assert t.attr == s.attr[Cursor(s) := ATTRIB][Cursor(s) := ATTRIB];
    assert s.text[Cursor(s)] == SPACE && s.attr[Cursor(s)] == ATTRIB;
  }
}
