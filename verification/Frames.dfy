/** add_frames of fish/fish.c: two pictures become one blinker per cell. */
module Frames {
  import opened Bytes
  import opened Grep
  import opened Blink
  import opened BlinkTiming

  const OFFSET := 40
  const WIDTH := 80
  const LENGTH: u16 := 15

  /** A character of a line, a space past its end. */
  function CharOf(line: seq<byte>, col: nat): byte
  {
    if col < |line| then line[col] else SPACE
  }

  /** The location field has sixteen bits. */
  const LOCATIONS := 65536

  function Location(row: nat, col: nat): u16
  {
    (row * WIDTH + col + OFFSET) % LOCATIONS
  }

  function Request(row: nat, col: nat, a: byte, b: byte): Blinker
  {
    Blinker(Location(row, col), a, b, LENGTH, LENGTH, 0, false)
  }

  /** The requests for the first n columns of a row: one per column where either line has something to show. */
  function RowRequests(row: nat, l0: seq<byte>, l1: seq<byte>, n: nat): seq<Blinker>
  {
    if n == 0 then []
    else
      var a, b := CharOf(l0, n - 1), CharOf(l1, n - 1);
      RowRequests(row, l0, l1, n - 1) + if a != SPACE || b != SPACE then [Request(row, n - 1, a, b)] else []
  }

  function Longer(a: seq<byte>, b: seq<byte>): nat
  {
    if |a| >= |b| then |a| else |b|
  }

  /** The two files zipped line by line from a row on. */
  function Requests(f0: seq<byte>, f1: seq<byte>, row: nat): seq<Blinker>
    decreases |f0| + |f1|
  {
    if f0 == [] && f1 == [] then []
    else
      RowRequests(row, FirstLine(f0), FirstLine(f1), Longer(FirstLine(f0), FirstLine(f1)))
      + Requests(AfterLine(f0), AfterLine(f1), row + 1)
  }

  /** A file being read one byte at a time: what is left of it, the character read last, and whether the end
      has been seen. */
  datatype Reader = Reader(rest: seq<byte>, c: byte, eof: bool)

  /** The reading step of the inner loop, fish/fish.c:102-108. */
  function Read(r: Reader): Reader
  {
    if r.c == NEWLINE then r
    else if r.rest == [] then Reader([], NEWLINE, true)
    else Reader(r.rest[1..], r.rest[0], r.eof)
  }

  /** The end of a row, fish/fish.c:132-137. */
  function NextLine(r: Reader): Reader
  {
    if r.eof then r.(c := NEWLINE) else r.(c := 48)
  }

  /** At the start of a row: an exhausted file has nothing left and stays on a newline. */
  ghost predicate RowStart(r: Reader, f: seq<byte>)
  {
    r.rest == f && if r.eof then f == [] && r.c == NEWLINE else r.c != NEWLINE
  }

  /** After col steps of a row that started with f: still inside the line, or past its end. */
  ghost predicate InRow(r: Reader, f: seq<byte>, col: nat)
  {
    if r.c != NEWLINE then col <= LineEnd(f) && !r.eof && r.rest == f[col..]
    else LineEnd(f) < col + (if f == [] then 1 else 0) && r.rest == AfterLine(f) && (r.eof ==> AfterLine(f) == [])
  }

  lemma ReadInRow(r: Reader, f: seq<byte>, col: nat)
    requires InRow(r, f, col)
    ensures InRow(Read(r), f, col + 1)
    ensures Read(r).c == if col < LineEnd(f) then f[col] else NEWLINE
    ensures r.c != NEWLINE ==> |Read(r).rest| < |r.rest| || (!r.eof && Read(r).eof)
  {
  }

  lemma CharInLine(f: seq<byte>, col: nat)
    ensures CharOf(FirstLine(f), col) == if col < LineEnd(f) then f[col] else SPACE
  {
  }

  lemma {:induction false} BeyondRow(row: nat, l0: seq<byte>, l1: seq<byte>, n: nat)
    requires n >= Longer(l0, l1)
    ensures RowRequests(row, l0, l1, n) == RowRequests(row, l0, l1, Longer(l0, l1))
  {
    if n > Longer(l0, l1) {
      BeyondRow(row, l0, l1, n - 1);
      assert RowRequests(row, l0, l1, n - 1) + [] == RowRequests(row, l0, l1, n - 1);
    }
  }

  lemma RowDone(row: nat, f0: seq<byte>, f1: seq<byte>, col: nat)
    requires LineEnd(f0) <= col && LineEnd(f1) <= col
    ensures var l0, l1 := FirstLine(f0), FirstLine(f1);
            RowRequests(row, l0, l1, col) == RowRequests(row, l0, l1, Longer(l0, l1))
  {
  }

  function Ended(r: Reader): nat
  {
    |r.rest| + if r.eof then 0 else 1
  }

  /** One row, fish/fish.c:99-130. */
  method AddRow(row: nat, start0: Reader, start1: Reader, ghost f0: seq<byte>, ghost f1: seq<byte>)
    returns (r0: Reader, r1: Reader, adds: seq<Blinker>)
    requires RowStart(start0, f0) && RowStart(start1, f1)
    ensures r0.c == NEWLINE && r1.c == NEWLINE && r0.rest == AfterLine(f0) && r1.rest == AfterLine(f1)
    ensures (r0.eof ==> AfterLine(f0) == []) && (r1.eof ==> AfterLine(f1) == [])
    ensures adds == RowRequests(row, FirstLine(f0), FirstLine(f1), Longer(FirstLine(f0), FirstLine(f1)))
    ensures Ended(r0) <= Ended(start0) && Ended(r1) <= Ended(start1)
    ensures start0.c != NEWLINE || start1.c != NEWLINE ==> Ended(r0) + Ended(r1) < Ended(start0) + Ended(start1)
  {
    hide AfterLine, FirstLine, LineEnd, CharOf, Longer, Request;
    r0, r1, adds := start0, start1, [];
    var col: nat := 0;
    ghost var l0, l1 := FirstLine(f0), FirstLine(f1);
    RowStartInRow(start0, f0);
    RowStartInRow(start1, f1);
    while true
      invariant InRow(r0, f0, col) && InRow(r1, f1, col)
      invariant adds == RowRequests(row, l0, l1, col)
      invariant Ended(r0) <= Ended(start0) && Ended(r1) <= Ended(start1)
      invariant col == 0 ==> r0 == start0 && r1 == start1
      invariant col > 0 ==> (r0.c != NEWLINE || r1.c != NEWLINE) && (start0.c != NEWLINE || start1.c != NEWLINE)
      invariant col > 0 ==> Ended(r0) + Ended(r1) < Ended(start0) + Ended(start1)
      decreases Ended(r0) + Ended(r1)
    {
      ReadInRow(r0, f0, col);
      ReadInRow(r1, f1, col);
      CharInLine(f0, col);
      CharInLine(f1, col);
      r0 := Read(r0);
      r1 := Read(r1);
      if r0.c == NEWLINE && r1.c == NEWLINE {
        RowDone(row, f0, f1, col);
        return;
      } else if (r0.c != SPACE && r0.c != NEWLINE) || (r1.c != SPACE && r1.c != NEWLINE) {
        var on := if r0.c == NEWLINE then SPACE else r0.c;
        var off := if r1.c == NEWLINE then SPACE else r1.c;
        adds := adds + [Request(row, col, on, off)];
      }
      col := col + 1;
    }
  }

  lemma RowStartInRow(r: Reader, f: seq<byte>)
    requires RowStart(r, f)
    ensures InRow(r, f, 0)
  {
  }

  /** add_frames on two files that open. */
  method AddFrames(f0: seq<byte>, f1: seq<byte>) returns (adds: seq<Blinker>)
    ensures adds == Requests(f0, f1, 0)
  {
    hide Requests, RowRequests, FirstLine, AfterLine, Longer;
    var r0, r1 := Reader(f0, 48, false), Reader(f1, 48, false);
    var row: nat := 0;
    adds := [];
    while !r0.eof || !r1.eof
      invariant RowStart(r0, r0.rest) && RowStart(r1, r1.rest)
      invariant adds + Requests(r0.rest, r1.rest, row) == Requests(f0, f1, 0)
      decreases Ended(r0) + Ended(r1)
    {
      RequestsUnfold(r0.rest, r1.rest, row);
      var more;
      r0, r1, more := AddRow(row, r0, r1, r0.rest, r1.rest);
      r0, r1 := NextLine(r0), NextLine(r1);
      row := row + 1;
      ConcatThree(adds, more, Requests(r0.rest, r1.rest, row));
      adds := adds + more;
    }
    NoRequests(row);
  }

  lemma ConcatThree(a: seq<Blinker>, b: seq<Blinker>, c: seq<Blinker>)
    ensures a + (b + c) == (a + b) + c
  {
  }

  lemma NoRequests(row: nat)
    ensures Requests([], [], row) == []
  {
  }

  lemma RequestsUnfold(f0: seq<byte>, f1: seq<byte>, row: nat)
    ensures Requests(f0, f1, row) ==
            RowRequests(row, FirstLine(f0), FirstLine(f1), Longer(FirstLine(f0), FirstLine(f1)))
            + Requests(AfterLine(f0), AfterLine(f1), row + 1)
  {
  }

  // ----- Which requests are made, and in which order.

  datatype Cell = Cell(row: nat, col: nat)

  /** Line number n of a file; empty behind the last one. */
  function LineAt(f: seq<byte>, n: nat): seq<byte>
    decreases n
  {
    if n == 0 then FirstLine(f) else LineAt(AfterLine(f), n - 1)
  }

  /** One of the two pictures has something to show there. */
  predicate Showing(f0: seq<byte>, f1: seq<byte>, row: nat, col: nat)
  {
    CharOf(LineAt(f0, row), col) != SPACE || CharOf(LineAt(f1, row), col) != SPACE
  }

  function RequestAt(f0: seq<byte>, f1: seq<byte>, first: nat, c: Cell): Blinker
    requires c.row >= first
  {
    Request(c.row, c.col, CharOf(LineAt(f0, c.row - first), c.col), CharOf(LineAt(f1, c.row - first), c.col))
  }

  function RowCells(row: nat, l0: seq<byte>, l1: seq<byte>, n: nat): seq<Cell>
  {
    if n == 0 then []
    else RowCells(row, l0, l1, n - 1)
         + if CharOf(l0, n - 1) != SPACE || CharOf(l1, n - 1) != SPACE then [Cell(row, n - 1)] else []
  }

  /** The cells requested from a row on. */
  function Cells(f0: seq<byte>, f1: seq<byte>, row: nat): seq<Cell>
    decreases |f0| + |f1|
  {
    if f0 == [] && f1 == [] then []
    else
      RowCells(row, FirstLine(f0), FirstLine(f1), Longer(FirstLine(f0), FirstLine(f1)))
      + Cells(AfterLine(f0), AfterLine(f1), row + 1)
  }

  predicate Before(a: Cell, b: Cell)
  {
    a.row < b.row || (a.row == b.row && a.col < b.col)
  }

  ghost predicate RowMajor(cells: seq<Cell>)
  {
    forall i, j | 0 <= i < j < |cells| :: Before(cells[i], cells[j])
  }

  lemma {:induction false} RowCellsExact(row: nat, l0: seq<byte>, l1: seq<byte>, n: nat)
    ensures forall c :: c in RowCells(row, l0, l1, n) <==>
              c.row == row && c.col < n && (CharOf(l0, c.col) != SPACE || CharOf(l1, c.col) != SPACE)
    ensures RowMajor(RowCells(row, l0, l1, n))
    ensures |RowRequests(row, l0, l1, n)| == |RowCells(row, l0, l1, n)|
    ensures forall i | 0 <= i < |RowCells(row, l0, l1, n)| ::
              var c := RowCells(row, l0, l1, n)[i];
              RowRequests(row, l0, l1, n)[i] == Request(row, c.col, CharOf(l0, c.col), CharOf(l1, c.col))
  {
    if n > 0 {
      RowCellsExact(row, l0, l1, n - 1);
      assert forall i | 0 <= i < |RowCells(row, l0, l1, n - 1)| ::
          RowCells(row, l0, l1, n)[i] in RowCells(row, l0, l1, n - 1);
    }
  }

  lemma {:induction false} NoLines(n: nat)
    ensures LineAt([], n) == []
  {
    if n > 0 {
      NoLines(n - 1);
    }
  }

  lemma CellsUnfold(f0: seq<byte>, f1: seq<byte>, row: nat)
    ensures Cells(f0, f1, row) ==
            RowCells(row, FirstLine(f0), FirstLine(f1), Longer(FirstLine(f0), FirstLine(f1)))
            + Cells(AfterLine(f0), AfterLine(f1), row + 1)
  {
  }

  /** The cells are those in which one of the pictures has something to show. */
  ghost predicate AllShowing(cells: seq<Cell>, f0: seq<byte>, f1: seq<byte>, row: nat)
  {
    forall c: Cell :: c in cells <==> c.row >= row && Showing(f0, f1, c.row - row, c.col)
  }

  /** The requests are made for these cells, in this order, with the two characters. */
  ghost predicate MadeFor(q: seq<Blinker>, cells: seq<Cell>, f0: seq<byte>, f1: seq<byte>, row: nat)
  {
    |q| == |cells| && forall i | 0 <= i < |q| :: cells[i].row >= row && q[i] == RequestAt(f0, f1, row, cells[i])
  }

  /** For any two files: exactly one request for every cell in which one of them has something to show, with the
      two characters, in row-major order. */
  lemma {:induction false} RequestsExact(f0: seq<byte>, f1: seq<byte>, row: nat)
    ensures AllShowing(Cells(f0, f1, row), f0, f1, row) && RowMajor(Cells(f0, f1, row))
    ensures MadeFor(Requests(f0, f1, row), Cells(f0, f1, row), f0, f1, row)
    decreases |f0| + |f1|
  {
    if f0 == [] && f1 == [] {
      forall c: Cell | c.row >= row ensures !Showing(f0, f1, c.row - row, c.col) {
        NoLines(c.row - row);
      }
    } else {
      var n := Longer(FirstLine(f0), FirstLine(f1));
      var here := RowCells(row, FirstLine(f0), FirstLine(f1), n);
      var rest := Cells(AfterLine(f0), AfterLine(f1), row + 1);
      RequestsExact(AfterLine(f0), AfterLine(f1), row + 1);
      CellsUnfold(f0, f1, row);
      RequestsUnfold(f0, f1, row);
      hide Cells, Requests, AllShowing, RowMajor, MadeFor, RowCells, RowRequests;
      RowThenRest(f0, f1, row, here, rest);
      MadeThenMade(f0, f1, row, Requests(AfterLine(f0), AfterLine(f1), row + 1), rest);
    }
  }

  lemma RowThenRest(f0: seq<byte>, f1: seq<byte>, row: nat, here: seq<Cell>, rest: seq<Cell>)
    requires here == RowCells(row, FirstLine(f0), FirstLine(f1), Longer(FirstLine(f0), FirstLine(f1)))
    requires AllShowing(rest, AfterLine(f0), AfterLine(f1), row + 1) && RowMajor(rest)
    ensures AllShowing(here + rest, f0, f1, row) && RowMajor(here + rest)
  {
    RowCellsExact(row, FirstLine(f0), FirstLine(f1), Longer(FirstLine(f0), FirstLine(f1)));
    LinesUnfold(f0);
    LinesUnfold(f1);
    hide RowCells, FirstLine, AfterLine, LineAt;
    assert forall i | 0 <= i < |here| :: here[i] in here;
    assert forall i | 0 <= i < |rest| :: rest[i] in rest;
  }

  lemma MadeThenMade(f0: seq<byte>, f1: seq<byte>, row: nat, q: seq<Blinker>, rest: seq<Cell>)
    requires MadeFor(q, rest, AfterLine(f0), AfterLine(f1), row + 1)
    ensures var l0, l1 := FirstLine(f0), FirstLine(f1);
            MadeFor(RowRequests(row, l0, l1, Longer(l0, l1)) + q, RowCells(row, l0, l1, Longer(l0, l1)) + rest,
                    f0, f1, row)
  {
    var l0, l1 := FirstLine(f0), FirstLine(f1);
    RowCellsExact(row, l0, l1, Longer(l0, l1));
    LinesUnfold(f0);
    LinesUnfold(f1);
    hide RowCells, RowRequests, FirstLine, AfterLine, LineAt, CharOf;
    var here := RowCells(row, l0, l1, Longer(l0, l1));
    assert forall i | 0 <= i < |here| :: here[i] in here;
  }

  lemma LinesUnfold(f: seq<byte>)
    ensures LineAt(f, 0) == FirstLine(f) && forall n: nat | n > 0 :: LineAt(f, n) == LineAt(AfterLine(f), n - 1)
  {
  }

  /** The requests and their cells, one by one. */
  lemma RequestsOfCells(f0: seq<byte>, f1: seq<byte>)
    ensures var q, cells := Requests(f0, f1, 0), Cells(f0, f1, 0);
            && |q| == |cells|
            && forall i | 0 <= i < |cells| ::
                 q[i].location == Location(cells[i].row, cells[i].col) && Showing(f0, f1, cells[i].row, cells[i].col)
  {
    var q, cells := Requests(f0, f1, 0), Cells(f0, f1, 0);
    RequestsExact(f0, f1, 0);
    hide Requests, Cells, Showing, Location, RowMajor;
    forall i | 0 <= i < |cells|
      ensures q[i].location == Location(cells[i].row, cells[i].col) && Showing(f0, f1, cells[i].row, cells[i].col)
    {
      assert cells[i] in cells;
    }
  }

  lemma CellIndex(f0: seq<byte>, f1: seq<byte>, row: nat, col: nat) returns (i: nat)
    requires Showing(f0, f1, row, col)
    ensures i < |Cells(f0, f1, 0)| && Cells(f0, f1, 0)[i] == Cell(row, col)
  {
    RequestsExact(f0, f1, 0);
    hide Requests, Cells, Showing, RowMajor, MadeFor;
    assert Cell(row, col) in Cells(f0, f1, 0);
    i :| 0 <= i < |Cells(f0, f1, 0)| && Cells(f0, f1, 0)[i] == Cell(row, col);
  }

  lemma RequestSpelled(f0: seq<byte>, f1: seq<byte>, i: nat)
    requires i < |Cells(f0, f1, 0)|
    ensures |Requests(f0, f1, 0)| == |Cells(f0, f1, 0)|
    ensures var b, c := Requests(f0, f1, 0)[i], Cells(f0, f1, 0)[i];
            && b.location == (c.row * 80 + c.col + 40) % 65536
            && b.onChar == CharOf(LineAt(f0, c.row), c.col) && b.offChar == CharOf(LineAt(f1, c.row), c.col)
            && b.onLength == 15 && b.offLength == 15
  {
    RequestsExact(f0, f1, 0);
    hide *;
    var c := Cells(f0, f1, 0)[i];
    MadeAt(Requests(f0, f1, 0), Cells(f0, f1, 0), f0, f1, i);
    RequestFields(c.row, c.col, CharOf(LineAt(f0, c.row), c.col), CharOf(LineAt(f1, c.row), c.col));
  }

  lemma MadeAt(q: seq<Blinker>, cells: seq<Cell>, f0: seq<byte>, f1: seq<byte>, i: nat)
    requires MadeFor(q, cells, f0, f1, 0) && i < |cells|
    ensures var c := cells[i];
            && |q| == |cells|
            && q[i] == Request(c.row, c.col, CharOf(LineAt(f0, c.row), c.col), CharOf(LineAt(f1, c.row), c.col))
  {
    hide LineAt, CharOf, Request;
  }

  lemma RequestFields(row: nat, col: nat, a: byte, b: byte)
    ensures Request(row, col, a, b).location == (row * 80 + col + 40) % 65536
    ensures Request(row, col, a, b).onChar == a && Request(row, col, a, b).offChar == b
    ensures Request(row, col, a, b).onLength == 15 && Request(row, col, a, b).offLength == 15
  {
  }

  /** Every request spelled out: where, what is shown on and off, and for how long. */
  lemma RequestsSpelled(f0: seq<byte>, f1: seq<byte>)
    ensures var q, cells := Requests(f0, f1, 0), Cells(f0, f1, 0);
            && |q| == |cells|
            && forall i | 0 <= i < |q| ::
                 && q[i].location == (cells[i].row * 80 + cells[i].col + 40) % 65536
                 && q[i].onChar == CharOf(LineAt(f0, cells[i].row), cells[i].col)
                 && q[i].offChar == CharOf(LineAt(f1, cells[i].row), cells[i].col)
                 && q[i].onLength == 15 && q[i].offLength == 15
  {
    hide Requests, Cells, LineAt, CharOf;
    RequestsExact(f0, f1, 0);
    forall i | 0 <= i < |Cells(f0, f1, 0)|
      ensures |Requests(f0, f1, 0)| == |Cells(f0, f1, 0)|
      ensures var b, c := Requests(f0, f1, 0)[i], Cells(f0, f1, 0)[i];
              && b.location == (c.row * 80 + c.col + 40) % 65536
              && b.onChar == CharOf(LineAt(f0, c.row), c.col) && b.offChar == CharOf(LineAt(f1, c.row), c.col)
              && b.onLength == 15 && b.offLength == 15
    {
      RequestSpelled(f0, f1, i);
    }
  }

  /** The lines a picture is made of, and the characters of a line. */
  lemma {:induction false} LineAtIs(f: seq<byte>, n: nat)
    ensures LineAt(f, n) == if n < |Lines(f)| then Lines(f)[n] else []
    decreases n
  {
    if f == [] {
      NoLines(n);
    } else if n > 0 {
      LineAtIs(AfterLine(f), n - 1);
    }
  }

  /** A request has location 0, which the driver accepts and which spoils its pool, exactly when something shows in
      a cell whose number is a multiple of 65536. */
  lemma ZeroRequestExact(f0: seq<byte>, f1: seq<byte>)
    ensures (exists b :: b in Requests(f0, f1, 0) && b.location == 0)
            <==> exists row: nat, col: nat :: Showing(f0, f1, row, col) && Location(row, col) == 0
  {
    var q, cells := Requests(f0, f1, 0), Cells(f0, f1, 0);
    RequestsOfCells(f0, f1);
    hide Requests, Cells, Showing, Location;
    if b :| b in q && b.location == 0 {
      var i :| 0 <= i < |q| && q[i] == b;
      assert Showing(f0, f1, cells[i].row, cells[i].col);
    }
    if row: nat, col: nat :| Showing(f0, f1, row, col) && Location(row, col) == 0 {
      var i := CellIndex(f0, f1, row, col);
      assert q[i] in q;
    }
  }

  ghost predicate DistinctLocations(q: seq<Blinker>)
  {
    forall i, j | 0 <= i < j < |q| :: q[i].location != q[j].location
  }

  lemma CellsInOrder(f0: seq<byte>, f1: seq<byte>, i: nat, j: nat)
    requires i < |Cells(f0, f1, 0)| && j < |Cells(f0, f1, 0)|
    ensures Before(Cells(f0, f1, 0)[i], Cells(f0, f1, 0)[j]) <==> i < j
  {
    RequestsExact(f0, f1, 0);
    hide *;
    OrderedCells(Cells(f0, f1, 0), i, j);
  }

  lemma OrderedCells(cells: seq<Cell>, i: nat, j: nat)
    requires RowMajor(cells) && i < |cells| && j < |cells|
    ensures Before(cells[i], cells[j]) <==> i < j
  {
    if j < i {
      assert Before(cells[j], cells[i]);
    }
  }

  /** The requested locations are distinct exactly when no two cells in which something shows agree in the low
      sixteen bits of their numbers. */
  lemma DistinctExact(f0: seq<byte>, f1: seq<byte>)
    ensures DistinctLocations(Requests(f0, f1, 0)) <==>
            forall a: Cell, b: Cell |
              Showing(f0, f1, a.row, a.col) && Showing(f0, f1, b.row, b.col) && Before(a, b) ::
              Location(a.row, a.col) != Location(b.row, b.col)
  {
    var q, cells := Requests(f0, f1, 0), Cells(f0, f1, 0);
    RequestsOfCells(f0, f1);
    hide Requests, Cells, Showing, Location, Before;
    if DistinctLocations(q) {
      forall a: Cell, b: Cell | Showing(f0, f1, a.row, a.col) && Showing(f0, f1, b.row, b.col) && Before(a, b)
        ensures Location(a.row, a.col) != Location(b.row, b.col)
      {
        var i := CellIndex(f0, f1, a.row, a.col);
        var j := CellIndex(f0, f1, b.row, b.col);
        assert cells[i] == a && cells[j] == b;
        CellsInOrder(f0, f1, i, j);
      }
    } else {
      var i, j :| 0 <= i < j < |q| && q[i].location == q[j].location;
      CellsInOrder(f0, f1, i, j);
    }
  }

  lemma {:induction false} BlankLines(n: nat, g: seq<byte>)
    ensures LineAt(Repeat(NEWLINE, n) + g, n) == FirstLine(g)
  {
    var f := Repeat(NEWLINE, n) + g;
    if n == 0 {
      assert f == g;
    } else {
      LineEndIs(f, 0);
      assert AfterLine(f) == Repeat(NEWLINE, n - 1) + g;
      BlankLines(n - 1, g);
    }
  }

  /** A picture with one letter. */
  function Speck(row: nat, col: nat): seq<byte>
  {
    Repeat(NEWLINE, row) + (Repeat(SPACE, col) + [LETTER])
  }

  lemma SpeckShows(row: nat, col: nat)
    ensures Showing(Speck(row, col), [], row, col)
  {
    LetterAtEnd(col);
    BlankLines(row, Repeat(SPACE, col) + [LETTER]);
  }

  /** Such a picture: a letter in row 818, column 56.  The driver takes the request. */
  lemma RequestAtZero(d: Display)
    requires |d.nodes| < SLOTS
    ensures exists b :: b in Requests(Speck(818, 56), [], 0) && b.location == 0 && CanAdd(d, b)
  {
    assert Location(818, 56) == 0;
    SpeckShows(818, 56);
    hide Speck, Showing, Requests, Location;
    ZeroRequestExact(Speck(818, 56), []);
  }

  lemma LetterAtEnd(n: nat)
    ensures CharOf(FirstLine(Repeat(SPACE, n) + [LETTER]), n) == LETTER != SPACE
  {
    var g := Repeat(SPACE, n) + [LETTER];
    LineEndIs(g, n + 1);
    assert FirstLine(g) == g;
  }

  // ----- What the requests do on the screen.


  /** From a row on both pictures have lines of at most 80 characters and only locations below limit: SLOTS for
      the text screen, LOCATIONS for the location field. */
  predicate Within(f0: seq<byte>, f1: seq<byte>, row: nat, limit: nat)
    decreases |f0| + |f1|
  {
    (f0 == [] && f1 == [])
    || (var width := Longer(FirstLine(f0), FirstLine(f1));
        width <= WIDTH && row * WIDTH + width + OFFSET <= limit
        && Within(AfterLine(f0), AfterLine(f1), row + 1, limit))
  }

  /** Locations from lo on, increasing, with the frame timing. */
  ghost predicate Ordered(q: seq<Blinker>, lo: int, hi: int)
  {
    && (forall i | 0 <= i < |q| :: lo <= q[i].location < hi && q[i].onLength == LENGTH && q[i].offLength == LENGTH)
    && forall i, j | 0 <= i < j < |q| :: q[i].location < q[j].location
  }

  lemma {:induction false} RowOrdered(row: nat, l0: seq<byte>, l1: seq<byte>, n: nat)
    requires RowBase(row) + n <= LOCATIONS
    ensures Ordered(RowRequests(row, l0, l1, n), RowBase(row), RowBase(row) + n)
  {
    if n > 0 {
      RowOrdered(row, l0, l1, n - 1);
    }
  }

  /** One request for every column where either line has a character other than a space, and no others. */
  lemma {:induction false} RowExact(row: nat, l0: seq<byte>, l1: seq<byte>, n: nat, q: Blinker)
    ensures q in RowRequests(row, l0, l1, n) <==>
            exists col: nat :: col < n && (CharOf(l0, col) != SPACE || CharOf(l1, col) != SPACE)
                               && q == Request(row, col, CharOf(l0, col), CharOf(l1, col))
  {
    if n > 0 {
      RowExact(row, l0, l1, n - 1, q);
    }
  }

  /** The first location of a row, and so a bound for the rows before it. */
  function RowBase(row: nat): (b: nat)
    ensures b == row * WIDTH + OFFSET
  {
    row * WIDTH + OFFSET
  }

  lemma RowsOrdered(row: nat, here: seq<Blinker>, rest: seq<Blinker>, n: nat, hi: int)
    requires n <= WIDTH && RowBase(row + 1) <= hi
    requires Ordered(here, RowBase(row), RowBase(row) + n) && Ordered(rest, RowBase(row + 1), hi)
    ensures Ordered(here + rest, RowBase(row), hi)
  {
  }

  /** The requests come in row-major order, so their locations are distinct, and none is zero. */
  lemma {:induction false} RequestsOrdered(f0: seq<byte>, f1: seq<byte>, row: nat, limit: nat)
    requires limit <= LOCATIONS && Within(f0, f1, row, limit) && RowBase(row) <= limit + WIDTH
    ensures Ordered(Requests(f0, f1, row), RowBase(row), limit + WIDTH)
    ensures AllBelow(Requests(f0, f1, row), limit)
    decreases |f0| + |f1|
  {
    hide Within, Requests, Ordered, AllBelow, RowBase, AfterLine, RowRequests, FirstLine, Longer;
    if f0 == [] && f1 == [] {
      NoneOrdered(f0, f1, row, limit);
    } else {
      NextWithin(f0, f1, row, limit);
      RequestsOrdered(AfterLine(f0), AfterLine(f1), row + 1, limit);
      RequestsStep(f0, f1, row, limit);
    }
  }

  lemma NoneOrdered(f0: seq<byte>, f1: seq<byte>, row: nat, limit: nat)
    requires f0 == [] && f1 == []
    ensures Ordered(Requests(f0, f1, row), RowBase(row), limit + WIDTH) && AllBelow(Requests(f0, f1, row), limit)
  {
  }

  lemma RequestsStep(f0: seq<byte>, f1: seq<byte>, row: nat, limit: nat)
    requires limit <= LOCATIONS && Within(f0, f1, row, limit) && !(f0 == [] && f1 == []) && RowBase(row) <= limit
    requires Ordered(Requests(AfterLine(f0), AfterLine(f1), row + 1), RowBase(row + 1), limit + WIDTH)
    requires AllBelow(Requests(AfterLine(f0), AfterLine(f1), row + 1), limit)
    ensures Ordered(Requests(f0, f1, row), RowBase(row), limit + WIDTH)
    ensures AllBelow(Requests(f0, f1, row), limit)
  {
    WithinUnfold(f0, f1, row, limit);
    RequestsUnfold(f0, f1, row);
    hide Within, Requests, RowRequests, FirstLine, AfterLine, Longer, Ordered, AllBelow;
    var n := Longer(FirstLine(f0), FirstLine(f1));
    var here, rest := RowRequests(row, FirstLine(f0), FirstLine(f1), n), Requests(AfterLine(f0), AfterLine(f1),
        row + 1);
    RowOrdered(row, FirstLine(f0), FirstLine(f1), n);
    RowsOrdered(row, here, rest, n, limit + WIDTH);
    BelowAppend(here, rest, RowBase(row), RowBase(row) + n, limit);
  }

  lemma NextWithin(f0: seq<byte>, f1: seq<byte>, row: nat, limit: nat)
    requires Within(f0, f1, row, limit) && !(f0 == [] && f1 == [])
    ensures RowBase(row) <= limit && RowBase(row + 1) <= limit + WIDTH
        && Within(AfterLine(f0), AfterLine(f1), row + 1, limit)
    ensures |AfterLine(f0)| + |AfterLine(f1)| < |f0| + |f1|
  {
  }

  ghost predicate AllBelow(q: seq<Blinker>, hi: int)
  {
    forall i | 0 <= i < |q| :: q[i].location < hi
  }

  lemma BelowAppend(a: seq<Blinker>, b: seq<Blinker>, lo: int, mid: int, hi: int)
    requires Ordered(a, lo, mid) && mid <= hi && AllBelow(b, hi)
    ensures AllBelow(a + b, hi)
  {
  }

  lemma WithinUnfold(f0: seq<byte>, f1: seq<byte>, row: nat, limit: nat)
    requires Within(f0, f1, row, limit) && !(f0 == [] && f1 == [])
    ensures var n := Longer(FirstLine(f0), FirstLine(f1));
            n <= WIDTH && RowBase(row) + n <= limit && Within(AfterLine(f0), AfterLine(f1), row + 1, limit)
            && |AfterLine(f0)| + |AfterLine(f1)| < |f0| + |f1|
  {
  }

  function Inserts(q: seq<Blinker>): (e: seq<Event>)
    ensures |e| == |q| && forall i | 0 <= i < |q| :: e[i] == Insert(q[i])
  {
    seq(|q|, i requires 0 <= i < |q| => Insert(q[i]))
  }

  function Wait(n: nat): (e: seq<Event>)
    ensures |e| == n && forall i | 0 <= i < n :: e[i] == Timer
  {
    seq(n, _ => Timer)
  }

  lemma {:induction false} RunAppend(d: Display, a: seq<Event>, b: seq<Event>)
    requires DisplayOk(d) && (forall e | e in a :: Proper(e)) && (forall e | e in b :: Proper(e))
    ensures Run(d, a + b) == Run(Run(d, a), b)
    decreases |a|
  {
    hide Step, DisplayOk;
    if a == [] {
      assert a + b == b;
    } else {
      assert (a + b)[1..] == a[1..] + b && (a + b)[0] == a[0];
      RunAppend(Step(d, a[0]), a[1..], b);
    }
  }

  lemma {:induction false} InsertsGrow(d: Display, q: seq<Blinker>)
    requires DisplayOk(d) && forall i | 0 <= i < |q| :: q[i].location != 0
    ensures |Run(d, Inserts(q)).nodes| <= |d.nodes| + |q|
    decreases |q|
  {
    if q != [] {
      assert Inserts(q)[1..] == Inserts(q[1..]);
      InsertsGrow(Step(d, Insert(q[0])), q[1..]);
    }
  }

  lemma {:induction false} NoTimers(q: seq<Blinker>, n: nat)
    ensures Timers(Inserts(q) + Wait(n)) == n
    decreases |q| + n
  {
    var e := Inserts(q) + Wait(n);
    if q != [] {
      assert e[1..] == Inserts(q[1..]) + Wait(n);
      NoTimers(q[1..], n);
    } else if n > 0 {
      assert e[1..] == Inserts([]) + Wait(n - 1);
      NoTimers([], n - 1);
    }
  }

  lemma {:induction false} OrderedIndex(q: seq<Blinker>, lo: nat, hi: int, i: nat)
    requires Ordered(q, lo, hi) && i < |q|
    ensures q[i].location >= lo + i
  {
    if i > 0 {
      OrderedIndex(q, lo, hi, i - 1);
    }
  }

  lemma {:induction false} WithinCell(f0: seq<byte>, f1: seq<byte>, first: nat, limit: nat, row: nat, col: nat)
    requires Within(f0, f1, first, limit) && Showing(f0, f1, row, col)
    ensures RowBase(first + row) + col < limit
    decreases row
  {
    hide *;
    if f0 == [] && f1 == [] {
      NothingShows(row, col);
    } else {
      WithinUnfold(f0, f1, first, limit);
      ShowingUnfold(f0, f1, row, col);
      if row > 0 {
        WithinCell(AfterLine(f0), AfterLine(f1), first + 1, limit, row - 1, col);
        assert first + 1 + (row - 1) == first + row;
      }
    }
  }

  lemma NothingShows(row: nat, col: nat)
    ensures !Showing([], [], row, col)
  {
    NoLines(row);
    hide LineAt;
  }

  lemma ShowingUnfold(f0: seq<byte>, f1: seq<byte>, row: nat, col: nat)
    requires Showing(f0, f1, row, col)
    ensures row == 0 ==> col < Longer(FirstLine(f0), FirstLine(f1))
    ensures row > 0 ==> Showing(AfterLine(f0), AfterLine(f1), row - 1, col)
  {
    hide FirstLine, AfterLine;
  }

  /** The picture alternates: with both files added to an empty list, every cell in which one of them has
      something to show shows the character of the first file for fifteen ticks, then that of the second for
      fifteen, and so on. */
  lemma AnimationShown(f0: seq<byte>, f1: seq<byte>, start: Display, row: nat, col: nat, n: nat)
    requires Within(f0, f1, 0, SLOTS) && DisplayOk(start) && start.nodes == [] && Showing(f0, f1, row, col)
    ensures var q, at := Requests(f0, f1, 0), row * 80 + col + 40;
            && (forall e | e in Inserts(q) + Wait(n) :: Proper(e)) && at < SLOTS
            && Run(start, Inserts(q) + Wait(n)).screen[2 * at] ==
               if n % 30 < 15 then CharOf(LineAt(f0, row), col) else CharOf(LineAt(f1, row), col)
  {
    var i := RequestOf(f0, f1, row, col);
    OrderedRequests(f0, f1, i);
    hide *;
    AnimatedCell(Requests(f0, f1, 0), start, i, n);
  }

  /** The request made for a cell on the screen. */
  lemma RequestOf(f0: seq<byte>, f1: seq<byte>, row: nat, col: nat) returns (i: nat)
    requires Within(f0, f1, 0, SLOTS) && Showing(f0, f1, row, col)
    ensures i < |Requests(f0, f1, 0)| && row * 80 + col + 40 < SLOTS
    ensures var b := Requests(f0, f1, 0)[i];
            && b.location == row * 80 + col + 40
            && b.onChar == CharOf(LineAt(f0, row), col) && b.offChar == CharOf(LineAt(f1, row), col)
  {
    hide Requests, Cells, Within, Showing, LineAt, CharOf, RowBase;
    i := CellIndex(f0, f1, row, col);
    WithinCell(f0, f1, 0, SLOTS, row, col);
    RequestSpelled(f0, f1, i);
    FitsField(row, col);
  }

  lemma FitsField(row: nat, col: nat)
    requires RowBase(0 + row) + col < SLOTS
    ensures (row * 80 + col + 40) % 65536 == row * 80 + col + 40 < SLOTS
  {
  }

  lemma OrderedRequests(f0: seq<byte>, f1: seq<byte>, i: nat)
    requires Within(f0, f1, 0, SLOTS) && i < |Requests(f0, f1, 0)|
    ensures var q := Requests(f0, f1, 0);
            Ordered(q, OFFSET, SLOTS + WIDTH) && AllBelow(q, SLOTS) && q[i].location >= OFFSET + i
  {
    RequestsOrdered(f0, f1, 0, SLOTS);
    OrderedIndex(Requests(f0, f1, 0), OFFSET, SLOTS + WIDTH, i);
    hide Requests, Within;
  }

  lemma AnimatedCell(q: seq<Blinker>, start: Display, i: nat, n: nat)
    requires Ordered(q, OFFSET, SLOTS + WIDTH) && AllBelow(q, SLOTS)
    requires DisplayOk(start) && start.nodes == [] && i < |q| && q[i].location >= OFFSET + i
    ensures forall e | e in Inserts(q) + Wait(n) :: Proper(e)
    ensures Run(start, Inserts(q) + Wait(n)).screen[2 * q[i].location] == if n % 30 < 15
        then q[i].onChar else q[i].offChar
  {
    var b, before, after := q[i], q[..i], q[i + 1..];
    var first, rest := Inserts(before), Inserts(after) + Wait(n);
    assert forall e | e in first :: Proper(e) && !Touches(e, b.location);
    assert forall e | e in rest :: Proper(e) && !Touches(e, b.location);
    assert Inserts(q) + Wait(n) == first + ([Insert(b)] + rest);
    hide Run, DisplayOk;
    RunAppend(start, first, [Insert(b)] + rest);
    var d := Run(start, first);
    InsertsGrow(start, before);
    AtRun(start, first, b.location);
    assert At(start.nodes, b.location) == [];
    RunFirst(d, Insert(b), rest);
    NoTimers(after, n);
    BlinkerLife(d, b, rest);
  }

  lemma RunFirst(d: Display, e: Event, rest: seq<Event>)
    requires DisplayOk(d) && Proper(e) && (forall x | x in rest :: Proper(x))
    ensures Run(d, [e] + rest) == Run(Step(d, e), rest)
  {
  }
}
