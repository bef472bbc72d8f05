/** The text console of student-distrib/lib.c: video memory, cursor, wrap, scroll and backspace. */
module Console {
  import opened Bytes

  const COLS := 80
  const ROWS := 25
  const CELLS := 2000
  const ATTRIB: byte := 7
  /** Bytes of one screen: a character and an attribute per cell. */
  const DISPLAY := 4000
  /** The four video pages that are mapped (student-distrib/paging.c:59-65). */
  const MAPPED := 16384

  /** What a screen shows: the characters and attributes of its cells, and the cursor. */
  datatype Screen = Screen(text: seq<byte>, attr: seq<byte>, x: int, y: int)

  ghost predicate Ok(s: Screen)
  {
    |s.text| == CELLS && |s.attr| == CELLS && 0 <= s.x < COLS && 0 <= s.y < ROWS
  }

  /** Cell index of the cursor. */
  function Cursor(s: Screen): int
  {
    COLS * s.y + s.x
  }

  // ----- The operations as functions on screens.

  function Cleared(): (s: Screen)
    ensures Ok(s)
  {
    Screen(Repeat(SPACE, CELLS), Repeat(ATTRIB, CELLS), 0, 0)
  }

  function BlankRow(s: Screen, row: int): (r: Screen)
    requires Ok(s) && 0 <= row < ROWS
    ensures Ok(r)
  {
    var lo := COLS * row;
    s.(text := s.text[..lo] + Repeat(SPACE, COLS) + s.text[lo + COLS..],
       attr := s.attr[..lo] + Repeat(ATTRIB, COLS) + s.attr[lo + COLS..])
  }

  /** Every row but the last takes the characters of the row below; the last keeps its own. */
  function Scrolled(s: Screen): (r: Screen)
    requires Ok(s)
    ensures Ok(r)
  {
    s.(text := s.text[COLS..] + s.text[CELLS - COLS..],
       attr := Repeat(ATTRIB, CELLS - COLS) + s.attr[CELLS - COLS..])
  }

  function NextRow(s: Screen): (r: Screen)
    requires Ok(s)
    ensures Ok(r)
  {
    if s.y + 1 >= ROWS then BlankRow(Scrolled(s), ROWS - 1).(x := 0, y := ROWS - 1)
    else s.(x := 0, y := s.y + 1)
  }

  predicate EndsRow(c: byte)
  {
    c == NEWLINE || c == RETURN
  }

  function Written(s: Screen, c: byte): (r: Screen)
    requires Ok(s)
    ensures Ok(r)
  {
    s.(text := s.text[Cursor(s) := c], attr := s.attr[Cursor(s) := ATTRIB])
  }

  function Put(s: Screen, c: byte): (r: Screen)
    requires Ok(s)
    ensures Ok(r)
  {
    if EndsRow(c) then NextRow(s)
    else if s.x + 1 >= COLS then NextRow(Written(s, c))
    else Written(s, c).(x := s.x + 1)
  }

  function PutAll(s: Screen, bytes: seq<byte>): (r: Screen)
    requires Ok(s)
    ensures Ok(r)
    decreases |bytes|
  {
    if bytes == [] then s else Put(PutAll(s, bytes[..|bytes| - 1]), bytes[|bytes| - 1])
  }

  lemma PutAllSnoc(s: Screen, bytes: seq<byte>, c: byte)
    requires Ok(s)
    ensures PutAll(s, bytes + [c]) == Put(PutAll(s, bytes), c)
  {
  }

  function Deleted(s: Screen): (r: Screen)
    requires Ok(s)
    ensures Ok(r)
  {
    if s.x == 0 && s.y == 0 then s
    else
      var i := Cursor(s) - 1;
      var t := s.(text := s.text[i := SPACE], attr := s.attr[i := ATTRIB]);
      if s.x == 0 then t.(x := COLS - 1, y := s.y - 1) else t.(x := s.x - 1)
  }

  // ----- Video memory.

  function TextOf(mem: seq<byte>): (r: seq<byte>)
    requires |mem| >= DISPLAY
    ensures |r| == CELLS && forall i | 0 <= i < CELLS :: r[i] == mem[2 * i]
  {
    seq(CELLS, i requires 0 <= i < CELLS => mem[2 * i])
  }

  function AttrOf(mem: seq<byte>): (r: seq<byte>)
    requires |mem| >= DISPLAY
    ensures |r| == CELLS && forall i | 0 <= i < CELLS :: r[i] == mem[2 * i + 1]
  {
    seq(CELLS, i requires 0 <= i < CELLS => mem[2 * i + 1])
  }

  /** clear_row after its first n cells. */
  ghost function PartlyBlanked(s: Screen, row: int, n: nat): (r: Screen)
    requires Ok(s) && 0 <= row < ROWS && n <= COLS
    ensures Ok(r)
  {
    var lo := COLS * row;
    s.(text := s.text[..lo] + Repeat(SPACE, n) + s.text[lo + n..],
       attr := s.attr[..lo] + Repeat(ATTRIB, n) + s.attr[lo + n..])
  }

  lemma BlankStep(s: Screen, row: int, n: nat)
    requires Ok(s) && 0 <= row < ROWS && n < COLS
    ensures var p, i := PartlyBlanked(s, row, n), COLS * row + n;
            p.(text := p.text[i := SPACE], attr := p.attr[i := ATTRIB]) == PartlyBlanked(s, row, n + 1)
  {
  }

  lemma NoneBlanked(s: Screen, row: int)
    requires Ok(s) && 0 <= row < ROWS
    ensures PartlyBlanked(s, row, 0) == s && PartlyBlanked(s, row, COLS) == BlankRow(s, row)
  {
  }

  /** scroll_up after its first i cells. */
  ghost function PartlyScrolled(s: Screen, i: nat): (r: Screen)
    requires Ok(s) && i <= CELLS - COLS
    ensures Ok(r)
  {
    s.(text := s.text[COLS..COLS + i] + s.text[i..], attr := Repeat(ATTRIB, i) + s.attr[i..])
  }

  lemma PartlyStep(s: Screen, i: nat)
    requires Ok(s) && i < CELLS - COLS
    ensures var p := PartlyScrolled(s, i);
            && p.text[i + COLS] == s.text[i + COLS]
            && p.(text := p.text[i := s.text[i + COLS]], attr := p.attr[i := ATTRIB]) == PartlyScrolled(s, i + 1)
  {
  }

  lemma PartlyEnds(s: Screen)
    requires Ok(s)
    ensures PartlyScrolled(s, 0) == s && PartlyScrolled(s, CELLS - COLS) == Scrolled(s)
  {
  }

  class Console {
    const mem: array<byte>
    var screenX: int
    var screenY: int

    ghost predicate Valid()
      reads this
    {
      mem.Length == MAPPED && 0 <= screenX < COLS && 0 <= screenY < ROWS
    }

    ghost function View(): (s: Screen)
      requires Valid()
      reads this, mem
      ensures Ok(s)
    {
      Screen(TextOf(mem[..]), AttrOf(mem[..]), screenX, screenY)
    }

    /** The mapped memory behind the live screen. */
    ghost function Behind(): seq<byte>
      requires Valid()
      reads this, mem
    {
      mem[DISPLAY..]
    }

    constructor (mem: array<byte>)
      requires mem.Length == MAPPED
      ensures this.mem == mem && screenX == 0 && screenY == 0 && Valid()
    {
      this.mem := mem;
      screenX, screenY := 0, 0;
    }

    lemma ViewCell(i: int)
      requires Valid() && 0 <= i < CELLS
      ensures View().text[i] == mem[2 * i]
    {
    }

    method SetCell(i: int, c: byte)
      requires Valid() && 0 <= i < CELLS
      modifies mem
      ensures View() == old(View()).(text := old(View()).text[i := c], attr := old(View()).attr[i := ATTRIB])
      ensures Behind() == old(Behind())
    {
      mem[2 * i] := c;
      mem[2 * i + 1] := ATTRIB;
    }

    method Clear()
      requires Valid()
      modifies this, mem
      ensures Valid() && View() == Cleared() && Behind() == old(Behind())
    {
      for i := 0 to ROWS * COLS
        invariant Valid()
        invariant View().text[..i] == Repeat(SPACE, i) && View().attr[..i] == Repeat(ATTRIB, i)
        invariant Behind() == old(Behind())
      {
        SetCell(i, SPACE);
      }
      screenX := 0;
      screenY := 0;
      assert View().text == View().text[..CELLS] && View().attr == View().attr[..CELLS];
    }

    method ClearRow(row: int)
      requires Valid() && 0 <= row < ROWS
      modifies mem
      ensures Valid() && View() == BlankRow(old(View()), row) && Behind() == old(Behind())
    {
      hide TextOf, AttrOf, BlankRow;
      ghost var s := View();
      NoneBlanked(s, row);
      for i := row * COLS to (1 + row) * COLS
        invariant View() == PartlyBlanked(s, row, i - COLS * row) && Behind() == old(Behind())
      {
        BlankStep(s, row, i - COLS * row);
        SetCell(i, SPACE);
      }
    }

    method ScrollUp()
      requires Valid()
      modifies mem
      ensures Valid() && View() == Scrolled(old(View())) && Behind() == old(Behind())
    {
      hide PartlyScrolled, Scrolled, TextOf, AttrOf;
      ghost var s := View();
      PartlyEnds(s);
      for i := 0 to (ROWS - 1) * COLS
        invariant View() == PartlyScrolled(s, i)
        invariant Behind() == old(Behind())
      {
        PartlyStep(s, i);
        ViewCell(i + COLS);
        SetCell(i, mem[2 * (i + COLS)]);
      }
    }

    method Putc(c: byte)
      requires Valid()
      modifies this, mem
      ensures Valid() && View() == Put(old(View()), c) && Behind() == old(Behind())
    {
      if c == NEWLINE || c == RETURN {
        var below := screenY + 1;
        if below >= ROWS {
          ScrollUp();
          ClearRow(ROWS - 1);
          below := below - 1;
        }
        screenX, screenY := 0, below;
      } else {
        SetCell(COLS * screenY + screenX, c);
        if screenX + 1 >= COLS {
          var below := screenY + 1;
          if below >= ROWS {
            ScrollUp();
            ClearRow(ROWS - 1);
            below := below - 1;
          }
          screenX, screenY := 0, below;
        } else {
          screenX := screenX + 1;
        }
      }
    }

    method Delete()
      requires Valid()
      modifies this, mem
      ensures Valid() && View() == Deleted(old(View())) && Behind() == old(Behind())
    {
      if screenY == 0 && screenX == 0 { return; }
      SetCell(screenY * COLS + screenX - 1, SPACE);
      if screenX == 0 {
        screenX := COLS - 1;
        screenY := screenY - 1;
      } else {
        screenX := screenX - 1;
      }
    }

    /** terminal_write: every non-NUL byte goes through putc. */
    method Write(buf: seq<byte>)
      requires Valid()
      modifies this, mem
      ensures Valid() && View() == PutAll(old(View()), Visible(buf)) && Behind() == old(Behind())
    {
      for i := 0 to |buf|
        invariant Valid() && View() == PutAll(old(View()), Visible(buf[..i])) && Behind() == old(Behind())
      {
        hide PutAll, Visible;
        VisibleSnoc(buf[..i], buf[i]);
        assert Visible(buf[..i]) + [] == Visible(buf[..i]);
        assert buf[..i] + [buf[i]] == buf[..i + 1];
        if buf[i] != NUL {
          PutAllSnoc(old(View()), Visible(buf[..i]), buf[i]);
          Putc(buf[i]);
        }
      }
      assert buf[..|buf|] == buf;
    }
  }

  /** The bytes terminal_write sends to the screen. */
  function Visible(buf: seq<byte>): seq<byte>
  {
    if buf == [] then []
    else (if buf[0] != NUL then [buf[0]] else []) + Visible(buf[1..])
  }

  lemma VisibleSnoc(buf: seq<byte>, c: byte)
    ensures Visible(buf + [c]) == Visible(buf) + if c != NUL then [c] else []
  {
    if buf != [] {
      assert (buf + [c])[1..] == buf[1..] + [c];
      VisibleSnoc(buf[1..], c);
    }
  }
}
