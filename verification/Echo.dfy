/** The echo on the screen agrees with the line buffer, and Enter delivers the edited line. */
module Echo {
  import opened Bytes
  import opened Console
  import opened Layout
  import opened ScanCodes
  import opened LineEditor

  const LINE_MAX := TERM_BUF_SIZE - 1

  /** The cells before the cursor spell line, and everything from the cursor on is blank. */
  ghost predicate EchoAt(s: Screen, line: seq<byte>)
    requires Ok(s)
  {
    && |line| <= Cursor(s)
    && s.text[Cursor(s) - |line|..Cursor(s)] == line
    && forall i | Cursor(s) <= i < CELLS :: s.text[i] == SPACE
  }

  /** Rows by which printing c scrolls the screen. */
  function Shift(s: Screen, c: byte): int
  {
    if Cursor(s) + 1 == CELLS then COLS else 0
  }

  /** Where printing puts the cursor and what it does to the cells. */
  lemma PutCells(s: Screen, c: byte)
    requires Ok(s) && !EndsRow(c)
    ensures Cursor(Put(s, c)) == Cursor(s) + 1 - Shift(s, c)
    ensures Cursor(s) + 1 < CELLS ==> Put(s, c).text == s.text[Cursor(s) := c]
    ensures Cursor(s) + 1 == CELLS ==> Put(s, c).text == s.text[COLS..CELLS - 1] + [c] + Repeat(SPACE, COLS)
  {
  }

  /** Typing: the line start moves up one row exactly when the screen scrolls, never off the screen, and
      what stood before it is kept. */
  lemma PutEcho(s: Screen, line: seq<byte>, c: byte)
    requires Ok(s) && EchoAt(s, line) && |line| < LINE_MAX && !EndsRow(c)
    ensures EchoAt(Put(s, c), line + [c])
    ensures Cursor(Put(s, c)) == Cursor(s) + 1 - Shift(s, c)
    ensures var start := Cursor(s) - |line|;
            start >= Shift(s, c) && Put(s, c).text[..start - Shift(s, c)] == s.text[Shift(s, c)..start]
  {
    hide Put;
    PutCells(s, c);
  }

  /** Backspace: the guard for the top left corner never fires while the line is not empty. */
  lemma DeleteEcho(s: Screen, line: seq<byte>)
    requires Ok(s) && EchoAt(s, line) && line != []
    ensures !(s.x == 0 && s.y == 0)
    ensures EchoAt(Deleted(s), line[..|line| - 1]) && Cursor(Deleted(s)) == Cursor(s) - 1
  {
    var p := Cursor(s);
    assert Deleted(s).text[p - |line|..p - 1] == s.text[p - |line|..p][..|line| - 1];
  }

  // ----- The invariant of the line editor.

  function LineOf(e: Editor): seq<byte>
    requires 0 <= e.loc <= |e.buf|
  {
    e.buf[..e.loc]
  }

  ghost predicate AllPrintable(line: seq<byte>)
  {
    forall i | 0 <= i < |line| :: Printable(line[i])
  }

  /** Cells behind the line are zero, except that the last cell may keep a newline for ever. */
  ghost predicate BufferClean(e: Editor)
    requires EditorOk(e)
  {
    && (forall i | e.loc <= i < LINE_MAX :: e.buf[i] == NUL)
    && (e.buf[LINE_MAX] == NUL || e.buf[LINE_MAX] == NEWLINE)
    && AllPrintable(LineOf(e))
  }

  ghost predicate Agrees(e: Editor)
    requires EditorOk(e)
  {
    BufferClean(e) && EchoAt(e.screen, LineOf(e))
  }

  /** An untouched keyboard on a screen that shows whatever has been printed so far. */
  lemma FreshAgrees(s: Screen, rows: seq<seq<byte>>, shift: bool, cap: bool, ctrl: bool, alt: bool,
      saved: seq<byte>, ready: bool)
    requires Ok(s) && rows != [] && Shows(s, rows) && |saved| == TERM_BUF_SIZE
    ensures var e := Editor(s, Repeat(NUL, TERM_BUF_SIZE), 0, shift, cap, ctrl, alt, saved, ready);
            EditorOk(e) && Agrees(e)
  {
    BlankFromCursor(s, rows);
  }

  // ----- One key.

  lemma TypedAgrees(e: Editor, c: byte)
    requires EditorOk(e) && Agrees(e) && Printable(c)
    ensures Agrees(Typed(e, c))
    ensures LineOf(Typed(e, c)) == Appended(LineOf(e), [c])
  {
    if e.loc < LINE_MAX {
      PutEcho(e.screen, LineOf(e), c);
      assert LineOf(Typed(e, c)) == LineOf(e) + [c];
    }
  }

  lemma ErasedAgrees(e: Editor)
    requires EditorOk(e) && Agrees(e)
    ensures Agrees(Erased(e))
    ensures LineOf(Erased(e)) == if e.loc > 0 then LineOf(e)[..e.loc - 1] else []
  {
    if e.loc > 0 {
      DeleteEcho(e.screen, LineOf(e));
      assert LineOf(Erased(e)) == LineOf(e)[..e.loc - 1];
    }
  }

  lemma EnteredAgrees(e: Editor)
    requires EditorOk(e) && Agrees(e)
    ensures Agrees(Entered(e, NEWLINE))
    ensures LineOf(Entered(e, NEWLINE)) == []
    ensures Entered(e, NEWLINE).saved[..e.loc + 1] == LineOf(e) + [NEWLINE]
  {
  }

  // ----- Ctrl+L.

  predicate AllSpaces(line: seq<byte>)
  {
    forall i | 0 <= i < |line| :: line[i] == SPACE
  }

  /** A cleared screen on which a line has been printed. */
  lemma {:induction false} PrintedAfterClear(line: seq<byte>)
    requires AllPrintable(line) && |line| <= LINE_MAX
    ensures var s := PutAll(Cleared(), line);
            Cursor(s) == |line| && EchoAt(s, line)
    decreases |line|
  {
    if line != [] {
      var b, c := line[..|line| - 1], line[|line| - 1];
      PrintedAfterClear(b);
      PutEcho(PutAll(Cleared(), b), b, c);
      assert b + [c] == line;
    }
  }

  lemma {:induction false} VisibleLine(line: seq<byte>, n: nat, last: byte)
    requires AllPrintable(line)
    ensures Visible(line + Repeat(NUL, n) + [last]) == line + if last == NUL then [] else [last]
    decreases |line| + n
  {
    var buf := line + Repeat(NUL, n) + [last];
    if line != [] {
      VisibleLine(line[1..], n, last);
      assert Printable(line[0]) && buf[0] == line[0];
      assert buf[1..] == line[1..] + Repeat(NUL, n) + [last];
      assert Visible(buf) == [line[0]] + Visible(buf[1..]);
      assert [line[0]] + line[1..] == line;
    } else if n > 0 {
      VisibleLine([], n - 1, last);
      assert buf[1..] == [] + Repeat(NUL, n - 1) + [last];
    } else {
      assert buf == [last];
    }
  }

  lemma RedrawnScreen(e: Editor)
    requires EditorOk(e) && BufferClean(e)
    ensures var s := PutAll(Cleared(), LineOf(e));
            Redrawn(e).screen == if e.buf[LINE_MAX] == NEWLINE then NextRow(s) else s
  {
    hide Cleared, PutAll, EchoAt;
    var line, last := LineOf(e), e.buf[LINE_MAX];
    assert e.buf == line + Repeat(NUL, LINE_MAX - e.loc) + [last];
    VisibleLine(line, LINE_MAX - e.loc, last);
    if last == NUL {
      assert line + [] == line;
    } else {
      PutAllSnoc(Cleared(), line, NEWLINE);
    }
  }

  /** Redrawing restores the echo exactly when the last cell holds no stale newline or the line has
      nothing but spaces to show. */
  lemma RedrawExact(e: Editor)
    requires EditorOk(e) && BufferClean(e)
    ensures EchoAt(Redrawn(e).screen, LineOf(e)) <==> e.buf[LINE_MAX] != NEWLINE || AllSpaces(LineOf(e))
  {
    hide PutAll, Cleared, NextRow, EchoAt, Redrawn;
    RedrawnScreen(e);
    PrintedAfterClear(LineOf(e));
    ShiftedEcho(PutAll(Cleared(), LineOf(e)), LineOf(e));
  }

  /** After a newline on a screen that shows only line, the cells before the cursor spell line only if it is
      blank. */
  lemma ShiftedEcho(s: Screen, line: seq<byte>)
    requires Ok(s) && EchoAt(s, line) && Cursor(s) == |line| <= LINE_MAX
    ensures EchoAt(NextRow(s), line) <==> AllSpaces(line)
  {
    var t := NextRow(s);
    var d := Cursor(t) - |line|;
    NextRowLow(s);
    hide NextRow;
    if EchoAt(t, line) {
      BlankBackwards(s.text, line, d, |line|);
    }
    if AllSpaces(line) {
      assert forall i | 0 <= i < |line| :: s.text[i] == s.text[0..|line|][i] == SPACE;
    }
  }

  lemma NextRowLow(s: Screen)
    requires Ok(s) && Cursor(s) <= LINE_MAX
    ensures NextRow(s).text == s.text && Cursor(s) < Cursor(NextRow(s)) <= CELLS
  {
  }

  lemma {:induction false} BlankBackwards(text: seq<byte>, line: seq<byte>, d: int, n: nat)
    requires d > 0 && n <= |line| && d + |line| <= |text|
    requires text[..|line|] == line && text[d..d + |line|] == line
    requires forall i | |line| <= i < |text| :: text[i] == SPACE
    ensures forall i | |line| - n <= i < |line| :: line[i] == SPACE
  {
    if n > 0 {
      BlankBackwards(text, line, d, n - 1);
      var i := |line| - n;
      assert line[i] == text[d..d + |line|][i] == text[d + i];
      if d + i < |line| {
        assert text[d + i] == text[..|line|][d + i] == line[d + i];
      }
    }
  }

  /** The stale newline: Enter on a full line puts it into the last cell, and no key ever takes it out. */
  lemma LastCell(e: Editor, k: byte)
    requires EditorOk(e) && (Plain(k) == NEWLINE || Plain(k) == BACKSPACE || Printable(Plain(k)))
    ensures KeyPrinted(e, k).buf[LINE_MAX] ==
            if Plain(k) == NEWLINE && e.loc == LINE_MAX then NEWLINE else e.buf[LINE_MAX]
  {
    hide Table, Put, PutAll, Deleted;
    ChosenAgrees(k, e.cap, e.shift);
  }

  // ----- Runs of keys, against an editor that knows nothing but a line and the modifiers.

  datatype Line = Line(text: seq<byte>, shift: bool, cap: bool, ctrl: bool, alt: bool)

  /** Append what fits. */
  function Appended(text: seq<byte>, more: seq<byte>): seq<byte>
  {
    if |text + more| <= LINE_MAX then text + more else (text + more)[..LINE_MAX]
  }

  function LineKey(l: Line, k: byte): Line
  {
    var c := Plain(k);
    if c == ALT_PRESS || c == ALT_RELEASE then l.(alt := !l.alt)
    else if c == CAP_PRESS then l.(cap := !l.cap)
    else if c == SHIFT_PRESS || c == SHIFT_RELEASE then l.(shift := !l.shift)
    else if c == CTRL_PRESS || c == CTRL_RELEASE then l.(ctrl := !l.ctrl)
    else if c == TAB then l.(text := Appended(l.text, Repeat(SPACE, 4)))
    else if c == BACKSPACE then l.(text := if l.text == [] then [] else l.text[..|l.text| - 1])
    else if c == NEWLINE then l.(text := [])
    else if Printable(c) && !(l.ctrl && c == LETTER_L) then l.(text := Appended(l.text, [ByRule(c, l.cap, l.shift)]))
    else l
  }

  /** The abstract editor in terms of a US keyboard, by scan code: each press and each release of a modifier turns
      its flag over, the other keys edit the line. */
  lemma EditorRules(l: Line, k: byte)
    requires |l.text| <= 127
    ensures k == 42 || k == 54 || k == 170 || k == 182 ==> LineKey(l, k) == l.(shift := !l.shift)
    ensures k == 58 ==> LineKey(l, k) == l.(cap := !l.cap)
    ensures k == 29 || k == 157 ==> LineKey(l, k) == l.(ctrl := !l.ctrl)
    ensures k == 56 || k == 184 ==> LineKey(l, k) == l.(alt := !l.alt)
    ensures l.ctrl && k == 38 ==> LineKey(l, k) == l
  {
    hide Appended, ByRule;
    LetterLKey(k);
  }

  /** And the keys that edit the line. */
  lemma EditingRules(l: Line, k: byte)
    requires |l.text| <= 127
    ensures k == 14 ==> LineKey(l, k) == if l.text == [] then l else l.(text := l.text[..|l.text| - 1])
    ensures k == 28 ==> LineKey(l, k) == l.(text := [])
    ensures k == 15 && |l.text| <= 123 ==> LineKey(l, k) == l.(text := l.text + [32, 32, 32, 32])
    ensures k == 15 && |l.text| > 123 ==> LineKey(l, k) == l.(text := l.text + Repeat(32, 127 - |l.text|))
    ensures (2 <= k <= 13 || 16 <= k <= 27 || 30 <= k <= 41 || 43 <= k <= 53 || k == 57)
            && !(l.ctrl && k == 38) ==>
        LineKey(l, k) == if |l.text| == 127 then l else l.(text := l.text + [ByRule(Plain(k), l.cap, l.shift)])
  {
    hide ByRule;
    if 2 <= k <= 13 || 16 <= k <= 27 || 30 <= k <= 41 || 43 <= k <= 53 {
      PlainTable(k);
      LetterLKey(k);
      hide Plain;
    }
  }

  lemma LetterLKey(k: byte)
    ensures Plain(k) == LETTER_L <==> k == 38
  {
  }

  function LineKeys(l: Line, keys: seq<byte>): Line
    decreases |keys|
  {
    if keys == [] then l else LineKeys(LineKey(l, keys[0]), keys[1..])
  }

  function KeysHandled(e: Editor, keys: seq<byte>): (r: Editor)
    requires EditorOk(e)
    ensures EditorOk(r)
    decreases |keys|
  {
    if keys == [] then e else KeysHandled(KeyHandled(e, keys[0]), keys[1..])
  }

  function Abstract(e: Editor): Line
    requires EditorOk(e)
  {
    Line(LineOf(e), e.shift, e.cap, e.ctrl, e.alt)
  }

  /** Ctrl+L on a line that would be redrawn in the wrong place. */
  predicate Misdraws(e: Editor, k: byte)
    requires EditorOk(e)
  {
    e.ctrl && Plain(k) == LETTER_L && e.buf[LINE_MAX] == NEWLINE && !AllSpaces(LineOf(e))
  }

  predicate Smooth(e: Editor, keys: seq<byte>)
    requires EditorOk(e)
    decreases |keys|
  {
    keys == [] || (!SelectsTerminal(e.alt, keys[0]) && !Misdraws(e, keys[0])
        && Smooth(KeyHandled(e, keys[0]), keys[1..]))
  }

  lemma AppendTwice(text: seq<byte>, a: seq<byte>, b: seq<byte>)
    requires |text| <= LINE_MAX
    ensures Appended(Appended(text, a), b) == Appended(text, a + b)
  {
  }

  lemma SpaceAgrees(e: Editor)
    requires EditorOk(e) && Agrees(e)
    ensures var r := KeyPrinted(e, KB_SPACE);
            Agrees(r) && Abstract(r) == Abstract(e).(text := Appended(LineOf(e), [SPACE]))
  {
    hide Plain, Shifted, Caps, ShiftedCaps;
    SpaceKey();
    TypedAgrees(e, SPACE);
    assert KeyPrinted(e, KB_SPACE) == Typed(e, SPACE);
  }

  lemma TabAgrees(e: Editor)
    requires EditorOk(e) && Agrees(e)
    ensures Agrees(Spaces(e, 4))
    ensures Abstract(Spaces(e, 4)) == Abstract(e).(text := Appended(LineOf(e), Repeat(SPACE, 4)))
  {
    hide KeyPrinted, Appended, LineOf, Agrees;
    var text, one := LineOf(e), [SPACE];
    LineFits(e);
    assert Spaces(e, 1) == KeyPrinted(e, KB_SPACE);
    assert Spaces(e, 2) == KeyPrinted(Spaces(e, 1), KB_SPACE);
    assert Spaces(e, 3) == KeyPrinted(Spaces(e, 2), KB_SPACE);
    SpaceAgrees(e);
    SpaceAgrees(Spaces(e, 1));
    AppendTwice(text, one, one);
    SpaceAgrees(Spaces(e, 2));
    AppendTwice(text, one + one, one);
    SpaceAgrees(Spaces(e, 3));
    AppendTwice(text, one + one + one, one);
    assert one + one + one + one == Repeat(SPACE, 4);
  }

  lemma LineFits(e: Editor)
    requires EditorOk(e)
    ensures |LineOf(e)| <= LINE_MAX
    ensures Agrees(e) ==> AllPrintable(LineOf(e))
  {
  }

  lemma PrintedKeyAgrees(e: Editor, k: byte)
    requires EditorOk(e) && Agrees(e) && !Misdraws(e, k) && CharacterOrFunctionKey(k)
    ensures Agrees(KeyPrinted(e, k)) && Abstract(KeyPrinted(e, k)) == LineKey(Abstract(e), k)
  {
    hide Plain, Shifted, Caps, ShiftedCaps, Common, Appended, ByRule;
    CommonKeys(k);
    ChosenAgrees(k, e.cap, e.shift);
    ChosenByRule(k, e.cap, e.shift);
    if e.ctrl && Plain(k) == LETTER_L {
      RedrawExact(e);
    } else if F1_PRESS <= Plain(k) <= F10_PRESS {
    } else if Plain(k) == BACKSPACE {
      ErasedAgrees(e);
    } else if Plain(k) == NEWLINE {
      EnteredAgrees(e);
    } else {
      TypedAgrees(e, Chosen(k, e.cap, e.shift));
    }
  }

  /** The keys the handler passes on to keyboard_print. */
  predicate CharacterOrFunctionKey(k: byte)
  {
    var c := Plain(k);
    c != 0 && c != ALT_PRESS && c != ALT_RELEASE && c != CAP_PRESS && c != SHIFT_PRESS && c != SHIFT_RELEASE
    && c != CTRL_PRESS && c != CTRL_RELEASE && c != TAB
  }

  lemma CommonKeys(k: byte)
    ensures CharacterOrFunctionKey(k) && !CharacterKey(k) ==>
              Common(k) == BACKSPACE || Common(k)
                  == NEWLINE || Printable(Common(k)) || F1_PRESS <= Common(k) <= F10_PRESS
    ensures CharacterKey(k) ==> Printable(Plain(k))
  {
    hide Table;
    PlainTable(k);
  }

  /** Every key but terminal selection and a misdrawing Ctrl+L keeps screen and buffer in agreement, and
      does to the line what the abstract editor does. */
  lemma KeyAgrees(e: Editor, k: byte)
    requires EditorOk(e) && Agrees(e) && !SelectsTerminal(e.alt, k) && !Misdraws(e, k)
    ensures Agrees(KeyHandled(e, k)) && Abstract(KeyHandled(e, k)) == LineKey(Abstract(e), k)
  {
    hide Plain, Common, KeyPrinted, Appended, EchoAt;
    if CharacterOrFunctionKey(k) {
      PrintedKeyAgrees(e, k);
    } else if Plain(k) == TAB {
      TabAgrees(e);
      FourSpaces(e);
    }
  }

  /** Screen and buffer agree after every key of a run. */
  ghost predicate AgreesThroughout(e: Editor, keys: seq<byte>)
    requires EditorOk(e)
    decreases |keys|
  {
    Agrees(e) && (keys == [] || AgreesThroughout(KeyHandled(e, keys[0]), keys[1..]))
  }

  /** They do exactly when no key of the run is a misdrawing Ctrl+L. */
  lemma {:induction false} EchoRunExact(e: Editor, keys: seq<byte>)
    requires EditorOk(e) && Agrees(e) && Unselected(Abstract(e), keys)
    ensures AgreesThroughout(e, keys) <==> Smooth(e, keys)
    decreases |keys|
  {
    hide Agrees, KeyHandled, LineKey, Misdraws, SelectsTerminal;
    if keys != [] {
      if Misdraws(e, keys[0]) {
        AgreesClean(e);
        MisdrawnDisagrees(e, keys[0]);
      } else {
        KeyAgrees(e, keys[0]);
        EchoRunExact(KeyHandled(e, keys[0]), keys[1..]);
      }
    }
  }

  lemma AgreesClean(e: Editor)
    requires EditorOk(e) && Agrees(e)
    ensures BufferClean(e)
  {
  }

  lemma MisdrawnDisagrees(e: Editor, k: byte)
    requires EditorOk(e) && BufferClean(e) && Misdraws(e, k)
    ensures KeyHandled(e, k) == Redrawn(e) && !Agrees(KeyHandled(e, k))
  {
    RedrawExact(e);
    hide EchoAt, Redrawn;
    var r := Redrawn(e);
    assert KeyHandled(e, k) == r;
    assert LineOf(r) == LineOf(e) by { RedrawKeeps(e); }
  }

  lemma RedrawKeeps(e: Editor)
    requires EditorOk(e)
    ensures Redrawn(e) == e.(screen := Redrawn(e).screen)
  {
  }

  lemma {:induction false} EchoRun(e: Editor, keys: seq<byte>)
    requires EditorOk(e) && Agrees(e) && Smooth(e, keys)
    ensures Agrees(KeysHandled(e, keys)) && Abstract(KeysHandled(e, keys)) == LineKeys(Abstract(e), keys)
    decreases |keys|
  {
    hide Agrees, KeyHandled, LineKey, Abstract, Misdraws, SelectsTerminal;
    if keys != [] {
      KeyAgrees(e, keys[0]);
      EchoRun(KeyHandled(e, keys[0]), keys[1..]);
    }
  }

  // ----- The buffer alone: nothing in it depends on the screen.

  ghost predicate SameButScreen(a: Editor, b: Editor)
  {
    a == b.(screen := a.screen)
  }

  lemma EffectsApart(a: Editor, b: Editor, c: byte)
    requires EditorOk(a) && EditorOk(b) && SameButScreen(a, b)
    ensures SameButScreen(Typed(a, c), Typed(b, c)) && SameButScreen(Erased(a), Erased(b))
    ensures SameButScreen(Entered(a, c), Entered(b, c)) && SameButScreen(Redrawn(a), Redrawn(b))
  {
    hide Put, PutAll, Deleted, Visible, Reset, Cleared;
  }

  lemma PrintedApart(a: Editor, b: Editor, k: byte)
    requires EditorOk(a) && EditorOk(b) && SameButScreen(a, b)
    ensures SameButScreen(KeyPrinted(a, k), KeyPrinted(b, k))
  {
    hide Plain, Chosen, Typed, Erased, Entered, Redrawn;
    EffectsApart(a, b, Chosen(k, a.cap, a.shift));
    SameModifiers(a, b);
    hide SameButScreen;
  }

  lemma SameModifiers(a: Editor, b: Editor)
    requires SameButScreen(a, b)
    ensures a.cap == b.cap && a.shift == b.shift && a.ctrl == b.ctrl && a.alt == b.alt
  {
  }

  lemma {:induction false} SpacesApart(a: Editor, b: Editor, n: nat)
    requires EditorOk(a) && EditorOk(b) && SameButScreen(a, b)
    ensures SameButScreen(Spaces(a, n), Spaces(b, n))
  {
    hide KeyPrinted;
    if n > 0 {
      SpacesApart(a, b, n - 1);
      PrintedApart(Spaces(a, n - 1), Spaces(b, n - 1), KB_SPACE);
    }
  }

  lemma FlagsApart(a: Editor, b: Editor)
    requires SameButScreen(a, b)
    ensures SameButScreen(a.(alt := !a.alt), b.(alt := !b.alt)) && SameButScreen(a.(cap := !a.cap), b.(cap := !b.cap))
    ensures SameButScreen(a.(shift := !a.shift), b.(shift := !b.shift))
    ensures SameButScreen(a.(ctrl := !a.ctrl), b.(ctrl := !b.ctrl))
  {
  }

  lemma HandledApart(a: Editor, b: Editor, k: byte)
    requires EditorOk(a) && EditorOk(b) && SameButScreen(a, b)
    ensures SameButScreen(KeyHandled(a, k), KeyHandled(b, k))
  {
    hide Plain, KeyPrinted, Spaces, SameButScreen, EditorOk;
    PrintedApart(a, b, k);
    FlagsApart(a, b);
    SpacesApart(a, b, 4);
    FourSpaces(a);
    FourSpaces(b);
  }

  /** An editor with the same buffer whose screen shows just the line. */
  lemma Redisplayed(e: Editor)
    requires EditorOk(e) && BufferClean(e)
    ensures var f := e.(screen := PutAll(Cleared(), LineOf(e)));
            EditorOk(f) && Agrees(f) && SameButScreen(f, e) && Abstract(f) == Abstract(e)
  {
    hide PutAll, Cleared;
    PrintedAfterClear(LineOf(e));
  }

  /** Whatever the screen shows, a key does to the buffer what an editor of a bare line does; a misdrawing
      Ctrl+L too. */
  lemma BufferKey(e: Editor, k: byte)
    requires EditorOk(e) && BufferClean(e) && !SelectsTerminal(e.alt, k)
    ensures BufferClean(KeyHandled(e, k)) && Abstract(KeyHandled(e, k)) == LineKey(Abstract(e), k)
  {
    hide Plain, KeyHandled, PutAll, Cleared, EchoAt;
    if Misdraws(e, k) {
      MisdrawnDisagrees(e, k);
      RedrawKeeps(e);
      hide Redrawn;
      MisdrawnLine(Abstract(e), k);
    } else {
      var f := e.(screen := PutAll(Cleared(), LineOf(e)));
      Redisplayed(e);
      KeyAgrees(f, k);
      HandledApart(f, e, k);
    }
  }

  lemma MisdrawnLine(l: Line, k: byte)
    requires l.ctrl && Plain(k) == LETTER_L
    ensures LineKey(l, k) == l
  {
    hide Plain;
  }

  /** No key of the run selects a terminal. */
  predicate Unselected(l: Line, keys: seq<byte>)
    decreases |keys|
  {
    keys == [] || (!SelectsTerminal(l.alt, keys[0]) && Unselected(LineKey(l, keys[0]), keys[1..]))
  }

  /** Over any run of keys, misdrawing ones too, the buffer holds the line of the abstract editor. */
  lemma {:induction false} BufferRun(e: Editor, keys: seq<byte>)
    requires EditorOk(e) && BufferClean(e) && Unselected(Abstract(e), keys)
    ensures BufferClean(KeysHandled(e, keys)) && Abstract(KeysHandled(e, keys)) == LineKeys(Abstract(e), keys)
    decreases |keys|
  {
    hide BufferClean, KeyHandled, LineKey, Abstract, SelectsTerminal;
    if keys != [] {
      SameAlt(e);
      BufferKey(e, keys[0]);
      BufferRun(KeyHandled(e, keys[0]), keys[1..]);
    }
  }

  lemma SameAlt(e: Editor)
    requires EditorOk(e)
    ensures Abstract(e).alt == e.alt
  {
  }

  // ----- Where the stale newline comes from.

  /** Enter is pressed on a full line somewhere in the run. */
  predicate EntersFull(l: Line, keys: seq<byte>)
    decreases |keys|
  {
    keys != [] && ((Plain(keys[0]) == NEWLINE && |l.text| == LINE_MAX) || EntersFull(LineKey(l, keys[0]), keys[1..]))
  }

  lemma StaleKey(e: Editor, k: byte)
    requires EditorOk(e) && BufferClean(e) && !SelectsTerminal(e.alt, k)
    ensures KeyHandled(e, k).buf[LINE_MAX] ==
            if Plain(k) == NEWLINE && e.loc == LINE_MAX then NEWLINE else e.buf[LINE_MAX]
  {
    hide Plain, Shifted, Caps, ShiftedCaps, Common, KeyPrinted, BufferClean;
    if CharacterOrFunctionKey(k) {
      CommonKeys(k);
      ChosenAgrees(k, e.cap, e.shift);
      if F1_PRESS <= Plain(k) <= F10_PRESS {
        FunctionKey(e, k);
      } else {
        LastCell(e, k);
      }
    } else if Plain(k) == TAB {
      FourSpaces(e);
      SpacesLastCell(e, 4);
    }
  }

  lemma FunctionKey(e: Editor, k: byte)
    requires EditorOk(e) && F1_PRESS <= Plain(k) <= F10_PRESS
    ensures KeyPrinted(e, k) == e
  {
    hide Plain;
  }

  lemma {:induction false} SpacesLastCell(e: Editor, n: nat)
    requires EditorOk(e)
    ensures Spaces(e, n).buf[LINE_MAX] == e.buf[LINE_MAX]
  {
    hide KeyPrinted;
    SpaceKey();
    if n > 0 {
      SpacesLastCell(e, n - 1);
      LastCell(Spaces(e, n - 1), KB_SPACE);
    }
  }

  /** The last cell holds a newline exactly if it did before or Enter was pressed on a full line. */
  lemma {:induction false} StaleRun(e: Editor, keys: seq<byte>)
    requires EditorOk(e) && BufferClean(e) && Unselected(Abstract(e), keys)
    ensures KeysHandled(e, keys).buf[LINE_MAX] == NEWLINE
            <==> e.buf[LINE_MAX] == NEWLINE || EntersFull(Abstract(e), keys)
    decreases |keys|
  {
    hide BufferClean, KeyHandled, LineKey, SelectsTerminal;
    if keys != [] {
      BufferKey(e, keys[0]);
      StaleKey(e, keys[0]);
      StaleRun(KeyHandled(e, keys[0]), keys[1..]);
    }
  }

  /** Ctrl+L after any run of keys on a fresh buffer shows the line in the right place exactly when Enter was
      never pressed on a full line, or the line has only spaces. */
  lemma RedrawAfterRun(e: Editor, keys: seq<byte>, k: byte)
    requires EditorOk(e) && BufferClean(e) && e.buf[LINE_MAX] == NUL && Unselected(Abstract(e), keys)
    requires Plain(k) == LETTER_L && LineKeys(Abstract(e), keys).ctrl
    ensures var r := KeyHandled(KeysHandled(e, keys), k);
            var line := LineKeys(Abstract(e), keys).text;
            LineOf(r) == line && (EchoAt(r.screen, line) <==> !EntersFull(Abstract(e), keys) || AllSpaces(line))
  {
    hide Plain, Redrawn, LineKey, EchoAt, BufferClean, AllSpaces;
    BufferRun(e, keys);
    StaleRun(e, keys);
    var f := KeysHandled(e, keys);
    RedrawExact(f);
    RedrawKeeps(f);
  }

  const KEY_A: byte := 30
  const KEY_L: byte := 38
  const KEY_ENTER: byte := 28
  const KEY_CTRL: byte := 29

  lemma {:induction false} LettersTyped(l: Line, n: nat, more: seq<byte>)
    requires !l.shift && !l.cap && !l.ctrl && !l.alt && |l.text| + n <= LINE_MAX
    ensures var keys, r := Repeat(KEY_A, n) + more, l.(text := l.text + Repeat(97, n));
            && LineKeys(l, keys) == LineKeys(r, more) && (Unselected(l, keys) <==> Unselected(r, more))
            && (EntersFull(l, keys) <==> EntersFull(r, more))
    decreases n
  {
    var keys := Repeat(KEY_A, n) + more;
    if n == 0 {
      assert keys == more && l.text + [] == l.text;
    } else {
      var next := l.(text := l.text + [97]);
      KeyPlains();
      assert keys[0] == KEY_A && keys[1..] == Repeat(KEY_A, n - 1) + more;
      assert LineKey(l, KEY_A) == next by { hide Plain; }
      LettersTyped(next, n - 1, more);
      assert next.text + Repeat(97, n - 1) == l.text + Repeat(97, n);
      hide Plain, LineKey;
      assert LineKeys(l, keys) == LineKeys(next, keys[1..]);
    }
  }

  lemma KeyPlains()
    ensures Plain(KEY_A) == Chosen(KEY_A, false, false) == 97 && Plain(KEY_L) == LETTER_L
    ensures Plain(KEY_ENTER) == NEWLINE && Plain(KEY_CTRL) == CTRL_PRESS
  {
  }

  const SPOILER: seq<byte> := [KEY_ENTER, KEY_A, KEY_CTRL]

  /** A full line, Enter, one letter and Ctrl+L: the letter is not where the line buffer says it is. */
  lemma FullLineSpoilsRedraw(e: Editor)
    requires EditorOk(e) && Agrees(e) && e.loc == 0 && e.buf[LINE_MAX] == NUL
    requires !e.shift && !e.cap && !e.ctrl && !e.alt
    ensures var r := KeysHandled(e, Repeat(KEY_A, LINE_MAX) + SPOILER + [KEY_L]);
            LineOf(r) == [97] && !EchoAt(r.screen, [97])
  {
    var keys := Repeat(KEY_A, LINE_MAX) + SPOILER;
    SpoilerRun(Abstract(e));
    AgreesClean(e);
    KeyPlains();
    hide *;
    RedrawAfterRun(e, keys, KEY_L);
    KeysSnoc(e, keys, KEY_L);
  }

  lemma SpoilerRun(l: Line)
    requires !l.shift && !l.cap && !l.ctrl && !l.alt && l.text == []
    ensures var keys := Repeat(KEY_A, LINE_MAX) + SPOILER;
            && LineKeys(l, keys) == l.(text := [97], ctrl := true) && Unselected(l, keys) && EntersFull(l, keys)
            && !AllSpaces([97])
  {
    assert [97][0] == 97;
    LettersTyped(l, LINE_MAX, SPOILER);
    LastKeys(l.(text := l.text + Repeat(97, LINE_MAX)));
  }

  lemma LastKeys(l: Line)
    requires !l.shift && !l.cap && !l.ctrl && !l.alt && |l.text| == LINE_MAX
    ensures LineKeys(l, SPOILER) == l.(text := [97], ctrl := true) && Unselected(l, SPOILER) && EntersFull(l, SPOILER)
  {
    var two, one := [KEY_A, KEY_CTRL], [KEY_CTRL];
    KeyPlains();
    assert SPOILER[1..] == two && two[1..] == one && one[1..] == [];
    var a := l.(text := []);
    var b := l.(text := [97]);
    var c := b.(ctrl := true);
    assert LineKey(l, KEY_ENTER) == a && LineKey(a, KEY_A) == b && LineKey(b, KEY_CTRL) == c by { hide Plain; }
    hide Plain, LineKey;
    assert LineKeys(b, one) == LineKeys(c, []) && (Unselected(b, one) <==> Unselected(c, []));
    assert LineKeys(a, two) == LineKeys(b, one) && (Unselected(a, two) <==> Unselected(b, one));
  }

  lemma {:induction false} KeysSnoc(e: Editor, keys: seq<byte>, k: byte)
    requires EditorOk(e)
    ensures KeysHandled(e, keys + [k]) == KeyHandled(KeysHandled(e, keys), k)
    decreases |keys|
  {
    hide KeyHandled;
    if keys != [] {
      assert (keys + [k])[1..] == keys[1..] + [k];
      KeysSnoc(KeyHandled(e, keys[0]), keys[1..], k);
    } else {
      assert [k][1..] == [] && [] + [k] == [k];
    }
  }

  // ----- Line delivery.

  lemma NewlineIndexIs(s: seq<byte>, i: nat)
    requires i <= |s| && (forall j | 0 <= j < i :: s[j] != NEWLINE) && (i < |s| ==> s[i] == NEWLINE)
    ensures NewlineIndex(s) == i
  {
  }

  lemma ReadOfLine(saved: seq<byte>, line: seq<byte>, nbytes: nat)
    requires |saved| == TERM_BUF_SIZE && |line| <= LINE_MAX && AllPrintable(line)
    requires saved[..|line| + 1] == line + [NEWLINE]
    ensures ReadResult(saved, nbytes) ==
            if nbytes > |line| then (|line| + 1, line + [NEWLINE]
                + Repeat(NUL, nbytes - |line| - 1)) else (-1, line[..nbytes])
  {
    var limit := if nbytes > TERM_BUF_SIZE then TERM_BUF_SIZE else nbytes;
    forall j | 0 <= j < |line| ensures saved[j] == line[j] != NEWLINE {
      assert saved[j] == saved[..|line| + 1][j] && Printable(line[j]);
    }
    assert saved[|line|] == saved[..|line| + 1][|line|] == NEWLINE;
    if nbytes > |line| {
      NewlineIndexIs(saved[..limit], |line|);
    } else {
      NewlineIndexIs(saved[..limit], limit);
      assert saved[..limit] == line[..nbytes];
      assert line[..nbytes] + Repeat(NUL, 0) == line[..nbytes];
    }
  }

  lemma EnterKeyHandled(e: Editor, k: byte)
    requires EditorOk(e) && Plain(k) == NEWLINE
    ensures KeyHandled(e, k) == Entered(e, NEWLINE)
  {
    hide Entered, Table, Common;
    ChosenAgrees(k, e.cap, e.shift);
  }

  lemma EnteredBuffer(e: Editor)
    requires EditorOk(e) && BufferClean(e)
    ensures BufferClean(Entered(e, NEWLINE)) && LineOf(Entered(e, NEWLINE)) == []
    ensures Entered(e, NEWLINE).saved[..e.loc + 1] == LineOf(e) + [NEWLINE]
  {
  }

  /** After any run of keys, Enter hands the line the abstract editor holds, with its newline, to a reader
      whose buffer is longer than the line; a shorter buffer is filled and the read reports failure.  The screen
      plays no part, so this survives a misdrawing Ctrl+L and the newline that is never cleared. */
  lemma LineDelivered(e: Editor, keys: seq<byte>, enter: byte, nbytes: nat)
    requires EditorOk(e) && BufferClean(e) && Unselected(Abstract(e), keys) && Plain(enter) == NEWLINE
    ensures var line := LineKeys(Abstract(e), keys).text;
            var after := KeyHandled(KeysHandled(e, keys), enter);
            && |line| <= LINE_MAX && after.ready && BufferClean(after) && LineOf(after) == []
            && ReadResult(after.saved, nbytes) ==
               if nbytes > |line| then (|line| + 1, line + [NEWLINE] + Repeat(NUL, nbytes - |line| - 1))
               else (-1, line[..nbytes])
  {
    hide Plain;
    BufferRun(e, keys);
    var f := KeysHandled(e, keys);
    EnterKeyHandled(f, enter);
    EnteredBuffer(f);
    ReadOfLine(Entered(f, NEWLINE).saved, LineOf(f), nbytes);
  }
}
