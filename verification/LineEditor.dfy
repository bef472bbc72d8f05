/** The line editor: student-distrib/keyboard.c with terminal_buf_save and terminal_read of terminal.c. */
module LineEditor {
  import opened Bytes
  import opened Console
  import opened ScanCodes

  const TERM_BUF_SIZE := 128

  /** Everything a key can change: the screen, the line buffer and its fill, the modifier flags, the saved
      line and the flag that a line is ready. */
  datatype Editor = Editor(screen: Screen, buf: seq<byte>, loc: int,
                           shift: bool, cap: bool, ctrl: bool, alt: bool,
                           saved: seq<byte>, ready: bool)

  ghost predicate EditorOk(e: Editor)
  {
    Ok(e.screen) && |e.buf| == TERM_BUF_SIZE && 0 <= e.loc < TERM_BUF_SIZE && |e.saved| == TERM_BUF_SIZE
  }

  // ----- The effect of one key as a function.

  /** reset_buffer stops one cell early. */
  function Reset(buf: seq<byte>): (r: seq<byte>)
    requires |buf| == TERM_BUF_SIZE
    ensures |r| == TERM_BUF_SIZE
  {
    Repeat(NUL, TERM_BUF_SIZE - 1) + [buf[TERM_BUF_SIZE - 1]]
  }

  function Typed(e: Editor, c: byte): (r: Editor)
    requires EditorOk(e)
    ensures EditorOk(r)
  {
    if e.loc >= TERM_BUF_SIZE - 1 then e
    else e.(screen := Put(e.screen, c), buf := e.buf[e.loc := c], loc := e.loc + 1)
  }

  function Erased(e: Editor): (r: Editor)
    requires EditorOk(e)
    ensures EditorOk(r)
  {
    if e.loc > 0 then e.(screen := Deleted(e.screen), buf := e.buf[e.loc - 1 := NUL], loc := e.loc - 1) else e
  }

  function Entered(e: Editor, c: byte): (r: Editor)
    requires EditorOk(e)
    ensures EditorOk(r)
  {
    var line := e.buf[e.loc := c];
    e.(screen := Put(e.screen, c), buf := Reset(line), loc := 0, saved := line, ready := true)
  }

  function Redrawn(e: Editor): (r: Editor)
    requires EditorOk(e)
    ensures EditorOk(r)
  {
    e.(screen := PutAll(Cleared(), Visible(e.buf)))
  }

  /** Alt with F1 to F3 selects another terminal; such keys are outside the editor. */
  predicate SelectsTerminal(alt: bool, k: byte)
  {
    alt && F1_PRESS <= Plain(k) <= F3_PRESS
  }

  /** keyboard_print. */
  function KeyPrinted(e: Editor, k: byte): (r: Editor)
    requires EditorOk(e)
    ensures EditorOk(r)
  {
    var c := Chosen(k, e.cap, e.shift);
    if e.ctrl && Plain(k) == LETTER_L then Redrawn(e)
    else if F1_PRESS <= Plain(k) <= F10_PRESS then e
    else if Plain(k) == BACKSPACE then Erased(e)
    else if c == NEWLINE || c == RETURN then Entered(e, c)
    else Typed(e, c)
  }

  /** keyboard_handler. */
  function KeyHandled(e: Editor, k: byte): (r: Editor)
    requires EditorOk(e)
    ensures EditorOk(r)
  {
    var c := Plain(k);
    if c == 0 then e
    else if c == ALT_PRESS || c == ALT_RELEASE then e.(alt := !e.alt)
    else if c == CAP_PRESS then e.(cap := !e.cap)
    else if c == SHIFT_PRESS || c == SHIFT_RELEASE then e.(shift := !e.shift)
    else if c == CTRL_PRESS || c == CTRL_RELEASE then e.(ctrl := !e.ctrl)
    else if c == TAB then
      KeyPrinted(KeyPrinted(KeyPrinted(KeyPrinted(e, KB_SPACE), KB_SPACE), KB_SPACE), KB_SPACE)
    else KeyPrinted(e, k)
  }

  /** What terminal_read leaves in the caller's buffer and returns, once a line is ready. */
  function ReadResult(saved: seq<byte>, nbytes: nat): (r: (int, seq<byte>))
    requires |saved| == TERM_BUF_SIZE
    ensures |r.1| == nbytes
  {
    var limit := if nbytes > TERM_BUF_SIZE then TERM_BUF_SIZE else nbytes;
    var at := NewlineIndex(saved[..limit]);
    if at < limit then (at + 1, saved[..at + 1] + Repeat(NUL, nbytes - at - 1))
    else (-1, saved[..limit] + Repeat(NUL, nbytes - limit))
  }

  function NewlineIndex(s: seq<byte>): (i: nat)
    ensures i <= |s| && (forall j | 0 <= j < i :: s[j] != NEWLINE) && (i < |s| ==> s[i] == NEWLINE)
  {
    if s == [] || s[0] == NEWLINE then 0 else 1 + NewlineIndex(s[1..])
  }

  // ----- The program.

  class Keyboard {
    const console: Console
    const trueBuffer: array<byte>
    const terminalBuf: array<byte>
    var termBufLocation: int
    var shiftFlag: bool
    var capFlag: bool
    var ctrlFlag: bool
    var altFlag: bool
    var termReadFlag: bool

    ghost predicate Valid()
      reads this, console
    {
      && console.Valid() && 0 <= termBufLocation < TERM_BUF_SIZE
      && trueBuffer.Length == TERM_BUF_SIZE && terminalBuf.Length == TERM_BUF_SIZE
      && trueBuffer != terminalBuf && trueBuffer != console.mem && terminalBuf != console.mem
    }

    ghost function State(): (e: Editor)
      requires Valid()
      reads this, console, console.mem, trueBuffer, terminalBuf
      ensures EditorOk(e)
    {
      Editor(console.View(), trueBuffer[..], termBufLocation, shiftFlag, capFlag, ctrlFlag, altFlag,
          terminalBuf[..], termReadFlag)
    }

    constructor (console: Console)
      requires console.Valid()
      ensures Valid() && this.console == console && fresh(trueBuffer) && fresh(terminalBuf)
      ensures State() == Editor(console.View(), Repeat(NUL, TERM_BUF_SIZE), 0, false, false, false, false,
          Repeat(NUL, TERM_BUF_SIZE), false)
    {
      this.console := console;
      trueBuffer := new byte[TERM_BUF_SIZE](_ => NUL);
      terminalBuf := new byte[TERM_BUF_SIZE](_ => NUL);
      termBufLocation := 0;
      shiftFlag, capFlag, ctrlFlag, altFlag, termReadFlag := false, false, false, false, false;
    }

    method ResetBuffer()
      requires Valid()
      modifies trueBuffer
      ensures Valid() && State() == old(State()).(buf := Reset(old(trueBuffer[..])))
    {
      for i := 0 to TERM_BUF_SIZE - 1
        invariant trueBuffer[..i] == Repeat(NUL, i)
        invariant trueBuffer[TERM_BUF_SIZE - 1] == old(trueBuffer[TERM_BUF_SIZE - 1])
      {
        trueBuffer[i] := NUL;
      }
      assert trueBuffer[..] == Reset(old(trueBuffer[..]));
    }

    method TerminalBufSave()
      requires Valid()
      modifies terminalBuf
      ensures Valid() && State() == old(State()).(saved := old(trueBuffer[..]))
    {
      for i := 0 to TERM_BUF_SIZE
        invariant terminalBuf[..i] == trueBuffer[..i]
        invariant trueBuffer[..] == old(trueBuffer[..])
      {
        terminalBuf[i] := trueBuffer[i];
      }
      assert terminalBuf[..] == terminalBuf[..TERM_BUF_SIZE] == trueBuffer[..TERM_BUF_SIZE] == trueBuffer[..];
    }

    /** Ctrl+L, student-distrib/keyboard.c:217-221. */
    method Redraw()
      requires Valid()
      modifies console, console.mem
      ensures Valid() && State() == Redrawn(old(State()))
    {
      hide Put, PutAll, Visible, TextOf, AttrOf, Cleared;
      console.Clear();
      console.Write(trueBuffer[..]);
    }

    method BackspaceKey()
      requires Valid()
      modifies this, console, console.mem, trueBuffer
      ensures Valid() && State() == Erased(old(State()))
    {
      hide Deleted, TextOf, AttrOf;
      if termBufLocation > 0 {
        console.Delete();
        termBufLocation := termBufLocation - 1;
        trueBuffer[termBufLocation] := NUL;
      }
    }

    method EnterKey(c: byte)
      requires Valid()
      modifies this, console, console.mem, trueBuffer, terminalBuf
      ensures Valid() && State() == Entered(old(State()), c)
    {
      hide Put, TextOf, AttrOf, Reset;
      trueBuffer[termBufLocation] := c;
      assert trueBuffer[..] == old(trueBuffer[..])[termBufLocation := c];
      TerminalBufSave();
      termBufLocation := 0;
      termReadFlag := true;
      ResetBuffer();
      console.Putc(c);
    }

    method CharacterTyped(c: byte)
      requires Valid()
      modifies this, console, console.mem, trueBuffer
      ensures Valid() && State() == Typed(old(State()), c)
    {
      hide Put, TextOf, AttrOf;
      if termBufLocation >= TERM_BUF_SIZE - 1 {
        return;
      }
      console.Putc(c);
      trueBuffer[termBufLocation] := c;
      termBufLocation := termBufLocation + 1;
    }

    method KeyboardPrint(k: byte)
      requires Valid() && !SelectsTerminal(altFlag, k)
      modifies this, console, console.mem, trueBuffer, terminalBuf
      ensures Valid() && State() == KeyPrinted(old(State()), k)
    {
      hide Redrawn, Erased, Entered, Typed, Plain, Shifted, Caps, ShiftedCaps, TextOf, AttrOf;
      if ctrlFlag && Plain(k) == LETTER_L {
        Redraw();
        return;
      }
      var c;
      if F1_PRESS <= Plain(k) <= F10_PRESS {
        return;
      } else if capFlag && shiftFlag {
        c := ShiftedCaps(k);
      } else if capFlag && !shiftFlag {
        c := Caps(k);
      } else if !capFlag && shiftFlag {
        c := Shifted(k);
      } else {
        c := Plain(k);
      }
      if Plain(k) == BACKSPACE {
        BackspaceKey();
      } else if c == NEWLINE || c == RETURN {
        EnterKey(c);
      } else {
        CharacterTyped(c);
      }
    }

    method KeyboardHandler(k: byte)
      requires Valid() && !SelectsTerminal(altFlag, k)
      modifies this, console, console.mem, trueBuffer, terminalBuf
      ensures Valid() && State() == KeyHandled(old(State()), k)
    {
      hide KeyPrinted, Common, Table;
      var c := Plain(k);
      if c == 0 {
      } else if c == ALT_PRESS || c == ALT_RELEASE {
        altFlag := !altFlag;
      } else if c == CAP_PRESS {
        capFlag := !capFlag;
      } else if c == SHIFT_PRESS || c == SHIFT_RELEASE {
        shiftFlag := !shiftFlag;
      } else if c == CTRL_PRESS || c == CTRL_RELEASE {
        ctrlFlag := !ctrlFlag;
      } else if c == TAB {
        SpaceKey();
        ghost var e := State();
        for i := 0 to 4
          invariant Valid() && State() == Spaces(e, i)
        {
          KeyboardPrint(KB_SPACE);
        }
        FourSpaces(e);
      } else {
        KeyboardPrint(k);
      }
    }

    /** The start of terminal_read: forget the saved line and wait for a new one. */
    method BeginRead()
      requires Valid()
      modifies this`termReadFlag, terminalBuf
      ensures Valid() && State() == old(State()).(saved := Repeat(NUL, TERM_BUF_SIZE), ready := false)
    {
      for i := 0 to TERM_BUF_SIZE
        invariant terminalBuf[..i] == Repeat(NUL, i)
      {
        terminalBuf[i] := NUL;
      }
      assert terminalBuf[..] == terminalBuf[..TERM_BUF_SIZE];
      termReadFlag := false;
    }

    /** The rest of terminal_read, run once the keyboard has set the flag; buf was cleared by the call. */
    method FinishRead(buf: array<byte>) returns (ret: int)
      requires Valid() && termReadFlag
      requires buf != terminalBuf && buf[..] == Repeat(NUL, buf.Length)
      modifies buf
      ensures (ret, buf[..]) == ReadResult(old(terminalBuf[..]), buf.Length)
    {
      var nbytes := buf.Length;
      var smallBuf := if nbytes > TERM_BUF_SIZE then TERM_BUF_SIZE else nbytes;
      ghost var saved := terminalBuf[..];
      for i := 0 to smallBuf
        invariant terminalBuf[..] == saved
        invariant buf[..] == saved[..i] + Repeat(NUL, nbytes - i)
        invariant forall j | 0 <= j < i :: saved[j] != NEWLINE
      {
        buf[i] := terminalBuf[i];
        assert buf[..] == saved[..i + 1] + Repeat(NUL, nbytes - i - 1);
        if buf[i] == NEWLINE {
          return i + 1;
        }
      }
      return -1;
    }
  }

  function Spaces(e: Editor, n: nat): (r: Editor)
    requires EditorOk(e)
    ensures EditorOk(r)
  {
    if n == 0 then e else KeyPrinted(Spaces(e, n - 1), KB_SPACE)
  }

  lemma FourSpaces(e: Editor)
    requires EditorOk(e)
    ensures Spaces(e, 4) == KeyPrinted(KeyPrinted(KeyPrinted(KeyPrinted(e, KB_SPACE), KB_SPACE), KB_SPACE), KB_SPACE)
  {
    hide KeyPrinted;
    assert Spaces(e, 1) == KeyPrinted(e, KB_SPACE);
    assert Spaces(e, 2) == KeyPrinted(KeyPrinted(e, KB_SPACE), KB_SPACE);
    assert Spaces(e, 3) == KeyPrinted(Spaces(e, 2), KB_SPACE);
  }

  lemma SpaceKey()
    ensures forall cap, shift :: Chosen(KB_SPACE, cap, shift) == SPACE
    ensures Plain(KB_SPACE) == SPACE
  {
  }
}
