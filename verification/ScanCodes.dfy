/** The four scan code tables of student-distrib/keyboard.c. */
module ScanCodes {
  import opened Bytes

  const SHIFT_PRESS: byte := 200
  const CAP_PRESS: byte := 201
  const CTRL_PRESS: byte := 202
  const SHIFT_RELEASE: byte := 203
  const CTRL_RELEASE: byte := 204
  const ALT_PRESS: byte := 205
  const ALT_RELEASE: byte := 206
  const F1_PRESS: byte := 207
  const F3_PRESS: byte := 209
  const F10_PRESS: byte := 216
  const BACKSPACE: byte := 8
  const TAB: byte := 9
  const LETTER_L: byte := 108
  const KB_SPACE: byte := 57

  function CharAt(row: string, i: int): byte
    requires 0 <= i < |row|
  {
    (row[i] as int) % 256
  }

  /** A table is fixed by its four rows of twelve, twelve, twelve and ten characters and its backslash
      key; the remaining entries are the same in all four. */
  function Table(k: byte, digits: string, upper: string, home: string, back: char, lower: string): byte
    requires |digits| == |upper| == |home| == 12 && |lower| == 10
  {
    if 2 <= k <= 13 then CharAt(digits, k - 2)
    else if 16 <= k <= 27 then CharAt(upper, k - 16)
    else if 30 <= k <= 41 then CharAt(home, k - 30)
    else if k == 43 then (back as int) % 256
    else if 44 <= k <= 53 then CharAt(lower, k - 44)
    else Common(k)
  }

  function Common(k: byte): byte
  {
    if k == 14 then BACKSPACE
    else if k == 15 then TAB
    else if k == 28 then NEWLINE
    else if k == 29 then CTRL_PRESS
    else if k == 42 || k == 54 then SHIFT_PRESS
    else if k == 55 then 42
    else if k == 56 then ALT_PRESS
    else if k == 57 then SPACE
    else if k == 58 then CAP_PRESS
    else if 59 <= k <= 68 then F1_PRESS + k - 59
    else if k == 157 then CTRL_RELEASE
    else if k == 170 || k == 182 then SHIFT_RELEASE
    else if k == 184 then ALT_RELEASE
    else 0
  }

  function Plain(k: byte): byte
  {
    Table(k, "1234567890-=", "qwertyuiop[]", "asdfghjkl;'`", '\\', "zxcvbnm,./")
  }

  function Shifted(k: byte): byte
  {
    Table(k, "!@#$%^&*()_+", "QWERTYUIOP{}", "ASDFGHJKL:\"~", '|', "ZXCVBNM<>?")
  }

  function Caps(k: byte): byte
  {
    Table(k, "1234567890-=", "QWERTYUIOP[]", "ASDFGHJKL;'`", '\\', "ZXCVBNM,./")
  }

  function ShiftedCaps(k: byte): byte
  {
    Table(k, "!@#$%^&*()_+", "qwertyuiop{}", "asdfghjkl:\"~", '|', "zxcvbnm<>?")
  }

  function Chosen(k: byte, cap: bool, shift: bool): byte
  {
    if cap && shift then ShiftedCaps(k)
    else if cap then Caps(k)
    else if shift then Shifted(k)
    else Plain(k)
  }

  predicate Printable(c: byte)
  {
    32 <= c < 127
  }

  ghost predicate PrintableRow(row: string)
  {
    forall i | 0 <= i < |row| :: ' ' <= row[i] <= '~'
  }

  /** The keys that stand for a character of the rows. */
  predicate CharacterKey(k: byte)
  {
    2 <= k <= 13 || 16 <= k <= 27 || 30 <= k <= 41 || 43 <= k <= 53
  }

  lemma TableOfPrintableRows(k: byte, digits: string, upper: string, home: string, back: char, lower: string)
    requires |digits| == |upper| == |home| == 12 && |lower| == 10
    requires PrintableRow(digits) && PrintableRow(upper) && PrintableRow(home) && PrintableRow([back])
        && PrintableRow(lower)
    ensures var c := Table(k, digits, upper, home, back, lower);
            if CharacterKey(k) then Printable(c) else c == Common(k)
  {
    assert [back][0] == back;
  }

  lemma PlainTable(k: byte)
    ensures if CharacterKey(k) then Printable(Plain(k)) else Plain(k) == Common(k)
  {
    hide Table, CharacterKey, Common;
    TableOfPrintableRows(k, "1234567890-=", "qwertyuiop[]", "asdfghjkl;'`", '\\', "zxcvbnm,./");
  }

  lemma ShiftedTable(k: byte)
    ensures if CharacterKey(k) then Printable(Shifted(k)) else Shifted(k) == Common(k)
  {
    hide Table, CharacterKey, Common;
    TableOfPrintableRows(k, "!@#$%^&*()_+", "QWERTYUIOP{}", "ASDFGHJKL:\"~", '|', "ZXCVBNM<>?");
  }

  lemma CapsTable(k: byte)
    ensures if CharacterKey(k) then Printable(Caps(k)) else Caps(k) == Common(k)
  {
    hide Table, CharacterKey, Common;
    TableOfPrintableRows(k, "1234567890-=", "QWERTYUIOP[]", "ASDFGHJKL;'`", '\\', "ZXCVBNM,./");
  }

  lemma ShiftedCapsTable(k: byte)
    ensures if CharacterKey(k) then Printable(ShiftedCaps(k)) else ShiftedCaps(k) == Common(k)
  {
    hide Table, CharacterKey, Common;
    TableOfPrintableRows(k, "!@#$%^&*()_+", "qwertyuiop{}", "asdfghjkl:\"~", '|', "zxcvbnm<>?");
  }

  /** The modifiers change only which printable character a character key stands for. */
  lemma ChosenAgrees(k: byte, cap: bool, shift: bool)
    ensures if CharacterKey(k) then Printable(Plain(k)) && Printable(Chosen(k, cap, shift))
            else Chosen(k, cap, shift) == Plain(k) == Common(k)
  {
    hide CharacterKey, Common, Plain, Shifted, Caps, ShiftedCaps;
    PlainTable(k);
    ShiftedTable(k);
    CapsTable(k);
    ShiftedCapsTable(k);
  }

  // ----- The rules of a US keyboard.

  /** The other character on the cap of a key that is not a letter. */
  function Over(c: char): char
  {
    match c
    case '1' => '!' case '2' => '@' case '3' => '#' case '4' => '$' case '5' => '%'
    case '6' => '^' case '7' => '&' case '8' => '*' case '9' => '(' case '0' => ')'
    case '-' => '_' case '=' => '+' case '[' => '{' case ']' => '}' case ';' => ':'
    case '\'' => '"' case '`' => '~' case '\\' => '|' case ',' => '<' case '.' => '>' case '/' => '?'
    case _ => c
  }

  /** Letters are capital when exactly one of shift and caps lock is on; on the other keys shift alone selects the
      upper character. */
  function ByRule(c: byte, cap: bool, shift: bool): byte
  {
    if 97 <= c <= 122 then (if cap != shift then c - 32 else c)
    else if shift then (Over(c as char) as int) % 256
    else c
  }

  /** A row of keys from a scan code on types these characters, alone and with shift. */
  ghost predicate RowTypes(first: byte, plain: string, shifted: string)
  {
    |plain| == |shifted| && first + |plain| <= 256
    && forall i | 0 <= i < |plain| ::
         Plain(first + i) == (plain[i] as int) % 256 && Shifted(first + i) == (shifted[i] as int) % 256
  }

  /** The keys, row by row. */
  lemma KeyCaps()
    ensures RowTypes(2, "1234567890-=", "!@#$%^&*()_+")
    ensures RowTypes(16, "qwertyuiop[]", "QWERTYUIOP{}")
    ensures RowTypes(30, "asdfghjkl;'`", "ASDFGHJKL:\"~")
    ensures RowTypes(43, "\\", "|")
    ensures RowTypes(44, "zxcvbnm,./", "ZXCVBNM<>?")
    ensures Plain(14) == 8 && Plain(15) == 9 && Plain(28) == 10 && Plain(57) == 32
    ensures Plain(29) == CTRL_PRESS && Plain(157) == CTRL_RELEASE && Plain(58) == CAP_PRESS
    ensures Plain(42) == Plain(54) == SHIFT_PRESS && Plain(170) == Plain(182) == SHIFT_RELEASE
    ensures Plain(56) == ALT_PRESS && Plain(184) == ALT_RELEASE
  {
  }

  /** The four characters of one key follow the rules. */
  ghost predicate KeyByRule(plain: char, shifted: char, caps: char, both: char)
  {
    var c: byte := (plain as int) % 256;
    && ByRule(c, false, false) == c && ByRule(c, false, true) == (shifted as int) % 256
    && ByRule(c, true, false) == (caps as int) % 256 && ByRule(c, true, true) == (both as int) % 256
  }

  /** One row of the four tables follows the rules. */
  ghost predicate RowByRule(plain: string, shifted: string, caps: string, both: string)
  {
    |plain| == |shifted| == |caps| == |both|
    && forall i | 0 <= i < |plain| :: KeyByRule(plain[i], shifted[i], caps[i], both[i])
  }

  lemma LetterByRule(c: char, capital: char)
    requires 'a' <= c <= 'z' && capital as int == c as int - 32
    ensures KeyByRule(c, capital, capital, c)
  {
  }

  lemma OtherByRule(c: char)
    requires ' ' <= c <= '~' && !('a' <= c <= 'z')
    ensures KeyByRule(c, Over(c), c, Over(c))
  {
    hide Over;
  }

  lemma DigitsByRule()
    ensures RowByRule("1234567890-=", "!@#$%^&*()_+", "1234567890-=", "!@#$%^&*()_+")
  {
    hide KeyByRule, ByRule;
    forall i | 0 <= i < 12
      ensures KeyByRule("1234567890-="[i], "!@#$%^&*()_+"[i], "1234567890-="[i], "!@#$%^&*()_+"[i])
    {
      OtherByRule("1234567890-="[i]);
      assert Over("1234567890-="[i]) == "!@#$%^&*()_+"[i];
    }
  }

  lemma UpperByRule()
    ensures RowByRule("qwertyuiop[]", "QWERTYUIOP{}", "QWERTYUIOP[]", "qwertyuiop{}")
  {
    hide KeyByRule, ByRule;
    assert Over('[') == '{' && Over(']') == '}';
    OtherByRule('[');
    OtherByRule(']');
    hide Over;
    forall i | 0 <= i < 10 ensures KeyByRule("qwertyuiop"[i], "QWERTYUIOP"[i], "QWERTYUIOP"[i], "qwertyuiop"[i]) {
      LetterByRule("qwertyuiop"[i], "QWERTYUIOP"[i]);
    }
    JoinRows("qwertyuiop", "QWERTYUIOP", "QWERTYUIOP", "qwertyuiop", "[]", "{}", "[]", "{}");
    assert "qwertyuiop" + "[]" == "qwertyuiop[]" && "QWERTYUIOP" + "{}" == "QWERTYUIOP{}";
    assert "QWERTYUIOP" + "[]" == "QWERTYUIOP[]" && "qwertyuiop" + "{}" == "qwertyuiop{}";
  }

  lemma JoinRows(a: string, b: string, c: string, d: string, e: string, f: string, g: string, h: string)
    requires RowByRule(a, b, c, d) && RowByRule(e, f, g, h)
    ensures RowByRule(a + e, b + f, c + g, d + h)
  {
    hide KeyByRule;
  }

  lemma HomeByRule()
    ensures RowByRule("asdfghjkl;'`", "ASDFGHJKL:\"~", "ASDFGHJKL;'`", "asdfghjkl:\"~")
  {
    hide KeyByRule, ByRule;
    assert Over(';') == ':' && Over('\'') == '"' && Over('`') == '~';
    OtherByRule(';');
    OtherByRule('\'');
    OtherByRule('`');
    hide Over;
    forall i | 0 <= i < 9 ensures KeyByRule("asdfghjkl"[i], "ASDFGHJKL"[i], "ASDFGHJKL"[i], "asdfghjkl"[i]) {
      LetterByRule("asdfghjkl"[i], "ASDFGHJKL"[i]);
    }
    JoinRows("asdfghjkl", "ASDFGHJKL", "ASDFGHJKL", "asdfghjkl", ";'`", ":\"~", ";'`", ":\"~");
    assert "asdfghjkl" + ";'`" == "asdfghjkl;'`" && "ASDFGHJKL" + ":\"~" == "ASDFGHJKL:\"~";
    assert "ASDFGHJKL" + ";'`" == "ASDFGHJKL;'`" && "asdfghjkl" + ":\"~" == "asdfghjkl:\"~";
  }

  lemma LowerByRule()
    ensures RowByRule("zxcvbnm,./", "ZXCVBNM<>?", "ZXCVBNM,./", "zxcvbnm<>?")
  {
    hide KeyByRule, ByRule;
    assert Over(',') == '<' && Over('.') == '>' && Over('/') == '?';
    OtherByRule(',');
    OtherByRule('.');
    OtherByRule('/');
    hide Over;
    forall i | 0 <= i < 7 ensures KeyByRule("zxcvbnm"[i], "ZXCVBNM"[i], "ZXCVBNM"[i], "zxcvbnm"[i]) {
      LetterByRule("zxcvbnm"[i], "ZXCVBNM"[i]);
    }
    JoinRows("zxcvbnm", "ZXCVBNM", "ZXCVBNM", "zxcvbnm", ",./", "<>?", ",./", "<>?");
    assert "zxcvbnm" + ",./" == "zxcvbnm,./" && "ZXCVBNM" + "<>?" == "ZXCVBNM<>?";
    assert "ZXCVBNM" + ",./" == "ZXCVBNM,./" && "zxcvbnm" + "<>?" == "zxcvbnm<>?";
  }

  lemma CommonByRule(k: byte, cap: bool, shift: bool)
    ensures ByRule(Common(k), cap, shift) == Common(k)
    ensures ByRule(92, cap, shift) == if shift then 124 else 92
  {
  }

  /** What the four tables give for a modified key is what the rules make of the plain character. */
  lemma ChosenByRule(k: byte, cap: bool, shift: bool)
    ensures Chosen(k, cap, shift) == ByRule(Plain(k), cap, shift)
  {
    DigitsByRule();
    UpperByRule();
    HomeByRule();
    LowerByRule();
    CommonByRule(k, cap, shift);
    hide ByRule, Over, Common;
  }
}
