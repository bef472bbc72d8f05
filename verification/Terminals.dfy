/** Three virtual screens on one video memory: student-distrib/terminal.c and switch_screen in lib.c. */
module Terminals {
  import opened Bytes
  import opened Console
  import opened Layout
  import opened Memory

  const MAX_TERMINALS := 3

  // ----- Regions of video memory: region 0 is the live screen, region t + 1 belongs to terminal t.

  function Region(m: seq<byte>, i: int): (r: seq<byte>)
    requires |m| == MAPPED && 0 <= i <= MAX_TERMINALS
    ensures |r| == DISPLAY
  {
    m[DISPLAY * i..DISPLAY * i + DISPLAY]
  }

  /** Copying one region over another changes that region and no other. */
  lemma RegionCopied(m: seq<byte>, i: int, j: int, k: int)
    requires |m| == MAPPED && 0 <= i <= MAX_TERMINALS && 0 <= j <= MAX_TERMINALS && 0 <= k <= MAX_TERMINALS
    ensures Region(Copied(m, DISPLAY * i, DISPLAY * j, DISPLAY), k) == Region(m, if k == i then j else k)
  {
    hide Copied;
    var r := Copied(m, DISPLAY * i, DISPLAY * j, DISPLAY);
    forall n | 0 <= n < DISPLAY ensures Region(r, k)[n] == Region(m, if k == i then j else k)[n] {
      CopiedAt(m, DISPLAY * i, DISPLAY * j, DISPLAY, DISPLAY * k + n);
    }
  }

  function ScreenIn(region: seq<byte>, x: int, y: int): Screen
    requires |region| == DISPLAY
  {
    Screen(TextOf(region), AttrOf(region), x, y)
  }

  lemma LiveRegion(m: seq<byte>)
    requires |m| == MAPPED
    ensures TextOf(m) == TextOf(Region(m, 0)) && AttrOf(m) == AttrOf(Region(m, 0))
  {
  }

  lemma RegionBehind(m: seq<byte>, k: int)
    requires |m| == MAPPED && 1 <= k <= MAX_TERMINALS
    ensures Region(m, k) == m[DISPLAY..][DISPLAY * (k - 1)..DISPLAY * k]
  {
  }

  // ----- The terminal structures.

  datatype Terminal = Terminal(basePid: int, isActive: bool, cursorX: int, cursorY: int)

  /** Printing, backspace and clear go to the current terminal; a switch selects another one. */
  datatype Action = Print(c: byte) | Backspace | Wipe | Select(number: int)

  predicate Selects(a: Action)
  {
    a.Select? ==> 1 <= a.number <= MAX_TERMINALS
  }

  /** What an action does to the screen it is directed at. */
  function Act(s: Screen, a: Action): (r: Screen)
    requires Ok(s)
    ensures Ok(r)
  {
    match a
    case Print(c) => Put(s, c)
    case Backspace => Deleted(s)
    case Wipe => Cleared()
    case Select(_) => s
  }

  // ----- Runs of actions over the abstract screens.

  datatype Desk = Desk(screens: seq<Screen>, current: int)

  ghost predicate DeskOk(d: Desk)
  {
    && |d.screens| == MAX_TERMINALS && 1 <= d.current <= MAX_TERMINALS
    && forall t | 0 <= t < MAX_TERMINALS :: Ok(d.screens[t])
  }

  ghost function Step(d: Desk, a: Action): (r: Desk)
    requires DeskOk(d) && Selects(a)
    ensures DeskOk(r)
  {
    if a.Select? then d.(current := a.number)
    else d.(screens := d.screens[d.current - 1 := Act(d.screens[d.current - 1], a)])
  }

  ghost function Run(d: Desk, actions: seq<Action>): (r: Desk)
    requires DeskOk(d) && forall a | a in actions :: Selects(a)
    ensures DeskOk(r)
    decreases |actions|
  {
    if actions == [] then d else Run(Step(d, actions[0]), actions[1..])
  }

  /** Those of the actions that are issued while terminal t is displayed. */
  function Directed(actions: seq<Action>, current: int, t: int): seq<Action>
  {
    if actions == [] then []
    else if actions[0].Select? then Directed(actions[1..], actions[0].number, t)
    else (if t == current - 1 then [actions[0]] else []) + Directed(actions[1..], current, t)
  }

  ghost function ActAll(s: Screen, actions: seq<Action>): (r: Screen)
    requires Ok(s)
    ensures Ok(r)
    decreases |actions|
  {
    if actions == [] then s else ActAll(Act(s, actions[0]), actions[1..])
  }

  /** Whatever the interleaving, each terminal ends as if its own actions had run on a private screen. */
  lemma {:induction false} Isolation(d: Desk, actions: seq<Action>, t: int)
    requires DeskOk(d) && (forall a | a in actions :: Selects(a)) && 0 <= t < MAX_TERMINALS
    ensures Run(d, actions).screens[t] == ActAll(d.screens[t], Directed(actions, d.current, t))
    decreases |actions|
  {
    if actions != [] {
      var a, rest := actions[0], actions[1..];
      Isolation(Step(d, a), rest, t);
      var mine := Directed(rest, d.current, t);
      if !a.Select? && t == d.current - 1 {
        assert ([a] + mine)[1..] == mine;
      } else if !a.Select? {
        assert [] + mine == mine;
      }
    }
  }

  function Prints(bytes: seq<byte>): seq<Action>
  {
    seq(|bytes|, i requires 0 <= i < |bytes| => Print(bytes[i]))
  }

  lemma {:induction false} PrintsPut(s: Screen, bytes: seq<byte>)
    requires Ok(s)
    ensures ActAll(s, Prints(bytes)) == PutAll(s, bytes)
    decreases |bytes|
  {
    if bytes != [] {
      var b, c := bytes[..|bytes| - 1], bytes[|bytes| - 1];
      PrintsPut(s, b);
      assert Prints(bytes) == Prints(b) + [Print(c)];
      ActAllSnoc(s, Prints(b), Print(c));
    }
  }

  lemma ActAllSnoc(s: Screen, actions: seq<Action>, a: Action)
    requires Ok(s)
    ensures ActAll(s, actions + [a]) == Act(ActAll(s, actions), a)
    decreases |actions|
  {
    if actions != [] {
      assert (actions + [a])[1..] == actions[1..] + [a];
      ActAllSnoc(Act(s, actions[0]), actions[1..], a);
    }
  }

  /** A terminal that was cleared and then printed on shows the layout of its own bytes, whatever the
      other terminals did in between. */
  lemma TerminalShowsOwnOutput(d: Desk, actions: seq<Action>, t: int, bytes: seq<byte>)
    requires DeskOk(d) && (forall a | a in actions :: Selects(a)) && 0 <= t < MAX_TERMINALS
    requires Directed(actions, d.current, t) == [Wipe] + Prints(bytes)
    ensures Shows(Run(d, actions).screens[t], Rows(bytes))
  {
    hide Shows, Rows, Put, PutAll, Cleared, Run;
    Isolation(d, actions, t);
    assert ([Wipe] + Prints(bytes))[1..] == Prints(bytes);
    PrintsPut(Cleared(), bytes);
    ConsoleShowsLayout(bytes);
  }

  /** Backspace on the displayed terminal takes the last character off its last row, and touches no other. */
  lemma BackspaceOnDesk(d: Desk, rows: seq<seq<byte>>)
    requires DeskOk(d) && rows != [] && Shows(d.screens[d.current - 1], rows)
    ensures var r, n := Step(d, Backspace), |rows| - 1;
            && r.current == d.current
            && (forall t | 0 <= t < MAX_TERMINALS && t != d.current - 1 :: r.screens[t] == d.screens[t])
            && (rows[n] != [] ==> Shows(r.screens[d.current - 1], rows[..n] + [rows[n][..|rows[n]| - 1]]))
            && (rows == [[]] ==> r == d)
  {
    if rows[|rows| - 1] != [] {
      BackspaceShows(d.screens[d.current - 1], rows);
    }
  }

  /** It undoes the printing of a character, unless that has scrolled the screen. */
  lemma BackspaceUndoes(d: Desk, rows: seq<seq<byte>>, c: byte)
    requires DeskOk(d) && rows != [] && Shows(d.screens[d.current - 1], rows) && c != 10 && c != 13
    requires !(d.screens[d.current - 1].x == 79 && d.screens[d.current - 1].y == 24)
    ensures Step(Step(d, Print(c)), Backspace) == d
  {
    hide Put, Deleted, Shows;
    BackspaceUndoesPut(d.screens[d.current - 1], rows, c);
    var t := d.current - 1;
    var once := Step(d, Print(c));
    assert Step(once, Backspace).screens == d.screens[t := Put(d.screens[t], c)][t := d.screens[t]];
  }

  class TerminalSet {
    const console: Console
    const terminals: array<Terminal>
    /** Number of the displayed terminal, counted from 1. */
    var current: int

    ghost predicate Valid()
      reads this, console, terminals
    {
      && console.Valid()
      && terminals.Length == MAX_TERMINALS
      && 1 <= current <= MAX_TERMINALS
      && forall t | 0 <= t < MAX_TERMINALS ::
           terminals[t].basePid == t && 0 <= terminals[t].cursorX < COLS && 0 <= terminals[t].cursorY < ROWS
    }

    /** The screen of terminal t: the live one if t is displayed, its saved copy otherwise. */
    ghost function Virtual(t: int): (s: Screen)
      requires Valid() && 0 <= t < MAX_TERMINALS
      reads this, console, console.mem, terminals
      ensures Ok(s)
    {
      if t == current - 1 then console.View()
      else ScreenIn(Region(console.mem[..], t + 1), terminals[t].cursorX, terminals[t].cursorY)
    }

    ghost function Screens(): (r: seq<Screen>)
      requires Valid()
      reads this, console, console.mem, terminals
      ensures |r| == MAX_TERMINALS && forall t | 0 <= t < MAX_TERMINALS :: r[t] == Virtual(t)
    {
      [Virtual(0), Virtual(1), Virtual(2)]
    }

    /** terminals_init: all cursors at the origin, none displayed before; the kernel starts on terminal 1. */
    constructor (console: Console)
      requires console.Valid()
      ensures Valid() && this.console == console && current == 1 && fresh(terminals)
      ensures forall t | 0 <= t < MAX_TERMINALS :: terminals[t] == Terminal(t, false, 0, 0)
    {
      this.console := console;
      var ts := new Terminal[MAX_TERMINALS](i => Terminal(i, false, 0, 0));
      terminals := ts;
      current := 1;
    }

    /** switch_screen, student-distrib/lib.c:272-287. */
    method SwitchScreen(o: int, n: int)
      requires Valid() && 0 <= o < MAX_TERMINALS && 0 <= n < MAX_TERMINALS && o != n
      modifies console, console.mem, terminals
      ensures Valid()
      ensures console.screenX == old(terminals[n].cursorX) && console.screenY == old(terminals[n].cursorY)
      ensures terminals[o] == old(terminals[o]).(cursorX := old(console.screenX), cursorY := old(console.screenY))
      ensures forall t | 0 <= t < MAX_TERMINALS && t != o :: terminals[t] == old(terminals[t])
      ensures Region(console.mem[..], 0) == old(Region(console.mem[..], n + 1))
      ensures Region(console.mem[..], o + 1) == old(Region(console.mem[..], 0))
      ensures forall k | 1 <= k <= MAX_TERMINALS
          && k != o + 1 :: Region(console.mem[..], k) == old(Region(console.mem[..], k))
    {
      hide Copied, Region;
      ghost var m0 := console.mem[..];
      terminals[o] := terminals[o].(cursorX := console.screenX, cursorY := console.screenY);
      console.screenX := terminals[n].cursorX;
      console.screenY := terminals[n].cursorY;
      Memcpy(console.mem, (terminals[o].basePid + 1) * DISPLAY, 0, DISPLAY);
      ghost var m1 := console.mem[..];
      Memcpy(console.mem, 0, (terminals[n].basePid + 1) * DISPLAY, DISPLAY);
      forall k | 0 <= k <= MAX_TERMINALS
        ensures Region(console.mem[..], k) == Region(m0, if k == 0 then n + 1 else if k == o + 1 then 0 else k)
      {
        RegionCopied(m0, o + 1, 0, k);
        RegionCopied(m0, o + 1, 0, n + 1);
        RegionCopied(m1, 0, n + 1, k);
      }
    }

    /** display_switch, student-distrib/terminal.c:160-175: no screen and no cursor is lost. */
    method DisplaySwitch(newDisplay: int)
      requires Valid() && 1 <= newDisplay <= MAX_TERMINALS
      modifies this, console, console.mem, terminals
      ensures Valid() && current == newDisplay
      ensures Screens() == old(Screens())
      ensures old(current) != newDisplay ==>
          terminals[newDisplay - 1].isActive && !terminals[old(current) - 1].isActive
    {
      if current == newDisplay { return; }
      ghost var was := Screens();
      ghost var m0 := console.mem[..];
      var o, n := current - 1, newDisplay - 1;
      terminals[o] := terminals[o].(isActive := false);
      current := newDisplay;
      terminals[n] := terminals[n].(isActive := true);
      SwitchScreen(o, n);
      LiveRegion(m0);
      LiveRegion(console.mem[..]);
      hide TextOf, AttrOf, Region;
      forall t | 0 <= t < MAX_TERMINALS ensures Virtual(t) == was[t] {
      }
    }

    /** The screens of the terminals that are not displayed live in the memory behind the live screen. */
    lemma OthersKept(was: seq<Screen>, m: seq<byte>)
      requires Valid()
      requires |was| == MAX_TERMINALS && |m| == MAPPED && m[DISPLAY..] == console.mem[DISPLAY..]
      requires forall t | 0 <= t < MAX_TERMINALS && t != current - 1 ::
                 was[t] == ScreenIn(Region(m, t + 1), terminals[t].cursorX, terminals[t].cursorY)
      ensures Screens() == was[current - 1 := console.View()]
    {
      hide TextOf, AttrOf;
      forall t | 0 <= t < MAX_TERMINALS && t != current - 1
        ensures Virtual(t) == was[t]
      {
        RegionBehind(m, t + 1);
        RegionBehind(console.mem[..], t + 1);
      }
    }

    ghost function Desktop(): (d: Desk)
      requires Valid()
      reads this, console, console.mem, terminals
      ensures DeskOk(d)
    {
      Desk(Screens(), current)
    }

    /** Any of the actions, as the keyboard handler and the write call issue them. */
    method Perform(a: Action)
      requires Valid() && Selects(a)
      modifies this, console, console.mem, terminals
      ensures Valid() && Desktop() == Step(old(Desktop()), a)
    {
      hide Put, Deleted, Cleared, TextOf, AttrOf;
      ghost var was, m := Screens(), console.mem[..];
      match a
      case Print(c) =>
        console.Putc(c);
        OthersKept(was, m);
      case Backspace =>
        console.Delete();
        OthersKept(was, m);
      case Wipe =>
        console.Clear();
        OthersKept(was, m);
      case Select(number) =>
        DisplaySwitch(number);
    }
  }
}
