/** What a program started by the kernel is called and given: parse_command and getargs of
    student-distrib/syscall.c. */
module Commands {
  import opened Bytes
  import A = Arguments

  const NAME_MAX := 32
  const ARGUMENT_MAX := 95

  predicate EndsLine(c: byte)
  {
    c == NUL || c == NEWLINE
  }

  /** First position from i on that holds a space or ends the line. */
  function WordStop(s: seq<byte>, i: nat): (e: nat)
    requires i <= |s|
    ensures i <= e <= |s| && (forall j | i <= j < e :: s[j] != SPACE && !EndsLine(s[j]))
    ensures e < |s| ==> s[e] == SPACE || EndsLine(s[e])
    decreases |s| - i
  {
    if i == |s| || s[i] == SPACE || EndsLine(s[i]) then i else WordStop(s, i + 1)
  }

  /** First position from i on that does not hold a space. */
  function SpacesStop(s: seq<byte>, i: nat): (e: nat)
    requires i <= |s|
    ensures i <= e <= |s| && (forall j | i <= j < e :: s[j] == SPACE) && (e < |s| ==> s[e] != SPACE)
    decreases |s| - i
  {
    if i == |s| || s[i] != SPACE then i else SpacesStop(s, i + 1)
  }

  /** The name of the program: the first word of the line. */
  function Name(command: seq<byte>): seq<byte>
  {
    command[..WordStop(command, 0)]
  }

  /** The argument handed on: the second word of the line and no more. */
  function Argument(command: seq<byte>): seq<byte>
  {
    var from := SpacesStop(command, WordStop(command, 0));
    command[from..WordStop(command, from)]
  }

  function Padded(s: seq<byte>, n: nat): (r: seq<byte>)
    requires |s| <= n
    ensures |r| == n
  {
    s + Repeat(NUL, n - |s|)
  }

  /** One of the two scanning loops, student-distrib/syscall.c:375-388 and 395-405: skip spaces, then copy up to
      the next space or the end of the line. */
  method CopyWord(command: seq<byte>, start: nat, out: array<byte>) returns (comLoc: nat, outLoc: nat)
    requires start <= |command|
    requires WordStop(command, SpacesStop(command, start)) - SpacesStop(command, start) <= out.Length
    modifies out
    ensures comLoc == WordStop(command, SpacesStop(command, start)) && outLoc == comLoc - SpacesStop(command, start)
    ensures out[..outLoc] == command[SpacesStop(command, start)..comLoc]
    ensures forall j | outLoc <= j < out.Length :: out[j] == old(out[j])
  {
    hide WordStop, SpacesStop;
    ghost var from := SpacesStop(command, start);
    ghost var stop := WordStop(command, from);
    comLoc, outLoc := start, 0;
    var seen := false;
    while !EndsLine(StringByte(command, comLoc))
      invariant start <= comLoc <= stop && (if seen then from < comLoc else comLoc <= from)
      invariant outLoc == (if seen then comLoc - from else 0)
      invariant seen ==> out[..outLoc] == command[from..comLoc]
      invariant forall j | outLoc <= j < out.Length :: out[j] == old(out[j])
      decreases stop - comLoc, |command| - comLoc
    {
      if command[comLoc] == SPACE && seen {
        break;
      } else if command[comLoc] != SPACE {
        seen := true;
        out[outLoc] := command[comLoc];
        outLoc := outLoc + 1;
      }
      comLoc := comLoc + 1;
    }
  }

  /** The scanning part of parse_command for commands it can hold: no leading space, a name shorter than its
      buffer and an argument shorter than the space in the PCB. */
  method ParseWords(command: seq<byte>, execBuf: array<byte>, argumentBuf: array<byte>)
    requires NulFree(command) && (command != [] ==> command[0] != SPACE)
    requires |Name(command)| < NAME_MAX && |Argument(command)| < ARGUMENT_MAX
    requires execBuf != argumentBuf && execBuf.Length == NAME_MAX && argumentBuf.Length == ARGUMENT_MAX
    modifies execBuf, argumentBuf
    ensures execBuf[..] == Padded(Name(command), NAME_MAX)
    ensures argumentBuf[..] == Padded(Argument(command), ARGUMENT_MAX)
  {
    for i := 0 to ARGUMENT_MAX
      invariant forall j | 0 <= j < i :: argumentBuf[j] == NUL
    {
      argumentBuf[i] := NUL;
    }
    var comLoc, execLoc := CopyWord(command, 0, execBuf);
    execBuf[comLoc] := NUL;
    var _, argLoc := CopyWord(command, comLoc, argumentBuf);
    for i := execLoc + 1 to NAME_MAX
      invariant execBuf[..execLoc] == Name(command)
      invariant forall j | execLoc <= j < i :: execBuf[j] == NUL
      invariant argumentBuf[..argLoc] == Argument(command)
          && forall j | argLoc <= j < ARGUMENT_MAX :: argumentBuf[j] == NUL
    {
      execBuf[i] := NUL;
    }
    assert argumentBuf[..] == argumentBuf[..argLoc] + argumentBuf[argLoc..];
    assert execBuf[..] == execBuf[..execLoc] + execBuf[execLoc..];
  }

  /** getargs: succeeds exactly when there is an argument and it fits with its terminator. */
  method GetArgs(argumentBuf: array<byte>, buf: array<byte>, nbytes: nat,
      ghost argument: seq<byte>) returns (ret: int)
    requires |argument| < ARGUMENT_MAX && NulFree(argument)
    requires argumentBuf[..] == Padded(argument, ARGUMENT_MAX)
    requires buf != argumentBuf && nbytes <= buf.Length
    modifies buf
    ensures ret == if argument != [] && |argument| + 1 <= nbytes then 0 else -1
    ensures ret == 0 ==> buf[..nbytes] == Padded(argument, nbytes)
  {
    for i := 0 to nbytes
      invariant forall j | 0 <= j < i :: buf[j] == NUL
    {
      buf[i] := NUL;
    }
    for i := 0 to nbytes
      invariant i <= |argument| && (i > 0 ==> argument != [])
      invariant argumentBuf[..] == Padded(argument, ARGUMENT_MAX)
      invariant buf[..i] == argument[..i] && forall j | i <= j < nbytes :: buf[j] == NUL
    {
      if i == 0 && argumentBuf[i] == NUL { return -1; }
      buf[i] := argumentBuf[i];
      if argumentBuf[i] == NUL {
        buf[i] := NUL;
        assert buf[..nbytes] == buf[..i] + buf[i..nbytes];
        return 0;
      }
    }
    return -1;
  }

  /** A program that takes what getargs leaves in its buffer as a C string has the argument back. */
  lemma PaddedReadsBack(s: seq<byte>, n: nat)
    requires NulFree(s) && |s| < n
    ensures Padded(s, n)[..StringEnd(Padded(s, n), 0)] == s
    ensures forall i | |s| <= i < n :: Padded(s, n)[i] == 0
  {
    var p := Padded(s, n);
    assert forall i | 0 <= i < |s| :: p[i] == s[i] != NUL;
    assert p[|s|] == NUL;
  }

  ghost predicate Word(w: seq<byte>)
  {
    w != [] && forall i | 0 <= i < |w| :: w[i] != SPACE && !EndsLine(w[i])
  }

  lemma WordStopIs(s: seq<byte>, i: nat, e: nat)
    requires i <= e <= |s| && (forall j | i <= j < e :: s[j] != SPACE && !EndsLine(s[j]))
    requires e < |s| ==> s[e] == SPACE || EndsLine(s[e])
    ensures WordStop(s, i) == e
  {
  }

  lemma SpacesStopIs(s: seq<byte>, i: nat, e: nat)
    requires i <= e <= |s| && (forall j | i <= j < e :: s[j] == SPACE) && (e < |s| ==> s[e] != SPACE)
    ensures SpacesStop(s, i) == e
  {
  }

  /** A name, spaces, an argument and whatever follows it after a space or a newline: the program gets the name and
      that one argument; everything behind it is lost. */
  lemma OneArgumentOnly(name: seq<byte>, gap: nat, argument: seq<byte>, rest: seq<byte>)
    requires Word(name) && gap > 0 && Word(argument) && (rest != [] ==> rest[0] == SPACE || rest[0] == NEWLINE)
    ensures var s := name + Repeat(SPACE, gap) + argument + rest; Name(s) == name && Argument(s) == argument
  {
    var s := name + Repeat(SPACE, gap) + argument + rest;
    var a, b, c := |name|, |name| + gap, |name| + gap + |argument|;
    forall j | 0 <= j < |s|
      ensures s[j] == if j < a then name[j] else if j < b then SPACE else if j < c
          then argument[j - b] else rest[j - c]
    {
    }
    WordStopIs(s, 0, a);
    SpacesStopIs(s, a, b);
    WordStopIs(s, b, c);
    assert s[b..c] == argument && s[..a] == name;
  }

  ghost predicate Words(ws: seq<seq<byte>>)
  {
    forall k | 0 <= k < |ws| :: Word(ws[k])
  }

  lemma WordsAreArguments(ws: seq<seq<byte>>)
    requires Words(ws)
    ensures A.Words(ws)
  {
  }

  /** A name followed only by spaces and possibly a newline has no argument. */
  lemma NoArgument(name: seq<byte>, n: nat, newline: bool)
    requires Word(name)
    ensures Argument(name + A.Ending(n, newline)) == []
  {
    var s := name + A.Ending(n, newline);
    var a, b := |name|, |name| + n;
    forall j | 0 <= j < |s| ensures s[j] == if j < a then name[j] else if j < b then SPACE else NEWLINE {
    }
    WordStopIs(s, 0, a);
    SpacesStopIs(s, a, b);
    WordStopIs(s, b, b);
  }

  /** Of the words behind the name the program gets the first. */
  lemma ArgumentOfSpread(first: seq<byte>, ws: seq<seq<byte>>, gaps: seq<nat>, n: nat, newline: bool)
    requires Word(first) && Words(ws) && |gaps| == |ws| && forall k | 0 <= k < |gaps| :: gaps[k] >= 1
    ensures Argument(first + A.Spread(ws, gaps) + A.Ending(n, newline)) == if ws == [] then [] else ws[0]
  {
    hide Argument, Word;
    var ending := A.Ending(n, newline);
    if ws == [] {
      assert first + A.Spread(ws, gaps) + ending == first + ending;
      NoArgument(first, n, newline);
    } else {
      var rest := A.Spread(ws[1..], gaps[1..]) + ending;
      assert first + A.Spread(ws, gaps) + ending == first + Repeat(SPACE, gaps[0]) + ws[0] + rest by {
        A.SpreadUnfold(ws, gaps, ending);
        hide A.Spread;
        assert first + A.Spread(ws, gaps) + ending == first + (A.Spread(ws, gaps) + ending);
      }
      A.RestSeparates(ws[1..], gaps[1..], n, newline);
      OneArgumentOnly(first, gaps[0], ws[0], rest);
    }
  }

  lemma JoinedIsLonger(ws: seq<seq<byte>>)
    requires ws != []
    ensures A.Join(ws) == ws[0] <==> |ws| == 1
  {
  }

  /** The kernel hands on what the emulation joins exactly when there is at most one argument. */
  lemma WholeArgumentExactly(first: seq<byte>, ws: seq<seq<byte>>, gaps: seq<nat>, n: nat, newline: bool)
    requires Word(first) && Words(ws) && |gaps| == |ws| && forall k | 0 <= k < |gaps| :: gaps[k] >= 1
    ensures Argument(first + A.Spread(ws, gaps) + A.Ending(n, newline)) == A.Join(ws) <==> |ws| <= 1
    ensures A.Argv(first + A.Spread(ws, gaps) + A.Ending(n, newline)) == [A.PREFIX + first] + ws
  {
    ArgumentOfSpread(first, ws, gaps, n, newline);
    WordsAreArguments(ws);
    A.ArgvOfSpread(first, ws, gaps, n, newline);
    if ws != [] {
      JoinedIsLonger(ws);
    } else {
      A.JoinNone();
    }
  }
}
