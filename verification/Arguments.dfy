/** Splitting a command into arguments and joining them again: syscalls/ece391emulate.c. */
module Arguments {
  import opened Bytes

  const MAX_COMMAND := 1023
  const MAX_ARGS := 1024
  const PREFIX: seq<byte> := Ascii("./")

  // ----- What the scan finds.

  predicate Separates(c: byte)
  {
    c == SPACE || c == NEWLINE
  }

  function WordEnd(s: seq<byte>, i: nat): (e: nat)
    requires i <= |s|
    ensures i <= e <= |s|
    ensures forall j | i <= j < e :: !Separates(s[j])
    ensures e < |s| ==> Separates(s[e])
    decreases |s| - i
  {
    if i == |s| || Separates(s[i]) then i else WordEnd(s, i + 1)
  }

  function SkipSpaces(s: seq<byte>, i: nat): (j: nat)
    requires i <= |s|
    ensures i <= j <= |s|
    ensures forall k | i <= k < j :: s[k] == SPACE
    ensures j < |s| ==> s[j] != SPACE
    decreases |s| - i
  {
    if i == |s| || s[i] != SPACE then i else SkipSpaces(s, i + 1)
  }

  /** The arguments from position i on.  A newline right after an argument only ends that argument; one after
      spaces ends the command. */
  function ArgsFrom(s: seq<byte>, i: nat): seq<seq<byte>>
    requires i <= |s|
    decreases |s| - i
  {
    var j := SkipSpaces(s, i);
    if j == |s| || s[j] == NEWLINE then []
    else
      var e := WordEnd(s, j);
      [s[j..e]] + if e < |s| then ArgsFrom(s, e + 1) else []
  }

  function FirstWord(s: seq<byte>): seq<byte>
  {
    s[..WordEnd(s, 0)]
  }

  /** The arguments of a command, after its first word. */
  function Args(s: seq<byte>): seq<seq<byte>>
  {
    if WordEnd(s, 0) < |s| then ArgsFrom(s, WordEnd(s, 0) + 1) else []
  }

  /** argv: the first word is made a path in the current directory. */
  function Argv(s: seq<byte>): seq<seq<byte>>
  {
    [PREFIX + FirstWord(s)] + Args(s)
  }

  // ----- The scan in place.

  /** The string at a position of the buffer. */
  function StringIn(buf: seq<byte>, at: nat): seq<byte>
    requires at <= |buf|
  {
    buf[at..StringEnd(buf, at)]
  }

  /** The arguments point at these strings, none of which reaches beyond position done. */
  ghost predicate PointAt(buf: seq<byte>, args: seq<int>, words: seq<seq<byte>>, done: nat)
  {
    && |args| == |words| && done < |buf|
    && forall k | 0 <= k < |args| ::
         && 0 <= args[k] && args[k] + |words[k]| <= done
         && buf[args[k]..args[k] + |words[k]|] == words[k] && NulFree(words[k])
         && buf[args[k] + |words[k]|] == NUL
  }

  /** Terminating the next word behind all the others. */
  lemma PointAtNext(buf: seq<byte>, args: seq<int>, words: seq<seq<byte>>, done: nat, at: nat, word: seq<byte>)
    requires PointAt(buf, args, words, done) && done <= at && at + |word| < |buf|
    requires buf[at..at + |word|] == word && NulFree(word)
    ensures PointAt(buf[at + |word| := NUL], args + [at], words + [word], at + |word|)
  {
  }

  lemma PointAtEnd(buf: seq<byte>, args: seq<int>, words: seq<seq<byte>>, done: nat, q: nat)
    requires PointAt(buf, args, words, done) && done <= q < |buf|
    ensures PointAt(buf[q := NUL], args, words, q)
  {
  }

  /** The scan has reached position p of the command: the rest of the buffer is still as copied. */
  ghost predicate Untouched(buf: seq<byte>, s: seq<byte>, p: nat)
  {
    p <= |s| && |buf| >= |s| + 3 && buf[p + 2..|s| + 2] == s[p..] && buf[|s| + 2] == NUL
  }

  lemma UntouchedAt(buf: seq<byte>, s: seq<byte>, p: nat, q: nat)
    requires Untouched(buf, s, p) && p <= q <= |s|
    ensures buf[q + 2] == if q < |s| then s[q] else NUL
    ensures Untouched(buf, s, q)
  {
  }

  /** Move scan over one word. */
  method ScanWord(buf: array<byte>, scan: nat, ghost s: seq<byte>) returns (end: nat)
    requires NulFree(s) && scan >= 2 && Untouched(buf[..], s, scan - 2)
    ensures end == WordEnd(s, scan - 2) + 2
  {
    end := scan;
    UntouchedAt(buf[..], s, scan - 2, end - 2);
    while buf[end] != NUL && buf[end] != SPACE && buf[end] != NEWLINE
      invariant scan <= end <= |s| + 2 && buf[end] == (if end - 2 < |s| then s[end - 2] else NUL)
      invariant forall j | scan - 2 <= j < end - 2 :: !Separates(s[j])
      decreases |s| + 2 - end
    {
      end := end + 1;
      UntouchedAt(buf[..], s, scan - 2, end - 2);
    }
    WordEndIs(s, scan - 2, end - 2);
  }

  lemma WordEndIs(s: seq<byte>, i: nat, e: nat)
    requires i <= e <= |s| && (forall j | i <= j < e :: !Separates(s[j])) && (e < |s| ==> Separates(s[e]))
    ensures WordEnd(s, i) == e
  {
  }

  /** Move scan over spaces. */
  method ScanSpaces(buf: array<byte>, scan: nat, ghost s: seq<byte>) returns (end: nat)
    requires NulFree(s) && scan >= 2 && Untouched(buf[..], s, scan - 2)
    ensures end == SkipSpaces(s, scan - 2) + 2
  {
    end := scan;
    UntouchedAt(buf[..], s, scan - 2, end - 2);
    while buf[end] == SPACE
      invariant scan <= end <= |s| + 2 && buf[end] == (if end - 2 < |s| then s[end - 2] else NUL)
      invariant forall j | scan - 2 <= j < end - 2 :: s[j] == SPACE
      decreases |s| + 2 - end
    {
      end := end + 1;
      UntouchedAt(buf[..], s, scan - 2, end - 2);
    }
    SkipSpacesIs(s, scan - 2, end - 2);
  }

  lemma SkipSpacesIs(s: seq<byte>, i: nat, j: nat)
    requires i <= j <= |s| && (forall k | i <= k < j :: s[k] == SPACE) && (j < |s| ==> s[j] != SPACE)
    ensures SkipSpaces(s, i) == j
  {
  }

  lemma UntouchedWord(buf: seq<byte>, s: seq<byte>, p: nat, e: nat)
    requires Untouched(buf, s, p) && p <= e <= |s| && NulFree(s)
    ensures buf[p + 2..e + 2] == s[p..e] && NulFree(s[p..e])
  {
    forall k | 0 <= k < e - p ensures buf[p + 2..e + 2][k] == s[p..e][k] {
      UntouchedAt(buf, s, p, p + k);
    }
  }

  method CopyCommand(command: seq<byte>, buf: array<byte>)
    requires buf.Length == MAX_COMMAND + 3 && |command| <= MAX_COMMAND
    modifies buf
    ensures buf[0..2] == PREFIX && Untouched(buf[..], command, 0)
  {
    buf[0] := 46;
    buf[1] := 47;
    for i := 0 to |command|
      invariant buf[0] == 46 && buf[1] == 47 && buf[2..i + 2] == command[..i]
    {
      buf[i + 2] := command[i];
      assert buf[2..i + 3] == buf[2..i + 2] + [command[i]];
    }
    buf[|command| + 2] := NUL;
    assert buf[2..|command| + 2] == command[0..];
  }

  /** What holds between two rounds of the argument loop: the scan is at position p, the arguments so far and
      the rest of the command make up argv, and there is room in the argument array. */
  ghost predicate Scanning(buf: seq<byte>, args: seq<int>, words: seq<seq<byte>>, s: seq<byte>, p: nat)
  {
    && |args| >= 1 && Untouched(buf, s, p) && PointAt(buf, args, words, p + 2)
    && words + ArgsFrom(s, p) == Argv(s)
    && (2 * (|args| - 1) <= p || (p == |s| && 2 * (|args| - 1) <= p + 1))
  }

  lemma ArgsUnfold(s: seq<byte>, p: nat)
    requires p <= |s|
    ensures var j := SkipSpaces(s, p);
            if j == |s| || s[j] == NEWLINE then ArgsFrom(s, p) == []
            else var e := WordEnd(s, j);
                 e > j && ArgsFrom(s, p) == [s[j..e]] + ArgsFrom(s, if e < |s| then e + 1 else e)
    ensures ArgsFrom(s, |s|) == []
  {
  }

  /** One round of the argument loop: the word from j to e is terminated and recorded. */
  lemma ScanRound(buf: seq<byte>, args: seq<int>, words: seq<seq<byte>>, s: seq<byte>, p: nat)
    requires NulFree(s) && Scanning(buf, args, words, s, p)
    ensures p <= |s|
    ensures var j := SkipSpaces(s, p);
            if j == |s| || s[j] == NEWLINE then words == Argv(s)
            else
              var e := WordEnd(s, j);
              && e > j && e + 2 < |buf|
              && Scanning(buf[e + 2 := NUL], args + [j + 2], words + [s[j..e]], s, if e < |s| then e + 1 else e)
  {
    hide PointAt, WordEnd, SkipSpaces, ArgsFrom, Argv;
    ArgsUnfold(s, p);
    var j := SkipSpaces(s, p);
    if j == |s| || s[j] == NEWLINE {
      assert words + [] == words;
    } else {
      var e := WordEnd(s, j);
      var next := if e < |s| then e + 1 else e;
      UntouchedAt(buf, s, p, j);
      UntouchedWord(buf, s, j, e);
      PointAtNext(buf, args, words, p + 2, j + 2, s[j..e]);
      PointAtLater(buf[e + 2 := NUL], args + [j + 2], words + [s[j..e]], e + 2, next + 2);
      TerminatedUntouched(buf, s, j, e);
      hide Untouched;
      assert words + ([s[j..e]] + ArgsFrom(s, next)) == (words + [s[j..e]]) + ArgsFrom(s, next);
    }
  }

  lemma TerminatedUntouched(buf: seq<byte>, s: seq<byte>, p: nat, e: nat)
    requires Untouched(buf, s, p) && p <= e <= |s|
    ensures e + 2 < |buf| && Untouched(buf[e + 2 := NUL], s, if e < |s| then e + 1 else e)
  {
  }

  lemma PointAtLater(buf: seq<byte>, args: seq<int>, words: seq<seq<byte>>, done: nat, later: nat)
    requires PointAt(buf, args, words, done) && done <= later < |buf|
    ensures PointAt(buf, args, words, later)
  {
  }

  lemma ScanStarts(buf: seq<byte>, s: seq<byte>)
    requires NulFree(s) && |buf| >= |s| + 3 && buf[0..2] == PREFIX && Untouched(buf, s, 0)
    ensures var e := WordEnd(s, 0);
            if e == |s| then PointAt(buf, [0], Argv(s), |s| + 2)
            else Scanning(buf[e + 2 := NUL], [0], [PREFIX + FirstWord(s)], s, e + 1)
  {
    hide Untouched, PointAt, Argv, Scanning, FirstWord, WordEnd;
    var e := WordEnd(s, 0);
    var word := PREFIX + FirstWord(s);
    FirstWordIs(s);
    FirstWordCopied(buf, s, e);
    FirstPointAt(buf, word);
    if e < |s| {
      TerminatedUntouched(buf, s, 0, e);
      PointAtLater(buf[e + 2 := NUL], [0], [word], e + 2, e + 3);
      FirstScanning(buf[e + 2 := NUL], s, e);
    } else {
      CommandEnd(buf, s);
      assert buf[e + 2 := NUL] == buf;
    }
  }

  lemma FirstWordIs(s: seq<byte>)
    ensures FirstWord(s) == s[..WordEnd(s, 0)]
    ensures WordEnd(s, 0) == |s| ==> Argv(s) == [PREFIX + FirstWord(s)]
  {
  }

  lemma FirstScanning(buf: seq<byte>, s: seq<byte>, e: nat)
    requires e == WordEnd(s, 0) < |s| && Untouched(buf, s, e + 1) && PointAt(buf, [0], [PREFIX + FirstWord(s)], e + 3)
    ensures Scanning(buf, [0], [PREFIX + FirstWord(s)], s, e + 1)
  {
  }

  lemma FirstWordCopied(buf: seq<byte>, s: seq<byte>, e: nat)
    requires NulFree(s) && |buf| >= |s| + 3 && buf[0..2] == PREFIX && Untouched(buf, s, 0) && e <= |s|
    ensures buf[0..e + 2] == PREFIX + s[..e] && NulFree(PREFIX + s[..e])
  {
  }

  lemma CommandEnd(buf: seq<byte>, s: seq<byte>)
    requires Untouched(buf, s, 0)
    ensures buf[|s| + 2] == NUL
  {
  }

  lemma FirstPointAt(buf: seq<byte>, word: seq<byte>)
    requires |word| < |buf| && buf[0..|word|] == word && NulFree(word)
    ensures PointAt(buf[|word| := NUL], [0], [word], |word|)
  {
  }

  const NULL := -1

  lemma ScanningShape(buf: seq<byte>, args: seq<int>, words: seq<seq<byte>>, s: seq<byte>, p: nat)
    requires Scanning(buf, args, words, s, p)
    ensures p <= |s| && Untouched(buf, s, p) && PointAt(buf, args, words, p + 2)
    ensures |s| <= MAX_COMMAND ==> |args| < MAX_ARGS - 1
  {
  }

  method PutNul(buf: array<byte>, at: nat)
    requires at < buf.Length
    modifies buf
    ensures buf[..] == old(buf[..])[at := NUL]
  {
    buf[at] := NUL;
  }

  /** args[n_arg++] = scan */
  method Record(args: array<int>, n: nat, scan: int) returns (next: nat)
    requires n < args.Length
    modifies args
    ensures next == n + 1 && args[..next] == old(args[..n]) + [scan]
  {
    args[n] := scan;
    return n + 1;
  }

  /** Terminate the word that has just been scanned, unless the command ends there, syscalls/ece391emulate.c:96-97. */
  method EndWord(ghost s: seq<byte>, buf: array<byte>, end: nat) returns (scan: nat)
    requires buf.Length > |s| + 2 && 2 <= end <= |s| + 2
    requires (buf[end] == NUL <==> end == |s| + 2)
    modifies buf
    ensures scan == (if end < |s| + 2 then end + 1 else end) && buf[..] == old(buf[..])[end := NUL]
  {
    scan := end;
    if buf[scan] != NUL {
      PutNul(buf, scan);
      scan := scan + 1;
    } else {
      assert buf[..][end := NUL] == buf[..];
    }
  }

  /** The end of the command, syscalls/ece391emulate.c:89-92. */
  method EndCommand(ghost s: seq<byte>, buf: array<byte>, args: array<int>, nArg: nat, scan: nat, ghost start: nat)
    requires NulFree(s) && 2 <= start && nArg <= args.Length
    requires Scanning(buf[..], args[..nArg], Argv(s), s, start - 2)
    requires start <= scan <= |s| + 2 < buf.Length
    modifies buf
    ensures PointAt(buf[..], args[..nArg], Argv(s), |s| + 2)
  {
    hide PointAt, Argv, Untouched, Scanning, NulFree;
    ScanningShape(buf[..], args[..nArg], Argv(s), s, start - 2);
    PointAtEnd(buf[..], args[..nArg], Argv(s), start, scan);
    PutNul(buf, scan);
    PointAtLater(buf[..], args[..nArg], Argv(s), scan, |s| + 2);
  }

  /** One more argument, syscalls/ece391emulate.c:94-97. */
  method ScanArgument(ghost s: seq<byte>, buf: array<byte>, args: array<int>, nArg: nat, scan: nat,
                      ghost start: nat, ghost words: seq<seq<byte>>)
    returns (count: nat, next: nat)
    requires NulFree(s) && 2 <= start && nArg < args.Length
    requires Scanning(buf[..], args[..nArg], words, s, start - 2)
    requires start - 2 <= |s| && scan == SkipSpaces(s, start - 2) + 2 && scan - 2 < |s| && s[scan - 2] != NEWLINE
    modifies buf, args
    ensures count == nArg + 1 && start < next <= |s| + 2
    ensures Scanning(buf[..], args[..count], words + [s[scan - 2..WordEnd(s, scan - 2)]], s, next - 2)
  {
    hide PointAt, WordEnd, SkipSpaces, ArgsFrom, Argv, Untouched, Scanning, NulFree;
    ghost var p, j := start - 2, scan - 2;
    ScanRound(buf[..], args[..nArg], words, s, p);
    ScanningShape(buf[..], args[..nArg], words, s, p);
    count := Record(args, nArg, scan);
    UntouchedAt(buf[..], s, p, j);
    var end := ScanWord(buf, scan, s);
    ScanEnds(buf[..], s, p, end - 2);
    next := EndWord(s, buf, end);
  }

  /** The argument loop, syscalls/ece391emulate.c:87-98. */
  method ScanArguments(ghost s: seq<byte>, buf: array<byte>, args: array<int>, start: nat) returns (nArg: nat)
    requires NulFree(s) && |s| <= MAX_COMMAND && buf.Length == MAX_COMMAND + 3 && args.Length == MAX_ARGS
        && start >= 2
    requires start - 2 <= |s| && Scanning(buf[..], args[..1], [PREFIX + FirstWord(s)], s, start - 2)
    modifies buf, args
    ensures nArg < MAX_ARGS && PointAt(buf[..], args[..nArg], Argv(s), |s| + 2)
  {
    hide PointAt, WordEnd, SkipSpaces, ArgsFrom, Argv, Untouched, Scanning, FirstWord, NulFree;
    nArg := 1;
    var scan := start;
    ghost var words := [PREFIX + FirstWord(s)];
    while true
      invariant 2 <= scan && 1 <= nArg < MAX_ARGS - 1 && scan - 2 <= |s|
          && Scanning(buf[..], args[..nArg], words, s, scan - 2)
      decreases |s| + 2 - scan
    {
      ghost var from := scan;
      ScanRound(buf[..], args[..nArg], words, s, from - 2);
      ScanningShape(buf[..], args[..nArg], words, s, from - 2);
      scan := ScanSpaces(buf, scan, s);
      ScanEnds(buf[..], s, from - 2, scan - 2);
      if buf[scan] == NUL || buf[scan] == NEWLINE {
        EndCommand(s, buf, args, nArg, scan, from);
        return;
      }
      ghost var j := scan - 2;
      nArg, scan := ScanArgument(s, buf, args, nArg, scan, from, words);
      words := words + [s[j..WordEnd(s, j)]];
      ScanningShape(buf[..], args[..nArg], words, s, scan - 2);
    }
  }

  /** The splitting part of ece391_execute. */
  method Tokenize(command: seq<byte>, buf: array<byte>, args: array<int>) returns (nArg: int)
    requires NulFree(command) && buf.Length == MAX_COMMAND + 3 && args.Length == MAX_ARGS
    modifies buf, args
    ensures |command| > MAX_COMMAND ==> nArg == -1
    ensures |command| <= MAX_COMMAND ==> nArg == |Argv(command)| < MAX_ARGS && args[nArg] == NULL
    ensures |command| <= MAX_COMMAND ==>
              forall k | 0 <= k < nArg :: 0 <= args[k] <= buf.Length && StringIn(buf[..], args[k]) == Argv(command)[k]
  {
    hide Argv, ArgsFrom, PointAt, Untouched, WordEnd, SkipSpaces, StringIn;
    if MAX_COMMAND < |command| { return -1; }
    CopyCommand(command, buf);
    ScanStarts(buf[..], command);
    var scan := ScanWord(buf, 2, command);
    args[0] := 0;
    nArg := 1;
    assert args[..nArg] == [0];
    ScanEnds(buf[..], command, 0, scan - 2);
    if buf[scan] != NUL {
      buf[scan] := NUL;
      nArg := ScanArguments(command, buf, args, scan + 1);
    }
    ghost var found := args[..nArg];
    args[nArg] := NULL;
    AllPointed(buf[..], found, Argv(command), |command| + 2);
    assert forall k | 0 <= k < nArg :: args[k] == found[k];
  }

  lemma AllPointed(buf: seq<byte>, args: seq<int>, words: seq<seq<byte>>, done: nat)
    requires PointAt(buf, args, words, done)
    ensures |args| == |words|
    ensures forall k | 0 <= k < |args| :: 0 <= args[k] <= |buf| && StringIn(buf, args[k]) == words[k]
  {
  }

  lemma ScanEnds(buf: seq<byte>, s: seq<byte>, p: nat, e: nat)
    requires NulFree(s) && Untouched(buf, s, p) && p <= e <= |s|
    ensures |buf| > e + 2 && (buf[e + 2] == NUL <==> e == |s|) && (e < |s| ==> buf[e + 2] == s[e])
  {
  }

  // ----- Joining.

  /** The words with one space between neighbours. */
  function Join(words: seq<seq<byte>>): seq<byte>
  {
    if words == [] then []
    else if |words| == 1 then words[0]
    else words[0] + [SPACE] + Join(words[1..])
  }

  /** The string copy of ece391_strcpy, terminator included. */
  method CopyString(buf: array<byte>, at: nat, word: seq<byte>)
    requires at + |word| < buf.Length
    modifies buf
    ensures buf[..at + |word|] == old(buf[..at]) + word && buf[at + |word|] == NUL
  {
    ghost var done := buf[..at];
    assert done + word[..0] == done;
    for i := 0 to |word|
      invariant buf[..at + i] == done + word[..i]
    {
      buf[at + i] := word[i];
      assert buf[..at + i + 1] == buf[..at + i] + [word[i]];
      assert word[..i + 1] == word[..i] + [word[i]];
    }
    buf[at + |word|] := NUL;
    assert word[..|word|] == word;
  }

  method PutByte(buf: array<byte>, at: nat, c: byte)
    requires at < buf.Length
    modifies buf
    ensures buf[..at + 1] == old(buf[..at]) + [c]
  {
    buf[at] := c;
  }

  /** The first n words have been written, with a space after each that is not the last. */
  ghost predicate Joined(done: seq<byte>, words: seq<seq<byte>>, n: nat)
  {
    n <= |words| && if n < |words| then done + Join(words[n..]) == Join(words) else done == Join(words)
  }

  lemma JoinedStep(done: seq<byte>, words: seq<seq<byte>>, n: nat)
    requires Joined(done, words, n) && n < |words|
    ensures |done| + |words[n]| + (if n + 1 < |words| then 1 else 0) <= |Join(words)|
    ensures Joined(if n + 1 < |words| then done + words[n] + [SPACE] else done + words[n], words, n + 1)
  {
  }

  /** ece391_getargs.  It succeeds exactly when the joined arguments and their terminator fit in nbytes; the
      copy of a last argument that just does not leave room for the terminator needs one spare byte. */
  method GetArgs(argv: seq<seq<byte>>, buf: array<byte>, nbytes: int) returns (ret: int)
    requires argv != [] && nbytes < buf.Length
    modifies buf
    ensures ret == if |Join(argv[1..])| + 1 <= nbytes then 0 else -1
    ensures ret == 0 ==> buf[..|Join(argv[1..])| + 1] == Join(argv[1..]) + [NUL]
  {
    hide Join, Joined;
    ghost var words := argv[1..];
    var argc, idx: nat := |argv|, 1;
    var at: nat, left := 0, nbytes;
    JoinedStarts(words);
    assert buf[..0] == [];
    while idx < argc
      invariant 1 <= idx <= argc && left == nbytes - at && at <= buf.Length && (at > 0 ==> left >= 0)
      invariant Joined(buf[..at], words, idx - 1)
    {
      JoinedStep(buf[..at], words, idx - 1);
      var len := |argv[idx]|;
      assert words[idx - 1] == argv[idx];
      if len > left {
        return -1;
      }
      ghost var done := buf[..at];
      CopyString(buf, at, argv[idx]);
      assert buf[..at + len] == done + words[idx - 1];
      at, left := at + len, left - len;
      idx := idx + 1;
      if idx >= argc {
        break;
      }
      if left < 1 {
        return -1;
      }
      PutByte(buf, at, SPACE);
      at, left := at + 1, left - 1;
    }
    JoinedEnds(buf[..at], words);
    if left < 1 { return -1; }
    PutByte(buf, at, NUL);
    return 0;
  }

  lemma JoinedStarts(words: seq<seq<byte>>)
    ensures Joined([], words, 0)
  {
  }

  lemma JoinedEnds(done: seq<byte>, words: seq<seq<byte>>)
    requires Joined(done, words, |words|)
    ensures done == Join(words)
  {
  }

  // ----- Splitting undoes spreading words out, and joining undoes splitting up to spaces.

  ghost predicate Word(w: seq<byte>)
  {
    w != [] && forall i | 0 <= i < |w| :: !Separates(w[i])
  }

  ghost predicate Words(ws: seq<seq<byte>>)
  {
    forall k | 0 <= k < |ws| :: Word(ws[k])
  }

  lemma {:induction false} ArgsAreWords(s: seq<byte>, i: nat)
    requires i <= |s|
    ensures Words(ArgsFrom(s, i))
    decreases |s| - i
  {
    hide WordEnd, SkipSpaces, ArgsFrom;
    ArgsUnfold(s, i);
    var j := SkipSpaces(s, i);
    if j < |s| && s[j] != NEWLINE {
      var e := WordEnd(s, j);
      ArgsAreWords(s, if e < |s| then e + 1 else e);
    }
  }

  /** Words each preceded by some spaces, the first gap possibly empty. */
  function Spread(ws: seq<seq<byte>>, gaps: seq<nat>): seq<byte>
    requires |gaps| == |ws|
  {
    if ws == [] then [] else Repeat(SPACE, gaps[0]) + ws[0] + Spread(ws[1..], gaps[1..])
  }

  /** What may follow the last word: spaces and then possibly one newline. */
  function Ending(n: nat, newline: bool): seq<byte>
  {
    Repeat(SPACE, n) + if newline then [NEWLINE] else []
  }

  lemma SpreadUnfold(ws: seq<seq<byte>>, gaps: seq<nat>, after: seq<byte>)
    requires |gaps| == |ws| && ws != []
    ensures Spread(ws, gaps) + after == Repeat(SPACE, gaps[0]) + ws[0] + (Spread(ws[1..], gaps[1..]) + after)
  {
  }

  lemma SpreadWord(s: seq<byte>, i: nat, gap: nat, w: seq<byte>, rest: seq<byte>)
    requires i <= |s| && s[i..] == Repeat(SPACE, gap) + w + rest && Word(w)
    ensures |s| == i + gap + |w| + |rest|
    ensures forall k | i <= k < i + gap :: s[k] == SPACE
    ensures s[i + gap..i + gap + |w|] == w && s[i + gap + |w|..] == rest
    ensures forall k | i + gap <= k < i + gap + |w| :: !Separates(s[k])
    ensures rest != [] ==> s[i + gap + |w|] == rest[0]
  {
  }

  lemma RestSeparates(ws: seq<seq<byte>>, gaps: seq<nat>, n: nat, newline: bool)
    requires |gaps| == |ws| && forall k | 0 <= k < |gaps| :: gaps[k] >= 1
    ensures var rest := Spread(ws, gaps) + Ending(n, newline); rest != [] ==> Separates(rest[0])
  {
  }

  lemma NoneSpread(gaps: seq<nat>)
    requires gaps == []
    ensures Spread([], gaps) == []
  {
  }

  // ----- Commands of any shape.

  /** What may stand between two words: a space or a newline, and then any number of spaces. */
  datatype Gap = Gap(newline: bool, blanks: nat)

  function GapBytes(g: Gap): (r: seq<byte>)
    ensures r != [] && (r[0] == 32 || r[0] == 10)
  {
    [if g.newline then 10 else 32] + Repeat(32, g.blanks)
  }

  function Mixed(ws: seq<seq<byte>>, gaps: seq<Gap>): seq<byte>
    requires |gaps| == |ws|
  {
    if ws == [] then [] else GapBytes(gaps[0]) + ws[0] + Mixed(ws[1..], gaps[1..])
  }

  /** What may follow the last word: nothing, or a gap and then possibly a newline, after which nothing counts. */
  datatype Trailer = Nothing | Trailing(gap: Gap) | Stopped(gap: Gap, ignored: seq<byte>)

  function TrailerBytes(t: Trailer): (r: seq<byte>)
    ensures r != [] ==> Separates(r[0])
  {
    match t
    case Nothing => []
    case Trailing(gap) => GapBytes(gap)
    case Stopped(gap, ignored) => GapBytes(gap) + [10] + ignored
  }

  /** The arguments after a word that ends at position e. */
  function ArgsBehind(s: seq<byte>, e: nat): seq<seq<byte>>
    requires e <= |s|
  {
    if e < |s| then ArgsFrom(s, e + 1) else []
  }

  lemma TrailerHasNoArgs(s: seq<byte>, e: nat, t: Trailer)
    requires e <= |s| && s[e..] == TrailerBytes(t)
    ensures ArgsBehind(s, e) == []
  {
    if e < |s| {
      hide ArgsFrom;
      var n := t.gap.blanks;
      assert forall k | e + 1 <= k < e + 1 + n :: s[k] == s[e..][k - e] == SPACE;
      assert t.Stopped? ==> s[e + 1 + n] == s[e..][1 + n] == NEWLINE;
      SkipSpacesIs(s, e + 1, e + 1 + n);
      ArgsUnfold(s, e + 1);
    }
  }

  lemma MixedUnfold(ws: seq<seq<byte>>, gaps: seq<Gap>, after: seq<byte>)
    requires |gaps| == |ws| && ws != []
    ensures Mixed(ws, gaps) + after == GapBytes(gaps[0]) + ws[0] + (Mixed(ws[1..], gaps[1..]) + after)
  {
    hide GapBytes;
  }

  lemma BehindGap(g: Gap, w: seq<byte>, rest: seq<byte>)
    ensures var all := GapBytes(g) + w + rest;
            all != [] && all[1..] == Repeat(SPACE, g.blanks) + w + rest
  {
    assert GapBytes(g)[1..] == Repeat(SPACE, g.blanks);
    hide GapBytes;
  }

  lemma MixedSeparates(ws: seq<seq<byte>>, gaps: seq<Gap>, t: Trailer)
    requires |gaps| == |ws|
    ensures var rest := Mixed(ws, gaps) + TrailerBytes(t); rest != [] ==> Separates(rest[0])
  {
  }

  lemma ArgAt(s: seq<byte>, e: nat, j: nat, next: nat)
    requires e < j < next <= |s| && (forall k | e + 1 <= k < j :: s[k] == SPACE)
    requires (forall k | j <= k < next :: !Separates(s[k])) && (next < |s| ==> Separates(s[next]))
    ensures ArgsBehind(s, e) == [s[j..next]] + ArgsBehind(s, next)
  {
    hide ArgsFrom;
    SkipSpacesIs(s, e + 1, j);
    WordEndIs(s, j, next);
    ArgsUnfold(s, e + 1);
  }

  /** One more argument. */
  lemma MixedStep(s: seq<byte>, e: nat, g: Gap, w: seq<byte>, rest: seq<byte>)
    requires e <= |s| && Word(w) && s[e..] == GapBytes(g) + w + rest && (rest != [] ==> Separates(rest[0]))
    ensures var next := e + 1 + g.blanks + |w|;
            next <= |s| && s[next..] == rest && ArgsBehind(s, e) == [w] + ArgsBehind(s, next)
  {
    hide ArgsBehind, GapBytes;
    BehindGap(g, w, rest);
    assert s[e + 1..] == s[e..][1..];
    SpreadWord(s, e + 1, g.blanks, w, rest);
    ArgAt(s, e, e + 1 + g.blanks, e + 1 + g.blanks + |w|);
  }

  lemma {:induction false} ArgsOfMixed(s: seq<byte>, e: nat, ws: seq<seq<byte>>, gaps: seq<Gap>, t: Trailer)
    requires e <= |s| && Words(ws) && |gaps| == |ws| && s[e..] == Mixed(ws, gaps) + TrailerBytes(t)
    ensures ArgsBehind(s, e) == ws
    decreases |ws|
  {
    hide ArgsBehind, TrailerBytes, GapBytes, Word;
    if ws == [] {
      assert s[e..] == TrailerBytes(t);
      TrailerHasNoArgs(s, e, t);
    } else {
      MixedUnfold(ws, gaps, TrailerBytes(t));
      MixedSeparates(ws[1..], gaps[1..], t);
      hide Mixed;
      MixedStep(s, e, gaps[0], ws[0], Mixed(ws[1..], gaps[1..]) + TrailerBytes(t));
      ArgsOfMixed(s, e + 1 + gaps[0].blanks + |ws[0]|, ws[1..], gaps[1..], t);
      assert [ws[0]] + ws[1..] == ws;
    }
  }

  lemma ArgvOfMixed(first: seq<byte>, ws: seq<seq<byte>>, gaps: seq<Gap>, t: Trailer)
    requires (forall i | 0 <= i < |first| :: !Separates(first[i])) && Words(ws) && |gaps| == |ws|
    ensures Argv(first + Mixed(ws, gaps) + TrailerBytes(t)) == [PREFIX + first] + ws
  {
    hide ArgsFrom, WordEnd, Mixed, TrailerBytes, Words;
    var s := first + Mixed(ws, gaps) + TrailerBytes(t);
    var e := |first|;
    assert s[e..] == Mixed(ws, gaps) + TrailerBytes(t);
    MixedSeparates(ws, gaps, t);
    assert e < |s| ==> s[e] == s[e..][0];
    WordEndIs(s, 0, e);
    assert FirstWord(s) == first;
    ArgsOfMixed(s, e, ws, gaps, t);
  }

  /** Commands of any shape: a newline right behind a word separates like a space, and one behind a gap ends the
      command, whatever follows. */
  lemma ArgvOfCommand(first: seq<byte>, ws: seq<seq<byte>>, gaps: seq<Gap>, t: Trailer)
    requires (forall i | 0 <= i < |first| :: first[i] != 32 && first[i] != 10) && |gaps| == |ws|
    requires forall k, i | 0 <= k < |ws| && 0 <= i < |ws[k]| :: ws[k][i] != 32 && ws[k][i] != 10
    requires forall k | 0 <= k < |ws| :: ws[k] != []
    ensures Argv(first + Mixed(ws, gaps) + TrailerBytes(t)) == [[46, 47] + first] + ws
  {
    hide Argv, Mixed, TrailerBytes;
    assert PREFIX == [46, 47];
    ArgvOfMixed(first, ws, gaps, t);
  }

  function Blanks(gaps: seq<nat>): (r: seq<Gap>)
    requires forall k | 0 <= k < |gaps| :: gaps[k] >= 1
    ensures |r| == |gaps|
  {
    seq(|gaps|, k requires 0 <= k < |gaps| => Gap(false, gaps[k] - 1))
  }

  lemma {:induction false} SpreadIsMixed(ws: seq<seq<byte>>, gaps: seq<nat>)
    requires |gaps| == |ws| && forall k | 0 <= k < |gaps| :: gaps[k] >= 1
    ensures Spread(ws, gaps) == Mixed(ws, Blanks(gaps))
  {
    if ws != [] {
      assert Blanks(gaps)[1..] == Blanks(gaps[1..]);
      SpreadIsMixed(ws[1..], gaps[1..]);
      assert GapBytes(Blanks(gaps)[0]) == Repeat(SPACE, gaps[0]);
    }
  }

  function EndingTrailer(n: nat, newline: bool): (t: Trailer)
    ensures TrailerBytes(t) == Ending(n, newline)
  {
    if n == 0 then (if newline then Trailing(Gap(true, 0)) else Nothing)
    else if newline then
      assert [SPACE] + Repeat(SPACE, n - 1) == Repeat(SPACE, n);
      Stopped(Gap(false, n - 1), [])
    else
      Trailing(Gap(false, n - 1))
  }

  /** A command of words separated by spaces, however many, and possibly ended by a newline. */
  lemma ArgvOfSpread(first: seq<byte>, ws: seq<seq<byte>>, gaps: seq<nat>, n: nat, newline: bool)
    requires (forall i | 0 <= i < |first| :: !Separates(first[i])) && Words(ws) && |gaps| == |ws|
    requires forall k | 0 <= k < |gaps| :: gaps[k] >= 1
    ensures Argv(first + Spread(ws, gaps) + Ending(n, newline)) == [PREFIX + first] + ws
  {
    hide Argv, Spread, Mixed, Ending, TrailerBytes, Blanks, EndingTrailer, Separates, Words;
    SpreadIsMixed(ws, gaps);
    ArgvOfMixed(first, ws, Blanks(gaps), EndingTrailer(n, newline));
  }

  function Ones(n: nat): seq<nat>
  {
    seq(n, _ => 1)
  }

  lemma {:induction false} JoinIsSpread(words: seq<seq<byte>>)
    ensures words != [] ==> [SPACE] + Join(words) == Spread(words, Ones(|words|))
  {
    if words != [] {
      assert Ones(|words|)[1..] == Ones(|words| - 1);
      assert Repeat(SPACE, 1) == [SPACE];
      if |words| > 1 {
        JoinIsSpread(words[1..]);
      }
    }
  }

  /** Joining the arguments of any command and splitting them again gives the same arguments. */
  lemma RejoinedArgv(s: seq<byte>)
    ensures Argv(FirstWord(s) + [SPACE] + Join(Args(s))) == Argv(s)
  {
    var first, args := FirstWord(s), Args(s);
    ArgsAreWords(s, if WordEnd(s, 0) < |s| then WordEnd(s, 0) + 1 else |s|);
    var joined := first + [SPACE] + Join(args);
    hide ArgsFrom, WordEnd, Join;
    if args == [] {
      NoneSpread([]);
      JoinNone();
      assert joined == first + Spread([], []) + Ending(1, false);
      ArgvOfSpread(first, [], [], 1, false);
    } else {
      JoinIsSpread(args);
      assert joined == first + Spread(args, Ones(|args|)) + Ending(0, false);
      ArgvOfSpread(first, args, Ones(|args|), 0, false);
    }
  }

  lemma JoinNone()
    ensures Join([]) == []
  {
  }
}
