/** The streaming line search of syscalls/ece391grep.c. */
module Grep {
  import opened Bytes

  const BUFSIZE := 1024

  // ----- What a reader of the program expects: split into lines, keep those containing s.

  function LineEnd(f: seq<byte>): (e: nat)
    ensures e <= |f|
    ensures forall i | 0 <= i < e :: f[i] != NEWLINE
    ensures e < |f| ==> f[e] == NEWLINE
  {
    if f == [] || f[0] == NEWLINE then 0 else 1 + LineEnd(f[1..])
  }

  function FirstLine(f: seq<byte>): seq<byte>
  {
    f[..LineEnd(f)]
  }

  /** What follows the first line and its newline. */
  function AfterLine(f: seq<byte>): (g: seq<byte>)
    ensures f != [] ==> |g| < |f|
  {
    if LineEnd(f) < |f| then f[LineEnd(f) + 1..] else []
  }

  /** The lines of a file; an unterminated last line counts when it is not empty. */
  function Lines(f: seq<byte>): seq<seq<byte>>
    decreases |f|
  {
    if f == [] then [] else [FirstLine(f)] + Lines(AfterLine(f))
  }

  ghost predicate MatchesAt(s: seq<byte>, line: seq<byte>, i: int)
  {
    0 <= i <= |line| - |s| && line[i..i + |s|] == s
  }

  ghost predicate Contains(s: seq<byte>, line: seq<byte>)
  {
    exists i :: MatchesAt(s, line, i)
  }

  ghost function Wanted(s: seq<byte>, lines: seq<seq<byte>>): seq<seq<byte>>
  {
    if lines == [] then []
    else (if Contains(s, lines[0]) then [lines[0]] else []) + Wanted(s, lines[1..])
  }

  // ----- What the program prints: a line is cut after each BUFSIZE bytes, and an
  // ----- empty pattern matches nothing.

  function Pieces(f: seq<byte>): seq<seq<byte>>
    decreases |f|
  {
    if f == [] then []
    else if LineEnd(f) >= BUFSIZE then [f[..BUFSIZE]] + Pieces(f[BUFSIZE..])
    else [FirstLine(f)] + Pieces(AfterLine(f))
  }

  /** The pieces when the byte behind the uninitialised buffer happens to be a newline: each full buffer is
      cut at its end, until that byte is first overwritten. */
  function StalePieces(f: seq<byte>): seq<seq<byte>>
    decreases |f|
  {
    if |f| < BUFSIZE then Pieces(f)
    else Lines(f[..BUFSIZE]) + if f[BUFSIZE - 1] == NEWLINE then StalePieces(f[BUFSIZE..]) else Pieces(f[BUFSIZE..])
  }

  function Cut(stale: bool, f: seq<byte>): seq<seq<byte>>
  {
    if stale then StalePieces(f) else Pieces(f)
  }

  ghost predicate Hit(s: seq<byte>, line: seq<byte>)
  {
    s != [] && Contains(s, line)
  }

  ghost function Hits(s: seq<byte>, lines: seq<seq<byte>>): seq<seq<byte>>
  {
    if lines == [] then []
    else (if Hit(s, lines[0]) then [lines[0]] else []) + Hits(s, lines[1..])
  }

  /** The lines the program prints for file f, when the byte behind the buffer is no newline. */
  ghost function Printed(s: seq<byte>, f: seq<byte>): seq<seq<byte>>
  {
    Hits(s, Pieces(f))
  }

  /** What the search of one piece finds, NULs included: an empty pattern is found where a NUL is. */
  ghost predicate Found(s: seq<byte>, piece: seq<byte>)
  {
    if s == [] then NUL in piece else Contains(s, piece)
  }

  /** A piece is printed as a C string. */
  function TextOf(piece: seq<byte>): seq<byte>
  {
    piece[..StringEnd(piece, 0)]
  }

  ghost function Shown(fname: seq<byte>, s: seq<byte>, piece: seq<byte>): seq<byte>
  {
    if Found(s, piece) then fname + [COLON] + TextOf(piece) + [NEWLINE] else []
  }

  /** The bytes written for the pieces of any file. */
  ghost function Output(fname: seq<byte>, s: seq<byte>, pieces: seq<seq<byte>>): seq<byte>
  {
    if pieces == [] then [] else Shown(fname, s, pieces[0]) + Output(fname, s, pieces[1..])
  }

  /** In every line a NUL is at most the last byte. */
  ghost predicate NulsEndLines(f: seq<byte>)
  {
    forall i | 0 <= i < |f| - 1 && f[i] == NUL :: f[i + 1] == NEWLINE
  }

  ghost predicate NulLast(f: seq<byte>)
  {
    forall i | 0 <= i < |f| - 1 :: f[i] != NUL
  }

  /** The bytes written for a list of printed lines. */
  function Render(fname: seq<byte>, lines: seq<seq<byte>>): seq<byte>
  {
    if lines == [] then []
    else fname + [COLON] + lines[0] + [NEWLINE] + Render(fname, lines[1..])
  }

  // ----- The program.

  /** An open file: read hands out as many bytes as were asked for until the end. */
  class FileStream {
    const content: seq<byte>
    var position: nat

    constructor (content: seq<byte>)
      ensures this.content == content && position == 0
    {
      this.content := content;
      position := 0;
    }

    method Read(buf: array<byte>, start: nat, nbytes: nat) returns (cnt: nat)
      requires start + nbytes <= buf.Length
      requires position <= |content|
      modifies this, buf
      ensures cnt == if nbytes <= |content| - old(position) then nbytes else |content| - old(position)
      ensures position == old(position) + cnt
      ensures buf[start..start + cnt] == content[old(position)..position]
      ensures buf[start + cnt..start + nbytes] == Repeat(NUL, nbytes - cnt)
      ensures forall j | 0 <= j < buf.Length && !(start <= j < start + nbytes) :: buf[j] == old(buf[j])
    {
      cnt := if nbytes <= |content| - position then nbytes else |content| - position;
      for i := start to start + nbytes
        invariant position == old(position)
        invariant forall j | start <= j < i :: buf[j] == NUL
        invariant forall j | 0 <= j < buf.Length && !(start <= j < start + nbytes) :: buf[j] == old(buf[j])
      {
        buf[i] := NUL;
      }
      for i := 0 to cnt
        invariant position == old(position)
        invariant forall j | start <= j < start + i :: buf[j] == content[position + j - start]
        invariant forall j | start + i <= j < start + nbytes :: buf[j] == NUL
        invariant forall j | 0 <= j < buf.Length && !(start <= j < start + nbytes) :: buf[j] == old(buf[j])
      {
        buf[start + i] := content[position + i];
      }
      assert buf[start..start + cnt] == content[position..position + cnt];
      position := position + cnt;
    }
  }

  /** ece391_strcpy within one buffer, towards lower addresses; z is the source's terminator. */
  method CopyDown(data: array<byte>, src: nat, ghost z: nat)
    requires 0 < src <= z < data.Length && data[z] == NUL
    requires forall j | src <= j < z :: data[j] != NUL
    modifies data
    ensures forall k | 0 <= k <= z - src :: data[k] == old(data[src + k])
    ensures forall j | z - src < j < data.Length :: data[j] == old(data[j])
  {
    var d, s := 0, src;
    data[d] := data[s];
    while data[d] != NUL
      invariant d <= z - src && s == src + d
      invariant forall k | 0 <= k <= d :: data[k] == old(data[src + k])
      invariant forall j | d < j < data.Length :: data[j] == old(data[j])
      decreases z - s
    {
      d, s := d + 1, s + 1;
      data[d] := data[s];
    }
  }

  /** The bytes ece391_fdputs writes for the string at data + start; z is its terminator. */
  method StringAt(data: array<byte>, start: nat, ghost z: nat) returns (r: seq<byte>)
    requires start <= z < data.Length && data[z] == NUL
    requires forall j | start <= j < z :: data[j] != NUL
    ensures r == data[start..z]
  {
    var len := 0;
    while data[start + len] != NUL
      invariant start + len <= z
      decreases z - len
    {
      len := len + 1;
    }
    return data[start..start + len];
  }

  /** ece391_strncmp(data + check, s, |s|) == 0 for a data string that ends before or at z. */
  method ComparesEqual(data: array<byte>, check: nat, s: seq<byte>, ghost z: nat) returns (equal: bool)
    requires check <= z < data.Length && data[z] == NUL
    requires NulFree(s)
    ensures equal <==> MatchesAt(s, data[..z], check)
  {
    if |s| == 0 { return true; }
    var n, i := |s|, 0;
    while data[check + i] == StringByte(s, i)
      invariant check + i <= z && i < |s| && n == |s| - i
      invariant data[check..check + i] == s[..i]
      decreases n
    {
      if data[check + i] == NUL || n - 1 == 0 {
        assert data[check..check + |s|] == s;
        assert data[..z][check..check + |s|] == data[check..check + |s|];
        return true;
      }
      n, i := n - 1, i + 1;
    }
    MismatchRules(s, data[..z], check, i);
    return false;
  }

  lemma MismatchRules(s: seq<byte>, line: seq<byte>, check: nat, i: nat)
    requires i < |s| && (check + i < |line| ==> line[check + i] != s[i])
    ensures !MatchesAt(s, line, check)
  {
  }

  lemma MatchesShift(s: seq<byte>, data: seq<byte>, start: nat, check: nat)
    requires start <= check <= |data|
    ensures MatchesAt(s, data, check) == MatchesAt(s, data[start..], check - start)
  {
  }

  /** The search of one NUL-terminated line, syscalls/ece391grep.c:42-51. */
  method SearchLine(s: seq<byte>, data: array<byte>, lineStart: nat, lineEnd: nat) returns (found: bool)
    requires lineStart <= lineEnd < data.Length && data[lineEnd] == NUL
    requires NulFree(s)
    ensures found <==> Found(s, data[lineStart..lineEnd])
  {
    ghost var line := data[lineStart..lineEnd];
    assert data[..lineEnd][lineStart..] == line;
    var check := lineStart;
    while check < lineEnd
      invariant lineStart <= check <= lineEnd
      invariant forall i | 0 <= i < check - lineStart :: if s == [] then line[i] != NUL else !MatchesAt(s, line, i)
    {
      assert line[check - lineStart] == data[check];
      if StringByte(s, 0) == data[check] {
        var equal := ComparesEqual(data, check, s, lineEnd);
        MatchesShift(s, data[..lineEnd], lineStart, check);
        if equal { return true; }
      } else if s != [] {
        MismatchRules(s, line, check - lineStart, 0);
      }
      check := check + 1;
    }
    return false;
  }

  // ----- Facts about the cut into pieces.

  lemma LineEndIs(f: seq<byte>, e: nat)
    requires e <= |f|
    requires forall i | 0 <= i < e :: f[i] != NEWLINE
    requires e < |f| ==> f[e] == NEWLINE
    ensures LineEnd(f) == e
  {
  }

  lemma LineEndAtLeast(f: seq<byte>, n: nat)
    requires n <= |f| && forall i | 0 <= i < n :: f[i] != NEWLINE
    ensures LineEnd(f) >= n
  {
  }

  /** What is still to be printed once the bytes f are all that is left. */
  ghost function Rest(fname: seq<byte>, s: seq<byte>, f: seq<byte>): seq<byte>
  {
    Output(fname, s, Pieces(f))
  }

  lemma RenderAppend(fname: seq<byte>, a: seq<seq<byte>>, b: seq<seq<byte>>)
    ensures Render(fname, a + b) == Render(fname, a) + Render(fname, b)
  {
    if a == [] {
      assert a + b == b;
    } else {
      assert (a + b)[1..] == a[1..] + b;
      RenderAppend(fname, a[1..], b);
    }
  }

  lemma HitsCons(s: seq<byte>, p: seq<byte>, rest: seq<seq<byte>>)
    ensures Hits(s, [p] + rest) == (if Hit(s, p) then [p] else []) + Hits(s, rest)
  {
  }

  lemma OutputCons(fname: seq<byte>, s: seq<byte>, p: seq<byte>, rest: seq<seq<byte>>)
    ensures Output(fname, s, [p] + rest) == Shown(fname, s, p) + Output(fname, s, rest)
  {
  }

  lemma OutputAppend(fname: seq<byte>, s: seq<byte>, a: seq<seq<byte>>, b: seq<seq<byte>>)
    ensures Output(fname, s, a + b) == Output(fname, s, a) + Output(fname, s, b)
  {
    if a == [] {
      assert a + b == b;
    } else {
      assert (a + b)[1..] == a[1..] + b;
      OutputAppend(fname, s, a[1..], b);
    }
  }

  lemma PiecesOfLine(f: seq<byte>, e: nat)
    requires e < |f| && e < BUFSIZE && f[e] == NEWLINE
    requires forall i | 0 <= i < e :: f[i] != NEWLINE
    ensures Pieces(f) == [f[..e]] + Pieces(f[e + 1..])
  {
    LineEndIs(f, e);
    assert FirstLine(f) == f[..e] && AfterLine(f) == f[e + 1..];
    hide Pieces, LineEnd, FirstLine, AfterLine;
    PiecesUnfold(f);
  }

  lemma PiecesUnfold(f: seq<byte>)
    requires f != []
    ensures Pieces(f) == if LineEnd(f) >= BUFSIZE then [f[..BUFSIZE]] + Pieces(f[BUFSIZE..])
        else [FirstLine(f)] + Pieces(AfterLine(f))
  {
    hide LineEnd, FirstLine;
  }

  lemma RestAfterLine(fname: seq<byte>, s: seq<byte>, f: seq<byte>, e: nat)
    requires e < |f| && e < BUFSIZE && f[e] == NEWLINE
    requires forall i | 0 <= i < e :: f[i] != NEWLINE
    ensures Rest(fname, s, f) == Shown(fname, s, f[..e]) + Rest(fname, s, f[e + 1..])
  {
    hide Pieces, Shown, Output;
    PiecesOfLine(f, e);
    OutputCons(fname, s, f[..e], Pieces(f[e + 1..]));
  }

  lemma RestAfterFullBuffer(fname: seq<byte>, s: seq<byte>, f: seq<byte>)
    requires |f| >= BUFSIZE
    requires forall i | 0 <= i < BUFSIZE :: f[i] != NEWLINE
    ensures Rest(fname, s, f) == Shown(fname, s, f[..BUFSIZE]) + Rest(fname, s, f[BUFSIZE..])
  {
    LineEndAtLeast(f, BUFSIZE);
    OutputCons(fname, s, f[..BUFSIZE], Pieces(f[BUFSIZE..]));
  }

  lemma RestLast(fname: seq<byte>, s: seq<byte>, f: seq<byte>)
    requires |f| <= BUFSIZE
    requires forall i | 0 <= i < |f| :: f[i] != NEWLINE
    ensures Rest(fname, s, f) == Shown(fname, s, f)
  {
    if f == [] {
      assert s != [] ==> !Contains(s, f) by { assert forall i :: s != [] ==> !MatchesAt(s, f, i); }
    } else {
      LineEndIs(f, |f|);
      assert f[..|f|] == f;
      assert Pieces(f) == [f] + [] by {
        if |f| == BUFSIZE { assert f[BUFSIZE..] == []; }
      }
      OutputCons(fname, s, f, []);
    }
  }

  /** A complete line inside the buffer. */
  lemma RestStepLine(fname: seq<byte>, s: seq<byte>, buf: seq<byte>, tail: seq<byte>, start: nat, end: nat)
    requires start <= end < |buf| <= BUFSIZE && buf[end] == NEWLINE
    requires forall i | start <= i < end :: buf[i] != NEWLINE
    ensures Rest(fname, s, buf[start..] + tail)
        == Shown(fname, s, buf[start..end]) + Rest(fname, s, buf[end + 1..] + tail)
  {
    hide Rest, Shown;
    var f := buf[start..] + tail;
    RestAfterLine(fname, s, f, end - start);
    assert f[..end - start] == buf[start..end];
    assert f[end - start + 1..] == buf[end + 1..] + tail;
  }

  /** The buffer ends without a newline: either the file ends too, or the buffer is one long piece. */
  lemma RestStepLast(fname: seq<byte>, s: seq<byte>, buf: seq<byte>, tail: seq<byte>, start: nat)
    requires start <= |buf| <= BUFSIZE
    requires forall i | start <= i < |buf| :: buf[i] != NEWLINE
    requires tail == [] || (start == 0 && |buf| == BUFSIZE)
    ensures Rest(fname, s, buf[start..] + tail) == Shown(fname, s, buf[start..]) + Rest(fname, s, tail)
  {
    if tail == [] {
      assert buf[start..] + tail == buf[start..];
      RestLast(fname, s, buf[start..]);
    } else {
      var f := buf[start..] + tail;
      RestAfterFullBuffer(fname, s, f);
      assert f[..BUFSIZE] == buf[start..] && f[BUFSIZE..] == tail;
    }
  }

  ghost function RestFor(stale: bool, fname: seq<byte>, s: seq<byte>, f: seq<byte>): seq<byte>
  {
    if stale then Output(fname, s, StalePieces(f)) else Rest(fname, s, f)
  }

  lemma RestShort(stale: bool, fname: seq<byte>, s: seq<byte>, f: seq<byte>)
    requires |f| < BUFSIZE
    ensures RestFor(stale, fname, s, f) == Rest(fname, s, f)
    ensures f == [] ==> Rest(fname, s, f) == []
  {
  }

  /** What is to be printed when line start has been reached in the buffer. */
  ghost function Left(stale: bool, fname: seq<byte>, s: seq<byte>, buf: seq<byte>, start: nat,
      tail: seq<byte>): seq<byte>
    requires start <= |buf| <= BUFSIZE
  {
    if stale && |buf| == BUFSIZE then
      Output(fname, s, Lines(buf[start..])) + RestFor(buf[BUFSIZE - 1] == NEWLINE, fname, s, tail)
    else Rest(fname, s, buf[start..] + tail)
  }

  lemma LeftBegins(stale: bool, fname: seq<byte>, s: seq<byte>, buf: seq<byte>, tail: seq<byte>)
    requires |buf| <= BUFSIZE && (|buf| < BUFSIZE ==> tail == [])
    ensures Left(stale, fname, s, buf, 0, tail) == RestFor(stale, fname, s, buf + tail)
  {
    assert buf[0..] == buf;
    if stale && |buf| == BUFSIZE {
      var f := buf + tail;
      assert f[..BUFSIZE] == buf && f[BUFSIZE..] == tail;
      var rest := if buf[BUFSIZE - 1] == NEWLINE then StalePieces(tail) else Pieces(tail);
      OutputAppend(fname, s, Lines(buf), rest);
    } else if stale {
      RestShort(stale, fname, s, buf + tail);
    }
  }

  lemma OutputOfLines(fname: seq<byte>, s: seq<byte>, f: seq<byte>)
    requires f != []
    ensures Output(fname, s, Lines(f)) == Shown(fname, s, FirstLine(f)) + Output(fname, s, Lines(AfterLine(f)))
  {
    OutputCons(fname, s, FirstLine(f), Lines(AfterLine(f)));
  }

  lemma LeftStepLine(stale: bool, fname: seq<byte>, s: seq<byte>, buf: seq<byte>, tail: seq<byte>, start: nat,
      end: nat)
    requires start <= end < |buf| <= BUFSIZE && buf[end] == NEWLINE
    requires forall i | start <= i < end :: buf[i] != NEWLINE
    ensures Left(stale, fname, s, buf, start, tail)
        == Shown(fname, s, buf[start..end]) + Left(stale, fname, s, buf, end + 1, tail)
  {
    hide Rest, RestFor, Shown, Output, Lines;
    if stale && |buf| == BUFSIZE {
      OutputOfLine(fname, s, buf, start, end);
    } else {
      RestStepLine(fname, s, buf, tail, start, end);
    }
  }

  lemma OutputOfLine(fname: seq<byte>, s: seq<byte>, buf: seq<byte>, start: nat, end: nat)
    requires start <= end < |buf| && buf[end] == NEWLINE && forall i | start <= i < end :: buf[i] != NEWLINE
    ensures Output(fname, s, Lines(buf[start..]))
        == Shown(fname, s, buf[start..end]) + Output(fname, s, Lines(buf[end + 1..]))
  {
    hide Shown, Output, Lines;
    var f := buf[start..];
    LineEndIs(f, end - start);
    OutputOfLines(fname, s, f);
    assert FirstLine(f) == buf[start..end] && AfterLine(f) == buf[end + 1..];
  }

  lemma LeftStepLast(stale: bool, fname: seq<byte>, s: seq<byte>, buf: seq<byte>, tail: seq<byte>, start: nat)
    requires start <= |buf| <= BUFSIZE && (stale && |buf| == BUFSIZE ==> start < |buf|)
    requires forall i | start <= i < |buf| :: buf[i] != NEWLINE
    requires tail == [] || (|buf| == BUFSIZE && (stale || start == 0))
    ensures Left(stale, fname, s, buf, start, tail) == Shown(fname, s, buf[start..]) + Rest(fname, s, tail)
  {
    hide Rest, Shown;
    if stale && |buf| == BUFSIZE {
      var f := buf[start..];
      LineEndIs(f, |f|);
      OutputOfLines(fname, s, f);
      assert FirstLine(f) == f && AfterLine(f) == [];
    } else {
      RestStepLast(fname, s, buf, tail, start);
    }
  }

  lemma LeftEnds(stale: bool, fname: seq<byte>, s: seq<byte>, buf: seq<byte>, tail: seq<byte>)
    requires 0 < |buf| <= BUFSIZE && buf[|buf| - 1] == NEWLINE && (|buf| < BUFSIZE ==> tail == [])
    ensures Left(stale, fname, s, buf, |buf|, tail) == RestFor(stale, fname, s, tail)
  {
    assert buf[|buf|..] == [] && [] + tail == tail;
    if |buf| < BUFSIZE { RestShort(stale, fname, s, tail); }
  }

  /** One line of the buffer, up to end.  Terminating it overwrites the byte behind the buffer only when the
      line ends there; now tells whether that byte holds a newline afterwards. */
  lemma LeftStep(stale: bool, now: bool, fname: seq<byte>, s: seq<byte>, buf: seq<byte>, tail: seq<byte>,
      start: nat, end: nat)
    requires start <= end <= |buf| <= BUFSIZE && (start == |buf| ==> start == 0)
    requires forall i | start <= i < end :: buf[i] != NEWLINE
    requires end < |buf| ==> buf[end] == NEWLINE
    requires |buf| < BUFSIZE ==> tail == []
    requires end == |buf| ==> tail == [] || stale || start == 0
    requires now == (stale && end < BUFSIZE)
    ensures Left(stale, fname, s, buf, start, tail) ==
            Shown(fname, s, buf[start..end])
            + if end + 1 < |buf| then Left(stale, fname, s, buf, end + 1, tail) else RestFor(now, fname, s, tail)
  {
    hide Rest, RestFor, Left, Shown;
    if end < |buf| {
      LeftStepLine(stale, fname, s, buf, tail, start, end);
      if end + 1 == |buf| {
        LeftEnds(stale, fname, s, buf, tail);
      }
    } else {
      LeftStepLast(stale, fname, s, buf, tail, start);
      RestForPlain(now, fname, s, tail);
      assert buf[start..end] == buf[start..];
    }
  }

  lemma RestForPlain(stale: bool, fname: seq<byte>, s: seq<byte>, tail: seq<byte>)
    requires stale ==> tail == []
    ensures RestFor(stale, fname, s, tail) == Rest(fname, s, tail)
  {
  }

  // ----- do_one_file.

  const OPEN_FAILED: seq<byte> := Ascii("file open failed\n")

  /** The scan for a newline, syscalls/ece391grep.c:30-32; buf is the buffer as it was filled. */
  method FindLineEnd(data: array<byte>, lineStart: nat, last: nat, ghost buf: seq<byte>) returns (lineEnd: nat)
    requires lineStart <= last <= data.Length && |buf| == last && data[lineStart..last] == buf[lineStart..]
    ensures lineStart <= lineEnd <= last
    ensures forall j | lineStart <= j < lineEnd :: data[j] == buf[j] != NEWLINE
    ensures lineEnd < last ==> data[lineEnd] == buf[lineEnd] == NEWLINE
    ensures data[lineStart..lineEnd] == buf[lineStart..lineEnd]
    ensures data[lineEnd..last] == buf[lineEnd..]
  {
    lineEnd := lineStart;
    assert forall j | lineStart <= j < last :: data[j] == data[lineStart..last][j - lineStart] == buf[j];
    while lineEnd < last && NEWLINE != data[lineEnd]
      invariant lineStart <= lineEnd <= last
      invariant forall j | lineStart <= j < lineEnd :: data[j] != NEWLINE
    {
      lineEnd := lineEnd + 1;
    }
  }

  /** Terminate the unfinished tail and slide it to the front, syscalls/ece391grep.c:34-37. */
  method SlideTail(data: array<byte>, lineStart: nat, lineEnd: nat) returns (last: nat)
    requires 0 < lineStart <= lineEnd < data.Length
    requires forall j | 0 <= j < lineEnd :: data[j] != NEWLINE
    modifies data
    ensures last == lineEnd - lineStart
    ensures forall j | 0 <= j <= last :: data[j] != NEWLINE
    ensures var text := TextOf(old(data[lineStart..lineEnd]));
            data[..|text|] == text && data[|text|] == NUL && data[lineEnd] == NUL
            && forall j | |text| < j < data.Length && j != lineEnd :: data[j] == old(data[j])
    ensures NulLast(old(data[lineStart..lineEnd])) ==> data[..last] == old(data[lineStart..lineEnd])
  {
    ghost var tail := data[lineStart..lineEnd];
    data[lineEnd] := NUL;
    assert data[lineStart..lineEnd] == tail;
    ghost var z := StringEnd(data[..], lineStart);
    TextEnds(tail, z - lineStart);
    ghost var was := data[..];
    CopyDown(data, lineStart, z);
    forall k | 0 <= k < z - lineStart ensures data[..z - lineStart][k] == tail[k] {
      assert was[lineStart + k] == was[lineStart..lineEnd][k];
    }
    return lineEnd - lineStart;
  }

  /** Terminate, search and maybe print one line, syscalls/ece391grep.c:41-51. */
  method PrintIfFound(s: seq<byte>, fname: seq<byte>, data: array<byte>, lineStart: nat, lineEnd: nat)
    returns (shown: seq<byte>)
    requires lineStart <= lineEnd < data.Length && NulFree(s)
    modifies data
    ensures data[lineEnd] == NUL
    ensures forall j | 0 <= j < data.Length && j != lineEnd :: data[j] == old(data[j])
    ensures shown == Shown(fname, s, old(data[lineStart..lineEnd]))
  {
    ghost var line := data[lineStart..lineEnd];
    data[lineEnd] := NUL;
    assert data[lineStart..lineEnd] == line;
    var found := SearchLine(s, data, lineStart, lineEnd);
    shown := [];
    if found {
      ghost var z := StringEnd(data[..], lineStart);
      TextEnds(line, z - lineStart);
      var text := StringAt(data, lineStart, z);
      assert data[lineStart..z] == line[..z - lineStart];
      shown := fname + [COLON] + text + [NEWLINE];
    }
  }

  lemma TextEnds(line: seq<byte>, n: nat)
    requires n <= |line| && (forall j | 0 <= j < n :: line[j] != NUL) && (n < |line| ==> line[n] == NUL)
    ensures TextOf(line) == line[..n]
  {
  }

  /** A tail without a newline holds a NUL at most at its end. */
  lemma TailNul(buf: seq<byte>, tail: seq<byte>, start: nat)
    requires start <= |buf| && NulsEndLines(buf + tail) && forall i | start <= i < |buf| :: buf[i] != NEWLINE
    ensures NulLast(buf[start..]) && NulsEndLines(buf[start..] + tail)
  {
    var f := buf + tail;
    forall i | 0 <= i < |buf| - start - 1 ensures buf[start..][i] != NUL {
      assert f[start + i] == buf[start + i] && f[start + i + 1] == buf[start + i + 1];
    }
    forall i | 0 <= i < |f| - start - 1 && (buf[start..] + tail)[i] == NUL
      ensures (buf[start..] + tail)[i + 1] == NEWLINE
    {
      assert f[start + i] == NUL && f[start + i + 1] == (buf[start..] + tail)[i + 1];
    }
  }

  lemma TailOnly(buf: seq<byte>, tail: seq<byte>)
    requires NulsEndLines(buf + tail)
    ensures NulsEndLines(tail)
  {
    forall i | 0 <= i < |tail| - 1 && tail[i] == NUL ensures tail[i + 1] == NEWLINE {
      assert (buf + tail)[|buf| + i] == NUL && (buf + tail)[|buf| + i + 1] == tail[i + 1];
    }
  }

  /** PrintIfFound on the line of buf that FindLineEnd has found. */
  method PrintLine(s: seq<byte>, fname: seq<byte>, data: array<byte>, lineStart: nat, lineEnd: nat,
      ghost buf: seq<byte>) returns (shown: seq<byte>)
    requires lineStart <= lineEnd <= |buf| < data.Length && NulFree(s)
    requires data[lineStart..lineEnd] == buf[lineStart..lineEnd] && data[lineEnd..|buf|] == buf[lineEnd..]
    requires forall j | 0 <= j < lineEnd :: data[j] != NEWLINE
    modifies data
    ensures shown == Shown(fname, s, buf[lineStart..lineEnd])
    ensures forall j | 0 <= j <= lineEnd :: data[j] != NEWLINE
    ensures lineEnd < |buf| ==> data[lineEnd + 1..|buf|] == buf[lineEnd + 1..]
    ensures forall j | lineEnd < j < data.Length :: data[j] == old(data[j])
  {
    hide Shown;
    ghost var behind := data[lineEnd..|buf|];
    shown := PrintIfFound(s, fname, data, lineStart, lineEnd);
    assert lineEnd < |buf| ==> data[lineEnd + 1..|buf|] == behind[1..];
  }

  /** The unfinished line at the end of the buffer is kept for the next pass. */
  method KeepTail(ghost s: seq<byte>, ghost fname: seq<byte>, data: array<byte>, lineStart: nat, lineEnd: nat,
      ghost buf: seq<byte>, ghost tail: seq<byte>) returns (last: nat)
    requires data.Length == BUFSIZE + 1 && 0 < lineStart <= lineEnd == |buf| <= BUFSIZE
    requires data[lineStart..lineEnd] == buf[lineStart..]
    requires forall j | 0 <= j < lineEnd :: data[j] != NEWLINE
    requires |buf| < BUFSIZE ==> tail == []
    modifies data
    ensures last < BUFSIZE && (data[BUFSIZE] == NEWLINE ==> tail == [])
    ensures NulsEndLines(buf + tail) ==>
              && NulsEndLines(data[..last] + tail)
              && RestFor(data[BUFSIZE] == NEWLINE, fname, s, data[..last] + tail)
                 == Rest(fname, s, buf[lineStart..] + tail)
  {
    hide Rest, RestFor, NulsEndLines, NulLast, TextOf;
    assert forall j | lineStart <= j < |buf| :: buf[j] == data[lineStart..lineEnd][j - lineStart] == data[j];
    if NulsEndLines(buf + tail) { TailNul(buf, tail, lineStart); }
    last := SlideTail(data, lineStart, lineEnd);
    KeptShort(data[BUFSIZE] == NEWLINE, fname, s, data[..last], tail, |buf|);
  }

  /** One pass over the filled buffer, syscalls/ece391grep.c:28-57. */
  method ScanBuffer(s: seq<byte>, fname: seq<byte>, data: array<byte>, cnt: nat, filled: nat, ghost tail: seq<byte>)
    returns (last: nat, out: seq<byte>)
    requires NulFree(s) && data.Length == BUFSIZE + 1
    requires filled <= BUFSIZE
    requires cnt == 0 ==> filled < BUFSIZE
    requires filled < BUFSIZE ==> tail == []
    modifies data
    ensures last < BUFSIZE && (data[BUFSIZE] == NEWLINE ==> last == 0 || tail == [])
    ensures NulsEndLines(old(data[..filled]) + tail) ==>
              && NulsEndLines(data[..last] + tail)
              && RestFor(old(data[BUFSIZE]) == NEWLINE, fname, s, old(data[..filled]) + tail)
                 == out + RestFor(data[BUFSIZE] == NEWLINE, fname, s, data[..last] + tail)
    ensures cnt == 0 ==> last == 0
  {
    hide Rest, RestFor, Left, Shown, NulsEndLines, NulLast;
    last, out := filled, [];
    var lineStart := 0;
    ghost var buf, stale := data[..filled], data[BUFSIZE] == NEWLINE;
    ghost var total := RestFor(stale, fname, s, buf + tail);
    LeftBegins(stale, fname, s, buf, tail);
    while true
      invariant last == filled
      invariant 0 <= lineStart <= last && (lineStart == last ==> lineStart == 0)
      invariant (data[BUFSIZE] == NEWLINE) == stale
      invariant forall j | 0 <= j < lineStart :: data[j] != NEWLINE
      invariant data[lineStart..last] == buf[lineStart..]
      invariant total == out + Left(stale, fname, s, buf, lineStart, tail)
      decreases last - lineStart
    {
      var lineEnd := FindLineEnd(data, lineStart, last, buf);
      if data[lineEnd] != NEWLINE && cnt != 0 && lineStart != 0 {
        LeftSlides(stale, fname, s, buf, lineStart, tail);
        last := KeepTail(s, fname, data, lineStart, lineEnd, buf, tail);
        return;
      }
      LeftStep(stale, stale && lineEnd < BUFSIZE, fname, s, buf, tail, lineStart, lineEnd);
      var shown := PrintLine(s, fname, data, lineStart, lineEnd, buf);
      out := out + shown;
      lineStart := lineEnd + 1;
      if lineStart >= last {
        last := 0;
        assert data[..last] + tail == tail;
        if NulsEndLines(buf + tail) { TailOnly(buf, tail); }
        return;
      }
    }
  }

  lemma LeftSlides(stale: bool, fname: seq<byte>, s: seq<byte>, buf: seq<byte>, start: nat, tail: seq<byte>)
    requires start <= |buf| <= BUFSIZE && (stale ==> |buf| < BUFSIZE)
    ensures Left(stale, fname, s, buf, start, tail) == Rest(fname, s, buf[start..] + tail)
  {
  }

  lemma KeptShort(stale: bool, fname: seq<byte>, s: seq<byte>, kept: seq<byte>, tail: seq<byte>, filled: nat)
    requires |kept| < BUFSIZE && (stale ==> tail == [])
    ensures RestFor(stale, fname, s, kept + tail) == Rest(fname, s, kept + tail)
  {
  }

  /** A read behind the unfinished tail: what is in the buffer and what is still in the file stay the same text. */
  method FillBuffer(file: FileStream, data: array<byte>, last: nat) returns (cnt: nat)
    requires data.Length == BUFSIZE + 1 && last < BUFSIZE && file.position <= |file.content|
    modifies data, file
    ensures last + cnt <= BUFSIZE && file.position == old(file.position) + cnt <= |file.content|
    ensures last + cnt < BUFSIZE ==> file.position == |file.content|
    ensures data[..last + cnt] + file.content[file.position..]
         == old(data[..last]) + file.content[old(file.position)..]
    ensures data[BUFSIZE] == old(data[BUFSIZE])
  {
    cnt := file.Read(data, last, BUFSIZE - last);
    assert data[..last + cnt] == old(data[..last]) + file.content[old(file.position)..file.position];
  }

  /** data is the uninitialised stack buffer.  Of its old contents only data[BUFSIZE] is ever looked at before
      it is overwritten, so only that byte can show in the output. */
  method DoOneFile(s: seq<byte>, fname: seq<byte>, file: FileStream?, data: array<byte>)
    returns (ret: int, out: seq<byte>)
    requires NulFree(s)
    requires data.Length == BUFSIZE + 1
    requires file != null ==> file.position == 0
    modifies data, file
    ensures file == null ==> ret == -1 && out == OPEN_FAILED
    ensures file != null ==> ret == 0
    ensures file != null && NulsEndLines(file.content) ==>
              out == RestFor(old(data[BUFSIZE]) == NEWLINE, fname, s, file.content)
    ensures file != null && s != [] ==> forall text | NulFree(text) && file.content == text + [NUL] ::
              out == RestFor(old(data[BUFSIZE]) == NEWLINE, fname, s, text)
  {
    hide Rest, RestFor, NulsEndLines;
    if file == null { return -1, OPEN_FAILED; }
    ghost var f, stale := file.content, data[BUFSIZE] == NEWLINE;
    out := [];
    var last := 0;
    assert data[..0] + f[0..] == f;
    while true
      invariant 0 <= last < BUFSIZE && file.position <= |f|
      invariant data[BUFSIZE] == NEWLINE ==> last == 0 || file.position == |f|
      invariant NulsEndLines(f) ==> NulsEndLines(data[..last] + f[file.position..])
      invariant NulsEndLines(f) ==>
          RestFor(stale, fname, s, f)
          == out + RestFor(data[BUFSIZE] == NEWLINE, fname, s, data[..last] + f[file.position..])
      decreases |f| - file.position
    {
      var cnt := FillBuffer(file, data, last);
      last := last + cnt;
      var shown;
      last, shown := ScanBuffer(s, fname, data, cnt, last, f[file.position..]);
      out := out + shown;
      if cnt == 0 { break; }
    }
    assert data[..last] + f[file.position..] == [];
    RestShort(data[BUFSIZE] == NEWLINE, fname, s, []);
    forall text | NulFree(text) && f == text + [NUL] && s != []
      ensures NulsEndLines(f) && RestFor(stale, fname, s, f) == RestFor(stale, fname, s, text)
    {
      NulBehindText(stale, fname, s, text);
    }
    return 0, out;
  }

  // ----- What the reader's terms mean.

  function Unlines(lines: seq<seq<byte>>): seq<byte>
  {
    if lines == [] then [] else lines[0] + [NEWLINE] + Unlines(lines[1..])
  }

  /** The lines, each with a newline behind it, are the file, up to a newline missing at its end. */
  lemma {:induction false} LinesRejoin(f: seq<byte>)
    ensures Unlines(Lines(f)) == if f == [] || f[|f| - 1] == NEWLINE then f else f + [NEWLINE]
    decreases |f|
  {
    if f != [] {
      LinesRejoin(AfterLine(f));
      LinesCons(f);
      FirstLineRejoins(f);
      hide Lines, Unlines, FirstLine, AfterLine, LineEnd;
    }
  }

  lemma LinesCons(f: seq<byte>)
    requires f != []
    ensures Unlines(Lines(f)) == FirstLine(f) + [NEWLINE] + Unlines(Lines(AfterLine(f)))
  {
    hide FirstLine, AfterLine, LineEnd;
    assert Lines(f)[1..] == Lines(AfterLine(f));
  }

  lemma FirstLineRejoins(f: seq<byte>)
    requires f != []
    ensures var rest := AfterLine(f);
            var all := FirstLine(f) + [NEWLINE] + rest;
            if LineEnd(f) < |f| then
              f == all && (rest != [] ==> f[|f| - 1] == rest[|rest| - 1]) && (rest == [] ==> f[|f| - 1] == NEWLINE)
            else rest == [] && f == FirstLine(f) && f[|f| - 1] != NEWLINE
  {
    hide LineEnd;
  }

  /** A line contains s exactly when it is some bytes, s and some more bytes. */
  lemma ContainsExact(s: seq<byte>, line: seq<byte>)
    ensures Contains(s, line) <==> exists a, b :: line == a + s + b
  {
    if Contains(s, line) {
      var i :| MatchesAt(s, line, i);
      assert line == line[..i] + s + line[i + |s|..];
    }
    if a, b :| line == a + s + b {
      assert MatchesAt(s, line, |a|);
    }
  }

  /** Keeping the wanted lines goes line by line, in order. */
  lemma WantedExact(s: seq<byte>, a: seq<seq<byte>>, line: seq<byte>, b: seq<seq<byte>>)
    ensures Wanted(s, []) == []
    ensures Wanted(s, a + [line] + b)
         == Wanted(s, a) + (if exists x, y :: line == x + s + y then [line] else []) + Wanted(s, b)
  {
    WantedAppend(s, a + [line], b);
    WantedAppend(s, a, [line]);
    LoneWanted(s, line);
    ContainsExact(s, line);
  }

  /** The lines of the output are the printed lines, each behind the file name and a colon. */
  lemma {:induction false} RenderedLines(fname: seq<byte>, lines: seq<seq<byte>>)
    requires forall i | 0 <= i < |fname| :: fname[i] != NEWLINE
    requires forall k, i | 0 <= k < |lines| && 0 <= i < |lines[k]| :: lines[k][i] != NEWLINE
    ensures |Lines(Render(fname, lines))| == |lines|
    ensures forall k | 0 <= k < |lines| :: Lines(Render(fname, lines))[k] == fname + [58] + lines[k]
    decreases |lines|
  {
    if lines != [] {
      var first := fname + [COLON] + lines[0];
      var rest := Render(fname, lines[1..]);
      var f := first + [NEWLINE] + rest;
      assert Render(fname, lines) == f;
      LineEndIs(f, |first|);
      assert FirstLine(f) == first && AfterLine(f) == rest;
      RenderedLines(fname, lines[1..]);
      assert Lines(f) == [first] + Lines(rest);
    }
  }

  // ----- When the cut never shows: the program against the specification.

  lemma HitsAppend(s: seq<byte>, a: seq<seq<byte>>, b: seq<seq<byte>>)
    ensures Hits(s, a + b) == Hits(s, a) + Hits(s, b)
  {
    if a == [] {
      assert a + b == b;
    } else {
      assert (a + b)[1..] == a[1..] + b;
      HitsAppend(s, a[1..], b);
    }
  }

  /** The pieces of one line standing alone. */
  lemma {:induction false} LinePieces(s: seq<byte>, line: seq<byte>)
    requires forall i | 0 <= i < |line| :: line[i] != NEWLINE
    ensures |line| <= BUFSIZE ==> Hits(s, Pieces(line)) == if Hit(s, line) then [line] else []
    ensures |line| > BUFSIZE && !Hit(s, line) ==> Hits(s, Pieces(line)) == []
    decreases |line|
  {
    LineEndIs(line, |line|);
    if |line| == 0 {
      assert forall i :: s != [] ==> !MatchesAt(s, line, i);
    } else if |line| <= BUFSIZE {
      assert line[..|line|] == line;
      assert |line| == BUFSIZE ==> line[BUFSIZE..] == [];
      assert Pieces(line) == [line] + [];
      HitsCons(s, line, []);
    } else {
      LinePieces(s, line[BUFSIZE..]);
      HitsCons(s, line[..BUFSIZE], Pieces(line[BUFSIZE..]));
      if !Hit(s, line) && s != [] {
        PartOfMiss(s, line, 0, BUFSIZE);
        PartOfMiss(s, line, BUFSIZE, |line|);
        assert line[0..BUFSIZE] == line[..BUFSIZE] && line[BUFSIZE..|line|] == line[BUFSIZE..];
      }
    }
  }

  lemma PartOfMiss(s: seq<byte>, line: seq<byte>, lo: nat, hi: nat)
    requires lo <= hi <= |line| && !Contains(s, line)
    ensures !Contains(s, line[lo..hi])
  {
    forall i | MatchesAt(s, line[lo..hi], i)
      ensures MatchesAt(s, line, lo + i)
    {
      forall k | 0 <= k < |s| ensures line[lo + i..lo + i + |s|][k] == s[k] {
        assert s[k] == line[lo..hi][i..i + |s|][k] == line[lo + i + k];
      }
    }
  }

  lemma HitsOfCut(s: seq<byte>, f: seq<byte>)
    requires LineEnd(f) >= BUFSIZE
    ensures Hits(s, Pieces(f)) == Hits(s, [f[..BUFSIZE]]) + Hits(s, Pieces(f[BUFSIZE..]))
  {
    hide Hits, Pieces, LineEnd;
    PiecesUnfold(f);
    HitsAppend(s, [f[..BUFSIZE]], Pieces(f[BUFSIZE..]));
  }

  lemma HitsOfLine(s: seq<byte>, f: seq<byte>)
    requires f != [] && LineEnd(f) < BUFSIZE
    ensures Hits(s, Pieces(f)) == Hits(s, [FirstLine(f)]) + Hits(s, Pieces(AfterLine(f)))
  {
    hide Hits, Pieces, LineEnd, FirstLine, AfterLine;
    PiecesUnfold(f);
    HitsAppend(s, [FirstLine(f)], Pieces(AfterLine(f)));
  }

  lemma AfterCut(f: seq<byte>)
    requires LineEnd(f) >= BUFSIZE
    ensures FirstLine(f)[..BUFSIZE] == f[..BUFSIZE]
    ensures FirstLine(f[BUFSIZE..]) == FirstLine(f)[BUFSIZE..]
    ensures AfterLine(f[BUFSIZE..]) == AfterLine(f)
    ensures LineEnd(FirstLine(f)) == LineEnd(f)
  {
  }

  /** Cutting the file at a line end and then into pieces is cutting each line into pieces. */
  lemma {:induction false} PiecesOfFirstLine(s: seq<byte>, f: seq<byte>)
    requires f != []
    ensures Hits(s, Pieces(f)) == Hits(s, Pieces(FirstLine(f))) + Hits(s, Pieces(AfterLine(f)))
    decreases |f|
  {
    hide Hits, Pieces, FirstLine, AfterLine;
    if LineEnd(f) < BUFSIZE {
      HitsOfLine(s, f);
      LinePieces(s, FirstLine(f)) by { FirstLineIs(f); }
      LoneHit(s, FirstLine(f));
      FirstLineIs(f);
    } else if LineEnd(f) == BUFSIZE == |f| {
      FirstLineIs(f);
      assert FirstLine(f) == f && AfterLine(f) == [];
      NoHits(s);
    } else {
      AfterCut(f);
      FirstLineIs(f);
      HitsOfCut(s, f);
      HitsOfCut(s, FirstLine(f));
      if f[BUFSIZE..] != [] {
        PiecesOfFirstLine(s, f[BUFSIZE..]);
      }
    }
  }

  lemma FirstLineIs(f: seq<byte>)
    ensures FirstLine(f) == f[..LineEnd(f)]
    ensures LineEnd(f) == |f| ==> AfterLine(f) == []
  {
  }

  lemma NoHits(s: seq<byte>)
    ensures Hits(s, Pieces([])) == []
  {
  }

  lemma LoneHit(s: seq<byte>, p: seq<byte>)
    ensures Hits(s, [p]) == if Hit(s, p) then [p] else []
  {
  }

  lemma PiecesAreShort(f: seq<byte>)
    ensures forall p | p in Pieces(f) :: |p| <= BUFSIZE
    decreases |f|
  {
  }

  lemma HitsAreLines(s: seq<byte>, lines: seq<seq<byte>>)
    ensures forall p | p in Hits(s, lines) :: p in lines
  {
  }

  lemma WantedAreAll(s: seq<byte>, lines: seq<seq<byte>>)
    ensures forall p | p in lines && Contains(s, p) :: p in Wanted(s, lines)
  {
  }

  /** Every line that contains s fits the buffer (a line of exactly BUFSIZE bytes still does). */
  ghost predicate FoundLinesFit(s: seq<byte>, f: seq<byte>)
  {
    forall line | line in Lines(f) && Contains(s, line) :: |line| <= BUFSIZE
  }

  lemma {:induction false} FittingLinesPrinted(s: seq<byte>, f: seq<byte>)
    requires s != [] && FoundLinesFit(s, f)
    ensures Printed(s, f) == Wanted(s, Lines(f))
    decreases |f|
  {
    if f == [] {
      NoHits(s);
    } else {
      hide Hits, Pieces, Wanted, Lines, FirstLine, AfterLine;
      PiecesOfFirstLine(s, f);
      LinePieces(s, FirstLine(f)) by { FirstLineIs(f); }
      WantedOfFirstLine(s, f);
      FittingLinesPrinted(s, AfterLine(f));
    }
  }

  lemma WantedOfFirstLine(s: seq<byte>, f: seq<byte>)
    requires f != []
    ensures FirstLine(f) in Lines(f)
    ensures forall line | line in Lines(AfterLine(f)) :: line in Lines(f)
    ensures Wanted(s, Lines(f)) == (if Contains(s, FirstLine(f))
        then [FirstLine(f)] else []) + Wanted(s, Lines(AfterLine(f)))
  {
  }

  /** The program prints exactly the lines that contain s, once each and in file order, if and only
      if s is not empty and no line containing it is longer than the buffer.  (With an empty s it
      prints nothing, which is right only for a file without lines.) */
  lemma GrepExact(s: seq<byte>, f: seq<byte>)
    ensures Printed(s, f) == Wanted(s, Lines(f)) <==> if s == [] then f == [] else FoundLinesFit(s, f)
  {
    if s == [] {
      NothingForEmptyPattern(Pieces(f));
      if f != [] {
        assert MatchesAt([], Lines(f)[0], 0);
      }
    } else if FoundLinesFit(s, f) {
      FittingLinesPrinted(s, f);
    } else {
      var line :| line in Lines(f) && Contains(s, line) && |line| > BUFSIZE;
      WantedAreAll(s, Lines(f));
      HitsAreLines(s, Pieces(f));
      PiecesAreShort(f);
      assert line !in Printed(s, f);
    }
  }

  lemma NothingForEmptyPattern(lines: seq<seq<byte>>)
    ensures Hits([], lines) == []
  {
  }

  /** Different lists of printed lines are different outputs: lines hold no newline. */
  lemma {:induction false} RenderInjective(fname: seq<byte>, a: seq<seq<byte>>, b: seq<seq<byte>>)
    requires forall i | 0 <= i < |fname| :: fname[i] != NEWLINE
    requires forall p, i | p in a && 0 <= i < |p| :: p[i] != NEWLINE
    requires forall p, i | p in b && 0 <= i < |p| :: p[i] != NEWLINE
    requires Render(fname, a) == Render(fname, b)
    ensures a == b
  {
    if a != [] && b != [] {
      var x, y := fname + [COLON] + a[0], fname + [COLON] + b[0];
      var restA, restB := Render(fname, a[1..]), Render(fname, b[1..]);
      assert Render(fname, a) == x + [NEWLINE] + restA && Render(fname, b) == y + [NEWLINE] + restB;
      LineEndIs(x + [NEWLINE] + restA, |x|);
      LineEndIs(y + [NEWLINE] + restB, |y|);
      assert x == (x + [NEWLINE] + restA)[..|x|] == (y + [NEWLINE] + restB)[..|y|] == y;
      assert a[0] == x[|fname| + 1..] == b[0];
      assert restA == (x + [NEWLINE] + restA)[|x| + 1..] == (y + [NEWLINE] + restB)[|y| + 1..] == restB;
      RenderInjective(fname, a[1..], b[1..]);
    }
  }

  lemma PiecesHoldNoNewline(f: seq<byte>)
    ensures forall p, i | p in Pieces(f) && 0 <= i < |p| :: p[i] != NEWLINE
    decreases |f|
  {
  }

  lemma LinesHoldNoNewline(f: seq<byte>)
    ensures forall p, i | p in Lines(f) && 0 <= i < |p| :: p[i] != NEWLINE
    decreases |f|
  {
  }

  lemma WantedAreLines(s: seq<byte>, lines: seq<seq<byte>>)
    ensures forall p | p in Wanted(s, lines) :: p in lines
  {
  }

  /** GrepExact for the bytes written: for a file name without a newline the rendering of the printed lines is
      that of the wanted ones under exactly the same condition. */
  lemma GrepOutputExact(fname: seq<byte>, s: seq<byte>, f: seq<byte>)
    requires forall i | 0 <= i < |fname| :: fname[i] != NEWLINE
    ensures Render(fname, Printed(s, f)) == Render(fname, Wanted(s, Lines(f)))
            <==> if s == [] then f == [] else FoundLinesFit(s, f)
  {
    GrepExact(s, f);
    PiecesHoldNoNewline(f);
    RenderedHits(fname, s, f, Pieces(f));
  }

  lemma RenderedHits(fname: seq<byte>, s: seq<byte>, f: seq<byte>, pieces: seq<seq<byte>>)
    requires forall i | 0 <= i < |fname| :: fname[i] != NEWLINE
    requires forall p, i | p in pieces && 0 <= i < |p| :: p[i] != NEWLINE
    ensures Render(fname, Hits(s, pieces)) == Render(fname, Wanted(s, Lines(f))) <==>
            Hits(s, pieces) == Wanted(s, Lines(f))
  {
    hide Hits, Wanted, Lines, Render;
    HitsAreLines(s, pieces);
    LinesHoldNoNewline(f);
    WantedAreLines(s, Lines(f));
    if Render(fname, Hits(s, pieces)) == Render(fname, Wanted(s, Lines(f))) {
      RenderInjective(fname, Hits(s, pieces), Wanted(s, Lines(f)));
    }
  }

  // ----- The newline behind the buffer.

  /** The complete lines of p. */
  function Whole(p: seq<byte>): seq<seq<byte>>
    decreases |p|
  {
    if LineEnd(p) == |p| then [] else [FirstLine(p)] + Whole(AfterLine(p))
  }

  /** What follows the last newline of p. */
  function Unended(p: seq<byte>): seq<byte>
    decreases |p|
  {
    if LineEnd(p) == |p| then p else Unended(AfterLine(p))
  }

  /** The cut of a stale newline does no harm: block by block, while the blocks end in a newline; the line that
      runs on from the first one that does not is either over there or does not contain s. */
  ghost predicate Harmless(s: seq<byte>, f: seq<byte>)
    decreases |f|
  {
    |f| < BUFSIZE
    || (var p, g := f[..BUFSIZE], f[BUFSIZE..];
        if p[BUFSIZE - 1] == NEWLINE then Harmless(s, g)
        else FirstLine(g) == [] || !Contains(s, Unended(p) + FirstLine(g)))
  }

  lemma SplitUnfold(p: seq<byte>)
    ensures LineEnd(p) == |p| ==> Whole(p) == [] && Unended(p) == p
    ensures LineEnd(p) < |p| ==>
        Whole(p) == [FirstLine(p)] + Whole(AfterLine(p)) && Unended(p) == Unended(AfterLine(p))
  {
  }

  lemma LinesUnfold(p: seq<byte>, g: seq<byte>)
    requires LineEnd(p) < |p|
    ensures Lines(p + g) == [FirstLine(p)] + Lines(AfterLine(p) + g) && |AfterLine(p)| < |p|
  {
    var e := LineEnd(p);
    LineEndIs(p + g, e);
    assert (p + g)[..e] == p[..e] && (p + g)[e + 1..] == p[e + 1..] + g;
  }

  lemma {:induction false} LinesSplit(p: seq<byte>, g: seq<byte>)
    ensures Lines(p + g) == Whole(p) + Lines(Unended(p) + g)
    decreases |p|
  {
    hide Lines, Whole, Unended, FirstLine, AfterLine;
    SplitUnfold(p);
    if LineEnd(p) == |p| {
      assert Whole(p) + Lines(p + g) == Lines(p + g);
    } else {
      LinesUnfold(p, g);
      LinesSplit(AfterLine(p), g);
    }
  }

  lemma {:induction false} UnendedShape(p: seq<byte>)
    ensures Unended(p) == [] <==> p == [] || p[|p| - 1] == NEWLINE
    ensures |Unended(p)| <= |p| && forall i | 0 <= i < |Unended(p)| :: Unended(p)[i] != NEWLINE
    ensures forall line | line in Whole(p) :: |line| <= |p|
    decreases |p|
  {
    if LineEnd(p) != |p| {
      UnendedShape(AfterLine(p));
    }
  }

  /** An unended line joined with what follows it. */
  lemma JoinedLine(u: seq<byte>, g: seq<byte>)
    requires u != [] && forall i | 0 <= i < |u| :: u[i] != NEWLINE
    ensures Lines(u + g) == [u + FirstLine(g)] + Lines(AfterLine(g))
    ensures Lines(u) == [u]
  {
    LineEndIs(u + g, |u| + LineEnd(g));
    assert FirstLine(u + g) == u + FirstLine(g) && AfterLine(u + g) == AfterLine(g);
    LineEndIs(u, |u|);
    assert FirstLine(u) == u && AfterLine(u) == [] && [u] + [] == [u];
  }

  lemma {:induction false} WantedAppend(s: seq<byte>, a: seq<seq<byte>>, b: seq<seq<byte>>)
    ensures Wanted(s, a + b) == Wanted(s, a) + Wanted(s, b)
  {
    if a == [] {
      assert a + b == b;
    } else {
      assert (a + b)[1..] == a[1..] + b;
      WantedAppend(s, a[1..], b);
    }
  }

  lemma HitsAreWanted(s: seq<byte>, lines: seq<seq<byte>>)
    requires s != []
    ensures Hits(s, lines) == Wanted(s, lines)
  {
  }

  lemma LoneWanted(s: seq<byte>, p: seq<byte>)
    ensures Wanted(s, [p]) == if Contains(s, p) then [p] else []
  {
  }

  ghost predicate Fits(s: seq<byte>, lines: seq<seq<byte>>)
  {
    forall line | line in lines && Contains(s, line) :: |line| <= BUFSIZE
  }

  /** A line u + h that is cut after u, with rest behind it. */
  lemma CutLine(s: seq<byte>, u: seq<byte>, h: seq<byte>, rest: seq<byte>)
    requires s != [] && u != [] && |u| <= BUFSIZE && forall i | 0 <= i < |h| :: h[i] != NEWLINE
    ensures Hits(s, [u]) + Hits(s, Pieces(h)) + Printed(s, rest) == Wanted(s, [u + h]) + Wanted(s, Lines(rest))
            <==> FoundLinesFit(s, rest) && (h == [] || !Contains(s, u + h))
  {
    hide Pieces, Lines, Hits, Wanted, Contains, FoundLinesFit;
    LoneHit(s, u);
    LoneWanted(s, u + h);
    GrepExact(s, rest);
    if h == [] {
      NoHits(s);
      assert u + h == u && Hits(s, [u]) + [] == Hits(s, [u]);
      SamePrefix(Hits(s, [u]), Printed(s, rest), Wanted(s, Lines(rest)));
    } else if !Contains(s, u + h) {
      PartOfMiss(s, u + h, 0, |u|);
      PartOfMiss(s, u + h, |u|, |u + h|);
      assert (u + h)[0..|u|] == u && (u + h)[|u|..|u + h|] == h;
      LinePieces(s, h);
      assert Hits(s, [u]) == [] && Hits(s, Pieces(h)) == [] && Wanted(s, [u + h]) == [];
      assert [] + [] + Printed(s, rest) == Printed(s, rest) && [] + Wanted(s, Lines(rest)) == Wanted(s, Lines(rest));
    } else {
      CutLineShows(s, u, h, rest);
    }
  }

  lemma PieceLength(f: seq<byte>)
    ensures forall p | p in Pieces(f) :: |p| <= |f|
    decreases |f|
  {
  }

  lemma CutLineShows(s: seq<byte>, u: seq<byte>, h: seq<byte>, rest: seq<byte>)
    requires s != [] && u != [] && h != [] && |u| <= BUFSIZE && Contains(s, u + h)
    ensures Hits(s, [u]) + Hits(s, Pieces(h)) + Printed(s, rest) != [u + h] + Wanted(s, Lines(rest))
  {
    hide Pieces, Lines, Hits, Wanted, Contains, FoundLinesFit;
    LoneHit(s, u);
    HitsAreLines(s, Pieces(h));
    PieceLength(h);
    var a, b := Hits(s, [u]) + Hits(s, Pieces(h)), Wanted(s, Lines(rest));
    if FoundLinesFit(s, rest) {
      GrepExact(s, rest);
      if a != [] {
        assert a[0] != u + h;
        assert (a + b)[0] == a[0];
      }
    } else {
      var line := LongLine(s, rest);
      WantedAreAll(s, Lines(rest));
      HitsAreLines(s, Pieces(rest));
      PiecesAreShort(rest);
      PiecesAreShort(h);
      assert line in [u + h] + b;
      assert line !in a + Printed(s, rest);
    }
  }

  ghost function LongLine(s: seq<byte>, f: seq<byte>): (line: seq<byte>)
    requires !FoundLinesFit(s, f)
    ensures line in Lines(f) && Contains(s, line) && |line| > BUFSIZE
  {
    var line :| line in Lines(f) && Contains(s, line) && |line| > BUFSIZE;
    line
  }

  lemma SplitFits(s: seq<byte>, a: seq<seq<byte>>, b: seq<seq<byte>>, f: seq<byte>)
    requires Lines(f) == a + b && forall line | line in a :: |line| <= BUFSIZE
    ensures FoundLinesFit(s, f) <==> Fits(s, b)
  {
  }

  lemma SamePrefix(w: seq<seq<byte>>, a: seq<seq<byte>>, b: seq<seq<byte>>)
    ensures w + a == w + b <==> a == b
  {
    assert (w + a)[|w|..] == a && (w + b)[|w|..] == b;
  }

  /** With a stale newline behind the buffer the printed lines are the right ones if and only if every line that
      contains s fits the buffer and none of them is cut by that newline. */
  lemma {:induction false} StaleExact(s: seq<byte>, f: seq<byte>)
    requires s != []
    ensures Hits(s, StalePieces(f)) == Wanted(s, Lines(f)) <==> FoundLinesFit(s, f) && Harmless(s, f)
    decreases |f|
  {
    if |f| < BUFSIZE {
      GrepExact(s, f);
    } else {
      hide Hits, Wanted, Lines, Pieces, StalePieces, FoundLinesFit, Harmless;
      if f[BUFSIZE - 1] == NEWLINE {
        StaleFullBlock(s, f);
      } else {
        StaleCutBlock(s, f);
      }
    }
  }

  /** A block that ends in a newline holds complete lines only. */
  lemma FullBlock(f: seq<byte>)
    requires |f| >= BUFSIZE && f[BUFSIZE - 1] == NEWLINE
    ensures var p, g := f[..BUFSIZE], f[BUFSIZE..];
            && StalePieces(f) == Whole(p) + StalePieces(g) && Lines(f) == Whole(p) + Lines(g)
            && forall line | line in Whole(p) :: |line| <= BUFSIZE
  {
    var p, g := f[..BUFSIZE], f[BUFSIZE..];
    assert p + g == f;
    StaleUnfold(f);
    assert Lines([]) == [];
    hide Lines, Pieces, StalePieces, Whole, Unended;
    LinesSplit(p, g);
    LinesSplit(p, []);
    UnendedShape(p);
    assert p + [] == p && [] + g == g && Whole(p) + [] == Whole(p);
  }

  lemma StaleFullBlock(s: seq<byte>, f: seq<byte>)
    requires s != [] && |f| >= BUFSIZE && f[BUFSIZE - 1] == NEWLINE
    ensures Hits(s, StalePieces(f)) == Wanted(s, Lines(f)) <==> FoundLinesFit(s, f) && Harmless(s, f)
    decreases |f|, 0
  {
    var p, g := f[..BUFSIZE], f[BUFSIZE..];
    FullBlock(f);
    assert Harmless(s, f) == Harmless(s, g);
    hide Hits, Wanted, Lines, StalePieces, Whole, Harmless;
    SplitFits(s, Whole(p), Lines(g), f);
    HitsAppend(s, Whole(p), StalePieces(g));
    WantedAppend(s, Whole(p), Lines(g));
    HitsAreWanted(s, Whole(p));
    SamePrefix(Hits(s, Whole(p)), Hits(s, StalePieces(g)), Wanted(s, Lines(g)));
    StaleExact(s, g);
  }

  lemma StaleUnfold(f: seq<byte>)
    requires |f| >= BUFSIZE
    ensures StalePieces(f) == Lines(f[..BUFSIZE]) + Cut(f[BUFSIZE - 1] == NEWLINE, f[BUFSIZE..])
  {
  }

  /** A block that does not end in a newline: complete lines, then one that runs on into g. */
  lemma CutBlock(f: seq<byte>)
    requires |f| >= BUFSIZE && f[BUFSIZE - 1] != NEWLINE
    ensures var p, g := f[..BUFSIZE], f[BUFSIZE..];
            var u, h, rest := Unended(p), FirstLine(g), AfterLine(g);
            && u != [] && |u| <= BUFSIZE && (forall i | 0 <= i < |h| :: h[i] != NEWLINE)
            && StalePieces(f) == Whole(p) + [u] + Pieces(g)
            && Lines(f) == Whole(p) + ([u + h] + Lines(rest))
            && forall line | line in Whole(p) :: |line| <= BUFSIZE
  {
    var p, g := f[..BUFSIZE], f[BUFSIZE..];
    assert p + g == f;
    StaleUnfold(f);
    hide Lines, Pieces, StalePieces, Whole, Unended, FirstLine, AfterLine;
    LinesSplit(p, g);
    LinesSplit(p, []);
    assert p + [] == p && Unended(p) + [] == Unended(p);
    UnendedShape(p);
    FirstLineIs(g);
    JoinedLine(Unended(p), g);
  }

  lemma StaleCutBlock(s: seq<byte>, f: seq<byte>)
    requires s != [] && |f| >= BUFSIZE && f[BUFSIZE - 1] != NEWLINE
    ensures Hits(s, StalePieces(f)) == Wanted(s, Lines(f)) <==> FoundLinesFit(s, f) && Harmless(s, f)
  {
    var p, g := f[..BUFSIZE], f[BUFSIZE..];
    var u, h, w, rest := Unended(p), FirstLine(g), Whole(p), AfterLine(g);
    CutBlock(f);
    assert Harmless(s, f) <==> h == [] || !Contains(s, u + h);
    hide Hits, Wanted, Lines, Pieces, StalePieces, Whole, Unended, FirstLine, AfterLine, Contains, Harmless;
    CutLine(s, u, h, rest);
    CutHits(s, w, u, g);
    CutWanted(s, w, u + h, Lines(rest));
    SamePrefix(Hits(s, w), Hits(s, [u]) + Hits(s, Pieces(h)) + Printed(s, rest),
               Wanted(s, [u + h]) + Wanted(s, Lines(rest)));
    SplitFits(s, w, [u + h] + Lines(rest), f);
    assert h == [] ==> u + h == u;
  }

  lemma CutHits(s: seq<byte>, w: seq<seq<byte>>, u: seq<byte>, g: seq<byte>)
    ensures Hits(s, w + [u] + Pieces(g))
         == Hits(s, w) + (Hits(s, [u]) + Hits(s, Pieces(FirstLine(g))) + Printed(s, AfterLine(g)))
  {
    hide Hits, Pieces, FirstLine, AfterLine;
    HitsOfTail(s, g);
    HitsAppend(s, w + [u], Pieces(g));
    HitsAppend(s, w, [u]);
  }

  lemma CutWanted(s: seq<byte>, w: seq<seq<byte>>, line: seq<byte>, rest: seq<seq<byte>>)
    requires s != []
    ensures Wanted(s, w + ([line] + rest)) == Hits(s, w) + (Wanted(s, [line]) + Wanted(s, rest))
  {
    hide Hits, Wanted;
    WantedAppend(s, w, [line] + rest);
    WantedAppend(s, [line], rest);
    HitsAreWanted(s, w);
  }

  lemma HitsOfTail(s: seq<byte>, g: seq<byte>)
    ensures Hits(s, Pieces(g)) == Hits(s, Pieces(FirstLine(g))) + Printed(s, AfterLine(g))
  {
    if g == [] {
      NoHits(s);
    } else {
      PiecesOfFirstLine(s, g);
    }
  }

  // ----- The bytes written, for files without a NUL and for those whose reads hand out a NUL behind the text.

  lemma PiecesHoldNoNul(f: seq<byte>)
    requires NulFree(f)
    ensures forall p, i | p in Pieces(f) && 0 <= i < |p| :: p[i] != NUL
    decreases |f|
  {
  }

  lemma LinesHoldNoNul(f: seq<byte>)
    requires NulFree(f)
    ensures forall p, i | p in Lines(f) && 0 <= i < |p| :: p[i] != NUL
    decreases |f|
  {
  }

  lemma {:induction false} StalePiecesHoldNoNul(f: seq<byte>)
    requires NulFree(f)
    ensures forall p, i | p in StalePieces(f) && 0 <= i < |p| :: p[i] != NUL
    decreases |f|
  {
    hide Pieces, Lines;
    PiecesHoldNoNul(f);
    if |f| >= BUFSIZE {
      LinesHoldNoNul(f[..BUFSIZE]);
      PiecesHoldNoNul(f[BUFSIZE..]);
      StalePiecesHoldNoNul(f[BUFSIZE..]);
    }
  }

  lemma CutNulFree(stale: bool, f: seq<byte>)
    requires NulFree(f)
    ensures forall p | p in Cut(stale, f) :: NulFree(p)
  {
    hide Pieces, StalePieces;
    PiecesHoldNoNul(f);
    StalePiecesHoldNoNul(f);
  }

  lemma TextOfNulFree(p: seq<byte>)
    requires NulFree(p)
    ensures TextOf(p) == p && TextOf(p + [NUL]) == p
  {
    TextEnds(p, |p|);
    TextEnds(p + [NUL], |p|);
  }

  lemma RenderCons(fname: seq<byte>, s: seq<byte>, p: seq<byte>, rest: seq<seq<byte>>)
    requires NulFree(p)
    ensures Render(fname, Hits(s, [p] + rest)) == Shown(fname, s, p) + Render(fname, Hits(s, rest))
  {
    TextOfNulFree(p);
    HitsCons(s, p, rest);
    hide TextOf, Contains, Hits;
    RenderAppend(fname, if Hit(s, p) then [p] else [], Hits(s, rest));
    assert Render(fname, [p]) == fname + [COLON] + p + [NEWLINE];
  }

  lemma {:induction false} OutputIsRender(fname: seq<byte>, s: seq<byte>, pieces: seq<seq<byte>>)
    requires forall p | p in pieces :: NulFree(p)
    ensures Output(fname, s, pieces) == Render(fname, Hits(s, pieces))
  {
    if pieces != [] {
      hide Shown, Hits, NulFree;
      OutputIsRender(fname, s, pieces[1..]);
      RenderCons(fname, s, pieces[0], pieces[1..]);
      assert [pieces[0]] + pieces[1..] == pieces;
    }
  }

  /** When the bytes written for a NUL-free text are those of the lines that contain s. */
  lemma OutputExact(stale: bool, fname: seq<byte>, s: seq<byte>, text: seq<byte>)
    requires NulFree(text) && forall i | 0 <= i < |fname| :: fname[i] != NEWLINE
    ensures RestFor(stale, fname, s, text) == Render(fname, Wanted(s, Lines(text)))
            <==> if s == [] then text == [] else FoundLinesFit(s, text) && (stale ==> Harmless(s, text))
  {
    var pieces := Cut(stale, text);
    CutNulFree(stale, text);
    OutputIsRender(fname, s, pieces);
    GrepExact(s, text);
    StalePiecesHoldNoNewline(text);
    PiecesHoldNoNewline(text);
    RenderedHits(fname, s, text, pieces);
    hide Hits, Wanted, Lines, Pieces, StalePieces, FoundLinesFit, Harmless, Contains;
    if s == [] {
      NothingForEmptyPattern(pieces);
      NothingForEmptyPattern(Pieces(text));
    } else {
      StaleExact(s, text);
    }
  }

  lemma StalePiecesHoldNoNewline(f: seq<byte>)
    ensures forall p, i | p in StalePieces(f) && 0 <= i < |p| :: p[i] != NEWLINE
    decreases |f|
  {
    PiecesHoldNoNewline(f);
    if |f| >= BUFSIZE {
      PiecesHoldNoNewline(f[BUFSIZE..]);
      LinesHoldNoNewline(f[..BUFSIZE]);
    }
  }

  /** The last piece of a text, if it has no newline and is shorter than the buffer; otherwise empty. */
  function LastPiece(f: seq<byte>): seq<byte>
    decreases |f|
  {
    if LineEnd(f) >= BUFSIZE then LastPiece(f[BUFSIZE..])
    else if LineEnd(f) < |f| then LastPiece(f[LineEnd(f) + 1..])
    else f
  }

  function StaleLastPiece(f: seq<byte>): seq<byte>
    decreases |f|
  {
    if |f| < BUFSIZE then LastPiece(f)
    else if f[BUFSIZE - 1] == NEWLINE then StaleLastPiece(f[BUFSIZE..])
    else LastPiece(f[BUFSIZE..])
  }

  /** What a NUL at the end of a piece adds to what is written: nothing, but for an empty pattern, which is found
      at the NUL. */
  ghost function AtNul(fname: seq<byte>, s: seq<byte>, piece: seq<byte>): seq<byte>
  {
    if s == [] then fname + [COLON] + piece + [NEWLINE] else []
  }

  lemma ShownAtNul(fname: seq<byte>, s: seq<byte>, p: seq<byte>)
    requires NulFree(s) && NulFree(p)
    ensures Shown(fname, s, p + [NUL]) == Shown(fname, s, p) + AtNul(fname, s, p)
  {
    TextOfNulFree(p);
    var q := p + [NUL];
    if s != [] {
      if Contains(s, p) {
        var i :| MatchesAt(s, p, i);
        assert MatchesAt(s, q, i);
      }
      if Contains(s, q) {
        var i :| MatchesAt(s, q, i);
        assert q[i..i + |s|][|s| - 1] == s[|s| - 1] != NUL;
        assert MatchesAt(s, p, i);
      }
    } else {
      assert q[|p|] == NUL;
    }
  }

  lemma {:induction false} PiecesWithNul(fname: seq<byte>, s: seq<byte>, text: seq<byte>)
    requires NulFree(s) && NulFree(text)
    ensures Rest(fname, s, text + [NUL]) == Rest(fname, s, text) + AtNul(fname, s, LastPiece(text))
    decreases |text|
  {
    var e := LineEnd(text);
    hide Rest, AtNul, LineEnd;
    if e >= BUFSIZE {
      FullBufferWithNul(fname, s, text);
      PiecesWithNul(fname, s, text[BUFSIZE..]);
    } else if e < |text| {
      LineWithNul(fname, s, text, e);
      PiecesWithNul(fname, s, text[e + 1..]);
    } else {
      RestLast(fname, s, text);
      RestLast(fname, s, text + [NUL]);
      ShownAtNul(fname, s, text);
    }
  }

  lemma FullBufferWithNul(fname: seq<byte>, s: seq<byte>, text: seq<byte>)
    requires LineEnd(text) >= BUFSIZE
    ensures Rest(fname, s, text) == Shown(fname, s, text[..BUFSIZE]) + Rest(fname, s, text[BUFSIZE..])
    ensures Rest(fname, s, text + [NUL])
         == Shown(fname, s, text[..BUFSIZE]) + Rest(fname, s, text[BUFSIZE..] + [NUL])
  {
    hide Rest, Shown, LineEnd;
    var f := text + [NUL];
    assert f[..BUFSIZE] == text[..BUFSIZE] && f[BUFSIZE..] == text[BUFSIZE..] + [NUL];
    RestAfterFullBuffer(fname, s, text);
    RestAfterFullBuffer(fname, s, f);
  }

  lemma LineWithNul(fname: seq<byte>, s: seq<byte>, text: seq<byte>, e: nat)
    requires e < |text| && e < BUFSIZE && text[e] == NEWLINE && forall i | 0 <= i < e :: text[i] != NEWLINE
    ensures Rest(fname, s, text) == Shown(fname, s, text[..e]) + Rest(fname, s, text[e + 1..])
    ensures Rest(fname, s, text + [NUL]) == Shown(fname, s, text[..e]) + Rest(fname, s, text[e + 1..] + [NUL])
  {
    hide Rest, Shown;
    var f := text + [NUL];
    assert f[..e] == text[..e] && f[e + 1..] == text[e + 1..] + [NUL];
    RestAfterLine(fname, s, text, e);
    RestAfterLine(fname, s, f, e);
  }

  lemma {:induction false} ShortLinesArePieces(f: seq<byte>)
    requires |f| <= BUFSIZE
    ensures Lines(f) == Pieces(f)
    decreases |f|
  {
    if f != [] && LineEnd(f) < BUFSIZE {
      ShortLinesArePieces(AfterLine(f));
    }
  }

  lemma {:induction false} StalePiecesWithNul(fname: seq<byte>, s: seq<byte>, text: seq<byte>)
    requires NulFree(s) && NulFree(text)
    ensures Output(fname, s, StalePieces(text + [NUL]))
         == Output(fname, s, StalePieces(text)) + AtNul(fname, s, StaleLastPiece(text))
    decreases |text|
  {
    var f := text + [NUL];
    hide Output, AtNul, Pieces, Lines, StalePieces;
    if |text| < BUFSIZE {
      PiecesWithNul(fname, s, text);
      StaleShort(text);
      StaleShort(f);
    } else {
      var p, g := text[..BUFSIZE], text[BUFSIZE..];
      assert f[..BUFSIZE] == p && f[BUFSIZE..] == g + [NUL];
      StaleUnfold(f);
      StaleUnfold(text);
      PiecesWithNul(fname, s, g);
      StalePiecesWithNul(fname, s, g);
      OutputAppend(fname, s, Lines(p), Cut(p[BUFSIZE - 1] == NEWLINE, g));
      OutputAppend(fname, s, Lines(p), Cut(p[BUFSIZE - 1] == NEWLINE, g + [NUL]));
    }
  }

  lemma StaleShort(f: seq<byte>)
    requires |f| < BUFSIZE || (|f| == BUFSIZE && f[BUFSIZE - 1] != NEWLINE)
    ensures StalePieces(f) == Pieces(f)
  {
    if |f| == BUFSIZE {
      ShortLinesArePieces(f);
      assert f[..BUFSIZE] == f && f[BUFSIZE..] == [] && Pieces(f) + [] == Pieces(f);
    }
  }

  /** The kernel's reads hand out one byte behind the end of a file.  When that byte is a NUL it does not show,
      unless the pattern is empty: then the piece it ends, or an empty one, is printed and nothing else. */
  lemma NulBehindText(stale: bool, fname: seq<byte>, s: seq<byte>, text: seq<byte>)
    requires NulFree(s) && NulFree(text)
    ensures NulsEndLines(text + [NUL])
    ensures s != [] ==> RestFor(stale, fname, s, text + [NUL]) == RestFor(stale, fname, s, text)
    ensures RestFor(stale, fname, [], text + [NUL])
         == fname + [COLON] + (if stale then StaleLastPiece(text) else LastPiece(text)) + [NEWLINE]
  {
    PiecesWithNul(fname, s, text);
    StalePiecesWithNul(fname, s, text);
    PiecesWithNul(fname, [], text);
    StalePiecesWithNul(fname, [], text);
    CutNulFree(stale, text);
    OutputIsRender(fname, [], Cut(stale, text));
    NothingForEmptyPattern(Cut(stale, text));
  }

  // ----- The stale newline on one input.

  const LETTER: byte := 97

  lemma LettersLine(n: nat)
    requires n > 0
    ensures Lines(Repeat(LETTER, n)) == [Repeat(LETTER, n)]
    ensures n < BUFSIZE ==> Pieces(Repeat(LETTER, n)) == [Repeat(LETTER, n)]
    ensures Contains([LETTER], Repeat(LETTER, n))
  {
    var f := Repeat(LETTER, n);
    LineEndIs(f, n);
    assert f[..n] == f;
    assert MatchesAt([LETTER], f, 0);
  }

  lemma AfterFirstNewline(g: seq<byte>)
    ensures Lines([NEWLINE] + g) == [[]] + Lines(g)
  {
  }

  /** Why that byte matters: an empty line and then one of BUFSIZE letters, all of which fit, are printed right
      without a stale newline and as two shorter lines with it. */
  lemma StaleNewlineSplitsALine()
    ensures var f := [NEWLINE] + Repeat(LETTER, BUFSIZE);
            && Printed([LETTER], f) == Wanted([LETTER], Lines(f))
            && Hits([LETTER], StalePieces(f)) != Wanted([LETTER], Lines(f))
  {
    hide Hits, Wanted, Printed, Contains, Pieces, Lines, StalePieces;
    var s, g := [LETTER], Repeat(LETTER, BUFSIZE);
    LettersLine(BUFSIZE);
    LettersLine(BUFSIZE - 1);
    LettersLine(1);
    AfterFirstNewline(g);
    assert FoundLinesFit(s, [NEWLINE] + g);
    GrepExact(s, [NEWLINE] + g);
    StaleLetters();
    HitsThree(s, Repeat(LETTER, BUFSIZE - 1), Repeat(LETTER, 1));
    assert [[]] + [g] == [[], g];
    WantedTwo(s, g);
  }

  lemma StaleLetters()
    ensures StalePieces([NEWLINE] + Repeat(LETTER, BUFSIZE)) == [[], Repeat(LETTER, BUFSIZE - 1), Repeat(LETTER, 1)]
  {
    hide Lines, Pieces;
    var short := Repeat(LETTER, BUFSIZE - 1);
    var f := [NEWLINE] + Repeat(LETTER, BUFSIZE);
    assert f[..BUFSIZE] == [NEWLINE] + short && f[BUFSIZE..] == Repeat(LETTER, 1);
    AfterFirstNewline(short);
    LettersLine(BUFSIZE - 1);
    LettersLine(1);
    assert [[]] + [short] + [Repeat(LETTER, 1)] == [[], short, Repeat(LETTER, 1)];
  }

  lemma HitsThree(s: seq<byte>, a: seq<byte>, b: seq<byte>)
    requires s != [] && Contains(s, a) && Contains(s, b)
    ensures |Hits(s, [[], a, b])| == 2
  {
    NoMatchInEmpty(s);
    assert [[], a, b][1..] == [a, b] && [a, b][1..] == [b] && [b][1..] == [];
    assert Hits(s, [b]) == [b] + Hits(s, []);
    assert Hits(s, [a, b]) == [a] + Hits(s, [b]);
  }

  lemma NoMatchInEmpty(s: seq<byte>)
    requires s != []
    ensures !Contains(s, [])
  {
  }

  lemma WantedTwo(s: seq<byte>, g: seq<byte>)
    requires s != [] && Contains(s, g)
    ensures Wanted(s, [[], g]) == [g]
  {
    NoMatchInEmpty(s);
    assert [[], g][1..] == [g] && [g][1..] == [];
    assert Wanted(s, [g]) == [g] + Wanted(s, []);
  }
}
