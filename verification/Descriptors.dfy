/** What a process can rely on of its descriptors: what open, read and close do to them, and when they survive the
    start and the end of another program. */
module Descriptors {
  import opened Bytes
  import opened FileSystem
  import opened Processes
  import opened ProcessRuns

  // ----- Exactly when the caller's descriptors survive.

  /** The closing loop leaves the latest process alone when it has nothing open. */
  lemma {:induction false} ClosedQuiet(k: Kernel, gone: int, n: int)
    requires Shaped(k) && 0 <= gone < PROCESS_LIMIT && FIRST_FD <= n <= MAX_OPEN_FILES && gone != LatestPid(k)
    requires |k.pcbs[LatestPid(k)].fds| == MAX_OPEN_FILES && Quiet(k.pcbs[LatestPid(k)].fds, MAX_OPEN_FILES)
    ensures ClosedUpTo(k, gone, n).pcbs[LatestPid(k)].fds == k.pcbs[LatestPid(k)].fds
  {
    if n > FIRST_FD {
      ClosedQuiet(k, gone, n - 1);
    }
  }

  /** The closing loop keeps the descriptors of the latest process exactly when none was active. */
  lemma ClosedExact(k: Kernel, gone: int)
    requires Shaped(k) && 0 <= gone < PROCESS_LIMIT && gone != LatestPid(k)
    requires k.pidArr[gone] == 0 && FdOk(k.pcbs[gone].fds)
    requires forall p | 0 <= p < PROCESS_LIMIT && p != gone :: PcbHolds(k.pidArr[p], k.pcbs[p].fds)
    ensures ClosedUpTo(k, gone, MAX_OPEN_FILES).pcbs[LatestPid(k)].fds == k.pcbs[LatestPid(k)].fds
            <==> Quiet(k.pcbs[LatestPid(k)].fds, MAX_OPEN_FILES)
  {
    KernelShape(k);
    ClosedFdsHold(k, gone);
    if Quiet(k.pcbs[LatestPid(k)].fds, MAX_OPEN_FILES) {
      ClosedQuiet(k, gone, MAX_OPEN_FILES);
    }
  }

  /** Starting a process touches no other one. */
  lemma StartedOthers(k: Kernel, parse: Parse, q: int)
    requires Shaped(k) && LowestFree(k.pidArr) < PROCESS_LIMIT
    requires 0 <= q < PROCESS_LIMIT && q != LowestFree(k.pidArr)
    ensures Parsed(Started(k), parse).pcbs[q] == k.pcbs[q]
  {
    StartedLatest(k);
  }

  lemma StartedLatest(k: Kernel)
    requires Shaped(k) && LowestFree(k.pidArr) < PROCESS_LIMIT
    ensures LatestPid(Started(k)) == LowestFree(k.pidArr)
  {
  }

  /** execute leaves its caller's descriptors as they were if and only if it succeeds, finds no free pid, or the
      caller had none active. */
  lemma ExecuteKeepsCaller(k: Kernel, st: Stacks, parse: Parse)
    requires Shaped(k) && Holds(k, st) && FdsHold(k)
    ensures Executed(k, parse).pcbs[LatestPid(k)].fds == k.pcbs[LatestPid(k)].fds
            <==> parse.Accepted? || LowestFree(k.pidArr) == PROCESS_LIMIT
                 || Quiet(k.pcbs[LatestPid(k)].fds, MAX_OPEN_FILES)
  {
    var pid, l := LowestFree(k.pidArr), LatestPid(k);
    if pid < PROCESS_LIMIT {
      LatestFacts(k, st);
      StartedParent(k, st, parse);
      StartedOthers(k, parse, l);
      StartedFds(k);
      var a := Parsed(Started(k), parse);
      ParsedFds(Started(k), parse);
      hide Started, Parsed, FdOk, StdOk, Quiet, ClosedUpTo, Holds, Shaped;
      if !parse.Accepted? {
        UnassignedFds(a, pid);
        UnassignedLatest(a, pid);
        ClosedExact(PidUnassigned(a, pid, a.pcbs[pid].parentPid), pid);
      }
    }
  }

  /** halt leaves the descriptors of the process it returns to as they were if and only if none was active. */
  lemma HaltKeepsParent(k: Kernel, st: Stacks, shell: Parse)
    requires Shaped(k) && Holds(k, st) && FdsHold(k) && |st| == MAX_TERMINALS && |st[Term(k)]| > 1
    ensures var parent := st[Term(k)][|st[Term(k)]| - 2];
            && 0 <= parent < PROCESS_LIMIT && |k.pcbs[parent].fds| == MAX_OPEN_FILES
            && (Halted(k, shell).pcbs[parent].fds == k.pcbs[parent].fds
                <==> Quiet(k.pcbs[parent].fds, MAX_OPEN_FILES))
  {
    var p := LatestPid(k);
    LatestFacts(k, st);
    KernelShape(k);
    var parent := k.pcbs[p].parentPid;
    var u := PidUnassigned(k, p, parent);
    UnassignedFds(k, p);
    UnassignedLatest(k, p);
    hide FdOk, Quiet, StdOk, ClosedUpTo, Holds;
    ClosedExact(u, p);
    var c := ClosedUpTo(u, p, MAX_OPEN_FILES);
    assert Halted(k, shell) == c.(pcbs := c.pcbs[p := c.pcbs[p].(pid := parent)]);
  }

  /** The descriptor of a new process that looking at its program has used, the one numbered by its pid, is on the
      program's inode and behind the bytes that were read. */
  lemma ProgramDescriptor(k: Kernel, parse: Parse)
    requires Shaped(k) && parse.Accepted? && LowestFree(k.pidArr) < PROCESS_LIMIT
    ensures var p, r := LowestFree(k.pidArr), Executed(k, parse);
            && |r.pcbs| == PROCESS_LIMIT && |r.pcbs[p].fds| == MAX_OPEN_FILES && LatestPid(r) == p
            && r.pcbs[p].fds[p].inode == parse.inode && r.pcbs[p].fds[p].position == parse.got
  {
    StartedPosition(k);
  }

  // ----- What a descriptor is on.

  /** The jump table of a new descriptor: the clock for an entry of type 0, the directory for type 1, a file for
      type 2, on the entry's inode and at its start. */
  lemma OpenedTable(fds: seq<Fd>, name: seq<byte>, found: Lookup)
    requires FdOk(fds) && StdOk(fds)
    ensures var r := Opened(fds, name, found);
            r.ret != -1 ==>
              && found.Some? && FIRST_FD <= r.ret < MAX_OPEN_FILES
              && r.fds[r.ret].inode == found.entry.inode && r.fds[r.ret].position == 0 && r.fds[r.ret].active
              && (found.entry.fileType == 0 ==> r.fds[r.ret].ops == Rtc)
              && (found.entry.fileType == 1 ==> r.fds[r.ret].ops == Dir)
              && (found.entry.fileType == 2 ==> r.fds[r.ret].ops == File)
  {
    OpenAllocates(fds, name, found);
  }

  /** What a process reads from what it has just opened: a file from its first byte on, laid out block by block, or
      the name of the first entry of the directory; and only the position of that descriptor moves. */
  lemma OpenThenRead(m: Image, fds: seq<Fd>, name: seq<byte>, entry: Dentry, n: nat)
    requires FdOk(fds) && StdOk(fds) && Opened(fds, name, Some(entry)).ret != -1 && FileOk(m, entry.inode)
    requires 1 <= entry.fileType <= 2 && NAME_LEN <= n
    ensures var r := Opened(fds, name, Some(entry));
            && CanRead(m, r.fds, r.ret, n) && entry.inode < |m.inodes|
            && var got := ReadThrough(m, r.fds, r.ret, n);
               && got.Got? && got.fds == r.fds[r.ret := r.fds[r.ret].(position := got.fds[r.ret].position)]
               && (entry.fileType == 2 ==>
                     got.bytes == ReadAt(m, entry.inode, 0, n) && got.fds[r.ret].position == |got.bytes|)
               && (entry.fileType == 1 ==>
                     && got.bytes == (if m.entries == [] then [] else NameOf(m.entries[0].fname))
                     && got.fds[r.ret].position == if m.entries == [] then 0 else 1)
  {
    OpenedTable(fds, name, Some(entry));
    OpenAllocates(fds, name, Some(entry));
    ValidInode(m, entry.inode);
    hide Opened, ReadAt, FdOk, StdOk;
  }

  lemma ReadAtAdds(m: Image, inode: nat, position: nat, a: nat, b: nat)
    requires FileOk(m, inode)
    ensures var first := ReadAt(m, inode, position, a);
            first + ReadAt(m, inode, position + |first|, b) == ReadAt(m, inode, position, a + b)
  {
    hide Slice, Readable, FileOk;
    var first := ReadAt(m, inode, position, a);
    SliceAdd(Readable(m, inode), position, a, b);
    assert first + [] == first;
  }

  lemma ReadableFile(m: Image, fds: seq<Fd>, fd: int, n: nat)
    requires CanRead(m, fds, fd, n) && FIRST_FD <= fd < MAX_OPEN_FILES && fds[fd].active && fds[fd].ops == File
    ensures ImageOk(m) && |fds| == MAX_OPEN_FILES && FileOk(m, fds[fd].inode)
  {
    hide FileOk;
  }

  lemma FileRead(m: Image, fds: seq<Fd>, fd: int, n: nat, position: nat)
    requires ImageOk(m) && |fds| == MAX_OPEN_FILES && FIRST_FD <= fd < MAX_OPEN_FILES
    requires fds[fd].active && fds[fd].ops == File && FileOk(m, fds[fd].inode)
    ensures var at := fds[fd := fds[fd].(position := position)];
            var bytes := ReadAt(m, fds[fd].inode, position, n);
            CanRead(m, at, fd, n)
            && ReadThrough(m, at, fd, n) == Got(bytes, fds[fd := fds[fd].(position := position + |bytes|)])
  {
    hide ReadAt, FileOk;
  }

  /** Two reads of an open file are one, through the descriptor too. */
  lemma ReadTwice(m: Image, fds: seq<Fd>, fd: int, a: nat, b: nat)
    requires CanRead(m, fds, fd, a) && FIRST_FD <= fd < MAX_OPEN_FILES && fds[fd].active && fds[fd].ops == File
    ensures var first := ReadThrough(m, fds, fd, a);
            && first.Got? && CanRead(m, first.fds, fd, b) && CanRead(m, fds, fd, a + b)
            && var second, both := ReadThrough(m, first.fds, fd, b), ReadThrough(m, fds, fd, a + b);
               second.Got? && both.Got? && first.bytes + second.bytes == both.bytes && second.fds == both.fds
  {
    hide ReadAt, FileOk, ReadThrough, CanRead;
    ReadableFile(m, fds, fd, a);
    var item := fds[fd];
    ReadAtAdds(m, item.inode, item.position, a, b);
    var one := ReadAt(m, item.inode, item.position, a);
    FileRead(m, fds, fd, a, item.position);
    FileRead(m, fds, fd, a + b, item.position);
    FileRead(m, fds, fd, b, item.position + |one|);
    assert fds[fd := item.(position := item.position)] == fds;
  }

  // ----- A run that loses a descriptor.

  /** The calls of a process that opens a file and then starts a program. */
  function OpenThen(name: seq<byte>, entry: Dentry, parse: Parse): seq<Call>
  {
    [OpenFile(name, Some(entry)), Execute(parse)]
  }

  lemma RunCons(k: Kernel, c: Call, rest: seq<Call>)
    requires Shaped(k) && Proper(c) && forall x | x in rest :: Proper(x)
    ensures Run(k, [c] + rest) == Run(Step(k, c), rest) && Run(k, []) == k
  {
    assert ([c] + rest)[1..] == rest;
    hide Step, Shaped;
  }

  lemma RunOpenThen(k: Kernel, name: seq<byte>, entry: Dentry, parse: Parse, shell: Parse)
    requires Shaped(k) && shell.Accepted?
    ensures var open, calls := OpenFile(name, Some(entry)), OpenThen(name, entry, parse);
            && Run(k, [open]) == Step(k, open)
            && Run(k, calls) == Step(Step(k, open), Execute(parse))
            && Run(k, calls + [Halt(shell)]) == Step(Step(Step(k, open), Execute(parse)), Halt(shell))
  {
    hide Step, Shaped, Run;
    var open, execute, halt := OpenFile(name, Some(entry)), Execute(parse), Halt(shell);
    var r := Step(k, open);
    var t := Step(r, execute);
    RunCons(k, open, []);
    RunCons(k, open, [execute]);
    RunCons(k, open, [execute, halt]);
    RunCons(r, execute, []);
    RunCons(r, execute, [halt]);
    RunCons(t, halt, []);
    RunCons(Step(t, halt), halt, []);
    assert [open] + [] == [open] && [open] + [execute] == OpenThen(name, entry, parse);
    assert [open] + [execute, halt] == OpenThen(name, entry, parse) + [halt];
    assert [execute] + [] == [execute] && [execute] + [halt] == [execute, halt] && [halt] + [] == [halt];
  }

  lemma OpenedActive(fds: seq<Fd>, name: seq<byte>, entry: Dentry)
    requires FdOk(fds) && StdOk(fds) && Openable(name, Some(entry))
    requires ActiveCount(fds, MAX_OPEN_FILES) < MAX_OPEN_FILES - FIRST_FD
    ensures var r := Opened(fds, name, Some(entry));
            FIRST_FD <= r.ret < MAX_OPEN_FILES && r.fds[r.ret].active && FdOk(r.fds) && StdOk(r.fds)
  {
    OpenAllocates(fds, name, Some(entry));
  }

  lemma WithFdsFacts(k: Kernel, p: int, fds: seq<Fd>)
    requires Shaped(k) && 0 <= p < PROCESS_LIMIT && |fds| == MAX_OPEN_FILES
    ensures var r := WithFds(k, p, fds);
            && r.pidArr == k.pidArr && LatestPid(r) == LatestPid(k) && Term(r) == Term(k)
            && |r.pcbs| == PROCESS_LIMIT && r.pcbs[p].fds == fds
  {
  }

  lemma OpenedLatest(k: Kernel, st: Stacks, name: seq<byte>, entry: Dentry)
    requires Shaped(k) && Holds(k, st) && FdsHold(k) && CanOpen(k, name, entry)
    ensures var fd, r := FdOpened(k, name, entry), Step(k, OpenFile(name, Some(entry)));
            && FIRST_FD <= fd < MAX_OPEN_FILES && r.pidArr == k.pidArr && LatestPid(r) == LatestPid(k)
            && IsActive(r, LatestPid(k), fd, true) && Holds(r, st) && FdsHold(r) && Term(r) == Term(k)
  {
    var l := LatestPid(k);
    var fds := Opened(k.pcbs[l].fds, name, Some(entry)).fds;
    LatestQuiet(k, st);
    assert Step(k, OpenFile(name, Some(entry))) == WithFds(k, l, fds);
    WithFdsFacts(k, l, fds);
    hide Opened, Holds, FdsHold, ActiveCount, Openable, FdOk, StdOk, WithFds, Step, Shaped, LatestPid;
    OpenedActive(k.pcbs[l].fds, name, entry);
    ReplacedHolds(k, st, l, fds);
    ReplacedFds(k, l, fds);
  }

  ghost predicate IsActive(k: Kernel, p: int, fd: int, active: bool)
  {
    0 <= p < |k.pcbs| && 0 <= fd < |k.pcbs[p].fds| && k.pcbs[p].fds[fd].active == active
  }

  lemma QuietAt(k: Kernel, p: int, fd: int)
    requires Shaped(k) && 0 <= p < PROCESS_LIMIT && FIRST_FD <= fd < MAX_OPEN_FILES
    requires |k.pcbs[p].fds| == MAX_OPEN_FILES && Quiet(k.pcbs[p].fds, MAX_OPEN_FILES)
    ensures IsActive(k, p, fd, false)
  {
  }

  /** The process that runs can open this entry. */
  ghost predicate CanOpen(k: Kernel, name: seq<byte>, entry: Dentry)
    requires Shaped(k)
  {
    && Openable(name, Some(entry)) && |k.pcbs[LatestPid(k)].fds| == MAX_OPEN_FILES
    && ActiveCount(k.pcbs[LatestPid(k)].fds, MAX_OPEN_FILES) < MAX_OPEN_FILES - FIRST_FD
  }

  function FdOpened(k: Kernel, name: seq<byte>, entry: Dentry): int
    requires Shaped(k)
  {
    Opened(k.pcbs[LatestPid(k)].fds, name, Some(entry)).ret
  }

  /** The process that runs opens a descriptor, and loses it by starting a program: at once when there is no such
      program, and when the program halts otherwise. */
  ghost predicate Loses(k: Kernel, name: seq<byte>, entry: Dentry, program: Parse, shell: Parse)
    requires Shaped(k) && shell.Accepted?
  {
    var l, fd, calls := LatestPid(k), FdOpened(k, name, entry), OpenThen(name, entry, program);
    && FIRST_FD <= fd < MAX_OPEN_FILES
    && IsActive(Run(k, [OpenFile(name, Some(entry))]), l, fd, true)
    && IsActive(Run(k, OpenThen(name, entry, Rejected)), l, fd, false)
    && IsActive(Run(k, calls), l, fd, true)
    && IsActive(Run(k, calls + [Halt(shell)]), l, fd, false)
  }

  /** Any process that opens a file and then starts a program loses the descriptor. */
  lemma DescriptorLost(k: Kernel, st: Stacks, name: seq<byte>, entry: Dentry, program: Parse, shell: Parse)
    requires Shaped(k) && Holds(k, st) && FdsHold(k) && LowestFree(k.pidArr) < PROCESS_LIMIT
    requires CanOpen(k, name, entry) && program.Accepted? && shell.Accepted?
    ensures Loses(k, name, entry, program, shell)
  {
    hide Run, OpenThen, CanOpen, Holds, FdsHold, Shaped, Step, Executed, Halted, LatestPid, FdOpened;
    var r := Step(k, OpenFile(name, Some(entry)));
    OpenedLatest(k, st, name, entry);
    RunOpenThen(k, name, entry, program, shell);
    RunOpenThen(k, name, entry, Rejected, shell);
    OpenStep(k, name, entry, program, shell);
    LostAtOnce(r, st, FdOpened(k, name, entry));
    KeptByStart(r, st, FdOpened(k, name, entry), program);
    LostAtHalt(r, st, FdOpened(k, name, entry), program, shell);
  }

  /** The steps of the three runs. */
  lemma OpenStep(k: Kernel, name: seq<byte>, entry: Dentry, program: Parse, shell: Parse)
    requires Shaped(k) && shell.Accepted?
    ensures var r := Step(k, OpenFile(name, Some(entry)));
            && Step(r, Execute(Rejected)) == Executed(r, Rejected) && Step(r, Execute(program)) == Executed(r, program)
            && Step(Executed(r, program), Halt(shell)) == Halted(Executed(r, program), shell)
  {
    hide Executed, Halted;
  }

  lemma LostAtOnce(r: Kernel, st: Stacks, fd: int)
    requires Shaped(r) && Holds(r, st) && FdsHold(r) && LowestFree(r.pidArr) < PROCESS_LIMIT
    requires FIRST_FD <= fd < MAX_OPEN_FILES
    ensures IsActive(Executed(r, Rejected), LatestPid(r), fd, false)
  {
    FailedExecuteClosesCaller(r, st, Rejected);
    hide Holds, FdsHold, Executed, Shaped, LatestPid, Quiet, IsActive;
    KernelShape(r);
    KernelShape(Executed(r, Rejected));
    QuietAt(Executed(r, Rejected), LatestPid(r), fd);
  }

  lemma KeptByStart(r: Kernel, st: Stacks, fd: int, program: Parse)
    requires Shaped(r) && Holds(r, st) && FdsHold(r) && program.Accepted? && IsActive(r, LatestPid(r), fd, true)
    ensures IsActive(Executed(r, program), LatestPid(r), fd, true)
  {
    ExecuteKeepsCaller(r, st, program);
    hide Holds, FdsHold, Executed, Shaped, LatestPid, Quiet;
    KernelShape(r);
    KernelShape(Executed(r, program));
  }

  lemma LostAtHalt(r: Kernel, st: Stacks, fd: int, program: Parse, shell: Parse)
    requires Shaped(r) && Holds(r, st) && FdsHold(r) && LowestFree(r.pidArr) < PROCESS_LIMIT
    requires program.Accepted? && FIRST_FD <= fd < MAX_OPEN_FILES
    ensures IsActive(Halted(Executed(r, program), shell), LatestPid(r), fd, false)
  {
    ExecuteHolds(r, st, program);
    ExecuteFds(r, program);
    LatestFacts(r, st);
    ExecutedTerm(r, program);
    KernelShape(r);
    var c, free := Executed(r, program), LowestFree(r.pidArr);
    hide Holds, FdsHold, Executed, Shaped, LatestPid, Quiet, IsActive, Halted;
    HaltFds(c, Pushed(st, Term(r), free), shell);
    KernelShape(Halted(c, shell));
    QuietAt(Halted(c, shell), LatestPid(r), fd);
  }

  lemma ExecutedTerm(k: Kernel, parse: Parse)
    requires Shaped(k)
    ensures Term(Executed(k, parse)) == Term(k)
  {
  }

  lemma QuietCount(fds: seq<Fd>)
    requires |fds| == MAX_OPEN_FILES && Quiet(fds, MAX_OPEN_FILES)
    ensures ActiveCount(fds, MAX_OPEN_FILES) < MAX_OPEN_FILES - FIRST_FD
  {
    CountFull(fds, MAX_OPEN_FILES);
    assert !fds[FIRST_FD].active;
  }

  /** The first shell the user meets can be that process. */
  lemma BootedShellLoses(k: Kernel, a: Parse, b: Parse, c: Parse, name: seq<byte>, entry: Dentry, program: Parse,
      shell: Parse)
    requires Zeroed(k) && a.Accepted? && b.Accepted? && c.Accepted? && program.Accepted? && shell.Accepted?
    requires Openable(name, Some(entry))
    ensures Loses(Booted(Booted(Booted(k, a), b), c), name, entry, program, shell)
  {
    var boot := Booted(Booted(Booted(k, a), b), c);
    BootHolds(k, a, b, c, a);
    BootLatest(boot);
    hide Holds, FdsHold, Shaped, Booted, ActiveCount, Openable, Quiet, Loses;
    KernelShape(boot);
    QuietCount(boot.pcbs[2].fds);
    DescriptorLost(boot, BOOT_STACKS, name, entry, program, shell);
  }

  lemma BootLatest(k: Kernel)
    requires Shaped(k) && Holds(k, BOOT_STACKS) && k.current == 1
    ensures LatestPid(k) == 2 && LowestFree(k.pidArr) < PROCESS_LIMIT
  {
    LatestFacts(k, BOOT_STACKS);
    BootShape();
    hide Disjoint, Linked, Topped, Based;
    assert !Listed(BOOT_STACKS, 6);
    assert k.pidArr[6] == 0;
  }
}
