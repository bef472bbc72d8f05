/** The process and descriptor tables of student-distrib/syscall.c, with the boot steps of scheduling.c. */
module Processes {
  import opened Bytes
  import opened FileSystem
  import C = Commands

  const PROCESS_LIMIT := 7
  const MAX_TERMINALS := 3
  const MAX_OPEN_FILES := 8
  const FIRST_FD := 2

  /** The jump table of a descriptor; Unset is zeroed memory. */
  datatype Ops = Unset | Rtc | File | Dir | Stdin | Stdout | Bad

  datatype Fd = Fd(ops: Ops, inode: nat, position: nat, active: bool)

  datatype Pcb = Pcb(fds: seq<Fd>, parentPid: int, pid: int)

  /** pid_arr, curr_pids, the curr_pid fields of the terminals, the displayed terminal (from 1), the PCBs. */
  datatype Kernel = Kernel(pidArr: seq<int>, currPids: seq<int>, termPids: seq<int>, current: int, pcbs: seq<Pcb>)

  ghost predicate Shaped(k: Kernel)
  {
    && |k.pidArr| == PROCESS_LIMIT && |k.currPids| == MAX_TERMINALS && |k.termPids| == MAX_TERMINALS
    && 1 <= k.current <= MAX_TERMINALS && |k.pcbs| == PROCESS_LIMIT
    && (forall t | 0 <= t < MAX_TERMINALS :: -1 <= k.currPids[t] < PROCESS_LIMIT)
    && forall p | 0 <= p < PROCESS_LIMIT ::
         |k.pcbs[p].fds| == MAX_OPEN_FILES && 0 <= k.pcbs[p].parentPid < PROCESS_LIMIT
             && 0 <= k.pcbs[p].pid < PROCESS_LIMIT
  }

  // ----- Pids.

  /** The index of the displayed terminal. */
  function Term(k: Kernel): int
  {
    k.current - 1
  }

  function LowestFree(pidArr: seq<int>): (i: nat)
    ensures i <= |pidArr|
    ensures forall j | 0 <= j < i :: pidArr[j] != 0
    ensures i < |pidArr| ==> pidArr[i] == 0
  {
    if pidArr == [] || pidArr[0] == 0 then 0 else 1 + LowestFree(pidArr[1..])
  }

  function PidAssigned(k: Kernel): (r: Kernel)
    requires Shaped(k) && LowestFree(k.pidArr) < PROCESS_LIMIT
    ensures Shaped(r)
  {
    var i := LowestFree(k.pidArr);
    k.(pidArr := k.pidArr[i := 1], termPids := k.termPids[Term(k) := i])
  }

  function PidUnassigned(k: Kernel, pid: int, parent: int): (r: Kernel)
    requires Shaped(k) && 0 <= pid < PROCESS_LIMIT && 0 <= parent < PROCESS_LIMIT
    ensures Shaped(r)
  {
    if k.pidArr[pid] == 1 then
      k.(pidArr := k.pidArr[pid := 0], termPids := k.termPids[Term(k) := parent],
          currPids := k.currPids[Term(k) := parent])
    else k
  }

  function LatestPid(k: Kernel): (p: int)
    requires Shaped(k)
    ensures 0 <= p < PROCESS_LIMIT
  {
    if k.currPids[Term(k)] == -1 then 0 else k.currPids[Term(k)]
  }

  function PcbAllocated(k: Kernel, pid: int): (r: Kernel)
    requires Shaped(k) && 0 <= pid < PROCESS_LIMIT
    ensures Shaped(r)
  {
    var fds := k.pcbs[pid].fds[0 := Fd(Stdin, 0, 0, false)][1 := Fd(Stdout, 0, 0, false)];
    var pcb := Pcb(fds[pid := fds[pid].(position := 0)], LatestPid(k), pid);
    k.(pcbs := k.pcbs[pid := pcb], currPids := k.currPids[Term(k) := pid])
  }

  // ----- Descriptors.

  /** Whether the close routine of a jump table reports success. */
  predicate Closes(ops: Ops)
  {
    ops == Rtc || ops == File || ops == Dir
  }

  /** close on one descriptor of a process. */
  function FdClosed(fds: seq<Fd>, i: int): (r: seq<Fd>)
    requires |fds| == MAX_OPEN_FILES && FIRST_FD <= i < MAX_OPEN_FILES
    ensures |r| == MAX_OPEN_FILES
  {
    if !fds[i].active then fds
    else if Closes(fds[i].ops) then fds[i := Fd(fds[i].ops, 0, 0, false)]
    else fds[i := fds[i].(active := false)]
  }

  function WithFds(k: Kernel, p: int, fds: seq<Fd>): (r: Kernel)
    requires Shaped(k) && 0 <= p < PROCESS_LIMIT && |fds| == MAX_OPEN_FILES
    ensures Shaped(r)
  {
    k.(pcbs := k.pcbs[p := k.pcbs[p].(fds := fds)])
  }

  function Cleared(fds: seq<Fd>, i: int): (r: seq<Fd>)
    requires |fds| == MAX_OPEN_FILES && 0 <= i < MAX_OPEN_FILES
    ensures |r| == MAX_OPEN_FILES
  {
    fds[i := fds[i].(ops := Bad, active := false)]
  }

  /** The closing loop of halt and of a failed execute up to descriptor n: each descriptor is closed in the
      process that is the latest by now, and cleared in the process that goes away. */
  function ClosedUpTo(k: Kernel, gone: int, n: int): (r: Kernel)
    requires Shaped(k) && 0 <= gone < PROCESS_LIMIT && FIRST_FD <= n <= MAX_OPEN_FILES
    ensures Shaped(r) && r.currPids == k.currPids && r.current == k.current
  {
    if n == FIRST_FD then k
    else
      var before := ClosedUpTo(k, gone, n - 1);
      var closed := WithFds(before, LatestPid(k), FdClosed(before.pcbs[LatestPid(k)].fds, n - 1));
      WithFds(closed, gone, Cleared(closed.pcbs[gone].fds, n - 1))
  }

  // ----- The steps.

  /** What parse_command finds: nothing to run, a file that is not executable, or an executable; got is the
      number of bytes its first read returned. */
  datatype Parse = Rejected | NotExecutable(inode: nat, got: nat) | Accepted(inode: nat, got: nat)

  /** Delete, E, L, F. */
  const MAGIC: seq<byte> := [127, 69, 76, 70]

  const SHELL: seq<byte> := Ascii("shell")

  /** Every entry of the directory has an inode of the image. */
  ghost predicate Sound(m: Image)
  {
    ImageOk(m) && forall k | 0 <= k < |m.entries| :: FileOk(m, m.entries[k].inode)
  }

  /** Command lines whose words fit the buffers of parse_command. */
  ghost predicate CommandFits(command: seq<byte>)
  {
    && NulFree(command) && (command != [] ==> command[0] != SPACE)
    && |C.Name(command)| < C.NAME_MAX && |C.Argument(command)| < C.ARGUMENT_MAX
  }

  /** What parse_command finds in an image; stack is what its uninitialised four bytes hold before the read. */
  ghost function ParseOf(m: Image, command: seq<byte>, stack: seq<byte>): Parse
    requires Sound(m) && CommandFits(command) && |stack| == |MAGIC|
  {
    var k := FirstIndex(m, NamePadded(C.Name(command)), 0);
    if k == |m.entries| then Rejected
    else
      var inode := m.entries[k].inode;
      var head := ReadAt(m, inode, 0, |MAGIC|);
      if head + stack[|head|..] == MAGIC then Accepted(inode, |head|) else NotExecutable(inode, |head|)
  }

  lemma ShellFits()
    ensures CommandFits(SHELL)
  {
    C.WordStopIs(SHELL, 0, 5);
    C.SpacesStopIs(SHELL, 5, 5);
    C.WordStopIs(SHELL, 5, 5);
  }

  ghost function ShellOf(m: Image, stack: seq<byte>): Parse
    requires Sound(m) && |stack| == |MAGIC|
  {
    ShellFits();
    ParseOf(m, SHELL, stack)
  }

  /** The descriptor fields parse_command uses to look at the file: the one numbered by the latest pid. */
  function Parsed(k: Kernel, p: Parse): (r: Kernel)
    requires Shaped(k)
    ensures Shaped(r)
  {
    if p.Rejected? then k
    else
      var pid := LatestPid(k);
      var fds := k.pcbs[pid].fds;
      WithFds(k, pid, fds[pid := fds[pid].(inode := p.inode, position := fds[pid].position + p.got)])
  }

  function Started(k: Kernel): (r: Kernel)
    requires Shaped(k) && LowestFree(k.pidArr) < PROCESS_LIMIT
    ensures Shaped(r)
  {
    var pid := LowestFree(k.pidArr);
    var a := PcbAllocated(PidAssigned(k), pid);
    if pid < MAX_TERMINALS then a.(pcbs := a.pcbs[pid := a.pcbs[pid].(parentPid := pid)]) else a
  }

  function Executed(k: Kernel, p: Parse): (r: Kernel)
    requires Shaped(k)
    ensures Shaped(r)
  {
    var pid := LowestFree(k.pidArr);
    if pid == PROCESS_LIMIT then k
    else
      var a := Parsed(Started(k), p);
      if p.Accepted? then a
      else ClosedUpTo(PidUnassigned(a, pid, a.pcbs[pid].parentPid), pid, MAX_OPEN_FILES)
  }

  /** halt; a base shell is executed again at once, with what parsing the shell finds. */
  function Halted(k: Kernel, shell: Parse): (r: Kernel)
    requires Shaped(k)
    ensures Shaped(r)
  {
    var p := LatestPid(k);
    var pcb := k.pcbs[p];
    var c := ClosedUpTo(PidUnassigned(k, pcb.pid, pcb.parentPid), p, MAX_OPEN_FILES);
    if pcb.pid == pcb.parentPid then Executed(c, shell)
    else c.(pcbs := c.pcbs[p := c.pcbs[p].(pid := pcb.parentPid)])
  }

  /** switch_task: start the shell of the highest-numbered terminal that has none. */
  function Booted(k: Kernel, shell: Parse): (r: Kernel)
    requires Shaped(k)
    ensures Shaped(r)
  {
    if k.currPids[2] == -1 then Executed(k.(current := 3), shell)
    else if k.currPids[1] == -1 then Executed(k.(current := 2), shell)
    else if k.currPids[0] == -1 then Executed(k.(current := 1), shell)
    else k
  }

  // ----- open and close.

  function LowestInactive(fds: seq<Fd>, i: nat): (r: nat)
    requires |fds| == MAX_OPEN_FILES && i <= MAX_OPEN_FILES
    ensures i <= r <= MAX_OPEN_FILES
    ensures forall j | i <= j < r :: fds[j].active
    ensures r < MAX_OPEN_FILES ==> !fds[r].active
    decreases MAX_OPEN_FILES - i
  {
    if i == MAX_OPEN_FILES || !fds[i].active then i else LowestInactive(fds, i + 1)
  }

  predicate HasPrefix(name: seq<byte>, prefix: seq<byte>)
  {
    prefix <= name
  }

  const STDIN_NAME: seq<byte> := Ascii("stdin")
  const STDOUT_NAME: seq<byte> := Ascii("stdout")

  /** open first restores the jump tables of stdin and stdout, unless the name asks for them. */
  function StdRestored(fds: seq<Fd>, name: seq<byte>): (r: seq<Fd>)
    requires |fds| == MAX_OPEN_FILES
    ensures |r| == MAX_OPEN_FILES
  {
    var a := if HasPrefix(name, STDIN_NAME) then fds else fds[0 := fds[0].(ops := Stdin)];
    if HasPrefix(name, STDOUT_NAME) then a else a[1 := a[1].(ops := Stdout)]
  }

  function OpsFor(fileType: int): Ops
  {
    if fileType == 0 then Rtc else if fileType == 1 then Dir else if fileType == 2 then File else Bad
  }

  /** The result of open for a process with these descriptors and a name that a lookup resolves to entry
      (None when there is no such entry): the number returned and the new descriptors. */
  datatype Lookup = None | Some(entry: Dentry)

  /** The entry a lookup of a name resolves to. */
  ghost function Resolved(m: Image, name: seq<byte>): Lookup
    requires |name| < NAME_LEN
  {
    var k := FirstIndex(m, NamePadded(name), 0);
    if k < |m.entries| then Some(m.entries[k]) else None
  }

  datatype FdResult = FdResult(ret: int, fds: seq<Fd>)

  function Opened(fds: seq<Fd>, name: seq<byte>, found: Lookup): (r: FdResult)
    requires |fds| == MAX_OPEN_FILES
    ensures |r.fds| == MAX_OPEN_FILES
  {
    if name == [] || |name| > 33 then FdResult(-1, fds)
    else
      var s := StdRestored(fds, name);
      var i := LowestInactive(s, FIRST_FD);
      if found.None? || i == MAX_OPEN_FILES || OpsFor(found.entry.fileType) == Bad then FdResult(-1, s)
      else FdResult(i, s[i := Fd(OpsFor(found.entry.fileType), found.entry.inode, 0, true)])
  }

  /** The result of close. */
  function Closed(fds: seq<Fd>, fd: int): (r: FdResult)
    requires |fds| == MAX_OPEN_FILES
    ensures |r.fds| == MAX_OPEN_FILES
  {
    if FIRST_FD <= fd < MAX_OPEN_FILES then
      FdResult(if fds[fd].active && Closes(fds[fd].ops) then 0 else -1, FdClosed(fds, fd))
    else FdResult(-1, fds)
  }

  // ----- read, through the jump table of a descriptor.

  /** The bytes a read puts at the start of the zeroed buffer, whose number it returns, and the descriptors then. */
  datatype ReadOutcome = Refused | Got(bytes: seq<byte>, fds: seq<Fd>)

  /** Reads that are modelled: not from the keyboard or the clock, and with a buffer that holds a name. */
  ghost predicate CanRead(m: Image, fds: seq<Fd>, fd: int, n: nat)
  {
    && ImageOk(m) && |fds| == MAX_OPEN_FILES && fd != 0 && fd != MAX_OPEN_FILES
    && (FIRST_FD <= fd < MAX_OPEN_FILES && fds[fd].active ==>
          (fds[fd].ops == File && FileOk(m, fds[fd].inode)) || (fds[fd].ops == Dir && n >= NAME_LEN))
  }

  ghost function ReadThrough(m: Image, fds: seq<Fd>, fd: int, n: nat): (r: ReadOutcome)
    requires CanRead(m, fds, fd, n)
    ensures r.Got? ==> |r.fds| == MAX_OPEN_FILES && |r.bytes| <= n
  {
    if !(FIRST_FD <= fd < MAX_OPEN_FILES) || !fds[fd].active then Refused
    else
      var item := fds[fd];
      if item.ops == File then
        var bytes := ReadAt(m, item.inode, item.position, n);
        Got(bytes, fds[fd := item.(position := item.position + |bytes|)])
      else if item.position < |m.entries| then
        Got(NameOf(m.entries[item.position].fname), fds[fd := item.(position := item.position + 1)])
      else Got([], fds)
  }

  // ----- The program.

  class ProcessTable {
    const fs: FileSys
    const pidArr: array<int>
    const currPids: array<int>
    const termPids: array<int>
    const pcbs: array<Pcb>
    var currentTerminal: int

    ghost predicate Valid()
      reads this, pidArr, currPids, termPids, pcbs
    {
      && fs.Valid()
      && pidArr != currPids && pidArr != termPids && currPids != termPids
      && Shaped(State())
    }

    ghost function State(): Kernel
      reads this, pidArr, currPids, termPids, pcbs
    {
      Kernel(pidArr[..], currPids[..], termPids[..], currentTerminal, pcbs[..])
    }

    constructor (fs: FileSys, zeroed: seq<Pcb>)
      requires fs.Valid() && |zeroed| == PROCESS_LIMIT
      requires forall p | 0 <= p < PROCESS_LIMIT ::
                 |zeroed[p].fds| == MAX_OPEN_FILES && zeroed[p].parentPid == 0 && zeroed[p].pid == 0
      ensures Valid() && this.fs == fs
      ensures State() == Kernel([0, 0, 0, 0, 0, 0, 0], [-1, -1, -1], [-1, -1, -1], 1, zeroed)
    {
      this.fs := fs;
      pidArr := new int[PROCESS_LIMIT](_ => 0);
      currPids := new int[MAX_TERMINALS](_ => -1);
      termPids := new int[MAX_TERMINALS](_ => -1);
      pcbs := new Pcb[PROCESS_LIMIT](i requires 0 <= i < |zeroed| => zeroed[i]);
      currentTerminal := 1;
      new;
      assert pcbs[..] == zeroed;
    }

    method TerminalSwitch(number: int)
      requires Valid() && 1 <= number <= MAX_TERMINALS
      modifies this`currentTerminal
      ensures Valid() && State() == old(State()).(current := number)
    {
      currentTerminal := number;
    }

    method AssignPid() returns (pid: int)
      requires Valid()
      modifies pidArr, termPids
      ensures Valid() && -1 <= pid < PROCESS_LIMIT
      ensures var free := LowestFree(old(State()).pidArr);
              if free == PROCESS_LIMIT then pid == -1 && State() == old(State())
              else pid == free && State() == PidAssigned(old(State()))
    {
      var i: nat := 0;
      while i < PROCESS_LIMIT
        invariant i <= PROCESS_LIMIT && forall j | 0 <= j < i :: pidArr[j] != 0
        invariant State() == old(State()) && Valid()
      {
        if pidArr[i] == 0 {
          LowestFreeIs(pidArr[..], i);
          termPids[currentTerminal - 1] := i;
          pidArr[i] := 1;
          return i;
        }
        i := i + 1;
      }
      LowestFreeIs(pidArr[..], i);
      return -1;
    }

    method UnassignPid(pid: int, parentPid: int) returns (ret: int)
      requires Valid() && 0 <= pid < PROCESS_LIMIT && 0 <= parentPid < PROCESS_LIMIT
      modifies pidArr, termPids, currPids
      ensures Valid() && State() == PidUnassigned(old(State()), pid, parentPid)
      ensures ret == if old(pidArr[pid]) == 1 then 1 else -1
    {
      if pidArr[pid] == 1 {
        pidArr[pid] := 0;
        termPids[currentTerminal - 1] := parentPid;
        currPids[currentTerminal - 1] := parentPid;
        return 1;
      }
      return -1;
    }

    method GetLatestPid() returns (pid: int)
      requires Valid()
      ensures pid == LatestPid(State())
    {
      if currPids[currentTerminal - 1] == -1 { return 0; }
      return currPids[currentTerminal - 1];
    }

    lemma PcbShape(p: int)
      requires Valid() && 0 <= p < PROCESS_LIMIT
      ensures pcbs.Length == PROCESS_LIMIT && |pcbs[p].fds| == MAX_OPEN_FILES
      ensures 0 <= pcbs[p].parentPid < PROCESS_LIMIT && 0 <= pcbs[p].pid < PROCESS_LIMIT
    {
    }

    method SetFd(p: int, i: int, fd: Fd)
      requires Valid() && 0 <= p < PROCESS_LIMIT && 0 <= i < MAX_OPEN_FILES
      modifies pcbs
      ensures Valid() && State() == WithFds(old(State()), p, old(pcbs[p]).fds[i := fd])
    {
      pcbs[p] := pcbs[p].(fds := pcbs[p].fds[i := fd]);
      assert pcbs[..] == old(pcbs[..])[p := old(pcbs[p]).(fds := old(pcbs[p]).fds[i := fd])];
    }

    method AllocatePcb(pid: int)
      requires Valid() && 0 <= pid < PROCESS_LIMIT
      modifies pcbs, currPids
      ensures Valid() && State() == PcbAllocated(old(State()), pid)
    {
      var fds := pcbs[pid].fds;
      fds := fds[0 := Fd(Stdin, 0, 0, false)];
      fds := fds[1 := Fd(Stdout, 0, 0, false)];
      var parentPid;
      if currPids[currentTerminal - 1] == -1 {
        parentPid := 0;
      } else {
        parentPid := currPids[currentTerminal - 1];
      }
      currPids[currentTerminal - 1] := pid;
      fds := fds[pid := fds[pid].(position := 0)];
      pcbs[pid] := Pcb(fds, parentPid, pid);
    }

    method SetActiveFlag(fd: int, active: bool) returns (ret: int)
      requires Valid() && 0 <= fd < MAX_OPEN_FILES
      modifies pcbs
      ensures Valid()
      ensures var p := LatestPid(old(State())); var f := old(State()).pcbs[p].fds;
              if f[fd].active == active then ret == 0 && State() == old(State())
              else ret == 1 && State() == WithFds(old(State()), p, f[fd := f[fd].(active := active)])
    {
      var p := GetLatestPid();
      if pcbs[p].fds[fd].active == active { return 0; }
      SetFd(p, fd, pcbs[p].fds[fd].(active := active));
      return 1;
    }

    method Close(fd: int) returns (ret: int)
      requires Valid()
      modifies pcbs
      ensures Valid()
      ensures var p := LatestPid(old(State())); var r := Closed(old(State()).pcbs[p].fds, fd);
              ret == r.ret && State() == WithFds(old(State()), p, r.fds)
    {
      ghost var k := State();
      var p := GetLatestPid();
      SameFds(k, p);
      if fd == 0 || fd == 1 { return -1; }
      if fd < 0 || fd >= MAX_OPEN_FILES { return -1; }
      var status := SetActiveFlag(fd, false);
      if status == 0 { return -1; }
      if !Closes(pcbs[p].fds[fd].ops) { return -1; }
      ghost var f := k.pcbs[p].fds;
      SetFd(p, fd, pcbs[p].fds[fd].(inode := 0, position := 0));
      SetTwice(k, p, f[fd := f[fd].(active := false)], f[fd := f[fd].(active := false)][fd := Fd(f[fd].ops, 0, 0,
          false)]);
      assert f[fd := f[fd].(active := false)][fd := Fd(f[fd].ops, 0, 0, false)]
          == f[fd := Fd(f[fd].ops, 0, 0, false)];
      return 0;
    }

    /** The fields open sets once it has found a free descriptor, student-distrib/syscall.c:575-580; the
        jump table's own open looks the name up again and so cannot fail. */
    method Activate(p: int, i: int, fname: seq<byte>, entry: Dentry, ops: Ops) returns (ret: int)
      requires Valid() && p == LatestPid(State()) && FIRST_FD <= i < MAX_OPEN_FILES && !State().pcbs[p].fds[i].active
      requires |fname| == NAME_LEN && FirstIndex(fs.image, fname, 0) < |fs.image.entries|
      modifies pcbs, fs
      ensures Valid() && ret == i
      ensures State() == WithFds(old(State()), p, old(State()).pcbs[p].fds[i := Fd(ops, entry.inode, 0, true)])
    {
      ghost var k := State();
      ghost var f := k.pcbs[p].fds;
      PcbShape(p);
      var status := SetActiveFlag(i, true);
      SetFd(p, i, pcbs[p].fds[i].(ops := ops, inode := entry.inode, position := 0));
      ghost var g := f[i := f[i].(active := true)];
      assert g[i := Fd(ops, entry.inode, 0, true)] == f[i := Fd(ops, entry.inode, 0, true)];
      SetTwice(k, p, g, f[i := Fd(ops, entry.inode, 0, true)]);
      var result := 0;
      if ops == File {
        result := fs.FileOpen(fname);
      } else if ops == Dir {
        var dentry;
        result, dentry := fs.ReadDentryByName(fname);
      }
      if result == -1 { return -1; }
      return i;
    }

    /** open, for names the original handles within its buffer. */
    method Open(filename: seq<byte>) returns (ret: int)
      requires Valid() && NulFree(filename) && (|filename| < NAME_LEN || |filename| > NAME_LEN + 1)
      modifies pcbs, fs
      ensures Valid()
      ensures var p := LatestPid(old(State()));
              var found := if |filename| < NAME_LEN then Resolved(fs.image, filename) else None;
              var r := Opened(old(State()).pcbs[p].fds, filename, found);
              ret == r.ret && State() == WithFds(old(State()), p, r.fds)
    {
      hide Shaped, WithFds;
      ghost var k := State();
      var p := GetLatestPid();
      PcbShape(p);
      SameFds(k, p);
      if filename == [] { return -1; }
      if |filename| > 33 { return -1; }
      var fname := NamePadded(filename);
      RestoreStd(p, filename);
      var found, entry := fs.ReadDentryByName(fname);
      if found == -1 { return -1; }
      ghost var s := StdRestored(k.pcbs[p].fds, filename);
      PcbShape(p);
      var i: nat := FIRST_FD;
      while i < MAX_OPEN_FILES && pcbs[p].fds[i].active
        invariant FIRST_FD <= i <= MAX_OPEN_FILES && forall j | FIRST_FD <= j < i :: pcbs[p].fds[j].active
      {
        i := i + 1;
      }
      WithFdsAt(k, p, s);
      LowestInactiveIs(s, FIRST_FD, i);
      if i == MAX_OPEN_FILES { return -1; }
      var ops;
      if entry.fileType == 0 {
        ops := Rtc;
      } else if entry.fileType == 1 {
        ops := Dir;
      } else if entry.fileType == 2 {
        ops := File;
      } else {
        return -1;
      }
      ret := Activate(p, i, fname, entry, ops);
      SetTwice(k, p, s, s[i := Fd(ops, entry.inode, 0, true)]);
    }

    /** read, student-distrib/syscall.c:439-458. */
    method Read(fd: int, buf: array<byte>) returns (ret: int)
      requires Valid() && CanRead(fs.image, State().pcbs[LatestPid(State())].fds, fd, buf.Length)
      modifies pcbs, fs, buf
      ensures Valid()
      ensures var p := LatestPid(old(State()));
              match ReadThrough(fs.image, old(State()).pcbs[p].fds, fd, buf.Length)
              case Refused => ret == -1 && State() == old(State()) && buf[..] == old(buf[..])
              case Got(bytes, fds) =>
                && ret == |bytes| && State() == WithFds(old(State()), p, fds)
                && buf[..] == bytes + Repeat(NUL, buf.Length - |bytes|)
    {
      hide Shaped, FileOk, ReadAt;
      if fd < 0 || fd == 1 || fd > MAX_OPEN_FILES { return -1; }
      ghost var k := State();
      var p := GetLatestPid();
      PcbShape(p);
      SameFds(k, p);
      if !pcbs[p].fds[fd].active { return -1; }
      for i := 0 to buf.Length
        invariant forall j | 0 <= j < i :: buf[j] == NUL
        invariant Valid() && State() == k
      {
        buf[i] := NUL;
      }
      assert buf[..] == Repeat(NUL, buf.Length);
      var item := new OpenFile(fs, pcbs[p].fds[fd].inode);
      item.position := pcbs[p].fds[fd].position;
      if pcbs[p].fds[fd].ops == File {
        ValidInode(fs.image, item.inode);
        ret := item.FileRead(buf, buf.Length);
      } else {
        ret := item.DirRead(buf);
      }
      ghost var fds := k.pcbs[p].fds;
      PcbShape(p);
      SetFd(p, fd, pcbs[p].fds[fd].(position := item.position));
      assert fds[fd := fds[fd]] == fds;
      assert fds[fd].(position := fds[fd].position) == fds[fd];
    }

    method RestoreStd(p: int, name: seq<byte>)
      requires Valid() && p == LatestPid(State())
      modifies pcbs
      ensures Valid() && State() == WithFds(old(State()), p, StdRestored(old(State()).pcbs[p].fds, name))
    {
      PcbShape(p);
      ghost var k := State();
      SameFds(k, p);
      if !HasPrefix(name, STDIN_NAME) {
        SetFd(p, 0, pcbs[p].fds[0].(ops := Stdin));
      }
      ghost var a := State().pcbs[p].fds;
      if !HasPrefix(name, STDOUT_NAME) {
        SetFd(p, 1, pcbs[p].fds[1].(ops := Stdout));
        SetTwice(k, p, a, a[1 := a[1].(ops := Stdout)]);
      }
    }

    /** The closing loop shared by halt and a failed execute. */
    method CloseAll(gone: int)
      requires Valid() && 0 <= gone < PROCESS_LIMIT
      modifies pcbs
      ensures Valid() && State() == ClosedUpTo(old(State()), gone, MAX_OPEN_FILES)
    {
      hide Shaped, FdClosed, LatestPid;
      ghost var k := State();
      assert ClosedUpTo(k, gone, FIRST_FD) == k;
      for i := FIRST_FD to MAX_OPEN_FILES
        invariant Valid() && State() == ClosedUpTo(k, gone, i)
      {
        ClosedStep(k, gone, i);
        var _ := Close(i);
        PcbShape(gone);
        SetFd(gone, i, pcbs[gone].fds[i].(ops := Bad, active := false));
      }
    }

    /** The second half of parse_command, student-distrib/syscall.c:411-429. */
    method CheckProgram(name: seq<byte>, stack: seq<byte>) returns (ret: int, ghost parse: Parse)
      requires Valid() && Sound(fs.image) && |name| == NAME_LEN && |stack| == |MAGIC|
      requires var p := LatestPid(State());
               |State().pcbs[p].fds| == MAX_OPEN_FILES && State().pcbs[p].fds[p].position == 0
      modifies pcbs, fs
      ensures Valid() && State() == Parsed(old(State()), parse)
      ensures ret == if parse.Accepted? then 1 else -1
      ensures var k := FirstIndex(fs.image, name, 0);
              if k == |fs.image.entries| then parse == Rejected
              else
                var inode := fs.image.entries[k].inode;
                var head := ReadAt(fs.image, inode, 0, |MAGIC|);
                parse == if head + stack[|head|..] == MAGIC then Accepted(inode, |head|)
                         else NotExecutable(inode, |head|)
    {
      hide Shaped, ReadAt, FileOk;
      var status := fs.FileOpen(name);
      if status == -1 { return -1, Rejected; }
      var pid := GetLatestPid();
      ghost var k := State();
      PcbShape(pid);
      var inode := fs.currentDentry.inode;
      SetFd(pid, pid, pcbs[pid].fds[pid].(inode := inode));
      PcbShape(pid);
      var first4 := new byte[|MAGIC|](i requires 0 <= i < |stack| => stack[i]);
      assert first4[..] == stack;
      ValidInode(fs.image, inode);
      var got := fs.ReadData(inode, pcbs[pid].fds[pid].position, first4, |MAGIC|);
      SetFd(pid, pid, pcbs[pid].fds[pid].(position := pcbs[pid].fds[pid].position + got));
      var accepted := first4[0] == MAGIC[0] && first4[1] == MAGIC[1] && first4[2] == MAGIC[2] && first4[3] == MAGIC[3];
      assert accepted <==> first4[..] == MAGIC;
      parse := if accepted then Accepted(inode, got) else NotExecutable(inode, got);
      ParsedTwice(k, pid, parse);
      return if accepted then 1 else -1, parse;
    }

    /** parse_command; argument is what the argument buffer of the new process holds afterwards. */
    method ParseCommand(command: seq<byte>, stack: seq<byte>) returns (ret: int, argument: seq<byte>)
      requires Valid() && Sound(fs.image) && CommandFits(command) && |stack| == |MAGIC|
      requires var p := LatestPid(State());
               |State().pcbs[p].fds| == MAX_OPEN_FILES && State().pcbs[p].fds[p].position == 0
      modifies pcbs, fs
      ensures Valid() && State() == Parsed(old(State()), ParseOf(fs.image, command, stack))
      ensures ret == if ParseOf(fs.image, command, stack).Accepted? then 1 else -1
      ensures argument == C.Padded(C.Argument(command), C.ARGUMENT_MAX)
    {
      hide Shaped, ReadAt, FileOk;
      var execBuf, argumentBuf := new byte[C.NAME_MAX], new byte[C.ARGUMENT_MAX];
      C.ParseWords(command, execBuf, argumentBuf);
      argument := argumentBuf[..];
      ghost var parse;
      ret, parse := CheckProgram(execBuf[..], stack);
    }

    method Execute(command: seq<byte>, stack: seq<byte>) returns (ret: int, argument: seq<byte>)
      requires Valid() && Sound(fs.image) && CommandFits(command) && |stack| == |MAGIC|
      modifies pidArr, currPids, termPids, pcbs, fs
      ensures Valid() && State() == Executed(old(State()), ParseOf(fs.image, command, stack))
      ensures var parse := ParseOf(fs.image, command, stack);
              ret == if parse.Accepted? && LowestFree(old(State()).pidArr) < PROCESS_LIMIT then 0 else -1
      ensures ret == 0 ==> argument == C.Padded(C.Argument(command), C.ARGUMENT_MAX)
    {
      hide PidUnassigned, Parsed, ClosedUpTo, Shaped, ParseOf, Sound, CommandFits;
      argument := [];
      var pid := AssignPid();
      if pid == -1 { return -1, []; }
      AllocatePcb(pid);
      if pid < MAX_TERMINALS {
        SetParent(pid, pid);
      }
      StartedPosition(old(State()));
      var status;
      status, argument := ParseCommand(command, stack);
      if status == -1 {
        PcbShape(pid);
        var _ := UnassignPid(pid, pcbs[pid].parentPid);
        CloseAll(pid);
        return -1, argument;
      }
      return 0, argument;
    }

    method SetParent(pid: int, parentPid: int)
      requires Valid() && 0 <= pid < PROCESS_LIMIT && 0 <= parentPid < PROCESS_LIMIT
      modifies pcbs
      ensures Valid()
      ensures State() == old(State()).(pcbs :=
          old(State()).pcbs[pid := old(State()).pcbs[pid].(parentPid := parentPid)])
    {
      pcbs[pid] := pcbs[pid].(parentPid := parentPid);
    }

    /** A halted base shell is started again. */
    method Halt(stack: seq<byte>)
      requires Valid() && Sound(fs.image) && |stack| == |MAGIC|
      modifies pidArr, currPids, termPids, pcbs, fs
      ensures Valid() && State() == Halted(old(State()), ShellOf(fs.image, stack))
    {
      hide PidUnassigned, ClosedUpTo, Executed, ParseOf, CommandFits, Sound;
      ShellFits();
      var p := GetLatestPid();
      var pid, parentPid := pcbs[p].pid, pcbs[p].parentPid;
      var _ := UnassignPid(pid, parentPid);
      CloseAll(p);
      ClosedKeepsIds(PidUnassigned(old(State()), pid, parentPid), p, MAX_OPEN_FILES);
      if pcbs[p].pid == pcbs[p].parentPid {
        var _, _ := Execute(SHELL, stack);
      } else {
        pcbs[p] := pcbs[p].(pid := pcbs[p].parentPid);
      }
    }

    method SwitchTask(stack: seq<byte>)
      requires Valid() && Sound(fs.image) && |stack| == |MAGIC|
      modifies this`currentTerminal, pidArr, currPids, termPids, pcbs, fs
      ensures Valid() && State() == Booted(old(State()), ShellOf(fs.image, stack))
    {
      hide Executed, ParseOf, CommandFits, Sound;
      ShellFits();
      if currPids[2] == -1 {
        TerminalSwitch(3);
        var _, _ := Execute(SHELL, stack);
        return;
      }
      if currPids[1] == -1 {
        TerminalSwitch(2);
        var _, _ := Execute(SHELL, stack);
        return;
      }
      if currPids[0] == -1 {
        TerminalSwitch(1);
        var _, _ := Execute(SHELL, stack);
        return;
      }
    }
  }

  /** The two writes of parse_command to its descriptor. */
  lemma ParsedTwice(k: Kernel, p: int, parse: Parse)
    requires Shaped(k) && p == LatestPid(k) && !parse.Rejected? && |k.pcbs[p].fds| == MAX_OPEN_FILES
    ensures var f := k.pcbs[p].fds;
            var g := f[p := f[p].(inode := parse.inode)];
            WithFds(WithFds(k, p, g), p, g[p := g[p].(position := g[p].position + parse.got)]) == Parsed(k, parse)
  {
    var f := k.pcbs[p].fds;
    var g := f[p := f[p].(inode := parse.inode)];
    var h := f[p := f[p].(inode := parse.inode, position := f[p].position + parse.got)];
    assert g[p := h[p]] == h;
    SetTwice(k, p, g, h);
  }

  lemma StartedPosition(k: Kernel)
    requires Shaped(k)
    ensures LowestFree(k.pidArr) < PROCESS_LIMIT ==>
        var r, p := Started(k), LowestFree(k.pidArr);
        && LatestPid(r) == p && |r.pcbs| == PROCESS_LIMIT && |r.pcbs[p].fds| == MAX_OPEN_FILES
        && r.pcbs[p].fds[p].position == 0
  {
  }

  /** A program is found exactly when the first word of the line names an entry whose file starts with the magic
      bytes; for a file of at least four bytes what the stack held does not matter, and for one too short to fill
      them what the reads do not overwrite has to be there by chance. */
  lemma AcceptedExactly(m: Image, command: seq<byte>, stack: seq<byte>)
    requires Sound(m) && CommandFits(command) && |stack| == |MAGIC|
    ensures var k := FirstIndex(m, NamePadded(C.Name(command)), 0);
            && (ParseOf(m, command, stack).Rejected? <==> k == |m.entries|)
            && (k < |m.entries| ==>
                  var inode := m.entries[k].inode;
                  var n := Min(|MAGIC|, m.inodes[inode].len + 1);
                  && (ParseOf(m, command, stack).Accepted? <==>
                        Readable(m, inode)[..n] == MAGIC[..n] && stack[n..] == MAGIC[n..])
                  && (m.inodes[inode].len >= |MAGIC| ==>
                        (ParseOf(m, command, stack).Accepted? <==> Contents(m, inode)[..|MAGIC|] == MAGIC)))
  {
    var k := FirstIndex(m, NamePadded(C.Name(command)), 0);
    if k < |m.entries| {
      var inode := m.entries[k].inode;
      HeadOfFile(m, inode);
      hide ReadAt, Readable, Contents, FileOk;
      var n := Min(|MAGIC|, m.inodes[inode].len + 1);
      var head := ReadAt(m, inode, 0, |MAGIC|);
      Overlaid(head, stack, n);
    }
  }

  lemma Overlaid(head: seq<byte>, stack: seq<byte>, n: nat)
    requires |head| == n <= |MAGIC| == |stack|
    ensures head + stack[n..] == MAGIC <==> head == MAGIC[..n] && stack[n..] == MAGIC[n..]
  {
    var all := head + stack[n..];
    assert all[..n] == head && all[n..] == stack[n..] && MAGIC[..n] + MAGIC[n..] == MAGIC;
  }

  lemma HeadOfFile(m: Image, inode: nat)
    requires FileOk(m, inode)
    ensures inode < |m.inodes|
    ensures var n, len := Min(|MAGIC|, m.inodes[inode].len + 1), m.inodes[inode].len;
            && |Readable(m, inode)| == len + 1 && ReadAt(m, inode, 0, |MAGIC|) == Readable(m, inode)[..n]
            && |Contents(m, inode)| == len
            && (len >= |MAGIC| ==> Contents(m, inode)[..|MAGIC|] == ReadAt(m, inode, 0, |MAGIC|))
  {
  }

  lemma WithFdsAt(k: Kernel, p: int, f: seq<Fd>)
    requires Shaped(k) && 0 <= p < PROCESS_LIMIT && |f| == MAX_OPEN_FILES
    ensures WithFds(k, p, f).pcbs[p].fds == f && LatestPid(WithFds(k, p, f)) == LatestPid(k)
  {
  }

  lemma LowestInactiveIs(fds: seq<Fd>, i: nat, r: nat)
    requires |fds| == MAX_OPEN_FILES && i <= r <= MAX_OPEN_FILES && (forall j | i <= j < r :: fds[j].active)
    requires r < MAX_OPEN_FILES ==> !fds[r].active
    ensures LowestInactive(fds, i) == r
  {
  }

  lemma SetTwice(k: Kernel, p: int, f: seq<Fd>, g: seq<Fd>)
    requires Shaped(k) && 0 <= p < PROCESS_LIMIT && |f| == MAX_OPEN_FILES && |g| == MAX_OPEN_FILES
    ensures WithFds(WithFds(k, p, f), p, g) == WithFds(k, p, g)
  {
  }

  lemma ClosedStep(k: Kernel, gone: int, i: int)
    requires Shaped(k) && 0 <= gone < PROCESS_LIMIT && FIRST_FD <= i < MAX_OPEN_FILES
    ensures var before := ClosedUpTo(k, gone, i);
            var closed := WithFds(before, LatestPid(k), FdClosed(before.pcbs[LatestPid(k)].fds, i));
            ClosedUpTo(k, gone, i + 1) == WithFds(closed, gone, Cleared(closed.pcbs[gone].fds, i))
            && LatestPid(before) == LatestPid(k)
                && Closed(before.pcbs[LatestPid(k)].fds, i).fds == FdClosed(before.pcbs[LatestPid(k)].fds, i)
  {
  }

  lemma SameFds(k: Kernel, p: int)
    requires Shaped(k) && 0 <= p < PROCESS_LIMIT
    ensures WithFds(k, p, k.pcbs[p].fds) == k
  {
  }

  lemma LowestFreeIs(pidArr: seq<int>, i: nat)
    requires i <= |pidArr| && (forall j | 0 <= j < i :: pidArr[j] != 0) && (i < |pidArr| ==> pidArr[i] == 0)
    ensures LowestFree(pidArr) == i
  {
  }

  /** Descriptor changes leave the rest of the table alone. */
  ghost predicate SameIds(r: Kernel, k: Kernel)
    requires Shaped(r) && Shaped(k)
  {
    && r.pidArr == k.pidArr && r.currPids == k.currPids && r.termPids == k.termPids && r.current == k.current
    && forall p | 0 <= p < PROCESS_LIMIT :: r.pcbs[p].pid == k.pcbs[p].pid
        && r.pcbs[p].parentPid == k.pcbs[p].parentPid
  }

  lemma WithFdsKeepsIds(k: Kernel, p: int, fds: seq<Fd>, was: Kernel)
    requires Shaped(k) && Shaped(was) && SameIds(k, was) && 0 <= p < PROCESS_LIMIT && |fds| == MAX_OPEN_FILES
    ensures SameIds(WithFds(k, p, fds), was)
  {
  }

  lemma {:induction false} ClosedKeepsIds(k: Kernel, gone: int, n: int)
    requires Shaped(k) && 0 <= gone < PROCESS_LIMIT && FIRST_FD <= n <= MAX_OPEN_FILES
    ensures SameIds(ClosedUpTo(k, gone, n), k)
  {
    if n > FIRST_FD {
      ClosedKeepsIds(k, gone, n - 1);
      var b := ClosedUpTo(k, gone, n - 1);
      var fds := FdClosed(b.pcbs[LatestPid(k)].fds, n - 1);
      WithFdsKeepsIds(b, LatestPid(k), fds, k);
      var c := WithFds(b, LatestPid(k), fds);
      WithFdsKeepsIds(c, gone, Cleared(c.pcbs[gone].fds, n - 1), k);
    }
  }
}
