/** What every run of execute, halt, terminal switch, open and close keeps of the process table. */
module ProcessRuns {
  import opened Bytes
  import opened FileSystem
  import opened Processes

  /** Per terminal, the pids of its processes from the base shell up. */
  type Stacks = seq<seq<int>>

  function TopOf(stack: seq<int>): int
    requires stack != []
  {
    stack[|stack| - 1]
  }

  ghost predicate Listed(st: Stacks, p: int)
  {
    exists t, i :: 0 <= t < |st| && 0 <= i < |st[t]| && st[t][i] == p
  }

  ghost predicate Disjoint(st: Stacks)
  {
    forall t, i, u, j | 0 <= t < |st| && 0 <= i < |st[t]| && 0 <= u < |st| && 0 <= j < |st[u]|
        && st[t][i] == st[u][j] ::
      t == u && i == j
  }

  /** Each terminal's stack is non-empty, on a self-parented base shell with one of the first three pids. */
  ghost predicate Based(st: Stacks)
  {
    |st| == MAX_TERMINALS && forall t | 0 <= t < MAX_TERMINALS :: st[t] != [] && 0 <= st[t][0] < MAX_TERMINALS
  }

  function ParentIn(stack: seq<int>, i: int): int
    requires 0 <= i < |stack|
  {
    if i == 0 then stack[0] else stack[i - 1]
  }

  /** The process table without its descriptors. */
  datatype Table = Table(pidArr: seq<int>, currPids: seq<int>, termPids: seq<int>, current: int,
                         pids: seq<int>, parents: seq<int>)

  ghost predicate TableOk(b: Table)
  {
    && |b.pidArr| == PROCESS_LIMIT && |b.currPids| == MAX_TERMINALS && |b.termPids| == MAX_TERMINALS
    && 1 <= b.current <= MAX_TERMINALS && |b.pids| == PROCESS_LIMIT && |b.parents| == PROCESS_LIMIT
    && (forall t | 0 <= t < MAX_TERMINALS :: -1 <= b.currPids[t] < PROCESS_LIMIT)
    && (forall p | 0 <= p < PROCESS_LIMIT :: 0 <= b.pids[p] < PROCESS_LIMIT)
    && forall p | 0 <= p < PROCESS_LIMIT :: 0 <= b.parents[p] < PROCESS_LIMIT
  }

  function TableOf(k: Kernel): (b: Table)
    requires Shaped(k)
    ensures TableOk(b)
  {
    Table(k.pidArr, k.currPids, k.termPids, k.current,
          seq(PROCESS_LIMIT, p requires 0 <= p < PROCESS_LIMIT => k.pcbs[p].pid),
          seq(PROCESS_LIMIT, p requires 0 <= p < PROCESS_LIMIT => k.pcbs[p].parentPid))
  }

  ghost predicate Linked(b: Table, st: Stacks)
    requires TableOk(b)
  {
    forall t, i | 0 <= t < |st| && 0 <= i < |st[t]| ::
      0 <= st[t][i] < PROCESS_LIMIT && b.pids[st[t][i]] == st[t][i] && b.parents[st[t][i]] == ParentIn(st[t], i)
  }

  ghost predicate Used(pidArr: seq<int>, st: Stacks)
    requires |pidArr| == PROCESS_LIMIT
  {
    forall p | 0 <= p < PROCESS_LIMIT :: pidArr[p] == if Listed(st, p) then 1 else 0
  }

  ghost predicate Topped(pids: seq<int>, st: Stacks)
    requires |pids| == MAX_TERMINALS && Based(st)
  {
    forall t | 0 <= t < MAX_TERMINALS :: pids[t] == TopOf(st[t])
  }

  /** The table holds exactly the stacks: disjoint parent chains whose union is the set of used pids, with the
      top of each recorded twice as its terminal's current pid. */
  ghost predicate TableHolds(b: Table, st: Stacks)
    requires TableOk(b)
  {
    Based(st) && Disjoint(st) && Linked(b, st) && Used(b.pidArr, st) && Topped(b.currPids, st)
        && Topped(b.termPids, st)
  }

  ghost predicate Holds(k: Kernel, st: Stacks)
    requires Shaped(k)
  {
    TableHolds(TableOf(k), st)
  }

  // ----- Free pids.

  lemma BasesAreFirst(st: Stacks)
    requires Based(st) && Disjoint(st)
    ensures forall p | 0 <= p < MAX_TERMINALS :: Listed(st, p)
    ensures forall t, i | 0 <= t < MAX_TERMINALS && 0 < i < |st[t]| :: !(0 <= st[t][i] < MAX_TERMINALS)
  {
    var a, b, c := st[0][0], st[1][0], st[2][0];
    assert a != b && b != c && a != c;
    forall p | 0 <= p < MAX_TERMINALS ensures Listed(st, p) {
      var t := if p == a then 0 else if p == b then 1 else 2;
      assert st[t][0] == p;
    }
    forall t, i | 0 <= t < MAX_TERMINALS && 0 < i < |st[t]| ensures !(0 <= st[t][i] < MAX_TERMINALS) {
      assert forall u | 0 <= u < MAX_TERMINALS :: st[u][0] != st[t][i];
    }
  }

  /** Users never get one of the base shells' pids. */
  lemma FreePidIsHigh(b: Table, st: Stacks)
    requires TableOk(b) && TableHolds(b, st)
    ensures MAX_TERMINALS <= LowestFree(b.pidArr)
    ensures LowestFree(b.pidArr) < PROCESS_LIMIT ==> !Listed(st, LowestFree(b.pidArr))
  {
    BasesAreFirst(st);
  }

  // ----- Pushing and popping.

  function Pushed(st: Stacks, t: int, p: int): Stacks
    requires 0 <= t < |st|
  {
    st[t := st[t] + [p]]
  }

  lemma PushedListed(st: Stacks, t: int, p: int)
    requires 0 <= t < |st|
    ensures forall q :: Listed(Pushed(st, t, p), q) <==> Listed(st, q) || q == p
  {
    var after := Pushed(st, t, p);
    forall q ensures Listed(after, q) <==> Listed(st, q) || q == p {
      if Listed(st, q) {
        var u, i :| 0 <= u < |st| && 0 <= i < |st[u]| && st[u][i] == q;
        assert after[u][i] == q;
      }
      assert after[t][|st[t]|] == p;
    }
  }

  lemma PushedDisjoint(st: Stacks, t: int, p: int)
    requires 0 <= t < |st| && Disjoint(st) && !Listed(st, p)
    ensures Disjoint(Pushed(st, t, p))
  {
  }

  function Popped(st: Stacks, t: int): Stacks
    requires 0 <= t < |st| && st[t] != []
  {
    st[t := st[t][..|st[t]| - 1]]
  }

  lemma PoppedListed(st: Stacks, t: int)
    requires 0 <= t < |st| && st[t] != [] && Disjoint(st)
    ensures forall q :: Listed(Popped(st, t), q) <==> Listed(st, q) && q != TopOf(st[t])
    ensures Disjoint(Popped(st, t))
  {
    var after := Popped(st, t);
    forall q ensures Listed(after, q) <==> Listed(st, q) && q != TopOf(st[t]) {
      if Listed(st, q) && q != TopOf(st[t]) {
        var u, i :| 0 <= u < |st| && 0 <= i < |st[u]| && st[u][i] == q;
        assert after[u][i] == q;
      }
      if Listed(after, q) {
        var u, i :| 0 <= u < |after| && 0 <= i < |after[u]| && after[u][i] == q;
        assert st[u][i] == q;
      }
    }
  }

  // ----- The steps on the table alone.

  function LatestIn(b: Table): int
    requires TableOk(b)
  {
    if b.currPids[b.current - 1] == -1 then 0 else b.currPids[b.current - 1]
  }

  function Begun(b: Table): (r: Table)
    requires TableOk(b) && LowestFree(b.pidArr) < PROCESS_LIMIT
    ensures TableOk(r)
  {
    var p, t := LowestFree(b.pidArr), b.current - 1;
    Table(b.pidArr[p := 1], b.currPids[t := p], b.termPids[t := p], b.current,
          b.pids[p := p], b.parents[p := if p < MAX_TERMINALS then p else LatestIn(b)])
  }

  function Ended(b: Table, p: int): (r: Table)
    requires TableOk(b) && 0 <= p < PROCESS_LIMIT
    ensures TableOk(r)
  {
    var parent, t := b.parents[p], b.current - 1;
    if b.pidArr[b.pids[p]] == 1 then
      b.(pidArr := b.pidArr[b.pids[p] := 0], currPids := b.currPids[t := parent], termPids := b.termPids[t := parent])
    else b
  }

  lemma TableStarted(k: Kernel)
    requires Shaped(k) && LowestFree(k.pidArr) < PROCESS_LIMIT
    ensures TableOf(Started(k)) == Begun(TableOf(k))
  {
  }

  lemma TableParsed(k: Kernel, p: Parse)
    requires Shaped(k)
    ensures TableOf(Parsed(k, p)) == TableOf(k)
  {
  }

  lemma TableUnassigned(k: Kernel, p: int)
    requires Shaped(k) && 0 <= p < PROCESS_LIMIT
    ensures TableOf(PidUnassigned(k, k.pcbs[p].pid, k.pcbs[p].parentPid)) == Ended(TableOf(k), p)
  {
  }

  lemma TableClosed(k: Kernel, gone: int, n: int)
    requires Shaped(k) && 0 <= gone < PROCESS_LIMIT && FIRST_FD <= n <= MAX_OPEN_FILES
    ensures TableOf(ClosedUpTo(k, gone, n)) == TableOf(k)
  {
    ClosedKeepsIds(k, gone, n);
  }

  lemma TableExecuted(k: Kernel, p: Parse)
    requires Shaped(k)
    ensures var b := TableOf(k);
            TableOf(Executed(k, p)) == if LowestFree(b.pidArr) == PROCESS_LIMIT then b
                                       else if p.Accepted? then Begun(b)
                                       else Ended(Begun(b), LowestFree(b.pidArr))
  {
    hide Started, Parsed, PidUnassigned, ClosedUpTo, TableOf, Shaped, TableOk;
    var pid := LowestFree(k.pidArr);
    SamePidArr(k);
    if pid < PROCESS_LIMIT {
      TableStarted(k);
      var a := Parsed(Started(k), p);
      TableParsed(Started(k), p);
      if !p.Accepted? {
        StartedPid(k, p);
        TableUnassigned(a, pid);
        TableClosed(PidUnassigned(a, pid, a.pcbs[pid].parentPid), pid, MAX_OPEN_FILES);
      }
    }
  }

  lemma SamePidArr(k: Kernel)
    requires Shaped(k)
    ensures TableOf(k).pidArr == k.pidArr && |k.pidArr| == PROCESS_LIMIT && TableOk(TableOf(k))
  {
  }

  lemma StartedPid(k: Kernel, p: Parse)
    requires Shaped(k) && LowestFree(k.pidArr) < PROCESS_LIMIT
    ensures var a, pid := Parsed(Started(k), p), LowestFree(k.pidArr);
            |a.pcbs| == PROCESS_LIMIT && a.pcbs[pid].pid == pid && 0 <= a.pcbs[pid].parentPid < PROCESS_LIMIT
  {
  }

  function Stopped(b: Table): (r: Table)
    requires TableOk(b)
    ensures TableOk(r)
  {
    var p := LatestIn(b);
    var c := Ended(b, p);
    if b.pids[p] != b.parents[p] then c.(pids := c.pids[p := b.parents[p]])
    else if LowestFree(c.pidArr) < PROCESS_LIMIT then Begun(c)
    else c
  }

  lemma TableHalted(k: Kernel, shell: Parse)
    requires Shaped(k) && shell.Accepted?
    ensures TableOf(Halted(k, shell)) == Stopped(TableOf(k))
  {
    var p := LatestPid(k);
    TableFields(k, p);
    TableUnassigned(k, p);
    hide PidUnassigned, ClosedUpTo, Executed, Shaped, TableOf, Ended, Begun, TableOk;
    var u := PidUnassigned(k, k.pcbs[p].pid, k.pcbs[p].parentPid);
    TableClosed(u, p, MAX_OPEN_FILES);
    var c := ClosedUpTo(u, p, MAX_OPEN_FILES);
    SamePidArr(c);
    TableExecuted(c, shell);
    TablePid(c, p, k.pcbs[p].parentPid);
  }

  lemma TableFields(k: Kernel, p: int)
    requires Shaped(k) && 0 <= p < PROCESS_LIMIT
    ensures |k.pcbs| == PROCESS_LIMIT && TableOk(TableOf(k)) && LatestIn(TableOf(k)) == LatestPid(k)
    ensures 0 <= k.pcbs[p].pid < PROCESS_LIMIT && 0 <= k.pcbs[p].parentPid < PROCESS_LIMIT
    ensures TableOf(k).pids[p] == k.pcbs[p].pid && TableOf(k).parents[p] == k.pcbs[p].parentPid
  {
  }

  lemma TablePid(k: Kernel, p: int, pid: int)
    requires Shaped(k) && 0 <= p < PROCESS_LIMIT && 0 <= pid < PROCESS_LIMIT
    ensures |k.pcbs| == PROCESS_LIMIT && |TableOf(k).pids| == PROCESS_LIMIT
    ensures var r := k.(pcbs := k.pcbs[p := k.pcbs[p].(pid := pid)]);
            Shaped(r) && TableOf(r) == TableOf(k).(pids := TableOf(k).pids[p := pid])
  {
  }

  // ----- What each step does to the stacks.

  lemma Shape(b: Table)
    requires TableOk(b)
    ensures |b.pidArr| == PROCESS_LIMIT && |b.currPids| == MAX_TERMINALS && |b.termPids| == MAX_TERMINALS
    ensures |b.pids| == PROCESS_LIMIT && |b.parents| == PROCESS_LIMIT && 1 <= b.current <= MAX_TERMINALS
    ensures 0 <= LatestIn(b) < PROCESS_LIMIT
  {
  }

  /** The i-th process of terminal t in the table. */
  lemma Facts(b: Table, st: Stacks, t: int, i: int)
    requires TableOk(b) && TableHolds(b, st) && 0 <= t < |st| && 0 <= i < |st[t]|
    ensures 0 <= st[t][i] < PROCESS_LIMIT == |b.pids| == |b.parents| == |b.pidArr|
    ensures b.pids[st[t][i]] == st[t][i] && b.parents[st[t][i]] == ParentIn(st[t], i)
    ensures Listed(st, st[t][i]) && b.pidArr[st[t][i]] == 1
  {
  }

  lemma LatestIsTop(b: Table, st: Stacks)
    requires TableOk(b) && TableHolds(b, st)
    ensures |st| == MAX_TERMINALS && st[b.current - 1] != [] && LatestIn(b) == TopOf(st[b.current - 1])
    ensures b.currPids[b.current - 1] == b.termPids[b.current - 1] == LatestIn(b)
  {
    hide Listed, Disjoint, Linked, Used;
    var t := b.current - 1;
    Facts(b, st, t, |st[t]| - 1);
    assert b.currPids[t] == b.termPids[t] == TopOf(st[t]);
  }

  lemma BegunLinked(b: Table, st: Stacks)
    requires TableOk(b) && TableHolds(b, st) && LowestFree(b.pidArr) < PROCESS_LIMIT
    ensures Linked(Begun(b), Pushed(st, b.current - 1, LowestFree(b.pidArr)))
  {
    hide TableHolds, Listed, TableOk, LatestIn, LowestFree;
    Shape(b);
    var p, t := LowestFree(b.pidArr), b.current - 1;
    FreePidIsHigh(b, st);
    LatestIsTop(b, st);
    var r, after := Begun(b), Pushed(st, t, p);
    forall u, i | 0 <= u < |after| && 0 <= i < |after[u]|
      ensures 0 <= after[u][i] < PROCESS_LIMIT && r.pids[after[u][i]] == after[u][i]
      ensures r.parents[after[u][i]] == ParentIn(after[u], i)
    {
      if u != t || i < |st[t]| {
        Facts(b, st, u, i);
      }
    }
  }

  lemma BegunUsed(b: Table, st: Stacks)
    requires TableOk(b) && Used(b.pidArr, st) && LowestFree(b.pidArr) < PROCESS_LIMIT && |st| == MAX_TERMINALS
    ensures Used(Begun(b).pidArr, Pushed(st, b.current - 1, LowestFree(b.pidArr)))
  {
    PushedListed(st, b.current - 1, LowestFree(b.pidArr));
    hide Listed;
  }

  lemma PushedTopped(pids: seq<int>, st: Stacks, t: int, p: int)
    requires |pids| == MAX_TERMINALS && Based(st) && Topped(pids, st) && 0 <= t < MAX_TERMINALS
    ensures Based(Pushed(st, t, p)) && Topped(pids[t := p], Pushed(st, t, p))
  {
  }

  lemma BegunHolds(b: Table, st: Stacks)
    requires TableOk(b) && TableHolds(b, st) && LowestFree(b.pidArr) < PROCESS_LIMIT
    ensures TableHolds(Begun(b), Pushed(st, b.current - 1, LowestFree(b.pidArr)))
  {
    var p, t := LowestFree(b.pidArr), b.current - 1;
    FreePidIsHigh(b, st);
    BegunLinked(b, st);
    hide Linked, Disjoint, Listed, Used, Topped, Based;
    BegunUsed(b, st) by { Shape(b); LatestIsTop(b, st); }
    PushedTopped(b.currPids, st, t, p);
    PushedTopped(b.termPids, st, t, p);
    PushedDisjoint(st, t, p) by { LatestIsTop(b, st); }
  }

  /** What begins and fails at once leaves the pid table and the current pids as they were. */
  lemma BegunEnded(b: Table, st: Stacks)
    requires TableOk(b) && TableHolds(b, st) && LowestFree(b.pidArr) < PROCESS_LIMIT
    ensures var r := Ended(Begun(b), LowestFree(b.pidArr));
            r == b.(pids := r.pids, parents := r.parents)
            && forall q | 0 <= q < PROCESS_LIMIT && Listed(st, q) :: r.pids[q] == b.pids[q]
                && r.parents[q] == b.parents[q]
  {
    hide TableHolds, Listed, TableOk, LatestIn, LowestFree;
    Shape(b);
    FreePidIsHigh(b, st);
    LatestIsTop(b, st);
    var p, t := LowestFree(b.pidArr), b.current - 1;
    assert b.pidArr[p := 1][p := 0] == b.pidArr;
    assert b.currPids[t := p][t := LatestIn(b)] == b.currPids;
    assert b.termPids[t := p][t := LatestIn(b)] == b.termPids;
  }

  lemma SamePidsHold(b: Table, r: Table, st: Stacks)
    requires TableOk(b) && TableOk(r) && TableHolds(b, st) && r == b.(pids := r.pids, parents := r.parents)
    requires forall q | 0 <= q < PROCESS_LIMIT && Listed(st, q) ::
        r.pids[q] == b.pids[q] && r.parents[q] == b.parents[q]
    ensures TableHolds(r, st)
  {
  }

  lemma PoppedLinked(b: Table, st: Stacks, t: int)
    requires TableOk(b) && Linked(b, st) && 0 <= t < |st| && |st[t]| > 1
    ensures Linked(b, Popped(st, t))
  {
  }

  lemma PoppedTopped(pids: seq<int>, st: Stacks, t: int)
    requires |pids| == MAX_TERMINALS && Based(st) && Topped(pids, st) && 0 <= t < MAX_TERMINALS && |st[t]| > 1
    ensures Based(Popped(st, t)) && Topped(pids[t := st[t][|st[t]| - 2]], Popped(st, t))
  {
  }

  lemma PoppedUsed(pidArr: seq<int>, st: Stacks, t: int)
    requires |pidArr| == PROCESS_LIMIT && Used(pidArr, st) && Disjoint(st)
    requires 0 <= t < |st| && st[t] != [] && 0 <= TopOf(st[t]) < PROCESS_LIMIT
    ensures Used(pidArr[TopOf(st[t]) := 0], Popped(st, t))
    ensures Disjoint(Popped(st, t)) && !Listed(Popped(st, t), TopOf(st[t]))
  {
    PoppedListed(st, t);
    hide Listed, Disjoint, Popped;
  }

  lemma EndedHolds(b: Table, st: Stacks)
    requires TableOk(b) && TableHolds(b, st) && |st[b.current - 1]| > 1
    ensures TableHolds(Ended(b, TopOf(st[b.current - 1])), Popped(st, b.current - 1))
    ensures !Listed(Popped(st, b.current - 1), TopOf(st[b.current - 1]))
  {
    hide Linked, Disjoint, Listed, Topped, Based, Used;
    LatestIsTop(b, st);
    var t := b.current - 1;
    Facts(b, st, t, |st[t]| - 1);
    PoppedUsed(b.pidArr, st, t);
    PoppedLinked(b, st, t);
    PoppedTopped(b.currPids, st, t);
    PoppedTopped(b.termPids, st, t);
    LinkedIgnores(b, Ended(b, TopOf(st[t])), Popped(st, t));
  }

  lemma LinkedIgnores(b: Table, c: Table, st: Stacks)
    requires TableOk(b) && TableOk(c) && b.pids == c.pids && b.parents == c.parents && Linked(b, st)
    ensures Linked(c, st)
  {
  }

  lemma StoppedChild(b: Table, st: Stacks)
    requires TableOk(b) && TableHolds(b, st) && |st[b.current - 1]| > 1
    ensures TableHolds(Stopped(b), Popped(st, b.current - 1))
  {
    var t := b.current - 1;
    var p, after := TopOf(st[t]), Popped(st, t);
    LatestIsTop(b, st);
    Facts(b, st, t, |st[t]| - 1);
    Facts(b, st, t, |st[t]| - 2);
    EndedHolds(b, st);
    DistinctTop(st, t);
    hide TableHolds, Listed;
    SamePidsHold(Ended(b, p), Stopped(b), after);
  }

  lemma DistinctTop(st: Stacks, t: int)
    requires Disjoint(st) && 0 <= t < |st| && |st[t]| > 1
    ensures TopOf(st[t]) != st[t][|st[t]| - 2]
  {
  }

  lemma StoppedBase(b: Table, st: Stacks)
    requires TableOk(b) && TableHolds(b, st) && |st[b.current - 1]| == 1
    ensures Stopped(b) == b
  {
    hide TableHolds, Listed, TableOk, LatestIn, LowestFree;
    Shape(b);
    LatestIsTop(b, st);
    var t := b.current - 1;
    var p := st[t][0];
    Facts(b, st, t, 0);
    BasesUsed(b, st);
    var c := Ended(b, p);
    LowestFreeIs(c.pidArr, p);
    assert b.pidArr[p := 0][p := 1] == b.pidArr;
    assert b.pids[p := p] == b.pids && b.parents[p := p] == b.parents;
    assert b.currPids[t := p][t := p] == b.currPids && b.termPids[t := p][t := p] == b.termPids;
  }

  lemma BasesUsed(b: Table, st: Stacks)
    requires TableOk(b) && TableHolds(b, st)
    ensures forall p | 0 <= p < MAX_TERMINALS :: b.pidArr[p] == 1
    ensures |st| == MAX_TERMINALS && forall t | 0 <= t < MAX_TERMINALS :: st[t] != [] && 0 <= st[t][0] < MAX_TERMINALS
  {
    BasesAreFirst(st);
  }

  // ----- Descriptors.

  /** Only descriptors from 2 up are ever active, and only on something that can be closed. */
  ghost predicate FdOk(fds: seq<Fd>)
  {
    && |fds| == MAX_OPEN_FILES
    && forall i | 0 <= i < MAX_OPEN_FILES && fds[i].active :: i >= FIRST_FD && Closes(fds[i].ops)
  }

  ghost predicate Quiet(fds: seq<Fd>, n: int)
    requires |fds| == MAX_OPEN_FILES && n <= MAX_OPEN_FILES
  {
    forall i | FIRST_FD <= i < n :: !fds[i].active
  }

  predicate StdOk(fds: seq<Fd>)
    requires |fds| == MAX_OPEN_FILES
  {
    fds[0].ops == Stdin && fds[1].ops == Stdout
  }

  ghost predicate PcbHolds(used: int, fds: seq<Fd>)
  {
    FdOk(fds) && if used == 1 then StdOk(fds) else Quiet(fds, MAX_OPEN_FILES)
  }

  /** Dead pids have no active descriptor and live ones have their standard streams. */
  ghost predicate FdsHold(k: Kernel)
    requires Shaped(k)
  {
    forall p | 0 <= p < PROCESS_LIMIT :: PcbHolds(k.pidArr[p], k.pcbs[p].fds)
  }

  lemma FdClosedOk(fds: seq<Fd>, i: int)
    requires FdOk(fds) && FIRST_FD <= i < MAX_OPEN_FILES
    ensures var r := FdClosed(fds, i);
            && FdOk(r) && !r[i].active
            && (forall j | 0 <= j < MAX_OPEN_FILES && j != i :: r[j] == fds[j])
    ensures var r := Cleared(fds, i);
            && FdOk(r) && !r[i].active
            && (forall j | 0 <= j < MAX_OPEN_FILES && j != i :: r[j] == fds[j])
  {
  }

  /** What the closing loop leaves of one process: nothing active in the one that goes away nor in the one that
      is the latest, everything as it was in the others. */
  ghost predicate ClosedIn(was: seq<Fd>, now: seq<Fd>, emptied: bool, n: int)
    requires |was| == MAX_OPEN_FILES && FIRST_FD <= n <= MAX_OPEN_FILES
  {
    && FdOk(now)
    && (if emptied then Quiet(now, n) else now == was)
    && (forall j | 0 <= j < FIRST_FD || n <= j < MAX_OPEN_FILES :: now[j] == was[j])
  }

  /** What one round of the closing loop leaves of process p. */
  lemma ClosedRound(b: Kernel, l: int, gone: int, i: int, p: int)
    requires Shaped(b) && 0 <= gone < PROCESS_LIMIT && 0 <= l < PROCESS_LIMIT && FIRST_FD <= i < MAX_OPEN_FILES
    requires 0 <= p < PROCESS_LIMIT && FdOk(b.pcbs[p].fds)
    ensures var closed := WithFds(b, l, FdClosed(b.pcbs[l].fds, i));
            var r := WithFds(closed, gone, Cleared(closed.pcbs[gone].fds, i));
            && FdOk(r.pcbs[p].fds)
            && (if p == gone || p == l then
                  !r.pcbs[p].fds[i].active
                  && forall j | 0 <= j < MAX_OPEN_FILES && j != i :: r.pcbs[p].fds[j] == b.pcbs[p].fds[j]
                else r.pcbs[p].fds == b.pcbs[p].fds)
  {
    var closed := WithFds(b, l, FdClosed(b.pcbs[l].fds, i));
    FdClosedOk(b.pcbs[p].fds, i);
    if p == l {
      FdClosedOk(closed.pcbs[p].fds, i);
    }
    hide FdClosed, Cleared, FdOk;
  }

  lemma ClosedInStep(was: seq<Fd>, mid: seq<Fd>, now: seq<Fd>, emptied: bool, n: int)
    requires |was| == MAX_OPEN_FILES && FIRST_FD < n <= MAX_OPEN_FILES && ClosedIn(was, mid, emptied, n - 1)
    requires FdOk(now)
    requires if emptied then !now[n - 1].active && forall j | 0 <= j < MAX_OPEN_FILES && j != n - 1 :: now[j] == mid[j]
             else now == mid
    ensures ClosedIn(was, now, emptied, n)
  {
  }

  lemma ClosedFdsStep(k: Kernel, gone: int, i: int, p: int)
    requires Shaped(k) && 0 <= gone < PROCESS_LIMIT && FIRST_FD <= i < MAX_OPEN_FILES && 0 <= p < PROCESS_LIMIT
    requires ClosedIn(k.pcbs[p].fds, ClosedUpTo(k, gone, i).pcbs[p].fds, p == gone || p == LatestPid(k), i)
    ensures ClosedIn(k.pcbs[p].fds, ClosedUpTo(k, gone, i + 1).pcbs[p].fds, p == gone || p == LatestPid(k), i + 1)
  {
    hide FdClosed, Cleared, FdOk, WithFds, LatestPid, ClosedUpTo, ClosedIn;
    var b, l := ClosedUpTo(k, gone, i), LatestPid(k);
    ClosedStep(k, gone, i);
    ClosedInOk(k.pcbs[p].fds, b.pcbs[p].fds, p == gone || p == l, i);
    ClosedRound(b, l, gone, i, p);
    KernelShape(k);
    hide Shaped;
    ClosedInStep(k.pcbs[p].fds, b.pcbs[p].fds, ClosedUpTo(k, gone, i + 1).pcbs[p].fds, p == gone || p == l, i + 1);
  }

  lemma {:induction false} ClosedFdsAt(k: Kernel, gone: int, n: int, p: int)
    requires Shaped(k) && 0 <= gone < PROCESS_LIMIT && FIRST_FD <= n <= MAX_OPEN_FILES
    requires 0 <= p < PROCESS_LIMIT && FdOk(k.pcbs[p].fds)
    ensures ClosedIn(k.pcbs[p].fds, ClosedUpTo(k, gone, n).pcbs[p].fds, p == gone || p == LatestPid(k), n)
  {
    if n > FIRST_FD {
      hide ClosedUpTo, ClosedIn, LatestPid;
      ClosedFdsAt(k, gone, n - 1, p);
      ClosedFdsStep(k, gone, n - 1, p);
    }
  }

  lemma ClosedInOk(was: seq<Fd>, now: seq<Fd>, emptied: bool, n: int)
    requires |was| == MAX_OPEN_FILES && FIRST_FD <= n <= MAX_OPEN_FILES && ClosedIn(was, now, emptied, n)
    ensures FdOk(now)
  {
  }

  lemma ClosedFds(k: Kernel, gone: int, n: int)
    requires Shaped(k) && 0 <= gone < PROCESS_LIMIT && FIRST_FD <= n <= MAX_OPEN_FILES
    requires forall p | 0 <= p < PROCESS_LIMIT :: FdOk(k.pcbs[p].fds)
    ensures forall p | 0 <= p < PROCESS_LIMIT ::
              ClosedIn(k.pcbs[p].fds, ClosedUpTo(k, gone, n).pcbs[p].fds, p == gone || p == LatestPid(k), n)
  {
    hide ClosedUpTo, ClosedIn, FdOk, LatestPid;
    forall p | 0 <= p < PROCESS_LIMIT
      ensures ClosedIn(k.pcbs[p].fds, ClosedUpTo(k, gone, n).pcbs[p].fds, p == gone || p == LatestPid(k), n)
    {
      ClosedFdsAt(k, gone, n, p);
    }
  }

  lemma StartedFds(k: Kernel)
    requires Shaped(k) && FdsHold(k) && LowestFree(k.pidArr) < PROCESS_LIMIT
    ensures FdsHold(Started(k)) && Quiet(Started(k).pcbs[LowestFree(k.pidArr)].fds, MAX_OPEN_FILES)
  {
    hide Shaped;
    var pid, r := LowestFree(k.pidArr), Started(k);
    KernelShape(k);
    assert PcbHolds(k.pidArr[pid], k.pcbs[pid].fds);
    forall p | 0 <= p < PROCESS_LIMIT ensures PcbHolds(r.pidArr[p], r.pcbs[p].fds) {
      assert PcbHolds(k.pidArr[p], k.pcbs[p].fds);
    }
  }

  lemma KernelShape(k: Kernel)
    requires Shaped(k)
    ensures |k.pcbs| == PROCESS_LIMIT && |k.pidArr| == PROCESS_LIMIT && 0 <= LatestPid(k) < PROCESS_LIMIT
    ensures forall p | 0 <= p < PROCESS_LIMIT :: |k.pcbs[p].fds| == MAX_OPEN_FILES
    ensures forall p | 0 <= p < PROCESS_LIMIT ::
        0 <= k.pcbs[p].pid < PROCESS_LIMIT && 0 <= k.pcbs[p].parentPid < PROCESS_LIMIT
  {
  }

  lemma ParsedFds(k: Kernel, parse: Parse)
    requires Shaped(k) && FdsHold(k)
    ensures FdsHold(Parsed(k, parse))
    ensures forall p | 0 <= p < PROCESS_LIMIT ::
              Quiet(k.pcbs[p].fds, MAX_OPEN_FILES) ==> Quiet(Parsed(k, parse).pcbs[p].fds, MAX_OPEN_FILES)
  {
  }

  lemma ClosedFdsHold(k: Kernel, gone: int)
    requires Shaped(k) && 0 <= gone < PROCESS_LIMIT && k.pidArr[gone] == 0 && FdOk(k.pcbs[gone].fds)
    requires forall p | 0 <= p < PROCESS_LIMIT && p != gone :: PcbHolds(k.pidArr[p], k.pcbs[p].fds)
    ensures FdsHold(ClosedUpTo(k, gone, MAX_OPEN_FILES))
    ensures Quiet(ClosedUpTo(k, gone, MAX_OPEN_FILES).pcbs[LatestPid(k)].fds, MAX_OPEN_FILES)
  {
    var r := ClosedUpTo(k, gone, MAX_OPEN_FILES);
    ClosedFds(k, gone, MAX_OPEN_FILES);
    ClosedKeepsIds(k, gone, MAX_OPEN_FILES);
    KernelShape(k);
    KernelShape(r);
    hide Shaped, ClosedUpTo, FdOk, LatestPid;
    forall p | 0 <= p < PROCESS_LIMIT ensures PcbHolds(r.pidArr[p], r.pcbs[p].fds) {
      assert ClosedIn(k.pcbs[p].fds, r.pcbs[p].fds, p == gone || p == LatestPid(k), MAX_OPEN_FILES);
    }
  }

  /** Every process starts with its standard streams and nothing else open; an execute that fails leaves the
      dead pid quiet too. */
  lemma ExecuteFds(k: Kernel, parse: Parse)
    requires Shaped(k) && FdsHold(k)
    ensures FdsHold(Executed(k, parse))
    ensures LowestFree(k.pidArr) < PROCESS_LIMIT ==>
        Quiet(Executed(k, parse).pcbs[LowestFree(k.pidArr)].fds, MAX_OPEN_FILES)
    ensures LowestFree(k.pidArr) < PROCESS_LIMIT && parse.Accepted? ==>
        StdOk(Executed(k, parse).pcbs[LowestFree(k.pidArr)].fds)
  {
    var pid := LowestFree(k.pidArr);
    if pid < PROCESS_LIMIT {
      StartedFds(k);
      var a := Parsed(Started(k), parse);
      ParsedFds(Started(k), parse);
      StartedPid(k, parse);
      StartedUsed(k, parse);
      hide Started, Parsed, Shaped, FdOk, StdOk, Quiet, ClosedUpTo;
      assert PcbHolds(a.pidArr[pid], a.pcbs[pid].fds);
      if !parse.Accepted? {
        var u := PidUnassigned(a, pid, a.pcbs[pid].parentPid);
        ClosedFdsHold(u, pid) by { UnassignedFds(a, pid); }
        assert PcbHolds(Executed(k, parse).pidArr[pid], Executed(k, parse).pcbs[pid].fds);
        ClosedKeepsIds(u, pid, MAX_OPEN_FILES);
        assert u.pidArr[pid] == 0 by { UnassignedFds(a, pid); }
      }
    }
  }

  /** A failed execute closes every descriptor of its caller: the closing loop runs after the pid is given back. */
  lemma FailedExecuteClosesCaller(k: Kernel, st: Stacks, parse: Parse)
    requires Shaped(k) && Holds(k, st) && FdsHold(k) && !parse.Accepted? && LowestFree(k.pidArr) < PROCESS_LIMIT
    ensures Quiet(Executed(k, parse).pcbs[LatestPid(k)].fds, MAX_OPEN_FILES)
  {
    var pid := LowestFree(k.pidArr);
    StartedParent(k, st, parse);
    StartedFds(k);
    var a := Parsed(Started(k), parse);
    ParsedFds(Started(k), parse);
    hide Started, Parsed, FdOk, StdOk, Quiet, ClosedUpTo, Holds, Shaped;
    UnassignedFds(a, pid);
    UnassignedLatest(a, pid);
    ClosedFdsHold(PidUnassigned(a, pid, a.pcbs[pid].parentPid), pid);
  }

  lemma StartedParent(k: Kernel, st: Stacks, parse: Parse)
    requires Shaped(k) && Holds(k, st) && LowestFree(k.pidArr) < PROCESS_LIMIT
    ensures var a, pid := Parsed(Started(k), parse), LowestFree(k.pidArr);
            |a.pcbs| == |a.pidArr| == PROCESS_LIMIT && a.pidArr[pid] == 1 && a.pcbs[pid].parentPid == LatestPid(k)
    ensures 0 <= LatestPid(k) < PROCESS_LIMIT
  {
    hide TableHolds;
    SamePidArr(k);
    FreePidIsHigh(TableOf(k), st);
  }

  lemma StartedUsed(k: Kernel, p: Parse)
    requires Shaped(k) && LowestFree(k.pidArr) < PROCESS_LIMIT
    ensures Parsed(Started(k), p).pidArr == k.pidArr[LowestFree(k.pidArr) := 1]
    ensures |k.pidArr| == PROCESS_LIMIT
  {
  }

  lemma UnassignedFds(a: Kernel, pid: int)
    requires Shaped(a) && FdsHold(a) && 0 <= pid < PROCESS_LIMIT && a.pidArr[pid] == 1
    requires 0 <= a.pcbs[pid].parentPid < PROCESS_LIMIT
    ensures var u := PidUnassigned(a, pid, a.pcbs[pid].parentPid);
            && u.pidArr[pid] == 0 && FdOk(u.pcbs[pid].fds)
            && forall p | 0 <= p < PROCESS_LIMIT && p != pid :: PcbHolds(u.pidArr[p], u.pcbs[p].fds)
  {
  }

  /** halt leaves nothing active in the process that goes away, nor in the one it returns to. */
  lemma HaltFds(k: Kernel, st: Stacks, shell: Parse)
    requires Shaped(k) && Holds(k, st) && FdsHold(k)
    ensures FdsHold(Halted(k, shell))
    ensures var stack := st[Term(k)];
            |stack| > 1 ==> Quiet(Halted(k, shell).pcbs[stack[|stack| - 2]].fds, MAX_OPEN_FILES)
  {
    var p := LatestPid(k);
    LatestFacts(k, st);
    KernelShape(k);
    var u := PidUnassigned(k, p, k.pcbs[p].parentPid);
    UnassignedFds(k, p);
    ClosedFdsHold(u, p);
    var c := ClosedUpTo(u, p, MAX_OPEN_FILES);
    UnassignedLatest(k, p);
    hide FdOk, Quiet, StdOk, ClosedUpTo, Holds, Shaped, PidUnassigned;
    KernelShape(c);
    if k.pcbs[p].pid == k.pcbs[p].parentPid {
      ExecuteFds(c, shell);
    } else {
      var r := Halted(k, shell);
      assert r.pidArr == c.pidArr;
      forall q | 0 <= q < PROCESS_LIMIT ensures PcbHolds(r.pidArr[q], r.pcbs[q].fds) {
        assert PcbHolds(c.pidArr[q], c.pcbs[q].fds);
      }
    }
  }

  lemma UnassignedLatest(k: Kernel, p: int)
    requires Shaped(k) && 0 <= p < PROCESS_LIMIT && k.pidArr[p] == 1
    ensures 0 <= k.pcbs[p].parentPid < PROCESS_LIMIT
    ensures LatestPid(PidUnassigned(k, p, k.pcbs[p].parentPid)) == k.pcbs[p].parentPid
  {
  }

  lemma LatestFacts(k: Kernel, st: Stacks)
    requires Shaped(k) && Holds(k, st)
    ensures |st| == MAX_TERMINALS && st[Term(k)] != []
    ensures var stack, p := st[Term(k)], LatestPid(k);
            && p == TopOf(stack) && k.pcbs[p].pid == p && k.pidArr[p] == 1
            && k.pcbs[p].parentPid == ParentIn(stack, |stack| - 1)
            && (|stack| > 1 ==> p != stack[|stack| - 2])
  {
  }

  lemma SameLatest(k: Kernel)
    requires Shaped(k)
    ensures TableOf(k).current == k.current && TableOf(k).pidArr == k.pidArr && 1 <= k.current <= MAX_TERMINALS
  {
  }

  /** The corners of the steps: giving back an unused pid changes nothing, a terminal without a process counts as
      running pid 0, and the block of a program that has halted carries its parent's pid from then on. */
  lemma TableCorners(k: Kernel, st: Stacks, pid: int, parent: int, shell: Parse)
    requires Shaped(k) && 0 <= pid < PROCESS_LIMIT && 0 <= parent < PROCESS_LIMIT && shell.Accepted?
    ensures k.pidArr[pid] != 1 ==> PidUnassigned(k, pid, parent) == k
    ensures k.currPids[Term(k)] == -1 ==> LatestPid(k) == 0
    ensures Holds(k, st) && |st[Term(k)]| > 1 ==>
        |Halted(k, shell).pcbs| == PROCESS_LIMIT
        && Halted(k, shell).pcbs[LatestPid(k)].pid == k.pcbs[LatestPid(k)].parentPid == st[Term(k)][|st[Term(k)]| - 2]
  {
    if Holds(k, st) && |st[Term(k)]| > 1 {
      LatestFacts(k, st);
      TableHalted(k, shell);
      TableFields(k, LatestPid(k));
      KernelShape(Halted(k, shell));
      TableFields(Halted(k, shell), LatestPid(k));
      hide Halted, Holds, Shaped, TableOf, Ended, LatestIn;
    }
  }

  // ----- open and close as an allocator.

  function ActiveCount(fds: seq<Fd>, n: int): (c: nat)
    requires |fds| == MAX_OPEN_FILES && FIRST_FD <= n <= MAX_OPEN_FILES
    ensures c <= n - FIRST_FD
  {
    if n == FIRST_FD then 0 else ActiveCount(fds, n - 1) + if fds[n - 1].active then 1 else 0
  }

  lemma {:induction false} CountFull(fds: seq<Fd>, n: int)
    requires |fds| == MAX_OPEN_FILES && FIRST_FD <= n <= MAX_OPEN_FILES
    ensures ActiveCount(fds, n) == n - FIRST_FD <==> forall i | FIRST_FD <= i < n :: fds[i].active
  {
    if n > FIRST_FD {
      CountFull(fds, n - 1);
    }
  }

  lemma {:induction false} CountUpdate(fds: seq<Fd>, i: int, fd: Fd, n: int)
    requires |fds| == MAX_OPEN_FILES && FIRST_FD <= i < MAX_OPEN_FILES && FIRST_FD <= n <= MAX_OPEN_FILES
    ensures ActiveCount(fds[i := fd], n) == ActiveCount(fds, n)
            + if i < n then (if fd.active then 1 else 0) - (if fds[i].active then 1 else 0) else 0
  {
    if n > FIRST_FD {
      CountUpdate(fds, i, fd, n - 1);
    }
  }

  predicate Openable(name: seq<byte>, found: Lookup)
  {
    0 < |name| <= 33 && found.Some? && 0 <= found.entry.fileType <= 2
  }

  /** open succeeds exactly for an openable name while fewer than six descriptors are active; it then activates
      the lowest inactive one on the entry found and changes nothing else, and otherwise changes nothing. */
  lemma OpenAllocates(fds: seq<Fd>, name: seq<byte>, found: Lookup)
    requires FdOk(fds) && StdOk(fds)
    ensures var r := Opened(fds, name, found);
            var full := MAX_OPEN_FILES - FIRST_FD;
            && FdOk(r.fds) && StdOk(r.fds)
            && (r.ret != -1 <==> Openable(name, found) && ActiveCount(fds, MAX_OPEN_FILES) < full)
            && (r.ret == -1 ==> r.fds == fds)
            && (r.ret != -1 ==>
                  && FIRST_FD <= r.ret < MAX_OPEN_FILES && !fds[r.ret].active
                  && (forall j | FIRST_FD <= j < r.ret :: fds[j].active)
                  && r.fds == fds[r.ret := Fd(OpsFor(found.entry.fileType), found.entry.inode, 0, true)]
                  && ActiveCount(r.fds, MAX_OPEN_FILES) == ActiveCount(fds, MAX_OPEN_FILES) + 1)
  {
    StdRestoredSame(fds, name);
    CountFull(fds, MAX_OPEN_FILES);
    var i := LowestInactive(fds, FIRST_FD);
    if i < MAX_OPEN_FILES && Openable(name, found) {
      CountUpdate(fds, i, Fd(OpsFor(found.entry.fileType), found.entry.inode, 0, true), MAX_OPEN_FILES);
    }
  }

  lemma StdRestoredSame(fds: seq<Fd>, name: seq<byte>)
    requires |fds| == MAX_OPEN_FILES && StdOk(fds)
    ensures StdRestored(fds, name) == fds
  {
  }

  /** close succeeds exactly on an active descriptor, frees and resets it, and changes nothing else. */
  lemma CloseFrees(fds: seq<Fd>, fd: int)
    requires FdOk(fds)
    ensures var r := Closed(fds, fd);
            && FdOk(r.fds) && (StdOk(fds) ==> StdOk(r.fds))
            && (r.ret == 0 <==> 0 <= fd < MAX_OPEN_FILES && fds[fd].active)
            && (r.ret == -1 ==> r.fds == fds)
            && (r.ret == 0 ==> r.fds == fds[fd := Fd(fds[fd].ops, 0, 0, false)]
                               && ActiveCount(r.fds, MAX_OPEN_FILES) == ActiveCount(fds, MAX_OPEN_FILES) - 1)
  {
    if FIRST_FD <= fd < MAX_OPEN_FILES && fds[fd].active {
      CountUpdate(fds, fd, Fd(fds[fd].ops, 0, 0, false), MAX_OPEN_FILES);
    }
  }

  // ----- Runs.

  datatype Call = Execute(parse: Parse) | Halt(shell: Parse) | Select(number: int)
                | OpenFile(name: seq<byte>, found: Lookup) | CloseFile(fd: int)

  /** The shell is a valid program and the keyboard selects existing terminals. */
  predicate Proper(c: Call)
  {
    match c
    case Halt(shell) => shell.Accepted?
    case Select(number) => 1 <= number <= MAX_TERMINALS
    case _ => true
  }

  function Step(k: Kernel, c: Call): (r: Kernel)
    requires Shaped(k) && Proper(c)
    ensures Shaped(r)
  {
    match c
    case Execute(parse) => Executed(k, parse)
    case Halt(shell) => Halted(k, shell)
    case Select(number) => k.(current := number)
    case OpenFile(name, found) => WithFds(k, LatestPid(k), Opened(k.pcbs[LatestPid(k)].fds, name, found).fds)
    case CloseFile(fd) => WithFds(k, LatestPid(k), Closed(k.pcbs[LatestPid(k)].fds, fd).fds)
  }

  /** What a call does to the stacks. */
  function StackStep(k: Kernel, st: Stacks, c: Call): Stacks
    requires Shaped(k) && |st| == MAX_TERMINALS
  {
    match c
    case Execute(parse) =>
      if parse.Accepted? && LowestFree(k.pidArr) < PROCESS_LIMIT
          then Pushed(st, Term(k), LowestFree(k.pidArr)) else st
    case Halt(_) => if |st[Term(k)]| > 1 then Popped(st, Term(k)) else st
    case _ => st
  }

  /** A successful execute pushes the lowest free pid on the displayed terminal's stack, a failed one gives the
      pid back and restores both records of the current pids. */
  lemma ExecuteHolds(k: Kernel, st: Stacks, parse: Parse)
    requires Shaped(k) && Holds(k, st)
    ensures var r, free := Executed(k, parse), LowestFree(k.pidArr);
            && |st| == MAX_TERMINALS
            && Holds(r, if parse.Accepted? && free < PROCESS_LIMIT then Pushed(st, Term(k), free) else st)
            && (!parse.Accepted? || free == PROCESS_LIMIT ==>
                  r.pidArr == k.pidArr && r.currPids == k.currPids && r.termPids == k.termPids)
  {
    hide TableHolds, TableOf, Shaped, Executed, TableOk, Begun, Ended, Pushed, LowestFree;
    var b, r := TableOf(k), Executed(k, parse);
    SameLatest(k);
    SameRecords(k);
    SameRecords(r);
    SamePidArr(k);
    Shape(b);
    TableExecuted(k, parse);
    LatestIsTop(b, st);
    if LowestFree(k.pidArr) < PROCESS_LIMIT {
      BegunOk(b);
      if parse.Accepted? {
        BegunHolds(b, st);
      } else {
        BegunEnded(b, st);
        SamePidsHold(b, Ended(Begun(b), LowestFree(b.pidArr)), st);
      }
    }
  }

  lemma SameRecords(k: Kernel)
    requires Shaped(k)
    ensures TableOf(k).currPids == k.currPids && TableOf(k).termPids == k.termPids && TableOf(k).pidArr == k.pidArr
  {
  }

  /** halt pops the displayed terminal's stack; halting a base shell starts it again, with the same pid, on a
      process table that is the same as before. */
  lemma HaltHolds(k: Kernel, st: Stacks, shell: Parse)
    requires Shaped(k) && Holds(k, st) && shell.Accepted?
    ensures var t := Term(k);
            && |st| == MAX_TERMINALS && st[t] != []
            && Holds(Halted(k, shell), if |st[t]| > 1 then Popped(st, t) else st)
            && (|st[t]| == 1 ==> TableOf(Halted(k, shell)) == TableOf(k))
  {
    hide TableHolds, TableOf, Shaped, Halted, Stopped, TableOk;
    var b := TableOf(k);
    SameLatest(k);
    TableHalted(k, shell);
    SamePidArr(k);
    LatestIsTop(b, st);
    if |st[b.current - 1]| > 1 {
      StoppedChild(b, st);
    } else {
      StoppedBase(b, st);
    }
  }

  lemma SelectHolds(k: Kernel, st: Stacks, number: int)
    requires Shaped(k) && Holds(k, st) && 1 <= number <= MAX_TERMINALS
    ensures Holds(k.(current := number), st)
  {
  }

  lemma StepHolds(k: Kernel, st: Stacks, c: Call)
    requires Shaped(k) && Proper(c) && Holds(k, st)
    ensures |st| == MAX_TERMINALS && Holds(Step(k, c), StackStep(k, st, c))
  {
    hide Holds, Shaped, Executed, Halted, Opened, Closed, WithFds, Pushed, Popped;
    KernelShape(k);
    ThreeStacks(k, st);
    match c
    case Execute(parse) =>
      ExecuteHolds(k, st, parse);
    case Halt(shell) =>
      HaltHolds(k, st, shell);
    case Select(number) =>
      SelectHolds(k, st, number);
    case OpenFile(name, found) =>
      ReplacedHolds(k, st, LatestPid(k), Opened(k.pcbs[LatestPid(k)].fds, name, found).fds);
    case CloseFile(fd) =>
      ReplacedHolds(k, st, LatestPid(k), Closed(k.pcbs[LatestPid(k)].fds, fd).fds);
  }

  lemma ThreeStacks(k: Kernel, st: Stacks)
    requires Shaped(k) && Holds(k, st)
    ensures |st| == MAX_TERMINALS && 0 <= Term(k) < MAX_TERMINALS && st[Term(k)] != []
  {
  }

  lemma ReplacedHolds(k: Kernel, st: Stacks, p: int, fds: seq<Fd>)
    requires Shaped(k) && Holds(k, st) && 0 <= p < PROCESS_LIMIT && |fds| == MAX_OPEN_FILES
    ensures Holds(WithFds(k, p, fds), st)
  {
  }

  lemma BegunOk(b: Table)
    requires TableOk(b) && LowestFree(b.pidArr) < PROCESS_LIMIT
    ensures TableOk(Begun(b)) && TableOk(Ended(Begun(b), LowestFree(b.pidArr)))
  {
  }

  lemma StepFds(k: Kernel, st: Stacks, c: Call)
    requires Shaped(k) && Proper(c) && Holds(k, st) && FdsHold(k)
    ensures FdsHold(Step(k, c))
  {
    match c
    case Execute(parse) => ExecuteFds(k, parse);
    case Halt(shell) => HaltFds(k, st, shell);
    case Select(number) =>
    case OpenFile(name, found) =>
      LatestQuiet(k, st);
      OpenAllocates(k.pcbs[LatestPid(k)].fds, name, found);
      ReplacedFds(k, LatestPid(k), Opened(k.pcbs[LatestPid(k)].fds, name, found).fds);
    case CloseFile(fd) =>
      LatestQuiet(k, st);
      CloseFrees(k.pcbs[LatestPid(k)].fds, fd);
      ReplacedFds(k, LatestPid(k), Closed(k.pcbs[LatestPid(k)].fds, fd).fds);
  }

  /** The process that runs has a well-formed descriptor table. */
  lemma LatestQuiet(k: Kernel, st: Stacks)
    requires Shaped(k) && Holds(k, st) && FdsHold(k)
    ensures k.pidArr[LatestPid(k)] == 1 && FdOk(k.pcbs[LatestPid(k)].fds) && StdOk(k.pcbs[LatestPid(k)].fds)
  {
  }

  lemma ReplacedFds(k: Kernel, p: int, fds: seq<Fd>)
    requires Shaped(k) && FdsHold(k) && 0 <= p < PROCESS_LIMIT && k.pidArr[p] == 1 && FdOk(fds) && StdOk(fds)
    ensures FdsHold(WithFds(k, p, fds))
  {
  }

  function Run(k: Kernel, calls: seq<Call>): (r: Kernel)
    requires Shaped(k) && forall c | c in calls :: Proper(c)
    ensures Shaped(r)
    decreases |calls|
  {
    if calls == [] then k else Run(Step(k, calls[0]), calls[1..])
  }

  ghost function StackRun(k: Kernel, st: Stacks, calls: seq<Call>): Stacks
    requires Shaped(k) && Holds(k, st) && forall c | c in calls :: Proper(c)
    decreases |calls|
  {
    ThreeStacks(k, st);
    if calls == [] then st
    else
      StepHolds(k, st, calls[0]);
      StackRun(Step(k, calls[0]), StackStep(k, st, calls[0]), calls[1..])
  }

  /** Every run of the calls keeps the table on three disjoint parent chains and the descriptors in order. */
  lemma {:induction false} RunHolds(k: Kernel, st: Stacks, calls: seq<Call>)
    requires Shaped(k) && Holds(k, st) && FdsHold(k) && forall c | c in calls :: Proper(c)
    ensures Holds(Run(k, calls), StackRun(k, st, calls)) && FdsHold(Run(k, calls))
    decreases |calls|
  {
    if calls != [] {
      hide Holds, FdsHold, Shaped, Step, StackStep;
      ThreeStacks(k, st);
      StepHolds(k, st, calls[0]);
      StepFds(k, st, calls[0]);
      RunHolds(Step(k, calls[0]), StackStep(k, st, calls[0]), calls[1..]);
    }
  }

  /** Memory as the kernel finds it: no process, no terminal in use, nothing open. */
  ghost predicate Zeroed(k: Kernel)
  {
    && Shaped(k) && k.pidArr == [0, 0, 0, 0, 0, 0, 0] && k.currPids == [-1, -1, -1] && k.termPids == [-1, -1, -1]
    && forall p | 0 <= p < PROCESS_LIMIT :: FdOk(k.pcbs[p].fds) && Quiet(k.pcbs[p].fds, MAX_OPEN_FILES)
  }

  const BOOT_STACKS: Stacks := [[2], [1], [0]]

  lemma BootStep(k: Kernel, shell: Parse, t: int, p: int)
    requires Shaped(k) && FdsHold(k) && shell.Accepted? && 0 <= t < MAX_TERMINALS && 0 <= p < MAX_TERMINALS
    requires k.currPids[t] == -1 && (forall u | t < u < MAX_TERMINALS :: k.currPids[u] != -1)
    requires LowestFree(k.pidArr) == p
    ensures var b, r := TableOf(k), TableOf(Booted(k, shell));
            && r.pidArr == b.pidArr[p := 1] && r.currPids == b.currPids[t := p] && r.termPids == b.termPids[t := p]
            && r.current == t + 1 && r.pids == b.pids[p := p] && r.parents == b.parents[p := p]
    ensures FdsHold(Booted(k, shell)) && |Booted(k, shell).pcbs[p].fds| == MAX_OPEN_FILES
    ensures Quiet(Booted(k, shell).pcbs[p].fds, MAX_OPEN_FILES)
  {
    var c := k.(current := t + 1);
    KernelShape(Executed(c, shell));
    ExecuteFds(c, shell);
    BootedIs(k, shell, t);
    TableExecuted(c, shell);
    SameRecords(k);
    SameRecords(c);
    TableSelected(k, t + 1);
    hide FdsHold, Shaped, Executed, Booted, TableOf;
  }

  lemma BootedIs(k: Kernel, shell: Parse, t: int)
    requires Shaped(k) && 0 <= t < MAX_TERMINALS
    requires k.currPids[t] == -1 && (forall u | t < u < MAX_TERMINALS :: k.currPids[u] != -1)
    ensures Booted(k, shell) == Executed(k.(current := t + 1), shell)
  {
    hide Executed;
  }

  lemma TableSelected(k: Kernel, number: int)
    requires Shaped(k) && 1 <= number <= MAX_TERMINALS
    ensures TableOf(k.(current := number)) == TableOf(k).(current := number)
  {
  }

  /** Base shells 0 to n - 1 have been started, on the terminals from the last one on. */
  ghost predicate TableStage(b: Table, n: nat)
    requires TableOk(b) && n <= MAX_TERMINALS
  {
    && (forall p | 0 <= p < PROCESS_LIMIT :: b.pidArr[p] == if p < n then 1 else 0)
    && (forall t | 0 <= t < MAX_TERMINALS :: b.currPids[t] == b.termPids[t] == if 2 - t < n then 2 - t else -1)
    && (forall p | 0 <= p < n :: b.pids[p] == p && b.parents[p] == p)
  }

  ghost predicate BootStage(k: Kernel, n: nat)
  {
    n <= MAX_TERMINALS && Shaped(k) && FdsHold(k) && TableStage(TableOf(k), n)
  }

  lemma TableStageNext(b: Table, r: Table, n: nat)
    requires TableOk(b) && TableOk(r) && n < MAX_TERMINALS && TableStage(b, n)
    requires r.pidArr == b.pidArr[n := 1]
    requires r.currPids == b.currPids[2 - n := n] && r.termPids == b.termPids[2 - n := n]
    requires r.pids == b.pids[n := n] && r.parents == b.parents[n := n]
    ensures TableStage(r, n + 1)
  {
  }

  lemma StageReady(b: Table, n: nat)
    requires TableOk(b) && n < MAX_TERMINALS && TableStage(b, n)
    ensures LowestFree(b.pidArr) == n && b.currPids[2 - n] == -1
    ensures forall u | 2 - n < u < MAX_TERMINALS :: b.currPids[u] != -1
  {
    LowestFreeIs(b.pidArr, n);
  }

  lemma FirstStage(k: Kernel)
    requires Zeroed(k)
    ensures BootStage(k, 0)
  {
    ZeroedFds(k);
    SameRecords(k);
    hide FdsHold;
  }

  lemma StageShaped(k: Kernel, n: nat)
    requires BootStage(k, n)
    ensures Shaped(k) && FdsHold(k)
  {
  }

  lemma NextStage(k: Kernel, shell: Parse, n: nat)
    requires BootStage(k, n) && n < MAX_TERMINALS && shell.Accepted?
    ensures var r := Booted(k, shell);
            && BootStage(r, n + 1) && r.current == 3 - n
            && |r.pcbs[n].fds| == MAX_OPEN_FILES && Quiet(r.pcbs[n].fds, MAX_OPEN_FILES)
  {
    hide Booted, TableOf, FdsHold, TableOk, Quiet, TableStage, Shaped;
    var r := Booted(k, shell);
    SamePidArr(k);
    SameRecords(k);
    StageReady(TableOf(k), n);
    BootStep(k, shell, 2 - n, n);
    SamePidArr(r);
    SameLatest(r);
    TableStageNext(TableOf(k), TableOf(r), n);
  }

  lemma LastStage(k: Kernel)
    requires BootStage(k, MAX_TERMINALS)
    ensures Shaped(k) && FdsHold(k) && Holds(k, BOOT_STACKS) && k.currPids == [2, 1, 0]
    ensures k.pidArr == [1, 1, 1, 0, 0, 0, 0]
  {
    SameRecords(k);
    Shape(TableOf(k));
    hide Shaped, FdsHold, TableOk, TableHolds, TableOf;
    BootTable(TableOf(k));
  }

  /** Three ticks of the timer start the three base shells, and the fourth finds nothing to do. */
  lemma BootHolds(k: Kernel, a: Parse, b: Parse, c: Parse, d: Parse)
    requires Zeroed(k) && a.Accepted? && b.Accepted? && c.Accepted?
    ensures var r := Booted(Booted(Booted(k, a), b), c);
            && Holds(r, BOOT_STACKS) && FdsHold(r) && Booted(r, d) == r && r.current == 1
            && |r.pcbs[2].fds| == MAX_OPEN_FILES && Quiet(r.pcbs[2].fds, MAX_OPEN_FILES)
            && r.currPids == [2, 1, 0] && r.pidArr == [1, 1, 1, 0, 0, 0, 0]
  {
    FirstStage(k);
    StageShaped(k, 0);
    hide Booted, Holds, FdsHold, Quiet, BootStage, Shaped;
    NextStage(k, a, 0);
    var k1 := Booted(k, a);
    StageShaped(k1, 1);
    NextStage(k1, b, 1);
    var k2 := Booted(k1, b);
    StageShaped(k2, 2);
    NextStage(k2, c, 2);
    var r := Booted(k2, c);
    LastStage(r);
    BootDone(r, d);
  }

  lemma ZeroedFds(k: Kernel)
    requires Zeroed(k)
    ensures FdsHold(k)
  {
  }

  lemma BootDone(k: Kernel, shell: Parse)
    requires Shaped(k) && k.currPids == [2, 1, 0]
    ensures Booted(k, shell) == k
  {
  }

  lemma BootShape()
    ensures forall t, i | 0 <= t < |BOOT_STACKS| && 0 <= i < |BOOT_STACKS[t]| :: BOOT_STACKS[t][i] == 2 - t && i == 0
    ensures Based(BOOT_STACKS) && Disjoint(BOOT_STACKS)
    ensures forall p | 0 <= p < PROCESS_LIMIT :: Listed(BOOT_STACKS, p) <==> p < MAX_TERMINALS
  {
    var st := BOOT_STACKS;
    assert forall t | 0 <= t < MAX_TERMINALS :: st[t] == [2 - t];
    forall p | 0 <= p < PROCESS_LIMIT ensures Listed(st, p) <==> p < MAX_TERMINALS {
      if p < MAX_TERMINALS {
        assert st[2 - p][0] == p;
      }
    }
  }

  lemma BootTable(b: Table)
    requires TableOk(b) && b.pidArr == [1, 1, 1, 0, 0, 0, 0] && b.currPids == [2, 1, 0] && b.termPids == [2, 1, 0]
    requires forall p | 0 <= p < MAX_TERMINALS :: b.pids[p] == p && b.parents[p] == p
    ensures TableHolds(b, BOOT_STACKS)
  {
    BootShape();
    hide Listed, Disjoint;
    assert Used(b.pidArr, BOOT_STACKS);
    assert Topped(b.currPids, BOOT_STACKS);
    hide Used, Topped;
    assert Linked(b, BOOT_STACKS);
  }

  /** From boot on, whatever the users do. */
  lemma EveryRunHolds(k: Kernel, a: Parse, b: Parse, c: Parse, calls: seq<Call>)
    requires Zeroed(k) && a.Accepted? && b.Accepted? && c.Accepted? && forall x | x in calls :: Proper(x)
    ensures var r := Booted(Booted(Booted(k, a), b), c);
            && Holds(r, BOOT_STACKS)
            && Holds(Run(r, calls), StackRun(r, BOOT_STACKS, calls)) && FdsHold(Run(r, calls))
  {
    BootHolds(k, a, b, c, a);
    hide Holds, FdsHold, Shaped, Booted;
    RunHolds(Booted(Booted(Booted(k, a), b), c), BOOT_STACKS, calls);
  }
}
