/** The blink driver of fish/blink.S on the pool of fish/fish.c: a linked list threaded through an array
    in which a slot with location 0 is free. */
module BlinkList {
  import opened Bytes
  import opened Blink

  const NULL := -1

  datatype Slot = Slot(blinker: Blinker, next: int)

  // ----- The list in the pool.

  function Entry(order: seq<int>, k: nat): int
  {
    if k < |order| then order[k] else NULL
  }

  ghost predicate Distinct(order: seq<int>)
  {
    forall j, k | 0 <= j < k < |order| :: order[j] != order[k]
  }

  /** order lists the slots met on the way from head, without repetition. */
  ghost predicate Chain(pool: seq<Slot>, head: int, order: seq<int>)
  {
    && (forall k | 0 <= k < |order| :: 0 <= order[k] < |pool|)
    && Distinct(order)
    && head == Entry(order, 0)
    && forall k | 0 <= k < |order| :: pool[order[k]].next == Entry(order, k + 1)
  }

  /** The slots in use are exactly those on the list. */
  ghost predicate Threaded(pool: seq<Slot>, head: int, order: seq<int>)
  {
    && |pool| == SLOTS
    && Chain(pool, head, order)
    && (forall i | 0 <= i < SLOTS :: pool[i].blinker.location != 0 <==> i in order)
    && forall i | 0 <= i < SLOTS :: pool[i].blinker.location < SLOTS
  }

  ghost function NodesOf(pool: seq<Slot>, order: seq<int>): (r: seq<Blinker>)
    requires forall k | 0 <= k < |order| :: 0 <= order[k] < |pool|
    ensures |r| == |order| && forall k | 0 <= k < |order| :: r[k] == pool[order[k]].blinker
  {
    seq(|order|, k requires 0 <= k < |order| => pool[order[k]].blinker)
  }

  // ----- Counting slots.

  function Below(n: nat): (s: set<int>)
    ensures |s| == n && forall i :: i in s <==> 0 <= i < n
  {
    if n == 0 then {} else Below(n - 1) + {n - 1}
  }

  lemma {:induction false} DistinctSize(order: seq<int>)
    requires Distinct(order)
    ensures |set i | i in order| == |order|
    decreases |order|
  {
    var s := set i | i in order;
    if order != [] {
      var rest, last := order[..|order| - 1], order[|order| - 1];
      DistinctSize(rest);
      assert s == (set i | i in rest) + {last};
      assert last !in rest;
    } else {
      assert s == {};
    }
  }

  lemma SubsetSize(a: set<int>, b: set<int>)
    requires a <= b
    ensures |a| <= |b|
    ensures |a| == |b| ==> a == b
  {
    assert b == a + (b - a);
  }

  /** The list is as long as the pool exactly when it holds every slot. */
  lemma FullList(pool: seq<Slot>, head: int, order: seq<int>)
    requires Threaded(pool, head, order)
    ensures |order| <= SLOTS
    ensures |order| == SLOTS <==> forall i | 0 <= i < SLOTS :: pool[i].blinker.location != 0
  {
    var s := set i | i in order;
    DistinctSize(order);
    SubsetSize(s, Below(SLOTS));
    if forall i | 0 <= i < SLOTS :: pool[i].blinker.location != 0 {
      SubsetSize(Below(SLOTS), s);
    }
    if |order| == SLOTS {
      forall i | 0 <= i < SLOTS ensures pool[i].blinker.location != 0 {
        assert i in s;
      }
    }
  }

  /** mp1_malloc's choice: the first slot with location 0. */
  function FirstFree(pool: seq<Slot>): (i: nat)
    ensures i <= |pool|
    ensures forall j | 0 <= j < i :: pool[j].blinker.location != 0
    ensures i < |pool| ==> pool[i].blinker.location == 0
  {
    if pool == [] || pool[0].blinker.location == 0 then 0 else 1 + FirstFree(pool[1..])
  }

  /** A new node in the first free slot, linked before the old head. */
  function Inserted(pool: seq<Slot>, head: int, b: Blinker): (r: (seq<Slot>, int))
    requires FirstFree(pool) < |pool|
    ensures |r.0| == |pool|
  {
    (pool[FirstFree(pool) := Slot(Armed(b), head)], FirstFree(pool))
  }

  lemma InsertKeepsList(pool: seq<Slot>, head: int, order: seq<int>, b: Blinker)
    requires Threaded(pool, head, order) && FirstFree(pool) < SLOTS && b.location < SLOTS
    ensures var (pool', head') := Inserted(pool, head, b);
            && Chain(pool', head', [head'] + order)
            && NodesOf(pool', [head'] + order) == [Armed(b)] + NodesOf(pool, order)
            && (b.location != 0 ==> Threaded(pool', head', [head'] + order))
  {
    var (pool', head') := Inserted(pool, head, b);
    var after := [head'] + order;
    assert head' !in order;
    forall k | 0 <= k < |after|
      ensures 0 <= after[k] < |pool'| && pool'[after[k]].next == Entry(after, k + 1)
    {
      if k > 0 { assert after[k] == order[k - 1]; }
    }
  }

  /** A node at location 0 is on the list but looks free, so no list fits the pool any more. */
  lemma InsertZeroBreaks(pool: seq<Slot>, head: int, b: Blinker, order: seq<int>)
    requires |pool| == SLOTS && FirstFree(pool) < SLOTS && b.location == 0
    ensures var (pool', head') := Inserted(pool, head, b); !Threaded(pool', head', order)
  {
  }

  /** Insertion keeps the pool well-formed exactly for non-zero locations. */
  lemma InsertKeepsListExactly(pool: seq<Slot>, head: int, order: seq<int>, b: Blinker)
    requires Threaded(pool, head, order) && FirstFree(pool) < SLOTS && b.location < SLOTS
    ensures var (pool', head') := Inserted(pool, head, b);
            (exists after :: Threaded(pool', head', after)) <==> b.location != 0
  {
    var (pool', head') := Inserted(pool, head, b);
    if b.location != 0 {
      InsertKeepsList(pool, head, order, b);
    } else {
      forall after ensures !Threaded(pool', head', after) {
        InsertZeroBreaks(pool, head, b, after);
      }
    }
  }

  /** What then goes wrong: the next insertion takes the same slot and links it to itself. */
  lemma InsertAfterZeroLoops(pool: seq<Slot>, head: int, zero: Blinker, b: Blinker)
    requires FirstFree(pool) < |pool| && zero.location == 0
    ensures var (p1, h1) := Inserted(pool, head, zero);
            && FirstFree(p1) == h1
            && var (p2, h2) := Inserted(p1, h1, b);
            h2 == h1 && p2[h2].next == h2
  {
  }

  lemma FirstFreeIs(pool: seq<Slot>, i: nat)
    requires i < |pool| && pool[i].blinker.location == 0
    requires forall j | 0 <= j < i :: pool[j].blinker.location != 0
    ensures FirstFree(pool) == i
  {
  }

  function Without<T>(s: seq<T>, k: nat): (r: seq<T>)
    requires k < |s|
    ensures |r| == |s| - 1
    ensures forall j | 0 <= j < |r| :: r[j] == s[if j < k then j else j + 1]
  {
    s[..k] + s[k + 1..]
  }

  lemma WithoutEntry(order: seq<int>, k: nat)
    requires k < |order| && Distinct(order)
    ensures Distinct(Without(order, k))
    ensures forall i :: i in Without(order, k) <==> i in order && i != order[k]
  {
  }

  /** The links of pool' lead around the k-th node of order and its slot is cleared. */
  ghost predicate Unlinked(pool: seq<Slot>, head: int, order: seq<int>, k: nat, pool': seq<Slot>, head': int)
    requires k < |order| && |pool| == |pool'| && forall j | 0 <= j < |order| :: 0 <= order[j] < |pool|
  {
    && head' == (if k == 0 then pool[order[0]].next else head)
    && pool'[order[k]] == Slot(CLEARED, 0)
    && (k > 0 ==> pool'[order[k - 1]] == pool[order[k - 1]].(next := pool[order[k]].next))
    && forall i | 0 <= i < |pool| && i != order[k] && (k > 0 ==> i != order[k - 1]) :: pool'[i] == pool[i]
  }

  lemma UnlinkedChain(pool: seq<Slot>, head: int, order: seq<int>, k: nat, pool': seq<Slot>, head': int)
    requires |pool| == |pool'| && Chain(pool, head, order) && k < |order|
        && Unlinked(pool, head, order, k, pool', head')
    ensures Chain(pool', head', Without(order, k))
  {
    var after := Without(order, k);
    WithoutEntry(order, k);
    forall j | 0 <= j < |after|
      ensures 0 <= after[j] < |pool'| && pool'[after[j]].next == Entry(after, j + 1)
    {
      var was := if j < k then j else j + 1;
      assert after[j] == order[was] && order[was] != order[k];
      if j + 1 == k {
        assert pool[order[k]].next == Entry(order, k + 1);
      } else {
        assert pool'[order[was]] == pool[order[was]];
      }
    }
  }

  /** Unlinking the k-th node leaves a list of the others, in order. */
  lemma UnlinkKeepsList(pool: seq<Slot>, head: int, order: seq<int>, k: nat, pool': seq<Slot>, head': int)
    requires |pool'| == |pool| && Threaded(pool, head, order) && k < |order|
        && Unlinked(pool, head, order, k, pool', head')
    ensures Threaded(pool', head', Without(order, k))
    ensures NodesOf(pool', Without(order, k)) == Without(NodesOf(pool, order), k)
  {
    UnlinkedChain(pool, head, order, k, pool', head');
    UnlinkedOthers(pool, head, order, k, pool', head');
    WithoutEntry(order, k);
    UnlinkedNodes(pool, order, k, pool');
    UnlinkedUse(pool, order, k, pool');
  }

  lemma UnlinkedUse(pool: seq<Slot>, order: seq<int>, k: nat, pool': seq<Slot>)
    requires |pool'| == |pool| == SLOTS && k < |order| && Distinct(order) && 0 <= order[k] < SLOTS
    requires forall i | 0 <= i < SLOTS :: pool[i].blinker.location != 0 <==> i in order
    requires forall i | 0 <= i < SLOTS :: pool[i].blinker.location < SLOTS
    requires pool'[order[k]].blinker == CLEARED
    requires forall i | 0 <= i < SLOTS && i != order[k] :: pool'[i].blinker == pool[i].blinker
    ensures forall i | 0 <= i < SLOTS :: pool'[i].blinker.location != 0 <==> i in Without(order, k)
    ensures forall i | 0 <= i < SLOTS :: pool'[i].blinker.location < SLOTS
  {
    WithoutEntry(order, k);
    hide Distinct, Without;
    forall i | 0 <= i < SLOTS
      ensures pool'[i].blinker.location != 0 <==> i in Without(order, k)
      ensures pool'[i].blinker.location < SLOTS
    {
      if i != order[k] {
        assert pool'[i].blinker == pool[i].blinker;
      }
    }
  }

  lemma UnlinkedNodes(pool: seq<Slot>, order: seq<int>, k: nat, pool': seq<Slot>)
    requires |pool| == |pool'| && k < |order| && Distinct(order)
        && forall j | 0 <= j < |order| :: 0 <= order[j] < |pool|
    requires forall i | 0 <= i < |pool| && i != order[k] :: pool'[i].blinker == pool[i].blinker
    ensures NodesOf(pool', Without(order, k)) == Without(NodesOf(pool, order), k)
  {
    forall j | 0 <= j < |order| - 1
      ensures Without(order, k)[j] != order[k]
    {
      assert Without(order, k)[j] == order[if j < k then j else j + 1];
    }
  }

  lemma UnlinkedOthers(pool: seq<Slot>, head: int, order: seq<int>, k: nat, pool': seq<Slot>, head': int)
    requires |pool| == |pool'| && Chain(pool, head, order) && k < |order|
        && Unlinked(pool, head, order, k, pool', head')
    ensures forall i | 0 <= i < |pool| && i != order[k] :: pool'[i].blinker == pool[i].blinker
  {
  }

  /** Changing a listed node's fields, but not its location, keeps the list. */
  lemma ChangeKeepsList(pool: seq<Slot>, head: int, order: seq<int>, k: nat, b: Blinker)
    requires Threaded(pool, head, order) && k < |order| && b.location == pool[order[k]].blinker.location
    ensures var pool' := pool[order[k] := pool[order[k]].(blinker := b)];
            Threaded(pool', head, order) && NodesOf(pool', order) == NodesOf(pool, order)[k := b]
  {
  }

  // ----- The driver.

  class BlinkDriver {
    const pool: array<Slot>
    const vmem: array<byte>
    var head: int
    ghost var order: seq<int>

    ghost predicate Valid()
      reads this, pool, vmem
    {
      vmem.Length == SCREEN && pool.Length == SLOTS && Threaded(pool[..], head, order)
    }

    /** The list from the head and the screen. */
    ghost function View(): (d: Display)
      requires Valid()
      reads this, pool, vmem
      ensures DisplayOk(d) && |d.nodes| == |order|
    {
      FullList(pool[..], head, order);
      assert forall k | 0 <= k < |order| :: order[k] in order;
      Display(NodesOf(pool[..], order), vmem[..])
    }

    /** The program starts with a cleared pool and an empty list. */
    constructor (vmem: array<byte>)
      requires vmem.Length == SCREEN
      ensures Valid() && this.vmem == vmem && fresh(pool) && View() == Display([], vmem[..])
    {
      this.vmem := vmem;
      pool := new Slot[SLOTS](_ => Slot(CLEARED, 0));
      head := NULL;
      order := [];
    }

    /** mp1_malloc, fish/fish.c:160-170 */
    method Malloc() returns (slot: int)
      requires pool.Length == SLOTS
      ensures slot == if FirstFree(pool[..]) < SLOTS then FirstFree(pool[..]) else NULL
    {
      for i := 0 to SLOTS
        invariant forall j | 0 <= j < i :: pool[j].blinker.location != 0
      {
        if pool[i].blinker.location == 0 {
          FirstFreeIs(pool[..], i);
          return i;
        }
      }
      return NULL;
    }

    /** mp1_poke */
    method Poke(location: int, c: byte)
      requires vmem.Length == SCREEN && 0 <= location < SLOTS
      modifies vmem
      ensures vmem[..] == Poked(old(vmem[..]), location, c)
    {
      vmem[2 * location] := c;
    }

    /** mp1_ioctl_add: fails exactly when the location is off the screen or all slots are listed. */
    method Add(b: Blinker) returns (ret: int)
      requires Valid()
      modifies this, pool, vmem
      ensures ret == if CanAdd(old(View()), b) then 0 else -1
      ensures b.location != 0 ==> Valid() && View() == Added(old(View()), b)
      ensures ret == -1 ==> Valid() && View() == old(View())
      ensures ret == 0 ==>
          && FirstFree(old(pool[..])) < SLOTS && (pool[..], head) == Inserted(old(pool[..]), old(head), b)
          && vmem[..] == old(vmem[..])[2 * b.location := b.onChar]
    {
      FullList(pool[..], head, order);
      if b.location >= SLOTS { return -1; }
      var slot := Malloc();
      if slot == NULL { return -1; }
      InsertKeepsList(pool[..], head, order, b);
      ghost var nodes := NodesOf(pool[..], order);
      pool[slot] := Slot(Armed(b), head);
      head := slot;
      order := [slot] + order;
      Poke(b.location, b.onChar);
      return 0;
    }

    /** mp1_find_helper */
    method FindHelper(location: u16) returns (slot: int)
      requires Valid()
      ensures var k := IndexOf(View().nodes, location); slot == Entry(order, k) && (slot == NULL <==> k == |order|)
    {
      hide Threaded, NodesOf, IndexOf;
      ListedHead();
      slot := head;
      ghost var k: nat := 0;
      while slot != NULL
        invariant k <= |order| && slot == Entry(order, k) && (slot == NULL <==> k == |order|)
        invariant forall j | 0 <= j < k :: View().nodes[j].location != location
        decreases |order| - k
      {
        ListedSlot(k);
        if pool[slot].blinker.location == location {
          break;
        }
        slot, k := pool[slot].next, k + 1;
      }
      IndexIs(View().nodes, location, k);
    }

    /** mp1_ioctl_find hands out a copy of the first node at a location. */
    method Find(location: u16) returns (ret: int, b: Blinker)
      requires Valid()
      ensures var k := IndexOf(View().nodes, location);
              if k < |View().nodes| then ret == 0 && b == View().nodes[k] else ret == -1
    {
      var slot := FindHelper(location);
      if slot == NULL { return -1, CLEARED; }
      return 0, pool[slot].blinker;
    }

    /** mp1_ioctl_remove: walks pointer by pointer to the link that leads to the node; NULL stands for the
        address of the head, a slot for the address of its next field. */
    method Remove(arg: nat) returns (ret: int)
      requires Valid()
      modifies this, pool
      ensures Valid() && View() == Removed(old(View()), arg % 65536)
      ensures ret == if IndexOf(old(View()).nodes, arg % 65536) < |old(View()).nodes| then 0 else -1
    {
      hide Threaded, Unlinked, NodesOf;
      var slot := FindHelper(arg % 65536);
      ghost var k := IndexOf(View().nodes, arg % 65536);
      if slot == NULL { return -1; }
      ghost var was, h := pool[..], head;
      var link := FindLink(slot, k);
      Unlink(slot, link, k);
      UnlinkKeepsList(was, h, order, k, pool[..], head);
      order := Without(order, k);
      return 0;
    }

    /** The walk to the link that leads to a listed slot, fish/blink.S:206-212. */
    method FindLink(slot: int, ghost k: nat) returns (link: int)
      requires Valid() && k < |order| && slot == order[k]
      ensures link == if k == 0 then NULL else order[k - 1]
    {
      link := NULL;
      var target, j := head, 0;
      while target != slot
        invariant 0 <= j <= k && target == order[j] && link == if j == 0 then NULL else order[j - 1]
        decreases k - j
      {
        link, target, j := target, pool[target].next, j + 1;
      }
    }

    /** Take the slot off the list and free it, fish/blink.S:216-222. */
    method Unlink(slot: int, link: int, ghost k: nat)
      requires Valid() && k < |order| && slot == order[k] && link == if k == 0 then NULL else order[k - 1]
      modifies this`head, pool
      ensures pool.Length == SLOTS && Unlinked(old(pool[..]), old(head), order, k, pool[..], head)
    {
      if link == NULL {
        head := pool[slot].next;
      } else {
        pool[link] := pool[link].(next := pool[slot].next);
      }
      pool[slot] := Slot(CLEARED, 0);
    }

    /** Overwrite the fields of a listed node. */
    method Change(slot: int, b: Blinker, ghost k: nat)
      requires Valid() && k < |order| && slot == order[k] && b.location == pool[slot].blinker.location
      modifies pool
      ensures Valid() && View() == old(View()).(nodes := old(View()).nodes[k := b])
    {
      hide Threaded, NodesOf;
      ListedSlot(k);
      ChangeKeepsList(pool[..], head, order, k, b);
      ghost var was := pool[..];
      pool[slot] := pool[slot].(blinker := b);
      assert pool[..] == was[slot := was[slot].(blinker := b)];
    }

    /** mp1_ioctl_sync: source in the high half of the argument, target in the low half. */
    method Sync(arg: nat) returns (ret: int)
      requires Valid() && arg < 0x1_0000_0000
      modifies pool, vmem
      ensures Valid() && View() == Synced(old(View()), arg / 65536, arg % 65536)
      ensures ret == if CanSync(old(View()), arg / 65536, arg % 65536) then 0 else -1
    {
      hide Threaded, NodesOf, IndexOf;
      ghost var i, j := IndexOf(View().nodes, arg / 65536), IndexOf(View().nodes, arg % 65536);
      var source := FindHelper(arg / 65536);
      if source == NULL { return -1; }
      var target := FindHelper(arg % 65536);
      if target == NULL { return -1; }
      ListedSlot(i);
      ListedSlot(j);
      var from, to := pool[source].blinker, pool[target].blinker;
      Change(target, Copied(from, to), j);
      Poke(to.location, to.offChar);
      return 0;
    }

    /** mp1_rtc_tasklet: one pass over the list. */
    method RtcTasklet()
      requires Valid()
      modifies pool, vmem
      ensures Valid() && View() == Tick(old(View()))
    {
      hide Threaded, NodesOf, TickedUpTo;
      ghost var d := View();
      TickedUpToEnds(d);
      ListedHead();
      var slot := head;
      ghost var k: nat := 0;
      while slot != NULL
        invariant Valid() && k <= |order| && slot == Entry(order, k) && (slot == NULL <==> k == |order|)
        invariant |order| == |d.nodes| && View() == TickedUpTo(d, k)
        decreases |order| - k
      {
        ListedSlot(k);
        TickedUpToStep(d, k);
        ProcessNode(slot, k);
        ListedSlot(k);
        slot, k := pool[slot].next, k + 1;
      }
    }

    /** The body of the tasklet's loop, fish/blink.S:64-86. */
    method ProcessNode(slot: int, ghost k: nat)
      requires Valid() && k < |order| && slot == order[k]
      modifies pool, vmem
      ensures Valid()
      ensures var b := old(View()).nodes[k];
              View() == Display(old(View()).nodes[k := Ticked(b)], Drawn(b, old(View()).screen))
    {
      hide Threaded, NodesOf;
      ListedSlot(k);
      var b := pool[slot].blinker;
      Change(slot, b.(countdown := Decremented(b.countdown)), k);
      ListedSlot(k);
      if Signed(pool[slot].blinker.countdown) > 0 { return; }
      if b.on {
        Poke(b.location, b.offChar);
        Change(slot, b.(countdown := b.offLength, on := false), k);
      } else {
        Poke(b.location, b.onChar);
        Change(slot, b.(countdown := b.onLength, on := true), k);
      }
    }

    lemma ListedHead()
      requires Valid()
      ensures head == Entry(order, 0) && (head == NULL <==> |order| == 0)
    {
    }

    lemma ListedSlot(k: nat)
      requires Valid() && k < |order|
      ensures 0 <= order[k] < SLOTS && pool[order[k]].next == Entry(order, k + 1)
      ensures (order[k] == NULL) == false && (Entry(order, k + 1) == NULL <==> k + 1 == |order|)
      ensures pool[order[k]].blinker == View().nodes[k] && 0 < View().nodes[k].location < SLOTS
    {
    }
  }

  /** The tasklet after its first k nodes. */
  ghost function TickedUpTo(d: Display, k: nat): (r: Display)
    requires DisplayOk(d) && k <= |d.nodes|
    ensures |r.nodes| == |d.nodes|
  {
    Display(AllTicked(d.nodes[..k]) + d.nodes[k..], AllDrawn(d.nodes[..k], d.screen))
  }

  lemma TickedUpToStep(d: Display, k: nat)
    requires DisplayOk(d) && k < |d.nodes|
    ensures var p := TickedUpTo(d, k);
            && p.nodes[k] == d.nodes[k] && |p.screen| == SCREEN
            && Display(p.nodes[k := Ticked(p.nodes[k])], Drawn(p.nodes[k], p.screen)) == TickedUpTo(d, k + 1)
  {
    hide Ticked, Drawn;
    assert d.nodes[..k + 1] == d.nodes[..k] + [d.nodes[k]];
    DrawnSnoc(d.nodes[..k], d.nodes[k], d.screen);
  }

  lemma DrawnSnoc(nodes: seq<Blinker>, b: Blinker, screen: seq<byte>)
    requires |screen| == SCREEN && b.location < SLOTS && forall k | 0 <= k < |nodes| :: nodes[k].location < SLOTS
    ensures AllDrawn(nodes + [b], screen) == Drawn(b, AllDrawn(nodes, screen))
    decreases |nodes|
  {
    hide Drawn;
    if nodes == [] {
      assert [b][1..] == [];
    } else {
      assert (nodes + [b])[1..] == nodes[1..] + [b];
      DrawnSnoc(nodes[1..], b, Drawn(nodes[0], screen));
    }
  }

  lemma TickedUpToEnds(d: Display)
    requires DisplayOk(d)
    ensures TickedUpTo(d, 0) == d && TickedUpTo(d, |d.nodes|) == Tick(d)
  {
    assert d.nodes[..|d.nodes|] == d.nodes;
  }

  lemma IndexIs(nodes: seq<Blinker>, location: u16, i: nat)
    requires i <= |nodes| && (forall j | 0 <= j < i :: nodes[j].location != location)
    requires i < |nodes| ==> nodes[i].location == location
    ensures IndexOf(nodes, location) == i
  {
  }
}
