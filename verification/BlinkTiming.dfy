/** When a blinker is on: the periodic meaning of the countdown, over whole runs of the driver. */
module BlinkTiming {
  import opened Bytes
  import opened Blink
  import opened BlinkList

  // ----- One blinker.

  function Ticks(b: Blinker, n: nat): Blinker
  {
    if n == 0 then b else Ticked(Ticks(b, n - 1))
  }

  /** Ticks a phase of programmed length w really lasts: the countdown is decremented before it is compared
      as a signed word, so 0 and everything above 32768 last one tick. */
  function Phase(w: u16): (n: nat)
    ensures n >= 1
  {
    if 1 <= w <= 32768 then w else 1
  }

  function Period(b: Blinker): (n: nat)
    ensures n >= 2
  {
    Phase(b.onLength) + Phase(b.offLength)
  }

  /** The state of a blinker p ticks into its period. */
  function AtPhase(b: Blinker, p: nat): Blinker
    requires p < Period(b)
  {
    if p < Phase(b.onLength) then b.(on := true, countdown := (b.onLength - p) % 65536)
    else b.(on := false, countdown := (b.offLength - (p - Phase(b.onLength))) % 65536)
  }

  /** The countdown of a phase of length w after q ticks. */
  lemma CountdownStep(w: u16, q: nat)
    requires q < Phase(w)
    ensures var c: u16 := (w - q) % 65536;
            && (Signed(Decremented(c)) <= 0 <==> q + 1 == Phase(w))
            && Decremented(c) == (w - (q + 1)) % 65536
  {
  }

  lemma PhaseStep(b: Blinker, p: nat)
    requires p < Period(b)
    ensures Ticked(AtPhase(b, p)) == AtPhase(b, if p + 1 == Period(b) then 0 else p + 1)
    ensures Fires(AtPhase(b, p)) <==> p + 1 == Period(b) || p + 1 == Phase(b.onLength)
  {
    hide Signed, Decremented, Phase;
    if p < Phase(b.onLength) {
      CountdownStep(b.onLength, p);
    } else {
      CountdownStep(b.offLength, p - Phase(b.onLength));
    }
  }

  lemma StartOfPeriod(b: Blinker)
    ensures AtPhase(b, 0) == Armed(b)
  {
  }

  lemma ModStep(n: nat, m: nat)
    requires m > 0
    ensures (n + 1) % m == if n % m + 1 == m then 0 else n % m + 1
  {
    var q, r := n / m, n % m;
    assert n == q * m + r;
    if r + 1 == m {
      assert n + 1 == (q + 1) * m;
      ModUnique(n + 1, m, q + 1, 0);
    } else {
      ModUnique(n + 1, m, q, r + 1);
    }
  }

  lemma MulGrows(d: int, m: nat)
    ensures d >= 1 ==> d * m >= m
    ensures d <= -1 ==> d * m <= 0 - m
  {
  }

  lemma ModUnique(n: int, m: nat, q: int, r: nat)
    requires m > 0 && n == q * m + r && r < m
    ensures n % m == r
  {
    var d := n / m - q;
    assert d * m == r - n % m;
    MulGrows(d, m);
  }

  /** The closed form, for all sixteen-bit lengths: n ticks after it was added a blinker is on exactly when
      n mod (on + off) < on. */
  lemma {:induction false} BlinkClosedForm(b: Blinker, n: nat)
    ensures Ticks(Armed(b), n) == AtPhase(b, n % Period(b))
  {
    hide Ticked, AtPhase, Period;
    if n == 0 {
      StartOfPeriod(b);
    } else {
      BlinkClosedForm(b, n - 1);
      PhaseStep(b, (n - 1) % Period(b));
      ModStep(n - 1, Period(b));
    }
  }

  // ----- Runs of the driver.

  datatype Event = Timer | Insert(b: Blinker) | Delete(location: u16) | Query(location: u16)
                 | Align(source: u16, target: u16)

  /** Events the driver is meant for: location 0 stands for a free slot. */
  predicate Proper(e: Event)
  {
    e.Insert? ==> e.b.location != 0
  }

  function Step(d: Display, e: Event): (r: Display)
    requires DisplayOk(d) && Proper(e)
    ensures DisplayOk(r)
  {
    match e
    case Timer => Tick(d)
    case Insert(b) => Added(d, b)
    case Delete(location) => Removed(d, location)
    case Query(_) => d
    case Align(source, target) => Synced(d, source, target)
  }

  function Run(d: Display, events: seq<Event>): (r: Display)
    requires DisplayOk(d) && forall e | e in events :: Proper(e)
    ensures DisplayOk(r)
    decreases |events|
  {
    if events == [] then d else Run(Step(d, events[0]), events[1..])
  }

  /** The jump through the table of commands (fish/blink.S:101-103), or the timer's tasklet. */
  method Handle(driver: BlinkDriver, e: Event)
    requires driver.Valid() && Proper(e)
    modifies driver, driver.pool, driver.vmem
    ensures driver.Valid() && driver.View() == Step(old(driver.View()), e)
  {
    hide Tick, Added, Removed, Synced, Threaded, NodesOf, Inserted, FirstFree, CanAdd, CanSync, IndexOf, DisplayOk;
    match e
    case Timer =>
      driver.RtcTasklet();
    case Insert(b) =>
      var _ := driver.Add(b);
    case Delete(location) =>
      var _ := driver.Remove(location);
    case Query(location) =>
      var _, _ := driver.Find(location);
    case Align(source, target) =>
      Halves(source, target);
      var _ := driver.Sync(source * 65536 + target);
  }

  lemma Halves(high: u16, low: u16)
    ensures (high * 65536 + low) / 65536 == high && (high * 65536 + low) % 65536 == low
  {
  }

  /** Any run of commands and timer ticks keeps the list and the pool well-formed. */
  method HandleAll(driver: BlinkDriver, events: seq<Event>)
    requires driver.Valid() && forall e | e in events :: Proper(e)
    modifies driver, driver.pool, driver.vmem
    ensures driver.Valid() && driver.View() == Run(old(driver.View()), events)
  {
    hide Step;
    ghost var d := driver.View();
    assert events[0..] == events;
    for i := 0 to |events|
      invariant driver.Valid() && Run(driver.View(), events[i..]) == Run(d, events)
    {
      assert events[i..][1..] == events[i + 1..];
      Handle(driver, events[i]);
    }
  }

  /** The event adds, removes or retimes a node at this location. */
  predicate Touches(e: Event, location: u16)
  {
    match e
    case Timer => false
    case Insert(b) => b.location == location
    case Delete(l) => l == location
    case Query(_) => false
    case Align(_, target) => target == location
  }

  function Timers(events: seq<Event>): nat
  {
    if events == [] then 0 else (if events[0].Timer? then 1 else 0) + Timers(events[1..])
  }

  /** The nodes at one location, in list order. */
  function At(nodes: seq<Blinker>, location: u16): seq<Blinker>
  {
    if nodes == [] then []
    else (if nodes[0].location == location then [nodes[0]] else []) + At(nodes[1..], location)
  }

  function EachTicks(nodes: seq<Blinker>, n: nat): (r: seq<Blinker>)
    ensures |r| == |nodes|
  {
    seq(|nodes|, k requires 0 <= k < |nodes| => Ticks(nodes[k], n))
  }

  lemma {:induction false} AtAppend(a: seq<Blinker>, b: seq<Blinker>, location: u16)
    ensures At(a + b, location) == At(a, location) + At(b, location)
  {
    if a == [] {
      assert a + b == b;
    } else {
      assert (a + b)[1..] == a[1..] + b && (a + b)[0] == a[0];
      AtAppend(a[1..], b, location);
      var here := if a[0].location == location then [a[0]] else [];
      assert here + (At(a[1..], location) + At(b, location)) == (here + At(a[1..], location)) + At(b, location);
    }
  }

  lemma AtSplit(nodes: seq<Blinker>, i: nat, location: u16)
    requires i < |nodes|
    ensures At(nodes, location) == At(nodes[..i], location) + At([nodes[i]], location) + At(nodes[i + 1..], location)
  {
    AtAppend(nodes[..i] + [nodes[i]], nodes[i + 1..], location);
    AtAppend(nodes[..i], [nodes[i]], location);
    assert nodes[..i] + [nodes[i]] + nodes[i + 1..] == nodes;
  }

  lemma {:induction false} AtTicked(nodes: seq<Blinker>, location: u16)
    ensures At(AllTicked(nodes), location) == EachTicks(At(nodes, location), 1)
  {
    if nodes != [] {
      AtTicked(nodes[1..], location);
      assert AllTicked(nodes)[1..] == AllTicked(nodes[1..]);
      assert Ticks(nodes[0], 1) == Ticked(Ticks(nodes[0], 0)) == Ticked(nodes[0]);
      var rest := At(nodes[1..], location);
      assert EachTicks([nodes[0]] + rest, 1) == [Ticks(nodes[0], 1)] + EachTicks(rest, 1);
    }
  }

  lemma IndexAt(nodes: seq<Blinker>, location: u16)
    ensures IndexOf(nodes, location) < |nodes| <==> At(nodes, location) != []
    ensures IndexOf(nodes, location) < |nodes| ==> At(nodes, location)[0] == nodes[IndexOf(nodes, location)]
  {
  }

  /** An event leaves the nodes of a location it does not touch alone, up to the passing of time. */
  lemma AtStep(d: Display, e: Event, location: u16)
    requires DisplayOk(d) && Proper(e) && !Touches(e, location)
    ensures At(Step(d, e).nodes, location) == EachTicks(At(d.nodes, location), if e.Timer? then 1 else 0)
  {
    hide At, EachTicks, AllTicked, Ticked, DisplayOk;
    EachTicksNone(At(d.nodes, location));
    match e
    case Timer =>
      AtTicked(d.nodes, location);
    case Insert(b) =>
      AtAdded(d.nodes, b, location);
    case Delete(l) =>
      AtRemoved(d, l, location);
    case Query(_) =>
    case Align(source, target) =>
      AtSynced(d, source, target, location);
  }

  lemma AtAdded(nodes: seq<Blinker>, b: Blinker, location: u16)
    ensures At([Armed(b)] + nodes, location) == (if b.location == location
        then [Armed(b)] else []) + At(nodes, location)
  {
  }

  lemma AtRemoved(d: Display, l: u16, location: u16)
    requires DisplayOk(d) && l != location
    ensures At(Removed(d, l).nodes, location) == At(d.nodes, location)
  {
    var i := IndexOf(d.nodes, l);
    if i < |d.nodes| {
      AtSplit(d.nodes, i, location);
      AtAppend(d.nodes[..i], d.nodes[i + 1..], location);
    }
  }

  lemma AtSynced(d: Display, source: u16, target: u16, location: u16)
    requires DisplayOk(d) && target != location
    ensures At(Synced(d, source, target).nodes, location) == At(d.nodes, location)
  {
    var i, j := IndexOf(d.nodes, source), IndexOf(d.nodes, target);
    if CanSync(d, source, target) {
      var after := d.nodes[j := Copied(d.nodes[i], d.nodes[j])];
      AtSplit(d.nodes, j, location);
      AtSplit(after, j, location);
      assert after[..j] == d.nodes[..j] && after[j + 1..] == d.nodes[j + 1..];
    }
  }

  lemma TicksAdd(b: Blinker, m: nat, n: nat)
    ensures Ticks(Ticks(b, m), n) == Ticks(b, m + n)
  {
  }

  lemma EachTicksAdd(nodes: seq<Blinker>, m: nat, n: nat)
    ensures EachTicks(EachTicks(nodes, m), n) == EachTicks(nodes, m + n)
  {
    forall k | 0 <= k < |nodes| ensures EachTicks(EachTicks(nodes, m), n)[k] == EachTicks(nodes, m + n)[k] {
      TicksAdd(nodes[k], m, n);
    }
  }

  /** Over any run that does not touch a location, its nodes just count the timer ticks. */
  lemma {:induction false} AtRun(d: Display, events: seq<Event>, location: u16)
    requires DisplayOk(d) && (forall e | e in events :: Proper(e) && !Touches(e, location))
    ensures At(Run(d, events).nodes, location) == EachTicks(At(d.nodes, location), Timers(events))
    decreases |events|
  {
    hide DisplayOk, EachTicks, At, Step;
    if events == [] {
      EachTicksNone(At(d.nodes, location));
    } else {
      var e := events[0];
      AtStep(d, e, location);
      AtRun(Step(d, e), events[1..], location);
      EachTicksAdd(At(d.nodes, location), if e.Timer? then 1 else 0, Timers(events[1..]));
    }
  }

  lemma EachTicksNone(nodes: seq<Blinker>)
    ensures EachTicks(nodes, 0) == nodes
  {
  }

  // ----- The character on the screen.

  function Face(b: Blinker): byte
  {
    if b.on then b.onChar else b.offChar
  }

  lemma {:induction false} DrawnElsewhere(nodes: seq<Blinker>, screen: seq<byte>, location: u16)
    requires |screen| == SCREEN && 0 < location < SLOTS && forall k | 0 <= k < |nodes| :: nodes[k].location < SLOTS
    requires At(nodes, location) == []
    ensures AllDrawn(nodes, screen)[2 * location] == screen[2 * location]
    decreases |nodes|
  {
    if nodes != [] {
      DrawnElsewhere(nodes[1..], Drawn(nodes[0], screen), location);
    }
  }

  lemma {:induction false} DrawnOnce(nodes: seq<Blinker>, screen: seq<byte>, location: u16, b: Blinker)
    requires |screen| == SCREEN && 0 < location < SLOTS && forall k | 0 <= k < |nodes| :: nodes[k].location < SLOTS
    requires At(nodes, location) == [b]
    ensures AllDrawn(nodes, screen)[2 * location] == if Fires(b) then Face(Ticked(b)) else screen[2 * location]
    decreases |nodes|
  {
    hide Fires;
    if nodes[0].location == location {
      var rest := At(nodes[1..], location);
      assert [nodes[0]] + rest == [b];
      assert nodes[0] == ([nodes[0]] + rest)[0] == b && rest == ([nodes[0]] + rest)[1..] == [];
      DrawnElsewhere(nodes[1..], Drawn(nodes[0], screen), location);
    } else {
      DrawnOnce(nodes[1..], Drawn(nodes[0], screen), location, b);
    }
  }

  /** A location with a single node shows that node's face. */
  ghost predicate Shows(d: Display, location: u16, b: Blinker)
    requires DisplayOk(d) && location < SLOTS
  {
    At(d.nodes, location) == [b] && d.screen[2 * location] == Face(b)
  }

  lemma ShowsStep(d: Display, e: Event, location: u16, b: Blinker)
    requires DisplayOk(d) && Proper(e) && !Touches(e, location) && 0 < location < SLOTS && Shows(d, location, b)
    ensures Shows(Step(d, e), location, Ticks(b, if e.Timer? then 1 else 0))
  {
    AtStep(d, e, location);
    assert Ticks(b, 1) == Ticked(Ticks(b, 0)) == Ticked(b);
    if e.Timer? {
      DrawnOnce(d.nodes, d.screen, location, b);
    }
  }

  lemma {:induction false} ShowsRun(d: Display, events: seq<Event>, location: u16, b: Blinker)
    requires DisplayOk(d) && (forall e | e in events :: Proper(e) && !Touches(e, location))
    requires 0 < location < SLOTS && Shows(d, location, b)
    ensures Shows(Run(d, events), location, Ticks(b, Timers(events)))
    decreases |events|
  {
    hide DisplayOk, Shows, Step;
    if events != [] {
      var e := events[0];
      var n := if e.Timer? then 1 else 0;
      ShowsStep(d, e, location, b);
      ShowsRun(Step(d, e), events[1..], location, Ticks(b, n));
      TicksAdd(b, n, Timers(events[1..]));
    }
  }

  /** The life of a blinker: added where no other node is, and then left alone whatever else happens, it is
      after n timer ticks in phase n mod (on + off) of its period, and its face is on the screen. */
  lemma BlinkerLife(d: Display, b: Blinker, events: seq<Event>)
    requires DisplayOk(d) && b.location != 0 && CanAdd(d, b) && At(d.nodes, b.location) == []
    requires forall e | e in events :: Proper(e) && !Touches(e, b.location)
    ensures var r, p := Run(Added(d, b), events), Timers(events) % Period(b);
            && At(r.nodes, b.location) == [AtPhase(b, p)]
            && r.screen[2 * b.location] == if p < Phase(b.onLength) then b.onChar else b.offChar
  {
    hide At;
    AtAdded(d.nodes, b, b.location);
    ShowsRun(Added(d, b), events, b.location, Armed(b));
    BlinkClosedForm(b, Timers(events));
  }

  /** The same for the lengths a client uses, in plain terms. */
  lemma BlinkerPlain(d: Display, b: Blinker, events: seq<Event>)
    requires DisplayOk(d) && 0 < b.location < 2000 && |d.nodes| < 2000 && At(d.nodes, b.location) == []
    requires forall e | e in events :: Proper(e) && !Touches(e, b.location)
    requires 1 <= b.onLength <= 32767 && 1 <= b.offLength <= 32767
    ensures var r, isOn := Run(Added(d, b), events), Timers(events) % (b.onLength + b.offLength) < b.onLength;
            && |At(r.nodes, b.location)| == 1 && At(r.nodes, b.location)[0].on == isOn
            && r.screen[2 * b.location] == if isOn then b.onChar else b.offChar
  {
    hide At, Run, Added, DisplayOk;
    BlinkerLife(d, b, events);
  }

  predicate InStep(a: Blinker, b: Blinker)
  {
    a.onLength == b.onLength && a.offLength == b.offLength && a.countdown == b.countdown && a.on == b.on
  }

  lemma {:induction false} StayInStep(a: Blinker, b: Blinker, n: nat)
    requires InStep(a, b)
    ensures InStep(Ticks(a, n), Ticks(b, n))
  {
    if n > 0 {
      StayInStep(a, b, n - 1);
    }
  }

  /** After a sync, the source and the target (the first nodes at the two locations) have equal status and
      countdown for as long as neither is added to, removed or synced again. */
  lemma SyncLasts(d: Display, source: u16, target: u16, events: seq<Event>)
    requires DisplayOk(d) && CanSync(d, source, target)
    requires forall e | e in events :: Proper(e) && !Touches(e, source) && !Touches(e, target)
    ensures var nodes := Run(Synced(d, source, target), events).nodes;
            var i, j := IndexOf(nodes, source), IndexOf(nodes, target);
            i < |nodes| && j < |nodes| && InStep(nodes[i], nodes[j])
  {
    var start := Synced(d, source, target);
    SyncedInStep(d, source, target);
    IndexAt(start.nodes, source);
    IndexAt(start.nodes, target);
    AtRun(start, events, source);
    AtRun(start, events, target);
    StayInStep(At(start.nodes, source)[0], At(start.nodes, target)[0], Timers(events));
    IndexAt(Run(start, events).nodes, source);
    IndexAt(Run(start, events).nodes, target);
  }

  lemma SyncedInStep(d: Display, source: u16, target: u16)
    requires DisplayOk(d) && CanSync(d, source, target)
    ensures var nodes := Synced(d, source, target).nodes;
            var i, j := IndexOf(nodes, source), IndexOf(nodes, target);
            i < |nodes| && j < |nodes| && InStep(nodes[i], nodes[j])
  {
    var nodes := Synced(d, source, target).nodes;
    SameIndex(d.nodes, nodes, source);
    SameIndex(d.nodes, nodes, target);
  }

  lemma SameIndex(a: seq<Blinker>, b: seq<Blinker>, location: u16)
    requires |a| == |b| && forall k | 0 <= k < |a| :: a[k].location == b[k].location
    ensures IndexOf(a, location) == IndexOf(b, location)
  {
  }
}
