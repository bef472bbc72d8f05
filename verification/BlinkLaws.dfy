/** What the commands of the blink driver do to the list, said without the driver's own terms. */
module BlinkLaws {
  import opened Bytes
  import opened Blink
  import opened BlinkTiming

  ghost predicate NoneAt(nodes: seq<Blinker>, location: u16)
  {
    forall k | 0 <= k < |nodes| :: nodes[k].location != location
  }

  lemma IndexIs(nodes: seq<Blinker>, i: nat, location: u16)
    requires i < |nodes| && nodes[i].location == location && NoneAt(nodes[..i], location)
    ensures IndexOf(nodes, location) == i
  {
    assert forall k | 0 <= k < i :: nodes[..i][k] == nodes[k];
  }

  lemma NoIndex(nodes: seq<Blinker>, location: u16)
    requires NoneAt(nodes, location)
    ensures IndexOf(nodes, location) == |nodes|
  {
  }

  // ----- add.

  /** A new node goes in front of the others, on and at the start of its on phase, and its character is drawn;
      nothing happens for a location off the screen or a full list. */
  lemma AddExact(d: Display, b: Blinker)
    requires DisplayOk(d) && b.location != 0
    ensures var r := Added(d, b);
            if b.location < 2000 && |d.nodes| < 2000 then
              && |r.nodes| == |d.nodes| + 1 && r.nodes[1..] == d.nodes
              && r.nodes[0] == Blinker(b.location, b.onChar, b.offChar, b.onLength, b.offLength, b.onLength, true)
              && r.screen == d.screen[2 * b.location := b.onChar]
              && IndexOf(r.nodes, b.location) == 0
            else r == d
  {
  }

  // ----- remove.

  /** Exactly the first node at the location goes, wherever it stands, and the others and the screen stay. */
  lemma RemoveExact(a: seq<Blinker>, b: Blinker, c: seq<Blinker>, screen: seq<byte>)
    requires DisplayOk(Display(a + [b] + c, screen)) && NoneAt(a, b.location)
    ensures Removed(Display(a + [b] + c, screen), b.location) == Display(a + c, screen)
  {
    var nodes := a + [b] + c;
    assert nodes[..|a|] == a && nodes[|a|] == b && nodes[|a| + 1..] == c;
    IndexIs(nodes, |a|, b.location);
  }

  lemma RemoveNone(d: Display, location: u16)
    requires DisplayOk(d) && NoneAt(d.nodes, location)
    ensures Removed(d, location) == d
  {
    NoIndex(d.nodes, location);
  }

  /** remove undoes the last add at its location. */
  lemma RemoveUndoesAdd(d: Display, b: Blinker)
    requires DisplayOk(d) && b.location != 0 && CanAdd(d, b)
    ensures Removed(Added(d, b), b.location).nodes == d.nodes
  {
    var r := Added(d, b);
    assert r.nodes == [] + [Armed(b)] + d.nodes;
    RemoveExact([], Armed(b), d.nodes, r.screen);
    assert [] + d.nodes == d.nodes;
  }

  /** Of the nodes at the location the first is gone. */
  lemma RemovedAt(d: Display, location: u16)
    requires DisplayOk(d)
    ensures At(Removed(d, location).nodes, location)
         == if At(d.nodes, location) == [] then [] else At(d.nodes, location)[1..]
  {
    var i := IndexOf(d.nodes, location);
    if i < |d.nodes| {
      AtSplit(d.nodes, i, location);
      AtAppend(d.nodes[..i], d.nodes[i + 1..], location);
      NothingAt(d.nodes[..i], location);
      assert d.nodes == d.nodes[..i] + [d.nodes[i]] + d.nodes[i + 1..];
      RemoveExact(d.nodes[..i], d.nodes[i], d.nodes[i + 1..], d.screen);
      assert At([d.nodes[i]], location) == [d.nodes[i]];
    } else {
      RemoveNone(d, location);
      NothingAt(d.nodes, location);
    }
  }

  lemma NothingAt(nodes: seq<Blinker>, location: u16)
    requires NoneAt(nodes, location)
    ensures At(nodes, location) == []
  {
    if nodes != [] {
      assert forall k | 0 <= k < |nodes| - 1 :: nodes[1..][k] == nodes[k + 1];
      NothingAt(nodes[1..], location);
    }
  }

  // ----- sync.

  /** The first node at the target location keeps its place, location and characters and takes lengths, countdown
      and status from the first node at the source; every other node and cell is kept. */
  lemma SyncExact(d: Display, i: nat, j: nat)
    requires DisplayOk(d) && i < |d.nodes| && j < |d.nodes|
    requires NoneAt(d.nodes[..i], d.nodes[i].location) && NoneAt(d.nodes[..j], d.nodes[j].location)
    ensures var from, to := d.nodes[i], d.nodes[j];
            var r := Synced(d, from.location, to.location);
            && CanSync(d, from.location, to.location)
            && r.nodes == d.nodes[j := Blinker(to.location, to.onChar, to.offChar, from.onLength, from.offLength,
                                               from.countdown, from.on)]
            && r.screen == d.screen[2 * to.location := to.offChar]
  {
    IndexIs(d.nodes, i, d.nodes[i].location);
    IndexIs(d.nodes, j, d.nodes[j].location);
  }

  lemma SyncNone(d: Display, source: u16, target: u16)
    requires DisplayOk(d) && (NoneAt(d.nodes, source) || NoneAt(d.nodes, target))
    ensures !CanSync(d, source, target) && Synced(d, source, target) == d
  {
    if NoneAt(d.nodes, source) {
      NoIndex(d.nodes, source);
    } else {
      NoIndex(d.nodes, target);
    }
  }

  // ----- The screen.

  /** Byte i of the screen is the character of a listed node. */
  ghost predicate Owned(nodes: seq<Blinker>, i: int)
  {
    exists k :: 0 <= k < |nodes| && i == 2 * nodes[k].location
  }

  lemma {:induction false} DrawnElsewhere(nodes: seq<Blinker>, screen: seq<byte>, i: nat)
    requires |screen| == SCREEN && i < SCREEN && !Owned(nodes, i)
    requires forall k | 0 <= k < |nodes| :: nodes[k].location < SLOTS
    ensures AllDrawn(nodes, screen)[i] == screen[i]
    decreases |nodes|
  {
    if nodes != [] {
      assert i != 2 * nodes[0].location;
      assert forall k | 0 <= k < |nodes| - 1 :: nodes[1..][k] == nodes[k + 1];
      DrawnElsewhere(nodes[1..], Drawn(nodes[0], screen), i);
    }
  }

  /** Attributes and the characters of cells without a node are left alone by every tick and every command but the
      add of a node at that cell. */
  lemma OnlyBlinkersDraw(d: Display, e: Event, i: nat)
    requires DisplayOk(d) && Proper(e) && i < SCREEN && !Owned(d.nodes, i)
    requires e.Insert? ==> i != 2 * e.b.location
    ensures Step(d, e).screen[i] == d.screen[i]
  {
    match e
    case Timer =>
      DrawnElsewhere(d.nodes, d.screen, i);
    case Insert(b) =>
    case Delete(_) =>
    case Query(_) =>
    case Align(source, target) =>
      var j := IndexOf(d.nodes, target);
      if j < |d.nodes| {
        assert i != 2 * d.nodes[j].location;
      }
  }
}
