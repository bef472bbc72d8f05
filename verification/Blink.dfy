/** What the blink driver of fish/blink.S means: a list of blinkers and the screen they draw on. */
module Blink {
  import opened Bytes

  type u16 = x: int | 0 <= x < 65536

  const SLOTS := 2000
  const SCREEN := 4000

  /** struct mp1_blink_struct without its link; the status word is 0 or 1. */
  datatype Blinker = Blinker(location: u16, onChar: byte, offChar: byte, onLength: u16, offLength: u16,
                             countdown: u16, on: bool)

  const CLEARED := Blinker(0, 0, 0, 0, 0, 0, false)

  datatype Display = Display(nodes: seq<Blinker>, screen: seq<byte>)

  ghost predicate DisplayOk(d: Display)
  {
    && |d.screen| == SCREEN && |d.nodes| <= SLOTS
    && forall k | 0 <= k < |d.nodes| :: 0 < d.nodes[k].location < SLOTS
  }

  /** A 16-bit word read as a signed number. */
  function Signed(w: u16): int
  {
    if w < 32768 then w else w - 65536
  }

  /** decw */
  function Decremented(w: u16): u16
  {
    (w - 1) % 65536
  }

  /** Poke the character c at a text location. */
  function Poked(screen: seq<byte>, location: int, c: byte): (r: seq<byte>)
    requires |screen| == SCREEN && 0 <= location < SLOTS
    ensures |r| == SCREEN
  {
    screen[2 * location := c]
  }

  // ----- The timer tick.

  predicate Fires(b: Blinker)
  {
    Signed(Decremented(b.countdown)) <= 0
  }

  function Ticked(b: Blinker): Blinker
  {
    if !Fires(b) then b.(countdown := Decremented(b.countdown))
    else if b.on then b.(countdown := b.offLength, on := false)
    else b.(countdown := b.onLength, on := true)
  }

  function Drawn(b: Blinker, screen: seq<byte>): (r: seq<byte>)
    requires |screen| == SCREEN && b.location < SLOTS
    ensures |r| == SCREEN
  {
    if Fires(b) then Poked(screen, b.location, if b.on then b.offChar else b.onChar) else screen
  }

  function AllTicked(nodes: seq<Blinker>): (r: seq<Blinker>)
    ensures |r| == |nodes| && forall k | 0 <= k < |nodes| :: r[k] == Ticked(nodes[k])
  {
    seq(|nodes|, k requires 0 <= k < |nodes| => Ticked(nodes[k]))
  }

  function AllDrawn(nodes: seq<Blinker>, screen: seq<byte>): (r: seq<byte>)
    requires |screen| == SCREEN && forall k | 0 <= k < |nodes| :: nodes[k].location < SLOTS
    ensures |r| == SCREEN
    decreases |nodes|
  {
    if nodes == [] then screen else AllDrawn(nodes[1..], Drawn(nodes[0], screen))
  }

  function Tick(d: Display): (r: Display)
    requires DisplayOk(d)
    ensures DisplayOk(r)
  {
    Display(AllTicked(d.nodes), AllDrawn(d.nodes, d.screen))
  }

  // ----- The ioctl commands.

  /** Index of the first node at a location; the length of the list when there is none. */
  function IndexOf(nodes: seq<Blinker>, location: u16): (i: nat)
    ensures i <= |nodes|
    ensures forall j | 0 <= j < i :: nodes[j].location != location
    ensures i < |nodes| ==> nodes[i].location == location
  {
    if nodes == [] || nodes[0].location == location then 0 else 1 + IndexOf(nodes[1..], location)
  }

  function Armed(b: Blinker): Blinker
  {
    b.(on := true, countdown := b.onLength)
  }

  predicate CanAdd(d: Display, b: Blinker)
  {
    b.location < SLOTS && |d.nodes| < SLOTS
  }

  function Added(d: Display, b: Blinker): (r: Display)
    requires DisplayOk(d) && b.location != 0
    ensures DisplayOk(r)
  {
    if CanAdd(d, b) then Display([Armed(b)] + d.nodes, Poked(d.screen, b.location, b.onChar)) else d
  }

  function Removed(d: Display, location: u16): (r: Display)
    requires DisplayOk(d)
    ensures DisplayOk(r)
  {
    var i := IndexOf(d.nodes, location);
    if i < |d.nodes| then d.(nodes := d.nodes[..i] + d.nodes[i + 1..]) else d
  }

  predicate CanSync(d: Display, source: u16, target: u16)
  {
    IndexOf(d.nodes, source) < |d.nodes| && IndexOf(d.nodes, target) < |d.nodes|
  }

  function Copied(from: Blinker, to: Blinker): Blinker
  {
    to.(onLength := from.onLength, offLength := from.offLength, countdown := from.countdown, on := from.on)
  }

  /** The target takes over the timing of the source; the character drawn is always the off character. */
  function Synced(d: Display, source: u16, target: u16): (r: Display)
    requires DisplayOk(d)
    ensures DisplayOk(r)
  {
    if CanSync(d, source, target) then
      var i, j := IndexOf(d.nodes, source), IndexOf(d.nodes, target);
      Display(d.nodes[j := Copied(d.nodes[i], d.nodes[j])], Poked(d.screen, target, d.nodes[j].offChar))
    else d
  }
}
