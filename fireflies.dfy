/** The discrete blink cascade of src/lib.rs, as a sequential system. The global
    `GRID_STATE` is a Simulation object; each firefly's thread becomes the step
    HandleBlink (one iteration of its receive loop), each timer thread spawned by
    `blink` becomes the step Firefly.TimerOff, and each mpsc channel becomes the
    firefly's mailbox, a FIFO queue of messages. */
module Fireflies {
  import opened Outcomes
  import opened Topology

  datatype Light = On | Off

  datatype Message = Blink

  newtype byte = b: int | 0 <= b < 256

  /** The value get_grid_row reports for one firefly. */
  function LightBit(l: Light): (b: byte)
    ensures b == 0 || b == 1
    ensures b == 1 <==> l == On
  {
    match l
    case On => 1
    case Off => 0
  }

  /** How index.js colours a cell from the value it polled: 0 is dark, any
      other value lit. */
  function Rendered(b: byte): (l: Light)
    ensures l == Off <==> b == 0
  {
    if b == 0 then Off else On
  }

  /** The page shows every firefly in the light state get_grid_row read. */
  lemma RenderedLightBit(l: Light)
    ensures Rendered(LightBit(l)) == l
  {
  }

  /** n Blink messages. */
  function Blinks(n: nat): (r: seq<Message>)
    ensures |r| == n
  {
    if n == 0 then [] else Blinks(n - 1) + [Blink]
  }

  /** What `get_random_index(n)` can return: `floor(random * n)` with random in
      [0, 1), which is 0 when n is 0. */
  function RandomIndex(i: nat, n: nat): (ok: bool)
    ensures ok && n > 0 ==> i < n
    ensures n == 0 ==> (ok <==> i == 0)
  {
    if n == 0 then i == 0 else i < n
  }

  /** The positions `inform_neighbours` sends to: none when it panics. */
  function Informed(x: nat, y: nat, rows: nat, cols: nat): (r: seq<Pos>)
    requires x < cols && y < rows
    ensures r == [] <==> x == 0 || y == 0
    ensures x > 0 && y > 0 ==> r == TorusNeighbours(x, y, rows, cols)
    ensures forall i | 0 <= i < |r| :: InGrid(r[i], rows, cols)
  {
    match Neighbours(x, y, rows, cols)
    case None => []
    case Some(ns) => ns
  }

  /** Extending a prefix by one element adds one occurrence of that element. */
  lemma MultisetOfLongerPrefix<T>(s: seq<T>, i: nat)
    requires i < |s|
    ensures forall q :: multiset(s[..i + 1])[q] == multiset(s[..i])[q] + (if q == s[i] then 1 else 0)
  {
    assert s[..i + 1] == s[..i] + [s[i]];
  }

  /** One firefly: its coordinates, its light behind the state mutex, the queue
      of its channel, and the number of timer threads `blink` has spawned that
      have not switched it off yet. */
  class Firefly {
    const x: nat
    const y: nat
    var light: Light
    var mailbox: seq<Message>
    var timers: nat

    /** A lit firefly has an off-timer pending, so its light goes out again. */
    predicate LitHasTimer()
      reads this
    {
      light == On ==> timers > 0
    }

    constructor (x: nat, y: nat)
      ensures this.x == x && this.y == y
      ensures light == Off && mailbox == [] && timers == 0
      ensures LitHasTimer()
    {
      this.x := x;
      this.y := y;
      light := Off;
      mailbox := [];
      timers := 0;
    }

    /** Sending on the firefly's channel: the message joins the back of the queue. */
    method Send(m: Message)
      modifies this
      ensures mailbox == old(mailbox) + [m]
      ensures light == old(light) && timers == old(timers)
      ensures LitHasTimer() == old(LitHasTimer())
    {
      mailbox := mailbox + [m];
    }

    /** `recv` on the firefly's channel: the oldest message, or None while the
        thread would stay blocked on an empty channel. */
    method Receive() returns (m: Option<Message>)
      modifies this
      ensures old(mailbox) == [] ==> m == None && mailbox == []
      ensures old(mailbox) != [] ==> m == Some(old(mailbox)[0]) && mailbox == old(mailbox)[1..]
      ensures light == old(light) && timers == old(timers)
      ensures LitHasTimer() == old(LitHasTimer())
    {
      if mailbox == [] {
        m := None;
      } else {
        m := Some(mailbox[0]);
        mailbox := mailbox[1..];
      }
    }

    /** The immediate part of `blink`: the light goes on and an off-timer starts. */
    method Blink()
      modifies this
      ensures light == On && timers == old(timers) + 1
      ensures mailbox == old(mailbox)
      ensures LitHasTimer()
    {
      light := On;
      timers := timers + 1;
    }

    /** The delayed part of `blink`: one pending timer fires and switches the light off. */
    method TimerOff()
      requires timers > 0
      modifies this
      ensures light == Off && timers == old(timers) - 1
      ensures mailbox == old(mailbox)
      ensures LitHasTimer()
    {
      light := Off;
      timers := timers - 1;
    }
  }

  /** The global `GRID_STATE`: no grid until setup, then a matrix of fireflies in
      which grid[y][x] is the firefly at column x, row y. Repr is the set of those
      fireflies. */
  class Simulation {
    var grid: Option<seq<seq<Firefly>>>
    ghost var Repr: set<Firefly>

    ghost predicate Valid()
      reads this
    {
      match grid
      case None => Repr == {}
      case Some(g) =>
        && (forall r | 0 <= r < |g| :: |g[r]| == |g[0]|)
        && (forall r, c | 0 <= r < |g| && 0 <= c < |g[r]| :: g[r][c].y == r && g[r][c].x == c && g[r][c] in Repr)
        && (forall f | f in Repr :: f.y < |g| && f.x < |g[f.y]| && g[f.y][f.x] == f)
    }

    function Rows(): nat
      reads this
    {
      if grid.Some? then |grid.value| else 0
    }

    function Cols(): nat
      reads this
    {
      if grid.Some? && |grid.value| > 0 then |grid.value[0]| else 0
    }

    function At(x: nat, y: nat): (f: Firefly)
      reads this
      requires Valid() && y < Rows() && x < Cols()
      ensures f in Repr && f.x == x && f.y == y
    {
      grid.value[y][x]
    }

    constructor ()
      ensures Valid() && grid == None
    {
      grid := None;
      Repr := {};
    }

    /** `setup_fireflies`: a fresh rows × cols matrix of dark fireflies with empty
        channels replaces whatever grid was there. */
    method Setup(rows: nat, cols: nat)
      modifies this
      ensures Valid() && grid.Some? && Rows() == rows && (rows > 0 ==> Cols() == cols)
      ensures fresh(Repr)
      ensures forall f | f in Repr :: f.light == Off && f.mailbox == [] && f.timers == 0
    {
      var fireflies: seq<seq<Firefly>> := [];
      ghost var made: set<Firefly> := {};
      for y := 0 to rows
        invariant |fireflies| == y
        invariant forall r | 0 <= r < y :: |fireflies[r]| == cols
        invariant forall r, c | 0 <= r < y && 0 <= c < cols ::
          fireflies[r][c].y == r && fireflies[r][c].x == c && fireflies[r][c] in made
        invariant forall f | f in made :: fresh(f) && f.y < y && f.x < cols && fireflies[f.y][f.x] == f
        invariant forall f | f in made :: f.light == Off && f.mailbox == [] && f.timers == 0
      {
        var row: seq<Firefly> := [];
        ghost var earlier := made;
        for x := 0 to cols
          invariant |row| == x
          invariant earlier <= made
          invariant forall c | 0 <= c < x :: row[c].y == y && row[c].x == c && row[c] in made
          invariant forall f | f in made :: fresh(f) && f.x < cols && f.y <= y
          invariant forall f | f in made && f.y < y :: fireflies[f.y][f.x] == f
          invariant forall f | f in made && f.y == y :: f.x < x && row[f.x] == f
          invariant forall f | f in made :: f.light == Off && f.mailbox == [] && f.timers == 0
        {
          var f := new Firefly(x, y);
          row := row + [f];
          made := made + {f};
        }
        fireflies := fireflies + [row];
      }
      grid := Some(fireflies);
      Repr := made;
    }

    /** `get_grid_row(i)`: row i as 0/1 values, the empty row when there is no
        grid, and the out-of-bounds panic past the last row. */
    method GetGridRow(i: nat) returns (r: Result<seq<byte>>)
      requires Valid()
      ensures grid.None? ==> r == Ok([])
      ensures grid.Some? && i >= Rows() ==> r == Err(IndexOutOfBounds)
      ensures grid.Some? && i < Rows() ==>
        r.Ok? && |r.value| == Cols() && forall j | 0 <= j < Cols() :: r.value[j] == LightBit(At(j, i).light)
    {
      if grid.None? {
        return Ok([]);
      }
      var fireflies := grid.value;
      if i >= |fireflies| {
        return Err(IndexOutOfBounds);
      }
      var flies := fireflies[i];
      var rowState: seq<byte> := [];
      for j := 0 to |flies|
        invariant |rowState| == j
        invariant forall k | 0 <= k < j :: rowState[k] == LightBit(flies[k].light)
      {
        match flies[j].light
        case On => rowState := rowState + [1];
        case Off => rowState := rowState + [0];
      }
      return Ok(rowState);
    }

    /** `start`, with the two random indices passed in: nothing happens without a
        grid, an empty grid panics on indexing, and otherwise the chosen firefly
        gets one Blink and nothing else changes. */
    method Start(y: nat, x: nat) returns (outcome: Outcome)
      requires Valid()
      requires grid.Some? ==> RandomIndex(y, Rows()) && (Rows() > 0 ==> RandomIndex(x, Cols()))
      modifies Repr
      ensures Valid() && grid == old(grid) && Repr == old(Repr)
      ensures grid.None? ==> outcome == Done
      ensures grid.Some? ==> outcome == if Rows() == 0 || Cols() == 0 then Panicked(IndexOutOfBounds) else Done
      ensures forall f | f in Repr :: f.light == old(f.light) && f.timers == old(f.timers)
      ensures forall f | f in Repr ::
        f.mailbox == if f.x == x && f.y == y then old(f.mailbox) + [Blink] else old(f.mailbox)
    {
      if grid.None? {
        return Done;
      }
      var fireflies := grid.value;
      if |fireflies| == 0 || |fireflies[0]| == 0 {
        return Panicked(IndexOutOfBounds);
      }
      At(x, y).Send(Blink);
      outcome := Done;
    }

    /** The loop of `inform_neighbours` that sends one Blink to each target in turn:
        each firefly receives as many messages as it occurs among the targets. */
    method Deliver(targets: seq<Pos>)
      requires Valid()
      requires forall i | 0 <= i < |targets| :: InGrid(targets[i], Rows(), Cols())
      modifies Repr
      ensures grid == old(grid) && Repr == old(Repr)
      ensures forall f | f in Repr :: f.light == old(f.light) && f.timers == old(f.timers)
      ensures forall f | f in Repr :: f.mailbox == old(f.mailbox) + Blinks(multiset(targets)[Pos(f.x, f.y)])
    {
      for i := 0 to |targets|
        invariant forall f | f in Repr :: f.light == old(f.light) && f.timers == old(f.timers)
        invariant forall f | f in Repr ::
          f.mailbox == old(f.mailbox) + Blinks(multiset(targets[..i])[Pos(f.x, f.y)])
      {
        var p := targets[i];
        MultisetOfLongerPrefix(targets, i);
        At(p.x, p.y).Send(Blink);
      }
      assert targets[..|targets|] == targets;
    }

    /** The receive and the `blink` of one iteration of a firefly's receive loop:
        the oldest message leaves the mailbox, the light goes on and an off-timer
        starts; on an empty mailbox nothing happens. */
    method ReceiveAndBlink(x: nat, y: nat) returns (received: bool)
      requires Valid() && y < Rows() && x < Cols()
      modifies At(x, y)
      ensures received <==> old(At(x, y).mailbox) != []
      ensures var me := At(x, y);
        && me.mailbox == (if received then old(me.mailbox)[1..] else old(me.mailbox))
        && me.light == (if received then On else old(me.light))
        && me.timers == (if received then old(me.timers) + 1 else old(me.timers))
    {
      var me := At(x, y);
      var m := me.Receive();
      received := m.Some?;
      if received {
        me.Blink();
      }
    }

    /** One iteration of the receive loop of the thread of the firefly at (x, y),
        as the source computes the neighbours in an overflow-checked build: take
        the oldest message, switch on and start an off-timer, then send Blink up,
        down, left and right. At the first row or column the subtraction panics
        after the light went on and before anything is sent. */
    method HandleBlink(x: nat, y: nat) returns (outcome: Outcome)
      requires Valid() && y < Rows() && x < Cols()
      modifies Repr
      ensures Valid() && grid == old(grid) && Repr == old(Repr)
      ensures old(At(x, y).mailbox) == [] ==> outcome == Waiting
      ensures old(At(x, y).mailbox) != [] ==>
        outcome == if x == 0 || y == 0 then Panicked(SubtractOverflow) else Done
      ensures forall f | f in Repr ::
        f.light == (if f == At(x, y) && old(f.mailbox) != [] then On else old(f.light))
      ensures forall f | f in Repr ::
        f.timers == (if f == At(x, y) && old(f.mailbox) != [] then old(f.timers) + 1 else old(f.timers))
      ensures forall f | f in Repr ::
        f.mailbox ==
          (if f == At(x, y) && old(f.mailbox) != [] then old(f.mailbox)[1..] else old(f.mailbox))
          + Blinks(if old(At(x, y).mailbox) == [] then 0 else multiset(Informed(x, y, Rows(), Cols()))[Pos(f.x, f.y)])
    {
      var received := ReceiveAndBlink(x, y);
      if !received {
        return Waiting;
      }
      var neighbours := Neighbours(x, y, Rows(), Cols());
      if neighbours.None? {
        return Panicked(SubtractOverflow);
      }
      Deliver(neighbours.value);
      outcome := Done;
    }

    /** HandleBlink with the torus neighbours the grid is meant to have: the same
        step, but the first row and column wrap round instead of panicking. */
    method HandleBlinkTorus(x: nat, y: nat) returns (outcome: Outcome)
      requires Valid() && y < Rows() && x < Cols()
      modifies Repr
      ensures Valid() && grid == old(grid) && Repr == old(Repr)
      ensures outcome == if old(At(x, y).mailbox) == [] then Waiting else Done
      ensures forall f | f in Repr ::
        f.light == (if f == At(x, y) && old(f.mailbox) != [] then On else old(f.light))
      ensures forall f | f in Repr ::
        f.timers == (if f == At(x, y) && old(f.mailbox) != [] then old(f.timers) + 1 else old(f.timers))
      ensures forall f | f in Repr ::
        f.mailbox ==
          (if f == At(x, y) && old(f.mailbox) != [] then old(f.mailbox)[1..] else old(f.mailbox))
          + Blinks(if old(At(x, y).mailbox) == [] then 0 else multiset(TorusNeighbours(x, y, Rows(), Cols()))[Pos(f.x, f.y)])
    {
      var received := ReceiveAndBlink(x, y);
      if !received {
        return Waiting;
      }
      Deliver(TorusNeighbours(x, y, Rows(), Cols()));
      outcome := Done;
    }

    /** HandleBlink as the source computes the neighbours in a build without
        overflow checks: the first row and column never panic but send "up" and
        "left" to row (2^32 - 1) % rows and column (2^32 - 1) % cols. A `Vec`
        on wasm32 holds fewer than 2^32 elements. */
    method HandleBlinkWrapping(x: nat, y: nat) returns (outcome: Outcome)
      requires Valid() && y < Rows() && x < Cols()
      requires Rows() < USIZE_MODULUS && Cols() < USIZE_MODULUS
      modifies Repr
      ensures Valid() && grid == old(grid) && Repr == old(Repr)
      ensures outcome == if old(At(x, y).mailbox) == [] then Waiting else Done
      ensures forall f | f in Repr ::
        f.light == (if f == At(x, y) && old(f.mailbox) != [] then On else old(f.light))
      ensures forall f | f in Repr ::
        f.timers == (if f == At(x, y) && old(f.mailbox) != [] then old(f.timers) + 1 else old(f.timers))
      ensures forall f | f in Repr ::
        f.mailbox ==
          (if f == At(x, y) && old(f.mailbox) != [] then old(f.mailbox)[1..] else old(f.mailbox))
          + Blinks(if old(At(x, y).mailbox) == [] then 0 else multiset(WrappingNeighbours(x, y, Rows(), Cols()))[Pos(f.x, f.y)])
    {
      var received := ReceiveAndBlink(x, y);
      if !received {
        return Waiting;
      }
      Deliver(WrappingNeighbours(x, y, Rows(), Cols()));
      outcome := Done;
    }
  }
}
