/** One texel of the simulation surface and the per-cell logic of the two kernels.

    A texel is a float4 whose channels x, y, z, w are the red, green, blue and
    alpha components of the displayed colour. Only two facts about a channel
    value matter to the kernels: whether it is positive, and the constants 0
    and 1 that they write, so channels are modelled as reals. */
module Cells {

  /** The four channels of a texel: red = x (displayed brightness, read as the
      life state), green = y (the state computed by the rule pass),
      blue = z (mirrored brightness), alpha = w (opacity). */
  datatype Cell = Cell(red: real, green: real, blue: real, alpha: real)

  /** The liveness test of calculate_step: channel 0 is positive. */
  predicate Alive(c: Cell)
    ensures c.red == Flag(true) ==> Alive(c)
    ensures c.red == Flag(false) ==> !Alive(c)
  {
    c.red > 0.0
  }

  /** The channel value that encodes a life state (a real, as stored in a
      texel; the neighbour count uses the natural-number Bit instead). */
  function Flag(b: bool): real {
    if b then 1.0 else 0.0
  }

  /** The Game of Life decision of calculate_step: a live cell dies with fewer
      than two or more than three live neighbours, a dead cell comes alive with
      exactly three, and everything else keeps its state. */
  function NextAlive(alive: bool, n: nat): (r: bool)
    ensures alive ==> (r <==> n == 2 || n == 3)
    ensures !alive ==> (r <==> n == 3)
  {
    if alive then !(n < 2 || n > 3) else n == 3
  }

  /** What one thread of calculate_step writes back to its own texel, given its
      live-neighbour count: the texel as read, with the new state in green. */
  function StepCell(c: Cell, n: nat): (r: Cell)
    ensures r.red == c.red && r.blue == c.blue && r.alpha == c.alpha
    ensures r.green == 0.0 || r.green == 1.0
    ensures r.green == 1.0 <==> NextAlive(Alive(c), n)
  {
    c.(green := Flag(NextAlive(Alive(c), n)))
  }

  /** The texel invariant that holds after every completed frame: red, green
      and blue agree and hold a life flag, and the texel is fully opaque. */
  predicate Settled(c: Cell) {
    c.red == c.green == c.blue && (c.green == 0.0 || c.green == 1.0) && c.alpha == 1.0
  }

  /** What one thread of update_texture writes back: green copied into red and
      blue, alpha forced to 1. */
  function Propagate(c: Cell): (r: Cell)
    ensures r.green == c.green
    ensures r.red == c.green && r.blue == c.green && r.alpha == 1.0
    ensures Alive(r) <==> c.green > 0.0
    ensures (c.green == 0.0 || c.green == 1.0) ==> Settled(r)
  {
    Cell(c.green, c.green, c.green, 1.0)
  }

  /** The encoding of a life state as a settled texel, as the noise
      initialisation and every completed frame leave it. */
  function Encode(alive: bool): (c: Cell)
    ensures Settled(c) && Alive(c) == alive
  {
    Cell(Flag(alive), Flag(alive), Flag(alive), 1.0)
  }

  /** Applying update_texture twice to a texel equals applying it once. */
  lemma PropagateIdempotent(c: Cell)
    ensures Propagate(Propagate(c)) == Propagate(c)
  {
  }

  /** Re-running a rule thread on its own output, with the same count, writes
      nothing new: the red channel it reads is the one it left alone. */
  lemma StepCellIdempotent(c: Cell, n: nat)
    ensures StepCell(StepCell(c, n), n) == StepCell(c, n)
  {
  }

  /** A settled texel is determined by its life state, and update_texture
      leaves it as it is. */
  lemma SettledIsEncoded(c: Cell)
    requires Settled(c)
    ensures c == Encode(Alive(c))
    ensures Propagate(c) == c
  {
  }

  /** One texel through a whole frame: the rule pass then the propagation pass
      leave it settled, holding the rule's verdict on its old red channel. */
  lemma CellFrame(c: Cell, n: nat)
    ensures Propagate(StepCell(c, n)) == Encode(NextAlive(Alive(c), n))
  {
  }
}
