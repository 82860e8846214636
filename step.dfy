/** The two whole-grid passes of a frame as functions of the snapshot before
    them: the rule pass of calculate_step, the propagation pass of
    update_texture, and the frame that runs one after the other.

    Pass1 is the simultaneous (double-buffered) Game of Life step. The source
    instead runs one thread per cell on the same surface in an order the
    hardware chooses; RunSchedule models that, and ScheduleIsSimultaneous
    shows every covering schedule gives Pass1. */
module Passes {
  import opened Cells
  import opened Grids

  /** Two snapshots that agree on red, blue and alpha: all that can differ is
      green. */
  predicate SameButGreen(a: Grid, b: Grid, w: nat, h: nat) {
    IsGrid(a, w, h) && IsGrid(b, w, h) &&
    forall y, x :: 0 <= y < h && 0 <= x < w ==>
      a[y][x].red == b[y][x].red && a[y][x].blue == b[y][x].blue && a[y][x].alpha == b[y][x].alpha
  }

  /** The double-buffered reference step: every cell gets the rule's verdict on
      the snapshot taken before the pass, in green. */
  function Pass1(g: Grid, w: nat, h: nat, edge: EdgePolicy): (r: Grid)
    requires IsGrid(g, w, h)
    ensures SameButGreen(g, r, w, h)
  {
    seq(h, y requires 0 <= y < h =>
      seq(w, x requires 0 <= x < w => StepCell(g[y][x], NeighborCount(g, w, h, edge, x, y))))
  }

  /** One thread of calculate_step at c, run against the current snapshot. */
  function ThreadStep(g: Grid, w: nat, h: nat, edge: EdgePolicy, c: Coord): (r: Grid)
    requires IsGrid(g, w, h) && c.x < w && c.y < h
    ensures SameButGreen(g, r, w, h)
    ensures r[c.y][c.x] == StepCell(g[c.y][c.x], NeighborCount(g, w, h, edge, c.x, c.y))
    ensures forall y, x :: 0 <= y < h && 0 <= x < w && Coord(x, y) != c ==> r[y][x] == g[y][x]
  {
    g[c.y := g[c.y][c.x := StepCell(g[c.y][c.x], NeighborCount(g, w, h, edge, c.x, c.y))]]
  }

  /** Every thread of the schedule addresses a cell of the grid. */
  predicate InGrid(order: seq<Coord>, w: nat, h: nat) {
    forall k :: 0 <= k < |order| ==> order[k].x < w && order[k].y < h
  }

  /** The schedule runs a thread for every cell at least once. */
  predicate Covers(order: seq<Coord>, w: nat, h: nat) {
    InGrid(order, w, h) && forall y: nat, x: nat :: y < h && x < w ==> Coord(x, y) in order
  }

  /** The threads of calculate_step run one after another in the given order,
      each reading and writing the same surface. */
  function RunSchedule(g: Grid, w: nat, h: nat, edge: EdgePolicy, order: seq<Coord>): (r: Grid)
    requires IsGrid(g, w, h) && InGrid(order, w, h)
    ensures SameButGreen(g, r, w, h)
    decreases |order|
  {
    if order == [] then g
    else
      var last := order[|order| - 1];
      ThreadStep(RunSchedule(g, w, h, edge, order[..|order| - 1]), w, h, edge, last)
  }

  /** Whatever the order, after a schedule each cell it has reached holds the
      simultaneous step's value and every other cell is as it was: the pass
      writes only green, and the count reads only red. */
  lemma {:induction false} RunScheduleCells(g: Grid, w: nat, h: nat, edge: EdgePolicy, order: seq<Coord>)
    requires IsGrid(g, w, h) && InGrid(order, w, h)
    ensures forall y, x :: 0 <= y < h && 0 <= x < w ==>
      RunSchedule(g, w, h, edge, order)[y][x] == if Coord(x, y) in order then Pass1(g, w, h, edge)[y][x] else g[y][x]
    decreases |order|
  {
    if order != [] {
      var prefix := order[..|order| - 1];
      var last := order[|order| - 1];
      var before := RunSchedule(g, w, h, edge, prefix);
      var after := RunSchedule(g, w, h, edge, order);
      RunScheduleCells(g, w, h, edge, prefix);
      assert after == ThreadStep(before, w, h, edge, last);
      assert order == prefix + [last];
      ScheduleExtends(g, w, h, edge, prefix, last, before, after);
    }
  }

  /** The inductive step of RunScheduleCells: one more thread on top of a
      partial schedule, cell by cell. */
  lemma ScheduleExtends(g: Grid, w: nat, h: nat, edge: EdgePolicy, prefix: seq<Coord>, last: Coord,
                        before: Grid, after: Grid)
    requires IsGrid(g, w, h) && IsGrid(before, w, h) && SameButGreen(g, before, w, h)
    requires last.x < w && last.y < h
    requires forall y, x :: 0 <= y < h && 0 <= x < w ==>
      before[y][x] == if Coord(x, y) in prefix then Pass1(g, w, h, edge)[y][x] else g[y][x]
    requires after == ThreadStep(before, w, h, edge, last)
    ensures forall y, x :: 0 <= y < h && 0 <= x < w ==>
      after[y][x] == if Coord(x, y) in prefix + [last] then Pass1(g, w, h, edge)[y][x] else g[y][x]
  {
    NeighborCountReadsOnlyRed(before, g, w, h, edge, last.x, last.y);
    forall y, x | 0 <= y < h && 0 <= x < w
      ensures after[y][x] == if Coord(x, y) in prefix + [last] then Pass1(g, w, h, edge)[y][x] else g[y][x]
    {
      RunScheduleStep(g, w, h, edge, prefix, last, before, after, x, y);
    }
  }

  /** The inductive step of RunScheduleCells at one cell. */
  lemma RunScheduleStep(g: Grid, w: nat, h: nat, edge: EdgePolicy, prefix: seq<Coord>, last: Coord,
                        before: Grid, after: Grid, x: nat, y: nat)
    requires IsGrid(g, w, h) && IsGrid(before, w, h) && SameRed(before, g, w, h)
    requires last.x < w && last.y < h && x < w && y < h
    requires before[y][x] == if Coord(x, y) in prefix then Pass1(g, w, h, edge)[y][x] else g[y][x]
    requires before[last.y][last.x] ==
      if last in prefix then Pass1(g, w, h, edge)[last.y][last.x] else g[last.y][last.x]
    requires NeighborCount(before, w, h, edge, last.x, last.y) == NeighborCount(g, w, h, edge, last.x, last.y)
    requires after == ThreadStep(before, w, h, edge, last)
    ensures after[y][x] == if Coord(x, y) in prefix + [last] then Pass1(g, w, h, edge)[y][x] else g[y][x]
  {
    assert Coord(x, y) in prefix + [last] <==> Coord(x, y) in prefix || Coord(x, y) == last;
    if Coord(x, y) == last {
      var n := NeighborCount(g, w, h, edge, x, y);
      assert Pass1(g, w, h, edge)[y][x] == StepCell(g[y][x], n);
      StepCellIdempotent(g[y][x], n);
      assert after[y][x] == StepCell(before[y][x], n);
    }
  }

  /** Two snapshots of the same shape that agree cell by cell are equal. */
  lemma GridsEqual(a: Grid, b: Grid, w: nat, h: nat)
    requires IsGrid(a, w, h) && IsGrid(b, w, h)
    requires forall y, x :: 0 <= y < h && 0 <= x < w ==> a[y][x] == b[y][x]
    ensures a == b
  {
    forall y | 0 <= y < h ensures a[y] == b[y] {
      assert forall x :: 0 <= x < w ==> a[y][x] == b[y][x];
    }
  }

  /** The in-place, one-cell-per-thread rule pass is order independent: any
      schedule that reaches every cell yields the simultaneous step. */
  lemma ScheduleIsSimultaneous(g: Grid, w: nat, h: nat, edge: EdgePolicy, order: seq<Coord>)
    requires IsGrid(g, w, h) && Covers(order, w, h)
    ensures RunSchedule(g, w, h, edge, order) == Pass1(g, w, h, edge)
  {
    RunScheduleCells(g, w, h, edge, order);
    GridsEqual(RunSchedule(g, w, h, edge, order), Pass1(g, w, h, edge), w, h);
  }

  /** Hence two covering schedules, however they order the threads, agree. */
  lemma ScheduleOrderIrrelevant(g: Grid, w: nat, h: nat, edge: EdgePolicy, order1: seq<Coord>, order2: seq<Coord>)
    requires IsGrid(g, w, h) && Covers(order1, w, h) && Covers(order2, w, h)
    ensures RunSchedule(g, w, h, edge, order1) == RunSchedule(g, w, h, edge, order2)
  {
    ScheduleIsSimultaneous(g, w, h, edge, order1);
    ScheduleIsSimultaneous(g, w, h, edge, order2);
  }

  /** The propagation pass of update_texture over the whole grid. */
  function Pass2(g: Grid, w: nat, h: nat): (r: Grid)
    requires IsGrid(g, w, h)
    ensures IsGrid(r, w, h)
    ensures forall y, x :: 0 <= y < h && 0 <= x < w ==>
      r[y][x].green == g[y][x].green && (Alive(r[y][x]) <==> g[y][x].green > 0.0)
    ensures forall y, x :: 0 <= y < h && 0 <= x < w && (g[y][x].green == 0.0 || g[y][x].green == 1.0) ==>
      Settled(r[y][x])
  {
    seq(h, y requires 0 <= y < h => seq(w, x requires 0 <= x < w => Propagate(g[y][x])))
  }

  /** Running update_texture twice equals running it once. */
  lemma Pass2Idempotent(g: Grid, w: nat, h: nat)
    requires IsGrid(g, w, h)
    ensures Pass2(Pass2(g, w, h), w, h) == Pass2(g, w, h)
  {
    forall y, x | 0 <= y < h && 0 <= x < w
      ensures Pass2(Pass2(g, w, h), w, h)[y][x] == Pass2(g, w, h)[y][x]
    {
      PropagateIdempotent(g[y][x]);
    }
    GridsEqual(Pass2(Pass2(g, w, h), w, h), Pass2(g, w, h), w, h);
  }

  /** Every texel satisfies the post-frame channel invariant. */
  predicate AllSettled(g: Grid, w: nat, h: nat)
    requires IsGrid(g, w, h)
  {
    forall y, x :: 0 <= y < h && 0 <= x < w ==> Settled(g[y][x])
  }

  /** On a settled grid, which is how the noise initialisation leaves it,
      update_texture changes nothing. */
  lemma Pass2FixesSettled(g: Grid, w: nat, h: nat)
    requires IsGrid(g, w, h) && AllSettled(g, w, h)
    ensures Pass2(g, w, h) == g
  {
    forall y, x | 0 <= y < h && 0 <= x < w ensures Pass2(g, w, h)[y][x] == g[y][x] {
      SettledIsEncoded(g[y][x]);
    }
    GridsEqual(Pass2(g, w, h), g, w, h);
  }

  /** One frame: the rule pass, then the propagation pass. */
  function FrameStep(g: Grid, w: nat, h: nat, edge: EdgePolicy): (r: Grid)
    requires IsGrid(g, w, h)
    ensures IsGrid(r, w, h) && AllSettled(r, w, h)
  {
    Pass2(Pass1(g, w, h, edge), w, h)
  }

  /** After a frame every texel is settled, and its state is the rule applied
      to the red channels of the previous frame. */
  lemma FrameFollowsRule(g: Grid, w: nat, h: nat, edge: EdgePolicy)
    requires IsGrid(g, w, h)
    ensures AllSettled(FrameStep(g, w, h, edge), w, h)
    ensures forall y, x :: 0 <= y < h && 0 <= x < w ==>
      FrameStep(g, w, h, edge)[y][x] == Encode(NextAlive(Alive(g[y][x]), NeighborCount(g, w, h, edge, x, y)))
  {
    forall y, x | 0 <= y < h && 0 <= x < w
      ensures FrameStep(g, w, h, edge)[y][x] == Encode(NextAlive(Alive(g[y][x]), NeighborCount(g, w, h, edge, x, y)))
    {
      CellFrame(g[y][x], NeighborCount(g, w, h, edge, x, y));
    }
  }

  /** A frame reads only the red channels of the grid it starts from. */
  lemma FrameReadsOnlyRed(a: Grid, b: Grid, w: nat, h: nat, edge: EdgePolicy)
    requires SameRed(a, b, w, h)
    ensures FrameStep(a, w, h, edge) == FrameStep(b, w, h, edge)
  {
    FrameFollowsRule(a, w, h, edge);
    FrameFollowsRule(b, w, h, edge);
    forall y, x | 0 <= y < h && 0 <= x < w
      ensures FrameStep(a, w, h, edge)[y][x] == FrameStep(b, w, h, edge)[y][x]
    {
      NeighborCountReadsOnlyRed(a, b, w, h, edge, x, y);
    }
    GridsEqual(FrameStep(a, w, h, edge), FrameStep(b, w, h, edge), w, h);
  }

  /** Away from the border the edge policy does not change a frame. */
  lemma InteriorFrameIgnoresEdgePolicy(g: Grid, w: nat, h: nat, x: nat, y: nat)
    requires IsGrid(g, w, h) && 1 <= x < w - 1 && 1 <= y < h - 1
    ensures FrameStep(g, w, h, DeadBorder)[y][x] == FrameStep(g, w, h, Torus)[y][x]
  {
    InteriorCountIgnoresEdgePolicy(g, w, h, x, y);
  }

  /** The grid after n frames. */
  function Frames(g: Grid, w: nat, h: nat, edge: EdgePolicy, n: nat): (r: Grid)
    requires IsGrid(g, w, h)
    ensures IsGrid(r, w, h)
    ensures n > 0 ==> AllSettled(r, w, h)
  {
    if n == 0 then g else FrameStep(Frames(g, w, h, edge, n - 1), w, h, edge)
  }
}
