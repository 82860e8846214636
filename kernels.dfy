/** The two kernels and the frame loop as imperative code over the surface.

    The surface is a 2D array of texels, surf[y, x] for column x of row y:
    surf.Length0 rows (one thread block per row) and surf.Length1 columns (one
    thread per column). Each kernel launch is a sequential sweep that runs the
    per-cell thread body once for every cell; the threads of the rule pass may
    also run in any other order (CalculateStepInOrder). */
module Kernels {
  import opened Cells
  import opened Grids
  import opened Passes

  /** The surface's current contents as a value. */
  ghost function Snapshot(surf: array2<Cell>): (g: Grid)
    reads surf
    ensures IsGrid(g, surf.Length1, surf.Length0)
    ensures forall y, x :: 0 <= y < surf.Length0 && 0 <= x < surf.Length1 ==> g[y][x] == surf[y, x]
  {
    seq(surf.Length0, y requires 0 <= y < surf.Length0 reads surf =>
      seq(surf.Length1, x requires 0 <= x < surf.Length1 reads surf => surf[y, x]))
  }

  /** surf2Dread at a possibly out-of-range coordinate, under the edge policy. */
  function SurfRead(surf: array2<Cell>, edge: EdgePolicy, x: int, y: int): (c: Cell)
    reads surf
    ensures c == At(Snapshot(surf), surf.Length1, surf.Length0, edge, x, y)
  {
    match Resolve(surf.Length1, surf.Length0, edge, x, y)
    case None => Blank
    case Some(p) => surf[p.y, p.x]
  }

  /** The neighbour loop of calculate_step: one read per entry of
      neighborOffsets, counting the reads whose red channel is positive. */
  method CountNeighbors(surf: array2<Cell>, edge: EdgePolicy, x: nat, y: nat) returns (neighborCount: nat)
    ensures neighborCount == NeighborCount(Snapshot(surf), surf.Length1, surf.Length0, edge, x, y)
    ensures neighborCount <= 8
  {
    ghost var g := Snapshot(surf);
    neighborCount := 0;
    for k := 0 to |Offsets|
      invariant neighborCount == LiveAmong(g, surf.Length1, surf.Length0, edge, x, y, k)
    {
      var offset := Offsets[k];
      var val := SurfRead(surf, edge, x + offset.0, y + offset.1);
      if val.red > 0.0 {
        neighborCount := neighborCount + 1;
      }
    }
  }

  /** One thread of calculate_step: count the live neighbours, read the own
      texel, decide its next state and write it back with only green changed. */
  method CalculateStep(surf: array2<Cell>, edge: EdgePolicy, x: nat, y: nat)
    requires x < surf.Length1 && y < surf.Length0
    modifies surf
    ensures Snapshot(surf) == ThreadStep(old(Snapshot(surf)), surf.Length1, surf.Length0, edge, Coord(x, y))
  {
    ghost var g := Snapshot(surf);
    var neighborCount := CountNeighbors(surf, edge, x, y);
    var val := surf[y, x];
    var alive := val.red > 0.0;
    if alive {
      if neighborCount < 2 || neighborCount > 3 {
        alive := false;
      }
    } else if neighborCount == 3 {
      alive := true;
    }
    val := val.(green := if alive then 1.0 else 0.0);
    surf[y, x] := val;
    GridsEqual(Snapshot(surf), ThreadStep(g, surf.Length1, surf.Length0, edge, Coord(x, y)), surf.Length1, surf.Length0);
  }

  /** The calculate_step launch: block y handles row y, thread x column x.
      The in-place sweep computes exactly the simultaneous step. */
  method CalculateStepKernel(surf: array2<Cell>, edge: EdgePolicy)
    modifies surf
    ensures Snapshot(surf) == Pass1(old(Snapshot(surf)), surf.Length1, surf.Length0, edge)
  {
    ghost var g := Snapshot(surf);
    var w, h := surf.Length1, surf.Length0;
    ghost var next := Pass1(g, w, h, edge);
    for y := 0 to h
      invariant forall j, i :: 0 <= j < h && 0 <= i < w ==> surf[j, i] == if j < y then next[j][i] else g[j][i]
    {
      for x := 0 to w
        invariant forall j, i :: 0 <= j < h && 0 <= i < w ==>
          surf[j, i] == if j < y || (j == y && i < x) then next[j][i] else g[j][i]
      {
        ghost var cur := Snapshot(surf);
        assert SameRed(cur, g, w, h);
        NeighborCountReadsOnlyRed(cur, g, w, h, edge, x, y);
        CalculateStep(surf, edge, x, y);
      }
    }
    GridsEqual(Snapshot(surf), next, w, h);
  }

  /** The calculate_step threads run one at a time in an arbitrary order. Any
      order that reaches every cell computes the simultaneous step. */
  method CalculateStepInOrder(surf: array2<Cell>, edge: EdgePolicy, order: seq<Coord>)
    requires InGrid(order, surf.Length1, surf.Length0)
    modifies surf
    ensures Snapshot(surf) == RunSchedule(old(Snapshot(surf)), surf.Length1, surf.Length0, edge, order)
    ensures Covers(order, surf.Length1, surf.Length0) ==>
      Snapshot(surf) == Pass1(old(Snapshot(surf)), surf.Length1, surf.Length0, edge)
  {
    ghost var g := Snapshot(surf);
    var w, h := surf.Length1, surf.Length0;
    for k := 0 to |order|
      invariant Snapshot(surf) == RunSchedule(g, w, h, edge, order[..k])
    {
      CalculateStep(surf, edge, order[k].x, order[k].y);
      assert order[..k + 1][..k] == order[..k];
    }
    assert order[..|order|] == order;
    if Covers(order, w, h) {
      ScheduleIsSimultaneous(g, w, h, edge, order);
    }
  }

  /** One thread of update_texture: copy green into red and blue, set alpha. */
  method UpdateTexture(surf: array2<Cell>, x: nat, y: nat)
    requires x < surf.Length1 && y < surf.Length0
    modifies surf
    ensures surf[y, x] == Propagate(old(surf[y, x]))
    ensures forall j, i :: 0 <= j < surf.Length0 && 0 <= i < surf.Length1 && (j, i) != (y, x) ==>
      surf[j, i] == old(surf[j, i])
  {
    var val := surf[y, x];
    val := val.(red := val.green, blue := val.green, alpha := 1.0);
    surf[y, x] := val;
  }

  /** The update_texture launch over the whole surface. */
  method UpdateTextureKernel(surf: array2<Cell>)
    modifies surf
    ensures Snapshot(surf) == Pass2(old(Snapshot(surf)), surf.Length1, surf.Length0)
  {
    ghost var g := Snapshot(surf);
    var w, h := surf.Length1, surf.Length0;
    for y := 0 to h
      invariant forall j, i :: 0 <= j < h && 0 <= i < w ==> surf[j, i] == if j < y then Propagate(g[j][i]) else g[j][i]
    {
      for x := 0 to w
        invariant forall j, i :: 0 <= j < h && 0 <= i < w ==>
          surf[j, i] == if j < y || (j == y && i < x) then Propagate(g[j][i]) else g[j][i]
      {
        UpdateTexture(surf, x, y);
      }
    }
    GridsEqual(Snapshot(surf), Pass2(g, w, h), w, h);
  }

  /** One frame of the main loop: the rule pass, then the propagation pass,
      on the same stream. Afterwards every texel is settled and holds the
      rule's verdict on the previous frame. */
  method RunFrame(surf: array2<Cell>, edge: EdgePolicy)
    modifies surf
    ensures Snapshot(surf) == FrameStep(old(Snapshot(surf)), surf.Length1, surf.Length0, edge)
    ensures AllSettled(Snapshot(surf), surf.Length1, surf.Length0)
  {
    ghost var g := Snapshot(surf);
    CalculateStepKernel(surf, edge);
    UpdateTextureKernel(surf);
    FrameFollowsRule(g, surf.Length1, surf.Length0, edge);
  }

  /** The main loop, run for a given number of frames (the window-close
      signal that ends it is outside the model). */
  method Simulate(surf: array2<Cell>, edge: EdgePolicy, frames: nat)
    modifies surf
    ensures Snapshot(surf) == Frames(old(Snapshot(surf)), surf.Length1, surf.Length0, edge, frames)
  {
    ghost var g := Snapshot(surf);
    for n := 0 to frames
      invariant Snapshot(surf) == Frames(g, surf.Length1, surf.Length0, edge, n)
    {
      RunFrame(surf, edge);
    }
  }
}
