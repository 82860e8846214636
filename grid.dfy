/** The simulation surface as a value, the read that calculate_step performs at
    a possibly out-of-range coordinate, and its live-neighbour count. */
module Grids {
  import opened Cells

  /** A surface snapshot, row by row: g[y][x] is the texel of column x, row y. */
  type Grid = seq<seq<Cell>>

  /** g has h rows of w texels each. */
  predicate IsGrid(g: Grid, w: nat, h: nat) {
    |g| == h && forall y :: 0 <= y < h ==> |g[y]| == w
  }

  /** Column and row of a thread: threadIdx.x and blockIdx.x of the launch. */
  datatype Coord = Coord(x: nat, y: nat)

  /** What a surface read at a coordinate outside the grid returns. The source
      leaves this to the runtime, so the model fixes it as a parameter: either
      every out-of-range texel reads as all-zero (dead), or coordinates wrap
      around both axes. */
  datatype EdgePolicy = DeadBorder | Torus

  datatype Option<T> = None | Some(value: T)

  /** The all-zero texel that DeadBorder reads outside the grid. */
  const Blank: Cell := Cell(0.0, 0.0, 0.0, 0.0)

  /** The texel a read at (x, y) actually reaches, if any. */
  function Resolve(w: nat, h: nat, edge: EdgePolicy, x: int, y: int): (r: Option<Coord>)
    ensures r.Some? ==> r.value.x < w && r.value.y < h
  {
    if 0 <= x < w && 0 <= y < h then Some(Coord(x, y))
    else match edge
      case DeadBorder => None
      case Torus => if w == 0 || h == 0 then None else Some(Coord(x % w, y % h))
  }

  /** A read inside the grid reaches the texel addressed; outside it, a dead
      border reaches nothing and a torus reaches some texel of a non-empty
      grid. */
  lemma ResolveCases(w: nat, h: nat, edge: EdgePolicy, x: int, y: int)
    ensures 0 <= x < w && 0 <= y < h ==> Resolve(w, h, edge, x, y) == Some(Coord(x, y))
    ensures edge == DeadBorder ==> (Resolve(w, h, edge, x, y).Some? <==> 0 <= x < w && 0 <= y < h)
    ensures edge == Torus ==> (Resolve(w, h, edge, x, y).Some? <==> w > 0 && h > 0)
  {
  }

  /** Where a coordinate at most one step outside 0..n-1 lands on a torus. */
  function Wrapped(v: int, n: nat): int {
    if v < 0 then n - 1 else if v >= n then 0 else v
  }

  /** On a torus a read one step past an edge reaches the opposite edge. */
  lemma TorusWrapsByOne(w: nat, h: nat, x: int, y: int)
    requires w > 0 && h > 0 && -1 <= x <= w && -1 <= y <= h
    ensures Resolve(w, h, Torus, x, y) == Some(Coord(Wrapped(x, w), Wrapped(y, h)))
  {
    if !(0 <= x < w && 0 <= y < h) {
      ModNear(x, w);
      ModNear(y, h);
    }
  }

  lemma ModNear(v: int, n: nat)
    requires n > 0 && -1 <= v <= n
    ensures v % n == Wrapped(v, n)
  {
    if v < 0 {
      assert v == (-1) * n + (n - 1);
    } else if v == n {
      assert v == 1 * n + 0;
    }
  }

  /** The value of surf2Dread at (x, y) under the edge policy. */
  function At(g: Grid, w: nat, h: nat, edge: EdgePolicy, x: int, y: int): (r: Cell)
    requires IsGrid(g, w, h)
    ensures 0 <= x < w && 0 <= y < h ==> r == g[y][x]
    ensures edge == DeadBorder && !(0 <= x < w && 0 <= y < h) ==> r == Blank
  {
    match Resolve(w, h, edge, x, y)
    case None => Blank
    case Some(c) => g[c.y][c.x]
  }

  /** neighborOffsets of calculate_step, in the source's order. */
  const Offsets: seq<(int, int)> :=
    [(-1, -1), (0, -1), (1, -1), (-1, 0), (1, 0), (-1, 1), (0, 1), (1, 1)]

  /** The eight-cell Moore neighbourhood: every offset in [-1, 1] x [-1, 1]
      except the cell itself. This is the reference the offset table is
      checked against. */
  function Neighbourhood(): set<(int, int)> {
    set dx: int, dy: int | -1 <= dx <= 1 && -1 <= dy <= 1 && (dx != 0 || dy != 0) :: (dx, dy)
  }

  /** One live read as a term of the count (a nat, unlike the channel value
      Flag). */
  function Bit(b: bool): nat {
    if b then 1 else 0
  }

  /** Whether the read at offset o from (x, y) sees a live texel. */
  predicate LiveAt(g: Grid, w: nat, h: nat, edge: EdgePolicy, x: int, y: int, o: (int, int))
    requires IsGrid(g, w, h)
  {
    Alive(At(g, w, h, edge, x + o.0, y + o.1))
  }

  /** The number of live texels among the first k reads of calculate_step's
      loop over neighborOffsets. */
  function LiveAmong(g: Grid, w: nat, h: nat, edge: EdgePolicy, x: int, y: int, k: nat): (n: nat)
    requires IsGrid(g, w, h) && k <= |Offsets|
    ensures n <= k
  {
    if k == 0 then 0
    else LiveAmong(g, w, h, edge, x, y, k - 1) + Bit(LiveAt(g, w, h, edge, x, y, Offsets[k - 1]))
  }

  /** neighborCount of calculate_step at (x, y). */
  function NeighborCount(g: Grid, w: nat, h: nat, edge: EdgePolicy, x: int, y: int): (n: nat)
    requires IsGrid(g, w, h)
    ensures n <= 8
  {
    LiveAmong(g, w, h, edge, x, y, |Offsets|)
  }

  /** The live part of the neighbourhood of (x, y). */
  function LiveNeighbours(g: Grid, w: nat, h: nat, edge: EdgePolicy, x: int, y: int): set<(int, int)>
    requires IsGrid(g, w, h)
  {
    set o | o in Neighbourhood() && LiveAt(g, w, h, edge, x, y, o)
  }

  /** No entry of the offset table is repeated. */
  lemma OffsetsDistinct()
    ensures forall i, j :: 0 <= i < j < |Offsets| ==> Offsets[i] != Offsets[j]
  {
  }

  /** The offset table lists each cell of the Moore neighbourhood exactly once. */
  lemma OffsetsAreNeighbourhood()
    ensures forall i, j :: 0 <= i < j < |Offsets| ==> Offsets[i] != Offsets[j]
    ensures forall o :: o in Offsets <==> o in Neighbourhood()
  {
    OffsetsDistinct();
    forall o | o in Neighbourhood() ensures o in Offsets {
      var (dx, dy) := o;
      assert -1 <= dx <= 1 && -1 <= dy <= 1 && (dx != 0 || dy != 0);
    }
    forall k | 0 <= k < |Offsets| ensures Offsets[k] in Neighbourhood() {
      var (dx, dy) := Offsets[k];
      assert Offsets[k] == (dx, dy);
    }
  }

  /** The live offsets among the first k entries of the table. */
  function LiveOffsets(g: Grid, w: nat, h: nat, edge: EdgePolicy, x: int, y: int, k: nat): set<(int, int)>
    requires IsGrid(g, w, h) && k <= |Offsets|
  {
    set o | o in Offsets[..k] && LiveAt(g, w, h, edge, x, y, o)
  }

  /** Counting over distinct offsets counts the set of live ones. */
  lemma {:induction false} LiveAmongCountsSet(g: Grid, w: nat, h: nat, edge: EdgePolicy, x: int, y: int, k: nat)
    requires IsGrid(g, w, h) && k <= |Offsets|
    ensures LiveAmong(g, w, h, edge, x, y, k) == |LiveOffsets(g, w, h, edge, x, y, k)|
  {
    if k == 0 {
      assert LiveOffsets(g, w, h, edge, x, y, k) == {};
    } else {
      LiveAmongCountsSet(g, w, h, edge, x, y, k - 1);
      LiveOffsetsGrow(g, w, h, edge, x, y, k);
    }
  }

  /** The live offsets among the first k entries are those among the first
      k - 1, plus entry k - 1 if it is live; it is not among the earlier ones. */
  lemma LiveOffsetsGrow(g: Grid, w: nat, h: nat, edge: EdgePolicy, x: int, y: int, k: nat)
    requires IsGrid(g, w, h) && 0 < k <= |Offsets|
    ensures var o := Offsets[k - 1];
      var before := LiveOffsets(g, w, h, edge, x, y, k - 1);
      o !in before &&
      LiveOffsets(g, w, h, edge, x, y, k) == if LiveAt(g, w, h, edge, x, y, o) then before + {o} else before
  {
    var o := Offsets[k - 1];
    OffsetsDistinct();
    assert Offsets[..k] == Offsets[..k - 1] + [o];
    assert o !in Offsets[..k - 1];
  }

  /** neighborCount is exactly the number of live cells in the Moore
      neighbourhood, as read under the edge policy; hence it lies in 0..8. */
  lemma NeighborCountIsLiveNeighbours(g: Grid, w: nat, h: nat, edge: EdgePolicy, x: int, y: int)
    requires IsGrid(g, w, h)
    ensures NeighborCount(g, w, h, edge, x, y) == |LiveNeighbours(g, w, h, edge, x, y)|
    ensures |LiveNeighbours(g, w, h, edge, x, y)| <= 8
  {
    OffsetsAreNeighbourhood();
    LiveAmongCountsSet(g, w, h, edge, x, y, |Offsets|);
    assert Offsets[..|Offsets|] == Offsets;
    assert LiveOffsets(g, w, h, edge, x, y, |Offsets|) == LiveNeighbours(g, w, h, edge, x, y);
  }

  /** The eight reads of calculate_step spelled out, in the source's order. */
  lemma NeighborCountUnfolded(g: Grid, w: nat, h: nat, edge: EdgePolicy, x: int, y: int)
    requires IsGrid(g, w, h)
    ensures NeighborCount(g, w, h, edge, x, y) ==
      Bit(LiveAt(g, w, h, edge, x, y, (-1, -1))) + Bit(LiveAt(g, w, h, edge, x, y, (0, -1))) +
      Bit(LiveAt(g, w, h, edge, x, y, (1, -1))) + Bit(LiveAt(g, w, h, edge, x, y, (-1, 0))) +
      Bit(LiveAt(g, w, h, edge, x, y, (1, 0))) + Bit(LiveAt(g, w, h, edge, x, y, (-1, 1))) +
      Bit(LiveAt(g, w, h, edge, x, y, (0, 1))) + Bit(LiveAt(g, w, h, edge, x, y, (1, 1)))
  {
    assert LiveAmong(g, w, h, edge, x, y, 1) == LiveAmong(g, w, h, edge, x, y, 0) + Bit(LiveAt(g, w, h, edge, x, y, Offsets[0]));
    assert LiveAmong(g, w, h, edge, x, y, 2) == LiveAmong(g, w, h, edge, x, y, 1) + Bit(LiveAt(g, w, h, edge, x, y, Offsets[1]));
    assert LiveAmong(g, w, h, edge, x, y, 3) == LiveAmong(g, w, h, edge, x, y, 2) + Bit(LiveAt(g, w, h, edge, x, y, Offsets[2]));
    assert LiveAmong(g, w, h, edge, x, y, 4) == LiveAmong(g, w, h, edge, x, y, 3) + Bit(LiveAt(g, w, h, edge, x, y, Offsets[3]));
    assert LiveAmong(g, w, h, edge, x, y, 5) == LiveAmong(g, w, h, edge, x, y, 4) + Bit(LiveAt(g, w, h, edge, x, y, Offsets[4]));
    assert LiveAmong(g, w, h, edge, x, y, 6) == LiveAmong(g, w, h, edge, x, y, 5) + Bit(LiveAt(g, w, h, edge, x, y, Offsets[5]));
    assert LiveAmong(g, w, h, edge, x, y, 7) == LiveAmong(g, w, h, edge, x, y, 6) + Bit(LiveAt(g, w, h, edge, x, y, Offsets[6]));
    assert LiveAmong(g, w, h, edge, x, y, 8) == LiveAmong(g, w, h, edge, x, y, 7) + Bit(LiveAt(g, w, h, edge, x, y, Offsets[7]));
  }

  /** Two snapshots whose red channels agree. */
  predicate SameRed(a: Grid, b: Grid, w: nat, h: nat) {
    IsGrid(a, w, h) && IsGrid(b, w, h) &&
    forall y, x :: 0 <= y < h && 0 <= x < w ==> a[y][x].red == b[y][x].red
  }

  /** The count reads nothing but red channels: snapshots that agree on red give
      the same count everywhere. */
  lemma {:induction false} LiveAmongReadsOnlyRed(a: Grid, b: Grid, w: nat, h: nat, edge: EdgePolicy, x: int, y: int, k: nat)
    requires SameRed(a, b, w, h) && k <= |Offsets|
    ensures LiveAmong(a, w, h, edge, x, y, k) == LiveAmong(b, w, h, edge, x, y, k)
  {
    if k > 0 {
      LiveAmongReadsOnlyRed(a, b, w, h, edge, x, y, k - 1);
      assert LiveAt(a, w, h, edge, x, y, Offsets[k - 1]) == LiveAt(b, w, h, edge, x, y, Offsets[k - 1]);
    }
  }

  lemma NeighborCountReadsOnlyRed(a: Grid, b: Grid, w: nat, h: nat, edge: EdgePolicy, x: int, y: int)
    requires SameRed(a, b, w, h)
    ensures NeighborCount(a, w, h, edge, x, y) == NeighborCount(b, w, h, edge, x, y)
  {
    LiveAmongReadsOnlyRed(a, b, w, h, edge, x, y, |Offsets|);
  }

  /** Away from the border the edge policy is irrelevant: every read of an
      interior cell stays inside the grid. */
  lemma InteriorCountIgnoresEdgePolicy(g: Grid, w: nat, h: nat, x: int, y: int)
    requires IsGrid(g, w, h)
    requires 1 <= x < w - 1 && 1 <= y < h - 1
    ensures NeighborCount(g, w, h, DeadBorder, x, y) == NeighborCount(g, w, h, Torus, x, y)
  {
    NeighborCountUnfolded(g, w, h, DeadBorder, x, y);
    NeighborCountUnfolded(g, w, h, Torus, x, y);
  }

  /** With a dead border a corner cell has only three neighbours inside the
      grid, so its count is at most 3. */
  lemma CornerCountDeadBorder(g: Grid, w: nat, h: nat)
    requires IsGrid(g, w, h) && w > 0 && h > 0
    ensures NeighborCount(g, w, h, DeadBorder, 0, 0) <= 3
  {
    NeighborCountUnfolded(g, w, h, DeadBorder, 0, 0);
  }

  /** On a torus a corner cell's reads past the left and top edges wrap to the
      right column and the bottom row, so its count is taken over these eight
      cells, in the order of the offset table. */
  lemma CornerCountTorus(g: Grid, w: nat, h: nat)
    requires IsGrid(g, w, h) && w >= 2 && h >= 2
    ensures NeighborCount(g, w, h, Torus, 0, 0) ==
      Bit(Alive(g[h - 1][w - 1])) + Bit(Alive(g[h - 1][0])) + Bit(Alive(g[h - 1][1])) +
      Bit(Alive(g[0][w - 1])) + Bit(Alive(g[0][1])) +
      Bit(Alive(g[1][w - 1])) + Bit(Alive(g[1][0])) + Bit(Alive(g[1][1]))
  {
    NeighborCountUnfolded(g, w, h, Torus, 0, 0);
    TorusWrapsByOne(w, h, -1, -1);
    TorusWrapsByOne(w, h, 0, -1);
    TorusWrapsByOne(w, h, 1, -1);
    TorusWrapsByOne(w, h, -1, 0);
    TorusWrapsByOne(w, h, -1, 1);
  }
}
