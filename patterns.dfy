/** Consequences of the rule for whole frames: an empty grid stays empty, a
    2 x 2 block is still, a three-cell blinker has period two. The patterns
    sit away from the outermost ring of cells, so the results hold under
    either edge policy. */
module Patterns {
  import opened Cells
  import opened Grids
  import opened Passes

  /** The live cells of g are exactly those where p holds. */
  predicate LiveExactly(g: Grid, w: nat, h: nat, p: (int, int) -> bool)
    requires IsGrid(g, w, h)
  {
    forall y, x :: 0 <= y < h && 0 <= x < w ==> (Alive(g[y][x]) <==> p(x, y))
  }

  /** p only holds strictly inside the grid, off its outermost ring. */
  ghost predicate Inset(p: (int, int) -> bool, w: nat, h: nat) {
    forall x, y :: p(x, y) ==> 1 <= x && x + 2 <= w && 1 <= y && y + 2 <= h
  }

  /** The number of neighbours of (x, y) at which p holds. */
  function PatternCount(p: (int, int) -> bool, x: int, y: int): nat {
    Bit(p(x - 1, y - 1)) + Bit(p(x, y - 1)) + Bit(p(x + 1, y - 1)) + Bit(p(x - 1, y)) +
    Bit(p(x + 1, y)) + Bit(p(x - 1, y + 1)) + Bit(p(x, y + 1)) + Bit(p(x + 1, y + 1))
  }

  /** A read one step from a cell sees the pattern, whatever the edge policy:
      off the grid there is nothing of it, and a wrapped read lands on the
      outermost ring, where there is nothing of it either. */
  lemma ReadSeesPattern(g: Grid, w: nat, h: nat, edge: EdgePolicy, p: (int, int) -> bool, x: nat, y: nat,
                        o: (int, int), i: int, j: int)
    requires IsGrid(g, w, h) && LiveExactly(g, w, h, p) && Inset(p, w, h)
    requires x < w && y < h && -1 <= o.0 <= 1 && -1 <= o.1 <= 1
    requires i == x + o.0 && j == y + o.1
    ensures LiveAt(g, w, h, edge, x, y, o) <==> p(i, j)
  {
    if !(0 <= i < w && 0 <= j < h) {
      assert !p(i, j);
      if edge == Torus {
        TorusWrapsByOne(w, h, i, j);
        assert !p(Wrapped(i, w), Wrapped(j, h));
      }
    }
  }

  /** So neighborCount at a cell is the pattern's count there. */
  lemma CountSeesPattern(g: Grid, w: nat, h: nat, edge: EdgePolicy, p: (int, int) -> bool, x: nat, y: nat)
    requires IsGrid(g, w, h) && LiveExactly(g, w, h, p) && Inset(p, w, h)
    requires x < w && y < h
    ensures NeighborCount(g, w, h, edge, x, y) == PatternCount(p, x, y)
  {
    NeighborCountUnfolded(g, w, h, edge, x, y);
    FirstReadsSeePattern(g, w, h, edge, p, x, y);
    LastReadsSeePattern(g, w, h, edge, p, x, y);
  }

  /** The first four reads: the row above and the left neighbour. */
  lemma FirstReadsSeePattern(g: Grid, w: nat, h: nat, edge: EdgePolicy, p: (int, int) -> bool, x: nat, y: nat)
    requires IsGrid(g, w, h) && LiveExactly(g, w, h, p) && Inset(p, w, h)
    requires x < w && y < h
    ensures Bit(LiveAt(g, w, h, edge, x, y, (-1, -1))) +
      Bit(LiveAt(g, w, h, edge, x, y, (0, -1))) +
      Bit(LiveAt(g, w, h, edge, x, y, (1, -1))) +
      Bit(LiveAt(g, w, h, edge, x, y, (-1, 0))) ==
      Bit(p(x - 1, y - 1)) + Bit(p(x, y - 1)) + Bit(p(x + 1, y - 1)) + Bit(p(x - 1, y))
  {
    ReadSeesPattern(g, w, h, edge, p, x, y, (-1, -1), x - 1, y - 1);
    ReadSeesPattern(g, w, h, edge, p, x, y, (0, -1), x, y - 1);
    ReadSeesPattern(g, w, h, edge, p, x, y, (1, -1), x + 1, y - 1);
    ReadSeesPattern(g, w, h, edge, p, x, y, (-1, 0), x - 1, y);
  }

  /** The last four reads: the right neighbour and the row below. */
  lemma LastReadsSeePattern(g: Grid, w: nat, h: nat, edge: EdgePolicy, p: (int, int) -> bool, x: nat, y: nat)
    requires IsGrid(g, w, h) && LiveExactly(g, w, h, p) && Inset(p, w, h)
    requires x < w && y < h
    ensures Bit(LiveAt(g, w, h, edge, x, y, (1, 0))) +
      Bit(LiveAt(g, w, h, edge, x, y, (-1, 1))) +
      Bit(LiveAt(g, w, h, edge, x, y, (0, 1))) +
      Bit(LiveAt(g, w, h, edge, x, y, (1, 1))) ==
      Bit(p(x + 1, y)) + Bit(p(x - 1, y + 1)) + Bit(p(x, y + 1)) + Bit(p(x + 1, y + 1))
  {
    ReadSeesPattern(g, w, h, edge, p, x, y, (1, 0), x + 1, y);
    ReadSeesPattern(g, w, h, edge, p, x, y, (-1, 1), x - 1, y + 1);
    ReadSeesPattern(g, w, h, edge, p, x, y, (0, 1), x, y + 1);
    ReadSeesPattern(g, w, h, edge, p, x, y, (1, 1), x + 1, y + 1);
  }

  /** One frame turns the inset pattern p into q when the rule, counted on p,
      gives q at every cell. */
  lemma FramePattern(g: Grid, w: nat, h: nat, edge: EdgePolicy, p: (int, int) -> bool, q: (int, int) -> bool)
    requires IsGrid(g, w, h) && LiveExactly(g, w, h, p) && Inset(p, w, h)
    requires forall y: nat, x: nat :: y < h && x < w ==> (NextAlive(p(x, y), PatternCount(p, x, y)) <==> q(x, y))
    ensures AllSettled(FrameStep(g, w, h, edge), w, h)
    ensures LiveExactly(FrameStep(g, w, h, edge), w, h, q)
  {
    FrameFollowsRule(g, w, h, edge);
    forall y, x | 0 <= y < h && 0 <= x < w
      ensures Alive(FrameStep(g, w, h, edge)[y][x]) <==> q(x, y)
    {
      CountSeesPattern(g, w, h, edge, p, x, y);
    }
  }

  /** Two settled grids with the same live cells are equal. */
  lemma SettledByLiveCells(a: Grid, b: Grid, w: nat, h: nat)
    requires IsGrid(a, w, h) && IsGrid(b, w, h) && AllSettled(a, w, h) && AllSettled(b, w, h)
    requires forall y, x :: 0 <= y < h && 0 <= x < w ==> (Alive(a[y][x]) <==> Alive(b[y][x]))
    ensures a == b
  {
    forall y, x | 0 <= y < h && 0 <= x < w ensures a[y][x] == b[y][x] {
      SettledIsEncoded(a[y][x]);
      SettledIsEncoded(b[y][x]);
    }
    GridsEqual(a, b, w, h);
  }

  /** With no live cell every count is zero, whatever the edge policy. */
  lemma DeadGridCountsZero(g: Grid, w: nat, h: nat, edge: EdgePolicy, x: int, y: int)
    requires IsGrid(g, w, h) && forall j, i :: 0 <= j < h && 0 <= i < w ==> !Alive(g[j][i])
    ensures NeighborCount(g, w, h, edge, x, y) == 0
  {
    NeighborCountUnfolded(g, w, h, edge, x, y);
  }

  /** A frame of a grid with no live cell has no live cell. */
  lemma DeadFrameStaysDead(g: Grid, w: nat, h: nat, edge: EdgePolicy)
    requires IsGrid(g, w, h) && forall j, i :: 0 <= j < h && 0 <= i < w ==> !Alive(g[j][i])
    ensures forall j, i :: 0 <= j < h && 0 <= i < w ==> !Alive(FrameStep(g, w, h, edge)[j][i])
  {
    FrameFollowsRule(g, w, h, edge);
    forall j, i | 0 <= j < h && 0 <= i < w ensures !Alive(FrameStep(g, w, h, edge)[j][i]) {
      DeadGridCountsZero(g, w, h, edge, i, j);
    }
  }

  /** A grid with no live cell has none after any number of frames. */
  lemma {:induction false} DeadGridStaysDead(g: Grid, w: nat, h: nat, edge: EdgePolicy, n: nat)
    requires IsGrid(g, w, h) && forall j, i :: 0 <= j < h && 0 <= i < w ==> !Alive(g[j][i])
    ensures forall j, i :: 0 <= j < h && 0 <= i < w ==> !Alive(Frames(g, w, h, edge, n)[j][i])
  {
    if n > 0 {
      DeadGridStaysDead(g, w, h, edge, n - 1);
      DeadFrameStaysDead(Frames(g, w, h, edge, n - 1), w, h, edge);
    }
  }

  /** The 2 x 2 block with top-left cell (a, b). */
  predicate InBlock(a: int, b: int, x: int, y: int) {
    a <= x <= a + 1 && b <= y <= b + 1
  }

  /** A settled 2 x 2 block off the outermost ring is unchanged by a frame. */
  lemma BlockIsStill(g: Grid, w: nat, h: nat, edge: EdgePolicy, a: int, b: int)
    requires IsGrid(g, w, h) && AllSettled(g, w, h)
    requires 1 <= a && a + 3 <= w && 1 <= b && b + 3 <= h
    requires forall y, x :: 0 <= y < h && 0 <= x < w ==> (Alive(g[y][x]) <==> InBlock(a, b, x, y))
    ensures FrameStep(g, w, h, edge) == g
  {
    var p := (x, y) => InBlock(a, b, x, y);
    assert LiveExactly(g, w, h, p);
    forall y: nat, x: nat | y < h && x < w ensures NextAlive(p(x, y), PatternCount(p, x, y)) <==> p(x, y) {
      BlockRule(a, b, x, y);
    }
    FramePattern(g, w, h, edge, p, p);
    SettledByLiveCells(FrameStep(g, w, h, edge), g, w, h);
  }

  lemma BlockRule(a: int, b: int, x: int, y: int)
    ensures var p := (x, y) => InBlock(a, b, x, y);
      NextAlive(p(x, y), PatternCount(p, x, y)) <==> p(x, y)
  {
  }

  /** Three cells in a row centred on (a, b), and three in a column. */
  predicate InRow(a: int, b: int, x: int, y: int) {
    y == b && a - 1 <= x <= a + 1
  }

  predicate InColumn(a: int, b: int, x: int, y: int) {
    x == a && b - 1 <= y <= b + 1
  }

  /** The rule turns a row of three into a column of three and back. */
  lemma BlinkerRule(a: int, b: int, x: int, y: int)
    ensures var row := (x, y) => InRow(a, b, x, y);
      var column := (x, y) => InColumn(a, b, x, y);
      (NextAlive(row(x, y), PatternCount(row, x, y)) <==> column(x, y)) &&
      (NextAlive(column(x, y), PatternCount(column, x, y)) <==> row(x, y))
  {
  }

  /** One frame turns a row of three into a column of three. */
  lemma RowTurnsIntoColumn(g: Grid, w: nat, h: nat, edge: EdgePolicy, a: int, b: int)
    requires IsGrid(g, w, h)
    requires 2 <= a && a + 3 <= w && 2 <= b && b + 3 <= h
    requires forall y, x :: 0 <= y < h && 0 <= x < w ==> (Alive(g[y][x]) <==> InRow(a, b, x, y))
    ensures AllSettled(FrameStep(g, w, h, edge), w, h)
    ensures forall y, x :: 0 <= y < h && 0 <= x < w ==> (Alive(FrameStep(g, w, h, edge)[y][x]) <==> InColumn(a, b, x, y))
  {
    var row := (x, y) => InRow(a, b, x, y);
    var column := (x, y) => InColumn(a, b, x, y);
    assert LiveExactly(g, w, h, row);
    forall y: nat, x: nat | y < h && x < w ensures NextAlive(row(x, y), PatternCount(row, x, y)) <==> column(x, y) {
      BlinkerRule(a, b, x, y);
    }
    FramePattern(g, w, h, edge, row, column);
  }

  /** One frame turns a column of three into a row of three. */
  lemma ColumnTurnsIntoRow(g: Grid, w: nat, h: nat, edge: EdgePolicy, a: int, b: int)
    requires IsGrid(g, w, h)
    requires 2 <= a && a + 3 <= w && 2 <= b && b + 3 <= h
    requires forall y, x :: 0 <= y < h && 0 <= x < w ==> (Alive(g[y][x]) <==> InColumn(a, b, x, y))
    ensures AllSettled(FrameStep(g, w, h, edge), w, h)
    ensures forall y, x :: 0 <= y < h && 0 <= x < w ==> (Alive(FrameStep(g, w, h, edge)[y][x]) <==> InRow(a, b, x, y))
  {
    var row := (x, y) => InRow(a, b, x, y);
    var column := (x, y) => InColumn(a, b, x, y);
    assert LiveExactly(g, w, h, column);
    forall y: nat, x: nat | y < h && x < w ensures NextAlive(column(x, y), PatternCount(column, x, y)) <==> row(x, y) {
      BlinkerRule(a, b, x, y);
    }
    FramePattern(g, w, h, edge, column, row);
  }

  /** A settled horizontal blinker off the outermost ring is a different grid
      after one frame and is back after two: it has period exactly two. */
  lemma BlinkerHasPeriodTwo(g: Grid, w: nat, h: nat, edge: EdgePolicy, a: int, b: int)
    requires IsGrid(g, w, h) && AllSettled(g, w, h)
    requires 2 <= a && a + 3 <= w && 2 <= b && b + 3 <= h
    requires forall y, x :: 0 <= y < h && 0 <= x < w ==> (Alive(g[y][x]) <==> InRow(a, b, x, y))
    ensures FrameStep(g, w, h, edge) != g
    ensures Frames(g, w, h, edge, 2) == g
  {
    var once := FrameStep(g, w, h, edge);
    RowTurnsIntoColumn(g, w, h, edge, a, b);
    assert Alive(once[b - 1][a]) && !Alive(g[b - 1][a]);
    ColumnTurnsIntoRow(once, w, h, edge, a, b);
    var twice := FrameStep(once, w, h, edge);
    assert Frames(g, w, h, edge, 1) == once;
    assert Frames(g, w, h, edge, 2) == twice;
    SettledByLiveCells(twice, g, w, h);
  }
}
