/**
 * The Minesweeper engine. A grid is a rectangle of cells, each of which may
 * hide a mine, may be revealed or flagged, and records how many of its eight
 * neighbours are mines. Every operation of the engine copies the grid it is
 * given and changes the copy, so grids are values here; the loops that build,
 * fill and scan them are methods over those values.
 */
module Minesweeper {
  import opened Chance
  import opened Counting
  import opened Optional

  // ---------------------------------------------------------------------
  // Difficulty table
  // ---------------------------------------------------------------------

  datatype Difficulty = Easy | Medium | Hard

  datatype Config = Config(rows: nat, cols: nat, mines: nat)

  /**
   * `DIFFICULTY_CONFIG`: 8 by 8 with 10 mines, 12 by 12 with 25, 16 by 16
   * with 50. Every board is square and has room for all its mines outside the
   * 3 by 3 block around the first click.
   */
  function DifficultyConfig(d: Difficulty): (cfg: Config)
    ensures cfg.rows == cfg.cols && cfg.rows > 0
    ensures 0 < cfg.mines && cfg.mines + 9 <= cfg.rows * cfg.cols
  {
    match d
    case Easy => Config(8, 8, 10)
    case Medium => Config(12, 12, 25)
    case Hard => Config(16, 16, 50)
  }

  /** `getGridDimensions`: the rows and columns of the table entry. */
  function GetGridDimensions(d: Difficulty): (dims: (nat, nat))
    ensures dims == (DifficultyConfig(d).rows, DifficultyConfig(d).cols)
    ensures dims.0 == dims.1
  {
    var cfg := DifficultyConfig(d);
    (cfg.rows, cfg.cols)
  }

  /** `getMineCount`: the mines of the table entry, which fit beside the first-click block. */
  function GetMineCount(d: Difficulty): (n: nat)
    ensures n == DifficultyConfig(d).mines
    ensures 0 < n && n + 9 <= GetGridDimensions(d).0 * GetGridDimensions(d).1
  {
    DifficultyConfig(d).mines
  }

  // ---------------------------------------------------------------------
  // Cells and grids
  // ---------------------------------------------------------------------

  datatype Cell = Cell(isMine: bool, isRevealed: bool, isFlagged: bool, neighborMines: int)

  type Grid = seq<seq<Cell>>

  /** The cell every position of a new grid starts with. */
  const Blank := Cell(false, false, false, 0)

  /** The width the engine assumes: the length of the first row. */
  function Width(g: Grid): nat {
    if |g| == 0 then 0 else |g[0]|
  }

  /** Every row is as long as the first one. */
  predicate Rect(g: Grid) {
    IsRect(g, Width(g))
  }

  predicate InBounds(g: Grid, r: int, c: int) {
    0 <= r < |g| && 0 <= c < |g[r]|
  }

  predicate IsMine(c: Cell) { c.isMine }
  predicate IsFlagged(c: Cell) { c.isFlagged }
  predicate IsHidden(c: Cell) { !c.isRevealed }
  predicate IsRevealedSafe(c: Cell) { c.isRevealed && !c.isMine }
  predicate IsHiddenSafe(c: Cell) { !c.isRevealed && !c.isMine }

  function Abs(x: int): nat {
    if x < 0 then -x else x
  }

  /** (r', c') is one of the eight cells around (r, c). */
  predicate Adjacent(r: int, c: int, r': int, c': int) {
    Abs(r' - r) <= 1 && Abs(c' - c) <= 1 && (r', c') != (r, c)
  }

  /** `initializeGrid`: a rows by cols grid of blank cells, row by row. */
  method InitializeGrid(d: Difficulty) returns (grid: Grid)
    ensures (|grid|, Width(grid)) == GetGridDimensions(d)
    ensures Rect(grid)
    ensures forall r, c :: InBounds(grid, r, c) ==> grid[r][c] == Blank
  {
    var cfg := DifficultyConfig(d);
    grid := [];
    for row := 0 to cfg.rows
      invariant |grid| == row
      invariant forall r :: 0 <= r < row ==> grid[r] == seq(cfg.cols, _ => Blank)
    {
      var line: seq<Cell> := [];
      for col := 0 to cfg.cols
        invariant line == seq(col, _ => Blank)
      {
        line := line + [Blank];
      }
      grid := grid + [line];
    }
  }

  /** A blank grid holds no mine and has no cell revealed or flagged. */
  lemma BlankGrid(grid: Grid)
    requires forall r, c :: InBounds(grid, r, c) ==> grid[r][c] == Blank
    ensures Count(grid, IsMine) == 0
    ensures Count(grid, IsFlagged) == 0
    ensures Count(grid, IsRevealedSafe) == 0
  {
    CountNone(grid, IsMine);
    CountNone(grid, IsFlagged);
    CountNone(grid, IsRevealedSafe);
  }

  // ---------------------------------------------------------------------
  // Neighbour counts
  // ---------------------------------------------------------------------

  /** The eight offsets `countNeighborMines` and `revealCell` walk through, in their order. */
  const Directions: seq<(int, int)> :=
    [(-1, -1), (-1, 0), (-1, 1), (0, -1), (0, 1), (1, -1), (1, 0), (1, 1)]

  /** The k-th neighbour of (r, c). */
  function NeighbourAt(r: int, c: int, k: int): (int, int)
    requires 0 <= k < 8
  {
    (r + Directions[k].0, c + Directions[k].1)
  }

  /** The offsets are exactly the eight adjacent cells. */
  lemma DirectionsAdjacent(r: int, c: int, k: int)
    requires 0 <= k < 8
    ensures Adjacent(r, c, NeighbourAt(r, c, k).0, NeighbourAt(r, c, k).1)
  {
  }

  /** Every adjacent cell is reached by one of the offsets. */
  lemma AdjacentDirection(r: int, c: int, r': int, c': int) returns (k: int)
    requires Adjacent(r, c, r', c')
    ensures 0 <= k < 8 && NeighbourAt(r, c, k) == (r', c')
  {
    var dr, dc := r' - r, c' - c;
    k := if dr == -1 then dc + 1 else if dr == 0 then (if dc == -1 then 3 else 4) else dc + 6;
  }

  /** (r, c) lies on the grid and holds a mine. */
  predicate MineAt(g: Grid, r: int, c: int) {
    InBounds(g, r, c) && g[r][c].isMine
  }

  /** The mines among the first k neighbours of (r, c). */
  function MinesAround(g: Grid, r: int, c: int, k: nat): (n: nat)
    requires k <= 8
    ensures n <= k
  {
    if k == 0 then 0
    else
      var p := NeighbourAt(r, c, k - 1);
      MinesAround(g, r, c, k - 1) + Ind(MineAt(g, p.0, p.1))
  }

  /** The number of mines around (r, c): what a safe cell displays. */
  function NeighborMines(g: Grid, r: int, c: int): nat {
    MinesAround(g, r, c, 8)
  }

  /** `countNeighborMines`: walks the eight offsets and counts the in-bounds mines. */
  method CountNeighborMines(grid: Grid, row: int, col: int) returns (count: nat)
    requires Rect(grid)
    ensures count == NeighborMines(grid, row, col)
    ensures count <= 8
  {
    count := 0;
    for k := 0 to |Directions|
      invariant count == MinesAround(grid, row, col, k)
    {
      var (dr, dc) := Directions[k];
      var newRow, newCol := row + dr, col + dc;
      if newRow >= 0 && newRow < |grid| && newCol >= 0 && newCol < |grid[0]| && grid[newRow][newCol].isMine {
        count := count + 1;
      }
    }
  }

  lemma {:induction false} MinesAroundZero(g: Grid, r: int, c: int, k: nat)
    requires k <= 8
    ensures MinesAround(g, r, c, k) == 0 <==>
      forall j :: 0 <= j < k ==> !MineAt(g, NeighbourAt(r, c, j).0, NeighbourAt(r, c, j).1)
  {
    if k > 0 {
      MinesAroundZero(g, r, c, k - 1);
    }
  }

  /** A cell shows 0 exactly when none of the cells around it is a mine. */
  lemma NoNeighborMines(g: Grid, r: int, c: int)
    ensures NeighborMines(g, r, c) == 0 <==>
      forall r', c' :: Adjacent(r, c, r', c') && InBounds(g, r', c') ==> !g[r'][c'].isMine
  {
    MinesAroundZero(g, r, c, 8);
    if NeighborMines(g, r, c) == 0 {
      forall r', c' | Adjacent(r, c, r', c') && InBounds(g, r', c')
        ensures !g[r'][c'].isMine
      {
        var k := AdjacentDirection(r, c, r', c');
      }
    }
    if forall r', c' :: Adjacent(r, c, r', c') && InBounds(g, r', c') ==> !g[r'][c'].isMine {
      forall j | 0 <= j < 8
        ensures !MineAt(g, NeighbourAt(r, c, j).0, NeighbourAt(r, c, j).1)
      {
        DirectionsAdjacent(r, c, j);
      }
    }
  }

  /** Two grids of the same shape with mines in the same places. */
  ghost predicate SameMines(g: Grid, h: Grid) {
    && |g| == |h|
    && (forall r :: 0 <= r < |g| ==> |g[r]| == |h[r]|)
    && (forall r, c :: InBounds(g, r, c) ==> g[r][c].isMine == h[r][c].isMine)
  }

  /** Neighbour counts depend on the mine layout only. */
  lemma {:induction false} MinesAroundSameMines(g: Grid, h: Grid, r: int, c: int, k: nat)
    requires SameMines(g, h) && k <= 8
    ensures MinesAround(g, r, c, k) == MinesAround(h, r, c, k)
  {
    if k > 0 {
      MinesAroundSameMines(g, h, r, c, k - 1);
      var p := NeighbourAt(r, c, k - 1);
      assert MineAt(g, p.0, p.1) == MineAt(h, p.0, p.1);
    }
  }

  /** Every safe cell shows the number of mines around it. */
  ghost predicate Consistent(g: Grid) {
    forall r, c :: InBounds(g, r, c) && !g[r][c].isMine ==> g[r][c].neighborMines == NeighborMines(g, r, c)
  }

  // ---------------------------------------------------------------------
  // Placing mines
  // ---------------------------------------------------------------------

  /** (r, c) is the first click or one of its neighbours. */
  predicate NearFirstClick(r: int, c: int, firstRow: int, firstCol: int) {
    Abs(r - firstRow) <= 1 && Abs(c - firstCol) <= 1
  }

  /** h is g with some mines added, outside the first-click block, and nothing else changed. */
  ghost predicate MinesAddedAway(g: Grid, h: Grid, firstRow: int, firstCol: int) {
    && |h| == |g|
    && (forall r :: 0 <= r < |g| ==> |h[r]| == |g[r]|)
    && forall r, c :: InBounds(g, r, c) ==>
         || h[r][c] == g[r][c]
         || (h[r][c] == g[r][c].(isMine := true) && !NearFirstClick(r, c, firstRow, firstCol))
  }

  /** Every pair of draws lies in [0, 1). */
  predicate AreDraws(draws: seq<(real, real)>) {
    forall i :: 0 <= i < |draws| ==> IsDraw(draws[i].0) && IsDraw(draws[i].1)
  }

  /** `Math.floor(Math.random() * rows)` and the same for columns: the cell a pair of draws selects. */
  function DrawnCell(cfg: Config, draw: (real, real)): (p: (int, int))
    requires cfg.rows > 0 && cfg.cols > 0 && IsDraw(draw.0) && IsDraw(draw.1)
    ensures 0 <= p.0 < cfg.rows && 0 <= p.1 < cfg.cols
  {
    (Pick(draw.0, cfg.rows), Pick(draw.1, cfg.cols))
  }

  /** A cell of g that may take a mine: it has none and is away from the first click. */
  predicate Eligible(g: Grid, p: (int, int), firstRow: int, firstCol: int) {
    InBounds(g, p.0, p.1) && !g[p.0][p.1].isMine && !NearFirstClick(p.0, p.1, firstRow, firstCol)
  }

  /** The cells the pairs of draws select, in order. */
  function DrawnCells(cfg: Config, draws: seq<(real, real)>): (cells: seq<(int, int)>)
    requires cfg.rows > 0 && cfg.cols > 0 && AreDraws(draws)
    ensures |cells| == |draws|
  {
    seq(|draws|, i requires 0 <= i < |draws| => DrawnCell(cfg, draws[i]))
  }

  /** The eligible cells of `grid` among the first n selected cells. */
  function Accepted(grid: Grid, firstRow: int, firstCol: int, cells: seq<(int, int)>, n: nat): set<(int, int)>
    requires n <= |cells|
  {
    if n == 0 then {}
    else
      var p := cells[n - 1];
      Accepted(grid, firstRow, firstCol, cells, n - 1) + (if Eligible(grid, p, firstRow, firstCol) then {p} else {})
  }

  /** More selected cells never accept fewer. */
  lemma {:induction false} AcceptedGrows(grid: Grid, firstRow: int, firstCol: int, cells: seq<(int, int)>, m: nat, n: nat)
    requires m <= n <= |cells|
    ensures |Accepted(grid, firstRow, firstCol, cells, m)| <= |Accepted(grid, firstRow, firstCol, cells, n)|
    decreases n - m
  {
    if m < n {
      AcceptedGrows(grid, firstRow, firstCol, cells, m + 1, n);
    }
  }

  /** A cell that is never selected is never accepted. */
  lemma {:induction false} AcceptedOnlyDrawn(grid: Grid, firstRow: int, firstCol: int, cells: seq<(int, int)>, n: nat, p: (int, int))
    requires n <= |cells|
    requires forall j :: 0 <= j < n ==> cells[j] != p
    ensures p !in Accepted(grid, firstRow, firstCol, cells, n)
  {
    if n > 0 {
      AcceptedOnlyDrawn(grid, firstRow, firstCol, cells, n - 1, p);
    }
  }

  /** When the first n selected cells are n different cells that can take a mine, all n are accepted. */
  lemma {:induction false} DistinctDrawsAccepted(grid: Grid, firstRow: int, firstCol: int, cells: seq<(int, int)>, n: nat)
    requires n <= |cells|
    requires forall i :: 0 <= i < n ==> Eligible(grid, cells[i], firstRow, firstCol)
    requires forall i, j :: 0 <= i < j < n ==> cells[i] != cells[j]
    ensures |Accepted(grid, firstRow, firstCol, cells, n)| == n
  {
    if n > 0 {
      DistinctDrawsAccepted(grid, firstRow, firstCol, cells, n - 1);
      AcceptedOnlyDrawn(grid, firstRow, firstCol, cells, n - 1, cells[n - 1]);
    }
  }

  /**
   * One more selected cell, seen from a grid g whose mines are those of
   * `grid` plus the accepted cells: the cell is accepted exactly when g can
   * take a mine there.
   */
  lemma AcceptedStep(grid: Grid, g: Grid, firstRow: int, firstCol: int, cells: seq<(int, int)>, i: nat)
    requires i < |cells| && InBounds(grid, cells[i].0, cells[i].1)
    requires |g| == |grid| && forall r :: 0 <= r < |g| ==> |g[r]| == |grid[r]|
    requires forall r, c :: InBounds(grid, r, c) ==>
      (g[r][c].isMine <==> grid[r][c].isMine || (r, c) in Accepted(grid, firstRow, firstCol, cells, i))
    ensures var p := cells[i];
      if Eligible(g, p, firstRow, firstCol) then
        && p !in Accepted(grid, firstRow, firstCol, cells, i)
        && Accepted(grid, firstRow, firstCol, cells, i + 1) == Accepted(grid, firstRow, firstCol, cells, i) + {p}
      else
        Accepted(grid, firstRow, firstCol, cells, i + 1) == Accepted(grid, firstRow, firstCol, cells, i)
  {
  }

  /**
   * The state of the first loop of `placeMines` after i pairs of draws: g is
   * `grid` with `placed` mines added away from the first click, and those
   * mines sit exactly on the cells accepted so far.
   */
  ghost predicate PlacedSoFar(grid: Grid, g: Grid, firstRow: int, firstCol: int, cells: seq<(int, int)>, i: nat, placed: nat)
    requires i <= |cells|
  {
    && MinesAddedAway(grid, g, firstRow, firstCol)
    && Count(g, IsMine) == Count(grid, IsMine) + placed
    && placed == |Accepted(grid, firstRow, firstCol, cells, i)|
    && forall r, c :: InBounds(grid, r, c) ==>
         (g[r][c].isMine <==> grid[r][c].isMine || (r, c) in Accepted(grid, firstRow, firstCol, cells, i))
  }

  /** A selected cell that can take a mine gets one, and the loop state moves on by one draw. */
  lemma PlaceStep(grid: Grid, g: Grid, firstRow: int, firstCol: int, cells: seq<(int, int)>, i: nat, placed: nat)
    requires i < |cells| && InBounds(grid, cells[i].0, cells[i].1)
    requires PlacedSoFar(grid, g, firstRow, firstCol, cells, i, placed)
    requires Eligible(g, cells[i], firstRow, firstCol)
    ensures var p := cells[i];
      PlacedSoFar(grid, g[p.0 := g[p.0][p.1 := g[p.0][p.1].(isMine := true)]], firstRow, firstCol, cells, i + 1, placed + 1)
  {
    var p := cells[i];
    var mined := g[p.0][p.1].(isMine := true);
    var h := g[p.0 := g[p.0][p.1 := mined]];
    AcceptedStep(grid, g, firstRow, firstCol, cells, i);
    CountUpdate(g, p.0, p.1, mined, IsMine);
    assert g[p.0][p.1] == grid[p.0][p.1];
    forall r, c | InBounds(grid, r, c)
      ensures || h[r][c] == grid[r][c]
              || (h[r][c] == grid[r][c].(isMine := true) && !NearFirstClick(r, c, firstRow, firstCol))
      ensures h[r][c].isMine <==> grid[r][c].isMine || (r, c) in Accepted(grid, firstRow, firstCol, cells, i + 1)
    {
      if (r, c) != p {
        assert h[r][c] == g[r][c];
      }
    }
  }

  /** A selected cell that cannot take a mine leaves the grid as it is, and the loop state moves on by one draw. */
  lemma SkipStep(grid: Grid, g: Grid, firstRow: int, firstCol: int, cells: seq<(int, int)>, i: nat, placed: nat)
    requires i < |cells| && InBounds(grid, cells[i].0, cells[i].1)
    requires PlacedSoFar(grid, g, firstRow, firstCol, cells, i, placed)
    requires !Eligible(g, cells[i], firstRow, firstCol)
    ensures PlacedSoFar(grid, g, firstRow, firstCol, cells, i + 1, placed)
  {
    AcceptedStep(grid, g, firstRow, firstCol, cells, i);
  }

  /** One pass of the first loop of `placeMines`: the i-th pair of draws places a mine if its cell can take one. */
  method PlaceDraw(grid: Grid, g: Grid, cfg: Config, firstRow: int, firstCol: int, draws: seq<(real, real)>, i: nat, placed: nat)
    returns (h: Grid, placed': nat)
    requires cfg.rows > 0 && cfg.cols > 0 && AreDraws(draws) && i < |draws|
    requires |grid| == cfg.rows && IsRect(grid, cfg.cols)
    requires PlacedSoFar(grid, g, firstRow, firstCol, DrawnCells(cfg, draws), i, placed)
    ensures PlacedSoFar(grid, h, firstRow, firstCol, DrawnCells(cfg, draws), i + 1, placed')
    ensures placed' <= placed + 1
  {
    h, placed' := g, placed;
    var row := Pick(draws[i].0, cfg.rows);
    var col := Pick(draws[i].1, cfg.cols);
    ghost var cells := DrawnCells(cfg, draws);
    assert (row, col) == cells[i];
    var isFirstClick := row == firstRow && col == firstCol;
    var isAdjacent := Abs(row - firstRow) <= 1 && Abs(col - firstCol) <= 1;
    if !h[row][col].isMine && !isFirstClick && !isAdjacent {
      PlaceStep(grid, g, firstRow, firstCol, cells, i, placed);
      var mined := h[row][col].(isMine := true);
      h := h[row := h[row][col := mined]];
      placed' := placed' + 1;
    } else {
      SkipStep(grid, g, firstRow, firstCol, cells, i, placed);
    }
  }

  /**
   * `placeMines`, first loop: each pair of draws picks a row and a column;
   * the cell gets a mine unless it has one or lies next to the first click.
   * The TypeScript engine keeps drawing until `mines` mines are placed; here the draws
   * are a finite list, and the loop places as many mines as it accepts cells,
   * up to `mines`.
   */
  method PlaceMineLoop(grid: Grid, cfg: Config, firstRow: int, firstCol: int, draws: seq<(real, real)>)
    returns (newGrid: Grid, placed: nat)
    requires cfg.rows > 0 && cfg.cols > 0
    requires |grid| == cfg.rows && IsRect(grid, cfg.cols)
    requires AreDraws(draws)
    ensures MinesAddedAway(grid, newGrid, firstRow, firstCol)
    ensures Count(newGrid, IsMine) == Count(grid, IsMine) + placed
    ensures placed <= |draws|
    ensures placed <= cfg.mines && placed <= |Accepted(grid, firstRow, firstCol, DrawnCells(cfg, draws), |draws|)|
    ensures placed == cfg.mines || placed == |Accepted(grid, firstRow, firstCol, DrawnCells(cfg, draws), |draws|)|
  {
    ghost var cells := DrawnCells(cfg, draws);
    newGrid := grid;
    placed := 0;
    var i := 0;
    PlacementStart(grid, firstRow, firstCol, cells);
    while placed < cfg.mines && i < |draws|
      invariant 0 <= i <= |draws| && placed <= i && placed <= cfg.mines
      invariant PlacedSoFar(grid, newGrid, firstRow, firstCol, cells, i, placed)
      decreases |draws| - i
    {
      newGrid, placed := PlaceDraw(grid, newGrid, cfg, firstRow, firstCol, draws, i, placed);
      i := i + 1;
    }
    PlacementDone(grid, newGrid, firstRow, firstCol, cells, i, placed, cfg.mines);
  }

  /** Before any draw, no cell is accepted and the grid is unchanged. */
  lemma PlacementStart(grid: Grid, firstRow: int, firstCol: int, cells: seq<(int, int)>)
    ensures PlacedSoFar(grid, grid, firstRow, firstCol, cells, 0, 0)
  {
  }

  /** When the placement loop stops, it has placed as many mines as the draws accept, up to `mines`. */
  lemma PlacementDone(grid: Grid, g: Grid, firstRow: int, firstCol: int, cells: seq<(int, int)>, i: nat, placed: nat, mines: nat)
    requires i <= |cells| && placed <= mines
    requires PlacedSoFar(grid, g, firstRow, firstCol, cells, i, placed)
    requires placed == mines || i == |cells|
    ensures MinesAddedAway(grid, g, firstRow, firstCol)
    ensures Count(g, IsMine) == Count(grid, IsMine) + placed
    ensures placed <= |Accepted(grid, firstRow, firstCol, cells, |cells|)|
    ensures placed == mines || placed == |Accepted(grid, firstRow, firstCol, cells, |cells|)|
  {
    AcceptedGrows(grid, firstRow, firstCol, cells, i, |cells|);
  }

  /**
   * `placeMines`, second loop: every safe cell gets the number of mines
   * around it; mines keep their count.
   */
  method FillCounts(grid: Grid, cfg: Config) returns (newGrid: Grid)
    requires |grid| == cfg.rows && IsRect(grid, cfg.cols)
    ensures SameMines(grid, newGrid) && Rect(newGrid)
    ensures forall r, c :: InBounds(grid, r, c) ==>
      newGrid[r][c] == (if grid[r][c].isMine then grid[r][c]
                        else grid[r][c].(neighborMines := NeighborMines(grid, r, c)))
  {
    newGrid := grid;
    for row := 0 to cfg.rows
      invariant |newGrid| == |grid| && IsRect(newGrid, cfg.cols)
      invariant forall r, c :: InBounds(grid, r, c) ==>
        newGrid[r][c] == (if r < row && !grid[r][c].isMine then grid[r][c].(neighborMines := NeighborMines(grid, r, c))
                          else grid[r][c])
    {
      for col := 0 to cfg.cols
        invariant |newGrid| == |grid| && IsRect(newGrid, cfg.cols)
        invariant forall r, c :: InBounds(grid, r, c) ==>
          newGrid[r][c] == (if (r < row || (r == row && c < col)) && !grid[r][c].isMine
                            then grid[r][c].(neighborMines := NeighborMines(grid, r, c))
                            else grid[r][c])
      {
        if !newGrid[row][col].isMine {
          assert SameMines(newGrid, grid);
          MinesAroundSameMines(newGrid, grid, row, col, 8);
          var n := CountNeighborMines(newGrid, row, col);
          newGrid := newGrid[row := newGrid[row][col := newGrid[row][col].(neighborMines := n)]];
        }
      }
    }
  }

  /**
   * `placeMines`: adds `mines` mines to a copy of the grid, never on or next
   * to the first click, then writes every safe cell's neighbour count.
   */
  method PlaceMines(grid: Grid, d: Difficulty, firstRow: int, firstCol: int, draws: seq<(real, real)>)
    returns (result: Option<Grid>)
    requires (|grid|, Width(grid)) == GetGridDimensions(d) && Rect(grid)
    requires AreDraws(draws)
    ensures result.Some? <==>
      GetMineCount(d) <= |Accepted(grid, firstRow, firstCol, DrawnCells(DifficultyConfig(d), draws), |draws|)|
    ensures result.Some? ==> GetMineCount(d) <= |draws|
    ensures result.Some? ==>
      var g := result.value;
      && |g| == |grid| && Rect(g) && Width(g) == Width(grid)
      && Count(g, IsMine) == Count(grid, IsMine) + GetMineCount(d)
      && (forall r, c :: InBounds(grid, r, c) ==>
            && g[r][c].isRevealed == grid[r][c].isRevealed
            && g[r][c].isFlagged == grid[r][c].isFlagged
            && (grid[r][c].isMine ==> g[r][c].isMine && g[r][c].neighborMines == grid[r][c].neighborMines)
            && (g[r][c].isMine && !grid[r][c].isMine ==> !NearFirstClick(r, c, firstRow, firstCol)))
      && Consistent(g)
  {
    var cfg := DifficultyConfig(d);
    var mined, placed := PlaceMineLoop(grid, cfg, firstRow, firstCol, draws);
    if placed < cfg.mines {
      return None;
    }
    var g := FillCounts(mined, cfg);
    CountedMines(grid, mined, g, firstRow, firstCol);
    return Some(g);
  }

  /** After the counts are filled in, the grid keeps the placed mines and every safe cell is right. */
  lemma CountedMines(grid: Grid, mined: Grid, g: Grid, firstRow: int, firstCol: int)
    requires MinesAddedAway(grid, mined, firstRow, firstCol)
    requires SameMines(mined, g) && Rect(g)
    requires forall r, c :: InBounds(mined, r, c) ==>
      g[r][c] == (if mined[r][c].isMine then mined[r][c]
                  else mined[r][c].(neighborMines := NeighborMines(mined, r, c)))
    ensures Count(g, IsMine) == Count(mined, IsMine)
    ensures forall r, c :: InBounds(grid, r, c) ==>
      && g[r][c].isRevealed == grid[r][c].isRevealed
      && g[r][c].isFlagged == grid[r][c].isFlagged
      && (grid[r][c].isMine ==> g[r][c].isMine && g[r][c].neighborMines == grid[r][c].neighborMines)
      && (g[r][c].isMine && !grid[r][c].isMine ==> !NearFirstClick(r, c, firstRow, firstCol))
    ensures Consistent(g)
  {
    CountSame(mined, g, IsMine, IsMine);
    forall r, c | InBounds(g, r, c) && !g[r][c].isMine
      ensures g[r][c].neighborMines == NeighborMines(g, r, c)
    {
      MinesAroundSameMines(mined, g, r, c, 8);
    }
  }

  /** A grid with no mine gets exactly `mines` of them. */
  lemma MineFreeGetsMines(grid: Grid, g: Grid, d: Difficulty)
    requires forall r, c :: InBounds(grid, r, c) ==> !grid[r][c].isMine
    requires Count(g, IsMine) == Count(grid, IsMine) + GetMineCount(d)
    ensures Count(g, IsMine) == DifficultyConfig(d).mines
  {
    CountNone(grid, IsMine);
  }

  // ---------------------------------------------------------------------
  // Revealing cells
  // ---------------------------------------------------------------------

  /**
   * h has g's shape and differs from it only by revealing cells that were
   * neither revealed nor flagged; mines, flags and counts are untouched.
   */
  ghost predicate RevealsOnly(g: Grid, h: Grid) {
    && |h| == |g|
    && (forall r :: 0 <= r < |g| ==> |h[r]| == |g[r]|)
    && forall r, c :: InBounds(g, r, c) ==>
         || h[r][c] == g[r][c]
         || (h[r][c] == g[r][c].(isRevealed := true) && !g[r][c].isFlagged)
  }

  lemma RevealsOnlyTrans(a: Grid, b: Grid, c: Grid)
    requires RevealsOnly(a, b) && RevealsOnly(b, c)
    ensures RevealsOnly(a, c)
  {
  }

  /** (r, c) is off the grid, revealed or flagged: a call of `revealCell` on it changes nothing. */
  predicate Settled(g: Grid, r: int, c: int) {
    InBounds(g, r, c) ==> g[r][c].isRevealed || g[r][c].isFlagged
  }

  /** Every cell around (r, c) is settled. */
  ghost predicate NeighboursSettled(g: Grid, r: int, c: int) {
    forall r', c' :: Adjacent(r, c, r', c') ==> Settled(g, r', c')
  }

  /** (r, c) was hidden in g0 and is a revealed safe cell showing 0 in g. */
  predicate Opened(g0: Grid, g: Grid, r: int, c: int) {
    && InBounds(g0, r, c) && InBounds(g, r, c)
    && !g0[r][c].isRevealed && g[r][c].isRevealed
    && !g[r][c].isMine && g[r][c].neighborMines == 0
  }

  /** Every cell opened between g0 and g, except possibly (r0, c0), has its neighbours settled. */
  ghost predicate ClosedExcept(g0: Grid, g: Grid, r0: int, c0: int) {
    forall r, c :: Opened(g0, g, r, c) && (r, c) != (r0, c0) ==> NeighboursSettled(g, r, c)
  }

  /** The flood fill is complete: every cell opened between g0 and g has its neighbours settled. */
  ghost predicate Closed(g0: Grid, g: Grid) {
    forall r, c :: Opened(g0, g, r, c) ==> NeighboursSettled(g, r, c)
  }

  /** Revealing more cells keeps settled cells settled. */
  lemma SettledMono(g: Grid, h: Grid, r: int, c: int)
    requires RevealsOnly(g, h) && NeighboursSettled(g, r, c)
    ensures NeighboursSettled(h, r, c)
  {
    forall r', c' | Adjacent(r, c, r', c')
      ensures Settled(h, r', c')
    {
      assert Settled(g, r', c');
    }
  }

  /** One recursive call of the flood fill keeps the closure of the cells opened so far. */
  lemma ClosedStep(g0: Grid, g: Grid, h: Grid, r0: int, c0: int)
    requires RevealsOnly(g0, g) && RevealsOnly(g, h)
    requires ClosedExcept(g0, g, r0, c0) && Closed(g, h)
    ensures ClosedExcept(g0, h, r0, c0)
  {
    forall r, c | Opened(g0, h, r, c) && (r, c) != (r0, c0)
      ensures NeighboursSettled(h, r, c)
    {
      if g[r][c].isRevealed {
        assert h[r][c] == g[r][c];
        assert Opened(g0, g, r, c);
        SettledMono(g, h, r, c);
      } else {
        assert Opened(g, h, r, c);
      }
    }
  }

  /** No cell around (r, c) holds a mine. */
  ghost predicate NoMineAround(g: Grid, r: int, c: int) {
    forall r', c' :: Adjacent(r, c, r', c') && InBounds(g, r', c') ==> !g[r'][c'].isMine
  }

  /** Every safe cell showing 0 has no mine around it. */
  ghost predicate SafeZeros(g: Grid) {
    forall r, c :: InBounds(g, r, c) && !g[r][c].isMine && g[r][c].neighborMines == 0 ==> NoMineAround(g, r, c)
  }

  /** A grid whose counts are right has no mine next to a cell showing 0. */
  lemma ConsistentSafeZeros(g: Grid)
    requires Consistent(g)
    ensures SafeZeros(g)
  {
    forall r, c | InBounds(g, r, c) && !g[r][c].isMine && g[r][c].neighborMines == 0
      ensures NoMineAround(g, r, c)
    {
      NoNeighborMines(g, r, c);
    }
  }

  /** Revealing cells changes no mine and no count. */
  lemma SafeZerosKept(g: Grid, h: Grid)
    requires RevealsOnly(g, h) && SafeZeros(g)
    ensures SafeZeros(h)
  {
    forall r, c | InBounds(h, r, c) && !h[r][c].isMine && h[r][c].neighborMines == 0
      ensures NoMineAround(h, r, c)
    {
      assert NoMineAround(g, r, c);
    }
  }

  /** The cells revealed between g and h, other than (r0, c0), are safe. */
  ghost predicate NewlySafe(g: Grid, h: Grid, r0: int, c0: int) {
    forall r, c :: InBounds(g, r, c) && InBounds(h, r, c) && !g[r][c].isRevealed && h[r][c].isRevealed && (r, c) != (r0, c0) ==>
      !h[r][c].isMine
  }

  /** Every cell revealed between g0 and g appears in `order`. */
  ghost predicate Listed(g0: Grid, g: Grid, order: seq<(int, int)>) {
    forall r, c :: InBounds(g0, r, c) && InBounds(g, r, c) && !g0[r][c].isRevealed && g[r][c].isRevealed ==> (r, c) in order
  }

  /**
   * `order` is a path of the flood: it starts at (r0, c0), and each later
   * entry lies around an earlier entry that was opened between g0 and g.
   */
  ghost predicate Reached(g0: Grid, g: Grid, r0: int, c0: int, order: seq<(int, int)>) {
    && (|order| > 0 ==> order[0] == (r0, c0))
    && forall i :: 0 < i < |order| ==>
         exists j :: 0 <= j < i && Adjacent(order[j].0, order[j].1, order[i].0, order[i].1) && Opened(g0, g, order[j].0, order[j].1)
  }

  /**
   * The cells revealed between g0 and g are exactly reachable from the click
   * at (r0, c0): each one is listed in an order in which every cell after the
   * first lies next to an earlier revealed safe cell showing 0.
   */
  ghost predicate Flood(g0: Grid, g: Grid, r0: int, c0: int, order: seq<(int, int)>) {
    Listed(g0, g, order) && Reached(g0, g, r0, c0, order)
  }

  /**
   * The state of the flood fill from (row, col) after its first k neighbours:
   * only hidden unflagged cells were revealed, the clicked cell was hidden and
   * is now a revealed safe cell showing 0, the cells opened on the way are
   * closed, `order` lists the revealed cells in an order reaching each from the
   * click, the first k neighbours are settled, and, when every 0 is surrounded
   * by safe cells, only safe cells besides the clicked one were revealed.
   */
  ghost predicate Filling(grid: Grid, g: Grid, row: int, col: int, k: int, order: seq<(int, int)>)
    requires InBounds(grid, row, col) && 0 <= k <= 8
  {
    && RevealsOnly(grid, g) && Rect(g)
    && !grid[row][col].isRevealed && g[row][col] == grid[row][col].(isRevealed := true)
    && !g[row][col].isMine && g[row][col].neighborMines == 0
    && ClosedExcept(grid, g, row, col)
    && |order| > 0 && Flood(grid, g, row, col, order)
    && (forall j :: 0 <= j < k ==> Settled(g, NeighbourAt(row, col, j).0, NeighbourAt(row, col, j).1))
    && (SafeZeros(grid) ==> NewlySafe(grid, g, row, col))
  }

  /**
   * `revealCell`: reveals (row, col) unless it is off the grid, already
   * revealed or flagged; a revealed safe cell showing 0 goes on to reveal its
   * eight neighbours the same way. The TypeScript engine copies each recursive result
   * back into its grid cell by cell; here the result replaces the grid. Each
   * call that does something reveals a hidden cell first, so the number of
   * hidden cells bounds the recursion. The ghost `order` is the order in which
   * the calls revealed cells.
   */
  method RevealCell(grid: Grid, row: int, col: int) returns (newGrid: Grid, ghost order: seq<(int, int)>)
    requires Rect(grid)
    ensures RevealsOnly(grid, newGrid) && Rect(newGrid)
    ensures Count(newGrid, IsHidden) <= Count(grid, IsHidden)
    ensures !InBounds(grid, row, col) || grid[row][col].isRevealed || grid[row][col].isFlagged ==> newGrid == grid
    ensures InBounds(grid, row, col) && !grid[row][col].isFlagged ==> newGrid[row][col].isRevealed
    ensures InBounds(grid, row, col) && !grid[row][col].isRevealed && !grid[row][col].isFlagged
              && (grid[row][col].isMine || grid[row][col].neighborMines != 0) ==>
              newGrid == grid[row := grid[row][col := grid[row][col].(isRevealed := true)]]
    ensures Settled(newGrid, row, col)
    ensures Closed(grid, newGrid)
    ensures Flood(grid, newGrid, row, col, order)
    ensures SafeZeros(grid) ==> NewlySafe(grid, newGrid, row, col)
    decreases Count(grid, IsHidden), 0
  {
    newGrid, order := grid, [];
    if row < 0 || row >= |newGrid| || col < 0 || col >= |newGrid[0]| || newGrid[row][col].isRevealed || newGrid[row][col].isFlagged {
      return;
    }
    var revealed := newGrid[row][col].(isRevealed := true);
    CountUpdate(newGrid, row, col, revealed, IsHidden);
    newGrid := newGrid[row := newGrid[row][col := revealed]];
    order := [(row, col)];
    RevealTarget(grid, newGrid, row, col);
    if newGrid[row][col].neighborMines == 0 && !newGrid[row][col].isMine {
      for k := 0 to |Directions|
        invariant Filling(grid, newGrid, row, col, k, order)
        invariant Count(newGrid, IsHidden) < Count(grid, IsHidden)
      {
        newGrid, order := RevealNeighbour(grid, newGrid, row, col, k, order);
      }
      RevealFinish(grid, newGrid, row, col, order);
    }
  }

  /** One pass of the loop in `revealCell`: the recursive call on the k-th neighbour. */
  method RevealNeighbour(grid: Grid, g: Grid, row: int, col: int, k: int, ghost order: seq<(int, int)>)
      returns (h: Grid, ghost order': seq<(int, int)>)
    requires InBounds(grid, row, col) && 0 <= k < 8
    requires Filling(grid, g, row, col, k, order)
    requires Count(g, IsHidden) < Count(grid, IsHidden)
    ensures Filling(grid, h, row, col, k + 1, order')
    ensures Count(h, IsHidden) <= Count(g, IsHidden)
    decreases Count(g, IsHidden), 1
  {
    var next := NeighbourAt(row, col, k);
    ghost var sub;
    h, sub := RevealCell(g, next.0, next.1);
    RevealStep(grid, g, h, row, col, k, order, sub);
    order' := order + sub;
  }

  /** Revealing the clicked cell alone opens no cell but that one. */
  lemma RevealTarget(grid: Grid, g: Grid, row: int, col: int)
    requires Rect(grid) && InBounds(grid, row, col)
    requires !grid[row][col].isRevealed && !grid[row][col].isFlagged
    requires g == grid[row := grid[row][col := grid[row][col].(isRevealed := true)]]
    ensures RevealsOnly(grid, g) && Rect(g)
    ensures Flood(grid, g, row, col, [(row, col)])
    ensures Closed(grid, g) || (!g[row][col].isMine && g[row][col].neighborMines == 0)
    ensures !g[row][col].isMine && g[row][col].neighborMines == 0 ==> Filling(grid, g, row, col, 0, [(row, col)])
    ensures SafeZeros(grid) ==> NewlySafe(grid, g, row, col)
  {
  }

  /** Once all eight neighbours are settled, the clicked cell is closed too. */
  lemma RevealFinish(grid: Grid, g: Grid, row: int, col: int, order: seq<(int, int)>)
    requires InBounds(grid, row, col)
    requires Filling(grid, g, row, col, 8, order)
    ensures Closed(grid, g)
  {
    forall r', c' | Adjacent(row, col, r', c')
      ensures Settled(g, r', c')
    {
      var k := AdjacentDirection(row, col, r', c');
    }
  }

  /** The loop invariants of `RevealCell` survive one recursive call. */
  lemma RevealStep(grid: Grid, g: Grid, h: Grid, row: int, col: int, k: int, order: seq<(int, int)>, sub: seq<(int, int)>)
    requires InBounds(grid, row, col) && 0 <= k < 8
    requires Filling(grid, g, row, col, k, order)
    requires RevealsOnly(g, h) && Rect(h) && Closed(g, h)
    requires Settled(h, NeighbourAt(row, col, k).0, NeighbourAt(row, col, k).1)
    requires Flood(g, h, NeighbourAt(row, col, k).0, NeighbourAt(row, col, k).1, sub)
    requires SafeZeros(g) ==> NewlySafe(g, h, NeighbourAt(row, col, k).0, NeighbourAt(row, col, k).1)
    ensures Filling(grid, h, row, col, k + 1, order + sub)
  {
    RevealsOnlyTrans(grid, g, h);
    ClosedStep(grid, g, h, row, col);
    forall j | 0 <= j < k
      ensures Settled(h, NeighbourAt(row, col, j).0, NeighbourAt(row, col, j).1)
    {
      var p := NeighbourAt(row, col, j);
      assert Settled(g, p.0, p.1);
    }
    assert Opened(grid, g, row, col);
    FloodStep(grid, g, h, row, col, k, order, sub);
    if SafeZeros(grid) {
      SafeZerosKept(grid, g);
      assert grid[row][col].neighborMines == 0 && !grid[row][col].isMine;
      assert NoMineAround(grid, row, col);
      var p := NeighbourAt(row, col, k);
      DirectionsAdjacent(row, col, k);
      forall r, c | InBounds(grid, r, c) && InBounds(h, r, c) && !grid[r][c].isRevealed && h[r][c].isRevealed && (r, c) != (row, col)
        ensures !h[r][c].isMine
      {
        if !g[r][c].isRevealed && (r, c) == p {
          assert !grid[r][c].isMine;
        }
      }
    }
  }

  /**
   * Appending the order of the recursive call on the k-th neighbour to the
   * order so far keeps every revealed cell reachable from the click.
   */
  lemma FloodStep(grid: Grid, g: Grid, h: Grid, row: int, col: int, k: int, order: seq<(int, int)>, sub: seq<(int, int)>)
    requires 0 <= k < 8
    requires RevealsOnly(grid, g) && RevealsOnly(g, h)
    requires Opened(grid, g, row, col) && |order| > 0 && Flood(grid, g, row, col, order)
    requires Flood(g, h, NeighbourAt(row, col, k).0, NeighbourAt(row, col, k).1, sub)
    ensures Flood(grid, h, row, col, order + sub)
  {
    var all := order + sub;
    forall r, c | InBounds(grid, r, c) && InBounds(h, r, c) && !grid[r][c].isRevealed && h[r][c].isRevealed
      ensures (r, c) in all
    {
      if g[r][c].isRevealed {
        assert (r, c) in order;
      } else {
        assert (r, c) in sub;
      }
    }
    forall i | 0 < i < |all|
      ensures exists j :: 0 <= j < i && Adjacent(all[j].0, all[j].1, all[i].0, all[i].1) && Opened(grid, h, all[j].0, all[j].1)
    {
      if i < |order| {
        ReachedOld(grid, g, h, row, col, order, sub, i);
      } else if i == |order| {
        DirectionsAdjacent(row, col, k);
        assert all[0] == (row, col) && all[i] == sub[0];
        assert Opened(grid, h, all[0].0, all[0].1);
      } else {
        ReachedNew(grid, g, h, NeighbourAt(row, col, k).0, NeighbourAt(row, col, k).1, order, sub, i);
      }
    }
  }

  /** An entry of the order so far still follows a cell opened by now. */
  lemma ReachedOld(grid: Grid, g: Grid, h: Grid, row: int, col: int, order: seq<(int, int)>, sub: seq<(int, int)>, i: int)
    requires RevealsOnly(g, h) && Reached(grid, g, row, col, order)
    requires 0 < i < |order|
    ensures exists j :: 0 <= j < i && Adjacent((order + sub)[j].0, (order + sub)[j].1, (order + sub)[i].0, (order + sub)[i].1)
                        && Opened(grid, h, (order + sub)[j].0, (order + sub)[j].1)
  {
    var j :| 0 <= j < i && Adjacent(order[j].0, order[j].1, order[i].0, order[i].1) && Opened(grid, g, order[j].0, order[j].1);
    assert (order + sub)[j] == order[j] && (order + sub)[i] == order[i];
    assert Opened(grid, h, order[j].0, order[j].1);
  }

  /** An entry of the recursive call's order follows a cell that call opened. */
  lemma ReachedNew(grid: Grid, g: Grid, h: Grid, r0: int, c0: int, order: seq<(int, int)>, sub: seq<(int, int)>, i: int)
    requires RevealsOnly(grid, g) && Reached(g, h, r0, c0, sub)
    requires |order| < i < |order| + |sub|
    ensures exists j :: 0 <= j < i && Adjacent((order + sub)[j].0, (order + sub)[j].1, (order + sub)[i].0, (order + sub)[i].1)
                        && Opened(grid, h, (order + sub)[j].0, (order + sub)[j].1)
  {
    var i' := i - |order|;
    var j :| 0 <= j < i' && Adjacent(sub[j].0, sub[j].1, sub[i'].0, sub[i'].1) && Opened(g, h, sub[j].0, sub[j].1);
    assert (order + sub)[|order| + j] == sub[j] && (order + sub)[i] == sub[i'];
    assert Opened(grid, h, sub[j].0, sub[j].1);
  }

  // ---------------------------------------------------------------------
  // Flags, winning and losing
  // ---------------------------------------------------------------------

  /**
   * `toggleFlag`: flips the flag of a hidden cell; a revealed cell is left
   * as it is. The TypeScript engine does not check the coordinates.
   */
  function ToggleFlag(grid: Grid, row: int, col: int): (r: Grid)
    requires InBounds(grid, row, col)
    ensures |r| == |grid| && forall i :: 0 <= i < |grid| ==> |r[i]| == |grid[i]|
    ensures grid[row][col].isRevealed ==> r == grid
    ensures !grid[row][col].isRevealed ==> r[row][col] == grid[row][col].(isFlagged := !grid[row][col].isFlagged)
    ensures forall i, j :: InBounds(grid, i, j) && (i, j) != (row, col) ==> r[i][j] == grid[i][j]
  {
    var cell := grid[row][col];
    if !cell.isRevealed then grid[row := grid[row][col := cell.(isFlagged := !cell.isFlagged)]] else grid
  }

  /** Toggling a flag twice restores the grid. */
  lemma ToggleFlagTwice(grid: Grid, row: int, col: int)
    requires InBounds(grid, row, col)
    ensures ToggleFlag(ToggleFlag(grid, row, col), row, col) == grid
  {
    var once := ToggleFlag(grid, row, col);
    assert forall i :: 0 <= i < |grid| ==> ToggleFlag(once, row, col)[i] == grid[i];
  }

  /** Toggling adds one flag to a hidden unflagged cell, removes one from a flagged one, and leaves revealed cells alone. */
  lemma ToggleFlagCount(grid: Grid, row: int, col: int)
    requires InBounds(grid, row, col)
    ensures Count(ToggleFlag(grid, row, col), IsFlagged) ==
      if grid[row][col].isRevealed then Count(grid, IsFlagged)
      else if grid[row][col].isFlagged then Count(grid, IsFlagged) - 1
      else Count(grid, IsFlagged) + 1
  {
    var cell := grid[row][col];
    if !cell.isRevealed {
      CountUpdate(grid, row, col, cell.(isFlagged := !cell.isFlagged), IsFlagged);
    }
  }

  /** `countFlags`: counts the flagged cells row by row. */
  method CountFlags(grid: Grid) returns (count: nat)
    ensures count == Count(grid, IsFlagged)
  {
    count := 0;
    for r := 0 to |grid|
      invariant count == Count(grid[..r], IsFlagged)
    {
      CountStep(grid, r, IsFlagged);
      var line := grid[r];
      for c := 0 to |line|
        invariant count == Count(grid[..r], IsFlagged) + CountIn(line[..c], IsFlagged)
      {
        CountInStep(line, c, IsFlagged);
        if line[c].isFlagged {
          count := count + 1;
        }
      }
      assert line[..|line|] == line;
    }
    assert grid[..|grid|] == grid;
  }

  /**
   * `checkWin`: counts the revealed safe cells and compares the count with
   * the number of cells (rows times the first row's length) minus the mines
   * of the difficulty.
   */
  method CheckWin(grid: Grid, d: Difficulty) returns (won: bool)
    requires |grid| > 0
    ensures won <==> Count(grid, IsRevealedSafe) == |grid| * |grid[0]| - GetMineCount(d)
  {
    var mines := GetMineCount(d);
    var revealedCount := 0;
    var totalCells := |grid| * |grid[0]|;
    for r := 0 to |grid|
      invariant revealedCount == Count(grid[..r], IsRevealedSafe)
    {
      CountStep(grid, r, IsRevealedSafe);
      var line := grid[r];
      for c := 0 to |line|
        invariant revealedCount == Count(grid[..r], IsRevealedSafe) + CountIn(line[..c], IsRevealedSafe)
      {
        CountInStep(line, c, IsRevealedSafe);
        if line[c].isRevealed && !line[c].isMine {
          revealedCount := revealedCount + 1;
        }
      }
      assert line[..|line|] == line;
    }
    assert grid[..|grid|] == grid;
    return revealedCount == totalCells - mines;
  }

  /**
   * On a rectangular grid holding exactly the difficulty's mines, the win
   * test holds exactly when every safe cell is revealed.
   */
  lemma WinIffSafeRevealed(grid: Grid, d: Difficulty)
    requires |grid| > 0 && Rect(grid)
    requires Count(grid, IsMine) == GetMineCount(d)
    ensures Count(grid, IsRevealedSafe) == |grid| * |grid[0]| - GetMineCount(d) <==>
      forall r, c :: InBounds(grid, r, c) && !grid[r][c].isMine ==> grid[r][c].isRevealed
  {
    CountPartition(grid, IsRevealedSafe, IsHiddenSafe, IsMine);
    SizeRect(grid, |grid[0]|);
    CountNone(grid, IsHiddenSafe);
  }

  /** A mine is revealed; every other cell keeps its state. */
  function Expose(cell: Cell): (e: Cell)
  {
    cell.(isRevealed := if cell.isMine then true else cell.isRevealed)
  }

  /** `revealAllMines`: a copy of the grid with every mine revealed. */
  function RevealAllMines(grid: Grid): (r: Grid)
    ensures |r| == |grid| && forall i :: 0 <= i < |grid| ==> |r[i]| == |grid[i]|
    ensures forall i, j :: InBounds(grid, i, j) ==>
      && r[i][j].isRevealed == (grid[i][j].isRevealed || grid[i][j].isMine)
      && r[i][j].(isRevealed := grid[i][j].isRevealed) == grid[i][j]
  {
    seq(|grid|, i requires 0 <= i < |grid| => seq(|grid[i]|, j requires 0 <= j < |grid[i]| => Expose(grid[i][j])))
  }

  /** Revealing all mines twice is the same as once. */
  lemma RevealAllMinesIdempotent(grid: Grid)
    ensures RevealAllMines(RevealAllMines(grid)) == RevealAllMines(grid)
  {
    var once := RevealAllMines(grid);
    assert forall i :: 0 <= i < |grid| ==> RevealAllMines(once)[i] == once[i];
  }

  /** Revealing the mines changes neither the win count nor the number of hidden safe cells. */
  lemma RevealAllMinesKeepsSafeCells(grid: Grid)
    ensures Count(RevealAllMines(grid), IsRevealedSafe) == Count(grid, IsRevealedSafe)
    ensures Count(RevealAllMines(grid), IsHidden) == Count(grid, IsHiddenSafe)
  {
    var r := RevealAllMines(grid);
    CountSame(r, grid, IsRevealedSafe, IsRevealedSafe);
    CountSame(r, grid, IsHidden, IsHiddenSafe);
  }
}
