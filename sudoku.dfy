/**
 * The Sudoku engine: a 9×9 grid of numbers in which 0 marks an empty cell,
 * a backtracking filler that completes a grid in place, a puzzle generator
 * that blanks cells of a completed grid, and the checks the game runs on the
 * player's grid.
 *
 * Grids are `array2<int>`s, because the filler and the generator write into
 * them in place; contracts are stated on the `Board` a grid holds.
 */
module Sudoku {
  import opened Chance
  import opened Counting
  import opened Optional

  /** The contents of a grid, row by row; 0 is an empty cell. */
  type Board = seq<seq<int>>

  predicate IsBoard(b: Board) {
    |b| == 9 && forall r :: 0 <= r < 9 ==> |b[r]| == 9
  }

  predicate IsGrid(g: array2<int>) {
    g.Length0 == 9 && g.Length1 == 9
  }

  /** The board a grid currently holds. */
  function Cells(g: array2<int>): (b: Board)
    requires IsGrid(g)
    reads g
    ensures IsBoard(b)
    ensures forall r, c :: 0 <= r < 9 && 0 <= c < 9 ==> b[r][c] == g[r, c]
  {
    seq(9, r requires 0 <= r < 9 reads g => seq(9, c requires 0 <= c < 9 reads g => g[r, c]))
  }

  predicate IsZero(x: int) { x == 0 }

  /** The number of empty cells. */
  function Zeros(b: Board): nat {
    Count(b, IsZero)
  }

  /** No cell is empty. */
  predicate Complete(b: Board)
    requires IsBoard(b)
  {
    forall r, c :: 0 <= r < 9 && 0 <= c < 9 ==> b[r][c] != 0
  }

  // ---------------------------------------------------------------------
  // Conflicts
  // ---------------------------------------------------------------------

  /** No value other than 0 occurs twice in a row. */
  predicate RowsDistinct(b: Board)
    requires IsBoard(b)
  {
    forall r, c1, c2 :: 0 <= r < 9 && 0 <= c1 < 9 && 0 <= c2 < 9 && c1 != c2 && b[r][c1] != 0 ==> b[r][c1] != b[r][c2]
  }

  /** No value other than 0 occurs twice in a column. */
  predicate ColsDistinct(b: Board)
    requires IsBoard(b)
  {
    forall c, r1, r2 :: 0 <= c < 9 && 0 <= r1 < 9 && 0 <= r2 < 9 && r1 != r2 && b[r1][c] != 0 ==> b[r1][c] != b[r2][c]
  }

  /** Two cells lie in the same 3×3 box. */
  predicate SameBox(r1: int, c1: int, r2: int, c2: int) {
    r1 / 3 == r2 / 3 && c1 / 3 == c2 / 3
  }

  /** No value other than 0 occurs twice in a 3×3 box. */
  predicate BoxesDistinct(b: Board)
    requires IsBoard(b)
  {
    forall r1, c1, r2, c2 ::
      && 0 <= r1 < 9 && 0 <= c1 < 9 && 0 <= r2 < 9 && 0 <= c2 < 9
      && (r1, c1) != (r2, c2) && SameBox(r1, c1, r2, c2) && b[r1][c1] != 0
      ==> b[r1][c1] != b[r2][c2]
  }

  /** The Sudoku rule, with empty cells ignored. */
  predicate ConflictFree(b: Board)
    requires IsBoard(b)
  {
    RowsDistinct(b) && ColsDistinct(b) && BoxesDistinct(b)
  }

  // ---------------------------------------------------------------------
  // `isValidPlacement`
  // ---------------------------------------------------------------------

  /** JavaScript's `%`, which keeps the sign of the dividend. */
  function JsRem(a: int, n: int): int
    requires n > 0
  {
    if a >= 0 then a % n else -((-a) % n)
  }

  /** The first row (or column) of the box the TypeScript engine scans for index x: `x - x % 3`. */
  function BoxStart(x: int): int {
    x - JsRem(x, 3)
  }

  /** Cell (r, c) exists and holds n; a read outside the grid never matches. */
  predicate Holds(b: Board, r: int, c: int, n: int)
    requires IsBoard(b)
  {
    0 <= r < 9 && 0 <= c < 9 && b[r][c] == n
  }

  predicate InRow(b: Board, r: int, n: int)
    requires IsBoard(b)
  {
    exists x :: 0 <= x < 9 && Holds(b, r, x, n)
  }

  predicate InCol(b: Board, c: int, n: int)
    requires IsBoard(b)
  {
    exists x :: 0 <= x < 9 && Holds(b, x, c, n)
  }

  /** Cell (i, j) of the box scanned for (r, c) exists and holds n. */
  predicate BoxHolds(b: Board, r: int, c: int, i: int, j: int, n: int)
    requires IsBoard(b)
  {
    Holds(b, i + BoxStart(r), j + BoxStart(c), n)
  }

  predicate InBox(b: Board, r: int, c: int, n: int)
    requires IsBoard(b)
  {
    exists i, j :: 0 <= i < 3 && 0 <= j < 3 && BoxHolds(b, r, c, i, j, n)
  }

  /** n occurs neither in row r, nor in column c, nor in the box scanned for (r, c). */
  predicate CanPlace(b: Board, r: int, c: int, n: int)
    requires IsBoard(b)
  {
    !InRow(b, r, n) && !InCol(b, c, n) && !InBox(b, r, c, n)
  }

  /**
   * `isValidPlacement`: scans row `row`, then column `col`, then the box
   * starting at `(row - row % 3, col - col % 3)`, and fails on the first
   * cell holding `num`. The row must exist; a column outside the grid only
   * reads missing cells, which match nothing.
   */
  method IsValidPlacement(grid: array2<int>, row: int, col: int, num: int) returns (valid: bool)
    requires IsGrid(grid) && 0 <= row < 9
    ensures valid <==> CanPlace(Cells(grid), row, col, num)
  {
    ghost var b := Cells(grid);
    for x := 0 to 9
      invariant forall y :: 0 <= y < x ==> !Holds(b, row, y, num)
    {
      if grid[row, x] == num {
        assert Holds(b, row, x, num);
        return false;
      }
    }
    for x := 0 to 9
      invariant forall y :: 0 <= y < x ==> !Holds(b, y, col, num)
    {
      if 0 <= col < 9 && grid[x, col] == num {
        assert Holds(b, x, col, num);
        return false;
      }
    }
    var startRow := row - JsRem(row, 3);
    var startCol := col - JsRem(col, 3);
    for i := 0 to 3
      invariant forall i', j :: 0 <= i' < i && 0 <= j < 3 ==> !BoxHolds(b, row, col, i', j, num)
    {
      for j := 0 to 3
        invariant forall i', j' :: 0 <= i' < 3 && 0 <= j' < 3 && (i' < i || (i' == i && j' < j)) ==>
          !BoxHolds(b, row, col, i', j', num)
      {
        var r, c := i + startRow, j + startCol;
        if 0 <= r < 9 && 0 <= c < 9 && grid[r, c] == num {
          assert BoxHolds(b, row, col, i, j, num);
          return false;
        }
      }
    }
    return true;
  }

  /** For a cell on the grid, the box the TypeScript engine scans is the cell's own 3×3 box. */
  lemma BoxOfCell(r: int, c: int, r2: int, c2: int)
    requires 0 <= r < 9 && 0 <= c < 9 && 0 <= r2 < 9 && 0 <= c2 < 9
    ensures SameBox(r, c, r2, c2) <==>
      0 <= r2 - BoxStart(r) < 3 && 0 <= c2 - BoxStart(c) < 3
  {
    assert BoxStart(r) == r / 3 * 3;
    assert BoxStart(c) == c / 3 * 3;
  }

  /**
   * Writing a number that `isValidPlacement` accepts into a cell of a
   * conflict-free board leaves it conflict-free.
   */
  lemma PlacementKeepsConflictFree(b: Board, r: int, c: int, n: int)
    requires IsBoard(b) && 0 <= r < 9 && 0 <= c < 9
    requires ConflictFree(b) && CanPlace(b, r, c, n)
    ensures IsBoard(b[r := b[r][c := n]])
    ensures ConflictFree(b[r := b[r][c := n]])
  {
    var b' := b[r := b[r][c := n]];
    forall r2, c2 | 0 <= r2 < 9 && 0 <= c2 < 9 && (r2, c2) != (r, c) && SameBox(r, c, r2, c2)
      ensures b'[r2][c2] != n
    {
      BoxOfCell(r, c, r2, c2);
      var i, j := r2 - BoxStart(r), c2 - BoxStart(c);
      assert !BoxHolds(b, r, c, i, j, n);
    }
    forall x | 0 <= x < 9 && x != c
      ensures b'[r][x] != n
    {
      assert Holds(b, r, x, b[r][x]);
    }
    forall x | 0 <= x < 9 && x != r
      ensures b'[x][c] != n
    {
      assert Holds(b, x, c, b[x][c]);
    }
  }

  // ---------------------------------------------------------------------
  // Checks on the player's grid
  // ---------------------------------------------------------------------

  /** `isPuzzleComplete`: a scan for an empty cell. */
  method IsPuzzleComplete(grid: array2<int>) returns (complete: bool)
    requires IsGrid(grid)
    ensures complete <==> Complete(Cells(grid))
  {
    for row := 0 to 9
      invariant forall r, c :: 0 <= r < row && 0 <= c < 9 ==> grid[r, c] != 0
    {
      for col := 0 to 9
        invariant forall r, c :: 0 <= r < 9 && 0 <= c < 9 && (r < row || (r == row && c < col)) ==> grid[r, c] != 0
      {
        if grid[row, col] == 0 {
          return false;
        }
      }
    }
    return true;
  }

  /** A board is complete exactly when it has no empty cell to count. */
  lemma CompleteIffNoZeros(b: Board)
    requires IsBoard(b)
    ensures Complete(b) <==> Zeros(b) == 0
  {
    CountNone(b, IsZero);
  }

  /** `checkSolution`: a cell-by-cell comparison. */
  method CheckSolution(grid: array2<int>, solution: array2<int>) returns (same: bool)
    requires IsGrid(grid) && IsGrid(solution)
    ensures same <==> Cells(grid) == Cells(solution)
  {
    for row := 0 to 9
      invariant forall r, c :: 0 <= r < row && 0 <= c < 9 ==> grid[r, c] == solution[r, c]
    {
      for col := 0 to 9
        invariant forall r, c :: 0 <= r < 9 && 0 <= c < 9 && (r < row || (r == row && c < col)) ==> grid[r, c] == solution[r, c]
      {
        if grid[row, col] != solution[row, col] {
          assert Cells(grid)[row][col] != Cells(solution)[row][col];
          return false;
        }
      }
    }
    assert forall r :: 0 <= r < 9 ==> Cells(grid)[r] == Cells(solution)[r];
    return true;
  }

  /** A hint: the position of a cell and the value the solution has there. */
  datatype Hint = Hint(row: int, col: int, value: int)

  /**
   * `getHint`: the first empty cell in row-major order, with the solution's
   * value for it; None when no cell is empty.
   */
  method GetHint(grid: array2<int>, solution: array2<int>) returns (hint: Option<Hint>)
    requires IsGrid(grid) && IsGrid(solution)
    ensures hint.None? <==> Complete(Cells(grid))
    ensures hint.Some? ==>
      var h := hint.value;
      && 0 <= h.row < 9 && 0 <= h.col < 9
      && grid[h.row, h.col] == 0 && h.value == solution[h.row, h.col]
      && forall r, c :: 0 <= r < 9 && 0 <= c < 9 && r * 9 + c < h.row * 9 + h.col ==> grid[r, c] != 0
  {
    for row := 0 to 9
      invariant forall r, c :: 0 <= r < row && 0 <= c < 9 ==> grid[r, c] != 0
    {
      for col := 0 to 9
        invariant forall r, c :: 0 <= r < 9 && 0 <= c < 9 && (r < row || (r == row && c < col)) ==> grid[r, c] != 0
      {
        if grid[row, col] == 0 {
          return Some(Hint(row, col, solution[row, col]));
        }
      }
    }
    return None;
  }

  // ---------------------------------------------------------------------
  // Completing a grid: `shuffleArray`, `fillGrid`, `generateCompleteGrid`
  // ---------------------------------------------------------------------

  /**
   * `shuffleArray`: a Fisher–Yates shuffle of a copy of `items`. The k-th
   * draw of `Math.random()` is `rand(k)`; the shuffle uses the draws from
   * `pos` on, one per position from the last down to the second, and
   * returns the position of the next unused draw.
   */
  method ShuffleArray<T>(items: seq<T>, rand: nat -> real, pos: nat) returns (shuffled: seq<T>, next: nat)
    requires IsSource(rand)
    ensures |shuffled| == |items|
    ensures multiset(shuffled) == multiset(items)
    ensures next == pos + (if |items| == 0 then 0 else |items| - 1)
  {
    var a := new T[|items|](k requires 0 <= k < |items| => items[k]);
    assert a[..] == items;
    var i := |items| - 1;
    next := pos;
    while i > 0
      invariant |items| == 0 || 0 <= i < |items|
      invariant multiset(a[..]) == multiset(items)
      invariant next == pos + (if |items| == 0 then 0 else |items| - 1 - i)
    {
      var j := Pick(rand(next), i + 1);
      next := next + 1;
      a[i], a[j] := a[j], a[i];
      i := i - 1;
    }
    shuffled := a[..];
  }

  /** Every number in a permutation of 1..9 lies between 1 and 9, and each of them occurs. */
  lemma DigitsPermutation(numbers: seq<int>)
    requires multiset(numbers) == multiset([1, 2, 3, 4, 5, 6, 7, 8, 9])
    ensures forall i :: 0 <= i < |numbers| ==> 1 <= numbers[i] <= 9
    ensures forall v :: 1 <= v <= 9 ==> v in numbers
  {
    var digits := [1, 2, 3, 4, 5, 6, 7, 8, 9];
    forall i | 0 <= i < |numbers|
      ensures 1 <= numbers[i] <= 9
    {
      assert numbers[i] in multiset(digits);
      var k :| 0 <= k < 9 && digits[k] == numbers[i];
    }
    forall v | 1 <= v <= 9
      ensures v in numbers
    {
      assert digits[v - 1] == v;
      assert v in multiset(numbers);
    }
  }

  /** s keeps every filled cell of b and fills each empty cell of b with a digit. */
  predicate Extends(b: Board, s: Board)
    requires IsBoard(b) && IsBoard(s)
  {
    forall r, c :: 0 <= r < 9 && 0 <= c < 9 ==>
      if b[r][c] != 0 then s[r][c] == b[r][c] else 1 <= s[r][c] <= 9
  }

  /** s is a solution of the puzzle b: a conflict-free completion of it. */
  predicate IsSolution(b: Board, s: Board)
    requires IsBoard(b)
  {
    IsBoard(s) && Extends(b, s) && ConflictFree(s)
  }

  /** b has a solution. */
  ghost predicate Solvable(b: Board)
    requires IsBoard(b)
  {
    exists s :: IsSolution(b, s)
  }

  /** A completion holds digits everywhere. */
  lemma ExtendsComplete(b: Board, s: Board)
    requires IsBoard(b) && IsBoard(s) && Extends(b, s)
    ensures Complete(s)
  {
  }

  /** Two boards that agree on every cell are equal. */
  lemma SameCells(a: Board, b: Board)
    requires IsBoard(a) && IsBoard(b)
    requires forall r, c :: 0 <= r < 9 && 0 <= c < 9 ==> a[r][c] == b[r][c]
    ensures a == b
  {
    assert forall r :: 0 <= r < 9 ==> a[r] == b[r];
  }

  /**
   * A digit that `isValidPlacement` rejects for an empty cell is not that
   * cell's value in any solution: the solution would repeat it in the row,
   * the column or the box.
   */
  lemma RejectedExcluded(b: Board, r: int, c: int, n: int, s: Board)
    requires IsBoard(b) && 0 <= r < 9 && 0 <= c < 9 && b[r][c] == 0 && n != 0
    requires !CanPlace(b, r, c, n) && IsSolution(b, s)
    ensures s[r][c] != n
  {
    if InRow(b, r, n) {
      var x :| 0 <= x < 9 && Holds(b, r, x, n);
      assert s[r][x] == n && x != c;
    } else if InCol(b, c, n) {
      var x :| 0 <= x < 9 && Holds(b, x, c, n);
      assert s[x][c] == n && x != r;
    } else {
      var i, j :| 0 <= i < 3 && 0 <= j < 3 && BoxHolds(b, r, c, i, j, n);
      var r2, c2 := i + BoxStart(r), j + BoxStart(c);
      BoxOfCell(r, c, r2, c2);
      assert s[r2][c2] == n && (r2, c2) != (r, c);
    }
  }

  /** A solution of a puzzle that holds n at (r, c) is a solution of the puzzle with n written there. */
  lemma PlacementOfSolution(b: Board, r: int, c: int, n: int, s: Board)
    requires IsBoard(b) && 0 <= r < 9 && 0 <= c < 9 && b[r][c] == 0
    requires IsSolution(b, s) && s[r][c] == n
    ensures IsSolution(b[r := b[r][c := n]], s)
  {
  }

  /** Filling an empty cell with a digit, then completing the rest, completes the original board. */
  lemma ExtendsTrans(b: Board, r: int, c: int, n: int, s: Board)
    requires IsBoard(b) && 0 <= r < 9 && 0 <= c < 9 && b[r][c] == 0 && 1 <= n <= 9
    requires IsBoard(s) && Extends(b[r := b[r][c := n]], s)
    ensures Extends(b, s)
  {
  }

  /** Writing a digit over an empty cell leaves one empty cell fewer. */
  lemma ZerosAfterPlacement(b: Board, r: int, c: int, n: int)
    requires IsBoard(b) && 0 <= r < 9 && 0 <= c < 9 && b[r][c] == 0 && n != 0
    ensures Zeros(b[r := b[r][c := n]]) + 1 == Zeros(b)
  {
    CountUpdate(b, r, c, n, IsZero);
  }

  /**
   * `fillGrid`: finds the first empty cell in row-major order and hands it
   * to `FillCell`; a grid with no empty cell is already filled. On success
   * the grid is a completion of what it held, conflict-free if that was; on
   * failure the grid is as it was and it has no solution at all, so the
   * backtracking search is complete.
   */
  method FillGrid(grid: array2<int>, rand: nat -> real, pos: nat) returns (ok: bool, next: nat)
    requires IsGrid(grid) && IsSource(rand)
    modifies grid
    decreases Zeros(Cells(grid)), 2
    ensures pos <= next
    ensures ok ==> Extends(old(Cells(grid)), Cells(grid))
    ensures ok && ConflictFree(old(Cells(grid))) ==> ConflictFree(Cells(grid))
    ensures !ok ==> Cells(grid) == old(Cells(grid)) && !Solvable(old(Cells(grid)))
  {
    for row := 0 to 9
      invariant forall r, c :: 0 <= r < row && 0 <= c < 9 ==> grid[r, c] != 0
    {
      for col := 0 to 9
        invariant forall r, c :: 0 <= r < 9 && 0 <= c < 9 && (r < row || (r == row && c < col)) ==> grid[r, c] != 0
      {
        if grid[row, col] == 0 {
          ok, next := FillCell(grid, row, col, rand, pos);
          return;
        }
      }
    }
    return true, pos;
  }

  /**
   * The body of `fillGrid` for the empty cell (row, col): tries the digits
   * in shuffled order and stops at the first one that leads to a filled
   * grid; when none does, the cell has no value in any solution.
   */
  method FillCell(grid: array2<int>, row: int, col: int, rand: nat -> real, pos: nat) returns (ok: bool, next: nat)
    requires IsGrid(grid) && IsSource(rand)
    requires 0 <= row < 9 && 0 <= col < 9 && grid[row, col] == 0
    modifies grid
    decreases Zeros(Cells(grid)), 1
    ensures pos <= next
    ensures ok ==> Extends(old(Cells(grid)), Cells(grid))
    ensures ok && ConflictFree(old(Cells(grid))) ==> ConflictFree(Cells(grid))
    ensures !ok ==> Cells(grid) == old(Cells(grid)) && !Solvable(old(Cells(grid)))
  {
    var numbers;
    numbers, next := ShuffleArray([1, 2, 3, 4, 5, 6, 7, 8, 9], rand, pos);
    DigitsPermutation(numbers);
    ghost var b := Cells(grid);
    for k := 0 to 9
      invariant Cells(grid) == b && pos <= next
      invariant forall s :: IsSolution(b, s) ==> s[row][col] !in numbers[..k]
    {
      ok, next := TryDigit(grid, row, col, numbers[k], rand, next);
      if ok {
        return;
      }
      assert numbers[..k + 1] == numbers[..k] + [numbers[k]];
    }
    assert numbers[..9] == numbers;
    return false, next;
  }

  /**
   * One turn of the loop over the shuffled digits: when `isValidPlacement`
   * accepts num, writes it, recurses, and clears the cell again if the
   * recursion fails. When the turn fails, no solution has num at (row, col).
   */
  method TryDigit(grid: array2<int>, row: int, col: int, num: int, rand: nat -> real, pos: nat) returns (ok: bool, next: nat)
    requires IsGrid(grid) && IsSource(rand)
    requires 0 <= row < 9 && 0 <= col < 9 && grid[row, col] == 0 && 1 <= num <= 9
    modifies grid
    decreases Zeros(Cells(grid)), 0
    ensures pos <= next
    ensures ok ==> Extends(old(Cells(grid)), Cells(grid))
    ensures ok && ConflictFree(old(Cells(grid))) ==> ConflictFree(Cells(grid))
    ensures !ok ==> Cells(grid) == old(Cells(grid))
    ensures !ok ==> forall s :: IsSolution(old(Cells(grid)), s) ==> s[row][col] != num
  {
    ghost var b := Cells(grid);
    var valid := IsValidPlacement(grid, row, col, num);
    if !valid {
      forall s | IsSolution(b, s)
        ensures s[row][col] != num
      {
        RejectedExcluded(b, row, col, num, s);
      }
      return false, pos;
    }
    grid[row, col] := num;
    ghost var b' := b[row := b[row][col := num]];
    SameCells(Cells(grid), b');
    ZerosAfterPlacement(b, row, col, num);
    ok, next := FillGrid(grid, rand, pos);
    if ok {
      ExtendsTrans(b, row, col, num, Cells(grid));
      if ConflictFree(b) {
        PlacementKeepsConflictFree(b, row, col, num);
      }
      return;
    }
    grid[row, col] := 0;
    SameCells(Cells(grid), b);
    forall s | IsSolution(b, s)
      ensures s[row][col] != num
    {
      if s[row][col] == num {
        PlacementOfSolution(b, row, col, num, s);
      }
    }
  }

  /** The board of a grid of empty cells. */
  function EmptyBoard(): (b: Board)
    ensures IsBoard(b) && Zeros(b) == 81
    ensures forall r, c :: 0 <= r < 9 && 0 <= c < 9 ==> b[r][c] == 0
  {
    var b := seq(9, r => seq(9, c => 0));
    CountPartition(b, IsZero, NonZeroDigit, OutOfRange);
    CountNone(b, NonZeroDigit);
    CountNone(b, OutOfRange);
    SizeRect(b, 9);
    b
  }

  predicate NonZeroDigit(x: int) { 1 <= x <= 9 }

  predicate OutOfRange(x: int) { x != 0 && !(1 <= x <= 9) }

  /**
   * A fixed solved grid: row r is the sequence 1..9 shifted by
   * 3 * (r % 3) + r / 3. It shows that the empty grid has a solution.
   */
  function Pattern(r: int, c: int): int {
    (3 * (r % 3) + r / 3 + c) % 9 + 1
  }

  lemma Mod9(x: int)
    requires 0 <= x < 18
    ensures x % 9 == if x < 9 then x else x - 9
  {
  }

  lemma PatternRowsDistinct(r: int, c1: int, c2: int)
    requires 0 <= r < 9 && 0 <= c1 < 9 && 0 <= c2 < 9 && c1 != c2
    ensures Pattern(r, c1) != Pattern(r, c2)
  {
    Split3(r);
    Mod9(3 * (r % 3) + r / 3 + c1);
    Mod9(3 * (r % 3) + r / 3 + c2);
  }

  lemma PatternColsDistinct(c: int, r1: int, r2: int)
    requires 0 <= c < 9 && 0 <= r1 < 9 && 0 <= r2 < 9 && r1 != r2
    ensures Pattern(r1, c) != Pattern(r2, c)
  {
    Split3(r1);
    Split3(r2);
    Mod9(3 * (r1 % 3) + r1 / 3 + c);
    Mod9(3 * (r2 % 3) + r2 / 3 + c);
  }

  lemma PatternBoxesDistinct(r1: int, c1: int, r2: int, c2: int)
    requires 0 <= r1 < 9 && 0 <= c1 < 9 && 0 <= r2 < 9 && 0 <= c2 < 9
    requires (r1, c1) != (r2, c2) && SameBox(r1, c1, r2, c2)
    ensures Pattern(r1, c1) != Pattern(r2, c2)
  {
    var p, q := r1 / 3, c1 / 3;
    var a1, a2, d1, d2 := r1 % 3, r2 % 3, c1 % 3, c2 % 3;
    assert r1 == 3 * p + a1 && r2 == 3 * p + a2;
    assert c1 == 3 * q + d1 && c2 == 3 * q + d2;
    Mod9(3 * (a1 + q) + d1 + p);
    Mod9(3 * (a2 + q) + d2 + p);
  }

  /** The empty grid is solvable, so filling it never fails. */
  lemma EmptySolvable()
    ensures Solvable(EmptyBoard())
  {
    var s := seq(9, r => seq(9, c => Pattern(r, c)));
    assert IsBoard(s);
    forall r, c1, c2 | 0 <= r < 9 && 0 <= c1 < 9 && 0 <= c2 < 9 && c1 != c2
      ensures s[r][c1] != s[r][c2]
    {
      PatternRowsDistinct(r, c1, c2);
    }
    forall c, r1, r2 | 0 <= c < 9 && 0 <= r1 < 9 && 0 <= r2 < 9 && r1 != r2
      ensures s[r1][c] != s[r2][c]
    {
      PatternColsDistinct(c, r1, r2);
    }
    forall r1, c1, r2, c2 | 0 <= r1 < 9 && 0 <= c1 < 9 && 0 <= r2 < 9 && 0 <= c2 < 9
      && (r1, c1) != (r2, c2) && SameBox(r1, c1, r2, c2)
      ensures s[r1][c1] != s[r2][c2]
    {
      PatternBoxesDistinct(r1, c1, r2, c2);
    }
    assert ConflictFree(s);
    assert Extends(EmptyBoard(), s);
    assert IsSolution(EmptyBoard(), s);
  }

  /**
   * `generateCompleteGrid`: a fresh grid of empty cells, filled by
   * `fillGrid`, whose result is ignored. Since the empty grid is solvable,
   * the fill succeeds and the grid is a complete, conflict-free board of
   * digits.
   */
  method GenerateCompleteGrid(rand: nat -> real, pos: nat) returns (grid: array2<int>, next: nat)
    requires IsSource(rand)
    ensures fresh(grid) && IsGrid(grid) && pos <= next
    ensures IsSolution(EmptyBoard(), Cells(grid))
  {
    grid := new int[9, 9]((r, c) => 0);
    SameCells(Cells(grid), EmptyBoard());
    EmptySolvable();
    assert ConflictFree(EmptyBoard());
    var filled;
    filled, next := FillGrid(grid, rand, pos);
    assert filled;
  }

  // ---------------------------------------------------------------------
  // `generatePuzzle`
  // ---------------------------------------------------------------------

  datatype Difficulty = Easy | Medium | Hard

  /** The number of cells `generatePuzzle` empties at each difficulty. */
  function CellsToRemove(d: Difficulty): (n: nat)
    ensures 40 <= n <= 60
  {
    match d
    case Easy => 40
    case Medium => 50
    case Hard => 60
  }

  /** The pair `generatePuzzle` returns. */
  datatype Generated = Generated(puzzle: array2<int>, solution: array2<int>)

  /** Emptying a filled cell leaves one empty cell more. */
  lemma ZerosAfterClearing(b: Board, r: int, c: int)
    requires IsBoard(b) && 0 <= r < 9 && 0 <= c < 9 && b[r][c] != 0
    ensures Zeros(b[r := b[r][c := 0]]) == Zeros(b) + 1
  {
    CountUpdate(b, r, c, 0, IsZero);
  }

  /** Emptying a filled cell of a puzzle keeps its solutions and adds one empty cell. */
  lemma ClearingKeepsSolution(b: Board, s: Board, r: int, c: int)
    requires IsBoard(b) && 0 <= r < 9 && 0 <= c < 9 && 1 <= b[r][c] <= 9
    requires IsSolution(b, s)
    ensures IsSolution(b[r := b[r][c := 0]], s)
    ensures Zeros(b[r := b[r][c := 0]]) == Zeros(b) + 1
  {
    ZerosAfterClearing(b, r, c);
  }

  /** The filled cells of a puzzle that has a solution do not conflict. */
  lemma SolvableConflictFree(b: Board, s: Board)
    requires IsBoard(b) && IsSolution(b, s)
    ensures ConflictFree(b)
  {
  }

  /** `solution.map(row => [...row])`: a fresh grid holding the same board. */
  method CopyGrid(grid: array2<int>) returns (copy: array2<int>)
    requires IsGrid(grid)
    ensures fresh(copy) && IsGrid(copy) && Cells(copy) == Cells(grid)
  {
    copy := new int[9, 9]((r, c) requires 0 <= r < 9 && 0 <= c < 9 reads grid => grid[r, c]);
    SameCells(Cells(copy), Cells(grid));
  }

  /** The cell the k-th pick of the carving loop selects: its row from draw `pos + 2k`, its column from the next draw. */
  function CarvePick(rand: nat -> real, pos: nat, k: nat): (p: (int, int))
    requires IsSource(rand)
    ensures 0 <= p.0 < 9 && 0 <= p.1 < 9
  {
    (Pick(rand(pos + 2 * k), 9), Pick(rand(pos + 2 * k + 1), 9))
  }

  /** The cells the first n picks of the carving loop select. */
  function CarvePicks(rand: nat -> real, pos: nat, n: nat): set<(int, int)>
    requires IsSource(rand)
  {
    if n == 0 then {} else CarvePicks(rand, pos, n - 1) + {CarvePick(rand, pos, n - 1)}
  }

  /** More picks never select fewer cells. */
  lemma {:induction false} CarvePicksGrow(rand: nat -> real, pos: nat, m: nat, n: nat)
    requires IsSource(rand) && m <= n
    ensures |CarvePicks(rand, pos, m)| <= |CarvePicks(rand, pos, n)|
    decreases n - m
  {
    if m < n {
      CardAddOne(CarvePicks(rand, pos, m), CarvePick(rand, pos, m));
      CarvePicksGrow(rand, pos, m + 1, n);
    }
  }

  /** A cell that none of the first n picks selects is not among their cells. */
  lemma {:induction false} NotPicked(rand: nat -> real, pos: nat, n: nat, p: (int, int))
    requires IsSource(rand)
    requires forall j :: 0 <= j < n ==> CarvePick(rand, pos, j) != p
    ensures p !in CarvePicks(rand, pos, n)
  {
    if n > 0 {
      NotPicked(rand, pos, n - 1, p);
    }
  }

  /** When the first n picks select n different cells, they select n cells. */
  lemma {:induction false} DistinctPicks(rand: nat -> real, pos: nat, n: nat)
    requires IsSource(rand)
    requires forall i, j :: 0 <= i < j < n ==> CarvePick(rand, pos, i) != CarvePick(rand, pos, j)
    ensures |CarvePicks(rand, pos, n)| == n
  {
    if n > 0 {
      DistinctPicks(rand, pos, n - 1);
      NotPicked(rand, pos, n - 1, CarvePick(rand, pos, n - 1));
    }
  }

  /**
   * The state of the carving loop after `tries` picks: the puzzle still has
   * the solution s, and its empty cells are exactly the `removed` different
   * cells picked so far.
   */
  ghost predicate CarvedSoFar(puzzle: array2<int>, s: Board, rand: nat -> real, pos: nat, tries: nat, removed: nat)
    reads puzzle
  {
    && IsGrid(puzzle) && IsSource(rand)
    && IsSolution(Cells(puzzle), s) && Extends(EmptyBoard(), s)
    && Zeros(Cells(puzzle)) == removed
    && removed == |CarvePicks(rand, pos, tries)|
    && forall r, c :: 0 <= r < 9 && 0 <= c < 9 ==> (puzzle[r, c] == 0 <==> (r, c) in CarvePicks(rand, pos, tries))
  }

  /** One pick of the carving loop: the picked cell is emptied if it is filled. */
  method CarveOne(puzzle: array2<int>, ghost s: Board, rand: nat -> real, pos: nat, tries: nat, removed: nat)
    returns (removed': nat)
    requires CarvedSoFar(puzzle, s, rand, pos, tries, removed)
    modifies puzzle
    ensures CarvedSoFar(puzzle, s, rand, pos, tries + 1, removed')
    ensures removed' <= removed + 1
  {
    removed' := removed;
    var row := Pick(rand(pos + 2 * tries), 9);
    var col := Pick(rand(pos + 2 * tries + 1), 9);
    assert (row, col) == CarvePick(rand, pos, tries);
    assert CarvePicks(rand, pos, tries + 1) == CarvePicks(rand, pos, tries) + {(row, col)};
    CardAddOne(CarvePicks(rand, pos, tries), (row, col));
    if puzzle[row, col] != 0 {
      ghost var b := Cells(puzzle);
      assert 1 <= s[row][col] <= 9;
      puzzle[row, col] := 0;
      SameCells(Cells(puzzle), b[row := b[row][col := 0]]);
      ClearingKeepsSolution(b, s, row, col);
      removed' := removed' + 1;
    }
  }

  /**
   * The carving loop of `generatePuzzle`: each pick draws a row and a
   * column and empties that cell if it is filled, until `target` cells are
   * empty; at most `attempts` picks are made. The board keeps its solution
   * `s` throughout. It succeeds exactly when those picks select at least
   * `target` different cells.
   */
  method Carve(puzzle: array2<int>, ghost s: Board, target: nat, rand: nat -> real, pos: nat, attempts: nat)
    returns (ok: bool)
    requires IsGrid(puzzle) && IsSource(rand)
    requires IsSolution(Cells(puzzle), s) && Extends(EmptyBoard(), s) && Zeros(Cells(puzzle)) == 0
    modifies puzzle
    ensures IsSolution(Cells(puzzle), s)
    ensures ok ==> Zeros(Cells(puzzle)) == target && target <= attempts
    ensures ok <==> target <= |CarvePicks(rand, pos, attempts)|
  {
    var removed: nat := 0;
    var tries: nat := 0;
    CountNone(Cells(puzzle), IsZero);
    assert CarvedSoFar(puzzle, s, rand, pos, 0, 0);
    while removed < target
      invariant removed <= target && removed <= tries <= attempts
      invariant CarvedSoFar(puzzle, s, rand, pos, tries, removed)
      decreases attempts - tries
    {
      if tries == attempts {
        return false;
      }
      removed := CarveOne(puzzle, s, rand, pos, tries, removed);
      tries := tries + 1;
    }
    CarvePicksGrow(rand, pos, tries, attempts);
    return true;
  }

  /**
   * `generatePuzzle`: a completed grid as the solution and a copy of it as
   * the puzzle, from which `CellsToRemove(d)` cells are emptied. The draws
   * of the carving loop follow those of `generateCompleteGrid` in the same
   * stream. The TypeScript engine draws until it succeeds; here at most `attempts`
   * picks are made, and None reports that they ran out.
   */
  method GeneratePuzzle(d: Difficulty, rand: nat -> real, pos: nat, attempts: nat)
    returns (result: Option<Generated>, ghost carveFrom: nat)
    requires IsSource(rand)
    ensures pos <= carveFrom
    ensures result.Some? <==> CellsToRemove(d) <= |CarvePicks(rand, carveFrom, attempts)|
    ensures result.Some? ==>
      var puzzle, solution := result.value.puzzle, result.value.solution;
      && fresh(puzzle) && fresh(solution) && puzzle != solution
      && IsGrid(puzzle) && IsGrid(solution)
      && IsSolution(EmptyBoard(), Cells(solution))
      && IsSolution(Cells(puzzle), Cells(solution))
      && Zeros(Cells(puzzle)) == CellsToRemove(d)
    ensures result.Some? ==> CellsToRemove(d) <= attempts
  {
    var solution, next := GenerateCompleteGrid(rand, pos);
    var puzzle := CopyGrid(solution);
    ghost var s := Cells(solution);
    ExtendsComplete(EmptyBoard(), s);
    CompleteIffNoZeros(s);
    assert IsSolution(Cells(puzzle), s);
    carveFrom := next;
    var ok := Carve(puzzle, s, CellsToRemove(d), rand, next, attempts);
    if !ok {
      return None, carveFrom;
    }
    return Some(Generated(puzzle, solution)), carveFrom;
  }

  // ---------------------------------------------------------------------
  // `isGridValid`
  // ---------------------------------------------------------------------

  /** No value other than 0 occurs twice in s. */
  predicate NoRepeat(s: seq<int>) {
    forall i, j :: 0 <= i < |s| && 0 <= j < |s| && i != j && s[i] != 0 ==> s[i] != s[j]
  }

  /** No value occurs twice in t. */
  predicate Distinct(t: seq<int>) {
    forall i, j :: 0 <= i < j < |t| ==> t[i] != t[j]
  }

  /** `.filter(n => n !== 0)`: the values of s other than 0, in order. */
  function NonZero(s: seq<int>): (t: seq<int>)
    ensures |t| <= |s|
    ensures forall x :: x in t <==> x in s && x != 0
  {
    if |s| == 0 then []
    else NonZero(s[..|s| - 1]) + (if s[|s| - 1] != 0 then [s[|s| - 1]] else [])
  }

  /** `new Set(t)`: the values t holds. */
  function Elements(t: seq<int>): set<int> {
    set x | x in t
  }

  lemma DistinctSnoc(t: seq<int>, y: int)
    ensures Distinct(t + [y]) <==> Distinct(t) && y !in t
  {
    var u := t + [y];
    if Distinct(t) && y !in t {
      forall i, j | 0 <= i < j < |u|
        ensures u[i] != u[j]
      {
        if j == |t| {
          assert u[i] == t[i];
        }
      }
    }
    if Distinct(u) {
      assert forall i, j :: 0 <= i < j < |t| ==> t[i] == u[i] && t[j] == u[j];
      forall i | 0 <= i < |t|
        ensures t[i] != y
      {
        assert u[i] == t[i] && u[|t|] == y;
      }
    }
  }

  lemma NoRepeatSnoc(s: seq<int>, y: int)
    ensures NoRepeat(s + [y]) <==> NoRepeat(s) && (y != 0 ==> y !in s)
  {
    var u := s + [y];
    assert forall i :: 0 <= i < |s| ==> u[i] == s[i];
    if y != 0 && y in s {
      var i :| 0 <= i < |s| && s[i] == y;
      assert u[|s|] == u[i];
    }
  }

  /** The set of t's values is as large as t exactly when t has no repeated value. */
  lemma {:induction false} ElementsSize(t: seq<int>)
    ensures |Elements(t)| <= |t|
    ensures |Elements(t)| == |t| <==> Distinct(t)
  {
    if |t| > 0 {
      var t', y := t[..|t| - 1], t[|t| - 1];
      assert t == t' + [y];
      ElementsSize(t');
      DistinctSnoc(t', y);
      assert Elements(t) == Elements(t') + {y};
      if y in t' {
        assert Elements(t) == Elements(t');
      }
    }
  }

  /** The filtered values are distinct exactly when no value other than 0 repeats. */
  lemma {:induction false} NonZeroDistinct(s: seq<int>)
    ensures Distinct(NonZero(s)) <==> NoRepeat(s)
  {
    if |s| > 0 {
      var s', y := s[..|s| - 1], s[|s| - 1];
      assert s == s' + [y];
      NonZeroDistinct(s');
      NoRepeatSnoc(s', y);
      if y != 0 {
        assert NonZero(s) == NonZero(s') + [y];
        DistinctSnoc(NonZero(s'), y);
      } else {
        assert NonZero(s) == NonZero(s');
      }
    }
  }

  /** Column c of b, top to bottom. */
  function Column(b: Board, c: int): (col: seq<int>)
    requires IsBoard(b) && 0 <= c < 9
    ensures |col| == 9 && forall r :: 0 <= r < 9 ==> col[r] == b[r][c]
  {
    seq(9, r requires 0 <= r < 9 => b[r][c])
  }

  /** Box (br, bc) of b, row by row. */
  function Box(b: Board, br: int, bc: int): (box: seq<int>)
    requires IsBoard(b) && 0 <= br < 3 && 0 <= bc < 3
    ensures |box| == 9
  {
    seq(9, k requires 0 <= k < 9 => b[br * 3 + k / 3][bc * 3 + k % 3])
  }

  /** Position i * 3 + j of box (br, bc) is cell (br * 3 + i, bc * 3 + j). */
  lemma BoxAt(b: Board, br: int, bc: int, i: int, j: int)
    requires IsBoard(b) && 0 <= br < 3 && 0 <= bc < 3 && 0 <= i < 3 && 0 <= j < 3
    ensures Box(b, br, bc)[i * 3 + j] == b[br * 3 + i][bc * 3 + j]
  {
    Within3(i, j);
  }

  lemma RowsNoRepeat(b: Board)
    requires IsBoard(b)
    ensures RowsDistinct(b) <==> forall r :: 0 <= r < 9 ==> NoRepeat(b[r])
  {
  }

  lemma ColsNoRepeat(b: Board)
    requires IsBoard(b)
    ensures ColsDistinct(b) <==> forall c :: 0 <= c < 9 ==> NoRepeat(Column(b, c))
  {
    if forall c :: 0 <= c < 9 ==> NoRepeat(Column(b, c)) {
      forall c, r1, r2 | 0 <= c < 9 && 0 <= r1 < 9 && 0 <= r2 < 9 && r1 != r2 && b[r1][c] != 0
        ensures b[r1][c] != b[r2][c]
      {
        assert Column(b, c)[r1] == b[r1][c] && Column(b, c)[r2] == b[r2][c];
      }
    }
  }

  /** Distinct positions of a box are distinct cells of the same box. */
  lemma BoxCells(br: int, bc: int, i: int, j: int)
    requires 0 <= br < 3 && 0 <= bc < 3 && 0 <= i < 9 && 0 <= j < 9 && i != j
    ensures var r1, c1, r2, c2 := br * 3 + i / 3, bc * 3 + i % 3, br * 3 + j / 3, bc * 3 + j % 3;
      0 <= r1 < 9 && 0 <= c1 < 9 && 0 <= r2 < 9 && 0 <= c2 < 9
      && (r1, c1) != (r2, c2) && SameBox(r1, c1, r2, c2)
  {
    Split3(i);
    Split3(j);
    Within3(br, i / 3);
    Within3(br, j / 3);
    Within3(bc, i % 3);
    Within3(bc, j % 3);
  }

  lemma Split3(k: int)
    requires 0 <= k < 9
    ensures 0 <= k / 3 < 3 && 0 <= k % 3 < 3 && k == k / 3 * 3 + k % 3
  {
  }

  lemma Within3(x: int, q: int)
    requires 0 <= x < 3 && 0 <= q < 3
    ensures (x * 3 + q) / 3 == x && (x * 3 + q) % 3 == q
  {
  }

  /** Filtering one element more appends it when it is not 0. */
  lemma NonZeroStep(s: seq<int>, n: int)
    requires 0 <= n < |s|
    ensures NonZero(s[..n + 1]) == NonZero(s[..n]) + (if s[n] != 0 then [s[n]] else [])
  {
    assert s[..n + 1][..n] == s[..n];
  }

  /** In a board without box conflicts, no box repeats a value other than 0. */
  lemma BoxNoRepeat(b: Board, br: int, bc: int)
    requires IsBoard(b) && BoxesDistinct(b) && 0 <= br < 3 && 0 <= bc < 3
    ensures NoRepeat(Box(b, br, bc))
  {
    forall i, j | 0 <= i < 9 && 0 <= j < 9 && i != j
      ensures Box(b, br, bc)[i] != 0 ==> Box(b, br, bc)[i] != Box(b, br, bc)[j]
    {
      BoxCells(br, bc, i, j);
    }
  }

  /** When no box repeats a value other than 0, two cells of one box never hold the same value. */
  lemma BoxPairDistinct(b: Board, r1: int, c1: int, r2: int, c2: int)
    requires IsBoard(b) && forall br, bc :: 0 <= br < 3 && 0 <= bc < 3 ==> NoRepeat(Box(b, br, bc))
    requires 0 <= r1 < 9 && 0 <= c1 < 9 && 0 <= r2 < 9 && 0 <= c2 < 9
    requires (r1, c1) != (r2, c2) && SameBox(r1, c1, r2, c2) && b[r1][c1] != 0
    ensures b[r1][c1] != b[r2][c2]
  {
    Split3(r1);
    Split3(c1);
    Split3(r2);
    Split3(c2);
    BoxAt(b, r1 / 3, c1 / 3, r1 % 3, c1 % 3);
    BoxAt(b, r1 / 3, c1 / 3, r2 % 3, c2 % 3);
    assert NoRepeat(Box(b, r1 / 3, c1 / 3));
  }

  lemma BoxesNoRepeat(b: Board)
    requires IsBoard(b)
    ensures BoxesDistinct(b) <==> forall br, bc :: 0 <= br < 3 && 0 <= bc < 3 ==> NoRepeat(Box(b, br, bc))
  {
    if BoxesDistinct(b) {
      forall br, bc | 0 <= br < 3 && 0 <= bc < 3
        ensures NoRepeat(Box(b, br, bc))
      {
        BoxNoRepeat(b, br, bc);
      }
    }
    if forall br, bc :: 0 <= br < 3 && 0 <= bc < 3 ==> NoRepeat(Box(b, br, bc)) {
      forall r1, c1, r2, c2 | 0 <= r1 < 9 && 0 <= c1 < 9 && 0 <= r2 < 9 && 0 <= c2 < 9
        && (r1, c1) != (r2, c2) && SameBox(r1, c1, r2, c2) && b[r1][c1] != 0
        ensures b[r1][c1] != b[r2][c2]
      {
        BoxPairDistinct(b, r1, c1, r2, c2);
      }
    }
  }

  /** `new Set(nums).size !== nums.length` negated: nums has no repeated value. */
  method NoDuplicates(nums: seq<int>) returns (ok: bool)
    ensures ok <==> Distinct(nums)
  {
    ElementsSize(nums);
    ok := |Elements(nums)| == |nums|;
  }

  /** The row pass of `isGridValid`. */
  method RowsValid(grid: array2<int>) returns (ok: bool)
    requires IsGrid(grid)
    ensures ok <==> RowsDistinct(Cells(grid))
  {
    ghost var b := Cells(grid);
    RowsNoRepeat(b);
    for row := 0 to 9
      invariant forall r :: 0 <= r < row ==> NoRepeat(b[r])
    {
      var line := seq(9, c requires 0 <= c < 9 reads grid => grid[row, c]);
      assert line == b[row];
      var nums := NonZero(line);
      ok := NoDuplicates(nums);
      NonZeroDistinct(line);
      if !ok {
        return;
      }
    }
    return true;
  }

  /** The column pass of `isGridValid`. */
  method ColsValid(grid: array2<int>) returns (ok: bool)
    requires IsGrid(grid)
    ensures ok <==> ColsDistinct(Cells(grid))
  {
    ghost var b := Cells(grid);
    ColsNoRepeat(b);
    for col := 0 to 9
      invariant forall c :: 0 <= c < col ==> NoRepeat(Column(b, c))
    {
      ghost var line := Column(b, col);
      var nums := [];
      for row := 0 to 9
        invariant nums == NonZero(line[..row])
      {
        NonZeroStep(line, row);
        if grid[row, col] != 0 {
          nums := nums + [grid[row, col]];
        }
      }
      assert line[..9] == line;
      ok := NoDuplicates(nums);
      NonZeroDistinct(line);
      if !ok {
        return;
      }
    }
    return true;
  }

  /** The box pass of `isGridValid`. */
  method BoxesValid(grid: array2<int>) returns (ok: bool)
    requires IsGrid(grid)
    ensures ok <==> BoxesDistinct(Cells(grid))
  {
    ghost var b := Cells(grid);
    BoxesNoRepeat(b);
    for boxRow := 0 to 3
      invariant forall br, bc :: 0 <= br < boxRow && 0 <= bc < 3 ==> NoRepeat(Box(b, br, bc))
    {
      ok := BoxRowValid(grid, boxRow);
      if !ok {
        return;
      }
    }
    return true;
  }

  /** The inner loop of the box pass, over the three boxes of one band. */
  method BoxRowValid(grid: array2<int>, boxRow: int) returns (ok: bool)
    requires IsGrid(grid) && 0 <= boxRow < 3
    ensures ok <==> forall bc :: 0 <= bc < 3 ==> NoRepeat(Box(Cells(grid), boxRow, bc))
  {
    for boxCol := 0 to 3
      invariant forall bc :: 0 <= bc < boxCol ==> NoRepeat(Box(Cells(grid), boxRow, bc))
    {
      ok := BoxValid(grid, boxRow, boxCol);
      if !ok {
        return;
      }
    }
    return true;
  }

  /** One box of the box pass: its nonzero values, collected row by row, do not repeat. */
  method BoxValid(grid: array2<int>, boxRow: int, boxCol: int) returns (ok: bool)
    requires IsGrid(grid) && 0 <= boxRow < 3 && 0 <= boxCol < 3
    ensures ok <==> NoRepeat(Box(Cells(grid), boxRow, boxCol))
  {
    ghost var box := Box(Cells(grid), boxRow, boxCol);
    var nums := [];
    for i := 0 to 3
      invariant nums == NonZero(box[..i * 3])
    {
      for j := 0 to 3
        invariant nums == NonZero(box[..i * 3 + j])
      {
        var val := grid[boxRow * 3 + i, boxCol * 3 + j];
        BoxAt(Cells(grid), boxRow, boxCol, i, j);
        NonZeroStep(box, i * 3 + j);
        if val != 0 {
          nums := nums + [val];
        }
      }
    }
    assert box[..9] == box;
    ok := NoDuplicates(nums);
    NonZeroDistinct(box);
  }

  /**
   * `isGridValid`: the row, column and box passes in turn, stopping at the
   * first unit in which a value other than 0 repeats. It accepts exactly
   * the conflict-free boards.
   */
  method IsGridValid(grid: array2<int>) returns (valid: bool)
    requires IsGrid(grid)
    ensures valid <==> ConflictFree(Cells(grid))
  {
    valid := RowsValid(grid);
    if !valid {
      return;
    }
    valid := ColsValid(grid);
    if !valid {
      return;
    }
    valid := BoxesValid(grid);
  }
}
