/**
 * The 2048 tile-merge engine: a 4×4 grid of tiles, a move that slides and
 * merges every row or column toward one side, the insertion of a random tile
 * into an empty cell, and the two terminal tests.
 *
 * The grid is an `array2<int>`: `AddRandomTile` writes into it in place and
 * `Move` builds a fresh one. What a grid holds is read off as a `Board`, a
 * 4×4 sequence of rows, and every contract is stated on boards.
 */
module Game2048 {
  import opened Chance

  /** The direction in which a move slides the tiles. */
  datatype Direction = Up | Down | Left | Right

  /** The contents of a grid, row by row; 0 is an empty cell. */
  type Board = seq<seq<int>>

  predicate IsBoard(b: Board) {
    |b| == 4 && forall r :: 0 <= r < 4 ==> |b[r]| == 4
  }

  predicate IsGrid(g: array2<int>) {
    g.Length0 == 4 && g.Length1 == 4
  }

  /** The board a grid currently holds. */
  function Cells(g: array2<int>): (b: Board)
    requires IsGrid(g)
    reads g
    ensures IsBoard(b)
    ensures forall r, c :: 0 <= r < 4 && 0 <= c < 4 ==> b[r][c] == g[r, c]
  {
    seq(4, r requires 0 <= r < 4 reads g => seq(4, c requires 0 <= c < 4 reads g => g[r, c]))
  }

  // ---------------------------------------------------------------------
  // Tile values
  // ---------------------------------------------------------------------

  predicate IsPow2(x: int)
    decreases if x > 0 then x else 0
  {
    x == 1 || (x > 1 && x % 2 == 0 && IsPow2(x / 2))
  }

  /** A cell value: 0 for an empty cell, otherwise a power of two no smaller than 2. */
  predicate IsTile(x: int) {
    x == 0 || (x >= 2 && IsPow2(x))
  }

  predicate AllTiles(s: seq<int>) {
    forall i :: 0 <= i < |s| ==> IsTile(s[i])
  }

  predicate IsTileBoard(b: Board) {
    IsBoard(b) && forall r, c :: 0 <= r < 4 && 0 <= c < 4 ==> IsTile(b[r][c])
  }

  // ---------------------------------------------------------------------
  // Sums over a line
  // ---------------------------------------------------------------------

  /** The sum of w over the elements of s. */
  function Total(s: seq<int>, w: int -> int): int {
    if s == [] then 0 else w(s[0]) + Total(s[1..], w)
  }

  function Value(x: int): int { x }

  function Occupancy(x: int): int { if x == 0 then 0 else 1 }

  /** The sum of the tiles of a line. */
  function Sum(s: seq<int>): int { Total(s, Value) }

  /** The number of occupied cells of a line. */
  function Occupied(s: seq<int>): int { Total(s, Occupancy) }

  // ---------------------------------------------------------------------
  // The line kernel, `mergeLine`
  // ---------------------------------------------------------------------

  /** `line.filter(x => x !== 0)`: the tiles of a line in order, without the empty cells. */
  function NonZero(s: seq<int>): (r: seq<int>)
    ensures |r| <= |s|
    ensures forall i :: 0 <= i < |r| ==> r[i] != 0
  {
    if s == [] then []
    else if s[0] == 0 then NonZero(s[1..])
    else [s[0]] + NonZero(s[1..])
  }

  /**
   * The merging pass of `mergeLine` over the compressed tiles: scanning from
   * the front, two equal neighbours become one tile of twice the value, and
   * the scan resumes after both, so a merged tile never merges again.
   */
  function Combine(s: seq<int>): (r: seq<int>)
    ensures |r| <= |s|
    ensures (forall i :: 0 <= i < |s| ==> s[i] != 0) ==> forall i :: 0 <= i < |r| ==> r[i] != 0
  {
    if |s| == 0 then []
    else if |s| >= 2 && s[0] == s[1] then [s[0] * 2] + Combine(s[2..])
    else [s[0]] + Combine(s[1..])
  }

  /** The points of one merging pass: the sum of the tiles its merges produce. */
  function CombineScore(s: seq<int>): int {
    if |s| == 0 then 0
    else if |s| >= 2 && s[0] == s[1] then s[0] * 2 + CombineScore(s[2..])
    else CombineScore(s[1..])
  }

  /** Appends empty cells until the line has four cells. */
  function Pad(s: seq<int>): (r: seq<int>)
    ensures |r| == if |s| < 4 then 4 else |s|
    ensures forall i :: 0 <= i < |r| ==> r[i] == if i < |s| then s[i] else 0
    decreases 4 - |s|
  {
    if |s| < 4 then Pad(s + [0]) else s
  }

  /** The line `mergeLine` returns: compressed, merged once, padded. */
  function Slide(line: seq<int>): (r: seq<int>)
    ensures |line| <= 4 ==> |r| == 4
  {
    Pad(Combine(NonZero(line)))
  }

  /** The score `mergeLine` returns. */
  function SlideScore(line: seq<int>): int {
    CombineScore(NonZero(line))
  }

  /** `arraysEqual`: the same length and the same element at every index. */
  function ArraysEqual(a: seq<int>, b: seq<int>): (r: bool)
    ensures r <==> a == b
  {
    |a| == |b| && forall i :: 0 <= i < |a| ==> a[i] == b[i]
  }

  /** `mergeLine`: one forward pass over the tiles, then padding with empty cells. */
  method MergeLine(line: seq<int>) returns (merged: seq<int>, lineScore: int, lineMoved: bool)
    ensures merged == Slide(line)
    ensures lineScore == SlideScore(line)
    ensures lineMoved <==> merged != line
  {
    var original := line;
    var nonZero := NonZero(line);
    lineScore := 0;
    merged := [];
    var i := 0;
    while i < |nonZero|
      invariant 0 <= i <= |nonZero|
      invariant merged + Combine(nonZero[i..]) == Combine(nonZero)
      invariant lineScore + CombineScore(nonZero[i..]) == CombineScore(nonZero)
    {
      if i < |nonZero| - 1 && nonZero[i] == nonZero[i + 1] {
        var mergedValue := nonZero[i] * 2;
        assert nonZero[i..][2..] == nonZero[i + 2..];
        assert Combine(nonZero[i..]) == [mergedValue] + Combine(nonZero[i + 2..]);
        assert CombineScore(nonZero[i..]) == mergedValue + CombineScore(nonZero[i + 2..]);
        assert (merged + [mergedValue]) + Combine(nonZero[i + 2..]) == merged + ([mergedValue] + Combine(nonZero[i + 2..]));
        merged := merged + [mergedValue];
        lineScore := lineScore + mergedValue;
        i := i + 2;
      } else {
        assert nonZero[i..][1..] == nonZero[i + 1..];
        assert Combine(nonZero[i..]) == [nonZero[i]] + Combine(nonZero[i + 1..]);
        assert CombineScore(nonZero[i..]) == CombineScore(nonZero[i + 1..]);
        assert (merged + [nonZero[i]]) + Combine(nonZero[i + 1..]) == merged + ([nonZero[i]] + Combine(nonZero[i + 1..]));
        merged := merged + [nonZero[i]];
        i := i + 1;
      }
    }
    assert nonZero[i..] == [];
    while |merged| < 4
      invariant Pad(merged) == Slide(line)
      decreases 4 - |merged|
    {
      merged := merged + [0];
    }
    lineMoved := !ArraysEqual(original, merged);
  }

  // ---------------------------------------------------------------------
  // Laws of the line kernel
  // ---------------------------------------------------------------------

  /** Every occupied cell comes before every empty cell. */
  predicate Packed(s: seq<int>) {
    forall i, j :: 0 <= i < j < |s| && s[j] != 0 ==> s[i] != 0
  }

  /** Two equal tiles sit next to each other. */
  predicate HasPair(s: seq<int>) {
    exists i :: 0 <= i < |s| - 1 && s[i] != 0 && s[i] == s[i + 1]
  }

  /** A slid line of a four-cell line has four cells, all tiles first and the empty cells last. */
  lemma SlideShape(line: seq<int>)
    requires |line| <= 4
    ensures |Slide(line)| == 4 && Packed(Slide(line))
  {
    var m := Combine(NonZero(line));
    assert forall i :: 0 <= i < |m| ==> m[i] != 0;
  }

  lemma {:induction false} TotalNonZero(s: seq<int>, w: int -> int)
    requires w(0) == 0
    ensures Total(NonZero(s), w) == Total(s, w)
  {
    if s != [] {
      TotalNonZero(s[1..], w);
      if s[0] != 0 {
        assert ([s[0]] + NonZero(s[1..]))[1..] == NonZero(s[1..]);
      }
    }
  }

  lemma {:induction false} TotalAppendZero(s: seq<int>, w: int -> int)
    requires w(0) == 0
    ensures Total(s + [0], w) == Total(s, w)
  {
    if s == [] {
      assert [0][1..] == [];
    } else {
      assert (s + [0])[1..] == s[1..] + [0];
      TotalAppendZero(s[1..], w);
    }
  }

  lemma {:induction false} TotalPad(s: seq<int>, w: int -> int)
    requires w(0) == 0
    ensures Total(Pad(s), w) == Total(s, w)
    decreases 4 - |s|
  {
    if |s| < 4 {
      TotalPad(s + [0], w);
      TotalAppendZero(s, w);
    }
  }

  lemma {:induction false} SumCombine(s: seq<int>)
    ensures Sum(Combine(s)) == Sum(s)
  {
    if |s| >= 2 && s[0] == s[1] {
      SumCombine(s[2..]);
      assert ([s[0] * 2] + Combine(s[2..]))[1..] == Combine(s[2..]);
      assert s[1..][1..] == s[2..];
      assert Sum(s) == s[0] + s[1] + Sum(s[2..]) by {
        assert Total(s, Value) == s[0] + Total(s[1..], Value);
        assert Total(s[1..], Value) == s[1] + Total(s[2..], Value);
      }
    } else if |s| > 0 {
      SumCombine(s[1..]);
      assert ([s[0]] + Combine(s[1..]))[1..] == Combine(s[1..]);
    }
  }

  lemma {:induction false} OccupiedAllFilled(s: seq<int>)
    requires forall i :: 0 <= i < |s| ==> s[i] != 0
    ensures Occupied(s) == |s|
  {
    if s != [] {
      OccupiedAllFilled(s[1..]);
    }
  }

  /** `mergeLine` keeps the sum of the tiles of a line. */
  lemma SlideSum(line: seq<int>)
    ensures Sum(Slide(line)) == Sum(line)
  {
    TotalPad(Combine(NonZero(line)), Value);
    SumCombine(NonZero(line));
    TotalNonZero(line, Value);
  }

  /** `mergeLine` never adds a tile: the number of occupied cells does not grow. */
  lemma SlideNeverAddsTiles(line: seq<int>)
    ensures Occupied(Slide(line)) <= Occupied(line)
  {
    var nz := NonZero(line);
    TotalPad(Combine(nz), Occupancy);
    OccupiedAllFilled(Combine(nz));
    OccupiedAllFilled(nz);
    TotalNonZero(line, Occupancy);
  }

  lemma {:induction false} Pow2Double(x: int)
    requires IsPow2(x)
    ensures IsPow2(x * 2)
  {
    assert (x * 2) / 2 == x;
  }

  lemma {:induction false} CombineKeepsTiles(s: seq<int>)
    requires forall i :: 0 <= i < |s| ==> s[i] != 0 && IsTile(s[i])
    ensures AllTiles(Combine(s))
  {
    if |s| >= 2 && s[0] == s[1] {
      Pow2Double(s[0]);
      CombineKeepsTiles(s[2..]);
    } else if |s| > 0 {
      CombineKeepsTiles(s[1..]);
    }
  }

  lemma {:induction false} NonZeroKeepsTiles(s: seq<int>)
    requires AllTiles(s)
    ensures AllTiles(NonZero(s))
  {
    if s != [] {
      NonZeroKeepsTiles(s[1..]);
    }
  }

  /** Merging keeps every cell a tile value: empty, or a power of two of at least 2. */
  lemma SlideKeepsTiles(line: seq<int>)
    requires AllTiles(line)
    ensures AllTiles(Slide(line))
  {
    NonZeroKeepsTiles(line);
    CombineKeepsTiles(NonZero(line));
  }

  lemma {:induction false} CombineScoreBounds(s: seq<int>)
    requires forall i :: 0 <= i < |s| ==> s[i] >= 2
    ensures 0 <= CombineScore(s) <= Sum(s)
    ensures CombineScore(s) >= 4 * (|s| - |Combine(s)|)
    ensures CombineScore(s) == 0 <==> |Combine(s)| == |s|
  {
    if |s| >= 2 && s[0] == s[1] {
      CombineScoreBounds(s[2..]);
      assert s[1..][1..] == s[2..];
      assert Sum(s) == s[0] + s[1] + Sum(s[2..]) by {
        assert Total(s, Value) == s[0] + Total(s[1..], Value);
        assert Total(s[1..], Value) == s[1] + Total(s[2..], Value);
      }
    } else if |s| > 0 {
      CombineScoreBounds(s[1..]);
    }
  }

  /**
   * The score of a line is what its merges produce: never negative, at most
   * the sum of its tiles, at least 4 per merge (a merge removes one tile),
   * and 0 exactly when no merge happened.
   */
  lemma SlideScoreBounds(line: seq<int>)
    requires AllTiles(line)
    ensures 0 <= SlideScore(line) <= Sum(line)
    ensures SlideScore(line) >= 4 * (Occupied(line) - Occupied(Slide(line)))
    ensures SlideScore(line) == 0 <==> Occupied(Slide(line)) == Occupied(line)
  {
    var nz := NonZero(line);
    NonZeroKeepsTiles(line);
    CombineScoreBounds(nz);
    TotalNonZero(line, Value);
    TotalNonZero(line, Occupancy);
    OccupiedAllFilled(nz);
    OccupiedAllFilled(Combine(nz));
    TotalPad(Combine(nz), Occupancy);
  }

  /** Each tile merges at most once per pass: [2,2,2,2] gives [4,4,0,0] for 8 points, [2,2,0,0] gives [4,0,0,0] for 4. */
  lemma MergeExamples()
    ensures Slide([2, 2, 2, 2]) == [4, 4, 0, 0] && SlideScore([2, 2, 2, 2]) == 8
    ensures Slide([2, 2, 0, 0]) == [4, 0, 0, 0] && SlideScore([2, 2, 0, 0]) == 4
  {
    assert NonZero([2, 2, 2, 2]) == [2, 2, 2, 2];
    assert [2, 2, 2, 2][2..] == [2, 2];
    assert NonZero([2, 2, 0, 0]) == [2, 2];
  }

  lemma {:induction false} CombineWithoutPair(s: seq<int>)
    requires forall i :: 0 <= i < |s| ==> s[i] != 0
    ensures !HasPair(s) ==> Combine(s) == s
    ensures HasPair(s) ==> |Combine(s)| < |s|
  {
    if |s| >= 2 && s[0] == s[1] {
      assert HasPair(s) by { assert s[0] != 0 && s[0] == s[1]; }
    } else if |s| > 0 {
      CombineWithoutPair(s[1..]);
      if HasPair(s) {
        var i :| 0 <= i < |s| - 1 && s[i] != 0 && s[i] == s[i + 1];
        assert i > 0;
        assert s[1..][i - 1] == s[i] && s[1..][i] == s[i + 1];
        assert HasPair(s[1..]);
      } else {
        assert !HasPair(s[1..]);
      }
    }
  }

  /** In a packed line the tiles are a prefix, the rest is empty. */
  lemma {:induction false} PackedSplit(s: seq<int>)
    requires Packed(s)
    ensures NonZero(s) == s[..|NonZero(s)|]
    ensures forall j :: |NonZero(s)| <= j < |s| ==> s[j] == 0
  {
    if s == [] {
    } else if s[0] == 0 {
      assert forall j :: 0 <= j < |s| ==> s[j] == 0;
      AllEmpty(s);
    } else {
      assert Packed(s[1..]);
      PackedSplit(s[1..]);
      var k := |NonZero(s[1..])|;
      assert [s[0]] + s[1..][..k] == s[..k + 1];
    }
  }

  lemma {:induction false} AllEmpty(s: seq<int>)
    requires forall j :: 0 <= j < |s| ==> s[j] == 0
    ensures NonZero(s) == []
  {
    if s != [] {
      AllEmpty(s[1..]);
    }
  }

  /**
   * `mergeLine` leaves a four-cell line unchanged exactly when its tiles are
   * already packed to the front and no two equal tiles are neighbours, so
   * `lineMoved` is the negation of that.
   */
  lemma SlideFixed(line: seq<int>)
    requires |line| == 4
    ensures Slide(line) == line <==> Packed(line) && !HasPair(line)
  {
    var nz := NonZero(line);
    SlideShape(line);
    if Packed(line) {
      PackedSplit(line);
      var k := |nz|;
      if HasPair(line) {
        var i :| 0 <= i < |line| - 1 && line[i] != 0 && line[i] == line[i + 1];
        assert i + 1 < k;
        assert nz[i] == line[i] && nz[i + 1] == line[i + 1];
        assert HasPair(nz);
        CombineWithoutPair(nz);
        assert |Combine(nz)| < k;
        assert Slide(line)[k - 1] == 0;
      } else {
        assert !HasPair(nz);
        CombineWithoutPair(nz);
        assert Slide(line) == Pad(nz);
      }
    }
  }

  // ---------------------------------------------------------------------
  // Whole-board moves
  // ---------------------------------------------------------------------

  /** The row of element i of line k, when the lines of a move are read toward the motion. */
  function RowAt(dir: Direction, k: int, i: int): int {
    match dir
    case Left => k
    case Right => k
    case Up => i
    case Down => 3 - i
  }

  /** The column of element i of line k, when the lines of a move are read toward the motion. */
  function ColAt(dir: Direction, k: int, i: int): int {
    match dir
    case Left => i
    case Right => 3 - i
    case Up => k
    case Down => k
  }

  /** The line of a move that cell (r, c) belongs to. */
  function LineIndex(dir: Direction, r: int, c: int): int {
    match dir
    case Left => r
    case Right => r
    case Up => c
    case Down => c
  }

  /** The place of cell (r, c) in its line, counted from the side the tiles slide to. */
  function LinePos(dir: Direction, r: int, c: int): int {
    match dir
    case Left => c
    case Right => 3 - c
    case Up => r
    case Down => 3 - r
  }

  /**
   * Line k of a move, read toward the motion: row k for left, row k reversed
   * for right, column k top-down for up, column k bottom-up for down.
   */
  function LineOf(b: Board, dir: Direction, k: int): (s: seq<int>)
    requires IsBoard(b) && 0 <= k < 4
    ensures |s| == 4
  {
    seq(4, i requires 0 <= i < 4 => b[RowAt(dir, k, i)][ColAt(dir, k, i)])
  }

  /** The board after a move: every line replaced by its slid line, put back in place. */
  function MoveBoard(b: Board, dir: Direction): (m: Board)
    requires IsBoard(b)
    ensures IsBoard(m)
  {
    seq(4, r requires 0 <= r < 4 =>
      seq(4, c requires 0 <= c < 4 => Slide(LineOf(b, dir, LineIndex(dir, r, c)))[LinePos(dir, r, c)]))
  }

  /** The points scored by the first n lines of a move. */
  function ScoreOfLines(b: Board, dir: Direction, n: nat): int
    requires IsBoard(b) && n <= 4
  {
    if n == 0 then 0 else ScoreOfLines(b, dir, n - 1) + SlideScore(LineOf(b, dir, n - 1))
  }

  /** The points scored by a move. */
  function MoveScore(b: Board, dir: Direction): int
    requires IsBoard(b)
  {
    ScoreOfLines(b, dir, 4)
  }

  /** Reading line k of a moved board gives the slid line k of the board. */
  lemma MoveLines(b: Board, dir: Direction, k: int)
    requires IsBoard(b) && 0 <= k < 4
    ensures LineOf(MoveBoard(b, dir), dir, k) == Slide(LineOf(b, dir, k))
  {
    var m := MoveBoard(b, dir);
    assert forall i :: 0 <= i < 4 ==> LineOf(m, dir, k)[i] == Slide(LineOf(b, dir, k))[i];
  }

  /** Element i of line k lies on the board, in line k at place i. */
  lemma LineCoords(dir: Direction, k: int, i: int)
    requires 0 <= k < 4 && 0 <= i < 4
    ensures 0 <= RowAt(dir, k, i) < 4 && 0 <= ColAt(dir, k, i) < 4
    ensures LineIndex(dir, RowAt(dir, k, i), ColAt(dir, k, i)) == k
    ensures LinePos(dir, RowAt(dir, k, i), ColAt(dir, k, i)) == i
  {
  }

  /** Cell (r, c) is element `LinePos` of line `LineIndex`. */
  lemma CellCoords(dir: Direction, r: int, c: int)
    requires 0 <= r < 4 && 0 <= c < 4
    ensures 0 <= LineIndex(dir, r, c) < 4 && 0 <= LinePos(dir, r, c) < 4
    ensures RowAt(dir, LineIndex(dir, r, c), LinePos(dir, r, c)) == r
    ensures ColAt(dir, LineIndex(dir, r, c), LinePos(dir, r, c)) == c
  {
  }

  /** A cell the move changes lies on a line the slide changes. */
  lemma MovedCell(b: Board, dir: Direction, r: int, c: int)
    requires IsBoard(b) && 0 <= r < 4 && 0 <= c < 4
    requires MoveBoard(b, dir)[r][c] != b[r][c]
    ensures Slide(LineOf(b, dir, LineIndex(dir, r, c))) != LineOf(b, dir, LineIndex(dir, r, c))
  {
    CellCoords(dir, r, c);
    assert LineOf(b, dir, LineIndex(dir, r, c))[LinePos(dir, r, c)] == b[r][c];
  }

  /** A line the slide changes has a cell the move changes. */
  lemma MovedLine(b: Board, dir: Direction, k: int)
    requires IsBoard(b) && 0 <= k < 4
    requires Slide(LineOf(b, dir, k)) != LineOf(b, dir, k)
    ensures MoveBoard(b, dir) != b
  {
    var line := LineOf(b, dir, k);
    assert exists i :: 0 <= i < 4 && Slide(line)[i] != line[i];
    var i :| 0 <= i < 4 && Slide(line)[i] != line[i];
    LineCoords(dir, k, i);
    var r, c := RowAt(dir, k, i), ColAt(dir, k, i);
    assert MoveBoard(b, dir)[r][c] == Slide(line)[i];
  }

  /** A move changes the board exactly when it changes one of its four lines. */
  lemma MovedIff(b: Board, dir: Direction)
    requires IsBoard(b)
    ensures MoveBoard(b, dir) != b <==> exists k :: 0 <= k < 4 && Slide(LineOf(b, dir, k)) != LineOf(b, dir, k)
  {
    var m := MoveBoard(b, dir);
    if m != b {
      assert exists r :: 0 <= r < 4 && m[r] != b[r];
      var r :| 0 <= r < 4 && m[r] != b[r];
      assert exists c :: 0 <= c < 4 && m[r][c] != b[r][c];
      var c :| 0 <= c < 4 && m[r][c] != b[r][c];
      MovedCell(b, dir, r, c);
      CellCoords(dir, r, c);
    }
    if exists k :: 0 <= k < 4 && Slide(LineOf(b, dir, k)) != LineOf(b, dir, k) {
      var k :| 0 <= k < 4 && Slide(LineOf(b, dir, k)) != LineOf(b, dir, k);
      MovedLine(b, dir, k);
    }
  }

  /** A move keeps every cell a tile value. */
  lemma MoveKeepsTiles(b: Board, dir: Direction)
    requires IsTileBoard(b)
    ensures IsTileBoard(MoveBoard(b, dir))
  {
    forall k | 0 <= k < 4
      ensures AllTiles(Slide(LineOf(b, dir, k)))
    {
      SlideKeepsTiles(LineOf(b, dir, k));
    }
  }

  /** The sum of w over all cells of a board. */
  function BoardTotal(b: Board, w: int -> int): int
    requires IsBoard(b)
  {
    Total(b[0], w) + Total(b[1], w) + Total(b[2], w) + Total(b[3], w)
  }

  /** The sum of w over the four lines of a move. */
  function LinesTotal(b: Board, dir: Direction, w: int -> int): int
    requires IsBoard(b)
  {
    Total(LineOf(b, dir, 0), w) + Total(LineOf(b, dir, 1), w)
      + Total(LineOf(b, dir, 2), w) + Total(LineOf(b, dir, 3), w)
  }

  lemma Total4(s: seq<int>, w: int -> int)
    requires |s| == 4
    ensures Total(s, w) == w(s[0]) + w(s[1]) + w(s[2]) + w(s[3])
  {
    assert Total(s[1..][1..][1..][1..], w) == 0;
    assert Total(s[1..][1..][1..], w) == w(s[3]) + 0;
    assert Total(s[1..][1..], w) == w(s[2]) + w(s[3]);
    assert Total(s[1..], w) == w(s[1]) + w(s[2]) + w(s[3]);
  }

  /** The sum over a line of a move, cell by cell. */
  lemma LineTotals(b: Board, dir: Direction, w: int -> int)
    requires IsBoard(b)
    ensures forall k :: 0 <= k < 4 ==>
      Total(LineOf(b, dir, k), w) == w(b[RowAt(dir, k, 0)][ColAt(dir, k, 0)]) + w(b[RowAt(dir, k, 1)][ColAt(dir, k, 1)])
                                   + w(b[RowAt(dir, k, 2)][ColAt(dir, k, 2)]) + w(b[RowAt(dir, k, 3)][ColAt(dir, k, 3)])
  {
    forall k | 0 <= k < 4
      ensures Total(LineOf(b, dir, k), w) == w(b[RowAt(dir, k, 0)][ColAt(dir, k, 0)]) + w(b[RowAt(dir, k, 1)][ColAt(dir, k, 1)])
                                           + w(b[RowAt(dir, k, 2)][ColAt(dir, k, 2)]) + w(b[RowAt(dir, k, 3)][ColAt(dir, k, 3)])
    {
      Total4(LineOf(b, dir, k), w);
    }
  }

  /** The sum over a row of the board, cell by cell. */
  lemma RowTotals(b: Board, w: int -> int)
    requires IsBoard(b)
    ensures forall r :: 0 <= r < 4 ==> Total(b[r], w) == w(b[r][0]) + w(b[r][1]) + w(b[r][2]) + w(b[r][3])
  {
    forall r | 0 <= r < 4
      ensures Total(b[r], w) == w(b[r][0]) + w(b[r][1]) + w(b[r][2]) + w(b[r][3])
    {
      Total4(b[r], w);
    }
  }

  /** The four lines of a move cover every cell exactly once. */
  lemma LinesCoverBoard(b: Board, dir: Direction, w: int -> int)
    requires IsBoard(b)
    ensures LinesTotal(b, dir, w) == BoardTotal(b, w)
  {
    LineTotals(b, dir, w);
    RowTotals(b, w);
  }

  /** A move keeps the sum of all tiles and never adds a tile to the board. */
  lemma MoveConserves(b: Board, dir: Direction)
    requires IsBoard(b)
    ensures BoardTotal(MoveBoard(b, dir), Value) == BoardTotal(b, Value)
    ensures BoardTotal(MoveBoard(b, dir), Occupancy) <= BoardTotal(b, Occupancy)
  {
    var m := MoveBoard(b, dir);
    LinesCoverBoard(b, dir, Value);
    LinesCoverBoard(m, dir, Value);
    LinesCoverBoard(b, dir, Occupancy);
    LinesCoverBoard(m, dir, Occupancy);
    forall k | 0 <= k < 4
      ensures Total(LineOf(m, dir, k), Value) == Total(LineOf(b, dir, k), Value)
      ensures Total(LineOf(m, dir, k), Occupancy) <= Total(LineOf(b, dir, k), Occupancy)
    {
      MoveLines(b, dir, k);
      SlideSum(LineOf(b, dir, k));
      SlideNeverAddsTiles(LineOf(b, dir, k));
    }
  }

  /** Reads line k of a move off the grid, as each case of `move` builds it. */
  method ReadLine(g: array2<int>, dir: Direction, k: int) returns (line: seq<int>)
    requires IsGrid(g) && 0 <= k < 4
    ensures line == LineOf(Cells(g), dir, k)
  {
    match dir
    case Left => line := [g[k, 0], g[k, 1], g[k, 2], g[k, 3]];
    case Right => line := [g[k, 3], g[k, 2], g[k, 1], g[k, 0]];
    case Up => line := [g[0, k], g[1, k], g[2, k], g[3, k]];
    case Down => line := [g[3, k], g[2, k], g[1, k], g[0, k]];
  }

  /** Writes a merged line back in place of line k, undoing the orientation of `ReadLine`. */
  method WriteLine(g: array2<int>, dir: Direction, k: int, line: seq<int>)
    requires IsGrid(g) && 0 <= k < 4 && |line| == 4
    modifies g
    ensures forall r, c :: 0 <= r < 4 && 0 <= c < 4 ==>
      g[r, c] == if LineIndex(dir, r, c) == k then line[LinePos(dir, r, c)] else old(g[r, c])
  {
    match dir
    case Left =>
      g[k, 0], g[k, 1], g[k, 2], g[k, 3] := line[0], line[1], line[2], line[3];
    case Right =>
      g[k, 0], g[k, 1], g[k, 2], g[k, 3] := line[3], line[2], line[1], line[0];
    case Up =>
      for row := 0 to 4
        invariant forall r, c :: 0 <= r < 4 && 0 <= c < 4 ==>
          g[r, c] == if c == k && r < row then line[r] else old(g[r, c])
      {
        g[row, k] := line[row];
      }
    case Down =>
      for row := 0 to 4
        invariant forall r, c :: 0 <= r < 4 && 0 <= c < 4 ==>
          g[r, c] == if c == k && 3 - r < row then line[3 - r] else old(g[r, c])
      {
        g[3 - row, k] := line[row];
      }
  }

  /** The first k lines of grid g hold the moved lines of b; the others still hold b's lines. */
  ghost predicate PartlyMoved(g: array2<int>, b: Board, dir: Direction, k: int)
    requires IsGrid(g) && IsBoard(b)
    reads g
  {
    forall r, c :: 0 <= r < 4 && 0 <= c < 4 ==>
      g[r, c] == if LineIndex(dir, r, c) < k then MoveBoard(b, dir)[r][c] else b[r][c]
  }

  /**
   * One pass of the loop in `move`: reads line k, merges it, writes it back
   * and reports the line's score and whether it changed.
   */
  method MoveLine(g: array2<int>, dir: Direction, k: int, ghost b: Board) returns (lineScore: int, lineMoved: bool)
    requires IsGrid(g) && IsBoard(b) && 0 <= k < 4
    requires PartlyMoved(g, b, dir, k)
    modifies g
    ensures PartlyMoved(g, b, dir, k + 1)
    ensures lineScore == SlideScore(LineOf(b, dir, k))
    ensures lineMoved <==> Slide(LineOf(b, dir, k)) != LineOf(b, dir, k)
  {
    UnmovedLine(g, b, dir, k);
    var line := ReadLine(g, dir, k);
    var merged;
    merged, lineScore, lineMoved := MergeLine(line);
    WriteLine(g, dir, k, merged);
    forall r, c | 0 <= r < 4 && 0 <= c < 4
      ensures g[r, c] == if LineIndex(dir, r, c) < k + 1 then MoveBoard(b, dir)[r][c] else b[r][c]
    {
    }
  }

  /**
   * `move`: slides every line of a copy of the grid toward the direction,
   * adding up the line scores; `moved` is the disjunction of the lines'
   * `lineMoved`. The input grid is not modified.
   */
  method Move(grid: array2<int>, dir: Direction) returns (newGrid: array2<int>, score: int, moved: bool)
    requires IsGrid(grid)
    ensures fresh(newGrid) && IsGrid(newGrid)
    ensures Cells(newGrid) == MoveBoard(Cells(grid), dir)
    ensures score == MoveScore(Cells(grid), dir)
    ensures moved <==> Cells(newGrid) != Cells(grid)
  {
    ghost var b := Cells(grid);
    newGrid := new int[4, 4]((r, c) reads grid requires 0 <= r < 4 && 0 <= c < 4 => grid[r, c]);
    score := 0;
    moved := false;
    for k := 0 to 4
      invariant PartlyMoved(newGrid, b, dir, k)
      invariant score == ScoreOfLines(b, dir, k)
      invariant moved <==> LinesMoved(b, dir, k)
    {
      var lineScore, lineMoved := MoveLine(newGrid, dir, k, b);
      score := score + lineScore;
      moved := moved || lineMoved;
    }
    FullyMoved(newGrid, b, dir);
    MovedIff(b, dir);
    LinesMovedIff(b, dir, 4);
  }

  /** Some line among the first k lines of a move changes when slid. */
  predicate LinesMoved(b: Board, dir: Direction, k: nat)
    requires IsBoard(b) && k <= 4
  {
    k > 0 && (LinesMoved(b, dir, k - 1) || Slide(LineOf(b, dir, k - 1)) != LineOf(b, dir, k - 1))
  }

  lemma {:induction false} LinesMovedIff(b: Board, dir: Direction, k: nat)
    requires IsBoard(b) && k <= 4
    ensures LinesMoved(b, dir, k) <==> exists j :: 0 <= j < k && Slide(LineOf(b, dir, j)) != LineOf(b, dir, j)
  {
    if k > 0 {
      LinesMovedIff(b, dir, k - 1);
    }
  }

  /** Once all four lines are done, the grid is the moved board. */
  lemma FullyMoved(g: array2<int>, b: Board, dir: Direction)
    requires IsGrid(g) && IsBoard(b) && PartlyMoved(g, b, dir, 4)
    ensures Cells(g) == MoveBoard(b, dir)
  {
    forall r, c | 0 <= r < 4 && 0 <= c < 4
      ensures g[r, c] == MoveBoard(b, dir)[r][c]
    {
      CellCoords(dir, r, c);
    }
    GridIs(g, MoveBoard(b, dir));
  }

  /** A grid whose every cell matches a board is that board. */
  lemma GridIs(g: array2<int>, b: Board)
    requires IsGrid(g) && IsBoard(b)
    requires forall r, c :: 0 <= r < 4 && 0 <= c < 4 ==> g[r, c] == b[r][c]
    ensures Cells(g) == b
  {
    assert forall r :: 0 <= r < 4 ==> Cells(g)[r] == b[r];
  }

  /** A line whose cells still hold the board's values reads as the board's line. */
  lemma UnmovedLine(g: array2<int>, b: Board, dir: Direction, k: int)
    requires IsGrid(g) && IsBoard(b) && 0 <= k < 4
    requires forall r, c :: 0 <= r < 4 && 0 <= c < 4 && LineIndex(dir, r, c) >= k ==> g[r, c] == b[r][c]
    ensures LineOf(Cells(g), dir, k) == LineOf(b, dir, k)
  {
    forall i | 0 <= i < 4
      ensures LineOf(Cells(g), dir, k)[i] == LineOf(b, dir, k)[i]
    {
      LineCoords(dir, k, i);
    }
  }

  // ---------------------------------------------------------------------
  // Terminal tests
  // ---------------------------------------------------------------------

  /** No cell is empty. */
  predicate NoEmpty(b: Board)
    requires IsBoard(b)
  {
    forall r, c :: 0 <= r < 4 && 0 <= c < 4 ==> b[r][c] != 0
  }

  /** No two horizontally or vertically adjacent cells hold the same value. */
  predicate NoEqualNeighbours(b: Board)
    requires IsBoard(b)
  {
    && (forall r, c :: 0 <= r < 4 && 0 <= c < 3 ==> b[r][c] != b[r][c + 1])
    && (forall r, r', c :: 0 <= r < 3 && r' == r + 1 && 0 <= c < 4 ==> b[r][c] != b[r'][c])
  }

  predicate GameOver(b: Board)
    requires IsBoard(b)
  {
    NoEmpty(b) && NoEqualNeighbours(b)
  }

  /** Some cell holds 2048 or more. */
  predicate Won(b: Board)
    requires IsBoard(b)
  {
    exists r, c :: 0 <= r < 4 && 0 <= c < 4 && b[r][c] >= 2048
  }

  /** `isGameOver`: a scan for an empty cell, then for equal horizontal and vertical neighbours. */
  method IsGameOver(grid: array2<int>) returns (over: bool)
    requires IsGrid(grid)
    ensures over <==> GameOver(Cells(grid))
  {
    for row := 0 to 4
      invariant forall r, c :: 0 <= r < row && 0 <= c < 4 ==> grid[r, c] != 0
    {
      for col := 0 to 4
        invariant forall r, c :: 0 <= r < 4 && 0 <= c < 4 && (r < row || (r == row && c < col)) ==> grid[r, c] != 0
      {
        if grid[row, col] == 0 {
          return false;
        }
      }
    }
    for row := 0 to 4
      invariant forall r, c :: 0 <= r < row && 0 <= c < 3 ==> grid[r, c] != grid[r, c + 1]
    {
      for col := 0 to 3
        invariant forall r, c :: 0 <= r < 4 && 0 <= c < 3 && (r < row || (r == row && c < col)) ==> grid[r, c] != grid[r, c + 1]
      {
        if grid[row, col] == grid[row, col + 1] {
          return false;
        }
      }
    }
    for col := 0 to 4
      invariant forall r, c :: 0 <= r < 3 && 0 <= c < col ==> grid[r, c] != grid[r + 1, c]
    {
      for row := 0 to 3
        invariant forall r, c :: 0 <= r < 3 && 0 <= c < 4 && (c < col || (c == col && r < row)) ==> grid[r, c] != grid[r + 1, c]
      {
        if grid[row, col] == grid[row + 1, col] {
          return false;
        }
      }
    }
    return true;
  }

  /** `hasWon`: a scan for a tile of 2048 or more. */
  method HasWon(grid: array2<int>) returns (won: bool)
    requires IsGrid(grid)
    ensures won <==> Won(Cells(grid))
  {
    for row := 0 to 4
      invariant forall r, c :: 0 <= r < row && 0 <= c < 4 ==> grid[r, c] < 2048
    {
      for col := 0 to 4
        invariant forall r, c :: 0 <= r < 4 && 0 <= c < 4 && (r < row || (r == row && c < col)) ==> grid[r, c] < 2048
      {
        if grid[row, col] >= 2048 {
          return true;
        }
      }
    }
    return false;
  }

  /**
   * The game is over exactly when the board is full and no move in any
   * direction changes it.
   */
  lemma GameOverIffStuck(b: Board)
    requires IsBoard(b)
    ensures GameOver(b) <==> NoEmpty(b) && forall dir :: MoveBoard(b, dir) == b
  {
    if GameOver(b) {
      forall dir
        ensures MoveBoard(b, dir) == b
      {
        forall k | 0 <= k < 4
          ensures Slide(LineOf(b, dir, k)) == LineOf(b, dir, k)
        {
          var line := LineOf(b, dir, k);
          assert Packed(line);
          assert !HasPair(line);
          SlideFixed(line);
        }
        MovedIff(b, dir);
      }
    }
    if NoEmpty(b) && forall dir :: MoveBoard(b, dir) == b {
      MovedIff(b, Left);
      MovedIff(b, Up);
      forall r, c | 0 <= r < 4 && 0 <= c < 3
        ensures b[r][c] != b[r][c + 1]
      {
        var line := LineOf(b, Left, r);
        SlideFixed(line);
        assert line[c] == b[r][c] && line[c + 1] == b[r][c + 1];
      }
      forall r, r', c | 0 <= r < 3 && r' == r + 1 && 0 <= c < 4
        ensures b[r][c] != b[r'][c]
      {
        var line := LineOf(b, Up, c);
        SlideFixed(line);
        assert line[r] == b[r][c] && line[r + 1] == b[r + 1][c];
      }
    }
  }

  // ---------------------------------------------------------------------
  // Random tiles
  // ---------------------------------------------------------------------

  /** The empty cells among the first n cells in row-major order, in that order. */
  function EmptyCells(b: Board, n: nat): seq<(int, int)>
    requires IsBoard(b) && n <= 16
  {
    if n == 0 then []
    else
      var r, c := (n - 1) / 4, (n - 1) % 4;
      EmptyCells(b, n - 1) + (if b[r][c] == 0 then [(r, c)] else [])
  }

  /** The list holds exactly the empty cells among the first n cells. */
  lemma {:induction false} EmptyCellsExact(b: Board, n: nat)
    requires IsBoard(b) && n <= 16
    ensures forall j :: 0 <= j < |EmptyCells(b, n)| ==>
      var p := EmptyCells(b, n)[j];
      0 <= p.0 < 4 && 0 <= p.1 < 4 && p.0 * 4 + p.1 < n && b[p.0][p.1] == 0
    ensures forall r, c :: 0 <= r < 4 && 0 <= c < 4 && r * 4 + c < n && b[r][c] == 0 ==> (r, c) in EmptyCells(b, n)
  {
    if n > 0 {
      EmptyCellsExact(b, n - 1);
      assert (n - 1) / 4 * 4 + (n - 1) % 4 == n - 1;
    }
  }

  /** The empty cell that a draw u selects: `emptyCells[Math.floor(u * emptyCells.length)]`. */
  function Chosen(b: Board, u: real): (p: (int, int))
    requires IsBoard(b) && IsDraw(u) && |EmptyCells(b, 16)| > 0
    ensures 0 <= p.0 < 4 && 0 <= p.1 < 4 && b[p.0][p.1] == 0
  {
    var cells := EmptyCells(b, 16);
    EmptyCellsExact(b, 16);
    cells[Pick(u, |cells|)]
  }

  /** The value of a new tile: 2 when the draw is below 0.9, otherwise 4. */
  function NewTile(v: real): (t: int)
    ensures t == 2 || t == 4
  {
    if v < 0.9 then 2 else 4
  }

  /** The scan at the start of `addRandomTile`: the empty cells, row by row. */
  method CollectEmpty(grid: array2<int>) returns (emptyCells: seq<(int, int)>)
    requires IsGrid(grid)
    ensures emptyCells == EmptyCells(Cells(grid), 16)
  {
    ghost var b := Cells(grid);
    emptyCells := [];
    for row := 0 to 4
      invariant emptyCells == EmptyCells(b, row * 4)
    {
      for col := 0 to 4
        invariant emptyCells == EmptyCells(b, row * 4 + col)
      {
        assert (row * 4 + col) / 4 == row && (row * 4 + col) % 4 == col;
        if grid[row, col] == 0 {
          emptyCells := emptyCells + [(row, col)];
        }
      }
    }
  }

  /**
   * `addRandomTile`: collects the empty cells in row-major order, lets draw u
   * choose one and draw v choose its value, and writes it into the grid.
   */
  method AddRandomTile(grid: array2<int>, u: real, v: real) returns (added: bool)
    requires IsGrid(grid) && IsDraw(u) && IsDraw(v)
    modifies grid
    ensures added <==> exists r, c :: 0 <= r < 4 && 0 <= c < 4 && old(grid[r, c]) == 0
    ensures !added ==> Cells(grid) == old(Cells(grid))
    ensures added ==>
      && |EmptyCells(old(Cells(grid)), 16)| > 0
      && var p := Chosen(old(Cells(grid)), u);
      && grid[p.0, p.1] == NewTile(v)
      && forall r, c :: 0 <= r < 4 && 0 <= c < 4 && (r, c) != p ==> grid[r, c] == old(grid[r, c])
  {
    ghost var b := Cells(grid);
    var emptyCells := CollectEmpty(grid);
    EmptyCellsExact(b, 16);
    if |emptyCells| == 0 {
      assert forall r, c :: 0 <= r < 4 && 0 <= c < 4 ==> b[r][c] != 0;
      return false;
    }
    var (row, col) := emptyCells[Pick(u, |emptyCells|)];
    grid[row, col] := if v < 0.9 then 2 else 4;
    return true;
  }

  /** A cell value a fresh game starts with. */
  predicate IsSeed(x: int) {
    x == 2 || x == 4
  }

  /** `initializeGrid`: an empty grid with two random tiles added. */
  method InitializeGrid(u1: real, v1: real, u2: real, v2: real) returns (grid: array2<int>)
    requires IsDraw(u1) && IsDraw(v1) && IsDraw(u2) && IsDraw(v2)
    ensures fresh(grid) && IsGrid(grid)
    ensures exists r1, c1, r2, c2 ::
      && 0 <= r1 < 4 && 0 <= c1 < 4 && 0 <= r2 < 4 && 0 <= c2 < 4 && (r1, c1) != (r2, c2)
      && IsSeed(grid[r1, c1]) && IsSeed(grid[r2, c2])
      && forall r, c :: 0 <= r < 4 && 0 <= c < 4 && (r, c) != (r1, c1) && (r, c) != (r2, c2) ==> grid[r, c] == 0
  {
    grid := new int[4, 4]((r, c) => 0);
    ghost var b0 := Cells(grid);
    assert b0[0][0] == 0;
    var added := AddRandomTile(grid, u1, v1);
    ghost var p1 := Chosen(b0, u1);
    ghost var b1 := Cells(grid);
    ghost var spare := if p1 != (0, 0) then (0, 0) else (0, 1);
    assert b1[spare.0][spare.1] == 0;
    added := AddRandomTile(grid, u2, v2);
    ghost var p2 := Chosen(b1, u2);
    assert p2 != p1;
    assert IsSeed(grid[p1.0, p1.1]) && IsSeed(grid[p2.0, p2.1]);
  }
}
