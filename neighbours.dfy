/** The 8-neighbourhood of a cell, clipped at the edges of the board (no
    wrap-around), and the adjacency count placed in every safe cell. */
module Neighbours {
  import opened Grid

  /** (a, b) is one of the eight squares around (i, j). */
  predicate Adjacent(i: int, j: int, a: int, b: int) {
    i - 1 <= a <= i + 1 && j - 1 <= b <= j + 1 && !(a == i && b == j)
  }

  /** The mines among the in-bounds neighbours of (i, j). */
  ghost function MineNeighbours(g: Board, i: int, j: int): set<Pos> {
    set a, b | 0 <= a < |g| && 0 <= b < |g[a]| && Adjacent(i, j, a, b) && g[a][b].isMine :: Pos(a, b)
  }

  /** The eight squares around (i, j), whether on the board or not. */
  ghost function Ring(i: int, j: int): set<Pos> {
    {Pos(i - 1, j - 1), Pos(i - 1, j), Pos(i - 1, j + 1), Pos(i, j - 1),
     Pos(i, j + 1), Pos(i + 1, j - 1), Pos(i + 1, j), Pos(i + 1, j + 1)}
  }

  /** How many mines touch (i, j): never more than eight. */
  ghost function AdjacentMines(g: Board, i: int, j: int): (n: nat)
    ensures n <= 8
  {
    var s := MineNeighbours(g, i, j);
    assert s <= Ring(i, j);
    SubsetCard(s, Ring(i, j));
    RingCard(i, j);
    |s|
  }

  /** A count of zero means that no in-bounds neighbour is a mine, and conversely. */
  lemma ZeroMeansNoMine(g: Board, i: int, j: int)
    ensures AdjacentMines(g, i, j) == 0 <==>
            forall a, b :: InGrid(g, a, b) && Adjacent(i, j, a, b) ==> !g[a][b].isMine
  {
    var s := MineNeighbours(g, i, j);
    if s != {} {
      var p :| p in s;
      assert InGrid(g, p.row, p.col) && Adjacent(i, j, p.row, p.col) && g[p.row][p.col].isMine;
    } else {
      forall a, b | InGrid(g, a, b) && Adjacent(i, j, a, b) ensures !g[a][b].isMine {
        assert Pos(a, b) !in s;
      }
    }
  }

  lemma RingCard(i: int, j: int)
    ensures |Ring(i, j)| <= 8
  {
  }

  lemma {:induction false} SubsetCard(s: set<Pos>, t: set<Pos>)
    requires s <= t
    ensures |s| <= |t|
  {
    if s != {} {
      var x :| x in s;
      SubsetCard(s - {x}, t - {x});
    }
  }

  /** Every safe cell holds the exact number of mines around it. */
  ghost predicate CountsCorrect(g: Board) {
    forall i, j :: InGrid(g, i, j) && !g[i][j].isMine ==> g[i][j].adjacentMines == AdjacentMines(g, i, j)
  }

  /** Every neighbour of a safe cell showing zero is safe. */
  ghost predicate SafeZeros(g: Board) {
    forall i, j, a, b ::
      InGrid(g, i, j) && InGrid(g, a, b) && Adjacent(i, j, a, b) && !g[i][j].isMine && g[i][j].adjacentMines == 0
      ==> !g[a][b].isMine
  }

  /** The two boards hold their mines at the same places. */
  ghost predicate SameMines(g: Board, h: Board) {
    SameShape(g, h) && forall i, j :: InGrid(g, i, j) ==> g[i][j].isMine == h[i][j].isMine
  }

  /** A cell's adjacency count depends only on where the mines are. */
  lemma AdjacentMinesFromMines(g: Board, h: Board, i: int, j: int)
    requires SameMines(g, h)
    ensures AdjacentMines(g, i, j) == AdjacentMines(h, i, j)
  {
    assert MineNeighbours(g, i, j) == MineNeighbours(h, i, j);
  }

  /** Correct counts stay correct when only non-mine fields change. */
  lemma CountsCorrectKept(g: Board, h: Board)
    requires CountsCorrect(g) && SameMines(g, h)
    requires forall i, j :: InGrid(g, i, j) ==> h[i][j].adjacentMines == g[i][j].adjacentMines
    ensures CountsCorrect(h)
  {
    forall i, j | InGrid(h, i, j) && !h[i][j].isMine
      ensures h[i][j].adjacentMines == AdjacentMines(h, i, j)
    {
      AdjacentMinesFromMines(g, h, i, j);
    }
  }

  /** With correct counts, a safe cell showing zero has no mine around it. */
  lemma CountsGiveSafeZeros(g: Board)
    requires CountsCorrect(g)
    ensures SafeZeros(g)
  {
    forall i, j, a, b | InGrid(g, i, j) && InGrid(g, a, b) && Adjacent(i, j, a, b)
        && !g[i][j].isMine && g[i][j].adjacentMines == 0
      ensures !g[a][b].isMine
    {
      ZeroMeansNoMine(g, i, j);
    }
  }

  /** The mines around (i, j) met before (r, c) when the clipped window is scanned row by row. */
  ghost function MinesBefore(g: Board, i: int, j: int, r: int, c: int): set<Pos> {
    set a, b | 0 <= a < |g| && 0 <= b < |g[a]| && Adjacent(i, j, a, b) && g[a][b].isMine
                 && (a < r || (a == r && b < c)) :: Pos(a, b)
  }

  /** Scanning one more square adds it if it is a mine around (i, j), and nothing else. */
  lemma MinesBeforeStep(g: Board, i: int, j: int, r: int, c: int)
    ensures Pos(r, c) !in MinesBefore(g, i, j, r, c)
    ensures MinesBefore(g, i, j, r, c + 1) ==
            MinesBefore(g, i, j, r, c) + if InGrid(g, r, c) && Adjacent(i, j, r, c) && g[r][c].isMine then {Pos(r, c)} else {}
  {
  }

  /** The same step, counted. */
  lemma MinesBeforeCount(g: Board, i: int, j: int, r: int, c: int)
    ensures |MinesBefore(g, i, j, r, c + 1)| ==
            |MinesBefore(g, i, j, r, c)| + if InGrid(g, r, c) && Adjacent(i, j, r, c) && g[r][c].isMine then 1 else 0
  {
    MinesBeforeStep(g, i, j, r, c);
  }

  /** Within row r, the squares left of the clipped window hold no neighbour. */
  lemma MinesBeforeRowStart(g: Board, i: int, j: int, r: int)
    ensures MinesBefore(g, i, j, r, Max(0, j - 1)) == MinesBefore(g, i, j, r, j - 1)
  {
  }

  /** Past the clipped window's last column, row r is finished. */
  lemma MinesBeforeRowEnd(g: Board, i: int, j: int, r: int, c: int, cols: int)
    requires Rect(g, |g|, cols)
    requires c > j + 1 || c >= cols
    ensures MinesBefore(g, i, j, r, c) == MinesBefore(g, i, j, r + 1, j - 1)
  {
  }

  /** Past the clipped window's last row, every neighbour has been seen. */
  lemma MinesBeforeAll(g: Board, i: int, j: int, r: int)
    requires r > i + 1 || r >= |g|
    ensures MinesBefore(g, i, j, r, j - 1) == MineNeighbours(g, i, j)
  {
  }

  /** Before the clipped window's first row, nothing has been seen. */
  lemma MinesBeforeNone(g: Board, i: int, j: int)
    ensures MinesBefore(g, i, j, Max(0, i - 1), j - 1) == {}
  {
  }

  /** The board `placeMines` leaves: exactly `mines` mines, none at the first click (fi, fj), every
      safe cell holding its exact count, nothing revealed, no flag. */
  ghost predicate MinesPlaced(g: Board, rows: int, cols: int, mines: int, fi: int, fj: int) {
    Rect(g, rows, cols) && InGrid(g, fi, fj) &&
    Count(g, IsMine) == mines && !g[fi][fj].isMine && CountsCorrect(g) &&
    forall i, j :: InGrid(g, i, j) ==>
      !g[i][j].isRevealed && !g[i][j].isFlagged && (g[i][j].isMine ==> g[i][j].adjacentMines == 0)
  }

  /** Cell (i, j) of `g` once its neighbour count is written in, which happens to safe cells only. */
  ghost function Counted(g: Board, i: int, j: int): Cell
    requires InGrid(g, i, j)
  {
    if g[i][j].isMine then g[i][j] else g[i][j].(adjacentMines := AdjacentMines(g, i, j))
  }

  /** The board with the neighbour count written into every safe cell. */
  ghost function WithCounts(g: Board): (h: Board)
    ensures SameShape(g, h)
    ensures forall i, j :: InGrid(g, i, j) ==> h[i][j] == Counted(g, i, j)
  {
    seq(|g|, i requires 0 <= i < |g| => seq(|g[i]|, j requires 0 <= j < |g[i]| => Counted(g, i, j)))
  }

  /** Writing the counts keeps every mine where it is, changes nothing but counts, and makes every
      count exact. */
  lemma WithCountsCorrect(g: Board)
    ensures SameMines(g, WithCounts(g)) && CountsCorrect(WithCounts(g))
    ensures Count(WithCounts(g), IsMine) == Count(g, IsMine)
  {
    var h := WithCounts(g);
    assert SameMines(g, h);
    CountSame(g, h, IsMine);
    forall i, j | InGrid(h, i, j) && !h[i][j].isMine
      ensures h[i][j].adjacentMines == AdjacentMines(h, i, j)
    {
      AdjacentMinesFromMines(g, h, i, j);
    }
  }

  /** Mines laid on a hidden board, none at the first click, then the counts written in: the board
      `placeMines` promises. */
  lemma LaidThenCounted(g: Board, rows: int, cols: int, mines: int, fi: int, fj: int)
    requires Rect(g, rows, cols) && InGrid(g, fi, fj) && OnlyMines(g)
    requires Count(g, IsMine) == mines && !g[fi][fj].isMine
    ensures MinesPlaced(WithCounts(g), rows, cols, mines, fi, fj)
  {
    WithCountsCorrect(g);
    var h := WithCounts(g);
    forall i, j | InGrid(h, i, j)
      ensures !h[i][j].isRevealed && !h[i][j].isFlagged && (h[i][j].isMine ==> h[i][j].adjacentMines == 0)
    {
      assert g[i][j] == Hidden || g[i][j] == HiddenMine;
    }
  }

  /** The counts of `placed` are written into `g` at every cell before (row, col) in row order, and
      no other cell has changed. */
  ghost predicate FilledUpTo(placed: Board, g: Board, row: int, col: int) {
    SameShape(placed, g) &&
    forall i, j :: InGrid(g, i, j) ==>
      g[i][j] == if i < row || (i == row && j < col) then Counted(placed, i, j) else placed[i][j]
  }

  /** A partly filled board has its mines where they were. */
  lemma FilledSameMines(placed: Board, g: Board, row: int, col: int)
    requires FilledUpTo(placed, g, row, col)
    ensures SameMines(placed, g)
  {
    forall i, j | InGrid(placed, i, j) ensures placed[i][j].isMine == g[i][j].isMine {
    }
  }

  /** Writing the count into the next cell moves the fill one cell on. */
  lemma FillStep(placed: Board, g: Board, row: int, col: int, v: Cell)
    requires FilledUpTo(placed, g, row, col) && InGrid(g, row, col) && v == Counted(placed, row, col)
    ensures FilledUpTo(placed, Put(g, row, col, v), row, col + 1)
  {
  }

  /** A mine needs no count: the fill moves past it. */
  lemma FillSkip(placed: Board, g: Board, row: int, col: int)
    requires FilledUpTo(placed, g, row, col) && InGrid(g, row, col) && g[row][col].isMine
    ensures FilledUpTo(placed, g, row, col + 1)
  {
  }

  /** At the end of a row the fill moves to the next one. */
  lemma FillRowEnd(placed: Board, g: Board, row: int, rows: int, cols: int)
    requires Rect(g, rows, cols) && FilledUpTo(placed, g, row, cols)
    ensures FilledUpTo(placed, g, row + 1, 0)
  {
  }

  /** After the last row the whole board is filled. */
  lemma FillDone(placed: Board, g: Board, rows: int)
    requires |g| == rows && FilledUpTo(placed, g, rows, 0)
    ensures g == WithCounts(placed)
  {
    GridEq(g, WithCounts(placed));
  }
}
