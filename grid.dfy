/** The board of one game as a value: a rectangle of cells, and counts over it.
    The engine keeps its board in a two-dimensional array; the specifications
    talk about snapshots of that array, which are values of type `Board`. */
module Grid {

  /** The four fields every cell of the board carries. */
  datatype Cell = Cell(isMine: bool, isRevealed: bool, isFlagged: bool, adjacentMines: int)

  /** A coordinate on the board. */
  datatype Pos = Pos(row: int, col: int)

  /** The cell a fresh board is filled with. */
  const Hidden := Cell(false, false, false, 0)

  type Board = seq<seq<Cell>>

  ghost predicate Rect(g: Board, rows: int, cols: int) {
    |g| == rows && forall i :: 0 <= i < |g| ==> |g[i]| == cols
  }

  predicate InGrid(g: Board, i: int, j: int) {
    0 <= i < |g| && 0 <= j < |g[i]|
  }

  ghost predicate SameShape(g: Board, h: Board) {
    |g| == |h| && forall i :: 0 <= i < |g| ==> |g[i]| == |h[i]|
  }

  /** The board `createBoard` builds: `rows` rows of `cols` hidden cells. */
  function Blank(rows: nat, cols: nat): (g: Board)
    ensures Rect(g, rows, cols)
    ensures forall i, j :: InGrid(g, i, j) ==> g[i][j] == Hidden
  {
    seq(rows, _ => seq(cols, _ => Hidden))
  }

  /** The board with one cell replaced. */
  function Put(g: Board, i: int, j: int, v: Cell): (h: Board)
    requires InGrid(g, i, j)
    ensures SameShape(g, h) && h[i][j] == v
    ensures forall a, b :: InGrid(g, a, b) && (a != i || b != j) ==> h[a][b] == g[a][b]
  {
    g[i := g[i][j := v]]
  }

  predicate IsMine(c: Cell) { c.isMine }
  predicate IsSafe(c: Cell) { !c.isMine }
  predicate IsRevealed(c: Cell) { c.isRevealed }
  predicate IsFlagged(c: Cell) { c.isFlagged }
  predicate IsUnflagged(c: Cell) { !c.isFlagged }
  predicate AnyCell(c: Cell) { true }

  function Max(a: int, b: int): int { if a >= b then a else b }

  function Min(a: int, b: int): int { if a <= b then a else b }

  function Ind(b: bool): nat { if b then 1 else 0 }

  /** Number of cells of a row that satisfy `p`. */
  function RowCount(s: seq<Cell>, p: Cell -> bool): nat {
    if s == [] then 0 else Ind(p(s[0])) + RowCount(s[1..], p)
  }

  /** Number of cells of a board that satisfy `p`. */
  function Count(g: Board, p: Cell -> bool): nat {
    if g == [] then 0 else RowCount(g[0], p) + Count(g[1..], p)
  }

  /** Every cell of `g` that satisfies `p` is, at the same place in `h`, one that satisfies `q`. */
  ghost predicate Pointwise(g: Board, h: Board, p: Cell -> bool, q: Cell -> bool) {
    SameShape(g, h) && forall i, j :: InGrid(g, i, j) && p(g[i][j]) ==> q(h[i][j])
  }

  /** Replacing one cell moves a count by at most one, exactly as the old and new cell decide. */
  lemma {:induction false} RowCountPut(s: seq<Cell>, j: int, v: Cell, p: Cell -> bool)
    requires 0 <= j < |s|
    ensures RowCount(s[j := v], p) + Ind(p(s[j])) == RowCount(s, p) + Ind(p(v))
  {
    if j > 0 {
      assert s[j := v][1..] == s[1..][j - 1 := v];
      RowCountPut(s[1..], j - 1, v, p);
    } else {
      assert s[j := v][1..] == s[1..];
    }
  }

  lemma {:induction false} CountPut(g: Board, i: int, j: int, v: Cell, p: Cell -> bool)
    requires InGrid(g, i, j)
    ensures Count(Put(g, i, j, v), p) + Ind(p(g[i][j])) == Count(g, p) + Ind(p(v))
  {
    var h := Put(g, i, j, v);
    if i > 0 {
      assert h[1..] == Put(g[1..], i - 1, j, v);
      CountPut(g[1..], i - 1, j, v, p);
    } else {
      assert h[1..] == g[1..];
      RowCountPut(g[0], j, v, p);
    }
  }

  lemma {:induction false} RowCountLe(s: seq<Cell>, t: seq<Cell>, p: Cell -> bool, q: Cell -> bool)
    requires |s| == |t|
    requires forall j :: 0 <= j < |s| && p(s[j]) ==> q(t[j])
    ensures RowCount(s, p) <= RowCount(t, q)
    ensures RowCount(s, p) == RowCount(t, q) ==> forall j :: 0 <= j < |s| && q(t[j]) ==> p(s[j])
  {
    if s != [] {
      RowCountLe(s[1..], t[1..], p, q);
      forall j | 0 <= j < |s| && q(t[j]) && RowCount(s, p) == RowCount(t, q)
        ensures p(s[j])
      {
        if j > 0 {
          assert t[1..][j - 1] == t[j] && s[1..][j - 1] == s[j];
        }
      }
    }
  }

  /** Counting is monotone in a pointwise implication, and equal counts turn the implication around. */
  lemma {:induction false} CountLe(g: Board, h: Board, p: Cell -> bool, q: Cell -> bool)
    requires Pointwise(g, h, p, q)
    ensures Count(g, p) <= Count(h, q)
    ensures Count(g, p) == Count(h, q) ==> Pointwise(h, g, q, p)
  {
    if g != [] {
      assert Pointwise(g[1..], h[1..], p, q) by {
        forall i, j | InGrid(g[1..], i, j) && p(g[1..][i][j]) ensures q(h[1..][i][j]) {
          assert g[1..][i] == g[i + 1];
        }
      }
      CountLe(g[1..], h[1..], p, q);
      RowCountLe(g[0], h[0], p, q);
      if Count(g, p) == Count(h, q) {
        forall i, j | InGrid(h, i, j) && q(h[i][j]) ensures p(g[i][j]) {
          if i > 0 {
            assert h[1..][i - 1] == h[i] && g[1..][i - 1] == g[i];
          }
        }
      }
    }
  }

  /** Cells that agree on `p` give the same count. */
  lemma CountSame(g: Board, h: Board, p: Cell -> bool)
    requires SameShape(g, h)
    requires forall i, j :: InGrid(g, i, j) ==> p(g[i][j]) == p(h[i][j])
    ensures Count(g, p) == Count(h, p)
  {
    CountLe(g, h, p, p);
    CountLe(h, g, p, p);
  }

  lemma {:induction false} RowCountSplit(s: seq<Cell>)
    ensures RowCount(s, IsMine) + RowCount(s, IsSafe) == |s|
  {
    if s != [] { RowCountSplit(s[1..]); }
  }

  /** Every cell is either a mine or safe, so the two counts fill the board. */
  lemma {:induction false} MinesPlusSafe(g: Board, rows: nat, cols: nat)
    requires Rect(g, rows, cols)
    ensures Count(g, IsMine) + Count(g, IsSafe) == rows * cols
  {
    if g != [] {
      RowCountSplit(g[0]);
      MinesPlusSafe(g[1..], rows - 1, cols);
      assert rows * cols == cols + (rows - 1) * cols;
    }
  }

  /** No count exceeds the number of cells. */
  lemma CountAtMost(g: Board, rows: nat, cols: nat, p: Cell -> bool)
    requires Rect(g, rows, cols)
    ensures Count(g, p) <= rows * cols
  {
    CountLe(g, g, p, AnyCell);
    AnyCellCount(g, rows, cols);
  }

  lemma {:induction false} AnyCellCount(g: Board, rows: nat, cols: nat)
    requires Rect(g, rows, cols)
    ensures Count(g, AnyCell) == rows * cols
  {
    if g != [] {
      AnyRowCount(g[0]);
      AnyCellCount(g[1..], rows - 1, cols);
      assert rows * cols == cols + (rows - 1) * cols;
    }
  }

  lemma {:induction false} AnyRowCount(s: seq<Cell>)
    ensures RowCount(s, AnyCell) == |s|
  {
    if s != [] { AnyRowCount(s[1..]); }
  }

  /** A board with fewer than `rows * cols` cells satisfying `p` has a cell that does not. */
  lemma SomeCellFails(g: Board, rows: nat, cols: nat, p: Cell -> bool)
    requires Rect(g, rows, cols) && Count(g, p) < rows * cols
    ensures exists i, j :: InGrid(g, i, j) && !p(g[i][j])
  {
    AnyCellCount(g, rows, cols);
    if forall i, j :: InGrid(g, i, j) ==> p(g[i][j]) {
      CountLe(g, g, AnyCell, p);
    }
  }

  /** A fresh board has no mine, no revealed cell and no flag. */
  lemma {:induction false} BlankCounts(rows: nat, cols: nat)
    ensures Count(Blank(rows, cols), IsMine) == 0
    ensures Count(Blank(rows, cols), IsRevealed) == 0
    ensures Count(Blank(rows, cols), IsFlagged) == 0
  {
    var g := Blank(rows, cols);
    NoneCounted(g, IsMine);
    NoneCounted(g, IsRevealed);
    NoneCounted(g, IsFlagged);
  }

  lemma {:induction false} NoneCounted(g: Board, p: Cell -> bool)
    requires forall i, j :: InGrid(g, i, j) ==> !p(g[i][j])
    ensures Count(g, p) == 0
  {
    if g != [] {
      NoneInRow(g[0], p);
      assert forall i, j :: InGrid(g[1..], i, j) ==> g[1..][i][j] == g[i + 1][j];
      NoneCounted(g[1..], p);
    }
  }

  lemma {:induction false} NoneInRow(s: seq<Cell>, p: Cell -> bool)
    requires forall j :: 0 <= j < |s| ==> !p(s[j])
    ensures RowCount(s, p) == 0
  {
    if s != [] { NoneInRow(s[1..], p); }
  }

  /** Two boards of the same shape that agree on every cell are equal. */
  lemma GridEq(g: Board, h: Board)
    requires SameShape(g, h)
    requires forall i, j :: InGrid(g, i, j) ==> g[i][j] == h[i][j]
    ensures g == h
  {
    forall i | 0 <= i < |g| ensures g[i] == h[i] {
      assert forall j :: 0 <= j < |g[i]| ==> g[i][j] == h[i][j];
    }
  }

  /** Every safe cell is revealed: the winning condition. */
  ghost predicate AllSafeRevealed(g: Board) {
    Pointwise(g, g, IsSafe, IsRevealed)
  }

  /** While no mine is revealed, the revealed count reaches the number of safe cells exactly when
      every safe cell is revealed, and never exceeds it. */
  lemma WonIffAllSafeRevealed(g: Board, rows: nat, cols: nat)
    requires Rect(g, rows, cols) && Pointwise(g, g, IsRevealed, IsSafe)
    ensures Count(g, IsRevealed) <= rows * cols - Count(g, IsMine)
    ensures Count(g, IsRevealed) == rows * cols - Count(g, IsMine) <==> AllSafeRevealed(g)
  {
    MinesPlusSafe(g, rows, cols);
    CountLe(g, g, IsRevealed, IsSafe);
    if AllSafeRevealed(g) {
      CountLe(g, g, IsSafe, IsRevealed);
    }
  }

  /** With fewer than `rows * cols - 1` mines and (i, j) safe, some other cell is safe too. */
  lemma FreeCellExists(g: Board, rows: nat, cols: nat, i: int, j: int)
    requires Rect(g, rows, cols) && InGrid(g, i, j) && !g[i][j].isMine
    requires Count(g, IsMine) < rows * cols - 1
    ensures exists a, b :: InGrid(g, a, b) && !(a == i && b == j) && !g[a][b].isMine
  {
    var h := Put(g, i, j, g[i][j].(isMine := true));
    CountPut(g, i, j, g[i][j].(isMine := true), IsMine);
    SomeCellFails(h, rows, cols, IsMine);
    var a, b :| InGrid(h, a, b) && !IsMine(h[a][b]);
    assert InGrid(g, a, b) && !(a == i && b == j) && !g[a][b].isMine;
  }

  /** The board after a right click on (i, j): that cell's flag turned over. */
  function ToggleFlag(g: Board, i: int, j: int): (h: Board)
    requires InGrid(g, i, j)
    ensures SameShape(g, h)
  {
    Put(g, i, j, g[i][j].(isFlagged := !g[i][j].isFlagged))
  }

  /** Turning a flag over twice restores the board. */
  lemma ToggleFlagTwice(g: Board, i: int, j: int)
    requires InGrid(g, i, j)
    ensures ToggleFlag(ToggleFlag(g, i, j), i, j) == g
  {
    GridEq(ToggleFlag(ToggleFlag(g, i, j), i, j), g);
  }

  /** Turning a flag over moves the flag count by exactly one, and changes no other count of mines
      or revealed cells. */
  lemma ToggleFlagCounts(g: Board, i: int, j: int)
    requires InGrid(g, i, j)
    ensures Count(ToggleFlag(g, i, j), IsFlagged) == if g[i][j].isFlagged then Count(g, IsFlagged) - 1 else Count(g, IsFlagged) + 1
    ensures Count(ToggleFlag(g, i, j), IsMine) == Count(g, IsMine)
    ensures Count(ToggleFlag(g, i, j), IsRevealed) == Count(g, IsRevealed)
  {
    var v := g[i][j].(isFlagged := !g[i][j].isFlagged);
    CountPut(g, i, j, v, IsFlagged);
    CountPut(g, i, j, v, IsMine);
    CountPut(g, i, j, v, IsRevealed);
  }

  /** What `revealAllMines` does to one cell: a mine is turned face up. */
  function ShowMine(c: Cell): Cell {
    if c.isMine then c.(isRevealed := true) else c
  }

  /** What `flagAllMines` does to one cell: a mine without a flag gets one. */
  function FlagMine(c: Cell): Cell {
    if c.isMine && !c.isFlagged then c.(isFlagged := true) else c
  }

  /** Every cell of `g` passed through `f`. */
  ghost function MapCells(g: Board, f: Cell -> Cell): (h: Board)
    ensures SameShape(g, h)
    ensures forall i, j :: InGrid(g, i, j) ==> h[i][j] == f(g[i][j])
  {
    seq(|g|, i requires 0 <= i < |g| => seq(|g[i]|, j requires 0 <= j < |g[i]| => f(g[i][j])))
  }

  /** A row-by-row pass of `f` over `g0` has dealt with every cell before (row, col), and with no other. */
  ghost predicate SweptUpTo(g0: Board, g: Board, f: Cell -> Cell, row: int, col: int) {
    SameShape(g0, g) &&
    forall i, j :: InGrid(g0, i, j) ==>
      g[i][j] == if i < row || (i == row && j < col) then f(g0[i][j]) else g0[i][j]
  }

  /** The pass writes `f` of the cell at (row, col) and moves on. */
  lemma SweepStep(g0: Board, g: Board, f: Cell -> Cell, row: int, col: int)
    requires SweptUpTo(g0, g, f, row, col) && InGrid(g0, row, col)
    ensures SweptUpTo(g0, Put(g, row, col, f(g[row][col])), f, row, col + 1)
  {
  }

  /** The pass leaves a cell that `f` does not change and moves on. */
  lemma SweepSkip(g0: Board, g: Board, f: Cell -> Cell, row: int, col: int)
    requires SweptUpTo(g0, g, f, row, col) && InGrid(g0, row, col) && f(g[row][col]) == g[row][col]
    ensures SweptUpTo(g0, g, f, row, col + 1)
  {
  }

  /** Past the last column, the pass moves to the next row. */
  lemma SweepRowEnd(g0: Board, g: Board, f: Cell -> Cell, row: int, rows: int, cols: int)
    requires Rect(g0, rows, cols) && SweptUpTo(g0, g, f, row, cols)
    ensures SweptUpTo(g0, g, f, row + 1, 0)
  {
  }

  /** Past the last row, the pass has mapped the whole board. */
  lemma SweepDone(g0: Board, g: Board, f: Cell -> Cell, rows: int)
    requires |g0| == rows && SweptUpTo(g0, g, f, rows, 0)
    ensures g == MapCells(g0, f)
  {
    GridEq(g, MapCells(g0, f));
  }

  /** A hidden cell holding a mine. */
  const HiddenMine := Hidden.(isMine := true)

  /** Mines are being laid: every cell is hidden, with or without a mine. */
  ghost predicate OnlyMines(g: Board) {
    forall i, j :: InGrid(g, i, j) ==> g[i][j] == Hidden || g[i][j] == HiddenMine
  }

  /** Laying one more mine on a free cell other than (fi, fj) adds one to the mine count. */
  lemma LayOneMine(g: Board, fi: int, fj: int, i: int, j: int)
    requires OnlyMines(g) && InGrid(g, fi, fj) && !g[fi][fj].isMine
    requires InGrid(g, i, j) && !(i == fi && j == fj) && !g[i][j].isMine
    ensures OnlyMines(Put(g, i, j, HiddenMine))
    ensures Count(Put(g, i, j, HiddenMine), IsMine) == Count(g, IsMine) + 1
    ensures !Put(g, i, j, HiddenMine)[fi][fj].isMine
  {
    CountPut(g, i, j, HiddenMine, IsMine);
  }
}
