/** What a flood reveal may do to the board, stated as relations between the
    board before (`g0`) and after (`g`) it. */
module Cascade {
  import opened Grid
  import opened Neighbours

  /** A cell is left alone, or a hidden, unflagged cell is turned face up. */
  predicate CellGrows(a: Cell, b: Cell) {
    b == a || (!a.isRevealed && !a.isFlagged && b == a.(isRevealed := true))
  }

  /** Cells only get revealed: nothing else about any cell changes, no flagged cell is revealed. */
  ghost predicate Grows(g0: Board, g: Board) {
    SameShape(g0, g) && forall i, j :: InGrid(g0, i, j) ==> CellGrows(g0[i][j], g[i][j])
  }

  /** (i, j) was hidden in `g0` and is revealed in `g`. */
  predicate Newly(g0: Board, g: Board, i: int, j: int) {
    InGrid(g0, i, j) && InGrid(g, i, j) && !g0[i][j].isRevealed && g[i][j].isRevealed
  }

  /** No mine was uncovered. */
  ghost predicate NoMineUncovered(g0: Board, g: Board) {
    forall i, j :: Newly(g0, g, i, j) ==> !g[i][j].isMine
  }

  /** Around every newly revealed zero other than (r, c), every neighbour is revealed or flagged. */
  ghost predicate CompleteBut(g0: Board, g: Board, r: int, c: int) {
    forall i, j, a, b ::
      Newly(g0, g, i, j) && !(i == r && j == c) && g[i][j].adjacentMines == 0 && InGrid(g, a, b) && Adjacent(i, j, a, b)
      ==> g[a][b].isRevealed || g[a][b].isFlagged
  }

  /** The cascade stops only at numbered, flagged or already revealed cells. */
  ghost predicate Complete(g0: Board, g: Board) {
    forall i, j, a, b ::
      Newly(g0, g, i, j) && g[i][j].adjacentMines == 0 && InGrid(g, a, b) && Adjacent(i, j, a, b)
      ==> g[a][b].isRevealed || g[a][b].isFlagged
  }

  /** On `g0`, revealing (i, j) would go on to its neighbours: the cell is hidden, unflagged, safe and
      shows zero. */
  predicate OpensAsZero(g0: Board, i: int, j: int) {
    InGrid(g0, i, j) && !g0[i][j].isRevealed && !g0[i][j].isFlagged && !g0[i][j].isMine &&
    g0[i][j].adjacentMines == 0
  }

  /** `S` holds the start (r, c) and, with every cell of `S` that opens as a zero on `g0`, all of its
      in-bounds neighbours: a set the recursion from (r, c) cannot leave. */
  ghost predicate ClosedFrom(g0: Board, S: set<Pos>, r: int, c: int) {
    Pos(r, c) in S &&
    forall i, j, a, b :: Pos(i, j) in S && OpensAsZero(g0, i, j) && InGrid(g0, a, b) && Adjacent(i, j, a, b)
      ==> Pos(a, b) in S
  }

  /** Every newly revealed cell lies in every set closed from (r, c): the reveal goes no further than
      the recursion from (r, c) can reach. */
  ghost predicate Least(g0: Board, g: Board, r: int, c: int) {
    forall S :: ClosedFrom(g0, S, r, c) ==> forall i, j :: Newly(g0, g, i, j) ==> Pos(i, j) in S
  }

  /** Everything a finished flood reveal from (r, c) promises. */
  ghost predicate Flooded(g0: Board, g: Board, r: int, c: int) {
    Grows(g0, g) && NoMineUncovered(g0, g) && Complete(g0, g) && Least(g0, g, r, c)
  }

  /** What the loop over the neighbours of (r, c) keeps. */
  ghost predicate Spreading(g0: Board, g: Board, r: int, c: int) {
    Grows(g0, g) && NoMineUncovered(g0, g) && CompleteBut(g0, g, r, c) && Least(g0, g, r, c)
  }

  lemma GrowsTrans(g0: Board, g1: Board, g2: Board)
    requires Grows(g0, g1) && Grows(g1, g2)
    ensures Grows(g0, g2)
  {
  }

  /** Revealing the start cell (r, c) begins a flood reveal. */
  lemma {:induction false} StartSpreading(g0: Board, r: int, c: int)
    requires InGrid(g0, r, c) && !g0[r][c].isRevealed && !g0[r][c].isFlagged && !g0[r][c].isMine
    ensures Spreading(g0, Put(g0, r, c, g0[r][c].(isRevealed := true)), r, c)
  {
    var g := Put(g0, r, c, g0[r][c].(isRevealed := true));
    forall i, j | Newly(g0, g, i, j) ensures i == r && j == c {
    }
  }

  /** A set closed from the zero start (r, c) on `g0` is closed, on a later board `g1`, from each
      neighbour (a, b) of it: a cell still hidden on `g1` is as it was on `g0`. */
  lemma ClosedFromNeighbour(g0: Board, g1: Board, S: set<Pos>, r: int, c: int, a: int, b: int)
    requires ClosedFrom(g0, S, r, c) && Grows(g0, g1)
    requires OpensAsZero(g0, r, c) && InGrid(g0, a, b) && Adjacent(r, c, a, b)
    ensures ClosedFrom(g1, S, a, b)
  {
    forall i, j, x, y | Pos(i, j) in S && OpensAsZero(g1, i, j) && InGrid(g1, x, y) && Adjacent(i, j, x, y)
      ensures Pos(x, y) in S
    {
      assert CellGrows(g0[i][j], g1[i][j]);
      assert OpensAsZero(g0, i, j);
    }
  }

  /** A flood reveal from a neighbour (a, b) of the zero start (r, c) extends the one from (r, c). */
  lemma {:induction false} SpreadStep(g0: Board, g1: Board, g2: Board, r: int, c: int, a: int, b: int)
    requires Spreading(g0, g1, r, c) && Flooded(g1, g2, a, b)
    requires Newly(g0, g1, r, c) && g1[r][c].adjacentMines == 0 && Adjacent(r, c, a, b) && InGrid(g0, a, b)
    ensures Spreading(g0, g2, r, c)
  {
    GrowsTrans(g0, g1, g2);
    assert CellGrows(g0[r][c], g1[r][c]);
    assert OpensAsZero(g0, r, c);
    forall S | ClosedFrom(g0, S, r, c)
      ensures forall i, j :: Newly(g0, g2, i, j) ==> Pos(i, j) in S
    {
      ClosedFromNeighbour(g0, g1, S, r, c, a, b);
      forall i, j | Newly(g0, g2, i, j) ensures Pos(i, j) in S {
        if !Newly(g0, g1, i, j) {
          assert Newly(g1, g2, i, j);
        }
      }
    }
    forall i, j, x, y | Newly(g0, g2, i, j) && !(i == r && j == c) && g2[i][j].adjacentMines == 0
        && InGrid(g2, x, y) && Adjacent(i, j, x, y)
      ensures g2[x][y].isRevealed || g2[x][y].isFlagged
    {
      if Newly(g0, g1, i, j) {
        assert g1[x][y].isRevealed || g1[x][y].isFlagged;
        assert CellGrows(g1[x][y], g2[x][y]);
      } else {
        assert Newly(g1, g2, i, j);
      }
    }
  }

  /** Once every neighbour of the start is revealed or flagged, the reveal is finished. */
  lemma {:induction false} SpreadDone(g0: Board, g: Board, r: int, c: int)
    requires Spreading(g0, g, r, c)
    requires forall a, b :: InGrid(g, a, b) && Adjacent(r, c, a, b) ==> g[a][b].isRevealed || g[a][b].isFlagged
    ensures Flooded(g0, g, r, c)
  {
  }

  /** A start cell that shows a number, revealed alone, is a finished reveal. */
  lemma {:induction false} NumberedDone(g0: Board, r: int, c: int)
    requires InGrid(g0, r, c) && !g0[r][c].isRevealed && !g0[r][c].isFlagged && !g0[r][c].isMine
    requires g0[r][c].adjacentMines != 0
    ensures Flooded(g0, Put(g0, r, c, g0[r][c].(isRevealed := true)), r, c)
    ensures forall i, j :: Newly(g0, Put(g0, r, c, g0[r][c].(isRevealed := true)), i, j) ==> i == r && j == c
  {
    StartSpreading(g0, r, c);
  }

  /** Leaving the board alone is a finished reveal from any cell. */
  lemma NothingFlooded(g: Board, r: int, c: int)
    ensures Flooded(g, g, r, c)
    ensures forall i, j :: !Newly(g, g, i, j)
  {
  }

  /** A zero cell in a flood has only safe neighbours, and growing keeps this. */
  lemma SafeZerosKept(g0: Board, g: Board)
    requires SafeZeros(g0) && Grows(g0, g)
    ensures SafeZeros(g)
  {
    forall i, j, a, b | InGrid(g, i, j) && InGrid(g, a, b) && Adjacent(i, j, a, b)
        && !g[i][j].isMine && g[i][j].adjacentMines == 0
      ensures !g[a][b].isMine
    {
      assert CellGrows(g0[i][j], g[i][j]) && CellGrows(g0[a][b], g[a][b]);
    }
  }

  /** A flood reveal keeps the mines, their counts and the flags, only adds revealed cells, and keeps
      "no mine revealed" and "no cell both revealed and flagged". */
  lemma FloodKeeps(g0: Board, g: Board)
    requires Grows(g0, g)
    ensures SameMines(g0, g)
    ensures Count(g, IsMine) == Count(g0, IsMine) && Count(g, IsFlagged) == Count(g0, IsFlagged)
    ensures Count(g0, IsRevealed) <= Count(g, IsRevealed)
    ensures CountsCorrect(g0) ==> CountsCorrect(g)
    ensures NoMineUncovered(g0, g) && Pointwise(g0, g0, IsRevealed, IsSafe) ==> Pointwise(g, g, IsRevealed, IsSafe)
    ensures Pointwise(g0, g0, IsRevealed, IsUnflagged) ==> Pointwise(g, g, IsRevealed, IsUnflagged)
  {
    CountSame(g0, g, IsMine);
    CountSame(g0, g, IsFlagged);
    CountLe(g0, g, IsRevealed, IsRevealed);
    if CountsCorrect(g0) {
      CountsCorrectKept(g0, g);
    }
  }

  /** Every neighbour of (i, j) met before (r, c) in a row-by-row scan is revealed or flagged. */
  ghost predicate SeenAround(g: Board, i: int, j: int, r: int, c: int) {
    forall a, b :: InGrid(g, a, b) && Adjacent(i, j, a, b) && (a < r || (a == r && b < c))
      ==> g[a][b].isRevealed || g[a][b].isFlagged
  }

  /** After the reveal from neighbour (r, c), the scan may move past it. */
  lemma SeenStep(g1: Board, g2: Board, i: int, j: int, r: int, c: int)
    requires SeenAround(g1, i, j, r, c) && Grows(g1, g2)
    requires InGrid(g2, r, c) && !g1[r][c].isFlagged ==> g2[r][c].isRevealed
    ensures SeenAround(g2, i, j, r, c + 1)
  {
    forall a, b | InGrid(g2, a, b) && Adjacent(i, j, a, b) && (a < r || (a == r && b < c + 1))
      ensures g2[a][b].isRevealed || g2[a][b].isFlagged
    {
      assert CellGrows(g1[a][b], g2[a][b]);
    }
  }

  /** Past the clipped window's last column, row r is finished. */
  lemma SeenRowEnd(g: Board, i: int, j: int, r: int, c: int, cols: int)
    requires Rect(g, |g|, cols) && SeenAround(g, i, j, r, c)
    requires c > j + 1 || c >= cols
    ensures SeenAround(g, i, j, r + 1, j - 1)
  {
  }

  /** Past the clipped window's last row, every neighbour is revealed or flagged. */
  lemma SeenAll(g: Board, i: int, j: int, r: int)
    requires SeenAround(g, i, j, r, j - 1) && (r > i + 1 || r >= |g|)
    ensures forall a, b :: InGrid(g, a, b) && Adjacent(i, j, a, b) ==> g[a][b].isRevealed || g[a][b].isFlagged
  {
  }

  /** The state of the scan over the neighbours of the revealed zero (r, c), up to (a, b). */
  ghost predicate Scanning(g0: Board, g: Board, r: int, c: int, a: int, b: int) {
    Spreading(g0, g, r, c) && SafeZeros(g) && Newly(g0, g, r, c) && g[r][c].adjacentMines == 0 &&
    SeenAround(g, r, c, a, b)
  }

  /** The scan begins just after the start cell was revealed. */
  lemma ScanStart(g0: Board, r: int, c: int)
    requires InGrid(g0, r, c) && !g0[r][c].isRevealed && !g0[r][c].isFlagged && !g0[r][c].isMine
    requires g0[r][c].adjacentMines == 0 && SafeZeros(g0)
    ensures Scanning(g0, Put(g0, r, c, g0[r][c].(isRevealed := true)), r, c, Max(0, r - 1), c - 1)
  {
    var g := Put(g0, r, c, g0[r][c].(isRevealed := true));
    StartSpreading(g0, r, c);
    SafeZerosKept(g0, g);
  }

  /** A neighbour met by the scan is never a mine. */
  lemma ScanSafe(g0: Board, g: Board, r: int, c: int, a: int, b: int)
    requires Scanning(g0, g, r, c, a, b) && InGrid(g, a, b) && Adjacent(r, c, a, b)
    ensures !g[a][b].isMine
  {
  }

  /** The scan steps over the start cell itself. */
  lemma ScanSkip(g0: Board, g: Board, r: int, c: int)
    requires Scanning(g0, g, r, c, r, c)
    ensures Scanning(g0, g, r, c, r, c + 1)
  {
  }

  /** The scan moves past the neighbour (a, b) once a flood reveal from it is finished. */
  lemma ScanStep(g0: Board, g1: Board, g2: Board, r: int, c: int, a: int, b: int)
    requires Scanning(g0, g1, r, c, a, b) && Flooded(g1, g2, a, b)
    requires InGrid(g1, a, b) && Adjacent(r, c, a, b)
    requires !g1[a][b].isFlagged ==> g2[a][b].isRevealed
    ensures Scanning(g0, g2, r, c, a, b + 1)
  {
    assert CellGrows(g1[r][c], g2[r][c]);
    SpreadStep(g0, g1, g2, r, c, a, b);
    SafeZerosKept(g1, g2);
    SeenStep(g1, g2, r, c, a, b);
  }

  /** Past the clipped window's last column, the scan moves to the next row. */
  lemma ScanRowEnd(g0: Board, g: Board, r: int, c: int, a: int, b: int, cols: int)
    requires Rect(g, |g|, cols) && Scanning(g0, g, r, c, a, b)
    requires b > c + 1 || b >= cols
    ensures Scanning(g0, g, r, c, a + 1, c - 1)
  {
    SeenRowEnd(g, r, c, a, b, cols);
  }

  /** Past the clipped window's last row, the flood reveal from (r, c) is finished. */
  lemma ScanDone(g0: Board, g: Board, r: int, c: int, a: int)
    requires Scanning(g0, g, r, c, a, c - 1) && (a > r + 1 || a >= |g|)
    ensures Flooded(g0, g, r, c)
  {
    SeenAll(g, r, c, a);
    SpreadDone(g0, g, r, c);
  }

  /** What `revealCell(r, c)` does to the board `g0`, giving `g`: a finished flood reveal from
      (r, c); nothing at all on a revealed or flagged cell; otherwise (r, c) itself ends up revealed,
      and when it shows a number it is the only cell revealed. */
  ghost predicate Revealed(g0: Board, g: Board, r: int, c: int) {
    InGrid(g0, r, c) && Flooded(g0, g, r, c) &&
    (g0[r][c].isRevealed || g0[r][c].isFlagged ==> g == g0) &&
    (!g0[r][c].isFlagged ==> g[r][c].isRevealed) &&
    (g0[r][c].adjacentMines != 0 ==> forall i, j :: Newly(g0, g, i, j) ==> i == r && j == c)
  }

  /** A revealed or flagged cell is left alone. */
  lemma RevealedNothing(g: Board, r: int, c: int)
    requires InGrid(g, r, c) && (g[r][c].isRevealed || g[r][c].isFlagged)
    ensures Revealed(g, g, r, c)
  {
    NothingFlooded(g, r, c);
  }

  /** A hidden, unflagged numbered cell is revealed alone. */
  lemma RevealedNumber(g0: Board, r: int, c: int)
    requires InGrid(g0, r, c) && !g0[r][c].isRevealed && !g0[r][c].isFlagged && !g0[r][c].isMine
    requires g0[r][c].adjacentMines != 0
    ensures Revealed(g0, Put(g0, r, c, g0[r][c].(isRevealed := true)), r, c)
  {
    NumberedDone(g0, r, c);
  }

  /** A hidden, unflagged zero cell, once its neighbours are flooded, is a finished reveal. */
  lemma RevealedZero(g0: Board, g: Board, r: int, c: int)
    requires InGrid(g0, r, c) && !g0[r][c].isRevealed && !g0[r][c].isFlagged
    requires g0[r][c].adjacentMines == 0 && Flooded(g0, g, r, c)
    requires InGrid(g, r, c) && g[r][c].isRevealed
    ensures Revealed(g0, g, r, c)
  {
  }

  /** What a finished reveal guarantees cell by cell: a cell it turns face up was hidden, unflagged and
      safe, and every other field of every cell is kept. */
  lemma RevealedMeans(g0: Board, g: Board, r: int, c: int)
    requires Revealed(g0, g, r, c)
    ensures SameShape(g0, g)
    ensures forall i, j :: Newly(g0, g, i, j) ==> !g0[i][j].isMine && !g0[i][j].isFlagged
    ensures forall i, j :: InGrid(g0, i, j) ==> g[i][j] == g0[i][j] || g[i][j] == g0[i][j].(isRevealed := true)
  {
    forall i, j | Newly(g0, g, i, j) ensures !g0[i][j].isMine && !g0[i][j].isFlagged {
      assert CellGrows(g0[i][j], g[i][j]);
    }
  }

  /** The cells `h` reveals, with those already revealed or flagged, form a set closed from (r, c); so
      every cell `g` newly reveals is revealed on `h` too. */
  lemma {:induction false} RevealedWithin(g0: Board, g: Board, h: Board, r: int, c: int)
    requires Revealed(g0, g, r, c) && Revealed(g0, h, r, c)
    ensures forall i, j :: Newly(g0, g, i, j) ==> h[i][j].isRevealed
  {
    var S := set i, j | 0 <= i < |g0| && 0 <= j < |g0[i]| &&
                        (g0[i][j].isRevealed || g0[i][j].isFlagged || h[i][j].isRevealed) :: Pos(i, j);
    forall i, j, a, b | Pos(i, j) in S && OpensAsZero(g0, i, j) && InGrid(g0, a, b) && Adjacent(i, j, a, b)
      ensures Pos(a, b) in S
    {
      assert Newly(g0, h, i, j);
      assert CellGrows(g0[i][j], h[i][j]) && CellGrows(g0[a][b], h[a][b]);
    }
    assert ClosedFrom(g0, S, r, c);
    forall i, j | Newly(g0, g, i, j) ensures h[i][j].isRevealed {
      assert Pos(i, j) in S;
      assert CellGrows(g0[i][j], g[i][j]);
    }
  }

  /** A flood reveal from (r, c) has one outcome: the relation pins down the board after it. */
  lemma RevealedUnique(g0: Board, g: Board, h: Board, r: int, c: int)
    requires Revealed(g0, g, r, c) && Revealed(g0, h, r, c)
    ensures g == h
  {
    RevealedWithin(g0, g, h, r, c);
    RevealedWithin(g0, h, g, r, c);
    forall i, j | InGrid(g, i, j) ensures g[i][j] == h[i][j] {
      assert CellGrows(g0[i][j], g[i][j]) && CellGrows(g0[i][j], h[i][j]);
    }
    GridEq(g, h);
  }
}
