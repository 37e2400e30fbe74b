/** The game engine: one game's board, mutated in place, its counters, and the
    best-times lists. */
module Engine {
  import opened Grid
  import opened Neighbours
  import opened Cascade
  import opened Settings
  import opened Scores

  /** The counters of a game in progress on `g` (`rows` by `cols`, with `mines` mines) count what they
      name, no mine is revealed, no cell is both revealed and flagged, and some safe cell is still hidden. */
  ghost predicate InPlay(g: Board, rows: nat, cols: nat, revealed: int, flags: int, mines: int) {
    revealed == Count(g, IsRevealed) && flags == Count(g, IsFlagged) &&
    Pointwise(g, g, IsRevealed, IsSafe) && Pointwise(g, g, IsRevealed, IsUnflagged) &&
    revealed < rows * cols - mines
  }

  /** A new game is in play as soon as it is created. */
  lemma BlankInPlay(rows: nat, cols: nat, mines: int)
    requires mines < rows * cols
    ensures InPlay(Blank(rows, cols), rows, cols, 0, 0, mines)
  {
    var g := Blank(rows, cols);
    BlankCounts(rows, cols);
    assert Pointwise(g, g, IsRevealed, IsSafe) && Pointwise(g, g, IsRevealed, IsUnflagged);
  }

  /** The state of one game on `g`: before the first click the board is blank; from the first click
      on it holds `mines` mines and exact counts; until the game is over the counters are right. */
  ghost predicate GameOk(g: Board, rows: nat, cols: nat, mines: int, started: bool, over: bool,
                         revealed: int, flags: int) {
    0 <= mines < rows * cols &&
    (!started ==> !over && g == Blank(rows, cols) && revealed == 0 && flags == 0) &&
    (started ==> Count(g, IsMine) == mines && CountsCorrect(g)) &&
    (!over ==> InPlay(g, rows, cols, revealed, flags, mines))
  }

  /** A blank board of a playable size satisfies the whole game invariant before the first click: not
      started, not over, both counters zero. */
  lemma BlankGameOk(rows: nat, cols: nat, mines: int)
    requires 0 <= mines < rows * cols
    ensures GameOk(Blank(rows, cols), rows, cols, mines, false, false, 0, 0)
  {
    BlankInPlay(rows, cols, mines);
  }

  /** The first click lays the mines: the game is started and every counter is right. */
  lemma PlacedGameOk(g: Board, rows: nat, cols: nat, mines: int, fi: int, fj: int)
    requires 0 <= mines < rows * cols && MinesPlaced(g, rows, cols, mines, fi, fj)
    ensures GameOk(g, rows, cols, mines, true, false, 0, 0)
  {
    NoneCounted(g, IsRevealed);
    NoneCounted(g, IsFlagged);
  }

  /** Turning over the flag of a hidden cell keeps a started game well formed, with the flag count
      moved by one. */
  lemma ToggledGameOk(g: Board, rows: nat, cols: nat, mines: int, revealed: int, flags: int, i: int, j: int)
    requires GameOk(g, rows, cols, mines, true, false, revealed, flags)
    requires InGrid(g, i, j) && !g[i][j].isRevealed
    ensures GameOk(ToggleFlag(g, i, j), rows, cols, mines, true, false, revealed,
                   if g[i][j].isFlagged then flags - 1 else flags + 1)
  {
    var h := ToggleFlag(g, i, j);
    ToggleFlagCounts(g, i, j);
    CountsCorrectKept(g, h);
  }

  /** After a flood reveal in a started game the counters are right again, and the game is won (the
      revealed count reaches the number of safe cells) exactly when every safe cell is revealed. */
  lemma RevealedGameOk(g0: Board, g: Board, rows: nat, cols: nat, mines: int, flags: int, r: int, c: int)
    requires Rect(g0, rows, cols) && GameOk(g0, rows, cols, mines, true, false, Count(g0, IsRevealed), flags)
    requires Revealed(g0, g, r, c)
    ensures Count(g, IsRevealed) == rows * cols - mines <==> AllSafeRevealed(g)
    ensures GameOk(g, rows, cols, mines, true, Count(g, IsRevealed) == rows * cols - mines,
                   Count(g, IsRevealed), flags)
  {
    FloodKeeps(g0, g);
    WonIffAllSafeRevealed(g, rows, cols);
  }

  /** Showing or flagging every mine at the end of a game moves no mine and changes no count. */
  lemma EndedGameOk(g: Board, f: Cell -> Cell, rows: nat, cols: nat, mines: int, revealed: int, flags: int)
    requires GameOk(g, rows, cols, mines, true, true, revealed, flags)
    requires f == ShowMine || f == FlagMine
    ensures GameOk(MapCells(g, f), rows, cols, mines, true, true, revealed, flags)
  {
    var h := MapCells(g, f);
    CountSame(g, h, IsMine);
    CountsCorrectKept(g, h);
  }

  /** A won game, once its mines are flagged, has no cell left hidden without a flag, and as many
      flags as mines at least. */
  lemma WonBoardSettled(g: Board, rows: nat, cols: nat)
    requires Rect(g, rows, cols) && AllSafeRevealed(g)
    ensures forall i, j :: InGrid(g, i, j) ==> MapCells(g, FlagMine)[i][j].isRevealed || MapCells(g, FlagMine)[i][j].isFlagged
    ensures Count(MapCells(g, FlagMine), IsFlagged) >= Count(g, IsMine)
  {
    var h := MapCells(g, FlagMine);
    CountLe(g, h, IsMine, IsFlagged);
  }

  class Minesweeper {
    var difficulty: Difficulty          // the selected difficulty
    var custom: Config                  // the custom slot
    var board: array2<Cell>
    var gameOver: bool
    var gameStarted: bool
    var minesCount: int
    var flagsCount: int
    var revealedCount: int
    var scores: map<Difficulty, seq<Score>>

    /** The board as a value: `cells[i][j]` is `board[i, j]`. */
    ghost var cells: Board

    /** `cells` mirrors the array. */
    ghost predicate Mirrors()
      reads this`cells, this`board, board
    {
      Rect(cells, board.Length0, board.Length1) &&
      forall i, j :: 0 <= i < board.Length0 && 0 <= j < board.Length1 ==> cells[i][j] == board[i, j]
    }


    /** The configuration of the selected difficulty. */
    function Conf(): Config
      reads this`difficulty, this`custom
    {
      ConfigOf(difficulty, custom)
    }

    /** The board has the size of the selected configuration. */
    ghost predicate Sized()
      reads this`difficulty, this`custom, this`board
    {
      board.Length0 == Conf().rows && board.Length1 == Conf().cols
    }

    /** The engine's invariant. Before the first click the board is blank; from the first click on it
        holds the configured number of mines and exact counts; until the game is over the counters
        are right. */
    ghost predicate Valid()
      reads this`cells, this`board, board, this`difficulty, this`custom, this`minesCount
      reads this`gameStarted, this`gameOver, this`revealedCount, this`flagsCount
    {
      Mirrors() && CustomAccepted(custom.rows, custom.cols, custom.mines) &&
      Sized() && minesCount == Conf().mines &&
      GameOk(cells, board.Length0, board.Length1, minesCount, gameStarted, gameOver, revealedCount, flagsCount)
    }

    /** A new engine: easy difficulty, the initial custom slot, the saved best-times lists or, when
        nothing was saved, three empty ones, and a fresh game. */
    constructor (saved: Option<map<Difficulty, seq<Score>>>)
      ensures Valid() && fresh(board)
      ensures difficulty == Easy && custom == InitialCustom && !gameStarted
      ensures scores == if saved.Some? then saved.value else map[Easy := [], Medium := [], Hard := []]
    {
      difficulty := Easy;
      custom := InitialCustom;
      scores := if saved.Some? then saved.value else map[Easy := [], Medium := [], Hard := []];
      board := new Cell[0, 0];
      cells := [];
      new;
      StartNewGame();
    }

    /** Resets the counters and flags and builds an empty board of the selected size. */
    method StartNewGame()
      requires CustomAccepted(custom.rows, custom.cols, custom.mines)
      modifies this
      ensures Valid() && fresh(board)
      ensures !gameStarted && !gameOver && revealedCount == 0 && flagsCount == 0
      ensures cells == Blank(Conf().rows, Conf().cols) && minesCount == Conf().mines
      ensures difficulty == old(difficulty) && custom == old(custom) && scores == old(scores)
    {
      var cfg := Conf();
      if difficulty == Custom {
        AcceptedIsPlayable(custom.rows, custom.cols, custom.mines);
      } else {
        PresetsArePlayable(difficulty);
      }
      gameOver := false;
      gameStarted := false;
      minesCount := cfg.mines;
      flagsCount := 0;
      revealedCount := 0;
      CreateBoard(cfg.rows, cfg.cols);
      BlankGameOk(cfg.rows, cfg.cols, cfg.mines);
    }

    /** A `rows` by `cols` board of hidden cells: no mine, nothing revealed, no flag, count zero. */
    method CreateBoard(rows: nat, cols: nat)
      modifies this`board, this`cells
      ensures fresh(board) && board.Length0 == rows && board.Length1 == cols
      ensures Mirrors() && cells == Blank(rows, cols)
    {
      board := new Cell[rows, cols]((_, _) => Hidden);
      cells := Blank(rows, cols);
    }

    /** Overwrites the cell at (row, col); every other cell keeps its value. */
    method SetCell(row: int, col: int, v: Cell)
      requires Mirrors() && 0 <= row < board.Length0 && 0 <= col < board.Length1
      modifies this`cells, board
      ensures Mirrors() && cells == Put(old(cells), row, col, v)
    {
      board[row, col] := v;
      cells := Put(cells, row, col, v);
    }

    /** The number of mines among the in-bounds neighbours of (row, col), not counting the cell itself. */
    method CountAdjacentMines(row: int, col: int) returns (count: int)
      requires Mirrors() && Sized()
      requires 0 <= row < board.Length0 && 0 <= col < board.Length1
      ensures count == AdjacentMines(cells, row, col)
    {
      count := 0;
      var cfg := Conf();
      var top, bottom := Max(0, row - 1), Min(cfg.rows - 1, row + 1);
      var left, right := Max(0, col - 1), Min(cfg.cols - 1, col + 1);
      var r := top;
      MinesBeforeNone(cells, row, col);
      while r <= bottom
        invariant top <= r <= bottom + 1
        invariant count == |MinesBefore(cells, row, col, r, col - 1)|
      {
        var c := left;
        MinesBeforeRowStart(cells, row, col, r);
        while c <= right
          invariant left <= c <= right + 1
          invariant count == |MinesBefore(cells, row, col, r, c)|
        {
          MinesBeforeCount(cells, row, col, r, c);
          if !(r == row && c == col) && board[r, c].isMine {
            count := count + 1;
          }
          c := c + 1;
        }
        MinesBeforeRowEnd(cells, row, col, r, c, cfg.cols);
        r := r + 1;
      }
      MinesBeforeAll(cells, row, col, r);
    }

    /** Lays `mines` mines on an empty board, never on the first-clicked cell, then writes the exact
        neighbour count into every safe cell. */
    method PlaceMines(firstRow: int, firstCol: int)
      requires Mirrors() && Sized() && 0 <= Conf().mines < board.Length0 * board.Length1
      requires 0 <= firstRow < board.Length0 && 0 <= firstCol < board.Length1
      requires cells == Blank(board.Length0, board.Length1)
      modifies this`cells, board
      ensures Mirrors() && MinesPlaced(cells, board.Length0, board.Length1, Conf().mines, firstRow, firstCol)
    {
      LayMines(firstRow, firstCol);
      LaidThenCounted(cells, board.Length0, board.Length1, Conf().mines, firstRow, firstCol);
      FillAdjacentCounts();
    }

    /** The first loop of `placeMines`. Each pass stands for the random draws of the source up to the
        first one that hits a free cell other than the first click: the draws it rejects change
        nothing, and the cell it accepts may be any such cell. */
    method LayMines(firstRow: int, firstCol: int)
      requires Mirrors() && Sized() && 0 <= Conf().mines < board.Length0 * board.Length1
      requires 0 <= firstRow < board.Length0 && 0 <= firstCol < board.Length1
      requires cells == Blank(board.Length0, board.Length1)
      modifies this`cells, board
      ensures Mirrors() && Count(cells, IsMine) == Conf().mines && !cells[firstRow][firstCol].isMine
      ensures OnlyMines(cells)
    {
      var cfg := Conf();
      var rows, cols, mines := cfg.rows, cfg.cols, cfg.mines;
      var minesPlaced := 0;
      BlankCounts(rows, cols);
      while minesPlaced < mines
        invariant 0 <= minesPlaced <= mines && Mirrors()
        invariant Count(cells, IsMine) == minesPlaced
        invariant OnlyMines(cells) && !cells[firstRow][firstCol].isMine
      {
        FreeCellExists(cells, rows, cols, firstRow, firstCol);
        ghost var a, b :| InGrid(cells, a, b) && !(a == firstRow && b == firstCol) && !cells[a][b].isMine;
        assert 0 <= a < rows && 0 <= b < cols && !board[a, b].isMine;
        var row, col :| 0 <= row < rows && 0 <= col < cols && !(row == firstRow && col == firstCol)
                        && !board[row, col].isMine;
        ghost var before := cells;
        SetCell(row, col, HiddenMine);
        LayOneMine(before, firstRow, firstCol, row, col);
        minesPlaced := minesPlaced + 1;
      }
    }

    /** The second loop of `placeMines`: every safe cell gets the number of mines around it. */
    method FillAdjacentCounts()
      requires Mirrors() && Sized()
      modifies this`cells, board
      ensures Mirrors() && cells == WithCounts(old(cells))
    {
      var cfg := Conf();
      var rows, cols := cfg.rows, cfg.cols;
      ghost var placed := cells;
      var row := 0;
      while row < rows
        invariant 0 <= row <= rows && Mirrors()
        invariant FilledUpTo(placed, cells, row, 0)
      {
        var col := 0;
        while col < cols
          invariant 0 <= col <= cols && Mirrors()
          invariant FilledUpTo(placed, cells, row, col)
        {
          ghost var before := cells;
          if board[row, col].isMine {
            FillSkip(placed, before, row, col);
          } else {
            var n := CountAdjacentMines(row, col);
            FilledSameMines(placed, before, row, col);
            AdjacentMinesFromMines(placed, before, row, col);
            SetCell(row, col, board[row, col].(adjacentMines := n));
            FillStep(placed, before, row, col, before[row][col].(adjacentMines := n));
          }
          col := col + 1;
        }
        FillRowEnd(placed, cells, row, rows, cols);
        row := row + 1;
      }
      FillDone(placed, cells, rows);
    }

    /** Reveals (row, col) and, from a cell with no mine around it, every neighbour in turn: a flood
        reveal. Nothing happens on a revealed or flagged cell. `revealedCount` goes up by one for
        every cell turned face up. */
    method RevealCell(row: int, col: int)
      requires Mirrors() && Sized()
      requires 0 <= row < board.Length0 && 0 <= col < board.Length1
      requires SafeZeros(cells) && !cells[row][col].isMine
      requires revealedCount == Count(cells, IsRevealed)
      modifies this`revealedCount, this`cells, board
      ensures Mirrors() && revealedCount == Count(cells, IsRevealed) && revealedCount >= old(revealedCount)
      ensures Revealed(old(cells), cells, row, col)
      decreases board.Length0 * board.Length1 - revealedCount, 0
    {
      ghost var g0 := cells;
      var cellData := board[row, col];
      if !cellData.isRevealed && !cellData.isFlagged {
        var shown := cellData.(isRevealed := true);
        CountAtMost(g0, board.Length0, board.Length1, IsRevealed);
        SetCell(row, col, shown);
        CountPut(g0, row, col, shown, IsRevealed);
        assert Ind(IsRevealed(g0[row][col])) == 0 && Ind(IsRevealed(shown)) == 1;
        revealedCount := revealedCount + 1;
        if cellData.adjacentMines == 0 {
          ScanStart(g0, row, col);
          RevealAround(row, col, g0);
          RevealedZero(g0, cells, row, col);
        } else {
          RevealedNumber(g0, row, col);
        }
      } else {
        RevealedNothing(g0, row, col);
      }
    }

    /** The loop of `revealCell` over the neighbours of a revealed zero (row, col), each revealed in turn. */
    method RevealAround(row: int, col: int, ghost g0: Board)
      requires Mirrors() && Sized()
      requires 0 <= row < board.Length0 && 0 <= col < board.Length1
      requires Scanning(g0, cells, row, col, Max(0, row - 1), col - 1)
      requires revealedCount == Count(cells, IsRevealed)
      modifies this`revealedCount, this`cells, board
      ensures Mirrors() && revealedCount == Count(cells, IsRevealed) && revealedCount >= old(revealedCount)
      ensures Flooded(g0, cells, row, col) && cells[row][col] == old(cells[row][col])
      decreases board.Length0 * board.Length1 - revealedCount, 3
    {
      var bottom := Min(Conf().rows - 1, row + 1);
      var r := Max(0, row - 1);
      while r <= bottom
        invariant Max(0, row - 1) <= r <= bottom + 1 && Mirrors()
        invariant revealedCount == Count(cells, IsRevealed) && revealedCount >= old(revealedCount)
        invariant Scanning(g0, cells, row, col, r, col - 1)
        invariant cells[row][col] == old(cells[row][col])
      {
        CountAtMost(cells, board.Length0, board.Length1, IsRevealed);
        RevealRow(row, col, r, g0);
        r := r + 1;
      }
      ScanDone(g0, cells, row, col, r);
    }

    /** The inner loop: the neighbours of (row, col) in board row r, left to right. */
    method RevealRow(row: int, col: int, r: int, ghost g0: Board)
      requires Mirrors() && Sized()
      requires 0 <= row < board.Length0 && 0 <= col < board.Length1 && 0 <= r < board.Length0
      requires row - 1 <= r <= row + 1
      requires Scanning(g0, cells, row, col, r, col - 1)
      requires revealedCount == Count(cells, IsRevealed)
      modifies this`revealedCount, this`cells, board
      ensures Mirrors() && revealedCount == Count(cells, IsRevealed) && revealedCount >= old(revealedCount)
      ensures Scanning(g0, cells, row, col, r + 1, col - 1) && cells[row][col] == old(cells[row][col])
      decreases board.Length0 * board.Length1 - revealedCount, 2
    {
      var right := Min(Conf().cols - 1, col + 1);
      var c := Max(0, col - 1);
      assert Scanning(g0, cells, row, col, r, c);
      while c <= right
        invariant Max(0, col - 1) <= c <= right + 1 && Mirrors()
        invariant revealedCount == Count(cells, IsRevealed) && revealedCount >= old(revealedCount)
        invariant Scanning(g0, cells, row, col, r, c)
        invariant cells[row][col] == old(cells[row][col])
      {
        if r == row && c == col {
          ScanSkip(g0, cells, row, col);
        } else {
          CountAtMost(cells, board.Length0, board.Length1, IsRevealed);
          RevealNeighbour(row, col, r, c, g0);
        }
        c := c + 1;
      }
      ScanRowEnd(g0, cells, row, col, r, c, board.Length1);
    }

    /** One pass of that loop: the flood reveal from the neighbour (r, c). */
    method RevealNeighbour(row: int, col: int, r: int, c: int, ghost g0: Board)
      requires Mirrors() && Sized()
      requires 0 <= r < board.Length0 && 0 <= c < board.Length1 && Adjacent(row, col, r, c)
      requires Scanning(g0, cells, row, col, r, c)
      requires revealedCount == Count(cells, IsRevealed)
      modifies this`revealedCount, this`cells, board
      ensures Mirrors() && revealedCount == Count(cells, IsRevealed) && revealedCount >= old(revealedCount)
      ensures Scanning(g0, cells, row, col, r, c + 1) && cells[row][col] == old(cells[row][col])
      decreases board.Length0 * board.Length1 - revealedCount, 1
    {
      ghost var before := cells;
      ScanSafe(g0, before, row, col, r, c);
      CountAtMost(before, board.Length0, board.Length1, IsRevealed);
      RevealCell(r, c);
      ScanStep(g0, before, cells, row, col, r, c);
      assert CellGrows(before[row][col], cells[row][col]);
    }
  
    /** A left click on (row, col). Ignored once the game is over and on a flagged or revealed cell.
        The first click starts the game and lays the mines around it. A mine loses: every mine is
        shown and the game is over. Otherwise the flood reveal from (row, col) runs; when it leaves
        no safe cell hidden the game is won, every mine gets a flag and, outside the custom
        difficulty, the time `elapsed` is recorded under the date `today`. `placed` is the board
        the click met once the mines were laid, `uncovered` the board after the flood reveal. */
    method HandleCellClick(row: int, col: int, elapsed: int, today: string)
      returns (ghost placed: Board, ghost uncovered: Board)
      requires Valid() && 0 <= row < board.Length0 && 0 <= col < board.Length1
      modifies this`gameOver, this`gameStarted, this`revealedCount, this`scores, this`cells, board
      ensures Valid()
      ensures old(gameOver || cells[row][col].isFlagged || cells[row][col].isRevealed) ==>
                cells == old(cells) && gameOver == old(gameOver) && gameStarted == old(gameStarted) &&
                revealedCount == old(revealedCount) && scores == old(scores)
      ensures !old(gameOver || cells[row][col].isFlagged || cells[row][col].isRevealed) ==>
                gameStarted &&
                (if old(gameStarted) then placed == old(cells)
                 else MinesPlaced(placed, board.Length0, board.Length1, minesCount, row, col))
      ensures !old(gameOver || cells[row][col].isFlagged || cells[row][col].isRevealed) && placed[row][col].isMine ==>
                gameOver && cells == MapCells(placed, ShowMine) && revealedCount == old(revealedCount) &&
                scores == old(scores)
      ensures !old(gameOver || cells[row][col].isFlagged || cells[row][col].isRevealed) && !placed[row][col].isMine ==>
                Revealed(placed, uncovered, row, col) && revealedCount == Count(uncovered, IsRevealed) &&
                (gameOver <==> AllSafeRevealed(uncovered)) &&
                cells == (if gameOver then MapCells(uncovered, FlagMine) else uncovered) &&
                scores == if gameOver && difficulty != Custom
                          then old(scores)[difficulty := Record(ListOf(old(scores), difficulty), Score(elapsed, today))]
                          else old(scores)
    {
      placed, uncovered := cells, cells;
      if gameOver || board[row, col].isFlagged || board[row, col].isRevealed {
        return;
      }
      if !gameStarted {
        StartGame(row, col);
        placed := cells;
      }
      if board[row, col].isMine {
        Lose();
        return;
      }
      uncovered := Uncover(row, col, elapsed, today);
    }

    /** The first click of a game, on (row, col), starts it and lays the mines, keeping that cell free. */
    method StartGame(row: int, col: int)
      requires Valid() && !gameStarted && 0 <= row < board.Length0 && 0 <= col < board.Length1
      modifies this`gameStarted, this`cells, board
      ensures Valid() && gameStarted && MinesPlaced(cells, board.Length0, board.Length1, minesCount, row, col)
    {
      gameStarted := true;
      PlaceMines(row, col);
      PlacedGameOk(cells, board.Length0, board.Length1, minesCount, row, col);
    }

    /** A click on a mine: every mine is shown and the game is lost. */
    method Lose()
      requires Valid() && gameStarted && !gameOver
      modifies this`gameOver, this`cells, board
      ensures Valid() && gameOver && cells == MapCells(old(cells), ShowMine)
    {
      ghost var g0 := cells;
      RevealAllMines();
      gameOver := true;
      EndedGameOk(g0, ShowMine, board.Length0, board.Length1, minesCount, revealedCount, flagsCount);
    }

    /** A click on a hidden, unflagged safe cell of a game in progress: the flood reveal from it, then
        the win test of the source, which compares the revealed count with the number of safe cells. */
    method Uncover(row: int, col: int, elapsed: int, today: string) returns (ghost uncovered: Board)
      requires Valid() && gameStarted && !gameOver && 0 <= row < board.Length0 && 0 <= col < board.Length1
      requires !cells[row][col].isMine && !cells[row][col].isFlagged && !cells[row][col].isRevealed
      modifies this`gameOver, this`revealedCount, this`cells, this`scores, board
      ensures Valid()
      ensures Revealed(old(cells), uncovered, row, col) && revealedCount == Count(uncovered, IsRevealed)
      ensures gameOver <==> AllSafeRevealed(uncovered)
      ensures cells == if gameOver then MapCells(uncovered, FlagMine) else uncovered
      ensures scores == if gameOver && difficulty != Custom
                        then old(scores)[difficulty := Record(ListOf(old(scores), difficulty), Score(elapsed, today))]
                        else old(scores)
    {
      ghost var g0 := cells;
      CountsGiveSafeZeros(g0);
      RevealCell(row, col);
      uncovered := cells;
      RevealedGameOk(g0, uncovered, board.Length0, board.Length1, minesCount, flagsCount, row, col);
      var cfg := Conf();
      if revealedCount == cfg.rows * cfg.cols - cfg.mines {
        Win(elapsed, today);
      }
    }

    /** Every safe cell is revealed: the game is won, every mine gets a flag and, outside the custom
        difficulty, the time is recorded. */
    method Win(elapsed: int, today: string)
      requires Mirrors() && Sized() && CustomAccepted(custom.rows, custom.cols, custom.mines)
      requires minesCount == Conf().mines && gameStarted
      requires GameOk(cells, board.Length0, board.Length1, minesCount, true, true, revealedCount, flagsCount)
      modifies this`gameOver, this`cells, this`scores, board
      ensures Valid() && gameOver && cells == MapCells(old(cells), FlagMine)
      ensures scores == if difficulty != Custom
                        then old(scores)[difficulty := Record(ListOf(old(scores), difficulty), Score(elapsed, today))]
                        else old(scores)
    {
      ghost var g0 := cells;
      gameOver := true;
      FlagAllMines();
      EndedGameOk(g0, FlagMine, board.Length0, board.Length1, minesCount, revealedCount, flagsCount);
      assert Valid();
      if difficulty != Custom {
        SaveScore(difficulty, elapsed, today);
      }
    }

    /** A right click on (row, col). Ignored once the game is over and on a revealed cell. The first
        click starts the game and lays the mines, keeping (row, col) free; then the cell's flag is
        turned over and `flagsCount` follows it. `placed` is the board the click met once the mines
        were laid. */
    method HandleRightClick(row: int, col: int) returns (ghost placed: Board)
      requires Valid() && 0 <= row < board.Length0 && 0 <= col < board.Length1
      modifies this`gameStarted, this`flagsCount, this`cells, board
      ensures Valid()
      ensures old(gameOver || cells[row][col].isRevealed) ==>
                cells == old(cells) && gameStarted == old(gameStarted) && flagsCount == old(flagsCount)
      ensures !old(gameOver || cells[row][col].isRevealed) ==>
                gameStarted &&
                (if old(gameStarted) then placed == old(cells)
                 else MinesPlaced(placed, board.Length0, board.Length1, minesCount, row, col)) &&
                cells == ToggleFlag(placed, row, col) &&
                flagsCount == if placed[row][col].isFlagged then old(flagsCount) - 1 else old(flagsCount) + 1
    {
      placed := cells;
      if gameOver || board[row, col].isRevealed {
        return;
      }
      if !gameStarted {
        StartGame(row, col);
        placed := cells;
      }
      ToggleFlagAt(row, col);
    }

    /** Turns over the flag of the hidden cell (row, col) of a game in progress; `flagsCount` follows. */
    method ToggleFlagAt(row: int, col: int)
      requires Valid() && gameStarted && !gameOver && 0 <= row < board.Length0 && 0 <= col < board.Length1
      requires !cells[row][col].isRevealed
      modifies this`flagsCount, this`cells, board
      ensures Valid() && cells == ToggleFlag(old(cells), row, col)
      ensures flagsCount == if old(cells[row][col].isFlagged) then old(flagsCount) - 1 else old(flagsCount) + 1
    {
      ToggledGameOk(cells, board.Length0, board.Length1, minesCount, revealedCount, flagsCount, row, col);
      var cellData := board[row, col];
      if cellData.isFlagged {
        SetCell(row, col, cellData.(isFlagged := false));
        flagsCount := flagsCount - 1;
      } else {
        SetCell(row, col, cellData.(isFlagged := true));
        flagsCount := flagsCount + 1;
      }
    }

    /** Turns every mine face up and changes nothing else; the counters are left as they are. */
    method RevealAllMines()
      requires Mirrors() && Sized()
      modifies this`cells, board
      ensures Mirrors() && cells == MapCells(old(cells), ShowMine)
    {
      var cfg := Conf();
      var rows, cols := cfg.rows, cfg.cols;
      ghost var g0 := cells;
      var row := 0;
      while row < rows
        invariant 0 <= row <= rows && Mirrors()
        invariant SweptUpTo(g0, cells, ShowMine, row, 0)
      {
        var col := 0;
        while col < cols
          invariant 0 <= col <= cols && Mirrors()
          invariant SweptUpTo(g0, cells, ShowMine, row, col)
        {
          if board[row, col].isMine {
            SweepStep(g0, cells, ShowMine, row, col);
            SetCell(row, col, board[row, col].(isRevealed := true));
          } else {
            SweepSkip(g0, cells, ShowMine, row, col);
          }
          col := col + 1;
        }
        SweepRowEnd(g0, cells, ShowMine, row, rows, cols);
        row := row + 1;
      }
      SweepDone(g0, cells, ShowMine, rows);
    }

    /** Puts a flag on every mine that has none and changes nothing else; `flagsCount` is left as it is. */
    method FlagAllMines()
      requires Mirrors() && Sized()
      modifies this`cells, board
      ensures Mirrors() && cells == MapCells(old(cells), FlagMine)
    {
      var cfg := Conf();
      var rows, cols := cfg.rows, cfg.cols;
      ghost var g0 := cells;
      var row := 0;
      while row < rows
        invariant 0 <= row <= rows && Mirrors()
        invariant SweptUpTo(g0, cells, FlagMine, row, 0)
      {
        var col := 0;
        while col < cols
          invariant 0 <= col <= cols && Mirrors()
          invariant SweptUpTo(g0, cells, FlagMine, row, col)
        {
          if board[row, col].isMine && !board[row, col].isFlagged {
            SweepStep(g0, cells, FlagMine, row, col);
            SetCell(row, col, board[row, col].(isFlagged := true));
          } else {
            SweepSkip(g0, cells, FlagMine, row, col);
          }
          col := col + 1;
        }
        SweepRowEnd(g0, cells, FlagMine, row, rows, cols);
        row := row + 1;
      }
      SweepDone(g0, cells, FlagMine, rows);
    }

    /** Records a win of `time` seconds on `date` in the list of difficulty `d` (an empty list when
        there is none yet): push, sort by time, keep the first ten. The list stays sorted and short. */
    method SaveScore(d: Difficulty, time: int, date: string)
      modifies this`scores
      ensures scores == old(scores)[d := Record(ListOf(old(scores), d), Score(time, date))]
      ensures SortedByTime(scores[d]) && |scores[d]| <= MaxScores
    {
      var list := ListOf(scores, d);
      RecordKeepsBest(list, Score(time, date));
      list := list + [Score(time, date)];
      list := SortByTime(list);
      if |list| > MaxScores {
        list := list[..MaxScores];
      }
      scores := scores[d := list];
    }

    /** Selects difficulty `d`. Selecting the difficulty already in force does nothing; any other
        starts a new game of the new size. */
    method ChangeDifficulty(d: Difficulty)
      requires Valid()
      modifies this
      ensures Valid() && difficulty == d && custom == old(custom) && scores == old(scores)
      ensures old(difficulty) == d ==> unchanged(this)
      ensures old(difficulty) != d ==>
                fresh(board) && cells == Blank(Conf().rows, Conf().cols) &&
                !gameStarted && !gameOver && revealedCount == 0 && flagsCount == 0
    {
      if difficulty != d {
        difficulty := d;
        StartNewGame();
      }
    }

    /** Applies the custom form: `rows`, `cols` and `mines` as `parseInt` reads the three fields,
        `None` standing for NaN. Settings that fail the check change nothing. Accepted ones go into
        the custom slot and a new game of the new size starts, whether or not the custom difficulty
        was already selected. */
    method ApplyCustomSettings(rows: Option<int>, cols: Option<int>, mines: Option<int>) returns (accepted: bool)
      requires Valid()
      modifies this
      ensures Valid() && scores == old(scores)
      ensures accepted <==> FieldsAccepted(rows, cols, mines)
      ensures !accepted ==> unchanged(this)
      ensures accepted ==>
                difficulty == Custom && custom == Config(rows.value, cols.value, mines.value) &&
                fresh(board) && cells == Blank(rows.value, cols.value) &&
                !gameStarted && !gameOver && revealedCount == 0 && flagsCount == 0
    {
      accepted := FieldsAccepted(rows, cols, mines);
      if !accepted {
        return;
      }
      custom := Config(rows.value, cols.value, mines.value);
      if difficulty == Custom {
        StartNewGame();
      } else {
        ChangeDifficulty(Custom);
      }
    }
  }
}
