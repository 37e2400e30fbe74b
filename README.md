# Minesweeper engine

A model of the game engine of a browser Minesweeper (`template/html/a/script.js`): one
`Minesweeper` object holds the selected difficulty, the custom configuration, the board, the game
counters and the best-times lists, and the click handlers change them in place.

The model keeps that shape. `Engine.Minesweeper` is a class whose board is an `array2<Cell>`
updated cell by cell. A ghost field `cells` mirrors the array as a value, and every method states
its effect on it. The pure modules give the meaning of those effects:

- `Grid` has the board as a value, counts over it, flag toggling, and the cell-by-cell passes of
  `revealAllMines` / `flagAllMines`.
- `Neighbours` has the clipped 8-neighbourhood, the exact neighbour counts, and the board that
  `placeMines` promises.
- `Cascade` has the flood reveal of `revealCell`, as a relation between the board before and the
  board after. The relation bounds the reveal from both sides. Every newly revealed zero has all
  its neighbours revealed or flagged. Every newly revealed cell lies in each set of cells that
  holds the start and is closed under "a hidden, unflagged, safe zero brings in its neighbours".
- `Settings` has the presets, the custom-settings check and the mines limit.
- `Scores` has the sorted, ten-entry best-times lists.

The engine invariant `Valid` says:

- the board has the size of the configuration in force;
- before the first click the board is blank;
- from the first click on it holds exactly the configured number of mines, and every safe cell
  shows its exact neighbour count;
- while the game is in play, `revealedCount` and `flagsCount` count the revealed and flagged
  cells, no mine is revealed, no cell is both revealed and flagged, and some safe cell is still
  hidden.

Every handler keeps `Valid`. The recursion of `revealCell` terminates: its `decreases` clause is
the number of cells not yet counted as revealed.

The random draws of `placeMines` are a nondeterministic choice. The elapsed time and the date of a
win are parameters. The saved best-times lists are a parameter of the constructor. The form fields
of the custom dialog are parameters of type `Option<int>`, `None` standing for the NaN that
`parseInt` gives for an empty or non-numeric field.

## Model

| member | source | states |
|---|---|---|
| Engine.Minesweeper.constructor | template/html/a/script.js:2-30 | easy difficulty, custom slot 10×10 with 10 mines, the saved lists or three empty ones, a fresh valid game |
| Engine.Minesweeper.StartNewGame | template/html/a/script.js:124-139 | counters reset, not started, not over, board blank and of the configured size; invariant established |
| Engine.Minesweeper.CreateBoard | template/html/a/script.js:141-152 | a fresh `rows`×`cols` array of hidden cells with no mine, no flag and count 0 |
| Engine.Minesweeper.PlaceMines | template/html/a/script.js:154-179 | exactly the configured number of mines, none on the first-clicked cell, every safe cell holds its exact count, nothing revealed or flagged |
| Engine.Minesweeper.LayMines | template/html/a/script.js:158-169 | the rejection loop lays exactly `mines` mines on distinct cells, never on the first click |
| Engine.Minesweeper.FillAdjacentCounts | template/html/a/script.js:171-178 | the board afterwards is the laid board with its exact neighbour count written into every safe cell and nothing else changed |
| Engine.Minesweeper.CountAdjacentMines | template/html/a/script.js:181-193 | the result is the number of mines among the in-bounds neighbours, the cell itself excluded |
| Engine.Minesweeper.HandleCellClick | template/html/a/script.js:248-291 | ignored when over, flagged or revealed; the first click lays mines around it; a mine shows all mines and ends the game; otherwise a flood reveal that reaches exactly the cells joined to the click through hidden zeros, and the game is over exactly when every safe cell is revealed, then mines are flagged and the time recorded outside custom |
| Engine.Minesweeper.StartGame | template/html/a/script.js:254-258 | the first click starts the game with mines placed away from the clicked cell |
| Engine.Minesweeper.Lose | template/html/a/script.js:260-268 | every mine shown, nothing else changed, game over |
| Engine.Minesweeper.Uncover | template/html/a/script.js:270-276 | flood reveal from the clicked safe cell, revealing no cell outside the region joined to it through hidden zeros; the revealed count reaching `rows*cols - mines` means every safe cell is revealed |
| Engine.Minesweeper.Win | template/html/a/script.js:276-290 | game over, every mine flagged, and outside custom the win recorded in that difficulty's list |
| Engine.Minesweeper.RevealCell | template/html/a/script.js:293-315 | nothing on a revealed or flagged cell; otherwise the cell is revealed, a numbered cell alone, a zero cell floods its neighbours and no cell that the recursion cannot reach from (row, col) is revealed; `revealedCount` counts the revealed cells |
| Engine.Minesweeper.RevealAround | template/html/a/script.js:305-314 | after the neighbour loop of a zero cell the flood is complete |
| Engine.Minesweeper.RevealRow | template/html/a/script.js:309-312 | one row of the neighbour window is dealt with; the scan invariant moves to the next row |
| Engine.Minesweeper.RevealNeighbour | template/html/a/script.js:310-311 | the recursive reveal of one neighbour extends the flood |
| Engine.Minesweeper.HandleRightClick | template/html/a/script.js:317-340 | ignored when over or revealed; the first click lays mines; then the flag is turned over and `flagsCount` moves by one in the matching direction |
| Engine.Minesweeper.ToggleFlagAt | template/html/a/script.js:328-339 | the cell's flag turned over, `flagsCount` one down or one up, invariant kept |
| Engine.Minesweeper.RevealAllMines | template/html/a/script.js:342-353 | the board becomes the old one with every mine revealed and nothing else changed |
| Engine.Minesweeper.FlagAllMines | template/html/a/script.js:355-368 | the board becomes the old one with every mine flagged and nothing else changed |
| Engine.Minesweeper.SaveScore | template/html/a/script.js:398-421 | the difficulty's list (empty when missing) gets the new entry, sorted by time, cut to ten; the others are untouched |
| Engine.Minesweeper.ChangeDifficulty | template/html/a/script.js:110-122 | selecting the current difficulty changes nothing; another one starts a new game of its size |
| Engine.Minesweeper.ApplyCustomSettings | template/html/a/script.js:94-108 | accepted exactly when the three fields are numbers that pass the check; rejected input changes nothing; accepted input is stored and a new game of that size starts |
| Engine.PlacedGameOk | template/html/a/script.js:254-258 | right after the mines are laid the started game satisfies the invariant with zero revealed and zero flags |
| Engine.ToggledGameOk | template/html/a/script.js:330-336 | toggling the flag of a hidden cell keeps the invariant with the flag count moved by one |
| Engine.RevealedGameOk | template/html/a/script.js:270-276 | after a flood reveal the counters are exact, and the win test holds exactly when all safe cells are revealed |
| Engine.EndedGameOk | template/html/a/script.js:260-262 | showing or flagging every mine at the end keeps the mines and the exact counts |
| Engine.WonBoardSettled | template/html/a/script.js:276-279 | after a win and `flagAllMines` no cell is left hidden without a flag |
| Engine.BlankGameOk | template/html/a/script.js:124-139 | a new blank game satisfies the invariant |
| Grid.BlankCounts | template/html/a/script.js:141-152 | a blank board has no mine, nothing revealed, no flag |
| Grid.FreeCellExists | template/html/a/script.js:158-169 | while fewer mines than `rows*cols - 1` are laid, some free cell other than the first click exists, so the rejection loop can go on |
| Grid.LayOneMine | template/html/a/script.js:167-168 | laying a mine on a free cell raises the mine count by one and keeps the first click free |
| Grid.WonIffAllSafeRevealed | template/html/a/script.js:273-276 | with no mine revealed, the revealed count never exceeds the safe cells and equals them exactly when every safe cell is revealed |
| Grid.ToggleFlagTwice | template/html/a/script.js:330-336 | turning a flag over twice restores the board |
| Grid.ToggleFlagCounts | template/html/a/script.js:330-336 | a toggle moves the flag count by exactly one and keeps the mine and revealed counts |
| Grid.SweepDone | template/html/a/script.js:345-352 | a full row-by-row pass maps every cell through the per-cell change |
| Neighbours.AdjacentMines | template/html/a/script.js:181-193 | a cell has at most eight mines around it |
| Neighbours.ZeroMeansNoMine | template/html/a/script.js:305-314 | a count of zero holds exactly when no in-bounds neighbour is a mine |
| Neighbours.CountsGiveSafeZeros | template/html/a/script.js:305-314 | with exact counts every neighbour of a safe zero cell is safe, so the flood never steps on a mine |
| Neighbours.WithCountsCorrect | template/html/a/script.js:171-178 | writing the counts moves no mine and makes every safe cell's count exact |
| Neighbours.LaidThenCounted | template/html/a/script.js:154-179 | laid mines then written counts give the promised board |
| Cascade.RevealedMeans | template/html/a/script.js:293-315 | a reveal turns face up only hidden, unflagged, safe cells and changes nothing else |
| Cascade.NumberedDone | template/html/a/script.js:300-305 | a numbered cell is revealed alone |
| Cascade.SpreadStep | template/html/a/script.js:308-313 | the flood from a neighbour of a zero cell extends the flood from that cell |
| Cascade.ScanStep | template/html/a/script.js:309-312 | the scan over the neighbours moves past a neighbour once its reveal is finished |
| Cascade.ScanDone | template/html/a/script.js:308-313 | once the whole window is scanned, every newly revealed zero has all neighbours revealed or flagged |
| Cascade.SafeZerosKept | template/html/a/script.js:293-315 | revealing cells keeps "neighbours of a zero are safe" |
| Cascade.FloodKeeps | template/html/a/script.js:293-315 | a flood keeps the mines, their counts and the flags, and only adds revealed cells |
| Cascade.RevealedUnique | template/html/a/script.js:293-315 | the reveal relation has exactly one outcome for a board and a start cell: the cells it must reveal are all it may reveal |
| Scores.InsertByTime | template/html/a/script.js:412 | inserting keeps a sorted list sorted and adds exactly one entry |
| Scores.SortByTime | template/html/a/script.js:412 | the result is sorted by time and a permutation of the input |
| Scores.RecordKeepsBest | template/html/a/script.js:398-417 | after a win the list is sorted, has `min(n+1, 10)` entries, holds only old entries and the new one, and nothing dropped is faster than anything kept |
| Scores.KeepBestOfSorted | template/html/a/script.js:415-417 | cutting a sorted list to ten keeps it sorted and drops only the slowest entries |
| Settings.CustomAcceptedMeans | template/html/a/script.js:100 | accepted exactly when both sides are 5 to 30 and the mines are 1 up to 90% of the cells, rounded down |
| Settings.AcceptedIsPlayable | template/html/a/script.js:100 | accepted settings leave at least three safe cells |
| Settings.PresetsArePlayable | template/html/a/script.js:3-8 | every preset has fewer mines than cells |
| Settings.CustomBoundaries | template/html/a/script.js:100 | 4 rows are rejected; 90 mines on 10×10 are accepted, 91 are not |
| Settings.ClampMines | template/html/a/script.js:75-80 | the mines value after the clamp is at most the limit and at most the input, and it is one of the two |
| Settings.ClampField | template/html/a/script.js:71-83 | on three numbers the clamp above; with an unreadable field the mines field is left alone |
| Settings.ClampedIsAccepted | template/html/a/script.js:75-80 | with valid sides and at least one mine, the clamped value passes the check |
| Settings.EmptyFieldPasses | template/html/a/script.js:95-103 | an empty rows field passes the check as written |
| Settings.FieldsAcceptedFixesNaN | template/html/a/script.js:95-103 | the intended check agrees with the written one on numbers and rejects unreadable fields |
| Settings.ApplyCustomAsWrittenStale | template/html/a/script.js:105-121 | as written, applying new settings while custom is selected leaves the board built for the old ones |
| Settings.ApplyCustomAsWrittenInSync | template/html/a/script.js:105-121 | as written, the board matches the configuration afterwards exactly when custom was not selected or the settings did not change |

## Left out

- The DOM: `renderBoard`, `updateCell`, the counters' and the timer's text, the modal dialog
  (`openCustomModal`, `closeCustomModal`), `updateMinesPercentage`, `updateScoreList`, the
  event wiring in `initEventListeners`, and the `max` attribute set by `updateMinesLimit`. They
  only display state or route events to the modelled handlers.
- The timer (`startTimer`, `stopTimer`, `setInterval`) and the delayed `alert`s. The elapsed
  seconds and the formatted date are parameters of `HandleCellClick`.
- `localStorage`: the lists `loadScores` reads are the constructor's `saved` parameter (`None`
  when nothing is stored), and the write at the end of `saveScore` is not modelled. The JSON shape
  of stored data is not checked.
- `Math.random`. Each pass of the mine-laying loop picks some free cell other than the first click;
  draws that the source rejects change nothing and are not modelled as separate passes.
- Floating point. `mines > rows * cols * 0.9` is modelled as `10 * mines > 9 * rows * cols`, and
  `Math.floor(rows * cols * 0.9)` as `(9 * rows * cols) / 10`. The two agree for integer inputs.
- `parseInt` itself: a field is a number or unreadable (`None`); the digits-prefix parsing of text
  is not modelled.
- Engine.Minesweeper.HandleCellClick: the board after `revealCell` is given by the flood-reveal
  relation `Cascade.Revealed`, which `Cascade.RevealedUnique` shows has a single outcome, rather
  than by a function computing the revealed set; the order in which cells are revealed is not
  stated.
- Engine.Minesweeper.RevealAllMines and Engine.Minesweeper.FlagAllMines: as in the source they do
  not update `revealedCount` or `flagsCount`, so after the game is over the invariant no longer
  ties those counters to the board.

## Findings

| source | as written | input that shows it | evidently intended | confidence | as-written member | corrected member |
|---|---|---|---|---|---|---|
| template/html/a/script.js:105-121 | the new custom settings are stored, then `changeDifficulty('custom')` runs, which rebuilds the board only when another difficulty was selected | with the custom difficulty selected (10×10, 10 mines), apply 20, 20, 10: the board stays 10×10 while mine laying draws rows up to 19 and the win test expects 390 safe cells | a new game of the new size always starts | high, not executed | Settings.ApplyCustomAsWrittenStale | Engine.Minesweeper.ApplyCustomSettings |
| template/html/a/script.js:95-103 | every comparison in the check is false when `parseInt` gives NaN, so an empty or non-numeric field passes | rows field empty, cols 10, mines 10: the check passes and the custom slot gets NaN rows, giving an empty board | an unreadable field is rejected like an out-of-range one | medium, not executed (the form's markup is not part of this model) | Settings.EmptyFieldPasses | Settings.FieldsAcceptedFixesNaN |
