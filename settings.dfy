/** Difficulty presets, the one custom slot, and the validation of custom settings. */
module Settings {

  datatype Difficulty = Easy | Medium | Hard | Custom

  datatype Option<T> = None | Some(value: T)

  /** Board height, board width and number of mines of one difficulty. */
  datatype Config = Config(rows: int, cols: int, mines: int)

  /** The fixed presets. */
  function Preset(d: Difficulty): Config
    requires d != Custom
  {
    match d
    case Easy => Config(9, 9, 10)
    case Medium => Config(16, 16, 40)
    case Hard => Config(16, 30, 99)
  }

  /** The custom slot's value when the game is created. */
  const InitialCustom := Config(10, 10, 10)

  /** The configuration in force: a preset, or the custom slot. */
  function ConfigOf(d: Difficulty, custom: Config): Config {
    if d == Custom then custom else Preset(d)
  }

  /** The largest mine count the custom form allows: 90% of the cells, rounded down. The source
      computes `Math.floor(rows * cols * 0.9)` in floating point; for integer products that is
      exactly `(9 * rows * cols) / 10` with division rounding down. */
  function MaxMines(rows: int, cols: int): int {
    (9 * rows * cols) / 10
  }

  /** The check custom settings must pass; `mines > rows * cols * 0.9` is written `10 * mines > 9 * rows * cols`. */
  predicate CustomAccepted(rows: int, cols: int, mines: int) {
    !(rows < 5 || rows > 30 || cols < 5 || cols > 30 || mines < 1 || 10 * mines > 9 * rows * cols)
  }

  /** Accepted exactly when both sides are 5..30 and the mines are 1 up to 90% of the cells. */
  lemma CustomAcceptedMeans(rows: int, cols: int, mines: int)
    ensures CustomAccepted(rows, cols, mines) <==>
            5 <= rows <= 30 && 5 <= cols <= 30 && 1 <= mines <= MaxMines(rows, cols)
  {
    var n := 9 * rows * cols;
    assert n == 10 * (n / 10) + n % 10 && 0 <= n % 10 < 10;
  }

  /** An accepted configuration has mines, and at least three safe cells. */
  lemma AcceptedIsPlayable(rows: int, cols: int, mines: int)
    requires CustomAccepted(rows, cols, mines)
    ensures 1 <= mines < rows * cols
    ensures rows * cols - mines >= 3
  {
    assert rows * cols >= 25 by {
      assert rows * cols >= 5 * cols >= 25;
    }
  }

  /** Every preset leaves safe cells to reveal. */
  lemma PresetsArePlayable(d: Difficulty)
    requires d != Custom
    ensures 0 <= Preset(d).mines < Preset(d).rows * Preset(d).cols
    ensures Preset(d).rows >= 1 && Preset(d).cols >= 1
  {
  }

  /** The boundary cases: 4 rows are rejected; on a 10 by 10 board 90 mines are accepted and 91 rejected. */
  lemma CustomBoundaries()
    ensures !CustomAccepted(4, 10, 10)
    ensures CustomAccepted(10, 10, 90) && !CustomAccepted(10, 10, 91)
    ensures MaxMines(10, 10) == 90 && MaxMines(5, 5) == 22
  {
  }

  /** `updateMinesLimit`: a mines value above the limit is lowered to it, any other is kept. */
  function ClampMines(rows: int, cols: int, mines: int): (m: int)
    ensures m <= MaxMines(rows, cols)
    ensures m <= mines
    ensures m == mines || m == MaxMines(rows, cols)
  {
    if mines > MaxMines(rows, cols) then MaxMines(rows, cols) else mines
  }

  /** With valid sides and at least one mine, the clamped value passes the check. */
  lemma ClampedIsAccepted(rows: int, cols: int, mines: int)
    requires 5 <= rows <= 30 && 5 <= cols <= 30 && 1 <= mines
    ensures CustomAccepted(rows, cols, ClampMines(rows, cols, mines))
  {
    assert 9 * rows * cols >= 9 * 25 by {
      assert rows * cols >= 5 * cols >= 25;
    }
    CustomAcceptedMeans(rows, cols, ClampMines(rows, cols, mines));
  }

  /** `updateMinesLimit` on the three form fields as `parseInt` reads them, `None` standing for NaN (an
      empty or non-numeric field). With a side unreadable the limit is NaN and no comparison with it
      holds, so the mines field is left alone. */
  function ClampField(rows: Option<int>, cols: Option<int>, mines: Option<int>): (m: Option<int>)
    ensures rows.Some? && cols.Some? && mines.Some? ==> m == Some(ClampMines(rows.value, cols.value, mines.value))
    ensures rows.None? || cols.None? || mines.None? ==> m == mines
  {
    if rows.Some? && cols.Some? && mines.Some? && mines.value > MaxMines(rows.value, cols.value)
    then Some(MaxMines(rows.value, cols.value))
    else mines
  }

  /** `x < k` in JavaScript, NaN included: never true for NaN. */
  predicate Below(x: Option<int>, k: int) {
    x.Some? && x.value < k
  }

  /** `x > k` in JavaScript, NaN included. */
  predicate Above(x: Option<int>, k: int) {
    x.Some? && x.value > k
  }

  /** The validation of `applyCustomSettings` as written, on fields read with `parseInt`. The test
      `mines > rows * cols * 0.9` is false as soon as one operand is NaN. */
  predicate PassesCheckAsWritten(rows: Option<int>, cols: Option<int>, mines: Option<int>) {
    !(Below(rows, 5) || Above(rows, 30) || Below(cols, 5) || Above(cols, 30) || Below(mines, 1) ||
      (rows.Some? && cols.Some? && mines.Some? && 10 * mines.value > 9 * rows.value * cols.value))
  }

  /** An empty rows field passes the check as written: the custom slot would get NaN rows. */
  lemma EmptyFieldPasses()
    ensures PassesCheckAsWritten(None, Some(10), Some(10))
    ensures PassesCheckAsWritten(None, None, None)
  {
  }

  /** The validation as intended: three numbers that pass the check. */
  predicate FieldsAccepted(rows: Option<int>, cols: Option<int>, mines: Option<int>) {
    rows.Some? && cols.Some? && mines.Some? && CustomAccepted(rows.value, cols.value, mines.value)
  }

  /** The intended check agrees with the written one on numbers and rejects every unreadable field. */
  lemma FieldsAcceptedFixesNaN(rows: Option<int>, cols: Option<int>, mines: Option<int>)
    ensures FieldsAccepted(rows, cols, mines) <==>
            rows.Some? && cols.Some? && mines.Some? && PassesCheckAsWritten(rows, cols, mines)
    ensures rows.Some? && cols.Some? && mines.Some? ==>
            (PassesCheckAsWritten(rows, cols, mines) <==> CustomAccepted(rows.value, cols.value, mines.value))
  {
  }

  /** The selected difficulty, the custom slot and the configuration the board was last built for. */
  datatype Setup = Setup(difficulty: Difficulty, custom: Config, built: Config)

  /** The board was built for the configuration in force. */
  predicate InSync(s: Setup) {
    s.built == ConfigOf(s.difficulty, s.custom)
  }

  /** `applyCustomSettings` with accepted settings `c`, as written: it stores `c` in the custom slot and
      calls `changeDifficulty('custom')`, which rebuilds the board only when another difficulty was
      selected. */
  function ApplyCustomAsWritten(s: Setup, c: Config): Setup {
    if s.difficulty != Custom then Setup(Custom, c, c) else s.(custom := c)
  }

  /** As written, applying settings while custom is selected leaves the board built for the old ones:
      from the initial 10 by 10 custom game, applying 20 by 20 keeps a 10 by 10 board while the
      mine laying and the win test use 20 by 20. */
  lemma ApplyCustomAsWrittenStale()
    ensures var s := Setup(Custom, InitialCustom, InitialCustom);
            InSync(s) && !InSync(ApplyCustomAsWritten(s, Config(20, 20, 10)))
  {
  }

  /** As written, the board stays in step exactly when custom was not selected or the settings did not change. */
  lemma ApplyCustomAsWrittenInSync(s: Setup, c: Config)
    requires InSync(s)
    ensures InSync(ApplyCustomAsWritten(s, c)) <==> s.difficulty != Custom || s.custom == c
  {
  }
}
