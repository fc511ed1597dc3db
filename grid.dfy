/**
 * The grid model shared by every part of the engine: a 9x9 board of cell
 * values with a parallel 9x9 matrix of lock flags, a cell address, and the
 * savegame record that pairs a solved board with a board in play.
 */
module Grid {

  /** Difficulty levels accepted by the puzzle carver. */
  const EASY: int := 1
  const MEDIUM: int := 2
  const DIFFICULT: int := 3

  /** Result codes of the puzzle importer. */
  const PARSER_VALID: int := 0
  const PARSER_FILE_INACCESSIBLE: int := 1
  const PARSER_SUDOKU_NUMBERS_INVALID: int := 2
  const PARSER_SUDOKU_INVALID: int := 3

  /** A 9x9 matrix of C ints, row-major: m[row][column]. */
  type Matrix = seq<seq<int>>

  predicate Shaped(m: Matrix)
  {
    |m| == 9 && forall r :: 0 <= r < 9 ==> |m[r]| == 9
  }

  /** A matrix whose 81 entries are all `v`. */
  function Filled(v: int): (m: Matrix)
    ensures Shaped(m)
    ensures forall r, c :: 0 <= r < 9 && 0 <= c < 9 ==> m[r][c] == v
  {
    seq(9, _ => seq(9, _ => v))
  }

  /** The matrix with entry (r, c) replaced by v. */
  function Put(m: Matrix, r: int, c: int, v: int): (m': Matrix)
    requires Shaped(m) && 0 <= r < 9 && 0 <= c < 9
    ensures Shaped(m')
    ensures m'[r][c] == v
    ensures forall i, j :: 0 <= i < 9 && 0 <= j < 9 && (i != r || j != c) ==> m'[i][j] == m[i][j]
  {
    m[r := m[r][c := v]]
  }

  /**
   * One board: `value` holds 0 for an empty cell and the digit otherwise;
   * `generated` holds 1 for a locked cell (part of the puzzle) and 0 for a
   * cell the player may edit.
   */
  datatype Sudoku = Sudoku(value: Matrix, generated: Matrix)
  {
    predicate Wf()
    {
      Shaped(value) && Shaped(generated)
    }
  }

  /** The all-zero board: every cell empty and unlocked. */
  function EmptySudoku(): (g: Sudoku)
    ensures g.Wf()
  {
    Sudoku(Filled(0), Filled(0))
  }

  /** A cell address. */
  datatype Field = Field(row: int, column: int)
  {
    predicate InGrid()
    {
      0 <= row < 9 && 0 <= column < 9
    }
  }

  /** The cell that the pair of rand() results `d` names. */
  function DrawnCell(d: (nat, nat)): (f: Field)
    ensures f.InGrid()
  {
    Field(d.0 % 9, d.1 % 9)
  }

  /** `rest` is what remains of `draws` after some were consumed from the front. */
  predicate Suffix<T(==)>(rest: seq<T>, draws: seq<T>)
  {
    |rest| <= |draws| && rest == draws[|draws| - |rest|..]
  }

  /** A saved game: the solution, the board in play and the elapsed seconds. */
  datatype Savegame = Savegame(solved: Sudoku, grid: Sudoku, pastTime: nat)

  /** Every cell of the board is locked. */
  predicate AllLocked(g: Sudoku)
    requires g.Wf()
  {
    forall r, c :: 0 <= r < 9 && 0 <= c < 9 ==> g.generated[r][c] == 1
  }

  /** Every digit on board `g` is the digit of `solved` at the same cell. */
  predicate AgreesWith(g: Sudoku, solved: Sudoku)
    requires g.Wf() && solved.Wf()
  {
    forall r, c :: 0 <= r < 9 && 0 <= c < 9 && g.value[r][c] != 0 ==> g.value[r][c] == solved.value[r][c]
  }
}
