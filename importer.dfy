/**
 * Importing a puzzle from a file: after the 81 numbers have been scanned,
 * every cell is locked and the numbers are checked to be digits 1..9.
 */
module Importer {
  import opened Grid
  import opened Checker

  /** Every value is a digit 1..9 and every cell is locked. */
  predicate ParsedValid(g: Sudoku)
    requires g.Wf()
  {
    forall r, c :: 0 <= r < 9 && 0 <= c < 9 ==> 1 <= g.value[r][c] <= 9 && g.generated[r][c] == 1
  }

  /**
   * checkParsedSudoku: scans all 81 cells and reports
   * PARSER_SUDOKU_NUMBERS_INVALID if any value lies outside 1..9 or any lock
   * flag is not 1, PARSER_VALID otherwise.
   */
  method CheckParsedSudoku(g: Sudoku) returns (isError: int)
    requires g.Wf()
    ensures isError == PARSER_VALID || isError == PARSER_SUDOKU_NUMBERS_INVALID
    ensures isError == PARSER_VALID <==> ParsedValid(g)
  {
    isError := PARSER_VALID;
    for i := 0 to 9
      invariant isError == PARSER_VALID || isError == PARSER_SUDOKU_NUMBERS_INVALID
      invariant isError == PARSER_VALID <==>
        forall r, c :: 0 <= r < i && 0 <= c < 9 ==> 1 <= g.value[r][c] <= 9 && g.generated[r][c] == 1
    {
      for j := 0 to 9
        invariant isError == PARSER_VALID || isError == PARSER_SUDOKU_NUMBERS_INVALID
        invariant isError == PARSER_VALID <==>
          (forall r, c :: 0 <= r < i && 0 <= c < 9 ==> 1 <= g.value[r][c] <= 9 && g.generated[r][c] == 1) &&
          (forall c :: 0 <= c < j ==> 1 <= g.value[i][c] <= 9 && g.generated[i][c] == 1)
      {
        var value := g.value[i][j];
        var generated := g.generated[i][j];
        if value < 1 || value > 9 || generated != 1 {
          isError := PARSER_SUDOKU_NUMBERS_INVALID;
        }
      }
    }
  }

  /**
   * parseToSudoku from the scanned numbers on: `values` are the 81 integers
   * read row by row; every lock flag is set to 1 by the nested loop and the
   * result is checked with checkParsedSudoku.
   */
  method ParseToSudoku(values: Matrix) returns (g: Sudoku, error: int)
    requires Shaped(values)
    ensures g.Wf() && g.value == values && AllLocked(g)
    ensures error == PARSER_VALID || error == PARSER_SUDOKU_NUMBERS_INVALID
    ensures error == PARSER_VALID <==> forall r, c :: 0 <= r < 9 && 0 <= c < 9 ==> 1 <= values[r][c] <= 9
  {
    var generated := Filled(0);
    for i := 0 to 9
      invariant Shaped(generated)
      invariant forall r, c :: 0 <= r < i && 0 <= c < 9 ==> generated[r][c] == 1
    {
      for j := 0 to 9
        invariant Shaped(generated)
        invariant forall r, c :: 0 <= r < i && 0 <= c < 9 ==> generated[r][c] == 1
        invariant forall c :: 0 <= c < j ==> generated[i][c] == 1
      {
        generated := Put(generated, i, j, 1);
      }
    }
    g := Sudoku(values, generated);
    error := CheckParsedSudoku(g);
  }

  /**
   * The import check alone does not make a puzzle valid: nine copies of the
   * row 1..9 pass it, yet every column repeats, so checkSudoku rejects the
   * board; the import is accepted only after checkSudoku passes too.
   */
  lemma RangeCheckAdmitsRepeats()
    ensures exists g: Sudoku :: g.Wf() && ParsedValid(g) && !NoRepeats(g)
  {
    var row := seq(9, c => c + 1);
    var g := Sudoku(seq(9, _ => row), Filled(1));
    assert g.Wf();
    assert ParsedValid(g);
    assert g.value[0][0] == g.value[1][0];
    assert !UniqueInUnits(g, 0, 0);
  }
}
