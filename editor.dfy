/**
 * Editing the board in play: the guarded write of one cell, and the hint
 * that fills a random empty cell from the solution.
 */
module Editor {
  import opened Grid
  import opened Checker

  /** alterValue's two results: the board returned and the code stored through `error`. */
  datatype Edit = Edit(grid: Sudoku, error: int)

  /**
   * alterValue. A locked cell is never changed (error 1, checked first); a
   * value below 0 gives error 2 and one above 9 error 3, both leaving the
   * board alone; otherwise the cell gets the value (0 clears it), its lock
   * flag and every other cell stay as they were, and the error is 0.
   */
  function AlterValue(g: Sudoku, f: Field, newValue: int): (e: Edit)
    requires g.Wf() && f.InGrid()
    ensures e.grid.Wf() && e.grid.generated == g.generated
    ensures e.error == 1 <==> g.generated[f.row][f.column] == 1
    ensures e.error == 2 <==> g.generated[f.row][f.column] != 1 && newValue < 0
    ensures e.error == 3 <==> g.generated[f.row][f.column] != 1 && newValue > 9
    ensures e.error == 0 <==> g.generated[f.row][f.column] != 1 && 0 <= newValue <= 9
    ensures e.error != 0 ==> e.grid == g
    ensures e.error == 0 ==> e.grid.value[f.row][f.column] == newValue
    ensures forall r, c :: 0 <= r < 9 && 0 <= c < 9 && (r != f.row || c != f.column) ==>
      e.grid.value[r][c] == g.value[r][c]
  {
    if g.generated[f.row][f.column] == 1 then Edit(g, 1)
    else if newValue < 0 then Edit(g, 2)
    else if newValue > 9 then Edit(g, 3)
    else Edit(Sudoku(Put(g.value, f.row, f.column, newValue), g.generated), 0)
  }

  /** Writing the cell's previous value back undoes a successful edit. */
  lemma AlterValueUndo(g: Sudoku, f: Field, newValue: int)
    requires g.Wf() && f.InGrid() && 0 <= g.value[f.row][f.column] <= 9
    requires AlterValue(g, f, newValue).error == 0
    ensures AlterValue(AlterValue(g, f, newValue).grid, f, g.value[f.row][f.column]) == Edit(g, 0)
  {
    var h := AlterValue(AlterValue(g, f, newValue).grid, f, g.value[f.row][f.column]).grid;
    assert forall r :: 0 <= r < 9 ==> h.value[r] == g.value[r];
  }

  /** A cell the hint can fill: empty, unlocked, and with a solution value alterValue accepts. */
  predicate Fillable(solved: Sudoku, grid: Sudoku, f: Field)
    requires solved.Wf() && grid.Wf() && f.InGrid()
  {
    grid.value[f.row][f.column] == 0 && grid.generated[f.row][f.column] != 1 &&
    0 <= solved.value[f.row][f.column] <= 9
  }

  /**
   * fillRandomField. Only when the board has an empty cell, cells are drawn
   * (rand() pairs from `draws`) until one is Fillable; that one gets the
   * solution's value, nothing else changes, and `filled` is true. If every
   * draw misses, the draws are used up and the board is returned unchanged.
   */
  method FillRandomField(solved: Sudoku, grid: Sudoku, draws: seq<(nat, nat)>)
    returns (r: Sudoku, filled: bool, field: Field, rest: seq<(nat, nat)>)
    requires solved.Wf() && grid.Wf()
    ensures r.Wf() && Suffix(rest, draws)
    ensures EmptyCount(grid) == 0 ==> !filled && r == grid && rest == draws
    ensures !filled ==> r == grid && (EmptyCount(grid) == 0 || rest == [])
    ensures filled ==> (field.InGrid() && Fillable(solved, grid, field) &&
      r == Sudoku(Put(grid.value, field.row, field.column, solved.value[field.row][field.column]), grid.generated))
    ensures filled ==> |rest| < |draws| && DrawnCell(draws[|draws| - |rest| - 1]) == field
    ensures filled ==> forall t :: 0 <= t < |draws| - |rest| - 1 ==> !Fillable(solved, grid, DrawnCell(draws[t]))
    ensures !filled && EmptyCount(grid) > 0 ==> forall t :: 0 <= t < |draws| ==> !Fillable(solved, grid, DrawnCell(draws[t]))
    ensures filled && solved.value[field.row][field.column] != 0 ==> EmptyCount(r) == EmptyCount(grid) - 1
    ensures AgreesWith(grid, solved) ==> AgreesWith(r, solved)
  {
    var error := 1;
    r, filled, field, rest := grid, false, Field(0, 0), draws;
    var empty := CountEmptyFields(grid);
    if empty > 0 {
      while error != 0 && rest != []
        invariant Suffix(rest, draws) && r.Wf() && field.InGrid()
        invariant error != 0 ==> r == grid
        invariant error == 0 ==> (|rest| < |draws| && DrawnCell(draws[|draws| - |rest| - 1]) == field &&
          Fillable(solved, grid, field) &&
          r == Sudoku(Put(grid.value, field.row, field.column, solved.value[field.row][field.column]), grid.generated))
        invariant forall t :: 0 <= t < |draws| - |rest| - (if error == 0 then 1 else 0) ==>
          !Fillable(solved, grid, DrawnCell(draws[t]))
        decreases |rest|
      {
        field := Field(rest[0].0 % 9, rest[0].1 % 9);
        assert rest[0] == draws[|draws| - |rest|];
        rest := rest[1..];
        if grid.value[field.row][field.column] == 0 {
          var e := AlterValue(r, field, solved.value[field.row][field.column]);
          r, error := e.grid, e.error;
        }
      }
      filled := error == 0;
      if filled {
        EmptyCountAfterPut(grid, r, field.row, field.column, solved.value[field.row][field.column]);
      }
    }
  }
}
