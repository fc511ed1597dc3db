/**
 * makeSodukoPlayable: turns a completed board into a puzzle by emptying a
 * number of randomly chosen cells that depends on the difficulty. An emptied
 * cell gets value 0 and loses its lock.
 */
module Carver {
  import opened Grid
  import opened Checker

  /** The number of cells to empty: 25 for easy, 45 for difficult, 35 otherwise. */
  function EmptyTarget(difficulty: int): (n: nat)
  {
    if difficulty == EASY then 25 else if difficulty == DIFFICULT then 45 else 35
  }

  /**
   * The do-while loop of makeSodukoPlayable: draw cells until one is not
   * empty. When `found`, (row, column) is the first drawn cell that holds a
   * digit, and every cell drawn before it is empty; otherwise every draw
   * named an empty cell and all were used up.
   */
  method DrawFilledCell(value: Matrix, draws: seq<(nat, nat)>) returns (found: bool, row: int, column: int, rest: seq<(nat, nat)>)
    requires Shaped(value)
    ensures Suffix(rest, draws)
    ensures found ==> |rest| < |draws| && 0 <= row < 9 && 0 <= column < 9 && value[row][column] != 0
    ensures found ==> DrawnCell(draws[|draws| - |rest| - 1]) == Field(row, column)
    ensures found ==> forall t :: 0 <= t < |draws| - |rest| - 1 ==>
      value[DrawnCell(draws[t]).row][DrawnCell(draws[t]).column] == 0
    ensures !found ==> rest == [] && forall t :: 0 <= t < |draws| ==>
      value[DrawnCell(draws[t]).row][DrawnCell(draws[t]).column] == 0
  {
    found, row, column, rest := false, 0, 0, draws;
    while !found && rest != []
      invariant Suffix(rest, draws)
      invariant found ==> |rest| < |draws| && 0 <= row < 9 && 0 <= column < 9 && value[row][column] != 0
      invariant found ==> DrawnCell(draws[|draws| - |rest| - 1]) == Field(row, column)
      invariant forall t :: 0 <= t < |draws| - |rest| - (if found then 1 else 0) ==>
        value[DrawnCell(draws[t]).row][DrawnCell(draws[t]).column] == 0
      decreases |rest|
    {
      row := rest[0].0 % 9;
      column := rest[0].1 % 9;
      assert rest[0] == draws[|draws| - |rest|];
      rest := rest[1..];
      found := value[row][column] != 0;
    }
  }

  /**
   * makeSodukoPlayable. `draws` are the rand() pairs (row, column) of the
   * cell choices. The board keeps every cell but the `carved` ones, each of
   * which a used draw named, held a digit and is now empty and unlocked;
   * every used draw names an empty cell at the end; so the empty count
   * grows by exactly `carved`. `carved` reaches the target for the
   * difficulty unless the draws ran out first.
   */
  method MakeSodukoPlayable(g: Sudoku, difficulty: int, draws: seq<(nat, nat)>) returns (r: Sudoku, carved: nat, rest: seq<(nat, nat)>)
    requires g.Wf()
    ensures r.Wf() && Suffix(rest, draws)
    ensures carved <= EmptyTarget(difficulty)
    ensures carved < EmptyTarget(difficulty) ==> rest == []
    ensures EmptyCount(r) == EmptyCount(g) + carved
    ensures AgreesWith(r, g)
    ensures forall t :: 0 <= t < |draws| - |rest| ==>
      r.value[DrawnCell(draws[t]).row][DrawnCell(draws[t]).column] == 0
    ensures forall i, j :: 0 <= i < 9 && 0 <= j < 9 && r.value[i][j] != g.value[i][j] ==>
      exists t :: 0 <= t < |draws| - |rest| && DrawnCell(draws[t]) == Field(i, j)
    ensures forall i, j :: 0 <= i < 9 && 0 <= j < 9 ==>
      (r.value[i][j] == g.value[i][j] && r.generated[i][j] == g.generated[i][j]) ||
      (g.value[i][j] != 0 && r.value[i][j] == 0 && r.generated[i][j] == 0)
  {
    var emptyFields;
    if difficulty == 1 {
      emptyFields := 25;
    } else if difficulty == 3 {
      emptyFields := 45;
    } else {
      emptyFields := 35;
    }
    r, carved, rest := g, 0, draws;
    var i := emptyFields;
    while i > 0
      invariant 0 <= i <= emptyFields && carved == emptyFields - i
      invariant r.Wf() && Suffix(rest, draws)
      invariant EmptyCount(r) == EmptyCount(g) + carved
      invariant Carving(g, r, draws, |draws| - |rest|)
    {
      var found, row, column, rest' := DrawFilledCell(r.value, rest);
      assert rest' == draws[|draws| - |rest'|..];
      UsedDrawsEmpty(g, r, draws, rest, rest', found);
      rest := rest';
      if !found {
        break;
      }
      var next := Sudoku(Put(r.value, row, column, 0), Put(r.generated, row, column, 0));
      CarveStep(g, r, next, draws, |draws| - |rest|, row, column);
      r := next;
      carved := carved + 1;
      i := i - 1;
    }
  }

  /**
   * What carving keeps true of the board r after the first `used` draws:
   * each of them names an empty cell, each changed cell was named by one of
   * them, and each cell either is as in g or held a digit and is now empty
   * and unlocked.
   */
  predicate Carving(g: Sudoku, r: Sudoku, draws: seq<(nat, nat)>, used: int)
    requires g.Wf() && r.Wf() && 0 <= used <= |draws|
  {
    && (forall t :: 0 <= t < used ==>
      r.value[DrawnCell(draws[t]).row][DrawnCell(draws[t]).column] == 0)
    && (forall i, j :: 0 <= i < 9 && 0 <= j < 9 && r.value[i][j] != g.value[i][j] ==>
      exists t :: 0 <= t < used && DrawnCell(draws[t]) == Field(i, j))
    && (forall i, j :: 0 <= i < 9 && 0 <= j < 9 ==>
      (r.value[i][j] == g.value[i][j] && r.generated[i][j] == g.generated[i][j]) ||
      (g.value[i][j] != 0 && r.value[i][j] == 0 && r.generated[i][j] == 0))
  }

  /**
   * Carving the filled cell that draw used - 1 names, when every earlier draw
   * names an empty cell, keeps Carving and adds one empty cell.
   */
  lemma CarveStep(g: Sudoku, r: Sudoku, next: Sudoku, draws: seq<(nat, nat)>, used: int, row: int, column: int)
    requires g.Wf() && r.Wf() && 0 < used <= |draws| && 0 <= row < 9 && 0 <= column < 9
    requires Carving(g, r, draws, used - 1)
    requires DrawnCell(draws[used - 1]) == Field(row, column) && r.value[row][column] != 0
    requires next == Sudoku(Put(r.value, row, column, 0), Put(r.generated, row, column, 0))
    ensures next.Wf() && Carving(g, next, draws, used)
    ensures EmptyCount(next) == EmptyCount(r) + 1
  {
    CarvingKeepsDrawsEmpty(r.value, row, column, draws, used);
    EmptyCountAfterPut(r, next, row, column, 0);
    forall i, j | 0 <= i < 9 && 0 <= j < 9 && next.value[i][j] != g.value[i][j]
      ensures exists t :: 0 <= t < used && DrawnCell(draws[t]) == Field(i, j)
    {
      if i == row && j == column {
        assert DrawnCell(draws[used - 1]) == Field(i, j);
      } else {
        var t :| 0 <= t < used - 1 && DrawnCell(draws[t]) == Field(i, j);
      }
    }
  }

  /**
   * One call of the do-while loop extends the draws known to name empty
   * cells: those used before it, and the ones it passed over. When it found a
   * cell, that last draw names the cell about to be carved.
   */
  lemma UsedDrawsEmpty(g: Sudoku, r: Sudoku, draws: seq<(nat, nat)>, rest: seq<(nat, nat)>, rest': seq<(nat, nat)>, found: bool)
    requires g.Wf() && r.Wf() && Suffix(rest, draws) && Suffix(rest', rest)
    requires found ==> |rest'| < |rest|
    requires Carving(g, r, draws, |draws| - |rest|)
    requires forall t :: 0 <= t < |rest| - |rest'| - (if found then 1 else 0) ==>
      r.value[DrawnCell(rest[t]).row][DrawnCell(rest[t]).column] == 0
    ensures Carving(g, r, draws, |draws| - |rest'| - (if found then 1 else 0))
  {
    var used := |draws| - |rest|;
    forall t | used <= t < |draws| - |rest'| - (if found then 1 else 0)
      ensures r.value[DrawnCell(draws[t]).row][DrawnCell(draws[t]).column] == 0
    {
      assert draws[t] == rest[t - used];
    }
    forall i, j | 0 <= i < 9 && 0 <= j < 9 && r.value[i][j] != g.value[i][j]
      ensures exists t :: 0 <= t < |draws| - |rest'| - (if found then 1 else 0) && DrawnCell(draws[t]) == Field(i, j)
    {
      var t :| 0 <= t < used && DrawnCell(draws[t]) == Field(i, j);
    }
  }

  /** Carving a cell writes a zero, so every cell the used draws name stays empty, and so does the carved one. */
  lemma CarvingKeepsDrawsEmpty(value: Matrix, row: int, column: int, draws: seq<(nat, nat)>, used: int)
    requires Shaped(value) && 0 <= row < 9 && 0 <= column < 9 && 0 < used <= |draws|
    requires DrawnCell(draws[used - 1]) == Field(row, column)
    requires forall t :: 0 <= t < used - 1 ==>
      value[DrawnCell(draws[t]).row][DrawnCell(draws[t]).column] == 0
    ensures forall t :: 0 <= t < used ==>
      Put(value, row, column, 0)[DrawnCell(draws[t]).row][DrawnCell(draws[t]).column] == 0
  {
  }
}
