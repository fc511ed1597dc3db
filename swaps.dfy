/**
 * Row and column exchanges inside one band of three, and the random
 * shuffles built from them. Exchanging two rows (or columns) of the same
 * band maps a completed Sudoku to a completed Sudoku, which is what lets the
 * generator scramble its base pattern without breaking it.
 */
module Swaps {
  import opened Grid
  import opened Permutation
  import opened Checker

  /** The transposition of `a` and `b`, applied to index `i`. */
  function Exchange(i: int, a: int, b: int): (k: int)
    ensures (i == a ==> k == b) && (i == b ==> k == a) && (i != a && i != b ==> k == i)
  {
    if i == a then b else if i == b then a else i
  }

  /** The parameter check of swapRows and swapColumns: band and offsets all in 0..2. */
  predicate Legal(quadrant: int, x: int, y: int)
  {
    0 <= quadrant < 3 && 0 <= x < 3 && 0 <= y < 3
  }

  /** `g` with rows `a` and `b` exchanged, in both matrices. */
  function RowsExchanged(g: Sudoku, a: int, b: int): (r: Sudoku)
    requires g.Wf() && 0 <= a < 9 && 0 <= b < 9
    ensures r.Wf()
    ensures forall i, j :: 0 <= i < 9 && 0 <= j < 9 ==>
      r.value[i][j] == g.value[Exchange(i, a, b)][j] && r.generated[i][j] == g.generated[Exchange(i, a, b)][j]
  {
    Sudoku(SwapAt(g.value, a, b), SwapAt(g.generated, a, b))
  }

  /** `g` with columns `a` and `b` exchanged, in both matrices. */
  function ColumnsExchanged(g: Sudoku, a: int, b: int): (r: Sudoku)
    requires g.Wf() && 0 <= a < 9 && 0 <= b < 9
    ensures r.Wf()
    ensures forall i, j :: 0 <= i < 9 && 0 <= j < 9 ==>
      r.value[i][j] == g.value[i][Exchange(j, a, b)] && r.generated[i][j] == g.generated[i][Exchange(j, a, b)]
  {
    Sudoku(seq(9, i requires 0 <= i < 9 => SwapAt(g.value[i], a, b)),
           seq(9, i requires 0 <= i < 9 => SwapAt(g.generated[i], a, b)))
  }

  /** What swapRows does: exchange rows 3q+x and 3q+y when the parameters are legal, else nothing. */
  function RowsSwapped(g: Sudoku, quadrant: int, x: int, y: int): (r: Sudoku)
    requires g.Wf()
    ensures r.Wf()
  {
    if Legal(quadrant, x, y) then RowsExchanged(g, 3 * quadrant + x, 3 * quadrant + y) else g
  }

  /** What swapColumns does: exchange columns 3q+x and 3q+y when the parameters are legal, else nothing. */
  function ColumnsSwapped(g: Sudoku, quadrant: int, x: int, y: int): (r: Sudoku)
    requires g.Wf()
    ensures r.Wf()
  {
    if Legal(quadrant, x, y) then ColumnsExchanged(g, 3 * quadrant + x, 3 * quadrant + y) else g
  }

  /** swapRows: cell by cell, swaps the two rows' values and lock flags. */
  method SwapRows(g: Sudoku, quadrant: int, x: int, y: int) returns (r: Sudoku)
    requires g.Wf()
    ensures r == RowsSwapped(g, quadrant, x, y)
  {
    r := g;
    if Legal(quadrant, x, y) {
      var indexX := 9 / 3 * quadrant + x;
      var indexY := 9 / 3 * quadrant + y;
      var value, generated := g.value, g.generated;
      var i := 0;
      while i < 9
        invariant 0 <= i <= 9 && Shaped(value) && Shaped(generated)
        invariant forall row, col :: 0 <= row < 9 && 0 <= col < 9 ==>
          value[row][col] == (if col < i then g.value[Exchange(row, indexX, indexY)][col] else g.value[row][col])
        invariant forall row, col :: 0 <= row < 9 && 0 <= col < 9 ==>
          generated[row][col] == (if col < i then g.generated[Exchange(row, indexX, indexY)][col] else g.generated[row][col])
      {
        var temp := value[indexX][i];
        value := Put(value, indexX, i, value[indexY][i]);
        value := Put(value, indexY, i, temp);
        temp := generated[indexX][i];
        generated := Put(generated, indexX, i, generated[indexY][i]);
        generated := Put(generated, indexY, i, temp);
        i := i + 1;
      }
      r := Sudoku(value, generated);
      ghost var expected := RowsExchanged(g, indexX, indexY);
      assert forall row :: 0 <= row < 9 ==> r.value[row] == expected.value[row];
      assert forall row :: 0 <= row < 9 ==> r.generated[row] == expected.generated[row];
    }
  }

  /** swapColumns: cell by cell, swaps the two columns' values and lock flags. */
  method SwapColumns(g: Sudoku, quadrant: int, x: int, y: int) returns (r: Sudoku)
    requires g.Wf()
    ensures r == ColumnsSwapped(g, quadrant, x, y)
  {
    r := g;
    if Legal(quadrant, x, y) {
      var indexX := 9 / 3 * quadrant + x;
      var indexY := 9 / 3 * quadrant + y;
      var value, generated := g.value, g.generated;
      var i := 0;
      while i < 9
        invariant 0 <= i <= 9 && Shaped(value) && Shaped(generated)
        invariant forall row :: 0 <= row < i ==>
          value[row] == SwapAt(g.value[row], indexX, indexY) && generated[row] == SwapAt(g.generated[row], indexX, indexY)
        invariant forall row :: i <= row < 9 ==> value[row] == g.value[row] && generated[row] == g.generated[row]
      {
        var temp := value[i][indexX];
        value := Put(value, i, indexX, value[i][indexY]);
        value := Put(value, i, indexY, temp);
        temp := generated[i][indexX];
        generated := Put(generated, i, indexX, generated[i][indexY]);
        generated := Put(generated, i, indexY, temp);
        assert value[i] == SwapAt(g.value[i], indexX, indexY);
        assert generated[i] == SwapAt(g.generated[i], indexX, indexY);
        i := i + 1;
      }
      r := Sudoku(value, generated);
      assert r.value == ColumnsExchanged(g, indexX, indexY).value;
      assert r.generated == ColumnsExchanged(g, indexX, indexY).generated;
    }
  }

  /** Exchanging the same two rows twice restores the board. */
  lemma RowsExchangedTwice(g: Sudoku, a: int, b: int)
    requires g.Wf() && 0 <= a < 9 && 0 <= b < 9
    ensures RowsExchanged(RowsExchanged(g, a, b), a, b) == g
  {
    SwapAtTwice(g.value, a, b);
    SwapAtTwice(g.generated, a, b);
  }

  /** Exchanging the same two columns twice restores the board. */
  lemma ColumnsExchangedTwice(g: Sudoku, a: int, b: int)
    requires g.Wf() && 0 <= a < 9 && 0 <= b < 9
    ensures ColumnsExchanged(ColumnsExchanged(g, a, b), a, b) == g
  {
    var r := ColumnsExchanged(ColumnsExchanged(g, a, b), a, b);
    assert forall i :: 0 <= i < 9 ==> r.value[i] == g.value[i];
    assert forall i :: 0 <= i < 9 ==> r.generated[i] == g.generated[i];
  }

  /**
   * Exchanging two rows of one band keeps a board without repeats free of
   * repeats, a full board full, a completed Sudoku completed and a locked
   * board locked: whatever passed checkSudoku still passes it.
   */
  lemma RowsExchangedKeepsSolution(g: Sudoku, a: int, b: int)
    requires g.Wf() && 0 <= a < 9 && 0 <= b < 9 && a / 3 == b / 3
    ensures NoRepeats(g) ==> NoRepeats(RowsExchanged(g, a, b))
    ensures NoEmpty(g) ==> NoEmpty(RowsExchanged(g, a, b))
    ensures IsSolution(g) ==> IsSolution(RowsExchanged(g, a, b))
    ensures AllLocked(g) ==> AllLocked(RowsExchanged(g, a, b))
  {
    var r := RowsExchanged(g, a, b);
    forall i, j | 0 <= i < 9 && 0 <= j < 9 && NoRepeats(g)
      ensures UniqueInUnits(r, i, j)
    {
      var si := Exchange(i, a, b);
      assert UniqueInUnits(g, si, j);
      forall i', j' | 0 <= i' < 9 && 0 <= j' < 9 && i' / 3 == i / 3 && j' / 3 == j / 3 && (i' != i || j' != j)
        ensures r.value[i'][j'] != r.value[i][j]
      {
        assert Exchange(i', a, b) / 3 == si / 3;
      }
    }
  }

  /** The same for exchanging two columns of one band. */
  lemma ColumnsExchangedKeepsSolution(g: Sudoku, a: int, b: int)
    requires g.Wf() && 0 <= a < 9 && 0 <= b < 9 && a / 3 == b / 3
    ensures NoRepeats(g) ==> NoRepeats(ColumnsExchanged(g, a, b))
    ensures NoEmpty(g) ==> NoEmpty(ColumnsExchanged(g, a, b))
    ensures IsSolution(g) ==> IsSolution(ColumnsExchanged(g, a, b))
    ensures AllLocked(g) ==> AllLocked(ColumnsExchanged(g, a, b))
  {
    var r := ColumnsExchanged(g, a, b);
    forall i, j | 0 <= i < 9 && 0 <= j < 9 && NoRepeats(g)
      ensures UniqueInUnits(r, i, j)
    {
      var sj := Exchange(j, a, b);
      assert UniqueInUnits(g, i, sj);
      forall i', j' | 0 <= i' < 9 && 0 <= j' < 9 && i' / 3 == i / 3 && j' / 3 == j / 3 && (i' != i || j' != j)
        ensures r.value[i'][j'] != r.value[i][j]
      {
        assert Exchange(j', a, b) / 3 == sj / 3;
      }
    }
  }

  /** The band and offsets one round of shuffleRows or shuffleColumns draws: three times rand() % 9 / 3. */
  function Pick(d: (nat, nat, nat)): (p: (int, int, int))
    ensures Legal(p.0, p.1, p.2)
  {
    (d.0 % 9 / 3, d.1 % 9 / 3, d.2 % 9 / 3)
  }

  /** The effect of shuffleRows, one swapRows call per draw. */
  function RowsShuffled(g: Sudoku, draws: seq<(nat, nat, nat)>): (r: Sudoku)
    requires g.Wf()
    ensures r.Wf()
  {
    if draws == [] then g
    else
      var p := Pick(draws[|draws| - 1]);
      RowsSwapped(RowsShuffled(g, draws[..|draws| - 1]), p.0, p.1, p.2)
  }

  /** The effect of shuffleColumns, one swapColumns call per draw. */
  function ColumnsShuffled(g: Sudoku, draws: seq<(nat, nat, nat)>): (r: Sudoku)
    requires g.Wf()
    ensures r.Wf()
  {
    if draws == [] then g
    else
      var p := Pick(draws[|draws| - 1]);
      ColumnsSwapped(ColumnsShuffled(g, draws[..|draws| - 1]), p.0, p.1, p.2)
  }

  /** shuffleRows: nine rounds, each swapping two random rows of a random band. */
  method ShuffleRows(g: Sudoku, draws: seq<(nat, nat, nat)>) returns (r: Sudoku)
    requires g.Wf() && |draws| == 9
    ensures r == RowsShuffled(g, draws)
  {
    r := g;
    var i := 0;
    while i < 9
      invariant 0 <= i <= 9
      invariant r == RowsShuffled(g, draws[..i])
    {
      var quadrant := draws[i].0 % 9 / 3;
      var x := draws[i].1 % 9 / 3;
      var y := draws[i].2 % 9 / 3;
      r := SwapRows(r, quadrant, x, y);
      assert draws[..i + 1][..i] == draws[..i];
      i := i + 1;
    }
    assert draws[..9] == draws;
  }

  /** shuffleColumns: nine rounds, each swapping two random columns of a random band. */
  method ShuffleColumns(g: Sudoku, draws: seq<(nat, nat, nat)>) returns (r: Sudoku)
    requires g.Wf() && |draws| == 9
    ensures r == ColumnsShuffled(g, draws)
  {
    r := g;
    var i := 0;
    while i < 9
      invariant 0 <= i <= 9
      invariant r == ColumnsShuffled(g, draws[..i])
    {
      var quadrant := draws[i].0 % 9 / 3;
      var x := draws[i].1 % 9 / 3;
      var y := draws[i].2 % 9 / 3;
      r := SwapColumns(r, quadrant, x, y);
      assert draws[..i + 1][..i] == draws[..i];
      i := i + 1;
    }
    assert draws[..9] == draws;
  }

  /** Whatever the draws, shuffling rows keeps a completed, locked Sudoku completed and locked. */
  lemma {:induction false} RowsShuffledKeepsSolution(g: Sudoku, draws: seq<(nat, nat, nat)>)
    requires IsSolution(g) && AllLocked(g)
    ensures IsSolution(RowsShuffled(g, draws)) && AllLocked(RowsShuffled(g, draws))
  {
    if draws != [] {
      var p := Pick(draws[|draws| - 1]);
      var before := RowsShuffled(g, draws[..|draws| - 1]);
      RowsShuffledKeepsSolution(g, draws[..|draws| - 1]);
      JoinByThree(p.0, p.1);
      JoinByThree(p.0, p.2);
      RowsExchangedKeepsSolution(before, 3 * p.0 + p.1, 3 * p.0 + p.2);
    }
  }

  /** Whatever the draws, shuffling columns keeps a completed, locked Sudoku completed and locked. */
  lemma {:induction false} ColumnsShuffledKeepsSolution(g: Sudoku, draws: seq<(nat, nat, nat)>)
    requires IsSolution(g) && AllLocked(g)
    ensures IsSolution(ColumnsShuffled(g, draws)) && AllLocked(ColumnsShuffled(g, draws))
  {
    if draws != [] {
      var p := Pick(draws[|draws| - 1]);
      var before := ColumnsShuffled(g, draws[..|draws| - 1]);
      ColumnsShuffledKeepsSolution(g, draws[..|draws| - 1]);
      JoinByThree(p.0, p.1);
      JoinByThree(p.0, p.2);
      ColumnsExchangedKeepsSolution(before, 3 * p.0 + p.1, 3 * p.0 + p.2);
    }
  }
}
