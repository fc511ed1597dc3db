/**
 * The constraint checker: per-cell uniqueness tests for the cell's row,
 * column and 3x3 box, the count of empty cells, and the full-board test
 * that decides whether a game is won. Every test works by counting how often
 * a value occurs; each contract states what that count means.
 */
module Checker {
  import opened Grid
  import opened Permutation

  /** How many entries of `s` equal `v`: the counter the checks increment. */
  function Count(s: seq<int>, v: int): (n: nat)
    ensures n <= |s|
  {
    if s == [] then 0 else Count(s[..|s| - 1], v) + (if s[|s| - 1] == v then 1 else 0)
  }

  lemma {:induction false} CountIsMultiplicity(s: seq<int>, v: int)
    ensures Count(s, v) == multiset(s)[v]
  {
    if s != [] {
      CountIsMultiplicity(s[..|s| - 1], v);
      assert s == s[..|s| - 1] + [s[|s| - 1]];
    }
  }

  /** A count of zero means the value does not occur. */
  lemma CountZeroIffAbsent(s: seq<int>, v: int)
    ensures Count(s, v) == 0 <==> v !in s
  {
    CountIsMultiplicity(s, v);
  }

  /** The entry at `k` is counted exactly once when no other entry equals it. */
  lemma CountOnceIffUnique(s: seq<int>, k: int)
    requires 0 <= k < |s|
    ensures Count(s, s[k]) == 1 <==> forall j :: 0 <= j < |s| && j != k ==> s[j] != s[k]
  {
    var v := s[k];
    CountIsMultiplicity(s, v);
    assert s == s[..k] + [v] + s[k + 1..];
    assert multiset(s)[v] == multiset(s[..k])[v] + 1 + multiset(s[k + 1..])[v];
    if exists j :: 0 <= j < |s| && j != k && s[j] == v {
      var j :| 0 <= j < |s| && j != k && s[j] == v;
      if j < k {
        assert s[..k][j] == v;
      } else {
        assert s[k + 1..][j - k - 1] == v;
      }
    } else {
      assert v !in s[..k];
      assert v !in s[k + 1..];
    }
  }

  /** The nine values of row `r`. */
  function Row(g: Sudoku, r: int): (s: seq<int>)
    requires g.Wf() && 0 <= r < 9
    ensures |s| == 9 && forall j :: 0 <= j < 9 ==> s[j] == g.value[r][j]
  {
    g.value[r]
  }

  /** The nine values of column `c`, top to bottom. */
  function Column(g: Sudoku, c: int): (s: seq<int>)
    requires g.Wf() && 0 <= c < 9
    ensures |s| == 9 && forall i :: 0 <= i < 9 ==> s[i] == g.value[i][c]
  {
    seq(9, i requires 0 <= i < 9 => g.value[i][c])
  }

  /**
   * The index (0, 1 or 2) of the band of rows, or of columns, holding
   * `coord`, computed as the source does: (coord - coord % 3) / 3.
   */
  function Quadrant(coord: int): (q: int)
    requires 0 <= coord < 9
    ensures q == coord / 3 && 0 <= q < 3
  {
    SplitByThree(coord);
    JoinByThree(coord / 3, 0);
    (coord - coord % 3) / 3
  }

  /** The nine values of the box in band `qr` and stack `qc`, row by row. */
  function Box(g: Sudoku, qr: int, qc: int): (s: seq<int>)
    requires g.Wf() && 0 <= qr < 3 && 0 <= qc < 3
    ensures |s| == 9 && forall t :: 0 <= t < 9 ==> s[t] == g.value[3 * qr + t / 3][3 * qc + t % 3]
  {
    seq(9, t requires 0 <= t < 9 => g.value[3 * qr + t / 3][3 * qc + t % 3])
  }

  /** No other cell of row r holds the value of cell (r, c). */
  predicate UniqueInRow(g: Sudoku, r: int, c: int)
    requires g.Wf() && 0 <= r < 9 && 0 <= c < 9
  {
    forall j :: 0 <= j < 9 && j != c ==> g.value[r][j] != g.value[r][c]
  }

  /** No other cell of column c holds the value of cell (r, c). */
  predicate UniqueInColumn(g: Sudoku, r: int, c: int)
    requires g.Wf() && 0 <= r < 9 && 0 <= c < 9
  {
    forall i :: 0 <= i < 9 && i != r ==> g.value[i][c] != g.value[r][c]
  }

  /** No other cell of the 3x3 box around (r, c) holds its value. */
  predicate UniqueInBox(g: Sudoku, r: int, c: int)
    requires g.Wf() && 0 <= r < 9 && 0 <= c < 9
  {
    forall i, j :: 0 <= i < 9 && 0 <= j < 9 && i / 3 == r / 3 && j / 3 == c / 3 && (i != r || j != c) ==>
      g.value[i][j] != g.value[r][c]
  }

  predicate UniqueInUnits(g: Sudoku, r: int, c: int)
    requires g.Wf() && 0 <= r < 9 && 0 <= c < 9
  {
    UniqueInRow(g, r, c) && UniqueInColumn(g, r, c) && UniqueInBox(g, r, c)
  }

  /** No row, column or box holds a value twice. */
  predicate NoRepeats(g: Sudoku)
    requires g.Wf()
  {
    forall r, c :: 0 <= r < 9 && 0 <= c < 9 ==> UniqueInUnits(g, r, c)
  }

  /** No cell is empty. */
  predicate NoEmpty(g: Sudoku)
    requires g.Wf()
  {
    forall r, c :: 0 <= r < 9 && 0 <= c < 9 ==> g.value[r][c] != 0
  }

  /** A completed Sudoku: digits 1..9 only, none repeated in any unit. */
  predicate IsSolution(g: Sudoku)
  {
    && g.Wf()
    && (forall r, c :: 0 <= r < 9 && 0 <= c < 9 ==> 1 <= g.value[r][c] <= 9)
    && NoRepeats(g)
  }

  /** The count of `v` in a prefix grows by one exactly when the next entry is `v`. */
  lemma CountPrefixStep(s: seq<int>, i: int, v: int)
    requires 0 <= i < |s|
    ensures Count(s[..i + 1], v) == Count(s[..i], v) + (if s[i] == v then 1 else 0)
  {
    assert s[..i + 1][..i] == s[..i];
  }

  /** checkRow: 1 exactly when the cell's value occurs once in its row. */
  method CheckRow(g: Sudoku, f: Field) returns (r: int)
    requires g.Wf() && f.InGrid()
    ensures r == 0 || r == 1
    ensures r == 1 <==> UniqueInRow(g, f.row, f.column)
  {
    ghost var s := Row(g, f.row);
    var counter := 0;
    for i := 0 to 9
      invariant counter == Count(s[..i], g.value[f.row][f.column])
    {
      CountPrefixStep(s, i, g.value[f.row][f.column]);
      if g.value[f.row][i] == g.value[f.row][f.column] {
        counter := counter + 1;
      }
    }
    assert s[..9] == s;
    CountOnceIffUnique(s, f.column);
    if counter == 1 {
      return 1;
    }
    return 0;
  }

  /** checkColumn: 1 exactly when the cell's value occurs once in its column. */
  method CheckColumn(g: Sudoku, f: Field) returns (r: int)
    requires g.Wf() && f.InGrid()
    ensures r == 0 || r == 1
    ensures r == 1 <==> UniqueInColumn(g, f.row, f.column)
  {
    ghost var s := Column(g, f.column);
    var counter := 0;
    for i := 0 to 9
      invariant counter == Count(s[..i], g.value[f.row][f.column])
    {
      CountPrefixStep(s, i, g.value[f.row][f.column]);
      if g.value[i][f.column] == g.value[f.row][f.column] {
        counter := counter + 1;
      }
    }
    assert s[..9] == s;
    CountOnceIffUnique(s, f.row);
    if counter == 1 {
      return 1;
    }
    return 0;
  }

  /** A coordinate splits into its band and its offset within the band. */
  lemma SplitByThree(x: int)
    requires 0 <= x < 9
    ensures x == 3 * (x / 3) + x % 3 && 0 <= x / 3 < 3 && 0 <= x % 3 < 3
  {
  }

  /** Band and offset determine the coordinate. */
  lemma JoinByThree(q: int, m: int)
    requires 0 <= q < 3 && 0 <= m < 3
    ensures (3 * q + m) / 3 == q && (3 * q + m) % 3 == m
  {
    ModUnique(3 * q + m, 3, q, m);
  }

  /** Counting in the box around (r, c) finds its value once exactly when it is unique there. */
  lemma BoxCountOnceIffUnique(g: Sudoku, r: int, c: int)
    requires g.Wf() && 0 <= r < 9 && 0 <= c < 9
    ensures Count(Box(g, r / 3, c / 3), g.value[r][c]) == 1 <==> UniqueInBox(g, r, c)
  {
    SplitByThree(r);
    SplitByThree(c);
    var b := Box(g, r / 3, c / 3);
    var k := 3 * (r % 3) + c % 3;
    JoinByThree(r % 3, c % 3);
    assert b[k] == g.value[r][c];
    CountOnceIffUnique(b, k);
    if forall t :: 0 <= t < 9 && t != k ==> b[t] != b[k] {
      BoxUniqueFromEntries(g, r, c);
    }
    if UniqueInBox(g, r, c) {
      BoxEntriesFromUnique(g, r, c);
    }
  }

  /** No other entry of the box equals the cell's entry, so no other cell of the box holds its value. */
  lemma BoxUniqueFromEntries(g: Sudoku, r: int, c: int)
    requires g.Wf() && 0 <= r < 9 && 0 <= c < 9
    requires var k := 3 * (r % 3) + c % 3;
      forall t :: 0 <= t < 9 && t != k ==> Box(g, r / 3, c / 3)[t] != Box(g, r / 3, c / 3)[k]
    ensures UniqueInBox(g, r, c)
  {
    SplitByThree(r);
    SplitByThree(c);
    var b := Box(g, r / 3, c / 3);
    var k := 3 * (r % 3) + c % 3;
    JoinByThree(r % 3, c % 3);
    assert b[k] == g.value[r][c];
    forall i, j | 0 <= i < 9 && 0 <= j < 9 && i / 3 == r / 3 && j / 3 == c / 3 && (i != r || j != c)
      ensures g.value[i][j] != g.value[r][c]
    {
      SplitByThree(i);
      SplitByThree(j);
      var t := 3 * (i % 3) + j % 3;
      JoinByThree(i % 3, j % 3);
      assert b[t] == g.value[i][j];
    }
  }

  /** The cell's value is unique in its box, so no other entry of the box equals the cell's entry. */
  lemma BoxEntriesFromUnique(g: Sudoku, r: int, c: int)
    requires g.Wf() && 0 <= r < 9 && 0 <= c < 9 && UniqueInBox(g, r, c)
    ensures var k := 3 * (r % 3) + c % 3;
      forall t :: 0 <= t < 9 && t != k ==> Box(g, r / 3, c / 3)[t] != Box(g, r / 3, c / 3)[k]
  {
    SplitByThree(r);
    SplitByThree(c);
    var b := Box(g, r / 3, c / 3);
    var k := 3 * (r % 3) + c % 3;
    JoinByThree(r % 3, c % 3);
    assert b[k] == g.value[r][c];
    forall t | 0 <= t < 9 && t != k
      ensures b[t] != b[k]
    {
      SplitByThree(t);
      var i, j := 3 * (r / 3) + t / 3, 3 * (c / 3) + t % 3;
      JoinByThree(r / 3, t / 3);
      JoinByThree(c / 3, t % 3);
      assert b[t] == g.value[i][j];
    }
  }

  /** Entry 3i + j of a box is the cell at offset (i, j) from the box's origin. */
  lemma BoxEntry(g: Sudoku, qr: int, qc: int, i: int, j: int)
    requires g.Wf() && 0 <= qr < 3 && 0 <= qc < 3 && 0 <= i < 3 && 0 <= j < 3
    ensures 0 <= 3 * i + j < 9 && Box(g, qr, qc)[3 * i + j] == g.value[qr * 3 + i][qc * 3 + j]
  {
    JoinByThree(i, j);
  }

  /**
   * checkGroup: 1 exactly when the cell's value occurs once in its 3x3 box,
   * whose origin is (Quadrant(row) * 3, Quadrant(column) * 3).
   */
  method CheckGroup(g: Sudoku, f: Field) returns (r: int)
    requires g.Wf() && f.InGrid()
    ensures r == 0 || r == 1
    ensures r == 1 <==> UniqueInBox(g, f.row, f.column)
  {
    var row := Quadrant(f.row);
    var column := Quadrant(f.column);
    ghost var s := Box(g, row, column);
    ghost var v := g.value[f.row][f.column];
    var counter := 0;
    for i := 0 to 9 / 3
      invariant counter == Count(s[..3 * i], v)
    {
      counter := CountInBoxRow(g, row, column, i, g.value[f.row][f.column], counter);
    }
    assert s[..9] == s;
    BoxCountOnceIffUnique(g, f.row, f.column);
    if counter == 1 {
      return 1;
    }
    return 0;
  }

  /** The inner loop of checkGroup: counting `v` along row i of the box extends the count by three entries. */
  method CountInBoxRow(g: Sudoku, qr: int, qc: int, i: int, v: int, counter: int) returns (counter': int)
    requires g.Wf() && 0 <= qr < 3 && 0 <= qc < 3 && 0 <= i < 3
    requires counter == Count(Box(g, qr, qc)[..3 * i], v)
    ensures counter' == Count(Box(g, qr, qc)[..3 * i + 3], v)
  {
    ghost var s := Box(g, qr, qc);
    counter' := counter;
    for j := 0 to 9 / 3
      invariant counter' == Count(s[..3 * i + j], v)
    {
      BoxCountStep(g, qr, qc, i, j, v);
      if g.value[qr * 3 + i][qc * 3 + j] == v {
        counter' := counter' + 1;
      }
    }
  }

  /** Counting one more box entry, the cell at offset (i, j), adds one exactly when that cell holds `v`. */
  lemma BoxCountStep(g: Sudoku, qr: int, qc: int, i: int, j: int, v: int)
    requires g.Wf() && 0 <= qr < 3 && 0 <= qc < 3 && 0 <= i < 3 && 0 <= j < 3
    ensures Count(Box(g, qr, qc)[..3 * i + j + 1], v) ==
      Count(Box(g, qr, qc)[..3 * i + j], v) + (if g.value[qr * 3 + i][qc * 3 + j] == v then 1 else 0)
  {
    BoxEntry(g, qr, qc, i, j);
    CountPrefixStep(Box(g, qr, qc), 3 * i + j, v);
  }

  /** checkValue: 1 exactly when the cell's value is unique in its row, column and box. */
  method CheckValue(g: Sudoku, f: Field) returns (r: int)
    requires g.Wf() && f.InGrid()
    ensures r == 0 || r == 1
    ensures r == 1 <==> UniqueInUnits(g, f.row, f.column)
  {
    var inRow := CheckRow(g, f);
    if inRow == 1 {
      var inColumn := CheckColumn(g, f);
      if inColumn == 1 {
        var inGroup := CheckGroup(g, f);
        if inGroup == 1 {
          return 1;
        }
      }
    }
    return 0;
  }

  /** The empty cells among the first `n` rows, counted row by row. */
  function EmptyInRows(g: Sudoku, n: int): (e: nat)
    requires g.Wf() && 0 <= n <= 9
    ensures e <= 9 * n
    ensures e == 0 <==> forall r, c :: 0 <= r < n && 0 <= c < 9 ==> g.value[r][c] != 0
  {
    if n == 0 then 0
    else
      CountZeroIffAbsent(g.value[n - 1], 0);
      EmptyInRows(g, n - 1) + Count(g.value[n - 1], 0)
  }

  /** The number of cells holding 0: none exactly when the board is full. */
  function EmptyCount(g: Sudoku): (n: nat)
    requires g.Wf()
    ensures n <= 81
    ensures n == 0 <==> NoEmpty(g)
  {
    EmptyInRows(g, 9)
  }

  /** countEmptyFields: the nested counting loop over all 81 cells. */
  method CountEmptyFields(g: Sudoku) returns (counter: int)
    requires g.Wf()
    ensures counter == EmptyCount(g)
  {
    counter := 0;
    for i := 0 to 9
      invariant counter == EmptyInRows(g, i)
    {
      for j := 0 to 9
        invariant counter == EmptyInRows(g, i) + Count(g.value[i][..j], 0)
      {
        CountPrefixStep(g.value[i], j, 0);
        if g.value[i][j] == 0 {
          counter := counter + 1;
        }
      }
      assert g.value[i][..9] == g.value[i];
    }
  }

  /** Overwriting one entry moves the count of `x` by at most one in each direction. */
  lemma CountAfterUpdate(s: seq<int>, k: int, v: int, x: int)
    requires 0 <= k < |s|
    ensures Count(s[k := v], x) == Count(s, x) - (if s[k] == x then 1 else 0) + (if v == x then 1 else 0)
  {
    CountIsMultiplicity(s, x);
    CountIsMultiplicity(s[k := v], x);
  }

  lemma {:induction false} EmptyInRowsAfterPut(g: Sudoku, g': Sudoku, r: int, c: int, v: int, n: int)
    requires g.Wf() && g'.Wf() && 0 <= r < 9 && 0 <= c < 9 && 0 <= n <= 9
    requires g'.value == Put(g.value, r, c, v)
    ensures EmptyInRows(g', n) == EmptyInRows(g, n) +
      (if n > r then (if v == 0 then 1 else 0) - (if g.value[r][c] == 0 then 1 else 0) else 0)
  {
    if n > 0 {
      EmptyInRowsAfterPut(g, g', r, c, v, n - 1);
      if n - 1 == r {
        CountAfterUpdate(g.value[r], c, v, 0);
      }
    }
  }

  /**
   * Writing `v` into cell (r, c) changes the number of empty cells by one
   * when the cell turns from empty to filled or back, and otherwise not.
   */
  lemma EmptyCountAfterPut(g: Sudoku, g': Sudoku, r: int, c: int, v: int)
    requires g.Wf() && g'.Wf() && 0 <= r < 9 && 0 <= c < 9
    requires g'.value == Put(g.value, r, c, v)
    ensures EmptyCount(g') ==
      EmptyCount(g) + (if v == 0 then 1 else 0) - (if g.value[r][c] == 0 then 1 else 0)
  {
    EmptyInRowsAfterPut(g, g', r, c, v, 9);
  }

  /**
   * checkSudoku: 0 while any cell is empty; otherwise every cell is checked
   * with checkValue, and the answer is 1 exactly when all pass, i.e. no row,
   * column or box repeats a value.
   */
  method CheckSudoku(g: Sudoku) returns (r: int)
    requires g.Wf()
    ensures r == 0 || r == 1
    ensures EmptyCount(g) > 0 ==> r == 0
    ensures r == 1 <==> NoEmpty(g) && NoRepeats(g)
  {
    var empty := CountEmptyFields(g);
    if empty > 0 {
      return 0;
    }
    for i := 0 to 9
      invariant forall row, column :: 0 <= row < i && 0 <= column < 9 ==> UniqueInUnits(g, row, column)
    {
      for j := 0 to 9
        invariant forall row, column :: 0 <= row < i && 0 <= column < 9 ==> UniqueInUnits(g, row, column)
        invariant forall column :: 0 <= column < j ==> UniqueInUnits(g, i, column)
      {
        var ok := CheckValue(g, Field(i, j));
        if ok == 0 {
          return 0;
        }
      }
    }
    return 1;
  }

  /** A sequence without repeats has as many distinct values as entries. */
  lemma {:induction false} DistinctValuesCount(s: seq<int>)
    requires Distinct(s)
    ensures |set x | x in s| == |s|
  {
    if s != [] {
      var n := |s|;
      var init := s[..n - 1];
      DistinctValuesCount(init);
      assert (set x | x in s) == (set x | x in init) + {s[n - 1]};
      assert s[n - 1] !in init;
    }
  }

  /** Pigeonhole: nine distinct values from 1..9 contain every digit exactly once. */
  lemma DistinctDigitsEachOnce(s: seq<int>)
    requires |s| == 9 && Distinct(s)
    requires forall i :: 0 <= i < 9 ==> 1 <= s[i] <= 9
    ensures forall d :: 1 <= d <= 9 ==> Count(s, d) == 1
  {
    var values := set x | x in s;
    var digits := {1, 2, 3, 4, 5, 6, 7, 8, 9};
    DistinctValuesCount(s);
    assert values <= digits;
    assert |digits| == 9;
    assert |digits - values| == 0;
    forall d | 1 <= d <= 9
      ensures Count(s, d) == 1
    {
      assert d in values;
      var i :| 0 <= i < 9 && s[i] == d;
      CountOnceIffUnique(s, i);
    }
  }

  /** In a completed Sudoku every row, column and box holds each of 1..9 exactly once. */
  lemma SolutionHasEachDigitOnce(g: Sudoku)
    requires IsSolution(g)
    ensures forall r, d :: 0 <= r < 9 && 1 <= d <= 9 ==> Count(Row(g, r), d) == 1
    ensures forall c, d :: 0 <= c < 9 && 1 <= d <= 9 ==> Count(Column(g, c), d) == 1
    ensures forall qr, qc, d :: 0 <= qr < 3 && 0 <= qc < 3 && 1 <= d <= 9 ==> Count(Box(g, qr, qc), d) == 1
  {
    forall r | 0 <= r < 9
      ensures forall d :: 1 <= d <= 9 ==> Count(Row(g, r), d) == 1
    {
      RowDistinct(g, r);
      DistinctDigitsEachOnce(Row(g, r));
    }
    forall c | 0 <= c < 9
      ensures forall d :: 1 <= d <= 9 ==> Count(Column(g, c), d) == 1
    {
      ColumnDistinct(g, c);
      DistinctDigitsEachOnce(Column(g, c));
    }
    forall qr, qc | 0 <= qr < 3 && 0 <= qc < 3
      ensures forall d :: 1 <= d <= 9 ==> Count(Box(g, qr, qc), d) == 1
    {
      BoxDistinct(g, qr, qc);
      DistinctDigitsEachOnce(Box(g, qr, qc));
    }
  }

  /**
   * A board whose values are 0..9, as alterValue and the import check keep
   * them, and which checkSudoku accepts (no empty cell, no repeat) holds each
   * of 1..9 exactly once in every row, column and box.
   */
  lemma AcceptedBoardHasEachDigitOnce(g: Sudoku)
    requires g.Wf() && forall r, c :: 0 <= r < 9 && 0 <= c < 9 ==> 0 <= g.value[r][c] <= 9
    requires NoEmpty(g) && NoRepeats(g)
    ensures forall r, d :: 0 <= r < 9 && 1 <= d <= 9 ==> Count(Row(g, r), d) == 1
    ensures forall c, d :: 0 <= c < 9 && 1 <= d <= 9 ==> Count(Column(g, c), d) == 1
    ensures forall qr, qc, d :: 0 <= qr < 3 && 0 <= qc < 3 && 1 <= d <= 9 ==> Count(Box(g, qr, qc), d) == 1
  {
    assert IsSolution(g);
    SolutionHasEachDigitOnce(g);
  }

  /** A row of a completed Sudoku holds nine distinct digits. */
  lemma RowDistinct(g: Sudoku, r: int)
    requires IsSolution(g) && 0 <= r < 9
    ensures Distinct(Row(g, r)) && forall i :: 0 <= i < 9 ==> 1 <= Row(g, r)[i] <= 9
  {
    var s := Row(g, r);
    forall t, u | 0 <= t < u < 9
      ensures s[t] != s[u]
    {
      assert UniqueInUnits(g, r, t);
    }
  }

  /** A column of a completed Sudoku holds nine distinct digits. */
  lemma ColumnDistinct(g: Sudoku, c: int)
    requires IsSolution(g) && 0 <= c < 9
    ensures Distinct(Column(g, c)) && forall i :: 0 <= i < 9 ==> 1 <= Column(g, c)[i] <= 9
  {
    var s := Column(g, c);
    forall t, u | 0 <= t < u < 9
      ensures s[t] != s[u]
    {
      assert UniqueInUnits(g, t, c);
    }
  }

  /** A box of a completed Sudoku holds nine distinct digits. */
  lemma BoxDistinct(g: Sudoku, qr: int, qc: int)
    requires IsSolution(g) && 0 <= qr < 3 && 0 <= qc < 3
    ensures Distinct(Box(g, qr, qc))
  {
    var s := Box(g, qr, qc);
    forall t, u | 0 <= t < u < 9
      ensures s[t] != s[u]
    {
      BoxEntriesDiffer(g, qr, qc, t, u);
    }
  }

  /** Two different entries of a box of a completed Sudoku are different cells of one box, so they differ. */
  lemma BoxEntriesDiffer(g: Sudoku, qr: int, qc: int, t: int, u: int)
    requires IsSolution(g) && 0 <= qr < 3 && 0 <= qc < 3 && 0 <= t < u < 9
    ensures Box(g, qr, qc)[t] != Box(g, qr, qc)[u] && 1 <= Box(g, qr, qc)[t] <= 9
  {
    SplitByThree(t);
    SplitByThree(u);
    var i, j := 3 * qr + t / 3, 3 * qc + t % 3;
    JoinByThree(qr, t / 3);
    JoinByThree(qc, t % 3);
    JoinByThree(qr, u / 3);
    JoinByThree(qc, u % 3);
    assert UniqueInUnits(g, i, j);
  }
}
