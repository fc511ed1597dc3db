/**
 * generateFullSudoku: a shuffled row of the digits 1..9 is written into the
 * nine rows, rotated further right before each row, which yields a completed
 * Sudoku; rows and columns are then shuffled within their bands.
 */
module Generator {
  import opened Grid
  import opened Permutation
  import opened Checker
  import opened Swaps

  /**
   * How far, modulo 9, the base row has been rotated when the loops write it
   * into row `m` of band `i`: two steps per earlier band and three per
   * earlier row of the band.
   */
  function ShiftOf(i: int, m: int): (s: int)
    requires 0 <= i < 3 && 0 <= m <= 3
    ensures 0 <= s < 9
  {
    if 2 * i + 3 * m >= 9 then 2 * i + 3 * m - 9 else 2 * i + 3 * m
  }

  /** The rotation of the base row written into row `r`. */
  function BaseShift(r: int): (s: int)
    requires 0 <= r < 9
    ensures 0 <= s < 9
  {
    SplitByThree(r);
    ShiftOf(r / 3, r % 3)
  }

  /** The position of the base row that lands in column `c` after rotating right by `s` (0 <= s < 9). */
  function SourceIndex(s: int, c: int): (k: int)
    requires 0 <= s < 9 && 0 <= c < 9
    ensures 0 <= k < 9
  {
    if c >= s then c - s else c - s + 9
  }

  /** After a right rotation by `s` < 9, column `c` holds entry SourceIndex(s, c). */
  lemma RotatedEntry(p: seq<int>, s: int, c: int)
    requires |p| == 9 && 0 <= s < 9 && 0 <= c < 9
    ensures RotateRight(p, s)[c] == p[SourceIndex(s, c)]
  {
    RotateRightAt(p, s, c);
    if c < s {
      ModUnique(c - s, 9, -1, c - s + 9);
    } else {
      ModUnique(c - s, 9, 0, c - s);
    }
  }

  /** Rotating a nine-entry row by nine more steps changes nothing. */
  lemma RotateNineMore(p: seq<int>, s: nat)
    requires |p| == 9
    ensures RotateRight(p, s + 9) == RotateRight(p, s)
  {
    RotateRightBySize(p);
    RotateRightAdd(p, 9, s);
  }

  /**
   * Two different cells that share a row, a column or a box take their
   * digits from different positions of the base row.
   */
  lemma BaseIndicesDiffer(r: int, c: int, r': int, c': int)
    requires 0 <= r < 9 && 0 <= c < 9 && 0 <= r' < 9 && 0 <= c' < 9
    requires r != r' || c != c'
    requires r == r' || c == c' || (r / 3 == r' / 3 && c / 3 == c' / 3)
    ensures SourceIndex(BaseShift(r), c) != SourceIndex(BaseShift(r'), c')
  {
    SplitByThree(r);
    SplitByThree(r');
    if r != r' {
      ShiftOfInjective(r / 3, r % 3, r' / 3, r' % 3);
      if c != c' {
        SameBandDiffer(r / 3, r % 3, r' % 3, c, c');
      }
    }
  }

  /** Different rows of the grid are written with different rotations. */
  lemma ShiftOfInjective(i: int, m: int, i': int, m': int)
    requires 0 <= i < 3 && 0 <= m < 3 && 0 <= i' < 3 && 0 <= m' < 3 && (i != i' || m != m')
    ensures ShiftOf(i, m) != ShiftOf(i', m')
  {
  }

  /**
   * Two rows of one band are rotated by different multiples of three, so no
   * two cells of one box (columns within two of each other) read the same
   * position of the base row.
   */
  lemma SameBandDiffer(i: int, m: int, m': int, c: int, c': int)
    requires 0 <= i < 3 && 0 <= m < 3 && 0 <= m' < 3 && m != m'
    requires 0 <= c < 9 && 0 <= c' < 9 && c / 3 == c' / 3
    ensures SourceIndex(ShiftOf(i, m), c) != SourceIndex(ShiftOf(i, m'), c')
  {
    SplitByThree(c);
    SplitByThree(c');
  }

  /** The base row: a permutation of the digits 1..9. */
  predicate DigitPermutation(p: seq<int>)
  {
    |p| == 9 && Distinct(p) && forall i :: 0 <= i < 9 ==> 1 <= p[i] <= 9
  }

  /** The board the three nested loops write: row r is the base row rotated by BaseShift(r). */
  predicate BasePattern(g: Sudoku, p: seq<int>)
    requires g.Wf() && |p| == 9
  {
    forall r, c :: 0 <= r < 9 && 0 <= c < 9 ==> g.value[r][c] == p[SourceIndex(BaseShift(r), c)]
  }

  /** The base pattern built from any permutation of 1..9 is a completed Sudoku. */
  lemma BasePatternIsSolution(g: Sudoku, p: seq<int>)
    requires g.Wf() && DigitPermutation(p) && BasePattern(g, p)
    ensures IsSolution(g)
  {
    forall r, c | 0 <= r < 9 && 0 <= c < 9
      ensures UniqueInUnits(g, r, c)
    {
      forall r', c' | 0 <= r' < 9 && 0 <= c' < 9 && (r != r' || c != c') &&
                      (r == r' || c == c' || (r / 3 == r' / 3 && c / 3 == c' / 3))
        ensures g.value[r'][c'] != g.value[r][c]
      {
        BaseIndicesDiffer(r, c, r', c');
      }
    }
  }

  /** The row {1, 2, ..., 9} the generator starts from. */
  function Digits(): (d: seq<int>)
    ensures |d| == 9 && forall i :: 0 <= i < 9 ==> d[i] == i + 1
  {
    seq(9, i => i + 1)
  }

  /** The digits shuffled are a permutation of the digits. */
  lemma ShuffledDigits(p: seq<int>, draws: seq<(nat, nat)>)
    requires p == Shuffled(Digits(), draws)
    ensures DigitPermutation(p)
  {
    ShuffledIsPermutation(Digits(), draws);
    PermutationKeepsDistinct(p, Digits());
    forall i | 0 <= i < 9
      ensures 1 <= p[i] <= 9
    {
      assert p[i] in multiset(p);
      var k :| 0 <= k < 9 && Digits()[k] == p[i];
    }
  }

  /** The inner loop over k: row `j` of both matrices gets the current base row and the lock flag 1. */
  method CopyRow(value: Matrix, generated: Matrix, j: int, row: array<int>) returns (value': Matrix, generated': Matrix)
    requires Shaped(value) && Shaped(generated) && 0 <= j < 9 && row.Length == 9
    ensures Shaped(value') && Shaped(generated')
    ensures forall r, c :: 0 <= r < 9 && 0 <= c < 9 && r != j ==>
      value'[r][c] == value[r][c] && generated'[r][c] == generated[r][c]
    ensures forall c :: 0 <= c < 9 ==> value'[j][c] == row[c] && generated'[j][c] == 1
  {
    value', generated' := value, generated;
    var k := 0;
    while k < 9
      invariant 0 <= k <= 9 && Shaped(value') && Shaped(generated')
      invariant forall r, c :: 0 <= r < 9 && 0 <= c < 9 && r != j ==>
        value'[r][c] == value[r][c] && generated'[r][c] == generated[r][c]
      invariant forall c :: 0 <= c < k ==> value'[j][c] == row[c] && generated'[j][c] == 1
    {
      value' := Put(value', j, k, row[k]);
      generated' := Put(generated', j, k, 1);
      k := k + 1;
    }
  }

  /** Rows 0 .. n-1 of the board hold the base pattern of `p` and are locked. */
  predicate RowsWritten(value: Matrix, generated: Matrix, p: seq<int>, n: int)
    requires Shaped(value) && Shaped(generated) && |p| == 9 && 0 <= n <= 9
  {
    forall r, c :: 0 <= r < n && 0 <= c < 9 ==>
      value[r][c] == p[SourceIndex(BaseShift(r), c)] && generated[r][c] == 1
  }

  /** Row j of band i, written from the base row rotated by ShiftOf(i, j - 3i), extends RowsWritten by one row. */
  lemma BandRowWritten(value: Matrix, generated: Matrix, value': Matrix, generated': Matrix, p: seq<int>, q: seq<int>,
                       i: int, j: int, shift: int)
    requires Shaped(value) && Shaped(generated) && Shaped(value') && Shaped(generated') && |p| == 9
    requires 0 <= i < 3 && 3 * i <= j < 3 * i + 3 && shift == ShiftOf(i, j - 3 * i) && q == RotateRight(p, shift)
    requires RowsWritten(value, generated, p, j)
    requires forall r, c :: 0 <= r < 9 && 0 <= c < 9 && r != j ==>
      value'[r][c] == value[r][c] && generated'[r][c] == generated[r][c]
    requires forall c :: 0 <= c < 9 ==> value'[j][c] == q[c] && generated'[j][c] == 1
    ensures RowsWritten(value', generated', p, j + 1)
  {
    JoinByThree(i, j - 3 * i);
    forall c | 0 <= c < 9
      ensures value'[j][c] == p[SourceIndex(BaseShift(j), c)]
    {
      RotatedEntry(p, shift, c);
    }
  }

  /** One pass of the row loop: row j receives the base row, which then turns right by three. */
  method WriteBandRow(value: Matrix, generated: Matrix, row: array<int>, i: int, j: int, ghost p: seq<int>, ghost shift: int)
    returns (value': Matrix, generated': Matrix, ghost shift': int)
    requires Shaped(value) && Shaped(generated) && row.Length == 9 && |p| == 9
    requires 0 <= i < 3 && 3 * i <= j < 3 * i + 3 && shift == ShiftOf(i, j - 3 * i)
    requires row[..] == RotateRight(p, shift) && RowsWritten(value, generated, p, j)
    modifies row
    ensures Shaped(value') && Shaped(generated')
    ensures shift' == ShiftOf(i, j + 1 - 3 * i) && row[..] == RotateRight(p, shift')
    ensures RowsWritten(value', generated', p, j + 1)
  {
    value', generated' := CopyRow(value, generated, j, row);
    BandRowWritten(value, generated, value', generated', p, row[..], i, j, shift);
    shift' := TurnByThree(row, p, shift);
  }

  /** shiftRight(base, 3) on a row rotated by `shift`: it is then rotated by shift + 3, modulo 9. */
  method TurnByThree(row: array<int>, ghost p: seq<int>, ghost shift: int) returns (ghost shift': int)
    requires row.Length == 9 && |p| == 9 && 0 <= shift < 9 && row[..] == RotateRight(p, shift)
    modifies row
    ensures shift' == (if shift + 3 >= 9 then shift + 3 - 9 else shift + 3)
    ensures row[..] == RotateRight(p, shift')
  {
    ShiftRight(row, 3);
    RotateRightAdd(p, shift, 3);
    if shift + 3 >= 9 {
      RotateNineMore(p, shift + 3 - 9);
      shift' := shift + 3 - 9;
    } else {
      shift' := shift + 3;
    }
  }

  /**
   * The loop over the three rows of band `i`: each row receives the base row,
   * which is then rotated right by three; after the band it has turned by
   * nine steps, i.e. it is back where the band started.
   */
  method WriteBand(value: Matrix, generated: Matrix, row: array<int>, i: int, ghost p: seq<int>)
    returns (value': Matrix, generated': Matrix)
    requires Shaped(value) && Shaped(generated) && 0 <= i < 3 && row.Length == 9 && |p| == 9
    requires row[..] == RotateRight(p, 2 * i) && RowsWritten(value, generated, p, 3 * i)
    modifies row
    ensures Shaped(value') && Shaped(generated')
    ensures row[..] == RotateRight(p, 2 * i) && RowsWritten(value', generated', p, 3 * i + 3)
  {
    value', generated' := value, generated;
    ghost var shift := 2 * i;
    var j := 9 / 3 * i;
    while j < 9 / 3 * i + 3
      invariant 3 * i <= j <= 3 * i + 3 && Shaped(value') && Shaped(generated')
      invariant shift == ShiftOf(i, j - 3 * i) && row[..] == RotateRight(p, shift)
      invariant RowsWritten(value', generated', p, j)
    {
      value', generated', shift := WriteBandRow(value', generated', row, i, j, p, shift);
      j := j + 1;
    }
  }

  /**
   * The three nested loops of generateFullSudoku: each band of three rows is
   * written from the base row, which is rotated right by three after every
   * row and by two more after every band.
   */
  method WriteBasePattern(row: array<int>) returns (g: Sudoku)
    requires row.Length == 9
    modifies row
    ensures g.Wf() && BasePattern(g, old(row[..])) && AllLocked(g)
  {
    ghost var p := row[..];
    var value, generated := Filled(0), Filled(0);
    var i := 0;
    while i < 3
      invariant 0 <= i <= 3 && Shaped(value) && Shaped(generated)
      invariant row[..] == RotateRight(p, 2 * i) && RowsWritten(value, generated, p, 3 * i)
    {
      value, generated := WriteBandAndShift(value, generated, row, i, p);
      i := i + 1;
    }
    g := Sudoku(value, generated);
    AllRowsWritten(g, p);
  }

  /** One pass of the outer loop: a band of three rows, then the base row rotated right by two. */
  method WriteBandAndShift(value: Matrix, generated: Matrix, row: array<int>, i: int, ghost p: seq<int>)
    returns (value': Matrix, generated': Matrix)
    requires Shaped(value) && Shaped(generated) && 0 <= i < 3 && row.Length == 9 && |p| == 9
    requires row[..] == RotateRight(p, 2 * i) && RowsWritten(value, generated, p, 3 * i)
    modifies row
    ensures Shaped(value') && Shaped(generated')
    ensures row[..] == RotateRight(p, 2 * (i + 1)) && RowsWritten(value', generated', p, 3 * (i + 1))
  {
    value', generated' := WriteBand(value, generated, row, i, p);
    ShiftRight(row, 2);
    RotateRightAdd(p, 2 * i, 2);
  }

  /** All nine rows written: the board is the base pattern and every cell is locked. */
  lemma AllRowsWritten(g: Sudoku, p: seq<int>)
    requires g.Wf() && |p| == 9 && RowsWritten(g.value, g.generated, p, 9)
    ensures BasePattern(g, p) && AllLocked(g)
  {
  }

  /**
   * generateFullSudoku. `baseDraws` are the rand() pairs of the shuffle of
   * the base row; rowDraws[i] and columnDraws[i] are the rand() triples of
   * round i's shuffleRows and shuffleColumns. Whatever they are, the result
   * is a completed Sudoku with every cell locked.
   */
  method GenerateFullSudoku(baseDraws: seq<(nat, nat)>, rowDraws: seq<seq<(nat, nat, nat)>>,
                            columnDraws: seq<seq<(nat, nat, nat)>>) returns (g: Sudoku)
    requires |baseDraws| == 9 && |rowDraws| == 9 && |columnDraws| == 9
    requires forall i :: 0 <= i < 9 ==> |rowDraws[i]| == 9 && |columnDraws[i]| == 9
    ensures IsSolution(g) && AllLocked(g)
  {
    var row := new int[9](i => i + 1);
    assert row[..] == Digits();
    Shuffle(row, baseDraws);
    ShuffledDigits(row[..], baseDraws);
    ghost var p := row[..];
    g := WriteBasePattern(row);
    BasePatternIsSolution(g, p);

    var i := 0;
    while i < 9
      invariant 0 <= i <= 9 && IsSolution(g) && AllLocked(g)
    {
      RowsShuffledKeepsSolution(g, rowDraws[i]);
      g := ShuffleRows(g, rowDraws[i]);
      ColumnsShuffledKeepsSolution(g, columnDraws[i]);
      g := ShuffleColumns(g, columnDraws[i]);
      i := i + 1;
    }
  }
}
