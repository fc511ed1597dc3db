/**
 * The savegame file. writeSavegame prints, cell by cell in row-major order,
 * the solved value, the value in play, the solved lock flag and the lock
 * flag, then a newline and the elapsed seconds. readSavegame reads the file
 * back one digit at a time with fscanf("%1d"), which skips white space,
 * moving a cursor (row i, column j, field n) through the four fields of each
 * cell; it then looks for the newline and reads the digits after it as the
 * elapsed time.
 */
module Codec {
  import opened Grid
  import opened Digits

  datatype Option<T> = None | Some(value: T)

  /** Field m (0..3) of cell (r, c), in the order the file lists them. */
  function CellField(sg: Savegame, r: int, c: int, m: int): int
    requires sg.solved.Wf() && sg.grid.Wf() && 0 <= r < 9 && 0 <= c < 9 && 0 <= m < 4
  {
    if m == 0 then sg.solved.value[r][c]
    else if m == 1 then sg.grid.value[r][c]
    else if m == 2 then sg.solved.generated[r][c]
    else sg.grid.generated[r][c]
  }

  /** Both boards are 9x9 and every field is one decimal digit, as for every game the program plays. */
  predicate Storable(sg: Savegame)
  {
    sg.solved.Wf() && sg.grid.Wf() &&
    forall r, c, m :: 0 <= r < 9 && 0 <= c < 9 && 0 <= m < 4 ==> 0 <= CellField(sg, r, c, m) <= 9
  }

  // ---------------------------------------------------------------- writing

  /** The four "%d" prints of one cell. */
  function CellText(sg: Savegame, r: int, c: int): string
    requires sg.solved.Wf() && sg.grid.Wf() && 0 <= r < 9 && 0 <= c < 9
  {
    FormatInt(sg.solved.value[r][c]) + FormatInt(sg.grid.value[r][c]) +
    FormatInt(sg.solved.generated[r][c]) + FormatInt(sg.grid.generated[r][c])
  }

  /** The inner loop of writeSavegame: cells 0 .. cols-1 of row r. */
  function RowText(sg: Savegame, r: int, cols: int): string
    requires sg.solved.Wf() && sg.grid.Wf() && 0 <= r < 9 && 0 <= cols <= 9
  {
    if cols == 0 then [] else RowText(sg, r, cols - 1) + CellText(sg, r, cols - 1)
  }

  /** The outer loop of writeSavegame: rows 0 .. rows-1. */
  function RowsText(sg: Savegame, rows: int): string
    requires sg.solved.Wf() && sg.grid.Wf() && 0 <= rows <= 9
  {
    if rows == 0 then [] else RowsText(sg, rows - 1) + RowText(sg, rows - 1, 9)
  }

  /** writeSavegame: the file contents it prints, the time as "%.0f" of a whole number of seconds. */
  function Encode(sg: Savegame): (s: string)
    requires sg.solved.Wf() && sg.grid.Wf()
    ensures |s| > |RowsText(sg, 9)| && s[|RowsText(sg, 9)|] == '\n'
  {
    RowsText(sg, 9) + "\n" + FormatNat(sg.pastTime)
  }

  /** A string of digit characters only. */
  predicate AllDigits(s: string)
  {
    forall k :: 0 <= k < |s| ==> IsDigit(s[k])
  }

  lemma AllDigitsAppend(a: string, b: string)
    requires AllDigits(a) && AllDigits(b)
    ensures AllDigits(a + b)
  {
    forall k | 0 <= k < |a + b|
      ensures IsDigit((a + b)[k])
    {
      if k < |a| {
        assert (a + b)[k] == a[k];
      } else {
        assert (a + b)[k] == b[k - |a|];
      }
    }
  }

  lemma CellTextLayout(sg: Savegame, r: int, c: int)
    requires Storable(sg) && 0 <= r < 9 && 0 <= c < 9
    ensures |CellText(sg, r, c)| == 4 && AllDigits(CellText(sg, r, c))
    ensures CellText(sg, r, c) == [DigitChar(CellField(sg, r, c, 0)), DigitChar(CellField(sg, r, c, 1)),
                                   DigitChar(CellField(sg, r, c, 2)), DigitChar(CellField(sg, r, c, 3))]
  {
    assert 0 <= CellField(sg, r, c, 0) <= 9 && 0 <= CellField(sg, r, c, 1) <= 9;
    assert 0 <= CellField(sg, r, c, 2) <= 9 && 0 <= CellField(sg, r, c, 3) <= 9;
  }

  lemma {:induction false} RowTextDigits(sg: Savegame, r: int, cols: int)
    requires Storable(sg) && 0 <= r < 9 && 0 <= cols <= 9
    ensures |RowText(sg, r, cols)| == 4 * cols && AllDigits(RowText(sg, r, cols))
  {
    if cols > 0 {
      RowTextDigits(sg, r, cols - 1);
      CellTextLayout(sg, r, cols - 1);
      AllDigitsAppend(RowText(sg, r, cols - 1), CellText(sg, r, cols - 1));
    }
  }

  /** Each cell of a storable game prints four characters. */
  lemma CellTextLengths(sg: Savegame)
    requires Storable(sg)
    ensures forall r, c :: 0 <= r < 9 && 0 <= c < 9 ==> |CellText(sg, r, c)| == 4
  {
    forall r, c | 0 <= r < 9 && 0 <= c < 9
      ensures |CellText(sg, r, c)| == 4
    {
      CellTextLayout(sg, r, c);
    }
  }

  /** Appending a cell's four characters to n cells: position 4k + m is in the prefix when k < n, in the new cell when k == n. */
  lemma AppendCell(prefix: string, cell: string, n: int, k: int, m: int)
    requires 0 <= m < 4 && |cell| == 4 && 0 <= k <= n && |prefix| == 4 * n
    ensures 0 <= 4 * k + m < |prefix + cell|
    ensures (prefix + cell)[4 * k + m] == if k < n then prefix[4 * k + m] else cell[m]
  {
  }

  /** Appending a row's 36 characters to n rows: position 36k + x is in the prefix when k < n, in the new row when k == n. */
  lemma AppendRow(prefix: string, row: string, n: int, k: int, x: int)
    requires 0 <= x < 36 && |row| == 36 && 0 <= k <= n && |prefix| == 36 * n
    ensures 0 <= 36 * k + x < |prefix + row|
    ensures (prefix + row)[36 * k + x] == if k < n then prefix[36 * k + x] else row[x]
  {
  }

  /** Character 4c + m of row r's text is character m of cell (r, c)'s text. */
  lemma {:induction false} RowTextLayout(sg: Savegame, r: int, cols: int)
    requires sg.solved.Wf() && sg.grid.Wf() && 0 <= r < 9 && 0 <= cols <= 9
    requires forall c :: 0 <= c < 9 ==> |CellText(sg, r, c)| == 4
    ensures |RowText(sg, r, cols)| == 4 * cols
    ensures forall c, m :: 0 <= c < cols && 0 <= m < 4 ==> RowText(sg, r, cols)[4 * c + m] == CellText(sg, r, c)[m]
  {
    if cols > 0 {
      RowTextLayout(sg, r, cols - 1);
      var prefix, cell := RowText(sg, r, cols - 1), CellText(sg, r, cols - 1);
      assert RowText(sg, r, cols) == prefix + cell;
      forall c, m | 0 <= c < cols && 0 <= m < 4
        ensures (prefix + cell)[4 * c + m] == CellText(sg, r, c)[m]
      {
        AppendCell(prefix, cell, cols - 1, c, m);
      }
    }
  }


  /** The text before the newline: 36 digit characters per row. */
  lemma {:induction false} RowsTextDigits(sg: Savegame, rows: int)
    requires Storable(sg) && 0 <= rows <= 9
    ensures |RowsText(sg, rows)| == 36 * rows && AllDigits(RowsText(sg, rows))
  {
    if rows > 0 {
      RowsTextDigits(sg, rows - 1);
      RowTextDigits(sg, rows - 1, 9);
      AllDigitsAppend(RowsText(sg, rows - 1), RowText(sg, rows - 1, 9));
    }
  }

  /** Character 36r + x before the newline is character x of row r's text. */
  lemma {:induction false} RowsTextLayout(sg: Savegame, rows: int)
    requires sg.solved.Wf() && sg.grid.Wf() && 0 <= rows <= 9
    requires forall r :: 0 <= r < 9 ==> |RowText(sg, r, 9)| == 36
    ensures |RowsText(sg, rows)| == 36 * rows
    ensures forall r, x :: 0 <= r < rows && 0 <= x < 36 ==> RowsText(sg, rows)[36 * r + x] == RowText(sg, r, 9)[x]
  {
    if rows > 0 {
      RowsTextLayout(sg, rows - 1);
      var prefix, row := RowsText(sg, rows - 1), RowText(sg, rows - 1, 9);
      assert RowsText(sg, rows) == prefix + row;
      forall r, x | 0 <= r < rows && 0 <= x < 36
        ensures (prefix + row)[36 * r + x] == RowText(sg, r, 9)[x]
      {
        AppendRow(prefix, row, rows - 1, r, x);
      }
    }
  }

  /** The 324 characters before the newline: field m of cell (r, c) is character 36r + 4c + m. */
  lemma CellsLayout(sg: Savegame)
    requires Storable(sg)
    ensures |RowsText(sg, 9)| == 324
    ensures forall r, c, m :: 0 <= r < 9 && 0 <= c < 9 && 0 <= m < 4 ==>
      RowsText(sg, 9)[36 * r + 4 * c + m] == DigitChar(CellField(sg, r, c, m))
  {
    CellTextLengths(sg);
    CellTextPositions(sg);
    forall r, c, m | 0 <= r < 9 && 0 <= c < 9 && 0 <= m < 4
      ensures RowsText(sg, 9)[36 * r + 4 * c + m] == DigitChar(CellField(sg, r, c, m))
    {
      CellCharacter(sg, r, c, m);
    }
  }

  /** With four characters per cell, character 36r + 4c + m before the newline is character m of cell (r, c). */
  lemma CellTextPositions(sg: Savegame)
    requires sg.solved.Wf() && sg.grid.Wf()
    requires forall r, c :: 0 <= r < 9 && 0 <= c < 9 ==> |CellText(sg, r, c)| == 4
    ensures |RowsText(sg, 9)| == 324
    ensures forall r, c, m :: 0 <= r < 9 && 0 <= c < 9 && 0 <= m < 4 ==>
      RowsText(sg, 9)[36 * r + 4 * c + m] == CellText(sg, r, c)[m]
  {
    forall r | 0 <= r < 9
      ensures |RowText(sg, r, 9)| == 36
      ensures forall c, m :: 0 <= c < 9 && 0 <= m < 4 ==> RowText(sg, r, 9)[4 * c + m] == CellText(sg, r, c)[m]
    {
      RowTextLayout(sg, r, 9);
    }
    RowsTextLayout(sg, 9);
    forall r, c, m | 0 <= r < 9 && 0 <= c < 9 && 0 <= m < 4
      ensures RowsText(sg, 9)[36 * r + 4 * c + m] == CellText(sg, r, c)[m]
    {
      assert RowsText(sg, 9)[36 * r + 4 * c + m] == RowText(sg, r, 9)[4 * c + m];
    }
  }

  /** Character m of a cell's text is the digit of its field m. */
  lemma CellCharacter(sg: Savegame, r: int, c: int, m: int)
    requires Storable(sg) && 0 <= r < 9 && 0 <= c < 9 && 0 <= m < 4
    ensures |CellText(sg, r, c)| == 4 && CellText(sg, r, c)[m] == DigitChar(CellField(sg, r, c, m))
  {
    var cell := CellText(sg, r, c);
    CellTextLayout(sg, r, c);
    if m == 0 {
      assert cell[0] == DigitChar(CellField(sg, r, c, 0));
    } else if m == 1 {
      assert cell[1] == DigitChar(CellField(sg, r, c, 1));
    } else if m == 2 {
      assert cell[2] == DigitChar(CellField(sg, r, c, 2));
    } else {
      assert cell[3] == DigitChar(CellField(sg, r, c, 3));
    }
  }

  /** A file the program writes: 324 digits, a newline, the digits of the time. */
  lemma EncodeShape(sg: Savegame)
    requires Storable(sg)
    ensures var s := Encode(sg);
      |s| == 325 + |FormatNat(sg.pastTime)| && AllDigits(s[..324]) && s[324] == '\n' &&
      s[325..] == FormatNat(sg.pastTime)
  {
    RowsTextDigits(sg, 9);
    var cells, time := RowsText(sg, 9), FormatNat(sg.pastTime);
    var line := cells + "\n";
    var s := Encode(sg);
    assert s == line + time;
    assert s[..325] == line && s[325..] == time;
    assert line[..324] == cells;
  }

  /** Field m of cell (r, c) is written as the digit at position 36r + 4c + m of the file. */
  lemma EncodeLayout(sg: Savegame)
    requires Storable(sg)
    ensures |Encode(sg)| > 324
    ensures forall r, c, m :: 0 <= r < 9 && 0 <= c < 9 && 0 <= m < 4 ==>
      Encode(sg)[36 * r + 4 * c + m] == DigitChar(CellField(sg, r, c, m))
  {
    CellsLayout(sg);
    var cells := RowsText(sg, 9);
    var s := Encode(sg);
    forall r, c, m | 0 <= r < 9 && 0 <= c < 9 && 0 <= m < 4
      ensures s[36 * r + 4 * c + m] == DigitChar(CellField(sg, r, c, m))
    {
      assert s[36 * r + 4 * c + m] == cells[36 * r + 4 * c + m];
    }
  }

  // ---------------------------------------------------------------- reading

  /**
   * The cursor (i, j, n) after `k` digits when a digit is stored only while
   * i < rows: each stored digit moves n on, past 3 to the next column, past
   * column 8 to the next row. The program as written uses rows = 10, the
   * model of readSavegame rows = 9. Up to 36 * rows digits the cursor counts
   * them in base (36, 4); from there on it stays at (rows, 0, 0).
   */
  function CursorAfter(k: nat, rows: int): (cur: (int, int, int))
    requires rows >= 0
    ensures k <= 36 * rows ==>
      36 * cur.0 + 4 * cur.1 + cur.2 == k && 0 <= cur.0 && 0 <= cur.1 < 9 && 0 <= cur.2 < 4
    ensures k >= 36 * rows ==> cur == (rows, 0, 0)
  {
    if k == 0 then (0, 0, 0)
    else
      var cur := CursorAfter(k - 1, rows);
      if cur.0 < rows then Advance(cur) else cur
  }

  /** One store's worth of cursor movement: n++, past 3 to the next column, past column 8 to the next row. */
  function Advance(cur: (int, int, int)): (next: (int, int, int))
  {
    var (i, j, n) := cur;
    var n' := n + 1;
    var (n'', j') := if n' > 3 then (0, j + 1) else (n', j);
    if j' == 9 then (i + 1, 0, n'') else (i, j', n'')
  }

  /** The field that digit 36r + 4c + m of `ds` fills; 0 when there is no such digit. */
  function FieldAt(ds: seq<int>, r: int, c: int, m: int): int
  {
    var k := 36 * r + 4 * c + m;
    if 0 <= k < |ds| then ds[k] else 0
  }

  function FieldMatrix(ds: seq<int>, m: int): (mat: Matrix)
    ensures Shaped(mat)
    ensures forall r, c :: 0 <= r < 9 && 0 <= c < 9 ==> mat[r][c] == FieldAt(ds, r, c, m)
  {
    seq(9, r => seq(9, c => FieldAt(ds, r, c, m)))
  }

  /** The savegame the digit cursor builds from the digits `ds` of the file, with elapsed time `time`. */
  function Assembled(ds: seq<int>, time: nat): (sg: Savegame)
    ensures sg.solved.Wf() && sg.grid.Wf() && sg.pastTime == time
    ensures forall r, c, m :: 0 <= r < 9 && 0 <= c < 9 && 0 <= m < 4 ==> CellField(sg, r, c, m) == FieldAt(ds, r, c, m)
  {
    Savegame(Sudoku(FieldMatrix(ds, 0), FieldMatrix(ds, 2)), Sudoku(FieldMatrix(ds, 1), FieldMatrix(ds, 3)), time)
  }

  /** Every character is one fscanf("%1d") either reads or skips. */
  predicate Scannable(s: string)
  {
    forall k :: 0 <= k < |s| ==> IsDigit(s[k]) || IsSpace(s[k])
  }

  /** The position of the first newline, |s| if there is none. */
  function NewlineIndex(s: string): (p: nat)
    ensures p <= |s| && (p < |s| ==> s[p] == '\n')
    ensures forall k :: 0 <= k < p ==> s[k] != '\n'
  {
    if s == [] || s[0] == '\n' then 0 else 1 + NewlineIndex(s[1..])
  }

  /**
   * What readSavegame makes of a slot: `Hangs` when its first loop never
   * ends (fscanf("%1d") stops at a character that is neither a digit nor
   * white space and returns 0, not EOF, without consuming it).
   */
  datatype ReadOutcome = Loaded(game: Savegame, error: int) | Hangs

  /**
   * readSavegame with its store guarded by i < 9 rather than the i < 10 it
   * is written with (see TenthRowStoredAsWritten), given the contents of the
   * slot's file (None when it cannot be opened): error 1 for a missing file,
   * error 2 when there is no newline (the time stays 0), error 0 otherwise
   * with the time read from the digits after the first newline. Under this
   * guard digits beyond the 324 fields are not stored; fields the file does
   * not reach stay 0.
   */
  function Decode(file: Option<string>): (o: ReadOutcome)
    ensures o.Hangs? <==> file.Some? && !Scannable(file.value)
    ensures o.Loaded? ==> Storable(o.game)
    ensures o.Loaded? ==> (o.error == 1 <==> file.None?)
    ensures o.Loaded? && file.Some? ==> (o.error == 2 <==> '\n' !in file.value) && o.error != 1
    ensures o.Loaded? && o.error != 0 ==> o.game.pastTime == 0
  {
    match file
    case None => Loaded(Savegame(EmptySudoku(), EmptySudoku(), 0), 1)
    case Some(s) =>
      if !Scannable(s) then Hangs
      else
        var ds := DigitsOf(s);
        var p := NewlineIndex(s);
        if p == |s| then Loaded(Assembled(ds, 0), 2)
        else Loaded(Assembled(ds, Decimal(DigitsOf(s[p + 1..]))), 0)
  }

  /** Reading one more character extends the digits read so far by that character's digit, if it is one. */
  lemma DigitsOfStep(s: string, k: int)
    requires 0 <= k < |s|
    ensures DigitsOf(s[..k + 1]) == DigitsOf(s[..k]) + (if IsDigit(s[k]) then [DigitValue(s[k])] else [])
  {
    assert s[..k + 1][..k] == s[..k];
  }

  /** Two savegames with the same fields and time are the same. */
  lemma SameFields(a: Savegame, b: Savegame)
    requires a.solved.Wf() && a.grid.Wf() && b.solved.Wf() && b.grid.Wf() && a.pastTime == b.pastTime
    requires forall r, c, m :: 0 <= r < 9 && 0 <= c < 9 && 0 <= m < 4 ==> CellField(a, r, c, m) == CellField(b, r, c, m)
    ensures a == b
  {
    forall r, c | 0 <= r < 9 && 0 <= c < 9
      ensures a.solved.value[r][c] == b.solved.value[r][c] && a.grid.value[r][c] == b.grid.value[r][c]
      ensures a.solved.generated[r][c] == b.solved.generated[r][c] && a.grid.generated[r][c] == b.grid.generated[r][c]
    {
      assert CellField(a, r, c, 0) == CellField(b, r, c, 0) && CellField(a, r, c, 1) == CellField(b, r, c, 1);
      assert CellField(a, r, c, 2) == CellField(b, r, c, 2) && CellField(a, r, c, 3) == CellField(b, r, c, 3);
    }
    forall r | 0 <= r < 9
      ensures a.solved.value[r] == b.solved.value[r] && a.grid.value[r] == b.grid.value[r]
      ensures a.solved.generated[r] == b.solved.generated[r] && a.grid.generated[r] == b.grid.generated[r]
    {
    }
    assert a.solved.value == b.solved.value && a.grid.value == b.grid.value;
    assert a.solved.generated == b.solved.generated && a.grid.generated == b.grid.generated;
  }

  /** The fields of `sudoku` are those the digits `ds` fill. */
  predicate FieldsRead(sudoku: Savegame, ds: seq<int>)
    requires sudoku.solved.Wf() && sudoku.grid.Wf()
  {
    forall r, c, m :: 0 <= r < 9 && 0 <= c < 9 && 0 <= m < 4 ==> CellField(sudoku, r, c, m) == FieldAt(ds, r, c, m)
  }

  /** Storing digit d at field m of (i, j), where the cursor says digit number |ds| goes, keeps FieldsRead. */
  lemma StoreStep(before: Savegame, after: Savegame, ds: seq<int>, d: int, i: int, j: int, n: int)
    requires before.solved.Wf() && before.grid.Wf() && after.solved.Wf() && after.grid.Wf()
    requires 0 <= i < 9 && 0 <= j < 9 && 0 <= n < 4 && 36 * i + 4 * j + n == |ds|
    requires FieldsRead(before, ds) && CellField(after, i, j, n) == d
    requires forall r, c, m :: 0 <= r < 9 && 0 <= c < 9 && 0 <= m < 4 && (r != i || c != j || m != n) ==>
      CellField(after, r, c, m) == CellField(before, r, c, m)
    ensures FieldsRead(after, ds + [d])
  {
  }

  /** The switch on n: digit `temp` goes into field n of cell (i, j); nothing else changes. */
  method StoreDigit(sudoku: Savegame, i: int, j: int, n: int, temp: int) returns (sudoku': Savegame)
    requires sudoku.solved.Wf() && sudoku.grid.Wf() && 0 <= i < 9 && 0 <= j < 9 && 0 <= n < 4
    ensures sudoku'.solved.Wf() && sudoku'.grid.Wf() && sudoku'.pastTime == sudoku.pastTime
    ensures CellField(sudoku', i, j, n) == temp
    ensures forall r, c, m :: 0 <= r < 9 && 0 <= c < 9 && 0 <= m < 4 && (r != i || c != j || m != n) ==>
      CellField(sudoku', r, c, m) == CellField(sudoku, r, c, m)
  {
    sudoku' := sudoku;
    if n == 0 {
      sudoku' := sudoku.(solved := sudoku.solved.(value := Put(sudoku.solved.value, i, j, temp)));
    } else if n == 1 {
      sudoku' := sudoku.(grid := sudoku.grid.(value := Put(sudoku.grid.value, i, j, temp)));
    } else if n == 2 {
      sudoku' := sudoku.(solved := sudoku.solved.(generated := Put(sudoku.solved.generated, i, j, temp)));
    } else if n == 3 {
      sudoku' := sudoku.(grid := sudoku.grid.(generated := Put(sudoku.grid.generated, i, j, temp)));
    }
  }

  /** A digit read once the cursor has left the grid changes no field. */
  lemma KeepStep(sudoku: Savegame, ds: seq<int>, d: int)
    requires sudoku.solved.Wf() && sudoku.grid.Wf() && |ds| >= 324 && FieldsRead(sudoku, ds)
    ensures FieldsRead(sudoku, ds + [d])
  {
  }

  /**
   * One digit `temp` read by the first loop, the digits `ds` before it: while
   * the cursor is inside the grid (the guard i < 9, corrected from the
   * i < 10 of the code) the digit is stored at the cursor, which then moves on.
   */
  method ReadDigit(sudoku: Savegame, i: int, j: int, n: int, temp: int, ghost ds: seq<int>)
    returns (sudoku': Savegame, i': int, j': int, n': int)
    requires sudoku.solved.Wf() && sudoku.grid.Wf() && FieldsRead(sudoku, ds)
    requires (i, j, n) == CursorAfter(|ds|, 9)
    ensures sudoku'.solved.Wf() && sudoku'.grid.Wf() && sudoku'.pastTime == sudoku.pastTime
    ensures FieldsRead(sudoku', ds + [temp])
    ensures (i', j', n') == CursorAfter(|ds| + 1, 9)
  {
    sudoku', i', j', n' := sudoku, i, j, n;
    if i' < 9 {
      sudoku' := StoreDigit(sudoku', i', j', n', temp);
      StoreStep(sudoku, sudoku', ds, temp, i, j, n);
      n' := n' + 1;
      if n' > 3 {
        n' := 0;
        j' := j' + 1;
      }
      if j' == 9 {
        j' := 0;
        i' := i' + 1;
      }
    } else {
      KeepStep(sudoku, ds, temp);
    }
  }

  /**
   * The first loop of readSavegame, with the row guard corrected to i < 9: every digit
   * read while the cursor is inside the grid is stored at the cursor; any
   * other character than a digit or white space stops the scan for good.
   */
  method ScanFields(s: string) returns (hangs: bool, sudoku: Savegame)
    ensures hangs <==> !Scannable(s)
    ensures !hangs ==> sudoku == Assembled(DigitsOf(s), 0)
  {
    sudoku := Savegame(EmptySudoku(), EmptySudoku(), 0);
    var i, j, n := 0, 0, 0;
    ghost var count := 0;
    assert s[..0] == [];
    for pos := 0 to |s|
      invariant Scannable(s[..pos]) && count == |DigitsOf(s[..pos])|
      invariant (i, j, n) == CursorAfter(count, 9)
      invariant sudoku.solved.Wf() && sudoku.grid.Wf() && sudoku.pastTime == 0
      invariant FieldsRead(sudoku, DigitsOf(s[..pos]))
    {
      ghost var ds := DigitsOf(s[..pos]);
      DigitsOfStep(s, pos);
      assert s[..pos + 1][pos] == s[pos];
      if IsDigit(s[pos]) {
        var temp := DigitValue(s[pos]);
        assert DigitsOf(s[..pos + 1]) == ds + [temp];
        sudoku, i, j, n := ReadDigit(sudoku, i, j, n, temp, ds);
        count := count + 1;
      } else if !IsSpace(s[pos]) {
        assert !Scannable(s);
        return true, sudoku;
      }
    }
    assert s[..|s|] == s;
    SameFields(sudoku, Assembled(DigitsOf(s), 0));
    hangs := false;
  }

  /** The second loop of readSavegame: characters up to the first newline. */
  method FindNewline(s: string) returns (p: int)
    ensures p == NewlineIndex(s)
  {
    p := 0;
    while p < |s| && s[p] != '\n'
      invariant 0 <= p <= |s| && forall k :: 0 <= k < p ==> s[k] != '\n'
    {
      p := p + 1;
    }
  }

  /** The third loop of readSavegame: after the newline, time * 10 + digit for every digit read. */
  method ReadTime(s: string, p: int) returns (time: nat)
    requires 0 <= p < |s| && Scannable(s)
    ensures time == Decimal(DigitsOf(s[p + 1..]))
  {
    time := 0;
    ghost var t := s[p + 1..];
    assert t[..0] == [];
    for q := 0 to |s| - p - 1
      invariant time == Decimal(DigitsOf(t[..q]))
    {
      DigitsOfStep(t, q);
      assert t[q] == s[p + 1 + q];
      if IsDigit(s[p + 1 + q]) {
        DecimalAppend(DigitsOf(t[..q]), DigitValue(t[q]));
        time := time * 10;
        time := time + DigitValue(s[p + 1 + q]);
      } else {
        assert DigitsOf(t[..q + 1]) == DigitsOf(t[..q]) + [];
        assert DigitsOf(t[..q]) + [] == DigitsOf(t[..q]);
      }
    }
    assert t[..|t|] == t;
  }

  /** readSavegame: the file's contents (None when fopen fails) read as Decode describes. */
  method ReadSavegame(file: Option<string>) returns (result: ReadOutcome)
    ensures result == Decode(file)
  {
    if file.None? {
      return Loaded(Savegame(EmptySudoku(), EmptySudoku(), 0), 1);
    }
    var s := file.value;
    var hangs, sudoku := ScanFields(s);
    if hangs {
      return Hangs;
    }
    var p := FindNewline(s);
    if p == |s| {
      return Loaded(sudoku, 2);
    }
    var time := ReadTime(s, p);
    result := Loaded(sudoku.(pastTime := time), 0);
  }

  /** The digits of a written file: the 324 field digits, then those of the time. */
  lemma DigitsOfEncode(sg: Savegame)
    requires Storable(sg)
    ensures var ds := DigitsOf(Encode(sg));
      |ds| == 324 + |FormatNat(sg.pastTime)| &&
      forall r, c, m :: 0 <= r < 9 && 0 <= c < 9 && 0 <= m < 4 ==> ds[36 * r + 4 * c + m] == CellField(sg, r, c, m)
  {
    CellDigits(sg);
    DigitsOfAllDigits(FormatNat(sg.pastTime));
    EncodeDigits(sg);
    var ds, cellDigits := DigitsOf(Encode(sg)), DigitsOf(RowsText(sg, 9));
    forall r, c, m | 0 <= r < 9 && 0 <= c < 9 && 0 <= m < 4
      ensures ds[36 * r + 4 * c + m] == CellField(sg, r, c, m)
    {
      assert ds[36 * r + 4 * c + m] == cellDigits[36 * r + 4 * c + m];
    }
  }

  /** The newline carries no digit: the file's digits are those of the cells followed by those of the time. */
  lemma EncodeDigits(sg: Savegame)
    requires sg.solved.Wf() && sg.grid.Wf()
    ensures DigitsOf(Encode(sg)) == DigitsOf(RowsText(sg, 9)) + DigitsOf(FormatNat(sg.pastTime))
  {
    DigitsAroundNewline(RowsText(sg, 9), FormatNat(sg.pastTime));
  }

  /** A newline between two texts adds no digit. */
  lemma DigitsAroundNewline(a: string, b: string)
    ensures DigitsOf(a + "\n" + b) == DigitsOf(a) + DigitsOf(b)
  {
    DigitsOfAppend(a + "\n", b);
    DigitsOfAppend(a, "\n");
    assert DigitsOf("\n") == [] by {
      assert "\n"[..0] == [];
    }
    assert DigitsOf(a) + [] == DigitsOf(a);
  }

  /** The digits of the 324 characters before the newline are the fields, cell by cell. */
  lemma CellDigits(sg: Savegame)
    requires Storable(sg)
    ensures var ds := DigitsOf(RowsText(sg, 9));
      |ds| == 324 &&
      forall r, c, m :: 0 <= r < 9 && 0 <= c < 9 && 0 <= m < 4 ==> ds[36 * r + 4 * c + m] == CellField(sg, r, c, m)
  {
    var cells := RowsText(sg, 9);
    CellsLayout(sg);
    RowsTextDigits(sg, 9);
    DigitsOfAllDigits(cells);
    var ds := DigitsOf(cells);
    forall r, c, m | 0 <= r < 9 && 0 <= c < 9 && 0 <= m < 4
      ensures ds[36 * r + 4 * c + m] == CellField(sg, r, c, m)
    {
      var k := 36 * r + 4 * c + m;
      assert ds[k] == DigitValue(cells[k]);
    }
  }

  /** A written file holds only digits and one newline, at position 324, which fscanf skips. */
  lemma EncodeScannable(sg: Savegame)
    requires Storable(sg)
    ensures Scannable(Encode(sg)) && NewlineIndex(Encode(sg)) == 324
  {
    EncodeShape(sg);
    var s := Encode(sg);
    forall k | 0 <= k < |s|
      ensures IsDigit(s[k]) || IsSpace(s[k])
      ensures k < 324 ==> s[k] != '\n'
    {
      if k < 324 {
        assert s[k] == s[..324][k];
      } else if k > 324 {
        assert s[k] == s[325..][k - 325];
      }
    }
  }

  /** Reading a saved game back gives exactly the game that was saved, with no error. */
  lemma DecodeEncode(sg: Savegame)
    requires Storable(sg)
    ensures Decode(Some(Encode(sg))) == Loaded(sg, 0)
  {
    EncodeScannable(sg);
    EncodeTime(sg);
    DecodedFields(sg);
  }

  /** The digits after the newline of a written file are worth the elapsed time. */
  lemma EncodeTime(sg: Savegame)
    requires Storable(sg)
    ensures |Encode(sg)| > 325 && Decimal(DigitsOf(Encode(sg)[325..])) == sg.pastTime
  {
    EncodeShape(sg);
    DecimalOfFormatNat(sg.pastTime);
  }

  /** Reassembling the digits of a written file gives back every field of the game. */
  lemma DecodedFields(sg: Savegame)
    requires Storable(sg)
    ensures Assembled(DigitsOf(Encode(sg)), sg.pastTime) == sg
  {
    DigitsOfEncode(sg);
    var ds := DigitsOf(Encode(sg));
    forall r, c, m | 0 <= r < 9 && 0 <= c < 9 && 0 <= m < 4
      ensures FieldAt(ds, r, c, m) == CellField(sg, r, c, m)
    {
    }
    SameFields(Assembled(ds, sg.pastTime), sg);
  }

  /**
   * The program as written guards the store with i < 10 instead of i < 9.
   * Every file it writes has more than 324 digits, and each digit k from
   * 324 on (the digits of the time) finds the cursor at row 9 until k
   * reaches 360: the guard lets the store through although the grids have
   * rows 0..8 only. With the guard i < 9 the cursor stays at row 9 and
   * nothing from digit 324 on is stored.
   */
  lemma TenthRowStoredAsWritten(sg: Savegame)
    requires Storable(sg)
    ensures |DigitsOf(Encode(sg))| > 324
    ensures forall k :: 324 <= k < 360 ==> CursorAfter(k, 10).0 == 9
    ensures forall k :: k >= 324 ==> !(CursorAfter(k, 9).0 < 9)
  {
    DigitsOfEncode(sg);
  }
}
