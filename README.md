# Sudoku engine — a Dafny model

This project models the engine of a console Sudoku game written in C. The engine does the following:

- It builds a completed board from a shuffled base row with the band construction, then scrambles it by exchanging rows and columns inside bands.
- It carves a puzzle out of that board by emptying cells. The number of cells depends on the difficulty.
- It checks uniqueness in a cell's row, column and 3x3 box by counting.
- It edits the board in play through a lock- and range-checked write, and offers a hint that copies one solution value into an empty cell.
- It validates an imported puzzle.
- It writes and reads a savegame as fixed-width text.
- It converts the column letters and numbers a player types.

The two boards of a game (`struct sudoku`: `value[9][9]` plus the lock flags `generated[9][9]`) are passed by value in C. They are modelled as the value datatype `Grid.Sudoku` over `seq<seq<int>>`. Operations that loop over a board copy are methods over that value, proved against specification functions.

`shiftRight`, `shuffle` and `swap` work in place on an `int[]`, so they are methods over an `array<int>` with `modifies` clauses.

`rand()` is an injected parameter:

- A sequence of draws is consumed front to back. A pair is one `(rand(), rand())` call pair; a triple is the three calls of one `shuffleRows`/`shuffleColumns` round.
- The model applies the source's own `% 9`, `% size` and `% 9 / 3` to each draw.
- Every property is proved for every draw sequence.

Modules, one per component:

- `Grid`: types, constants of `header/sudoku.h`, matrix helpers.
- `Digits`: digit characters, `%d` formatting, decimal reading.
- `Permutation`: `swap`, `shiftRight`, `shuffle`.
- `Swaps`: `swapRows`, `swapColumns`, `shuffleRows`, `shuffleColumns`.
- `Checker`: `checkRow` … `checkSudoku`, `countEmptyFields`.
- `Generator`: `generateFullSudoku`.
- `Carver`: `makeSodukoPlayable`.
- `Editor`: `alterValue`, `fillRandomField`.
- `Importer`: the end of `parseToSudoku`, and `checkParsedSudoku`.
- `Codec`: `writeSavegame`, `readSavegame`.
- `Input`: `charToInt` and the two input converters.

`src/sudoku.c` and the root `sudoku.c` hold the same engine functions with the same bodies. Each function is modelled once, and the table cites both copies.

## Model

| member | source | states |
|---|---|---|
| Permutation.Swap | src/sudoku.c:419-425 | the array afterwards is the old one with the two entries exchanged (`SwapAt`); the older copy repeats this at sudoku.c:514-520 |
| Permutation.SwapAtTwice | src/sudoku.c:419-425 | exchanging the same two entries twice restores the sequence |
| Permutation.SwapAtIsPermutation | src/sudoku.c:419-425 | an exchange keeps the multiset of entries |
| Permutation.MoveLastToFront | src/sudoku.c:325-327 | the inner loop of swaps from the end down moves the last entry to the front and every other entry one place right, i.e. one right rotation |
| Permutation.ShiftRight | src/sudoku.c:320-331 | the array afterwards is the old one rotated right by `steps` (by 0 for `steps <= 0`); the older copy repeats this at sudoku.c:415-426 |
| Permutation.RotateRightAt | src/sudoku.c:320-331 | after rotating right by k, position i holds the old entry at (i - k) mod size |
| Permutation.RotateRightBySize | sudoku.c:415-426 | rotating by the array's size restores it |
| Permutation.RotateRightIsPermutation | src/sudoku.c:320-331 | a rotation keeps the multiset of entries |
| Permutation.RotateRightAdd | src/sudoku.c:320-331 | two rotations compose into one by the sum of the steps |
| Permutation.ShuffledIsPermutation | src/sudoku.c:341-353 | for any draws, the shuffled sequence has the same multiset of entries |
| Permutation.Shuffle | src/sudoku.c:341-353 | `size` rounds, each swapping positions `rand() % size`: the array ends as `Shuffled` of the old contents and draws, a permutation of them; the older copy repeats this at sudoku.c:436-448 |
| Permutation.PermutationKeepsDistinct | src/sudoku.c:222 | a permutation of a sequence without repeats has no repeats, so the shuffled 1..9 row stays a permutation of 1..9 |
| Swaps.RowsExchanged | src/sudoku.c:439-457 | every cell of both matrices comes from the other of the two rows when it lies in one of them, and from the same cell otherwise |
| Swaps.ColumnsExchanged | src/sudoku.c:471-489 | the same for two columns |
| Swaps.SwapRows | src/sudoku.c:439-457 | with band and both offsets in 0..2, rows 3q+x and 3q+y are exchanged in `value` and `generated`; otherwise the board is returned unchanged; the older copy repeats this at sudoku.c:534-552 |
| Swaps.SwapColumns | src/sudoku.c:471-489 | the same for columns 3q+x and 3q+y; the older copy repeats this at sudoku.c:566-584 |
| Swaps.RowsExchangedTwice | sudoku.c:534-552 | exchanging the same two rows twice restores the board |
| Swaps.ColumnsExchangedTwice | sudoku.c:566-584 | exchanging the same two columns twice restores the board |
| Swaps.RowsExchangedKeepsSolution | src/sudoku.c:439-457 | exchanging two rows of one band keeps "no repeats", "no empty cell", "completed" and "all locked" |
| Swaps.ColumnsExchangedKeepsSolution | src/sudoku.c:471-489 | the same for two columns of one band |
| Swaps.Pick | src/sudoku.c:372-374 | `rand() % 9 / 3` three times always gives a legal band and offsets |
| Swaps.ShuffleRows | src/sudoku.c:367-381 | nine rounds of `swapRows` with drawn band and offsets give `RowsShuffled` of the board and draws; the older copy repeats this at sudoku.c:462-476 |
| Swaps.ShuffleColumns | src/sudoku.c:395-409 | the same for `swapColumns`, giving `ColumnsShuffled`; the older copy repeats this at sudoku.c:490-504 |
| Swaps.RowsShuffledKeepsSolution | src/sudoku.c:239-242 | for any draws, shuffling rows keeps a completed, all-locked board completed and all-locked |
| Swaps.ColumnsShuffledKeepsSolution | src/sudoku.c:239-242 | the same for shuffling columns |
| Checker.CountIsMultiplicity | src/sudoku.c:554-571 | counting by loop gives the multiplicity of the value |
| Checker.CountOnceIffUnique | src/sudoku.c:554-571 | the count of entry k is 1 exactly when no other entry equals it |
| Checker.Quadrant | src/sudoku.c:617-618 | `(coord - coord % 3) / 3` is the band `coord / 3`, in 0..2 |
| Checker.CheckRow | src/sudoku.c:554-571 | returns 0 or 1, and 1 exactly when no other cell of the row holds the cell's value; the older copy repeats this at sudoku.c:649-666 |
| Checker.CheckColumn | src/sudoku.c:583-600 | returns 0 or 1, and 1 exactly when no other cell of the column holds the cell's value; the older copy repeats this at sudoku.c:678-695 |
| Checker.BoxCountOnceIffUnique | src/sudoku.c:612-635 | the count over the box is 1 exactly when the value is unique in the box |
| Checker.CountInBoxRow | src/sudoku.c:622-626 | the inner loop extends the count over the box by the three entries of one box row |
| Checker.CheckGroup | src/sudoku.c:612-635 | returns 0 or 1, and 1 exactly when no other cell of the 3x3 box holds the cell's value; the older copy repeats this at sudoku.c:707-730 |
| Checker.CheckValue | src/sudoku.c:535-542 | returns 0 or 1, and 1 exactly when the value is unique in row, column and box; the older copy repeats this at sudoku.c:630-637 |
| Checker.EmptyCount | src/sudoku.c:810-824 | at most 81, and 0 exactly when no cell is empty |
| Checker.CountEmptyFields | src/sudoku.c:810-824 | the loop's counter is `EmptyCount`, the number of cells holding 0; the older copy repeats this at sudoku.c:905-919 |
| Checker.EmptyCountAfterPut | src/sudoku.c:810-824 | writing one cell changes the empty count by -1, 0 or +1, according to whether the cell was empty and is empty afterwards |
| Checker.CheckSudoku | src/sudoku.c:500-523 | returns 0 whenever an empty cell exists; otherwise returns 1 exactly when every cell's value is unique in its row, column and box; the older copy repeats this at sudoku.c:595-618 |
| Checker.DistinctDigitsEachOnce | src/sudoku.c:500-523 | nine distinct values from 1..9 hold every digit exactly once |
| Checker.SolutionHasEachDigitOnce | src/sudoku.c:500-523 | on a completed board (`IsSolution`: values 1..9, no repeats), every row, column and box holds each of 1..9 exactly once |
| Checker.AcceptedBoardHasEachDigitOnce | src/sudoku.c:500-523 | on a board whose values are 0..9 and which `checkSudoku` accepts (no empty cell, no repeat), every row, column and box holds each of 1..9 exactly once |
| Generator.ShiftOf | src/sudoku.c:225-236 | the rotation of the base row when row m of band i is written lies in 0..8 |
| Generator.RotatedEntry | src/sudoku.c:225-236 | after a rotation by s, column c holds base-row entry `SourceIndex(s, c)` |
| Generator.BaseIndicesDiffer | src/sudoku.c:225-236 | two different cells sharing a row, column or box take different base-row positions |
| Generator.BasePatternIsSolution | src/sudoku.c:225-236 | the base pattern of any permutation of 1..9 is a completed board: no empty cell and no repeat |
| Generator.ShuffledDigits | src/sudoku.c:219-222 | the shuffled row 1..9 is a permutation of 1..9 |
| Generator.CopyRow | src/sudoku.c:227-230 | row j of both matrices receives the base row and the lock flag 1; every other row is unchanged |
| Generator.WriteBandRow | src/sudoku.c:226-233 | one row of a band is written and the base row is then rotated three more steps, modulo 9 |
| Generator.TurnByThree | src/sudoku.c:232 | `shiftRight(row, 9, 3)` on a row rotated by s leaves it rotated by s + 3 modulo 9 |
| Generator.WriteBand | src/sudoku.c:226-233 | the three rows of band i hold the base pattern; the base row has turned nine steps, back to its start |
| Generator.WriteBandAndShift | src/sudoku.c:225-236 | after band i and `shiftRight(row, 9, 2)`, rows 0..3i+2 hold the pattern and the row is rotated by 2(i+1) |
| Generator.WriteBasePattern | src/sudoku.c:225-236 | the three nested loops write the base pattern of the shuffled row, every cell locked |
| Generator.GenerateFullSudoku | src/sudoku.c:216-244 | for any draws, the result is a completed board (every row, column and box holds 1..9 once) with every cell locked; the older copy repeats this at sudoku.c:311-339 |
| Carver.DrawFilledCell | src/sudoku.c:298-301 | the do-while loop stops at the first drawn cell that holds a digit; every earlier draw named an empty cell |
| Carver.MakeSodukoPlayable | src/sudoku.c:278-309 | difficulty 1 gives 25 cells, 3 gives 45, anything else 35; each carved cell held a digit, was named by a used draw, and is left empty and unlocked; every other cell is unchanged; the empty count grows by exactly the number carved; every draw used names a cell that is empty afterwards, so the count falls short of the target only when the draws run out and every one of them named an empty cell; the older copy repeats this at sudoku.c:373-404 |
| Editor.AlterValue | src/sudoku.c:744-764 | a locked cell gives error 1 and the board unchanged, before any range check; below 0 gives error 2 and above 9 gives error 3, both unchanged; otherwise only the cell's value changes, to the new value, locks untouched, error 0; the older copy repeats this at sudoku.c:839-859 |
| Editor.AlterValueUndo | src/sudoku.c:744-764 | writing the old value back after a successful edit restores the board |
| Editor.FillRandomField | src/sudoku.c:776-799 | with no empty cell, the board is returned unchanged and no draw is used. Otherwise the first drawn cell that is empty, unlocked and accepted by alterValue gets the solution's value, and nothing else changes. The empty count then drops by one when that value is a digit, and a board that agreed with the solution still agrees; the older copy repeats this at sudoku.c:871-894 |
| Importer.CheckParsedSudoku | src/sudoku.c:898-911 | returns 0 or 2, and 0 exactly when every value is in 1..9 and every lock flag is 1; the older copy repeats this at sudoku.c:272-285 |
| Importer.ParseToSudoku | src/sudoku.c:879-887 | every lock flag is set to 1, the values are kept, and the error is 0 exactly when every value is in 1..9; the older copy repeats this at sudoku.c:261-269 |
| Importer.RangeCheckAdmitsRepeats | src/sudoku.c:898-911 | some board passes the import check and still repeats a digit in a column |
| Input.CLength | src/sudoku.c:674 | `strlen`: every character before it is not NUL, and the one at it is NUL |
| Input.CharToInt | src/sudoku.c:646-660 | 'A'..'I' and 'a'..'i' give 0..8, and exactly every other character gives -1; the older copy repeats this at sudoku.c:741-755 |
| Input.CharToIntOfLetter | src/sudoku.c:646-660 | both spellings of column k's letter convert to k |
| Input.CheckAndConvertInputChar | src/sudoku.c:699-709 | a string longer than one character gives -1; a result of at least 0 exactly when the string is one column letter, and then it is that letter's column; the older copy repeats this at sudoku.c:794-804 |
| Input.ColumnLetterRoundTrip | src/sudoku.c:699-709 | typing a column letter, either case, gives its column |
| Input.CheckAndConvertInputToInt | src/sudoku.c:671-688 | the loop `result * 10 + digit` gives the decimal value of an all-digit string, 0 for the empty string, and 0 as soon as one character is not a digit; the older copy repeats this at sudoku.c:766-783 |
| Input.InputNumberOfFormat | src/sudoku.c:671-688 | typing the digits `%d` prints for n gives n back |
| Input.InputNumberRefusesNonDigits | src/sudoku.c:676-680 | any non-digit makes the result 0, and the empty string gives 0 |
| Digits.DecimalOfFormatNat | src/sudoku.c:115-118 | reading the digits of `%d` of n left to right, times ten plus digit, gives n |
| Codec.Encode | src/sudoku.c:135-165 | the file text is the 81 cells' four prints, then a newline at position `|RowsText|`, then the time; the older copy repeats this at sudoku.c:1053-1083 |
| Codec.RowsTextDigits | src/sudoku.c:150-157 | a storable game writes 36 digit characters per row, nothing else |
| Codec.CellsLayout | src/sudoku.c:150-157 | field m of cell (r, c) is the digit at position 36r + 4c + m |
| Codec.EncodeShape | src/sudoku.c:150-160 | a written file is 324 digits, a newline, then the digits of the time |
| Codec.EncodeLayout | src/sudoku.c:150-160 | field m of cell (r, c) is the file's character 36r + 4c + m |
| Codec.CursorAfter | src/sudoku.c:83-95 | the cursor (i, j, n) after k stored digits counts k in base (36, 4) up to 36·rows, then stays at (rows, 0, 0) |
| Codec.Decode | src/sudoku.c:41-123 | what readSavegame produces with its store guarded by i < 9 instead of the written i < 10 (see Findings). A missing file gives error 1. A character fscanf("%1d") can neither read nor skip never ends the loop. No newline gives error 2 and time 0. Otherwise error 0, and the time is the digits after the newline in base 10. The fields are the first 324 digits in file order, unwritten fields 0 |
| Codec.StoreDigit | src/sudoku.c:65-81 | the switch on n writes the digit into field n of cell (i, j) and nothing else |
| Codec.ReadDigit | src/sudoku.c:64-96 | one pass of the digit loop with the store guarded by i < 9 (see Findings): the fields read so far extend by the new digit, and the cursor moves on as `CursorAfter` says |
| Codec.ScanFields | src/sudoku.c:63-97 | with the store guarded by i < 9 (see Findings), the loop never ends exactly when the file has a character other than a digit or white space; otherwise the fields are its digits in order |
| Codec.FindNewline | src/sudoku.c:103-107 | the position of the first newline, or the length when there is none |
| Codec.ReadTime | src/sudoku.c:115-118 | the time is the digits after the newline read left to right in base 10 |
| Codec.ReadSavegame | src/sudoku.c:41-123 | the whole read equals `Decode` of the file, with the store guarded by i < 9; the older copy repeats this at sudoku.c:959-1041 |
| Codec.DigitsOfEncode | src/sudoku.c:150-160 | the digits of a written file are the 324 fields in order, then those of the time |
| Codec.EncodeScannable | src/sudoku.c:150-160 | a written file holds only digits and one newline, at position 324 |
| Codec.EncodeTime | src/sudoku.c:160 | the digits after the newline of a written file are worth its time |
| Codec.DecodeEncode | src/sudoku.c:41-165 | reading back a written storable game gives exactly that game with error 0 |
| Codec.TenthRowStoredAsWritten | src/sudoku.c:64 | as written (guard i < 10): every written file has more than 324 digits, and digits 324..359 find the cursor at row 9, past the last row; with i < 9 nothing from digit 324 on is stored; the older copy repeats this at sudoku.c:982 |

## Left out

- The console UI, menus, `main`, `readLine`, and the view functions are not part of this model.
- File plumbing is not modelled: slot file names, `fopen`/`fclose`/`fseek`/`unlink`, `checkSavegameSlot`, `deleteSavegame`, `verifyFilePath` and `getSudokuFromFile`.
  - A missing save file is the `None` input of `Codec.Decode`.
  - writeSavegame's failure to open a file (result 0) is not modelled; `Codec.Encode` is the text a successful call prints.
- The `fscanf("%i,…")` scan in parseToSudoku is not modelled, because `%i` octal and hex prefixes are C library behaviour. `Importer.ParseToSudoku` starts from the 81 scanned integers.
- `init`, `srand` and `rand` become injected draw sequences. Uniformity and expected retry counts are not modelled.
- When the draws run out, the model's retry loops stop; the source would keep drawing. This affects `Carver.MakeSodukoPlayable` and `Editor.FillRandomField`. Their contracts say what holds in both cases: a short carve happens only when every draw named a cell that is empty at the end, and a failed fill only when no draw named a fillable cell.
- `die()` and `getPastTime` (floating point with `floor`) are left out.
- Elapsed time is a `double`. It is modelled as a whole number of seconds (`nat`), and `%.0f` as `%d` of that number.
- Codec.Decode: fscanf's handling of a sign character before a digit is C library behaviour and is not modelled. Any character that is neither a digit nor white space gives the `Hangs` outcome.
- Codec.Decode: fields the file does not provide are 0; in C they are uninitialised.
- Input.CheckAndConvertInputToInt: does not model 32-bit `int` overflow for inputs of more than nine digits; the model's result is the exact decimal value.
- Input strings are modelled as the characters up to the first NUL (`Input.CLength`); the buffer beyond is not modelled.
- The root `sudoku.c` declares no `j` in parseToSudoku (sudoku.c:242, used at 262), so that copy does not compile as shown. The model follows the body of `src/sudoku.c`, which declares it.
- The disabled trial-and-error generator kept in a comment inside generateFullSudoku is not modelled.

Two behaviours of the code worth knowing:

- fillRandomField retries whenever alterValue fails on an empty but locked cell.
- A non-digit, non-space character in a save file makes the read loop run forever. It is not reported as corrupt.

## Findings

| source | as written | input that shows it | evidently intended | confidence | as-written member | corrected member |
|---|---|---|---|---|---|---|
| src/sudoku.c:64 (also sudoku.c:982) | readSavegame stores a digit while `i < 10`, but the grids have rows 0..8 | any file writeSavegame writes: it ends in at least one time digit after the 324 field digits, and that digit is stored at row 9, outside both `[9][9]` arrays | store only while `i < 9`, so the time digits are not stored anywhere | not executed | Codec.TenthRowStoredAsWritten | Codec.ReadSavegame |
