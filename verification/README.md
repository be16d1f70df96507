# Sudoku solution validator — Dafny model

The validator reads a proposed Sudoku solution from a text file. The file holds
nine lines of nine comma-separated digits. The validator reports every
problem it finds as a list of validation errors. Each error has a kind from a
fixed catalogue (`ERR_CODE`), optionally a row and column, and optionally the
offending text.

This project models four parts of it:

- **The scanner** (`SudokuProposedSolution.validate`) reads the text one
  character at a time. Its state is the row, the column, the linear cell index
  `loc` and whether the last character was a comma.
  - Some errors stop the scan at once: a missing or extra digit in a row, a
    missing comma, too many rows.
  - Other errors are recorded and the scan goes on: an invalid character, a
    digit already used in the cell's row, column or block.
- **The constraint grid** that the scanner fills through `set(loc, num)`. It
  holds 81 cells plus a digit mask per row, column and 3×3 block. A placement
  happens in full, or nothing changes.
- **The error catalogue and the error record** (`ERR_CODE`, `ValidationError`),
  including how an error is rendered as text.
- **The command-line check** `SudokuValidate.validateInput`.

Modules, one per component:

- `ErrCodes`: the ten error kinds, their status codes, descriptions and
  messages.
- `ValidationErrors`: the error record, its four constructors and `getError`.
- `SudokuGrid`: the grid and `Set`.
  - Masks are kept as sets of digits.
  - `MaskBits` shows that the source's `int` bit operations encode those sets.
- `ProposedSolution`: the scanner as a recursive function over the remaining
  input.
  - `Run` continues from any state.
  - `Validate` starts from the empty grid.
  - `Pass` covers a stretch of text that is not the end of the input.
- `ProposedSolutionLoop`: the same scanner written as the source's
  `while (true)` loop, proved equal to `Run`.
- `GridText`: what the scanner makes of a grid written out as nine
  comma-separated rows. It is compared with an independent cell-by-cell
  reference (`Judge`, `Reference`) that never looks at the masks. The
  well-formed-text theorem and the edge-case behaviour of the source (trailing
  newline, short or long rows, missing commas, empty cells, running past
  cell 80) are stated against that reference.
- `InputCheck`: the argument check.
- `Text` and `Options`: shared helpers. `Text` covers Java's decimal rendering
  of an `int`, `Character.isWhitespace`, `StringUtils.isBlank` and `endsWith`.

How a scan ends is an `Outcome`:

- `Finished`: end of input, after the row count check.
- `Stopped`: a terminal error.
- `IndexOutOfRange`: the source's uncaught out-of-bounds exception when a digit
  arrives with `loc >= 81`.

A file whose ninth row ends with a newline is rejected: the ninth newline
moves the scan to row 9, and the guard at the top of the loop then reports
TOO_MANY_ROWS_IN_GRID at row 9 (`GridText.TrailingNewlineRejected`).

Which member models which source method:

- `validate` is `ProposedSolution.Validate`. It runs `ProposedSolution.Run`,
  the loop continued from any state, from the start state on an empty grid.
  Their properties are stated by the lemmas `ProposedSolution.ValidateResult`,
  `RunKeepsInvariants`, `RunResult`, `RunAfterPass`, `CarriageReturnIgnored`
  and the `GridText` lemmas.
- `getErrMessage` is `ErrCodes.ErrMessage`, with its properties in
  `ErrCodes.MessageNamesKind` and `ErrCodes.MessageFields`.
- `isInError` is `ProposedSolution.IsInError`.

## Model

All source paths below are under `SudokuValidate/src/main/java/com/uc/sudoku/validate/`, except the test file under `SudokuValidate/src/test/java/com/uc/sudoku/validate/`.

| member | source | states |
|---|---|---|
| ErrCodes.CatalogueInDeclarationOrder | SudokuValidate/src/main/java/com/uc/sudoku/validate/ERR_CODE.java:16-29 | There are exactly ten kinds, every kind is listed once, and their codes are 1001, 1002, 1003, 1004, 2001–2005, 3001, strictly increasing in declaration order. |
| ErrCodes.StatusCode | SudokuValidate/src/main/java/com/uc/sudoku/validate/ERR_CODE.java:16-36 | Every status code is a string of exactly four decimal digits. |
| ErrCodes.CodeReadsBack | SudokuValidate/src/main/java/com/uc/sudoku/validate/ERR_CODE.java:16-29 | Reading a kind's string status code as a decimal number gives the kind's numeric code, so the strings carry the catalogue numbers. |
| ErrCodes.KindOfCode | SudokuValidate/src/main/java/com/uc/sudoku/validate/ERR_CODE.java:16-29 | Looking a kind up by status code only ever returns a kind that has that code. |
| ErrCodes.CodeDeterminesKind | SudokuValidate/src/main/java/com/uc/sudoku/validate/ERR_CODE.java:16-29 | A status code names exactly one kind: looking up a kind's code gives that kind back, and no other code looks up to it. |
| ErrCodes.StatusCodesDistinct | SudokuValidate/src/main/java/com/uc/sudoku/validate/ERR_CODE.java:16-29 | No two kinds share a status code. |
| ErrCodes.FamilyRanges | SudokuValidate/src/main/java/com/uc/sudoku/validate/ERR_CODE.java:15-28 | File errors have codes in 1001..1999, structure errors in 2001..2999 and logic errors in 3001..3999. |
| ErrCodes.MessageNamesKind | SudokuValidate/src/main/java/com/uc/sudoku/validate/ERR_CODE.java:46-55 | `getErrMessage` starts with "Status Code: ". Its status-code field reads back as the kind it was rendered from, and it ends with the kind's description. `toString` gives the same text. |
| ErrCodes.MessageFields | SudokuValidate/src/main/java/com/uc/sudoku/validate/ERR_CODE.java:46-50 | A message built as "Status Code: " + code + ". " + text, with a four-character code, splits back into that label, the code field at positions 13..16, the ". " separator and the text. |
| ErrCodes.UsageAppended | SudokuValidate/src/main/java/com/uc/sudoku/validate/ERR_CODE.java:16-18 | The descriptions of MISSING_SUDOKU_FILE and WRONG_SUDOKU_FILENAME end with the usage line. |
| Text.DecimalRoundTrip | SudokuValidate/src/main/java/com/uc/sudoku/validate/ValidationError.java:63-64 | The decimal text appended for a row or column number reads back as that number. |
| Text.DecimalStringInjective | SudokuValidate/src/main/java/com/uc/sudoku/validate/ValidationError.java:63-64 | Different row or column numbers are rendered as different text. |
| ValidationErrors.FromFailure | SudokuValidate/src/main/java/com/uc/sudoku/validate/ValidationError.java:15-24 | The (code, exception) constructor keeps the code and the cause, sets row and column to -1, and has no bad value. |
| ValidationErrors.AtRow | SudokuValidate/src/main/java/com/uc/sudoku/validate/ValidationError.java:26-30 | The (code, row) constructor stores the row and sets the column to 0, not -1. It has no bad value and no cause. |
| ValidationErrors.AtCell | SudokuValidate/src/main/java/com/uc/sudoku/validate/ValidationError.java:32-36 | The (code, row, col) constructor stores both positions and has no bad value and no cause. |
| ValidationErrors.WithBadValue | SudokuValidate/src/main/java/com/uc/sudoku/validate/ValidationError.java:38-41 | The four-argument constructor stores the code, row, column and bad value, and has no cause: the three-argument constructor's fields with the bad value added. |
| ValidationErrors.GetError | SudokuValidate/src/main/java/com/uc/sudoku/validate/ValidationError.java:59-64 | The rendering always starts with the kind's message. It is exactly that message if and only if the bad value is blank, the row is at most -1 and the column is at most -1. |
| ValidationErrors.RenderFromFailure | SudokuValidate/src/main/java/com/uc/sudoku/validate/ValidationError.java:59-64 | An error built from a failure renders as the bare kind message. |
| ValidationErrors.RenderAtRow | SudokuValidate/src/main/java/com/uc/sudoku/validate/ValidationError.java:59-64 | An error built from a row renders as the message, then "At row: " with the row, then always ", col: 0". |
| ValidationErrors.RenderAtCell | SudokuValidate/src/main/java/com/uc/sudoku/validate/ValidationError.java:59-64 | An error built from a row and column renders as the message, then the row part, then the column part. |
| ValidationErrors.RenderWithBadValue | SudokuValidate/src/main/java/com/uc/sudoku/validate/ValidationError.java:59-64 | A non-blank bad value is rendered after the message and before the row and column parts, as ", incorrect value: " followed by the value and a space. |
| ValidationErrors.BlankBadValueIgnored | SudokuValidate/src/main/java/com/uc/sudoku/validate/ValidationError.java:62-62 | A blank bad value (null, empty or whitespace only) leaves the rendering as if there were no bad value. |
| SudokuGrid.UnitIndexInRange | SudokuValidate/src/main/java/com/uc/sudoku/validate/SudokuProposedSolution.java:195-197 | For every cell 0..80, the row, column and block indexes computed from `loc` lie in 0..8. |
| SudokuGrid.Empty | SudokuValidate/src/main/java/com/uc/sudoku/validate/SudokuProposedSolution.java:30-36 | A new grid has all 81 cells unset, masks that agree with its cells, and no duplicate digit. |
| SudokuGrid.Place | SudokuValidate/src/main/java/com/uc/sudoku/validate/SudokuProposedSolution.java:207-211 | A successful placement writes only `cells[loc]`. It adds the digit to exactly the cell's row, column and block masks and leaves every other mask unchanged. |
| SudokuGrid.Set | SudokuValidate/src/main/java/com/uc/sudoku/validate/SudokuProposedSolution.java:193-212 | When `set` fails, the grid is unchanged. An occupied cell always fails. When `set` succeeds, the result is exactly the placement. |
| SudokuGrid.SetDecidesFit | SudokuValidate/src/main/java/com/uc/sudoku/validate/SudokuProposedSolution.java:199-202 | Against masks that agree with the cells, the mask test succeeds if and only if the cell is unset and no cell sharing a row, column or block holds the digit. |
| SudokuGrid.SetPreservesConsistent | SudokuValidate/src/main/java/com/uc/sudoku/validate/SudokuProposedSolution.java:199-211 | `set` keeps the invariant that a digit is in a unit's mask if and only if some cell of that unit holds it. |
| SudokuGrid.SetPreservesNoConflict | SudokuValidate/src/main/java/com/uc/sudoku/validate/SudokuProposedSolution.java:199-211 | `set` never creates a duplicate digit in a row, column or block. |
| SudokuGrid.PlacementExclusive | SudokuValidate/src/main/java/com/uc/sudoku/validate/SudokuProposedSolution.java:199-211 | Once `set(loc, v)` succeeds, `set(loc2, v)` fails for every cell `loc2` sharing a unit with `loc`, and every further `set` on `loc` itself fails. |
| MaskBits.ZeroEncodesEmpty | SudokuValidate/src/main/java/com/uc/sudoku/validate/SudokuProposedSolution.java:32-36 | A zero-initialised `int` mask encodes the empty digit set. |
| MaskBits.OrEncodesAdd | SudokuValidate/src/main/java/com/uc/sudoku/validate/SudokuProposedSolution.java:208-210 | OR-ing in `1 << num` adds `num` to the encoded set and nothing else. |
| MaskBits.ClearBitIsAbsence | SudokuValidate/src/main/java/com/uc/sudoku/validate/SudokuProposedSolution.java:200-202 | A zero result from AND-ing with `1 << num` means exactly that `num` is absent from the encoded set. |
| ProposedSolution.Classify | SudokuValidate/src/main/java/com/uc/sudoku/validate/SudokuProposedSolution.java:87-158 | Each character falls in exactly one branch. It is a comma token if and only if it is ',', a newline token if and only if '\n', and a carriage-return token if and only if '\r'. It is a digit token if and only if it is '1'..'9', and the token's value is that digit. It is an invalid character, keeping the character, if and only if it is none of these (so '0' is invalid). |
| ProposedSolution.Advance | SudokuValidate/src/main/java/com/uc/sudoku/validate/SudokuProposedSolution.java:160-162 | After a digit or an invalid character, `loc` and `col` each go up by one, the row stays, and the comma flag is cleared. |
| ProposedSolution.StepOn | SudokuValidate/src/main/java/com/uc/sudoku/validate/SudokuProposedSolution.java:87-162 | The shape of every step. A stop carries one terminal error at the current row; continuing raises at most one recoverable error, at the current row and column. A crash happens exactly for a digit allowed by the comma check with `loc >= 81`. A carriage return changes nothing. `loc == 9*row + col` is preserved. Which character triggers which error is stated, for every state, by the four rule lemmas below. |
| ProposedSolution.CommaRule | SudokuValidate/src/main/java/com/uc/sudoku/validate/SudokuProposedSolution.java:87-101 | A comma stops the scan if and only if the comma flag is set (it starts set), with MISSING_DIGITS_IN_ROW at the current row and column. Otherwise it only sets the flag. |
| ProposedSolution.NewlineRule | SudokuValidate/src/main/java/com/uc/sudoku/validate/SudokuProposedSolution.java:102-127 | A newline lets the scan go on if and only if the column is 9, and then moves to column 0 of the next row with `loc` and the comma flag kept. Below column 9 (including a blank line at column 0) it stops with MISSING_DIGITS_IN_ROW; above 9 it stops with TOO_MANY_DIGITS_IN_ROW, both at the current row and column. |
| ProposedSolution.DigitRule | SudokuValidate/src/main/java/com/uc/sudoku/validate/SudokuProposedSolution.java:131-151 | A digit 1..9 stops the scan if and only if the comma flag is clear and the column is above 0, with INVALID_SUDOKU_FILEFORMAT at the row. Otherwise it crashes if and only if `loc >= 81`. If it does neither, the grid becomes the result of `set(loc, digit)` and the scan advances. NUMBER_ALREADY_USED at the current row and column, showing the digit as text, is raised if and only if `set` refuses it. |
| ProposedSolution.OtherCharRule | SudokuValidate/src/main/java/com/uc/sudoku/validate/SudokuProposedSolution.java:152-162 | Any other character, '0' included, advances to the next cell with the grid untouched, raising one INVALID_CHARACTERS_IN_ROW at the current row and column that shows the character. |
| ProposedSolution.StepKeepsGrid | SudokuValidate/src/main/java/com/uc/sudoku/validate/SudokuProposedSolution.java:131-151 | Each character keeps the masks in step with the cells and never creates a duplicate digit. Digits already placed stay. |
| ProposedSolution.Pass | SudokuValidate/src/main/java/com/uc/sudoku/validate/SudokuProposedSolution.java:66-163 | A scan that gets through a stretch of text without stopping leaves a grid whose masks agree with its cells, with no duplicates, and with `loc == 9*row + col`. |
| ProposedSolution.RunAfterPass | SudokuValidate/src/main/java/com/uc/sudoku/validate/SudokuProposedSolution.java:66-163 | Scanning `a + b` is scanning `b` from where the scan of `a` left off. |
| ProposedSolution.PassAppend | SudokuValidate/src/main/java/com/uc/sudoku/validate/SudokuProposedSolution.java:66-163 | Passing over `a + b` is passing over `b` from where `a` left off. |
| ProposedSolution.CarriageReturnIgnored | SudokuValidate/src/main/java/com/uc/sudoku/validate/SudokuProposedSolution.java:128-130 | Inserting a carriage return anywhere in the input leaves the result unchanged, so CR LF line ends behave like LF. |
| ProposedSolution.RunKeepsInvariants | SudokuValidate/src/main/java/com/uc/sudoku/validate/SudokuProposedSolution.java:60-175 | `Run`, the loop from any state, keeps the mask invariant and the no-duplicate invariant, and never clears a placed digit. Errors are only appended: all but the last new one are recoverable; after a stop the last is terminal; after end of input the last is recoverable or NOT_ENOUGH_ROWS_IN_GRID. |
| ProposedSolution.RunResult | SudokuValidate/src/main/java/com/uc/sudoku/validate/SudokuProposedSolution.java:60-175 | From any valid state with no errors so far, the result has a consistent, duplicate-free grid. Every error but the last is recoverable. The scan stopped early if and only if the last error is terminal. |
| ProposedSolution.ValidateResult | SudokuValidate/src/main/java/com/uc/sudoku/validate/SudokuProposedSolution.java:60-175 | `validate` (`Validate`) on any input returns a consistent, duplicate-free grid, and every error but the last is recoverable. The outcome is a stop if and only if the last error is terminal, so a scan that stops early is always in error (`isInError`). |
| ProposedSolutionLoop.RunOneStep | SudokuValidate/src/main/java/com/uc/sudoku/validate/SudokuProposedSolution.java:67-162 | One loop turn below the row guard: continuing, stopping or crashing on the next character determines the rest of the scan. |
| ProposedSolutionLoop.ScanChar | SudokuValidate/src/main/java/com/uc/sudoku/validate/SudokuProposedSolution.java:87-162 | The loop body, written with the source's local variables and branches, does what the per-character rules say. |
| ProposedSolutionLoop.ValidateStream | SudokuValidate/src/main/java/com/uc/sudoku/validate/SudokuProposedSolution.java:60-175 | The `while (true)` loop, with its row guard, end-of-input exit, early returns and end-of-input row check, computes the same solution as the recursive scanner. |
| GridText.StepMatchesJudge | SudokuValidate/src/main/java/com/uc/sudoku/validate/SudokuProposedSolution.java:131-162 | On cell k of a well-formed text, the scanner's step gives the same cells and errors as the mask-free reference verdict, and leaves the scanner just after cell k. |
| GridText.PassRendered | SudokuValidate/src/main/java/com/uc/sudoku/validate/SudokuProposedSolution.java:66-163 | Over a rendered run of cells, the scanner places exactly what the reference places and raises the reference's errors in cell order. |
| GridText.CleanExactlyOnSolutions | SudokuValidate/src/main/java/com/uc/sudoku/validate/SudokuProposedSolution.java:42-50 | Starting from an empty board, the reference raises no error if and only if the 81 cells form a solved Sudoku (all digits 1..9, no repeats in any row, column or block). It then places exactly those digits. |
| GridText.AcceptsExactlySolutions | SudokuValidate/src/main/java/com/uc/sudoku/validate/SudokuProposedSolution.java:60-175 | On a complete nine-row text without a final newline, `validate` finishes with the reference's cells and errors. It reports no error if and only if the cells form a solved Sudoku, and the grid then holds exactly those digits. |
| GridText.ValidateAfterCells | SudokuValidate/src/main/java/com/uc/sudoku/validate/SudokuProposedSolution.java:66-163 | On rendered cells followed by any text, `validate` reads the cells as the reference does and then continues from just after the last cell. |
| GridText.NewlineAfterLastRow | SudokuValidate/src/main/java/com/uc/sudoku/validate/SudokuProposedSolution.java:70-77 | A newline after the ninth row moves the scan to row 9. The loop guard then stops it with TOO_MANY_ROWS_IN_GRID at row 9. |
| GridText.TrailingNewlineRejected | SudokuValidate/src/main/java/com/uc/sudoku/validate/SudokuProposedSolution.java:70-77 | A complete grid followed by a newline is always in error, even when the grid is solved. The scan stops with the reference's errors and then TOO_MANY_ROWS_IN_GRID(9). |
| GridText.EndAfterRow | SudokuValidate/src/main/java/com/uc/sudoku/validate/SudokuProposedSolution.java:165-172 | Input that ends right after one of the first eight rows finishes with NOT_ENOUGH_ROWS_IN_GRID naming that row. |
| GridText.RowsMissing | SudokuValidate/src/main/java/com/uc/sudoku/validate/SudokuProposedSolution.java:165-172 | A text of one to eight complete rows with no final newline finishes with the reference's errors, then NOT_ENOUGH_ROWS_IN_GRID naming the last row read. |
| GridText.NewlineThenEnd | SudokuValidate/src/main/java/com/uc/sudoku/validate/SudokuProposedSolution.java:165-172 | A newline after one of the first eight rows, followed by end of input, reports the next row as missing, except after the eighth row, where nothing is reported. |
| GridText.RowsMissingAfterNewline | SudokuValidate/src/main/java/com/uc/sudoku/validate/SudokuProposedSolution.java:165-172 | With a final newline after row `rows`, the not-enough-rows error names the next row. After the eighth row the `row < 8` check lets the missing ninth row through with no error. |
| GridText.ShortLastRowUnchecked | SudokuValidate/src/main/java/com/uc/sudoku/validate/SudokuProposedSolution.java:83-85 | At end of input the column count is not checked: a ninth row cut short, with no final newline, adds no error. |
| GridText.NewlineInRow | SudokuValidate/src/main/java/com/uc/sudoku/validate/SudokuProposedSolution.java:106-113 | A newline before the ninth cell of a row stops the scan with MISSING_DIGITS_IN_ROW at that row and column. |
| GridText.ShortRowStops | SudokuValidate/src/main/java/com/uc/sudoku/validate/SudokuProposedSolution.java:106-113 | A row of fewer than nine cells followed by a newline stops `validate` with the reference's errors and then MISSING_DIGITS_IN_ROW at the column the next cell would have had. |
| GridText.CommaAfterCell | SudokuValidate/src/main/java/com/uc/sudoku/validate/SudokuProposedSolution.java:87-101 | A comma after a cell only sets the comma flag. |
| GridText.TenthDigit | SudokuValidate/src/main/java/com/uc/sudoku/validate/SudokuProposedSolution.java:144-151 | A tenth digit in a row goes to cell `9*rows`, the first cell of the next row, because `loc` is never reset. It is accepted if and only if it fits there; otherwise NUMBER_ALREADY_USED is raised at column 9. The column moves to 10. |
| GridText.CommaDigitAfterRow | SudokuValidate/src/main/java/com/uc/sudoku/validate/SudokuProposedSolution.java:87-162 | A comma and a digit after the ninth cell of a row are read as one more cell: placed, or rejected, at the first cell of the next row. |
| GridText.NewlineAfterTenthCell | SudokuValidate/src/main/java/com/uc/sudoku/validate/SudokuProposedSolution.java:116-123 | The newline after a tenth cell stops the scan with TOO_MANY_DIGITS_IN_ROW at column 10. |
| GridText.TenthCellThenNewline | SudokuValidate/src/test/java/com/uc/sudoku/validate/SudokuValidateTest.java:170-175 | After a full row, a comma, a digit and a newline stop the scan. The digit lands in the next row's first cell if it fits there; otherwise NUMBER_ALREADY_USED is reported. TOO_MANY_DIGITS_IN_ROW at column 10 follows. |
| GridText.TenthCellStops | SudokuValidate/src/main/java/com/uc/sudoku/validate/SudokuProposedSolution.java:102-162 | For a whole text: a tenth cell, then a newline, in any of the first eight rows stops `validate`. The grid is the reference's cells, with the digit added at cell `9*rows` if it fits. The errors are the reference's, then NUMBER_ALREADY_USED if it does not fit, then TOO_MANY_DIGITS_IN_ROW at column 10. |
| GridText.CommaDigitAtEnd | SudokuValidate/src/main/java/com/uc/sudoku/validate/SudokuProposedSolution.java:199-199 | After cell 80, a comma and a digit index past the end of the cell array: the scan ends with the out-of-bounds exception, and grid and errors are unchanged. |
| GridText.CellPastEndCrashes | SudokuValidate/src/main/java/com/uc/sudoku/validate/SudokuProposedSolution.java:199-199 | A complete grid followed by a comma and a digit makes `validate` crash with the out-of-bounds exception, after gathering the reference's cells and errors. |
| GridText.DigitWithoutComma | SudokuValidate/src/main/java/com/uc/sudoku/validate/SudokuProposedSolution.java:134-141 | A digit straight after a cell stops the scan with INVALID_SUDOKU_FILEFORMAT at that cell's row, column 0. |
| GridText.MissingCommaStops | SudokuValidate/src/main/java/com/uc/sudoku/validate/SudokuProposedSolution.java:134-141 | A missing comma between two cells stops `validate` with the reference's errors, then INVALID_SUDOKU_FILEFORMAT at the row of the first of the two cells. |
| GridText.TwoCommas | SudokuValidate/src/main/java/com/uc/sudoku/validate/SudokuProposedSolution.java:91-98 | A second comma straight after a comma stops the scan with MISSING_DIGITS_IN_ROW at the current row and column. |
| GridText.EmptyCellStops | SudokuValidate/src/main/java/com/uc/sudoku/validate/SudokuProposedSolution.java:91-98 | An empty cell between two commas stops `validate` with the reference's errors and then MISSING_DIGITS_IN_ROW at the empty cell's row and column. |
| GridText.LeadingCommaStops | SudokuValidate/src/main/java/com/uc/sudoku/validate/SudokuProposedSolution.java:63-98 | The start of the text counts as following a comma, so a leading comma stops the scan at once with MISSING_DIGITS_IN_ROW(0, 0) and an empty grid. |
| GridText.EmptyTextHasNoRows | SudokuValidate/src/main/java/com/uc/sudoku/validate/SudokuProposedSolution.java:165-172 | An empty text finishes with the single error NOT_ENOUGH_ROWS_IN_GRID at row 0 and an empty grid. |
| InputCheck.ValidateInput | SudokuValidate/src/main/java/com/uc/sudoku/validate/SudokuValidate.java:89-104 | MISSING_SUDOKU_FILE if and only if the argument array is null or empty, or its first element is blank. WRONG_SUDOKU_FILENAME if and only if the first element is not blank and does not end in ".txt". No error if and only if it is not blank and ends in ".txt". Blankness is therefore checked first. |
| InputCheck.OnlyFirstArgumentMatters | SudokuValidate/src/main/java/com/uc/sudoku/validate/SudokuValidate.java:95-103 | Two argument arrays with the same first element get the same verdict, whatever follows. |
| InputCheck.RejectionShowsUsage | SudokuValidate/src/main/java/com/uc/sudoku/validate/SudokuValidate.java:89-101 | Every rejection is a file error whose message ends with the usage line. |
| InputCheck.ArgumentExamples | SudokuValidate/src/test/java/com/uc/sudoku/validate/SudokuValidateTest.java:28-45 | The tests' inputs give the tests' verdicts: a null array and the name "" give MISSING_SUDOKU_FILE, and "puzzle.log" gives WRONG_SUDOKU_FILENAME. Further cases also hold: no arguments, a null name and a whitespace name give MISSING_SUDOKU_FILE; "puzzle.csv" and "puzzle.TXT" (the check is case-sensitive) give WRONG_SUDOKU_FILENAME; "puzzle.txt" followed by an extra argument passes. |

## Left out

- `SudokuValidate.main`, `sudokuValidate` and `printAnalysis` are not modelled. They cover opening the file, mapping a missing file or read failure to UNABLE_TO_READ_SUDOKU_FILE, and console output; all of that is I/O.
- Logging through log4j is not modelled. It is a side effect only and changes no result.
- An `IOException` from `Reader.read` is not modelled. The input is a finite character sequence, and its end is end of file.
- `ValidationError.getError` is modelled without the stack-trace suffix it adds when a cause exception is present (line 65), because that suffix depends on JVM objects. Only the presence of the cause is kept.
- `SudokuProposedSolution.toString` is not modelled. It is a diagnostic drawing of the grid.
- The usage line from `SudokuValidateUtils.USAGE` is kept as a plain string constant.
- The JUnit tests and their puzzle files are not modelled. The puzzle files are not part of this model; the tests' assertions on error kinds and counts are used only as evidence for the lemmas above.
- The input is a sequence of Unicode scalar values, not the UTF-16 code units `Reader.read` returns. For a character outside the Basic Multilingual Plane the source reads two surrogate code units and raises two INVALID_CHARACTERS_IN_ROW errors, moving `col` and `loc` by 2; the model reads one character, raises one error and moves by 1. Input made of characters in the Basic Multilingual Plane is read the same way by both.
- Row, column and `loc` are unbounded naturals here but 32-bit `int`s in the source. They could only wrap after more than 2^31 characters in one row, which the model does not follow.
- `Text.IsWhitespace` follows `Character.isWhitespace` as of Java 9 and later. Java 6 to 8 also count U+180E (Mongolian vowel separator) as whitespace, so under those versions a name made only of U+180E characters is blank, while here it is not.
- The masks are digit sets, not `int` bit fields. `MaskBits` proves that the source's bit operations on an `int` (the zero start, the OR with `1 << num` and the AND test) match set emptiness, insertion and membership. Each grid operation uses the set form directly.
- After the out-of-bounds exception the source returns nothing. The model returns the `IndexOutOfRange` outcome with the grid and errors gathered before the throw, so callers can still see them.
- `ProposedSolutionLoop.ValidateStream` takes its starting grid as a parameter. The source always starts from a new, empty grid (`Validate` is that case), and the parameter lets the loop proof be stated for any valid starting grid.
- `addErr` and `getErrs` are not separate members. The error list is a sequence that the scanner only ever extends at the end, and `ProposedSolution.RunKeepsInvariants` states that. `isInError` is `ProposedSolution.IsInError`.
