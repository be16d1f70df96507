/** A proposed solution written the usual way: nine comma-separated cells
    per line, lines separated by newlines. This module says what the scanner
    makes of such a text, measured against a reference that judges cell by
    cell on the cells alone and never looks at the masks. */
module GridText {
  import opened Options
  import opened Text
  import opened ErrCodes
  import opened ValidationErrors
  import opened SudokuGrid
  import opened ProposedSolution

  /** A character that stands for a cell on its own: anything but a
      separator or a carriage return. */
  predicate IsCellChar(c: char) {
    c != ',' && c != '\n' && c != '\r'
  }

  predicate AllCellChars(t: seq<char>) {
    forall i | 0 <= i < |t| :: IsCellChar(t[i])
  }

  /** The separator written after cell k: a newline after the ninth cell of
      a row, a comma after any other. */
  function Separator(k: nat): char {
    if k % 9 == 8 then '\n' else ','
  }

  /** Cells t, the first of them being cell k, written out with a separator
      between each two (none after the last). */
  function Render(t: seq<char>, k: nat): (s: string)
    requires |t| > 0
    ensures |s| == 2 * |t| - 1
    ensures forall i | 0 <= i < |t| :: s[2 * i] == t[i]
    ensures forall i | 0 <= i < |t| - 1 :: s[2 * i + 1] == Separator(k + i)
    decreases |t|
  {
    if |t| == 1 then t
    else
      var rest := Render(t[1..], k + 1);
      assert forall i | 0 <= i < |t| - 1 :: ([t[0], Separator(k)] + rest)[2 * i + 1] == Separator(k + i) by {
        forall i | 1 <= i < |t| - 1 ensures ([t[0], Separator(k)] + rest)[2 * i + 1] == Separator(k + i) {
          assert rest[2 * (i - 1) + 1] == Separator(k + 1 + (i - 1));
        }
      }
      [t[0], Separator(k)] + rest
  }

  /** The scanner is ready to read cell k of a well-formed text. */
  predicate ReadyFor(st: State, k: nat) {
    && st.row == k / 9 && st.col == k % 9 && st.loc == k
    && (k % 9 == 0 || st.lastCharWasComma)
  }

  /** The scanner's state just after it has read cell n - 1. */
  function After(n: nat): (st: State)
    requires n > 0
    ensures LocTracksPosition(st)
  {
    State((n - 1) / 9, (n - 1) % 9 + 1, n, false)
  }

  /** The digit a cell character stands for, 0 for any other character. */
  function CellValue(c: char): int {
    if '1' <= c <= '9' then c as int - '0' as int else 0
  }

  function Values(t: seq<char>): seq<int> {
    seq(|t|, i requires 0 <= i < |t| => CellValue(t[i]))
  }

  /** A completed, valid Sudoku: 81 digits from 1 to 9 and no digit twice in
      a row, column or block. */
  predicate IsSolution(d: seq<int>) {
    && |d| == 81
    && (forall i | 0 <= i < 81 :: 1 <= d[i] <= 9)
    && NoConflict(d)
  }

  /** 81 cells, each unset or holding a digit. */
  predicate CellRange(cells: seq<int>) {
    |cells| == 81 && forall i | 0 <= i < 81 :: 0 <= cells[i] <= 9
  }

  /** The reference verdict on character ch as cell k: a digit that fits is
      written into the cell; a digit that does not fit is reported as already
      used; anything else is reported as an invalid character. Both errors
      sit at the cell's row and column and show the offending text. */
  function Judge(cells: seq<int>, k: nat, ch: char): (r: (seq<int>, seq<ValidationError>))
    requires CellRange(cells) && k < 81
    ensures CellRange(r.0)
    ensures forall i | 0 <= i < 81 && i != k :: r.0[i] == cells[i]
    ensures r.1 == [] <==> 1 <= CellValue(ch) && Fits(cells, k, CellValue(ch))
    ensures r.1 == [] ==> r.0[k] == CellValue(ch)
    ensures r.1 != [] ==> r.0 == cells && |r.1| == 1 && r.1[0].row == k / 9 && r.1[0].col == k % 9
  {
    if '1' <= ch <= '9' then
      var v := ch as int - '0' as int;
      if Fits(cells, k, v) then (cells[k := v], [])
      else (cells, [WithBadValue(NumberAlreadyUsed, k / 9, k % 9, Some(DecimalString(v)))])
    else
      (cells, [WithBadValue(InvalidCharactersInRow, k / 9, k % 9, Some([ch]))])
  }

  /** The reference over cells t starting at cell k: the cells after every
      verdict and the errors in cell order. */
  function Reference(cells: seq<int>, t: seq<char>, k: nat): (r: (seq<int>, seq<ValidationError>))
    requires CellRange(cells) && k + |t| <= 81
    ensures CellRange(r.0)
    ensures forall i | 0 <= i < 81 && cells[i] != 0 :: r.0[i] == cells[i]
    ensures forall i | 0 <= i < 81 && !(k <= i < k + |t|) :: r.0[i] == cells[i]
    ensures |r.1| <= |t|
    decreases |t|
  {
    if t == [] then (cells, [])
    else
      var first := Judge(cells, k, t[0]);
      var rest := Reference(first.0, t[1..], k + 1);
      (rest.0, first.1 + rest.1)
  }

  lemma AppendAssoc<T>(a: seq<T>, b: seq<T>, c: seq<T>)
    ensures a + b + c == a + (b + c)
  {
  }

  lemma AppendEmpty<T>(a: seq<T>)
    ensures a + [] == a && [] + a == a
  {
  }

  /** One verdict, then the rest. */
  lemma ReferenceUnfold(cells: seq<int>, t: seq<char>, k: nat)
    requires CellRange(cells) && 0 < |t| && k + |t| <= 81
    ensures var first := Judge(cells, k, t[0]); var rest := Reference(first.0, t[1..], k + 1);
      Reference(cells, t, k) == (rest.0, first.1 + rest.1)
  {
  }

  /** The reference never puts a digit next to a peer holding the same one. */
  lemma {:induction false} ReferenceKeepsNoConflict(cells: seq<int>, t: seq<char>, k: nat)
    requires CellRange(cells) && k + |t| <= 81 && NoConflict(cells)
    ensures NoConflict(Reference(cells, t, k).0)
    decreases |t|
  {
    if t != [] {
      var first := Judge(cells, k, t[0]);
      if first.1 == [] {
        WriteFitKeepsNoConflict(cells, k, CellValue(t[0]));
        assert first.0 == cells[k := CellValue(t[0])];
      }
      ReferenceKeepsNoConflict(first.0, t[1..], k + 1);
    }
  }

  /** Reading one cell character from a ready state gives the reference
      verdict and leaves the scanner just after that cell. */
  lemma StepMatchesJudge(st: State, g: Grid, c: char, k: nat)
    requires Consistent(g) && NoConflict(g.cells) && k < 81 && IsCellChar(c) && ReadyFor(st, k)
    ensures var step := StepOn(st, g, c);
      && step.Continue? && step.next == After(k + 1)
      && step.grid.cells == Judge(g.cells, k, c).0 && step.raised == Judge(g.cells, k, c).1
  {
    if '1' <= c <= '9' {
      var v := c as int - '0' as int;
      assert Classify(c) == Digit(v);
      SetDecidesFit(g, k, v);
      var placement := Set(g, k, v);
      assert StepOn(st, g, c).grid == placement.1;
      if Fits(g.cells, k, v) {
        assert Judge(g.cells, k, c).0 == g.cells[k := v];
        assert placement.1.cells == g.cells[k := v];
      } else {
        assert Judge(g.cells, k, c).0 == g.cells;
        assert placement.1 == g;
      }
    } else {
      assert Classify(c) == Other(c);
    }
  }

  /** Passing over one cell character from a ready state. */
  lemma PassCell(c: char, st: State, g: Grid, errs: seq<ValidationError>, k: nat)
    requires Consistent(g) && NoConflict(g.cells) && k < 81 && IsCellChar(c) && ReadyFor(st, k)
    ensures var p := Pass([c], st, g, errs);
      && p.Some? && p.value.st == After(k + 1)
      && p.value.grid.cells == Judge(g.cells, k, c).0 && p.value.errs == errs + Judge(g.cells, k, c).1
  {
    StepMatchesJudge(st, g, c, k);
    assert [c][1..] == [];
  }

  /** Passing over the separator after cell k leaves the scanner ready for
      cell k + 1, grid and errors untouched. */
  lemma PassSeparator(g: Grid, errs: seq<ValidationError>, k: nat)
    requires Consistent(g) && NoConflict(g.cells) && k + 1 < 81
    ensures var p := Pass([Separator(k)], After(k + 1), g, errs);
      p.Some? && ReadyFor(p.value.st, k + 1) && p.value.grid == g && p.value.errs == errs
  {
    assert [Separator(k)][1..] == [];
    assert errs + [] == errs;
  }

  /** Passing over a cell character and the separator after it, then on. */
  lemma PassPair(c: char, more: string, st: State, g: Grid, errs: seq<ValidationError>, k: nat)
    returns (st': State, g': Grid)
    requires Consistent(g) && NoConflict(g.cells) && k + 1 < 81 && IsCellChar(c) && ReadyFor(st, k)
    ensures ReadyFor(st', k + 1)
    ensures Consistent(g') && NoConflict(g'.cells) && g'.cells == Judge(g.cells, k, c).0
    ensures Pass([c, Separator(k)] + more, st, g, errs) == Pass(more, st', g', errs + Judge(g.cells, k, c).1)
  {
    PassCell(c, st, g, errs, k);
    assert [c, Separator(k)] + more == [c] + ([Separator(k)] + more);
    PassAppend([c], [Separator(k)] + more, st, g, errs);
    var m1 := Pass([c], st, g, errs).value;
    PassSeparator(m1.grid, m1.errs, k);
    PassAppend([Separator(k)], more, m1.st, m1.grid, m1.errs);
    var m2 := Pass([Separator(k)], m1.st, m1.grid, m1.errs).value;
    st', g' := m2.st, m2.grid;
  }

  /** The scan passes over a rendered run of cells, ending at cell n, as the
      reference does: it ends just after the last cell with the reference's
      cells in the grid, masks in step, and the reference's errors appended
      in order. */
  lemma {:induction false} PassRendered(t: seq<char>, k: nat, n: nat, st: State, g: Grid, errs: seq<ValidationError>)
    requires Consistent(g) && NoConflict(g.cells)
    requires 0 < |t| && n == k + |t| && n <= 81 && AllCellChars(t) && ReadyFor(st, k)
    ensures var p := Pass(Render(t, k), st, g, errs); var ref := Reference(g.cells, t, k);
      && p.Some? && p.value.st == After(n)
      && p.value.grid.cells == ref.0 && p.value.errs == errs + ref.1
    decreases |t|
  {
    var first := Judge(g.cells, k, t[0]);
    if |t| == 1 {
      assert Render(t, k) == [t[0]];
      PassCell(t[0], st, g, errs, k);
      ReferenceUnfold(g.cells, t, k);
      assert t[1..] == [];
      assert first.1 + [] == first.1;
    } else {
      var tail := Render(t[1..], k + 1);
      assert Render(t, k) == [t[0], Separator(k)] + tail;
      var st1, g1 := PassPair(t[0], tail, st, g, errs, k);
      PassRendered(t[1..], k + 1, n, st1, g1, errs + first.1);
      var rest := Reference(g1.cells, t[1..], k + 1);
      assert Reference(g.cells, t, k) == (rest.0, first.1 + rest.1) by {
        ReferenceUnfold(g.cells, t, k);
      }
      AppendAssoc(errs, first.1, rest.1);
    }
  }

  /** The reference fills every cell of a text it raises no error on, each
      with the digit the text shows. */
  lemma {:induction false} CleanReferenceFills(cells: seq<int>, t: seq<char>, k: nat)
    requires CellRange(cells) && k + |t| <= 81
    requires Reference(cells, t, k).1 == []
    ensures forall i | 0 <= i < |t| :: 1 <= CellValue(t[i]) && Reference(cells, t, k).0[k + i] == CellValue(t[i])
    decreases |t|
  {
    if t != [] {
      var first := Judge(cells, k, t[0]);
      var rest := Reference(first.0, t[1..], k + 1);
      ReferenceUnfold(cells, t, k);
      assert first.1 == [] && rest.1 == [];
      CleanReferenceFills(first.0, t[1..], k + 1);
      forall i | 0 <= i < |t| ensures 1 <= CellValue(t[i]) && rest.0[k + i] == CellValue(t[i]) {
        if i > 0 {
          assert t[1..][i - 1] == t[i];
        }
      }
    }
  }

  /** On the text of a solved Sudoku, filled in order from cell k on, the
      reference places every digit and raises nothing. */
  lemma {:induction false} ReferenceOnSolution(d: seq<int>, cells: seq<int>, t: seq<char>, k: nat)
    requires IsSolution(d) && k + |t| == 81 && |cells| == 81
    requires forall i | 0 <= i < |t| :: CellValue(t[i]) == d[k + i]
    requires forall i | 0 <= i < 81 :: cells[i] == if i < k then d[i] else 0
    ensures CellRange(cells)
    ensures Reference(cells, t, k) == (d, [])
    decreases |t|
  {
    if t == [] {
      assert cells == d;
    } else {
      var v := CellValue(t[0]);
      assert v == d[k];
      assert Fits(cells, k, v) by {
        forall j | 0 <= j < 81 && SharesUnit(j, k) ensures cells[j] != v {
          if j < k {
            assert d[j] != d[k];
          }
        }
      }
      var first := Judge(cells, k, t[0]);
      assert first.0 == cells[k := v];
      ReferenceOnSolution(d, first.0, t[1..], k + 1);
      ReferenceUnfold(cells, t, k);
    }
  }

  /** The empty board: every cell unset, so no digit is repeated. */
  lemma EmptyBoard()
    ensures CellRange(Zeros(81)) && NoConflict(Zeros(81))
  {
  }

  /** A text the reference raises no error on, from any conflict-free board,
      is a solved Sudoku, and the reference has placed exactly its digits. */
  lemma CleanIsSolution(t: seq<char>, z: seq<int>)
    requires |t| == 81 && CellRange(z) && NoConflict(z) && Reference(z, t, 0).1 == []
    ensures Reference(z, t, 0).0 == Values(t)
    ensures IsSolution(Values(t))
  {
    CleanReferenceFills(z, t, 0);
    assert Reference(z, t, 0).0 == Values(t);
    ReferenceKeepsNoConflict(z, t, 0);
  }

  /** The reference on an empty board raises no error exactly when the text
      is a solved Sudoku, and then it places exactly the text's digits. */
  lemma CleanExactlyOnSolutions(t: seq<char>)
    requires |t| == 81
    ensures var ref := Reference(Zeros(81), t, 0);
      && (ref.1 == [] <==> IsSolution(Values(t)))
      && (ref.1 == [] ==> ref.0 == Values(t))
  {
    if Reference(Zeros(81), t, 0).1 == [] {
      EmptyBoard();
      CleanIsSolution(t, Zeros(81));
    }
    if IsSolution(Values(t)) {
      ReferenceOnSolution(Values(t), Zeros(81), t, 0);
    }
  }

  /** `validate` on a complete 81-cell text finishes, leaves in the grid
      what the reference places and reports the reference's errors in cell
      order. It reports no error at all exactly when every cell is a digit
      and together they form a solved Sudoku; the grid then holds those
      digits. */
  lemma AcceptsExactlySolutions(t: seq<char>)
    requires |t| == 81 && AllCellChars(t)
    ensures var r := Validate(Render(t, 0)); var ref := Reference(Zeros(81), t, 0);
      && r.outcome == Finished && r.grid.cells == ref.0 && r.errs == ref.1
      && (!IsInError(r) <==> IsSolution(Values(t)))
      && (!IsInError(r) ==> r.grid.cells == Values(t))
  {
    var a := Render(t, 0);
    AppendEmpty(Reference(Zeros(81), t, 0).1);
    assert ReadyFor(Start, 0);
    PassRendered(t, 0, 81, Start, Empty(), []);
    RunAfterPass(a, [], Start, Empty(), []);
    AppendEmpty(a);
    CleanExactlyOnSolutions(t);
  }

  /** `validate` on a rendered run of cells followed by anything: it reads
      the cells as the reference does and goes on from just after the last
      one. */
  lemma ValidateAfterCells(t: seq<char>, tail: string) returns (m: Midway)
    requires 0 < |t| <= 81 && AllCellChars(t)
    ensures Consistent(m.grid) && NoConflict(m.grid.cells) && m.st == After(|t|)
    ensures m.grid.cells == Reference(Zeros(81), t, 0).0 && m.errs == Reference(Zeros(81), t, 0).1
    ensures Validate(Render(t, 0) + tail) == Run(tail, m.st, m.grid, m.errs)
  {
    AppendEmpty(Reference(Zeros(81), t, 0).1);
    assert ReadyFor(Start, 0);
    PassRendered(t, 0, |t|, Start, Empty(), []);
    RunAfterPass(Render(t, 0), tail, Start, Empty(), []);
    m := Pass(Render(t, 0), Start, Empty(), []).value;
  }

  /** After the ninth row, a newline moves the scan to row 9, which stops
      it with too many rows. */
  lemma NewlineAfterLastRow(g: Grid, errs: seq<ValidationError>)
    requires Consistent(g) && NoConflict(g.cells)
    ensures Run("\n", After(81), g, errs) == Solution(g, errs + [AtRow(TooManyRowsInGrid, 9)], Stopped)
  {
    assert After(81) == State(8, 9, 81, false);
    assert StepOn(After(81), g, '\n') == Continue(State(9, 0, 81, false), g, []);
    AppendEmpty(errs);
  }

  /** Input that ends right after an earlier complete row finishes with
      too few rows, naming that row. */
  lemma EndAfterRow(rows: nat, g: Grid, errs: seq<ValidationError>)
    requires 1 <= rows <= 8 && Consistent(g) && NoConflict(g.cells)
    ensures Run([], After(9 * rows), g, errs) == Solution(g, errs + [AtRow(NotEnoughRowsInGrid, rows - 1)], Finished)
  {
    assert After(9 * rows) == State(rows - 1, 9, 9 * rows, false);
  }

  /** A newline after an earlier complete row moves the scan to the next
      row; the input then ends. */
  lemma NewlineThenEnd(rows: nat, g: Grid, errs: seq<ValidationError>)
    requires 1 <= rows <= 8 && Consistent(g) && NoConflict(g.cells)
    ensures Run("\n", After(9 * rows), g, errs)
            == Solution(g, errs + (if rows < 8 then [AtRow(NotEnoughRowsInGrid, rows)] else []), Finished)
  {
    assert After(9 * rows) == State(rows - 1, 9, 9 * rows, false);
    assert StepOn(After(9 * rows), g, '\n') == Continue(State(rows, 0, 9 * rows, false), g, []);
    AppendEmpty(errs);
  }

  /** A newline before the ninth cell of a row stops the scan with missing
      digits at the column the next cell would have had. */
  lemma NewlineInRow(n: nat, g: Grid, errs: seq<ValidationError>, tail: string)
    requires 0 < n < 81 && n % 9 != 0 && Consistent(g) && NoConflict(g.cells)
    ensures Run(['\n'] + tail, After(n), g, errs)
            == Solution(g, errs + [AtCell(MissingDigitsInRow, n / 9, n % 9)], Stopped)
  {
    assert After(n) == State(n / 9, n % 9, n, false);
    assert (['\n'] + tail)[0] == '\n';
  }

  /** A digit after a comma that follows the ninth cell of a row is set
      into cell loc = 9 * rows, the first cell of the next row, and is
      checked against that cell's units; the column moves on to 10. */
  lemma TenthDigit(rows: nat, c: char, g: Grid)
    requires 1 <= rows <= 8 && '1' <= c <= '9' && Consistent(g)
    ensures var k := 9 * rows; var v := CellValue(c); var placement := Set(g, k, v);
      && (placement.0 <==> Fits(g.cells, k, v))
      && StepOn(State(rows - 1, 9, k, true), g, c)
         == Continue(State(rows - 1, 10, k + 1, false), placement.1,
                     if placement.0 then [] else [WithBadValue(NumberAlreadyUsed, rows - 1, 9, Some(DecimalString(v)))])
  {
    assert Classify(c) == Digit(CellValue(c));
    SetDecidesFit(g, 9 * rows, CellValue(c));
  }

  /** A comma and a digit after the ninth cell of a row are read as one
      more cell, placed (or rejected) at the first cell of the next row. */
  lemma CommaDigitAfterRow(rows: nat, c: char, g: Grid, errs: seq<ValidationError>, rest: string)
    requires 1 <= rows <= 8 && '1' <= c <= '9' && Consistent(g) && NoConflict(g.cells)
    ensures var k := 9 * rows; var v := CellValue(c); var placement := Set(g, k, v);
      && Consistent(placement.1) && NoConflict(placement.1.cells)
      && Run([',', c] + rest, After(k), g, errs)
         == Run(rest, State(rows - 1, 10, k + 1, false), placement.1,
                errs + if placement.0 then [] else [WithBadValue(NumberAlreadyUsed, rows - 1, 9, Some(DecimalString(v)))])
  {
    var k := 9 * rows;
    var st1 := State(rows - 1, 9, k, true);
    assert After(k) == State(rows - 1, 9, k, false);
    assert [',', c] + rest == [','] + ([c] + rest);
    CommaAfterCell([c] + rest, After(k), g, errs);
    TenthDigit(rows, c, g);
    StepKeepsGrid(st1, g, c);
    assert ([c] + rest)[0] == c && ([c] + rest)[1..] == rest;
  }

  /** The newline after a tenth cell stops the scan with too many digits at
      column 10. */
  lemma NewlineAfterTenthCell(rows: nat, loc: nat, g: Grid, errs: seq<ValidationError>, tail: string)
    requires 1 <= rows <= 8 && loc == 9 * rows + 1 && Consistent(g) && NoConflict(g.cells)
    ensures Run(['\n'] + tail, State(rows - 1, 10, loc, false), g, errs)
            == Solution(g, errs + [AtCell(TooManyDigitsInRow, rows - 1, 10)], Stopped)
  {
    assert (['\n'] + tail)[0] == '\n';
  }

  /** A comma and a digit after the ninth cell of a row: the digit is set
      into the first cell of the next row, and the newline that follows
      stops the scan with too many digits at column 10. */
  lemma TenthCellThenNewline(rows: nat, c: char, g: Grid, errs: seq<ValidationError>, tail: string)
    requires 1 <= rows <= 8 && '1' <= c <= '9' && Consistent(g) && NoConflict(g.cells)
    ensures var k := 9 * rows; var v := CellValue(c); var fits := Fits(g.cells, k, v);
      var r := Run([',', c, '\n'] + tail, After(k), g, errs);
      && r.outcome == Stopped
      && r.grid.cells == (if fits then g.cells[k := v] else g.cells)
      && r.errs == errs
                   + (if fits then [] else [WithBadValue(NumberAlreadyUsed, rows - 1, 9, Some(DecimalString(v)))])
                   + [AtCell(TooManyDigitsInRow, rows - 1, 10)]
  {
    assert [',', c, '\n'] + tail == [',', c] + (['\n'] + tail);
    CommaDigitAfterRow(rows, c, g, errs, ['\n'] + tail);
    TenthDigit(rows, c, g);
    var placement := Set(g, 9 * rows, CellValue(c));
    var raised := if placement.0 then [] else [WithBadValue(NumberAlreadyUsed, rows - 1, 9, Some(DecimalString(CellValue(c))))];
    NewlineAfterTenthCell(rows, 9 * rows + 1, placement.1, errs + raised, tail);
  }

  /** A newline after the ninth row is one row too many: the complete grid
      text with a trailing newline is always in error, stopped at row 9,
      even when the cells form a solved Sudoku. */
  lemma TrailingNewlineRejected(t: seq<char>)
    requires |t| == 81 && AllCellChars(t)
    ensures var r := Validate(Render(t, 0) + "\n"); var ref := Reference(Zeros(81), t, 0);
      && r.outcome == Stopped && r.grid.cells == ref.0
      && r.errs == ref.1 + [AtRow(TooManyRowsInGrid, 9)] && IsInError(r)
  {
    var m := ValidateAfterCells(t, "\n");
    NewlineAfterLastRow(m.grid, m.errs);
  }

  /** A text that ends after `rows` complete rows, 1 <= rows <= 8, with no
      final newline, finishes with a not-enough-rows error naming the last
      row read. */
  lemma RowsMissing(t: seq<char>, rows: nat)
    requires 1 <= rows <= 8 && |t| == 9 * rows && AllCellChars(t)
    ensures var r := Validate(Render(t, 0)); var ref := Reference(Zeros(81), t, 0);
      && r.outcome == Finished && r.grid.cells == ref.0
      && r.errs == ref.1 + [AtRow(NotEnoughRowsInGrid, rows - 1)]
  {
    var m := ValidateAfterCells(t, []);
    AppendEmpty(Render(t, 0));
    EndAfterRow(rows, m.grid, m.errs);
  }

  /** With a newline after the last complete row the not-enough-rows error
      names the next row instead, except after the eighth row, where the
      check at the end of input (row < 8) lets the missing ninth row
      through without any error. */
  lemma RowsMissingAfterNewline(t: seq<char>, rows: nat)
    requires 1 <= rows <= 8 && |t| == 9 * rows && AllCellChars(t)
    ensures var r := Validate(Render(t, 0) + "\n"); var ref := Reference(Zeros(81), t, 0);
      && r.outcome == Finished && r.grid.cells == ref.0
      && r.errs == ref.1 + (if rows < 8 then [AtRow(NotEnoughRowsInGrid, rows)] else [])
  {
    var m := ValidateAfterCells(t, "\n");
    NewlineThenEnd(rows, m.grid, m.errs);
  }

  /** At the end of input the scanner checks only the row count, never the
      column: a last row cut short after at least one cell, with no final
      newline, adds no error of its own. */
  lemma ShortLastRowUnchecked(t: seq<char>)
    requires 72 < |t| < 81 && AllCellChars(t)
    ensures var r := Validate(Render(t, 0)); var ref := Reference(Zeros(81), t, 0);
      r.outcome == Finished && r.grid.cells == ref.0 && r.errs == ref.1
  {
    var m := ValidateAfterCells(t, []);
    AppendEmpty(Render(t, 0));
    assert m.st.row == 8;
  }

  /** A newline after a row of fewer than nine cells stops the scan with a
      missing-digits error at that row, at the column the next cell would
      have had. */
  lemma ShortRowStops(t: seq<char>, tail: string)
    requires 0 < |t| < 81 && |t| % 9 != 0 && AllCellChars(t)
    ensures var r := Validate(Render(t, 0) + ['\n'] + tail); var ref := Reference(Zeros(81), t, 0);
      && r.outcome == Stopped && r.grid.cells == ref.0
      && r.errs == ref.1 + [AtCell(MissingDigitsInRow, |t| / 9, |t| % 9)]
  {
    AppendAssoc(Render(t, 0), ['\n'], tail);
    var m := ValidateAfterCells(t, ['\n'] + tail);
    NewlineInRow(|t|, m.grid, m.errs, tail);
  }

  /** A tenth cell in a row: its digit goes into the first cell of the next
      row (the cell index is never reset), checked against that cell's
      units, and the newline after it then stops the scan with a
      too-many-digits error at column 10. */
  lemma TenthCellStops(t: seq<char>, rows: nat, c: char, tail: string)
    requires 1 <= rows <= 8 && |t| == 9 * rows && AllCellChars(t) && '1' <= c <= '9'
    ensures var r := Validate(Render(t, 0) + [',', c, '\n'] + tail);
      var ref := Reference(Zeros(81), t, 0); var v := CellValue(c);
      var fits := Fits(ref.0, 9 * rows, v);
      && r.outcome == Stopped
      && r.grid.cells == (if fits then ref.0[9 * rows := v] else ref.0)
      && r.errs == ref.1
                   + (if fits then [] else [WithBadValue(NumberAlreadyUsed, rows - 1, 9, Some(DecimalString(v)))])
                   + [AtCell(TooManyDigitsInRow, rows - 1, 10)]
  {
    AppendAssoc(Render(t, 0), [',', c, '\n'], tail);
    var m := ValidateAfterCells(t, [',', c, '\n'] + tail);
    TenthCellThenNewline(rows, c, m.grid, m.errs, tail);
  }

  /** A digit after a comma that follows the 81st cell makes `set` index
      past the end of the cell array: the scan ends with the uncaught
      out-of-bounds exception. */
  lemma CellPastEndCrashes(t: seq<char>, c: char, tail: string)
    requires |t| == 81 && AllCellChars(t) && '1' <= c <= '9'
    ensures var r := Validate(Render(t, 0) + [',', c] + tail); var ref := Reference(Zeros(81), t, 0);
      r.outcome == IndexOutOfRange && r.grid.cells == ref.0 && r.errs == ref.1
  {
    AppendAssoc(Render(t, 0), [',', c], tail);
    var m := ValidateAfterCells(t, [',', c] + tail);
    CommaDigitAtEnd(c, m.grid, m.errs, tail);
  }

  /** A comma after a cell only records that a comma was seen. */
  lemma CommaAfterCell(rest: string, st: State, g: Grid, errs: seq<ValidationError>)
    requires Consistent(g) && NoConflict(g.cells) && LocTracksPosition(st)
    requires st.row <= 8 && !st.lastCharWasComma
    ensures Run([','] + rest, st, g, errs) == Run(rest, st.(lastCharWasComma := true), g, errs)
  {
    assert ([','] + rest)[0] == ',' && ([','] + rest)[1..] == rest;
    AppendEmpty(errs);
  }

  /** After the last cell, a comma and then a digit crash the scan. */
  lemma CommaDigitAtEnd(c: char, g: Grid, errs: seq<ValidationError>, tail: string)
    requires '1' <= c <= '9' && Consistent(g) && NoConflict(g.cells)
    ensures Run([',', c] + tail, After(81), g, errs) == Solution(g, errs, IndexOutOfRange)
  {
    var st1 := State(8, 9, 81, true);
    assert [',', c] + tail == [','] + ([c] + tail);
    CommaAfterCell([c] + tail, After(81), g, errs);
    assert StepOn(st1, g, c) == Crash by {
      assert Classify(c).Digit?;
    }
    assert ([c] + tail)[0] == c;
  }

  /** A digit straight after a cell, with no comma between, stops the scan
      with an invalid-file-format error at the cell's row. */
  lemma DigitWithoutComma(n: nat, c: char, g: Grid, errs: seq<ValidationError>, tail: string)
    requires 0 < n <= 81 && '1' <= c <= '9' && Consistent(g) && NoConflict(g.cells)
    ensures Run([c] + tail, After(n), g, errs)
            == Solution(g, errs + [AtRow(InvalidSudokuFileformat, (n - 1) / 9)], Stopped)
  {
    assert Classify(c).Digit?;
    assert ([c] + tail)[0] == c;
  }

  /** A missing comma between two cells stops the scan with an invalid
      file format at the row of the first of them. */
  lemma MissingCommaStops(t: seq<char>, c: char, tail: string)
    requires 0 < |t| <= 81 && AllCellChars(t) && '1' <= c <= '9'
    ensures var r := Validate(Render(t, 0) + [c] + tail); var ref := Reference(Zeros(81), t, 0);
      && r.outcome == Stopped && r.grid.cells == ref.0
      && r.errs == ref.1 + [AtRow(InvalidSudokuFileformat, (|t| - 1) / 9)]
  {
    AppendAssoc(Render(t, 0), [c], tail);
    var m := ValidateAfterCells(t, [c] + tail);
    DigitWithoutComma(|t|, c, m.grid, m.errs, tail);
  }

  /** Two commas in a row stop the scan with missing digits at the column
      of the empty cell. */
  lemma TwoCommas(n: nat, g: Grid, errs: seq<ValidationError>, tail: string)
    requires 0 < n <= 81 && Consistent(g) && NoConflict(g.cells)
    ensures Run([',', ','] + tail, After(n), g, errs)
            == Solution(g, errs + [AtCell(MissingDigitsInRow, After(n).row, After(n).col)], Stopped)
  {
    assert [',', ','] + tail == [','] + ([','] + tail);
    CommaAfterCell([','] + tail, After(n), g, errs);
    assert ([','] + tail)[0] == ',';
  }

  /** An empty cell between two commas stops the scan with missing digits. */
  lemma EmptyCellStops(t: seq<char>, tail: string)
    requires 0 < |t| <= 81 && AllCellChars(t)
    ensures var r := Validate(Render(t, 0) + [',', ','] + tail); var ref := Reference(Zeros(81), t, 0);
      && r.outcome == Stopped && r.grid.cells == ref.0
      && r.errs == ref.1 + [AtCell(MissingDigitsInRow, (|t| - 1) / 9, (|t| - 1) % 9 + 1)]
  {
    AppendAssoc(Render(t, 0), [',', ','], tail);
    var m := ValidateAfterCells(t, [',', ','] + tail);
    TwoCommas(|t|, m.grid, m.errs, tail);
    assert AtCell(MissingDigitsInRow, (|t| - 1) / 9, (|t| - 1) % 9 + 1)
        == AtCell(MissingDigitsInRow, After(|t|).row, After(|t|).col);
  }

  /** The start of the text counts as following a comma, so a leading comma
      is an empty first cell. */
  lemma LeadingCommaStops(tail: string)
    ensures Validate([','] + tail) == Solution(Empty(), [AtCell(MissingDigitsInRow, 0, 0)], Stopped)
  {
    assert ([','] + tail)[0] == ',';
  }

  /** An empty text finishes with too few rows at row 0, and nothing else. */
  lemma EmptyTextHasNoRows()
    ensures Validate([]) == Solution(Empty(), [AtRow(NotEnoughRowsInGrid, 0)], Finished)
  {
  }
}
