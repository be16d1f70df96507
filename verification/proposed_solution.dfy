/** The single-pass scanner (`SudokuProposedSolution.validate`): reads the
    proposed solution one character at a time, places digits through the
    constraint grid, and collects validation errors in scan order. Some
    errors stop the scan at once; invalid characters and rejected digits are
    recorded and the scan goes on. */
module ProposedSolution {
  import opened Options
  import opened Text
  import opened ErrCodes
  import opened ValidationErrors
  import opened SudokuGrid

  /** The scanner's position: row and column of the next cell, the linear
      cell index `loc`, and whether the last significant character was a
      comma. */
  datatype State = State(row: nat, col: nat, loc: nat, lastCharWasComma: bool)

  /** Before the first character: the start of a row counts as following a
      comma. */
  const Start: State := State(0, 0, 0, true)

  /** `loc` is 9 * row + col in every state the scan reaches (a newline
      moves on only at column 9, so the never-reset `loc` stays in step);
      it names cell (row, col) only while col <= 8, and a tenth token in a
      row lands in the next row's first cell. */
  predicate LocTracksPosition(st: State) {
    st.loc == 9 * st.row + st.col
  }

  /** How the scanner sorts a character. */
  datatype Token = Comma | Newline | CarriageReturn | Digit(value: nat) | Other(ch: char)

  function Classify(ch: char): (t: Token)
    ensures t == Comma <==> ch == ','
    ensures t == Newline <==> ch == '\n'
    ensures t == CarriageReturn <==> ch == '\r'
    ensures t.Digit? <==> '1' <= ch <= '9'
    ensures t.Digit? ==> 1 <= t.value <= 9 && DigitChar(t.value) == ch
    ensures t.Other? <==> ch != ',' && ch != '\n' && ch != '\r' && !('1' <= ch <= '9')
    ensures t.Other? ==> t.ch == ch
  {
    if ch == ',' then Comma
    else if ch == '\n' then Newline
    else if ch == '\r' then CarriageReturn
    else if '1' <= ch <= '9' then Digit(ch as int - '0' as int)
    else Other(ch)
  }

  /** The errors after which the scan goes on. */
  predicate IsRecoverable(k: ErrCode) {
    k == InvalidCharactersInRow || k == NumberAlreadyUsed
  }

  /** The errors that end the scan immediately. */
  predicate IsTerminal(k: ErrCode) {
    k == MissingDigitsInRow || k == TooManyDigitsInRow || k == InvalidSudokuFileformat
    || k == TooManyRowsInGrid
  }

  /** After a digit or an invalid character: next cell, next column. */
  function Advance(st: State): (st': State)
    ensures st'.row == st.row && st'.col == st.col + 1 && st'.loc == st.loc + 1
    ensures !st'.lastCharWasComma
  {
    State(st.row, st.col + 1, st.loc + 1, false)
  }

  /** What one character does to the scan. */
  datatype Step =
    | Continue(next: State, grid: Grid, raised: seq<ValidationError>)
    | Halt(err: ValidationError)
    | Crash

  /** One pass of the loop body for the character ch. A `Halt` is one of the
      terminal errors, a `Continue` carries at most one recoverable error, and
      `Crash` is the out-of-bounds access `cells[loc]` for a digit with
      loc >= 81. */
  function StepOn(st: State, g: Grid, ch: char): (r: Step)
    requires WellFormed(g)
    ensures r.Continue? ==> WellFormed(r.grid) && |r.raised| <= 1
    ensures r.Continue? ==> forall e | e in r.raised :: IsRecoverable(e.errCode) && e.row == st.row && e.col == st.col
    ensures r.Continue? && LocTracksPosition(st) ==> LocTracksPosition(r.next)
    ensures r.Continue? ==> r.next.loc >= st.loc && r.next.row >= st.row
    ensures r.Halt? ==> IsTerminal(r.err.errCode) && r.err.row == st.row
    ensures r.Crash? <==> Classify(ch).Digit? && (st.lastCharWasComma || st.col == 0) && st.loc >= 81
    ensures Classify(ch) == CarriageReturn ==> r == Continue(st, g, [])
    ensures Classify(ch) == Comma && r.Continue? ==> r == Continue(st.(lastCharWasComma := true), g, [])
    ensures Classify(ch) == Newline && r.Continue? ==>
              st.col == 9 && r == Continue(st.(row := st.row + 1, col := 0), g, [])
    ensures (Classify(ch).Digit? || Classify(ch).Other?) && r.Continue? ==> r.next == Advance(st)
  {
    match Classify(ch)
    case Comma =>
      if st.lastCharWasComma then Halt(AtCell(MissingDigitsInRow, st.row, st.col))
      else Continue(st.(lastCharWasComma := true), g, [])
    case Newline =>
      if st.col < 9 then Halt(AtCell(MissingDigitsInRow, st.row, st.col))
      else if st.col > 9 then Halt(AtCell(TooManyDigitsInRow, st.row, st.col))
      else Continue(st.(row := st.row + 1, col := 0), g, [])
    case CarriageReturn =>
      Continue(st, g, [])
    case Digit(v) =>
      if !st.lastCharWasComma && st.col > 0 then Halt(AtRow(InvalidSudokuFileformat, st.row))
      else if st.loc >= 81 then Crash
      else
        var placement := Set(g, st.loc, v);
        Continue(Advance(st), placement.1,
                 if placement.0 then [] else [WithBadValue(NumberAlreadyUsed, st.row, st.col, Some(DecimalString(v)))])
    case Other(c) =>
      Continue(Advance(st), g, [WithBadValue(InvalidCharactersInRow, st.row, st.col, Some([c]))])
  }

  /** A comma, from any state: it stops the scan with missing digits at the
      current cell exactly when the previous significant character was a
      comma (as at the start of the text); otherwise it only sets the flag. */
  lemma CommaRule(st: State, g: Grid)
    requires WellFormed(g)
    ensures var r := StepOn(st, g, ',');
      && (r.Halt? <==> st.lastCharWasComma)
      && (st.lastCharWasComma ==> r == Halt(AtCell(MissingDigitsInRow, st.row, st.col)))
      && (!st.lastCharWasComma ==> r == Continue(st.(lastCharWasComma := true), g, []))
  {
  }

  /** A newline, from any state: the scan goes on, to column 0 of the next
      row with the comma flag kept, exactly when the row has had nine cells;
      fewer stops it with missing digits and more with too many digits, both
      at the current row and column. */
  lemma NewlineRule(st: State, g: Grid)
    requires WellFormed(g)
    ensures var r := StepOn(st, g, '\n');
      && (r.Continue? <==> st.col == 9)
      && (st.col < 9 ==> r == Halt(AtCell(MissingDigitsInRow, st.row, st.col)))
      && (st.col > 9 ==> r == Halt(AtCell(TooManyDigitsInRow, st.row, st.col)))
      && (st.col == 9 ==> r == Continue(State(st.row + 1, 0, st.loc, st.lastCharWasComma), g, []))
  {
  }

  /** A digit 1..9, from any state: without a comma before it (other than
      at the start of a row) it stops the scan with a format error at the
      row; past cell 80 it crashes; otherwise it is offered to `Set` at
      `loc`, the grid becomes `Set`'s result, and it raises
      NUMBER_ALREADY_USED, showing the digit as text, exactly when `Set`
      refuses it. */
  lemma DigitRule(st: State, g: Grid, ch: char)
    requires WellFormed(g) && '1' <= ch <= '9'
    ensures var r := StepOn(st, g, ch);
      && (r.Halt? <==> !st.lastCharWasComma && st.col > 0)
      && (r.Halt? ==> r.err == AtRow(InvalidSudokuFileformat, st.row))
      && (r.Crash? <==> (st.lastCharWasComma || st.col == 0) && st.loc >= 81)
      && (r.Continue? <==> (st.lastCharWasComma || st.col == 0) && st.loc < 81)
      && (r.Continue? ==>
            var placement := Set(g, st.loc, DigitValue(ch));
            && r.next == Advance(st) && r.grid == placement.1
            && (r.raised == [] <==> placement.0)
            && (!placement.0 ==> r.raised == [WithBadValue(NumberAlreadyUsed, st.row, st.col, Some([ch]))]))
  {
    assert Classify(ch) == Digit(DigitValue(ch));
    assert DecimalString(DigitValue(ch)) == [ch];
  }

  /** Any other character, '0' included, from any state: the scan goes on
      to the next cell, the grid untouched, with one invalid-character error
      at the current row and column that shows the character. */
  lemma OtherCharRule(st: State, g: Grid, ch: char)
    requires WellFormed(g)
    requires ch != ',' && ch != '\n' && ch != '\r' && !('1' <= ch <= '9')
    ensures StepOn(st, g, ch)
            == Continue(Advance(st), g, [WithBadValue(InvalidCharactersInRow, st.row, st.col, Some([ch]))])
  {
  }

  /** A step keeps the grid's masks in step with its cells and never puts a
      duplicate digit into a row, column or block. Placed digits stay. */
  lemma StepKeepsGrid(st: State, g: Grid, ch: char)
    requires Consistent(g) && NoConflict(g.cells)
    ensures var r := StepOn(st, g, ch);
      r.Continue? ==> && Consistent(r.grid) && NoConflict(r.grid.cells)
                      && forall i | 0 <= i < 81 && g.cells[i] != 0 :: r.grid.cells[i] == g.cells[i]
  {
    var r := StepOn(st, g, ch);
    if r.Continue? && Classify(ch).Digit? {
      SetPreservesConsistent(g, st.loc, Classify(ch).value);
      SetPreservesNoConflict(g, st.loc, Classify(ch).value);
    }
  }

  /** How a scan ended: at end of input, at a terminal error, or with the
      uncaught index-out-of-bounds exception of `set`. */
  datatype Outcome = Finished | Stopped | IndexOutOfRange

  /** The grid and errors `validate` hands back. After `IndexOutOfRange` the
      source throws instead of returning; grid and errors are then what had
      been gathered before the throw. */
  datatype Solution = Solution(grid: Grid, errs: seq<ValidationError>, outcome: Outcome)

  /** `isInError`. */
  predicate IsInError(s: Solution) {
    |s.errs| > 0
  }

  /** The errors appended during a run are all recoverable, except that the
      last one may be the terminal error that stopped the run or the
      too-few-rows error reported at end of input. */
  ghost predicate AppendedInOrder(before: seq<ValidationError>, r: Solution) {
    && before <= r.errs
    && (forall k | |before| <= k < |r.errs| - 1 :: IsRecoverable(r.errs[k].errCode))
    && (r.outcome == Stopped ==> |r.errs| > |before| && IsTerminal(r.errs[|r.errs| - 1].errCode))
    && (r.outcome == Finished && |r.errs| > |before| ==>
          IsRecoverable(r.errs[|r.errs| - 1].errCode) || r.errs[|r.errs| - 1].errCode == NotEnoughRowsInGrid)
    && (r.outcome == IndexOutOfRange && |r.errs| > |before| ==> IsRecoverable(r.errs[|r.errs| - 1].errCode))
  }

  /** The loop of `validate` from state st over the remaining input. */
  function Run(input: seq<char>, st: State, g: Grid, errs: seq<ValidationError>): (r: Solution)
    requires Consistent(g) && NoConflict(g.cells) && LocTracksPosition(st)
    decreases |input|
  {
    if st.row > 8 then
      Solution(g, errs + [AtRow(TooManyRowsInGrid, st.row)], Stopped)
    else if input == [] then
      Solution(g, if st.row < 8 then errs + [AtRow(NotEnoughRowsInGrid, st.row)] else errs, Finished)
    else
      StepKeepsGrid(st, g, input[0]);
      match StepOn(st, g, input[0])
      case Continue(st', g', raised) => Run(input[1..], st', g', errs + raised)
      case Halt(e) => Solution(g, errs + [e], Stopped)
      case Crash => Solution(g, errs, IndexOutOfRange)
  }

  /** Where a scan stands after it has read some text without stopping:
      the state, grid and errors it carries on with. */
  datatype Midway = Midway(st: State, grid: Grid, errs: seq<ValidationError>)

  /** The scan over a piece of text a that is not the end of the input: where
      it stands after a, or None when it stops or crashes inside a. */
  function Pass(a: seq<char>, st: State, g: Grid, errs: seq<ValidationError>): (r: Option<Midway>)
    requires Consistent(g) && NoConflict(g.cells) && LocTracksPosition(st)
    ensures r.Some? ==> Consistent(r.value.grid) && NoConflict(r.value.grid.cells) && LocTracksPosition(r.value.st)
    decreases |a|
  {
    if a == [] then Some(Midway(st, g, errs))
    else if st.row > 8 then None
    else
      StepKeepsGrid(st, g, a[0]);
      match StepOn(st, g, a[0])
      case Continue(st', g', raised) => Pass(a[1..], st', g', errs + raised)
      case Halt(_) => None
      case Crash => None
  }

  /** Reading a and then b is reading b from where a left the scan. */
  lemma {:induction false} RunAfterPass(a: seq<char>, b: seq<char>, st: State, g: Grid, errs: seq<ValidationError>)
    requires Consistent(g) && NoConflict(g.cells) && LocTracksPosition(st)
    requires Pass(a, st, g, errs).Some?
    ensures var m := Pass(a, st, g, errs).value;
      Run(a + b, st, g, errs) == Run(b, m.st, m.grid, m.errs)
    decreases |a|
  {
    if a == [] {
      assert a + b == b;
    } else {
      StepKeepsGrid(st, g, a[0]);
      var step := StepOn(st, g, a[0]);
      assert step.Continue? && Pass(a, st, g, errs) == Pass(a[1..], step.next, step.grid, errs + step.raised);
      assert Run(a + b, st, g, errs) == Run(a[1..] + b, step.next, step.grid, errs + step.raised) by {
        assert (a + b)[0] == a[0] && (a + b)[1..] == a[1..] + b;
      }
      RunAfterPass(a[1..], b, step.next, step.grid, errs + step.raised);
    }
  }

  /** Passing over a and then over b is passing over a + b. */
  lemma {:induction false} PassAppend(a: seq<char>, b: seq<char>, st: State, g: Grid, errs: seq<ValidationError>)
    requires Consistent(g) && NoConflict(g.cells) && LocTracksPosition(st)
    requires Pass(a, st, g, errs).Some?
    ensures var m := Pass(a, st, g, errs).value;
      Pass(a + b, st, g, errs) == Pass(b, m.st, m.grid, m.errs)
    decreases |a|
  {
    if a == [] {
      assert a + b == b;
    } else {
      StepKeepsGrid(st, g, a[0]);
      var step := StepOn(st, g, a[0]);
      assert step.Continue? && Pass(a, st, g, errs) == Pass(a[1..], step.next, step.grid, errs + step.raised);
      assert Pass(a + b, st, g, errs) == Pass(a[1..] + b, step.next, step.grid, errs + step.raised) by {
        assert (a + b)[0] == a[0] && (a + b)[1..] == a[1..] + b;
      }
      PassAppend(a[1..], b, step.next, step.grid, errs + step.raised);
    }
  }

  /** A carriage return anywhere in the input changes nothing: the scan
      reads the text exactly as it reads the text without it (so CR LF line
      ends behave as LF). */
  lemma {:induction false} CarriageReturnIgnored(a: seq<char>, b: seq<char>, st: State, g: Grid, errs: seq<ValidationError>)
    requires Consistent(g) && NoConflict(g.cells) && LocTracksPosition(st)
    ensures Run(a + ['\r'] + b, st, g, errs) == Run(a + b, st, g, errs)
    decreases |a|
  {
    var x, y := a + ['\r'] + b, a + b;
    if st.row <= 8 {
      if a == [] {
        assert x == ['\r'] + b && y == b;
        assert x[0] == '\r' && x[1..] == b;
        assert errs + [] == errs;
      } else {
        StepKeepsGrid(st, g, a[0]);
        assert x[0] == a[0] && x[1..] == a[1..] + ['\r'] + b;
        assert y[0] == a[0] && y[1..] == a[1..] + b;
        match StepOn(st, g, a[0])
        case Continue(st', g', raised) =>
          CarriageReturnIgnored(a[1..], b, st', g', errs + raised);
        case Halt(_) =>
        case Crash =>
      }
    }
  }

  /** Whatever the input, a scan keeps the grid's masks in step with its
      cells, never places a duplicate, never clears a placed digit, and only
      appends to the error list, in the order `AppendedInOrder` describes. */
  lemma {:induction false} RunKeepsInvariants(input: seq<char>, st: State, g: Grid, errs: seq<ValidationError>)
    requires Consistent(g) && NoConflict(g.cells) && LocTracksPosition(st)
    ensures var r := Run(input, st, g, errs);
      && Consistent(r.grid) && NoConflict(r.grid.cells)
      && (forall i | 0 <= i < 81 && g.cells[i] != 0 :: r.grid.cells[i] == g.cells[i])
      && AppendedInOrder(errs, r)
    decreases |input|
  {
    if st.row <= 8 && input != [] {
      StepKeepsGrid(st, g, input[0]);
      match StepOn(st, g, input[0])
      case Continue(st', g', raised) =>
        RunKeepsInvariants(input[1..], st', g', errs + raised);
      case Halt(e) =>
      case Crash =>
    }
  }

  /** `validate`: scan the whole input from an empty grid. */
  function Validate(input: seq<char>): Solution {
    Run(input, Start, Empty(), [])
  }

  /** What every scan returns: a grid without duplicate digits whose masks
      match its cells, an error list whose entries before the last are all
      recoverable, a last entry that is terminal exactly when the scan
      stopped early, so a scan that stopped early is always in error. */
  lemma ValidateResult(input: seq<char>)
    ensures var r := Validate(input);
      && Consistent(r.grid) && NoConflict(r.grid.cells)
      && (r.outcome == Stopped <==> |r.errs| > 0 && IsTerminal(r.errs[|r.errs| - 1].errCode))
      && (forall k | 0 <= k < |r.errs| - 1 :: IsRecoverable(r.errs[k].errCode))
      && (r.outcome == Stopped ==> IsInError(r))
  {
    RunResult(input, Start, Empty());
  }

  lemma RunResult(input: seq<char>, st: State, g: Grid)
    requires Consistent(g) && NoConflict(g.cells) && LocTracksPosition(st)
    ensures var r := Run(input, st, g, []);
      && Consistent(r.grid) && NoConflict(r.grid.cells)
      && (r.outcome == Stopped <==> |r.errs| > 0 && IsTerminal(r.errs[|r.errs| - 1].errCode))
      && (forall k | 0 <= k < |r.errs| - 1 :: IsRecoverable(r.errs[k].errCode))
  {
    RunKeepsInvariants(input, st, g, []);
    var r := Run(input, st, g, []);
    assert AppendedInOrder([], r);
  }
}

/** The scanner written as the source writes it: one `while (true)` loop
    over the characters, with the per-character branches inline. */
module ProposedSolutionLoop {
  import opened Options
  import opened Text
  import opened ErrCodes
  import opened ValidationErrors
  import opened SudokuGrid
  import opened ProposedSolution

  /** One turn of the loop: below the row guard and before end of input,
      the scan continues as the step on the next character says. */
  lemma RunOneStep(input: seq<char>, i: nat, st: State, g: Grid, errs: seq<ValidationError>)
    requires Consistent(g) && NoConflict(g.cells) && LocTracksPosition(st)
    requires st.row <= 8 && i < |input|
    ensures var r := StepOn(st, g, input[i]);
      && (r.Continue? ==>
            && Consistent(r.grid) && NoConflict(r.grid.cells) && LocTracksPosition(r.next)
            && Run(input[i..], st, g, errs) == Run(input[i + 1..], r.next, r.grid, errs + r.raised))
      && (r.Halt? ==> Run(input[i..], st, g, errs) == Solution(g, errs + [r.err], Stopped))
      && (r.Crash? ==> Run(input[i..], st, g, errs) == Solution(g, errs, IndexOutOfRange))
  {
    assert input[i..][0] == input[i] && input[i..][1..] == input[i + 1..];
    StepKeepsGrid(st, g, input[i]);
  }

  /** The body of the source's loop for one character, written with the
      source's local variables and branches. */
  method ScanChar(st: State, g: Grid, cellVal: char) returns (step: Step)
    requires WellFormed(g)
    ensures step == StepOn(st, g, cellVal)
  {
    var row, col, loc, lastCharWasComma := st.row, st.col, st.loc, st.lastCharWasComma;
    var grid := g;
    var raised: seq<ValidationError> := [];
    if cellVal == ',' {
      assert Classify(cellVal) == Comma;
      if lastCharWasComma {
        return Halt(AtCell(MissingDigitsInRow, row, col));
      }
      lastCharWasComma := true;
      return Continue(State(row, col, loc, lastCharWasComma), grid, raised);
    } else if cellVal == '\n' {
      assert Classify(cellVal) == Newline;
      if col < 9 {
        return Halt(AtCell(MissingDigitsInRow, row, col));
      }
      if col > 9 {
        return Halt(AtCell(TooManyDigitsInRow, row, col));
      }
      row := row + 1;
      col := 0;
      return Continue(State(row, col, loc, lastCharWasComma), grid, raised);
    } else if cellVal == '\r' {
      assert Classify(cellVal) == CarriageReturn;
      return Continue(State(row, col, loc, lastCharWasComma), grid, raised);
    } else if '1' <= cellVal <= '9' {
      assert Classify(cellVal) == Digit(cellVal as int - '0' as int);
      if !lastCharWasComma && col > 0 {
        return Halt(AtRow(InvalidSudokuFileformat, row));
      }
      if loc >= 81 {
        return Crash;
      }
      var num := cellVal as int - '0' as int;
      var placement := Set(grid, loc, num);
      grid := placement.1;
      if !placement.0 {
        raised := [WithBadValue(NumberAlreadyUsed, row, col, Some(DecimalString(num)))];
      }
      return Continue(State(row, col + 1, loc + 1, false), grid, raised);
    }
    assert Classify(cellVal) == Other(cellVal);
    raised := [WithBadValue(InvalidCharactersInRow, row, col, Some([cellVal]))];
    loc := loc + 1;
    col := col + 1;
    lastCharWasComma := false;
    return Continue(State(row, col, loc, lastCharWasComma), grid, raised);
  }

  /** `validate` as the source's `while (true)` loop computes the same
      solution as the recursive scanner, starting from the given grid
      (empty in the source). */
  method ValidateStream(input: seq<char>, g0: Grid) returns (r: Solution)
    requires Consistent(g0) && NoConflict(g0.cells)
    ensures r == Run(input, Start, g0, [])
  {
    var g := g0;
    var errs: seq<ValidationError> := [];
    var st := Start;
    var i := 0;
    while true
      invariant 0 <= i <= |input|
      invariant Consistent(g) && NoConflict(g.cells) && LocTracksPosition(st)
      invariant Run(input[i..], st, g, errs) == Run(input, Start, g0, [])
      decreases |input| - i
    {
      if st.row > 8 {
        errs := errs + [AtRow(TooManyRowsInGrid, st.row)];
        return Solution(g, errs, Stopped);
      }
      if i == |input| {
        break;
      }
      RunOneStep(input, i, st, g, errs);
      var step := ScanChar(st, g, input[i]);
      i := i + 1;
      match step
      case Halt(err) =>
        errs := errs + [err];
        return Solution(g, errs, Stopped);
      case Crash =>
        return Solution(g, errs, IndexOutOfRange);
      case Continue(next, grid, raised) =>
        st, g, errs := next, grid, errs + raised;
    }
    if st.row < 8 {
      errs := errs + [AtRow(NotEnoughRowsInGrid, st.row)];
    }
    r := Solution(g, errs, Finished);
  }
}
