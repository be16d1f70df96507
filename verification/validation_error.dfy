/** One reported problem (`ValidationError`): an error kind plus optional
    position and offending text. Row and column default to -1, meaning
    "absent"; the rendering prints only the parts that are present. */
module ValidationErrors {
  import opened Options
  import opened Text
  import opened ErrCodes

  /** The I/O failure that caused a caller-level error. Only its presence is
      modelled; its stack trace is never rendered here. */
  datatype Cause = Cause(message: string)

  datatype ValidationError = ValidationError(
    errCode: ErrCode,
    row: int,
    col: int,
    badValue: Option<string>,
    cause: Option<Cause>)

  /** The (code, exception) constructor: no position, no bad value. */
  function FromFailure(code: ErrCode, e: Option<Cause>): (r: ValidationError)
    ensures r.errCode == code && r.cause == e
    ensures r.row == -1 && r.col == -1 && r.badValue == None
  {
    ValidationError(code, -1, -1, None, e)
  }

  /** The (code, row) constructor: the column becomes 0, not -1, so the
      rendering always carries ", col: 0". */
  function AtRow(code: ErrCode, row: int): (r: ValidationError)
    ensures r.errCode == code && r.row == row && r.col == 0
    ensures r.badValue == None && r.cause == None
  {
    ValidationError(code, row, 0, None, None)
  }

  /** The (code, row, col) constructor. */
  function AtCell(code: ErrCode, row: int, col: int): (r: ValidationError)
    ensures r.errCode == code && r.row == row && r.col == col
    ensures r.badValue == None && r.cause == None
  {
    ValidationError(code, row, col, None, None)
  }

  /** The (code, row, col, badValue) constructor: the three-argument one
      with the bad value added. The bad value comes first in the rendering. */
  function WithBadValue(code: ErrCode, row: int, col: int, badValue: Option<string>): (r: ValidationError)
    ensures r.errCode == code && r.row == row && r.col == col
    ensures r.badValue == badValue && r.cause == None
  {
    AtCell(code, row, col).(badValue := badValue)
  }

  function BadValuePart(e: ValidationError): string {
    if IsBlank(e.badValue) then "" else ", incorrect value: " + e.badValue.value + " "
  }

  function RowPart(e: ValidationError): string {
    if e.row > -1 then "At row: " + DecimalString(e.row) else ""
  }

  function ColPart(e: ValidationError): string {
    if e.col > -1 then ", col: " + DecimalString(e.col) else ""
  }

  /** `getError`, without the stack-trace suffix of a caller-level failure.
      It always opens with the kind's message and adds nothing else exactly
      when there is no bad value, no row and no column. */
  function GetError(e: ValidationError): (s: string)
    ensures ErrMessage(e.errCode) <= s
    ensures s == ErrMessage(e.errCode) <==> IsBlank(e.badValue) && e.row <= -1 && e.col <= -1
  {
    ErrMessage(e.errCode) + BadValuePart(e) + RowPart(e) + ColPart(e)
  }

  /** A caller-level failure renders as the bare kind message (the stack
      trace that follows it in the source is not modelled). */
  lemma RenderFromFailure(code: ErrCode, e: Option<Cause>)
    ensures GetError(FromFailure(code, e)) == ErrMessage(code)
  {
  }

  /** The row constructor's error always carries ", col: 0". */
  lemma RenderAtRow(code: ErrCode, row: nat)
    ensures GetError(AtRow(code, row)) == ErrMessage(code) + ("At row: " + DecimalString(row)) + ", col: 0"
  {
    var e := AtRow(code, row);
    assert ColPart(e) == ", col: 0" by {
      assert DecimalString(0) == "0";
    }
    assert ErrMessage(code) + BadValuePart(e) == ErrMessage(code);
  }

  lemma RenderAtCell(code: ErrCode, row: nat, col: nat)
    ensures GetError(AtCell(code, row, col))
            == ErrMessage(code) + ("At row: " + DecimalString(row)) + (", col: " + DecimalString(col))
  {
  }

  /** A non-blank bad value is shown before the position. */
  lemma RenderWithBadValue(code: ErrCode, row: nat, col: nat, badValue: string)
    requires !IsBlank(Some(badValue))
    ensures GetError(WithBadValue(code, row, col, Some(badValue)))
            == ErrMessage(code) + (", incorrect value: " + badValue + " ")
               + ("At row: " + DecimalString(row)) + (", col: " + DecimalString(col))
  {
  }

  /** A blank bad value is left out of the rendering altogether. */
  lemma BlankBadValueIgnored(code: ErrCode, row: int, col: int, badValue: Option<string>)
    requires IsBlank(badValue)
    ensures GetError(WithBadValue(code, row, col, badValue)) == GetError(AtCell(code, row, col))
  {
  }
}
