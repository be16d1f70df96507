/** The closed catalogue of validation error kinds (`ERR_CODE`): each kind
    carries a four-digit status code and a fixed description, and renders
    as "Status Code: <code>. <description>". */
module ErrCodes {
  import opened Options
  import opened Text

  /** The usage line appended to the two command-line error descriptions. */
  const Usage: string := "Usage: valdate.bat puzzleName.txt"

  datatype ErrCode =
    | MissingSudokuFile
    | UnableToReadSudokuFile
    | WrongSudokuFilename
    | InvalidSudokuFileformat
    | MissingDigitsInRow
    | TooManyDigitsInRow
    | InvalidCharactersInRow
    | NotEnoughRowsInGrid
    | TooManyRowsInGrid
    | NumberAlreadyUsed

  /** The three families the catalogue groups its kinds into. */
  datatype Family = FileError | StructureError | LogicError

  /** The kinds in declaration order. */
  const AllKinds: seq<ErrCode> := [
    MissingSudokuFile, UnableToReadSudokuFile, WrongSudokuFilename, InvalidSudokuFileformat,
    MissingDigitsInRow, TooManyDigitsInRow, InvalidCharactersInRow, NotEnoughRowsInGrid,
    TooManyRowsInGrid, NumberAlreadyUsed
  ]

  /** The kind's status code: always four decimal digits. */
  function StatusCode(k: ErrCode): (s: string)
    ensures |s| == 4 && AllDigits(s)
  {
    match k
    case MissingSudokuFile => "1001"
    case UnableToReadSudokuFile => "1002"
    case WrongSudokuFilename => "1003"
    case InvalidSudokuFileformat => "1004"
    case MissingDigitsInRow => "2001"
    case TooManyDigitsInRow => "2002"
    case InvalidCharactersInRow => "2003"
    case NotEnoughRowsInGrid => "2004"
    case TooManyRowsInGrid => "2005"
    case NumberAlreadyUsed => "3001"
  }

  function Description(k: ErrCode): string {
    match k
    case MissingSudokuFile => "Missing Sudoku filename. " + Usage
    case UnableToReadSudokuFile => "Failed to read file"
    case WrongSudokuFilename =>
      "Invalid filename. Please use a file conforming to the extension '*.txt'. " + Usage
    case InvalidSudokuFileformat => "Invalid file format. File must contain comma-separated values. "
    case MissingDigitsInRow => "Not enough digits in row. Exactly 9 digits allowed. "
    case TooManyDigitsInRow => "Too many digits in row.  Exactly 9 columns allowed. "
    case InvalidCharactersInRow => "Invalid character in row. Only digits betweeen 1 and 9 are allowed. "
    case NotEnoughRowsInGrid => "Not enough rows in grid.  Exactly 9 rows allowed. "
    case TooManyRowsInGrid => "Too many rows in grid.  Exactly 9 rows allowed. "
    case NumberAlreadyUsed => "Number has already been used in this solution complex. Has been replaced by 'X'"
  }

  /** The family each kind is declared under. */
  function FamilyOf(k: ErrCode): Family {
    match k
    case MissingSudokuFile | UnableToReadSudokuFile | WrongSudokuFilename | InvalidSudokuFileformat =>
      FileError
    case MissingDigitsInRow | TooManyDigitsInRow | InvalidCharactersInRow
      | NotEnoughRowsInGrid | TooManyRowsInGrid =>
      StructureError
    case NumberAlreadyUsed => LogicError
  }

  /** The numeric value of a kind's status code. */
  function Code(k: ErrCode): nat {
    match k
    case MissingSudokuFile => 1001
    case UnableToReadSudokuFile => 1002
    case WrongSudokuFilename => 1003
    case InvalidSudokuFileformat => 1004
    case MissingDigitsInRow => 2001
    case TooManyDigitsInRow => 2002
    case InvalidCharactersInRow => 2003
    case NotEnoughRowsInGrid => 2004
    case TooManyRowsInGrid => 2005
    case NumberAlreadyUsed => 3001
  }

  /** `getErrMessage`. */
  function ErrMessage(k: ErrCode): string {
    "Status Code: " + StatusCode(k) + ". " + Description(k)
  }

  /** `toString` renders the same text as `getErrMessage`. */
  function ToString(k: ErrCode): string {
    ErrMessage(k)
  }

  /** The kind a status code names, if any. */
  function KindOfCode(code: string): (r: Option<ErrCode>)
    ensures r.Some? ==> StatusCode(r.value) == code
  {
    if code == "1001" then Some(MissingSudokuFile)
    else if code == "1002" then Some(UnableToReadSudokuFile)
    else if code == "1003" then Some(WrongSudokuFilename)
    else if code == "1004" then Some(InvalidSudokuFileformat)
    else if code == "2001" then Some(MissingDigitsInRow)
    else if code == "2002" then Some(TooManyDigitsInRow)
    else if code == "2003" then Some(InvalidCharactersInRow)
    else if code == "2004" then Some(NotEnoughRowsInGrid)
    else if code == "2005" then Some(TooManyRowsInGrid)
    else if code == "3001" then Some(NumberAlreadyUsed)
    else None
  }

  /** The kind a rendered message reports, read from its status-code field. */
  function KindOfMessage(m: string): Option<ErrCode> {
    if 19 <= |m| && m[..13] == "Status Code: " && m[17..19] == ". " then KindOfCode(m[13..17]) else None
  }

  /** The catalogue lists exactly ten kinds, each once, with the codes
      1001, 1002, 1003, 1004, 2001 .. 2005, 3001 in declaration order. */
  lemma CatalogueInDeclarationOrder()
    ensures |AllKinds| == 10
    ensures forall k: ErrCode :: k in AllKinds
    ensures forall i, j | 0 <= i < j < |AllKinds| :: Code(AllKinds[i]) < Code(AllKinds[j])
    ensures forall i, j | 0 <= i < j < |AllKinds| :: AllKinds[i] != AllKinds[j]
    ensures forall i | 0 <= i < |AllKinds| ::
              Code(AllKinds[i]) == [1001, 1002, 1003, 1004, 2001, 2002, 2003, 2004, 2005, 3001][i]
  {
    forall k: ErrCode ensures k in AllKinds {
      match k
      case MissingSudokuFile => assert AllKinds[0] == k;
      case UnableToReadSudokuFile => assert AllKinds[1] == k;
      case WrongSudokuFilename => assert AllKinds[2] == k;
      case InvalidSudokuFileformat => assert AllKinds[3] == k;
      case MissingDigitsInRow => assert AllKinds[4] == k;
      case TooManyDigitsInRow => assert AllKinds[5] == k;
      case InvalidCharactersInRow => assert AllKinds[6] == k;
      case NotEnoughRowsInGrid => assert AllKinds[7] == k;
      case TooManyRowsInGrid => assert AllKinds[8] == k;
      case NumberAlreadyUsed => assert AllKinds[9] == k;
    }
  }

  /** A four-digit number renders as its four digits. */
  lemma FourDigitString(n: nat)
    requires 1000 <= n <= 9999
    ensures DecimalString(n) == [DigitChar(n / 1000), DigitChar(n / 100 % 10), DigitChar(n / 10 % 10), DigitChar(n % 10)]
  {
    assert n / 10 / 10 == n / 100 && n / 100 / 10 == n / 1000;
    assert DecimalString(n / 1000) == [DigitChar(n / 1000)];
    assert DecimalString(n / 100) == [DigitChar(n / 1000)] + [DigitChar(n / 100 % 10)];
    assert DecimalString(n / 10) == [DigitChar(n / 1000)] + [DigitChar(n / 100 % 10)] + [DigitChar(n / 10 % 10)];
    assert DecimalString(n) == DecimalString(n / 10) + [DigitChar(n % 10)];
  }

  /** Each status code is the decimal rendering of its numeric value. */
  lemma CodeIsDecimal(k: ErrCode)
    ensures StatusCode(k) == DecimalString(Code(k))
  {
    FourDigitString(Code(k));
  }

  /** Reading a status code as a decimal number gives the kind's numeric
      code, so the string codes and the numeric codes carry the same
      information. */
  lemma CodeReadsBack(k: ErrCode)
    ensures DecimalValue(StatusCode(k)) == Code(k)
  {
    CodeIsDecimal(k);
    DecimalRoundTrip(Code(k));
  }

  /** A status code names exactly one kind: reading it back gives the kind,
      and no other code reads as that kind. */
  lemma CodeDeterminesKind(k: ErrCode, code: string)
    ensures KindOfCode(StatusCode(k)) == Some(k)
    ensures KindOfCode(code) == Some(k) ==> code == StatusCode(k)
    ensures StatusCode(k) == code ==> KindOfCode(code) == Some(k)
  {
  }

  /** No two kinds share a status code. */
  lemma StatusCodesDistinct(a: ErrCode, b: ErrCode)
    requires StatusCode(a) == StatusCode(b)
    ensures a == b
  {
    CodeDeterminesKind(a, StatusCode(a));
    CodeDeterminesKind(b, StatusCode(b));
  }

  /** File errors lie in 1001..1999, structure errors in 2001..2999 and
      logic errors in 3001..3999. */
  lemma FamilyRanges(k: ErrCode)
    ensures FamilyOf(k) == FileError ==> 1001 <= Code(k) <= 1999
    ensures FamilyOf(k) == StructureError ==> 2001 <= Code(k) <= 2999
    ensures FamilyOf(k) == LogicError ==> 3001 <= Code(k) <= 3999
  {
  }

  /** Splitting "Status Code: " + code + ". " + text back into its fields. */
  lemma MessageFields(code: string, text: string)
    requires |code| == 4
    ensures var m := "Status Code: " + code + ". " + text;
      && 19 <= |m| && m[..13] == "Status Code: " && m[13..17] == code
      && m[17..19] == ". " && m[19..] == text
  {
  }

  /** Both `getErrMessage` and `toString` start with the "Status Code: "
      label, name the kind they were rendered from, and end with its
      description. */
  lemma MessageNamesKind(k: ErrCode)
    ensures "Status Code: " <= ErrMessage(k)
    ensures ToString(k) == ErrMessage(k)
    ensures KindOfMessage(ErrMessage(k)) == Some(k)
    ensures ErrMessage(k)[19..] == Description(k)
  {
    MessageFields(StatusCode(k), Description(k));
    CodeDeterminesKind(k, StatusCode(k));
  }

  /** The two command-line error descriptions end with the usage line. */
  lemma UsageAppended()
    ensures EndsWith(Description(MissingSudokuFile), Usage)
    ensures EndsWith(Description(WrongSudokuFilename), Usage)
  {
  }
}
