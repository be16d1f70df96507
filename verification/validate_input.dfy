/** `SudokuValidate.validateInput`: the check on the command-line arguments
    made before any file is opened. The argument array and its first element
    may each be null (`None`). */
module InputCheck {
  import opened Options
  import opened Text
  import opened ErrCodes

  /** Only the first argument is looked at: a missing or empty argument list,
      or a blank first argument, is a missing file; a first argument that
      does not end in ".txt" is a wrong file name; anything else passes
      (`None`, Java's null). */
  function ValidateInput(args: Option<seq<Option<string>>>): (r: Option<ErrCode>)
    ensures r == Some(MissingSudokuFile) <==> args.None? || |args.value| == 0 || IsBlank(args.value[0])
    ensures r == Some(WrongSudokuFilename) <==>
              && args.Some? && |args.value| > 0 && !IsBlank(args.value[0])
              && !EndsWith(args.value[0].value, ".txt")
    ensures r.None? <==>
              && args.Some? && |args.value| > 0 && !IsBlank(args.value[0])
              && EndsWith(args.value[0].value, ".txt")
  {
    if args.None? || |args.value| == 0 then Some(MissingSudokuFile)
    else if IsBlank(args.value[0]) then Some(MissingSudokuFile)
    else if !EndsWith(args.value[0].value, ".txt") then Some(WrongSudokuFilename)
    else None
  }

  /** The first argument, when there is one. */
  function FirstArgument(args: Option<seq<Option<string>>>): Option<string> {
    if args.None? || |args.value| == 0 then None else args.value[0]
  }

  /** The verdict depends on the first argument alone: two argument lists
      with the same first argument get the same answer, whatever follows it. */
  lemma OnlyFirstArgumentMatters(args: Option<seq<Option<string>>>, other: Option<seq<Option<string>>>)
    requires FirstArgument(args) == FirstArgument(other)
    ensures ValidateInput(args) == ValidateInput(other)
  {
  }

  /** Any verdict is a file error, and its message ends with the usage line. */
  lemma RejectionShowsUsage(args: Option<seq<Option<string>>>)
    ensures var r := ValidateInput(args);
      r.Some? ==> FamilyOf(r.value) == FileError && EndsWith(ErrMessage(r.value), Usage)
  {
    var r := ValidateInput(args);
    if r.Some? {
      UsageAppended();
      SuffixOfSuffix("Status Code: " + StatusCode(r.value) + ". ", Description(r.value), Usage);
    }
  }

  /** A string that ends with `suffix` still does after something is put in
      front of it. */
  lemma SuffixOfSuffix(prefix: string, s: string, suffix: string)
    requires EndsWith(s, suffix)
    ensures EndsWith(prefix + s, suffix)
  {
    var w := prefix + s;
    assert w[|w| - |suffix|..] == s[|s| - |suffix|..];
  }

  /** The command-line tests' inputs (a null array, an empty name,
      "puzzle.log"), and a few more: no arguments, a null or whitespace-only
      name, other extensions (the test is case-sensitive), and a well-formed
      name followed by an extra argument. */
  lemma ArgumentExamples()
    ensures ValidateInput(None) == Some(MissingSudokuFile)
    ensures ValidateInput(Some([Some("")])) == Some(MissingSudokuFile)
    ensures ValidateInput(Some([Some("puzzle.log")])) == Some(WrongSudokuFilename)
    ensures ValidateInput(Some([])) == Some(MissingSudokuFile)
    ensures ValidateInput(Some([None])) == Some(MissingSudokuFile)
    ensures ValidateInput(Some([Some("   ")])) == Some(MissingSudokuFile)
    ensures ValidateInput(Some([Some("puzzle.csv")])) == Some(WrongSudokuFilename)
    ensures ValidateInput(Some([Some("puzzle.TXT")])) == Some(WrongSudokuFilename)
    ensures ValidateInput(Some([Some("puzzle.txt"), Some("extra")])) == None
  {
    assert !IsBlank(Some("puzzle.log")) by { assert !IsWhitespace("puzzle.log"[0]); }
    assert !IsBlank(Some("puzzle.csv")) by { assert !IsWhitespace("puzzle.csv"[0]); }
    assert !IsBlank(Some("puzzle.TXT")) by { assert !IsWhitespace("puzzle.TXT"[0]); }
    assert !IsBlank(Some("puzzle.txt")) by { assert !IsWhitespace("puzzle.txt"[0]); }
    assert "puzzle.txt"[6..] == ".txt";
  }
}
