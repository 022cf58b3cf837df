/** The command-line entry points: `main` of pytesseract/pytesseract.py and of
    src/pytesseract.py. Both accept `<prog> <file>` or `<prog> -l <lang>
    <file>` and answer anything else with a usage message and status 2. The
    image is not opened here: what the recognition did is given as a value. */
module Cli {
  import opened Wrappers

  /** The file to read and the language asked for, if any. */
  datatype Args = Args(file: string, lang: Option<string>)

  /** The argument vector the arguments come from, with `prog` in front. */
  function Argv(prog: string, args: Args): (argv: seq<string>)
    ensures |argv| == 2 || |argv| == 4
    ensures argv[0] == prog && argv[|argv| - 1] == args.file
  {
    match args.lang
    case None => [prog, args.file]
    case Some(lang) => [prog, "-l", lang, args.file]
  }

  /** The argument check of `main`: two entries name the file; four entries
      whose second is `-l` name the language and then the file; any other
      vector is a usage error. */
  function ParseArgs(argv: seq<string>): (r: Option<Args>)
    ensures r.Some? <==> |argv| == 2 || (|argv| == 4 && argv[1] == "-l")
    ensures r.Some? ==> r.value.file == argv[|argv| - 1]
    ensures r.Some? ==> (r.value.lang.Some? <==> |argv| == 4)
    ensures r.Some? && |argv| == 4 ==> r.value.lang == Some(argv[2])
  {
    if |argv| == 2 then Some(Args(argv[1], None))
    else if |argv| == 4 && argv[1] == "-l" then Some(Args(argv[3], Some(argv[2])))
    else None
  }

  /** Every well-formed vector is parsed back to its arguments. */
  lemma {:induction false} ParseArgv(prog: string, args: Args)
    ensures ParseArgs(Argv(prog, args)) == Some(args)
  {
  }

  /** Every accepted vector is the vector of what it parsed to. */
  lemma {:induction false} ArgvOfParse(argv: seq<string>)
    requires ParseArgs(argv).Some?
    ensures Argv(argv[0], ParseArgs(argv).value) == argv
  {
    if |argv| == 2 {
      assert argv == [argv[0], argv[1]];
    } else {
      assert argv == [argv[0], argv[1], argv[2], argv[3]];
    }
  }

  /** The status of `main` for a usage error. */
  const UsageStatus: int := 2

  /** What happened after the arguments were accepted: the text was printed,
      the engine was missing, opening or reading failed with an `OSError`, or
      some other exception left `main`. */
  datatype Outcome = Printed | EngineMissing | OsFailure | OtherRaised

  /** How the process ends: with a status, or with an exception that Python
      reports itself (its traceback and status 1 are not modelled). */
  datatype Exit = Status(code: int) | Uncaught

  /** `main` of the current module: status 2 for a usage error; status 1 when
      the engine is missing or an `OSError` is raised; status 0 after the
      text is printed; other exceptions are not caught. The `main` of
      src/pytesseract.py ends the same way under Python 3, where the `IOError`
      it catches is `OSError` and so covers the missing engine too. */
  function MainExit(argv: seq<string>, outcome: Outcome): (r: Exit)
    ensures ParseArgs(argv).None? ==> r == Status(UsageStatus)
    ensures ParseArgs(argv).Some? ==> (r == Status(0) <==> outcome == Printed)
    ensures ParseArgs(argv).Some? ==> (r == Status(1) <==> outcome in {EngineMissing, OsFailure})
    ensures r.Uncaught? <==> ParseArgs(argv).Some? && outcome == OtherRaised
  {
    if ParseArgs(argv).None? then Status(UsageStatus)
    else
      match outcome
      case Printed => Status(0)
      case EngineMissing => Status(1)
      case OsFailure => Status(1)
      case OtherRaised => Uncaught
  }

  /** The usage error does not depend on the recognition at all, and a usage
      error is never status 0 or 1. */
  lemma {:induction false} UsageIsDistinct(argv: seq<string>, a: Outcome, b: Outcome)
    requires ParseArgs(argv).None?
    ensures MainExit(argv, a) == MainExit(argv, b)
    ensures MainExit(argv, a) != Status(0) && MainExit(argv, a) != Status(1)
  {
  }
}
