/** The original Python 2 script tesseract.py: the engine's command, the
    error-line filter, `image_to_string` with its two temporary files, and
    the command-line check. Saving the image, running the engine and reading
    or removing files are not modelled: their results are given as values. */
module Original {
  import opened Wrappers
  import opened Text
  import Command
  import Cli

  // ---------------------------------------------------------------- argv

  /** `run_tesseract`'s command: the engine, its input and output base, and
      `-l <lang>` when a language is given. */
  function RunArgv(cmd: string, input: string, outBase: string, lang: Option<string>): (r: seq<string>)
    ensures |r| >= 3 && r[..3] == [cmd, input, outBase]
    ensures r[3..] == Command.LangArgs(lang)
  {
    [cmd, input, outBase] + Command.LangArgs(lang)
  }

  /** The original command is what the current module builds with its
      defaults: no niceness, no config and no output kind. */
  lemma {:induction false} CurrentWithDefaults(platform: string, cmd: string, input: string, outBase: string,
                            lang: Option<string>, shlex: Command.Tokenizer)
    ensures Command.RunArgv(platform, 0, cmd, input, outBase, lang, "", "", shlex) == Success(RunArgv(cmd, input, outBase, lang))
  {
    var r := Command.RunArgv(platform, 0, cmd, input, outBase, lang, "", "", shlex);
    assert Words("") == [];
    assert Command.Positional([]) == [];
    assert Command.NiceArgs(platform != "win32", 0) == [];
    assert r.Success?;
    var langPart := Command.LangArgs(lang);
    assert |r.value| == 3 + |langPart|;
    assert r.value[..3] == [cmd, input, outBase];
    assert r.value[3..] == langPart;
    assert r.value == r.value[..3] + r.value[3..];
  }

  // ---------------------------------------------------------------- errors

  /** The lines that contain `Error`, in order. */
  function ErrorLines(lines: seq<string>): (r: seq<string>)
    ensures |r| <= |lines|
    ensures forall x :: x in r <==> x in lines && Contains(x, "Error")
  {
    if |lines| == 0 then []
    else
      var rest := ErrorLines(lines[1..]);
      assert forall x :: x in lines <==> x == lines[0] || x in lines[1..];
      if Contains(lines[0], "Error") then [lines[0]] + rest else rest
  }

  /** Filtering works line by line, so the order is kept. */
  lemma {:induction false} ErrorLinesAppend(a: seq<string>, b: seq<string>)
    ensures ErrorLines(a + b) == ErrorLines(a) + ErrorLines(b)
    decreases |a|
  {
    if |a| == 0 {
      assert a + b == b;
    } else {
      assert (a + b)[0] == a[0];
      assert (a + b)[1..] == a[1..] + b;
      ErrorLinesAppend(a[1..], b);
    }
  }

  /** `get_errors`: the lines of the standard error (a Python 2 byte string)
      that contain `Error`, joined with newlines. The result is empty exactly
      when no line qualifies, and otherwise cuts at its newlines into those
      lines again. */
  function GetErrors(stderr: string): (r: string)
    ensures r == "" <==> ErrorLines(SplitLines(stderr, ByteLines)) == []
    ensures r != "" ==> Split(r, "\n") == ErrorLines(SplitLines(stderr, ByteLines))
  {
    var kept := ErrorLines(SplitLines(stderr, ByteLines));
    KeptOneLine(SplitLines(stderr, ByteLines));
    KeptJoin(kept);
    Join(kept, "\n")
  }

  /** Lines that hold `Error` and no newline join to a text that is empty
      only without lines, and that splits back into them. */
  lemma {:induction false} KeptJoin(kept: seq<string>)
    requires forall i :: 0 <= i < |kept| ==> Contains(kept[i], "Error") && !Contains(kept[i], "\n")
    ensures Join(kept, "\n") == "" <==> kept == []
    ensures kept != [] ==> Split(Join(kept, "\n"), "\n") == kept
  {
    if kept != [] {
      SplitJoin(kept, "\n");
      JoinErrorNotEmpty(kept);
    }
  }

  /** Kept lines hold `Error` and no newline. */
  lemma {:induction false} KeptOneLine(lines: seq<string>)
    requires forall i :: 0 <= i < |lines| ==> NoLineBreak(lines[i], ByteLines)
    ensures forall i :: 0 <= i < |ErrorLines(lines)| ==>
      Contains(ErrorLines(lines)[i], "Error") && !Contains(ErrorLines(lines)[i], "\n")
  {
    var kept := ErrorLines(lines);
    forall i | 0 <= i < |kept|
      ensures Contains(kept[i], "Error") && !Contains(kept[i], "\n")
    {
      assert kept[i] in kept;
      var j :| 0 <= j < |lines| && lines[j] == kept[i];
      AbsentChar(kept[i], "\n");
    }
  }

  /** Lines that hold `Error` do not join to nothing. */
  lemma {:induction false} JoinErrorNotEmpty(kept: seq<string>)
    requires |kept| > 0 && Contains(kept[0], "Error")
    ensures Join(kept, "\n") != ""
  {
    if |kept| > 1 {
      assert Join(kept, "\n") == kept[0] + "\n" + Join(kept[1..], "\n");
    }
  }

  /** For a standard error made of whole lines, ended by a newline or not,
      the message is exactly the lines that mention `Error`. */
  lemma {:induction false} GetErrorsOfLines(lines: seq<string>)
    requires |lines| > 0
    requires forall i :: 0 <= i < |lines| ==> NoLineBreak(lines[i], ByteLines)
    ensures GetErrors(Join(lines, "\n") + "\n") == Join(ErrorLines(lines), "\n")
    ensures lines[|lines| - 1] != [] ==> GetErrors(Join(lines, "\n")) == Join(ErrorLines(lines), "\n")
  {
    SplitLinesJoinNewline(lines, ByteLines);
    if lines[|lines| - 1] != [] {
      SplitLinesJoin(lines, ByteLines);
    }
  }

  // ---------------------------------------------------------------- image_to_string

  /** The parameters of `TesseractError.__init__` as written: the object
      itself is missing. */
  const AsWrittenInitParams: seq<string> := ["status", "message"]

  /** The parameters with the object in front, as every method takes it. */
  const FixedInitParams: seq<string> := ["self", "status", "message"]

  /** What leaves `image_to_string`: the `TypeError` of a constructor called
      with the wrong number of arguments, the `TesseractError` it meant to
      raise, or the `IOError` of a missing output file. */
  datatype ScriptError = TypeError | TesseractError(status: int, message: string) | IOError(file: string)

  /** `raise TesseractError(status, errors)`: Python hands `__init__` the new
      object and the two arguments, so unless it takes exactly three
      parameters the call is a `TypeError`. */
  function Raise(params: seq<string>, status: int, message: string): (e: ScriptError)
    ensures e.TesseractError? <==> |params| == 1 + 2
    ensures e.TesseractError? ==> e.status == status && e.message == message
    ensures !e.TesseractError? ==> e == TypeError
  {
    if |params| == 1 + 2 then TesseractError(status, message) else TypeError
  }

  /** One call: what it returns or raises, whether the output file was read,
      and the files the `finally` clause removes. */
  datatype Outcome = Outcome(result: Result<string, ScriptError>, read: bool, removed: seq<string>)

  /** `image_to_string` given the two temporary names, the engine's status and
      standard error, and the output file's content if it exists: the image
      is `<name>.bmp`, the text `<base>.txt`; a non-zero status raises before
      anything is read; the text is stripped of ASCII whitespace only, as a
      Python 2 byte string is; both files are removed on every path. */
  function ImageToString(params: seq<string>, inputName: string, outBase: string,
                         status: int, stderr: string, output: Option<string>): (r: Outcome)
    ensures r.removed == [inputName + ".bmp", outBase + ".txt"]
    ensures r.read <==> status == 0
    ensures status != 0 ==> r.result == Failure(Raise(params, status, GetErrors(stderr)))
    ensures status == 0 && output.None? ==> r.result == Failure(IOError(outBase + ".txt"))
    ensures status == 0 && output.Some? ==>
      && r.result.Success?
      && ByteTrimmed(r.result.value)
      && ByteMiddle(output.value, ByteLead(output.value), r.result.value)
      && Words(r.result.value) == Words(output.value)
  {
    var input := inputName + ".bmp";
    var text := outBase + ".txt";
    StrippedOutput(output);
    var result :=
      if status != 0 then Failure(Raise(params, status, GetErrors(stderr)))
      else if output.None? then Failure(IOError(text))
      else Success(ByteStrip(output.value));
    Outcome(result, status == 0, [input, text])
  }

  lemma {:induction false} StrippedOutput(output: Option<string>)
    ensures output.Some? ==> Words(ByteStrip(output.value)) == Words(output.value)
  {
    if output.Some? {
      ByteStripWords(output.value);
    }
  }

  /** Only ASCII whitespace is stripped: a trailing information separator
      (`\x1c`), which Python 3 would strip as whitespace, stays. */
  lemma {:induction false} SeparatorKept(inputName: string, outBase: string)
    ensures ImageToString(FixedInitParams, inputName, outBase, 0, "", Some("abc\U{1C}")).result == Success("abc\U{1C}")
    ensures Strip("abc\U{1C}") == "abc"
  {
    ByteStripTrimmed("abc\U{1C}");
    var s := "abc\U{1C}";
    StripTrailing("abc", "\U{1C}");
    assert s == "abc" + "\U{1C}";
  }

  /** As written, a failing engine run surfaces as a `TypeError` and its
      status and error lines are lost. */
  lemma {:induction false} AsWrittenRaisesTypeError(inputName: string, outBase: string, status: int, stderr: string, output: Option<string>)
    requires status != 0
    ensures ImageToString(AsWrittenInitParams, inputName, outBase, status, stderr, output).result == Failure(TypeError)
  {
  }

  /** With `self` in place, a failing run raises `TesseractError` carrying the
      status and the error lines. */
  lemma {:induction false} FixedRaisesTesseractError(inputName: string, outBase: string, status: int, stderr: string, output: Option<string>)
    requires status != 0
    ensures ImageToString(FixedInitParams, inputName, outBase, status, stderr, output).result ==
      Failure(TesseractError(status, GetErrors(stderr)))
  {
  }

  /** The two temporary files are always different files: one ends in `.bmp`, the other in `.txt`. */
  lemma {:induction false} FilesDistinct(inputName: string, outBase: string, status: int, stderr: string, output: Option<string>)
    ensures var r := ImageToString(FixedInitParams, inputName, outBase, status, stderr, output);
      r.removed[0] != r.removed[1]
  {
    var a, b := inputName + ".bmp", outBase + ".txt";
    assert a[|a| - 1] == 'p' && b[|b| - 1] == 't';
  }

  // ---------------------------------------------------------------- command line

  /** The status the script exits with on a usage error. */
  const UsageStatus: int := 1

  /** The command-line check: exactly one argument, the image file; anything
      else exits with status 1. */
  function MainArgs(argv: seq<string>): (r: Result<string, int>)
    ensures r.Success? <==> |argv| == 2
    ensures r.Success? ==> r.value == argv[1]
    ensures r.Failure? ==> r.error == UsageStatus
  {
    if |argv| != 2 then Failure(UsageStatus) else Success(argv[1])
  }

  /** The script accepts exactly the vectors the current `main` accepts
      without a language, and reads the same file from them. */
  lemma {:induction false} MainArgsAgree(argv: seq<string>)
    ensures MainArgs(argv).Success? <==> Cli.ParseArgs(argv).Some? && Cli.ParseArgs(argv).value.lang.None?
    ensures MainArgs(argv).Success? ==> MainArgs(argv).value == Cli.ParseArgs(argv).value.file
  {
  }
}
