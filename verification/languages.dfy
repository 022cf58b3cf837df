/** `get_languages` of pytesseract/pytesseract.py: the engine's
    `--list-langs` output is cut into lines, each line is stripped, and the
    lines that are language codes (`^[a-z_]+$`) are kept in order. The
    process is not modelled: it either could not start or exited with a
    status and an output. */
module Languages {
  import opened Wrappers
  import opened Text
  import Command

  /** What `subprocess.run([cmd, '--list-langs', ...])` did. */
  datatype ListRun = CannotRun | Ran(returncode: int, stdout: string)

  /** `TesseractNotFoundError`, or the config string `shlex` rejected. */
  datatype LanguagesError = TesseractNotFound | BadConfig(config: string)

  predicate IsLangChar(c: char) {
    ('a' <= c <= 'z') || c == '_'
  }

  /** `LANG_PATTERN.match(s)`: one or more lower-case ASCII letters or `_`. */
  predicate IsLangName(s: string) {
    |s| > 0 && forall i :: 0 <= i < |s| ==> IsLangChar(s[i])
  }

  /** The command line: the engine with `--list-langs`, then the config
      tokens (POSIX rules) when a config is given. */
  function ListArgv(cmd: string, config: string, shlex: Command.Tokenizer): (r: Result<seq<string>, LanguagesError>)
    ensures r.Failure? <==> config != "" && shlex(config, true).None?
    ensures r.Failure? ==> r.error == BadConfig(config)
    ensures r.Success? ==> |r.value| >= 2 && r.value[..2] == [cmd, "--list-langs"]
    ensures r.Success? && config == "" ==> |r.value| == 2
    ensures r.Success? && config != "" ==> r.value[2..] == shlex(config, true).value
  {
    var tokens := Command.ConfigTokens(config, true, shlex);
    if tokens.None? then Failure(BadConfig(config))
    else Success([cmd, "--list-langs"] + tokens.value)
  }

  /** Every line stripped. */
  function StripAll(lines: seq<string>): (r: seq<string>)
    ensures |r| == |lines|
    ensures forall i :: 0 <= i < |lines| ==> r[i] == Strip(lines[i])
  {
    seq(|lines|, i requires 0 <= i < |lines| => Strip(lines[i]))
  }

  /** The entries that are language codes, in order. */
  function KeepLanguages(names: seq<string>): (r: seq<string>)
    ensures |r| <= |names|
    ensures forall x :: x in r <==> x in names && IsLangName(x)
  {
    if |names| == 0 then []
    else
      var rest := KeepLanguages(names[1..]);
      assert forall x :: x in names <==> x == names[0] || x in names[1..];
      if IsLangName(names[0]) then [names[0]] + rest else rest
  }

  /** `get_languages(config)` from the process on: a process that cannot start
      or exits with a status other than 0 or 1 means the engine is missing;
      otherwise the output is cut at `linesep`, every line stripped, and the
      language codes kept. */
  function GetLanguages(run: ListRun, linesep: string): (r: Result<seq<string>, LanguagesError>)
    requires |linesep| > 0
    ensures r.Failure? <==> run.CannotRun? || (run.returncode != 0 && run.returncode != 1)
    ensures r.Failure? ==> r.error == TesseractNotFound
    ensures r.Success? && run.stdout == "" ==> r.value == []
    ensures r.Success? ==> forall x :: x in r.value <==>
      IsLangName(x) && x in StripAll(Split(run.stdout, linesep))
  {
    match run
    case CannotRun => Failure(TesseractNotFound)
    case Ran(code, stdout) =>
      if code != 0 && code != 1 then Failure(TesseractNotFound)
      else if stdout == "" then Success([])
      else Success(KeepLanguages(StripAll(Split(stdout, linesep))))
  }

  // ---------------------------------------------------------------- properties

  /** Filtering works entry by entry, so the order of the output is kept. */
  lemma {:induction false} KeepAppend(a: seq<string>, b: seq<string>)
    ensures KeepLanguages(a + b) == KeepLanguages(a) + KeepLanguages(b)
    decreases |a|
  {
    if |a| == 0 {
      assert a + b == b;
    } else {
      assert (a + b)[0] == a[0];
      assert (a + b)[1..] == a[1..] + b;
      KeepAppend(a[1..], b);
    }
  }

  /** Language codes are kept exactly. */
  lemma {:induction false} KeepNames(names: seq<string>)
    requires forall i :: 0 <= i < |names| ==> IsLangName(names[i])
    ensures KeepLanguages(names) == names
    decreases |names|
  {
    if |names| > 0 {
      KeepNames(names[1..]);
    }
  }

  /** Language codes have nothing to strip. */
  lemma {:induction false} StripNames(names: seq<string>)
    requires forall i :: 0 <= i < |names| ==> IsLangName(names[i])
    ensures StripAll(names) == names
  {
    forall i | 0 <= i < |names|
      ensures Strip(names[i]) == names[i]
    {
      NameTrimmed(names[i]);
    }
  }

  /** A language code starts and ends with a letter or `_`. */
  lemma {:induction false} NameTrimmed(name: string)
    requires IsLangName(name)
    ensures Strip(name) == name
  {
    assert IsLangChar(name[0]) && IsLangChar(name[|name| - 1]);
    StripTrimmed(name);
  }

  /** The listing's lines split back apart. */
  lemma {:induction false} ListingLines(title: string, names: seq<string>)
    requires !Contains(title, "\n")
    requires forall i :: 0 <= i < |names| ==> IsLangName(names[i])
    ensures Split(Join([title] + names + [""], "\n"), "\n") == [title] + names + [""]
  {
    var lines := [title] + names + [""];
    forall i | 0 <= i < |lines|
      ensures !Contains(lines[i], "\n")
    {
      if 0 < i < |lines| - 1 {
        assert lines[i] == names[i - 1];
        NameOneLine(names[i - 1]);
      } else if i == |lines| - 1 {
        assert lines[i] == "";
        assert !OccursAt("", "\n", 0);
      }
    }
    SplitJoin(lines, "\n");
  }

  /** A language code has no newline. */
  lemma {:induction false} NameOneLine(name: string)
    requires IsLangName(name)
    ensures !Contains(name, "\n")
  {
    AbsentChar(name, "\n");
  }

  /** Of the listing's stripped lines exactly the codes are kept. */
  lemma {:induction false} ListingKept(title: string, names: seq<string>)
    requires !IsLangName(Strip(title))
    requires forall i :: 0 <= i < |names| ==> IsLangName(names[i])
    ensures KeepLanguages(StripAll([title] + names + [""])) == names
  {
    StripListing(title, names);
    KeepAppend([Strip(title)] + names, [""]);
    KeepAppend([Strip(title)], names);
    KeepNames(names);
  }

  /** Stripping the listing touches only its title. */
  lemma {:induction false} StripListing(title: string, names: seq<string>)
    requires forall i :: 0 <= i < |names| ==> IsLangName(names[i])
    ensures StripAll([title] + names + [""]) == [Strip(title)] + names + [""]
  {
    StripAllAppend([title] + names, [""]);
    StripAllAppend([title], names);
    StripNames(names);
    assert StripAll([""]) == [""] by {
      assert Strip("") == "";
    }
    assert StripAll([title]) == [Strip(title)];
  }

  /** Lines are stripped one by one, so stripping works piecewise. */
  lemma {:induction false} StripAllAppend(a: seq<string>, b: seq<string>)
    ensures StripAll(a + b) == StripAll(a) + StripAll(b)
  {
    var ab := a + b;
    assert ab[0..|a|] == a && ab[|a|..|ab|] == b;
    calc {
      StripAll(ab);
      StripAll(ab)[0..|a|] + StripAll(ab)[|a|..|ab|];
      { StripAllSlice(ab, 0, |a|); StripAllSlice(ab, |a|, |ab|); }
      StripAll(ab[0..|a|]) + StripAll(ab[|a|..|ab|]);
    }
  }

  /** Stripping commutes with taking a slice of the listing. */
  lemma {:induction false} StripAllSlice(s: seq<string>, lo: nat, hi: nat)
    requires lo <= hi <= |s|
    ensures StripAll(s)[lo..hi] == StripAll(s[lo..hi])
  {
  }



  /** The usual listing: a title line that is not a language code, one code
      per line and a final newline, gives back exactly the codes. */
  lemma {:induction false} ListedNames(title: string, names: seq<string>)
    requires !Contains(title, "\n") && !IsLangName(Strip(title))
    requires forall i :: 0 <= i < |names| ==> IsLangName(names[i])
    ensures GetLanguages(Ran(0, Join([title] + names + [""], "\n")), "\n") == Success(names)
  {
    ListingLines(title, names);
    ListingKept(title, names);
    JoinNonEmpty([title] + names + [""]);
  }

  /** A join that holds a non-empty title is not empty. */
  lemma {:induction false} JoinNonEmpty(lines: seq<string>)
    requires |lines| >= 2
    ensures Join(lines, "\n") != ""
  {
    assert Join(lines, "\n") == lines[0] + "\n" + Join(lines[1..], "\n");
  }
}
