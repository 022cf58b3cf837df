/** The argument vector `run_tesseract` of pytesseract/pytesseract.py hands to
    the engine. Shell-style splitting of the config string (`shlex.split`) is
    not modelled: it is a parameter that returns `None` where `shlex` raises
    `ValueError`. */
module Command {
  import opened Wrappers
  import opened Text
  import opened Numbers

  /** `shlex.split(s, posix=...)`. */
  type Tokenizer = (string, bool) -> Option<seq<string>>

  /** The config string could not be tokenized. */
  datatype CommandError = ConfigError(config: string)

  /** Output kinds the engine selects through config variables rather than a
      positional argument. */
  predicate IsImplicitKind(w: string) {
    w == "box" || w == "osd" || w == "tsv" || w == "xml"
  }

  /** The output-kind tokens passed positionally: every token that is not an
      implicit kind, in order. */
  function Positional(ws: seq<string>): (r: seq<string>)
    ensures |r| <= |ws|
  {
    if |ws| == 0 then []
    else if IsImplicitKind(ws[0]) then Positional(ws[1..])
    else [ws[0]] + Positional(ws[1..])
  }

  /** A token is passed positionally exactly when it is not an implicit kind. */
  lemma {:induction false} PositionalMembers(ws: seq<string>)
    ensures forall w :: w in Positional(ws) <==> w in ws && !IsImplicitKind(w)
    decreases |ws|
  {
    if |ws| > 0 {
      PositionalMembers(ws[1..]);
      assert forall w :: w in ws <==> w == ws[0] || w in ws[1..];
    }
  }

  /** Tokens are filtered one by one, so order is kept. */
  lemma {:induction false} PositionalAppend(a: seq<string>, b: seq<string>)
    ensures Positional(a + b) == Positional(a) + Positional(b)
    decreases |a|
  {
    if |a| == 0 {
      assert a + b == b;
    } else {
      assert (a + b)[0] == a[0];
      assert (a + b)[1..] == a[1..] + b;
      PositionalAppend(a[1..], b);
    }
  }

  /** `nice -n <nice>` off Windows, for a non-zero niceness. */
  function NiceArgs(notWindows: bool, nice: int): (r: seq<string>)
    ensures r != [] <==> notWindows && nice != 0
    ensures r != [] ==> |r| == 3 && r[0] == "nice" && r[1] == "-n" && ParseInt(r[2]) == Some(nice)
  {
    ParseIntString(nice);
    if notWindows && nice != 0 then ["nice", "-n", IntToString(nice)] else []
  }

  /** `-l <lang>` when a language is given. */
  function LangArgs(lang: Option<string>): (r: seq<string>)
    ensures lang.None? ==> r == []
    ensures lang.Some? ==> |r| == 2 && r[0] == "-l" && r[1] == lang.value
  {
    if lang.Some? then ["-l", lang.value] else []
  }

  /** The config tokens: none for an empty config, otherwise `shlex.split`
      with POSIX rules off Windows. */
  function ConfigTokens(config: string, notWindows: bool, shlex: Tokenizer): (r: Option<seq<string>>)
    ensures config == "" ==> r == Some([])
    ensures config != "" ==> r == shlex(config, notWindows)
  {
    if config == "" then Some([]) else shlex(config, notWindows)
  }

  /** `run_tesseract`'s argument vector: the optional `nice` prefix, the engine
      with its input and output base, the optional language, then the config
      tokens and last the positional output kinds. A config `shlex` rejects
      fails before anything runs. */
  function RunArgv(platform: string, nice: int, cmd: string, input: string, outBase: string,
                   lang: Option<string>, config: string, extension: string, shlex: Tokenizer): (r: Result<seq<string>, CommandError>)
    ensures var tokens := ConfigTokens(config, platform != "win32", shlex);
      && (r.Failure? <==> tokens.None?)
      && (r.Failure? ==> r.error == ConfigError(config))
      && (r.Success? ==>
            var nicePart := NiceArgs(platform != "win32", nice);
            var langPart := LangArgs(lang);
            var outs := Positional(Words(extension));
            Laid(r.value, nicePart, [cmd, input, outBase], langPart, tokens.value, outs))
  {
    var tokens := ConfigTokens(config, platform != "win32", shlex);
    if tokens.None? then Failure(ConfigError(config))
    else
      var nicePart := NiceArgs(platform != "win32", nice);
      var langPart := LangArgs(lang);
      var outs := Positional(Words(extension));
      Layout(nicePart, [cmd, input, outBase], langPart, tokens.value, outs);
      Success(nicePart + [cmd, input, outBase] + langPart + tokens.value + outs)
  }

  /** `s` holds the five parts one after another: its length is theirs
      together and each part sits at its own offset. */
  predicate Laid(s: seq<string>, a: seq<string>, b: seq<string>, c: seq<string>, d: seq<string>, e: seq<string>) {
    && |s| == |a| + |b| + |c| + |d| + |e|
    && s[..|a|] == a
    && s[|a|..|a| + |b|] == b
    && s[|a| + |b|..|a| + |b| + |c|] == c
    && s[|a| + |b| + |c|..|s| - |e|] == d
    && s[|s| - |e|..] == e
  }

  /** Where each part of a five-part concatenation sits. */
  lemma {:induction false} Layout(a: seq<string>, b: seq<string>, c: seq<string>, d: seq<string>, e: seq<string>)
    ensures Laid(a + b + c + d + e, a, b, c, d, e)
  {
  }

  lemma {:induction false} TxtWord()
    ensures Words("txt") == ["txt"]
  {
    WordsOne("txt");
  }

  /** The plain text call off Windows with default arguments is exactly
      `tesseract <input> <base> txt`. */
  lemma {:induction false} PlainTextArgv(platform: string, cmd: string, input: string, outBase: string, shlex: Tokenizer)
    ensures RunArgv(platform, 0, cmd, input, outBase, None, "", "txt", shlex) == Success([cmd, input, outBase, "txt"])
  {
    var r := RunArgv(platform, 0, cmd, input, outBase, None, "", "txt", shlex);
    assert NiceArgs(platform != "win32", 0) == [];
    TxtWord();
    assert Positional(["txt"]) == ["txt"];
    assert LangArgs(None) == [];
    assert ConfigTokens("", platform != "win32", shlex) == Some([]);
    assert r.Success?;
    assert |r.value| == 4;
    assert r.value[0..3] == [cmd, input, outBase];
    assert r.value[3..] == ["txt"];
    assert r.value == r.value[0..3] + r.value[3..];
    assert r.value == [cmd, input, outBase, "txt"];
  }
}
