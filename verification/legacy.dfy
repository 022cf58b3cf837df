/** The older module src/pytesseract.py apart from its `file_to_dict` (module
    `LegacyTsv`) and its `main` (module `Cli`): the engine's argument vector,
    the exit-status check, the choice of the saved image format and of the
    temporary file names, `prepare`, and what each `image_to_*` call asks
    of the engine. */
module Legacy {
  import opened Wrappers
  import opened Text
  import opened Numbers
  import opened OrderedDict
  import Command
  import Runner
  import Tsv
  import LegacyTsv
  import Facade

  // ---------------------------------------------------------------- nice

  /** The Python value given as `nice`: `None` or an integer. */
  datatype Nice = NoNice | NiceValue(n: int)

  /** `str(nice)`. */
  function NiceText(nice: Nice): (r: string)
    ensures nice.NoNice? ==> r == "None"
    ensures nice.NiceValue? ==> ParseInt(r) == Some(nice.n)
  {
    match nice
    case NoNice => "None"
    case NiceValue(n) => ParseIntString(n); IntToString(n)
  }

  /** `sys.platform.startswith('win32')`. */
  predicate OnWindows(platform: string) {
    |platform| >= 5 && platform[..5] == "win32"
  }

  /** The `nice -n <nice>` prefix as written: present off Windows whenever
      `nice != 0`, which `None` also satisfies. */
  function NicePrefix(platform: string, nice: Nice): (r: seq<string>)
    ensures r != [] <==> !OnWindows(platform) && nice != NiceValue(0)
    ensures r != [] ==> |r| == 3 && r[0] == "nice" && r[1] == "-n"
    ensures r != [] && nice.NiceValue? ==> ParseInt(r[2]) == Some(nice.n)
    ensures r != [] && nice.NoNice? ==> r[2] == "None"
  {
    if !OnWindows(platform) && nice != NiceValue(0) then ["nice", "-n", NiceText(nice)] else []
  }

  /** The default of `nice` in `run_and_get_output` as written. */
  const AsWrittenDefaultNice: Nice := NoNice

  /** `run_and_get_output` called without `nice` off Windows asks the system
      to run `nice -n None`, whose niceness is not a number. */
  lemma {:induction false} DefaultNiceBreaksCommand(platform: string)
    requires !OnWindows(platform)
    ensures NicePrefix(platform, AsWrittenDefaultNice) == ["nice", "-n", "None"]
    ensures ParseInt(NicePrefix(platform, AsWrittenDefaultNice)[2]).None?
  {
    NoneIsNoNumber();
  }

  /** `int('None')` fails. */
  lemma {:induction false} NoneIsNoNumber()
    ensures ParseInt("None").None?
  {
    var s := "None";
    assert Trimmed(s) by {
      assert s[0] == 'N' && s[|s| - 1] == 'e';
    }
    StripTrimmed(s);
    assert SignAndBody(s) == (false, s) by {
      assert s[0] == 'N';
    }
    assert !IsDigits(s) by {
      assert !IsDigit(s[0]);
    }
  }

  /** The default every `image_to_*` call passes, and the corrected default
      of `run_and_get_output`. */
  const DefaultNice: int := 0

  // ---------------------------------------------------------------- argv

  /** The positional output kind: the extension itself unless it is `box`. */
  function OutputKind(extension: string): (r: seq<string>)
    ensures r == [] <==> extension == "box"
    ensures r != [] ==> r == [extension]
  {
    if extension != "box" then [extension] else []
  }

  /** `run_tesseract`'s argument vector with the niceness an integer: the
      optional `nice` prefix, the engine with its input and output base, the
      optional language, the config tokens (POSIX rules, also for an empty
      config) and the output kind. */
  function RunArgv(platform: string, nice: int, cmd: string, input: string, outBase: string,
                   lang: Option<string>, config: string, extension: string, shlex: Command.Tokenizer): (r: Result<seq<string>, Command.CommandError>)
    ensures r.Failure? <==> shlex(config, true).None?
    ensures r.Failure? ==> r.error == Command.ConfigError(config)
    ensures r.Success? ==>
      var nicePart := NicePrefix(platform, NiceValue(nice));
      var langPart := Command.LangArgs(lang);
      var tokens := shlex(config, true).value;
      var outs := OutputKind(extension);
      Command.Laid(r.value, nicePart, [cmd, input, outBase], langPart, tokens, outs)
  {
    var tokens := shlex(config, true);
    if tokens.None? then Failure(Command.ConfigError(config))
    else
      var nicePart := NicePrefix(platform, NiceValue(nice));
      var langPart := Command.LangArgs(lang);
      var outs := OutputKind(extension);
      Command.Layout(nicePart, [cmd, input, outBase], langPart, tokens.value, outs);
      Success(nicePart + [cmd, input, outBase] + langPart + tokens.value + outs)
  }

  /** With the default niceness the vector starts with the engine, and the
      prefix, when there is one, carries a number `nice` accepts. */
  lemma {:induction false} DefaultRunArgv(platform: string, cmd: string, input: string, outBase: string,
                       lang: Option<string>, config: string, extension: string, shlex: Command.Tokenizer)
    requires shlex(config, true).Some?
    ensures RunArgv(platform, DefaultNice, cmd, input, outBase, lang, config, extension, shlex).Success?
    ensures RunArgv(platform, DefaultNice, cmd, input, outBase, lang, config, extension, shlex).value[..3] == [cmd, input, outBase]
  {
  }

  /** Unlike the current module, which leaves `osd`, `tsv` and `xml` to the
      config, the older one names every kind but `box` on the command line. */
  lemma {:induction false} KindsOnCommandLine(extension: string)
    requires extension in {"osd", "tsv", "xml"}
    ensures OutputKind(extension) == [extension]
    ensures Command.Positional(Words(extension)) == []
  {
    Facade.OutputKindArgument(extension);
  }

  // ---------------------------------------------------------------- status

  /** The status check of `run_tesseract`: a non-zero status raises
      `TesseractError` with the error lines (`get_errors` is the same function
      as in the current module); a zero status returns `True`. */
  function CheckStatus(status: int, stderr: string): (r: Result<bool, Runner.RunError>)
    ensures r.Success? <==> status == 0
    ensures r.Success? ==> r.value
    ensures r.Failure? ==> r.error.TesseractError? && r.error.status == status
    ensures r.Failure? ==> Trimmed(r.error.message) && NoLineBreak(r.error.message, TextLines)
  {
    if status != 0 then Failure(Runner.TesseractError(status, Runner.GetErrors(stderr)))
    else Success(true)
  }

  /** A run that started and was not cut short ends the same way in both
      modules. */
  lemma {:induction false} CheckStatusAgrees(elapsed: real, status: int, stderr: string)
    ensures var current := Runner.RunTesseract(Runner.Spawned(Runner.EngineRun(elapsed, status, stderr)), 0.0).result;
      && (CheckStatus(status, stderr).Success? <==> current.Success?)
      && (current.Failure? ==> CheckStatus(status, stderr).error == current.error)
  {
  }

  // ---------------------------------------------------------------- images

  /** The formats `save_image` keeps. */
  const SaveFormats: set<string> := {"JPEG", "PNG", "TIFF", "BMP", "GIF"}

  /** `save_image`'s format choice: a format outside `SaveFormats`, or none,
      is saved as PNG; nothing is refused. */
  function SaveFormat(format: Option<string>): (r: string)
    ensures r in SaveFormats
    ensures format.Some? && format.value in SaveFormats ==> r == format.value
    ensures r != "PNG" ==> format == Some(r)
  {
    if format.Some? && format.value in SaveFormats then format.value else "PNG"
  }

  /** Saving a saved image keeps its format. */
  lemma {:induction false} SaveFormatIdempotent(format: Option<string>)
    ensures SaveFormat(Some(SaveFormat(format))) == SaveFormat(format)
  {
  }

  /** A format the current module accepts but the older one does not know is
      saved as PNG here. */
  lemma {:induction false} WebpBecomesPng()
    ensures SaveFormat(Some("WEBP")) == "PNG"
    ensures "WEBP" in Facade.SupportedFormats
  {
  }

  /** `prepare`: an image is returned unchanged; an array becomes an image
      without a format when numpy is present; anything else is a
      `TypeError`. */
  function Prepare(image: Facade.ImageObject, numpy: bool): (r: Result<Facade.Picture, Facade.PrepareError>)
    ensures r.Success? <==> image.PilImage? || (image.NdArray? && numpy)
    ensures r.Failure? ==> r.error == Facade.UnsupportedObject
    ensures image.PilImage? ==> r.value == image.picture
    ensures image.NdArray? && numpy ==> r.value.format.None? && r.value.hasAlpha == image.alpha
  {
    match image
    case PilImage(picture) => Success(picture)
    case NdArray(alpha) => if numpy then Success(Facade.Picture(None, alpha)) else Failure(Facade.UnsupportedObject)
    case OtherObject => Failure(Facade.UnsupportedObject)
  }

  /** The older `prepare` refuses exactly the objects the current one refuses
      for their type; it never refuses a format. */
  lemma {:induction false} PrepareAcceptsSameObjects(image: Facade.ImageObject, numpy: bool)
    ensures Prepare(image, numpy).Success? <==>
      Facade.Prepare(image, numpy).Success? || Facade.Prepare(image, numpy).error.UnsupportedFormat?
  {
  }

  /** The files of one run. */
  datatype RunFiles = RunFiles(input: string, outBase: string, output: string)

  /** `save_image` and `run_and_get_output`: the image goes to
      `<temp>.<format>`, the engine writes to the base `<temp>_out`, and the
      output is read from `<temp>_out.<extension>`. */
  function Files(temp: string, image: Facade.ImageObject, numpy: bool, extension: string): (r: Result<RunFiles, Facade.PrepareError>)
    ensures r.Success? <==> Prepare(image, numpy).Success?
    ensures r.Failure? ==> r.error == Facade.UnsupportedObject
    ensures r.Success? ==>
      var format := SaveFormat(Prepare(image, numpy).value.format);
      && r.value.input == temp + "." + format
      && r.value.outBase == temp + "_out"
      && r.value.output == r.value.outBase + "." + extension
  {
    var picture := Prepare(image, numpy);
    if picture.Failure? then Failure(picture.error)
    else
      var base := temp + "_out";
      Success(RunFiles(temp + "." + SaveFormat(picture.value.format), base, base + "." + extension))
  }

  /** The input image and the output file never collide, and both live
      next to the temporary name. */
  lemma {:induction false} FilesDistinct(temp: string, image: Facade.ImageObject, numpy: bool, extension: string)
    requires Files(temp, image, numpy, extension).Success?
    ensures var f := Files(temp, image, numpy, extension).value;
      && f.input != f.output
      && f.input[..|temp|] == temp && f.output[..|temp|] == temp
  {
    var f := Files(temp, image, numpy, extension).value;
    assert f.input[|temp|] == '.';
    assert f.output[|temp|] == '_';
  }

  /** The output as handed back: raw bytes, or the decoded text stripped. */
  function ReadOutput(file: string, returnBytes: bool): (r: string)
    ensures returnBytes ==> r == file
    ensures !returnBytes ==> Trimmed(r) && Words(r) == Words(file)
  {
    if returnBytes then file
    else
      WordsStrip(file);
      Strip(file)
  }

  // ---------------------------------------------------------------- calls

  /** How the output is handed back: as read, as `{'text': ...}`, or through
      `file_to_dict` after a prefix. */
  datatype Post = Verbatim | TextDict | TableDict(prefix: string, delimiter: string, textIndex: int)

  /** One engine run: output kind, config, bytes or text, decoding. */
  datatype Plan = Plan(extension: string, config: string, returnBytes: bool, post: Post)

  /** The `if output_type == Output.DICT ... elif Output.BYTES ...` chain:
      any other output type, known or not, reads the output as a string. */
  function Dispatch(outputType: string, extension: string, config: string, dict: Post): (r: Plan)
    ensures r.extension == extension && r.config == config
    ensures r.returnBytes <==> outputType == Facade.BYTES
    ensures outputType == Facade.DICT ==> r.post == dict
    ensures outputType != Facade.DICT ==> r.post == Verbatim
  {
    if outputType == Facade.DICT then Plan(extension, config, false, dict)
    else if outputType == Facade.BYTES then Plan(extension, config, true, Verbatim)
    else Plan(extension, config, false, Verbatim)
  }

  /** An output type the current module rejects with `KeyError` is read as a
      plain string by the older one. */
  lemma {:induction false} UnknownOutputType(outputType: string, config: string)
    requires outputType !in {Facade.BYTES, Facade.DICT, Facade.STRING}
    ensures ImageToString(outputType, config, false) == ImageToString(Facade.STRING, config, false)
    ensures Facade.ImageToString(outputType, None, config) == Failure(Facade.KeyError(outputType))
  {
  }

  /** The variables `image_to_boxes` appends to the user's config. */
  const BoxesSuffix: string := " batch.nochop makebox"

  /** `image_to_boxes`: box output with the box-file variables appended; a
      dict is `file_to_dict` of the box header and the output, with space
      cells and the text in column 0. */
  function ImageToBoxes(outputType: string, config: string): (r: Plan)
    ensures r.extension == "box"
    ensures |config| <= |r.config| && r.config[..|config|] == config
    ensures Words(r.config) == Words(config) + ["batch.nochop", "makebox"]
    ensures r.returnBytes <==> outputType == Facade.BYTES
    ensures outputType == Facade.DICT ==> r.post == TableDict(Facade.BoxHeader + "\n", " ", 0)
  {
    BoxesWords(config);
    Dispatch(outputType, "box", config + BoxesSuffix, TableDict(Facade.BoxHeader + "\n", " ", 0))
  }

  /** `image_to_string`: the deprecated `boxes` flag hands over to
      `image_to_boxes`; otherwise plain text with the config as given. */
  function ImageToString(outputType: string, config: string, boxes: bool): (r: Plan)
    ensures boxes ==> r == ImageToBoxes(outputType, config)
    ensures !boxes ==> r.extension == "txt" && r.config == config
    ensures !boxes ==> (r.returnBytes <==> outputType == Facade.BYTES)
    ensures !boxes && outputType == Facade.DICT ==> r.post == TextDict
    ensures !boxes && outputType != Facade.DICT ==> r.post == Verbatim
  {
    if boxes then ImageToBoxes(outputType, config)
    else Dispatch(outputType, "txt", config, TextDict)
  }

  /** `image_to_data`: TSV output with the config as given; a dict is
      `file_to_dict` with tab cells and the text in the last column. */
  function ImageToData(outputType: string, config: string): (r: Plan)
    ensures r.extension == "tsv" && r.config == config
    ensures r.returnBytes <==> outputType == Facade.BYTES
    ensures outputType == Facade.DICT ==> r.post == TableDict("", "\t", -1)
    ensures outputType != Facade.DICT ==> r.post == Verbatim
  {
    Dispatch(outputType, "tsv", config, TableDict("", "\t", -1))
  }

  /** The decoded dict of a plan's output: `file_to_dict` of the prefix and
      the stripped output. */
  function Decode(plan: Plan, output: string): Result<Tsv.Table, LegacyTsv.DecodeError>
    requires plan.post.TableDict? && |plan.post.delimiter| > 0
  {
    LegacyTsv.FileToDict(plan.post.prefix + ReadOutput(output, false), plan.post.delimiter, plan.post.textIndex)
  }

  // ---------------------------------------------------------------- properties

  lemma {:induction false} BoxesWords(config: string)
    ensures Words(config + BoxesSuffix) == Words(config) + ["batch.nochop", "makebox"]
  {
    var rest := "batch.nochop makebox";
    assert config + BoxesSuffix == config + " " + rest;
    WordsSplitAt(config, " ", rest);
    SuffixWords();
  }

  lemma {:induction false} SuffixWords()
    ensures Words("batch.nochop makebox") == ["batch.nochop", "makebox"]
  {
    var a := "batch.nochop";
    var b := "makebox";
    assert "batch.nochop makebox" == a + " " + b;
    WordsSplitAt(a, " ", b);
    NochopWord();
    MakeboxWord();
  }

  lemma {:induction false} NochopWord()
    ensures Words("batch.nochop") == ["batch.nochop"]
  {
    WordsOne("batch.nochop");
  }

  lemma {:induction false} MakeboxWord()
    ensures Words("makebox") == ["makebox"]
  {
    WordsOne("makebox");
  }

  /** A box dict that decodes has the six box columns as its keys, in
      order, whatever the engine wrote. */
  lemma {:induction false} BoxDictKeys(outputType: string, config: string, output: string)
    requires outputType == Facade.DICT
    requires Decode(ImageToBoxes(outputType, config), output).Success?
    ensures Keys(Decode(ImageToBoxes(outputType, config), output).value) == Facade.BoxColumns
  {
    var body := ReadOutput(output, false);
    BoxRowsHeader(body);
    Facade.BoxHeaderColumns();
    Tsv.DedupDistinct(Facade.BoxColumns);
  }

  /** The header row of a box file is the box header cut at spaces. */
  lemma {:induction false} BoxRowsHeader(body: string)
    ensures LegacyTsv.Rows(Facade.BoxHeader + "\n" + body, " ")[0] == Split(Facade.BoxHeader, " ")
  {
    Facade.HeaderLineSplits(body);
  }
}
