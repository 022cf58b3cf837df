/** The public `image_to_*` calls, `run_and_get_multiple_output` and
    `prepare` of pytesseract/pytesseract.py, reduced to what they decide
    before and after the engine runs: the output kind, the config string,
    whether the output is read as bytes, how it is decoded, and which errors
    stop the call first. The engine run itself is `Runner`, the argument
    vector is `Command`. */
module Facade {
  import opened Wrappers
  import opened Text
  import opened OrderedDict
  import Command
  import Tsv
  import Version

  // ---------------------------------------------------------------- configs

  /** `EXTENTION_TO_CONFIG.get(extension, '')`. */
  function ExtensionConfig(extension: string): string
  {
    if extension == "box" then "tessedit_create_boxfile=1 batch.nochop makebox"
    else if extension == "xml" then "tessedit_create_alto=1"
    else if extension == "hocr" then "tessedit_create_hocr=1"
    else if extension == "tsv" then "tessedit_create_tsv=1"
    else ""
  }

  /** The config of every requested extension, in order. */
  function ExtensionConfigs(extensions: seq<string>): (cs: seq<string>)
    ensures |cs| == |extensions|
    ensures forall i :: 0 <= i < |extensions| ==> cs[i] == ExtensionConfig(extensions[i])
  {
    seq(|extensions|, i requires 0 <= i < |extensions| => ExtensionConfig(extensions[i]))
  }

  /** The config of `run_and_get_multiple_output`: the known extensions'
      variables joined and stripped, behind one `-c`; nothing when no
      requested extension has any. As tokens: `-c` and then every variable. */
  function MultiConfig(extensions: seq<string>): (r: string)
    ensures var vars := FlatWords(ExtensionConfigs(extensions));
      && (r == "" <==> vars == [])
      && Words(r) == (if vars == [] then [] else ["-c"] + vars)
  {
    var cs := ExtensionConfigs(extensions);
    var joined := Strip(Join(cs, " "));
    StrippedJoinWords(cs);
    if joined != "" then
      DashC(joined);
      "-c " + joined
    else ""
  }

  /** The stripped join of the pieces holds their words, and is empty exactly
      when they have none. */
  lemma {:induction false} StrippedJoinWords(cs: seq<string>)
    ensures Words(Strip(Join(cs, " "))) == FlatWords(cs)
    ensures Strip(Join(cs, " ")) == "" <==> FlatWords(cs) == []
  {
    var j := Join(cs, " ");
    WordsOfJoin(cs);
    WordsStrip(j);
    StripEmpty(j);
    WordsEmpty(j);
  }

  /** `-c` in front of a config is one more token. */
  lemma {:induction false} DashC(t: string)
    ensures Words("-c " + t) == ["-c"] + Words(t)
  {
    assert "-c " + t == "-c" + " " + t;
    WordsSplitAt("-c", " ", t);
    WordsOne("-c");
  }

  /** A known extension's config is never blank, an unknown one is empty. */
  lemma {:induction false} ExtensionConfigBlank(extension: string)
    ensures AllSpace(ExtensionConfig(extension)) <==> ExtensionConfig(extension) == ""
  {
    var c := ExtensionConfig(extension);
    ExtensionConfigEnd(extension);
    if c != "" {
      assert !IsSpace(c[|c| - 1]);
    }
  }

  /** Every known extension's config ends in a digit or a letter. */
  lemma {:induction false} ExtensionConfigEnd(extension: string)
    ensures var c := ExtensionConfig(extension);
      c == "" || c[|c| - 1] in "1x"
  {
    if extension == "box" {
      var c := "tessedit_create_boxfile=1 batch.nochop makebox";
      assert c[|c| - 1] == 'x';
    }
  }

  /** The multi-output call passes no config exactly when none of the
      requested extensions is `box`, `xml`, `hocr` or `tsv`. */
  lemma {:induction false} MultiConfigEmpty(extensions: seq<string>)
    ensures MultiConfig(extensions) == "" <==> forall i :: 0 <= i < |extensions| ==> ExtensionConfig(extensions[i]) == ""
  {
    var cs := ExtensionConfigs(extensions);
    FlatWordsEmpty(cs);
    forall i | 0 <= i < |extensions|
      ensures AllSpace(cs[i]) <==> ExtensionConfig(extensions[i]) == ""
    {
      ExtensionConfigBlank(extensions[i]);
    }
  }

  /** The multi-output call names its extensions joined by spaces, so the
      engine gets each one as a word and the positional ones in order. */
  lemma {:induction false} MultiOutputKinds(extensions: seq<string>)
    requires forall i :: 0 <= i < |extensions| ==> |extensions[i]| > 0 && NoSpace(extensions[i])
    ensures Words(Join(extensions, " ")) == extensions
    ensures Command.Positional(Words(Join(extensions, " "))) == Command.Positional(extensions)
  {
    WordsJoin(extensions);
  }

  /** One output file to read back. */
  datatype OutputRead = OutputRead(file: string, asBytes: bool)

  /** pdf and hocr output is always read as bytes. */
  predicate ForcedBytes(extension: string) {
    extension == "pdf" || extension == "hocr"
  }

  /** The reads after a multi-output run: `<base>.<extension>` for every
      extension, in order, as bytes when the caller asked for bytes or the
      extension is pdf or hocr. */
  function MultiReads(base: string, extensions: seq<string>, returnBytes: bool): (r: seq<OutputRead>)
    ensures |r| == |extensions|
    ensures forall i :: 0 <= i < |extensions| ==>
      && r[i].file == base + "." + extensions[i]
      && (r[i].asBytes <==> returnBytes || ForcedBytes(extensions[i]))
  {
    seq(|extensions|, i requires 0 <= i < |extensions| =>
      OutputRead(base + "." + extensions[i], returnBytes || ForcedBytes(extensions[i])))
  }

  // ---------------------------------------------------------------- switches

  const HocrSwitch: string := "-c tessedit_create_hocr=1"
  const AltoSwitch: string := "-c tessedit_create_alto=1"
  const BoxSwitch: string := "-c tessedit_create_boxfile=1 batch.nochop makebox"
  const TsvSwitch: string := "-c tessedit_create_tsv=1"
  const OsdSwitch: string := "--psm 0"

  /** `f'{switch} {config.strip()}'`: the switch's tokens, then the user's. */
  function SwitchFirst(switch: string, config: string): (r: string)
    ensures Words(r) == Words(switch) + Words(config)
    ensures |r| > |switch| && r[..|switch|] == switch
  {
    WordsSplitAt(switch, " ", Strip(config));
    WordsStrip(config);
    switch + " " + Strip(config)
  }

  /** `f'{config.strip()} {switch}'`: the user's tokens, then the switch's. */
  function SwitchLast(config: string, switch: string): (r: string)
    ensures Words(r) == Words(config) + Words(switch)
    ensures |r| > |switch| && r[|r| - |switch|..] == switch
  {
    WordsSplitAt(Strip(config), " ", switch);
    WordsStrip(config);
    Strip(config) + " " + switch
  }

  // ---------------------------------------------------------------- calls

  /** `Output`'s values. */
  const BYTES: string := "bytes"
  const DATAFRAME: string := "data.frame"
  const DICT: string := "dict"
  const STRING: string := "string"

  /** How the engine's output is handed back: as read, wrapped as
      `{'text': ...}`, through `file_to_dict` after a prefix, through
      `osd_to_dict`, or to pandas. */
  datatype Post = Verbatim | TextDict | TableDict(prefix: string, delimiter: string, textIndex: int) | OsdDict | Frame

  /** One engine run: the output kind, the language, the config, whether the
      output is read as bytes, and how it is decoded. */
  datatype EnginePlan = EnginePlan(extension: string, lang: Option<string>, config: string, returnBytes: bool, post: Post)

  datatype FacadeError =
    | KeyError(outputType: string)
    | UnsupportedExtension(extension: string)
    | Gate(cause: Version.GateError)
    | PandasNotSupported

  /** The output-type table the `image_to_*` calls with a dict form share:
      bytes are read raw, a string is read as text, a dict is decoded by
      `dict`, and an output type outside the table (a data frame being in it
      when `frames` holds) is a `KeyError` for that type. */
  predicate Dispatched(r: Result<EnginePlan, FacadeError>, outputType: string, dict: Post, frames: bool) {
    && (outputType == BYTES ==> r.Success? && r.value.returnBytes && r.value.post == Verbatim)
    && (outputType == STRING ==> r.Success? && !r.value.returnBytes && r.value.post == Verbatim)
    && (outputType == DICT ==> r.Success? && !r.value.returnBytes && r.value.post == dict)
    && (outputType !in {BYTES, DICT, STRING} && !(frames && outputType == DATAFRAME) ==> r == Failure(KeyError(outputType)))
  }

  /** A data frame is the raw bytes handed to pandas, and needs pandas. */
  predicate FrameDispatched(r: Result<EnginePlan, FacadeError>, outputType: string, pandas: bool) {
    && (outputType == DATAFRAME && pandas ==> r.Success? && r.value.returnBytes && r.value.post == Frame)
    && (outputType == DATAFRAME && !pandas ==> r == Failure(PandasNotSupported))
  }

  /** The `{Output.BYTES: ..., Output.DICT: ..., Output.STRING: ...}[output_type]`
      dispatch, with `Output.DATAFRAME` where the call offers it: bytes and
      string read the output as is, dict decodes it, and any other key is a
      `KeyError`. A data frame needs pandas. */
  function Select(outputType: string, extension: string, lang: Option<string>, config: string, dict: Post, frames: bool, pandas: bool): (r: Result<EnginePlan, FacadeError>)
    ensures r.Success? ==> r.value.extension == extension && r.value.lang == lang && r.value.config == config
    ensures r.Success? <==> outputType in {BYTES, DICT, STRING} || (frames && outputType == DATAFRAME && pandas)
    ensures Dispatched(r, outputType, dict, frames)
    ensures frames ==> FrameDispatched(r, outputType, pandas)
  {
    if outputType == BYTES then Success(EnginePlan(extension, lang, config, true, Verbatim))
    else if outputType == DICT then Success(EnginePlan(extension, lang, config, false, dict))
    else if outputType == STRING then Success(EnginePlan(extension, lang, config, false, Verbatim))
    else if frames && outputType == DATAFRAME then
      if pandas then Success(EnginePlan(extension, lang, config, true, Frame)) else Failure(PandasNotSupported)
    else Failure(KeyError(outputType))
  }

  /** `image_to_string`: plain text, the config as given; a dict is
      `{'text': ...}`. */
  function ImageToString(outputType: string, lang: Option<string>, config: string): (r: Result<EnginePlan, FacadeError>)
    ensures r.Success? <==> outputType in {BYTES, DICT, STRING}
    ensures r.Success? ==> r.value.extension == "txt" && r.value.lang == lang && r.value.config == config
    ensures Dispatched(r, outputType, TextDict, false)
  {
    Select(outputType, "txt", lang, config, TextDict, false, false)
  }

  /** `image_to_pdf_or_hocr`: only pdf and hocr; hocr turns its variable on
      in front of the user's config; the output is bytes. */
  function ImageToPdfOrHocr(extension: string, lang: Option<string>, config: string): (r: Result<EnginePlan, FacadeError>)
    ensures r.Failure? <==> extension != "pdf" && extension != "hocr"
    ensures r.Failure? ==> r.error == UnsupportedExtension(extension)
    ensures r.Success? ==> r.value.extension == extension && r.value.lang == lang && r.value.returnBytes && r.value.post == Verbatim
    ensures extension == "pdf" ==> r.value.config == config
    ensures extension == "hocr" ==> Words(r.value.config) == Words(HocrSwitch) + Words(config)
  {
    if extension != "pdf" && extension != "hocr" then Failure(UnsupportedExtension(extension))
    else if extension == "hocr" then Success(EnginePlan(extension, lang, SwitchFirst(HocrSwitch, config), true, Verbatim))
    else Success(EnginePlan(extension, lang, config, true, Verbatim))
  }

  /** `image_to_alto_xml`: the (cached) version must be at least 4.1.0
      before anything runs; then ALTO output as bytes. */
  function ImageToAlto(version: Result<Version.Release, Version.VersionError>, lang: Option<string>, config: string): (r: Result<EnginePlan, FacadeError>)
    ensures r.Success? <==> Version.AltoGate(version).Success?
    ensures r.Failure? ==> r.error == Gate(Version.AltoGate(version).error)
    ensures r.Success? ==> r.value.extension == "xml" && r.value.lang == lang && r.value.returnBytes && r.value.post == Verbatim
    ensures r.Success? ==> Words(r.value.config) == Words(AltoSwitch) + Words(config)
  {
    var gate := Version.AltoGate(version);
    if gate.Failure? then Failure(Gate(gate.error))
    else Success(EnginePlan("xml", lang, SwitchFirst(AltoSwitch, config), true, Verbatim))
  }

  /** The header `image_to_boxes` puts in front of the box file for a dict. */
  const BoxHeader: string := Join(BoxColumns, " ")

  const BoxColumns: seq<string> := ["char", "left", "bottom", "right", "top", "page"]

  /** `image_to_boxes`: box output with the box-file variables after the
      user's config; a dict is `file_to_dict` of the header and the output,
      space-separated, text in column 0. */
  function ImageToBoxes(outputType: string, lang: Option<string>, config: string): (r: Result<EnginePlan, FacadeError>)
    ensures r.Success? <==> outputType in {BYTES, DICT, STRING}
    ensures r.Success? ==> r.value.extension == "box" && r.value.lang == lang
    ensures r.Success? ==> Words(r.value.config) == Words(config) + Words(BoxSwitch)
    ensures Dispatched(r, outputType, TableDict(BoxHeader + "\n", " ", 0), false)
  {
    Select(outputType, "box", lang, SwitchLast(config, BoxSwitch), TableDict(BoxHeader + "\n", " ", 0), false, false)
  }

  /** `image_to_data`: the (cached) version must be at least 3.05 first;
      TSV output with its variable in front; a dict is `file_to_dict` with
      tab cells and the text in the last column; a data frame is the raw
      bytes handed to pandas, which must be installed. */
  function ImageToData(version: Result<Version.Release, Version.VersionError>, outputType: string, lang: Option<string>, config: string, pandas: bool): (r: Result<EnginePlan, FacadeError>)
    ensures Version.TsvGate(version).Failure? ==> r == Failure(Gate(Version.TsvGate(version).error))
    ensures Version.TsvGate(version).Success? ==>
      && (r.Success? <==> outputType in {BYTES, DICT, STRING} || (outputType == DATAFRAME && pandas))
      && Dispatched(r, outputType, TableDict("", "\t", -1), true)
      && FrameDispatched(r, outputType, pandas)
    ensures r.Success? ==> r.value.extension == "tsv" && r.value.lang == lang && Words(r.value.config) == Words(TsvSwitch) + Words(config)
  {
    var gate := Version.TsvGate(version);
    if gate.Failure? then Failure(Gate(gate.error))
    else Select(outputType, "tsv", lang, SwitchFirst(TsvSwitch, config), TableDict("", "\t", -1), true, pandas)
  }

  /** The language `image_to_osd` uses unless told otherwise: the engine's
      orientation and script model. */
  const OsdLang: string := "osd"

  /** `image_to_osd`: page segmentation mode 0 in front of the user's config;
      a dict is `osd_to_dict` of the output. The caller's `lang` defaults to
      `OsdLang` rather than to none. */
  function ImageToOsd(outputType: string, lang: Option<string>, config: string): (r: Result<EnginePlan, FacadeError>)
    ensures r.Success? <==> outputType in {BYTES, DICT, STRING}
    ensures r.Success? ==> r.value.extension == "osd" && r.value.lang == lang && Words(r.value.config) == Words(OsdSwitch) + Words(config)
    ensures Dispatched(r, outputType, OsdDict, false)
  {
    Select(outputType, "osd", lang, SwitchFirst(OsdSwitch, config), OsdDict, false, false)
  }

  /** With its default language, an OSD run passes `-l osd` to the engine,
      where the other calls pass no language by default. */
  lemma {:induction false} OsdDefaultLanguage(outputType: string, config: string)
    requires outputType in {BYTES, DICT, STRING}
    ensures Command.LangArgs(ImageToOsd(outputType, Some(OsdLang), config).value.lang) == ["-l", "osd"]
    ensures Command.LangArgs(ImageToString(outputType, None, config).value.lang) == []
  {
  }

  // ---------------------------------------------------------------- images

  /** `SUPPORTED_FORMATS`. */
  const SupportedFormats: set<string> := {"JPEG", "JPEG2000", "PNG", "PBM", "PGM", "PPM", "TIFF", "BMP", "GIF", "WEBP"}

  /** What `prepare` looks at in a PIL image: its `format` (possibly unset)
      and whether it has an alpha band. Pixels are not modelled. */
  datatype Picture = Picture(format: Option<string>, hasAlpha: bool)

  /** The object a caller passes: a PIL image, a numpy array, or anything else. */
  datatype ImageObject = PilImage(picture: Picture) | NdArray(alpha: bool) | OtherObject

  /** The two `TypeError`s of `prepare`. */
  datatype PrepareError = UnsupportedObject | UnsupportedFormat(format: string)

  /** What `prepare` hands back: the image to save, its format, and the
      caller's own object as the call leaves it. */
  datatype Prepared = Prepared(image: Picture, extension: string, caller: ImageObject)

  /** `prepare(image)`: an array is converted to an image (without a format)
      when numpy is present; anything that is not an image then is refused;
      an image without a format counts as PNG, and a format outside
      `SUPPORTED_FORMATS` is refused. The result has its alpha flattened
      away and carries the format it is saved in. An image without alpha is
      the caller's own object, so the caller's image has its `format` set
      too; an array or an image with alpha is replaced by a new image and
      stays as it was. */
  function Prepare(image: ImageObject, numpy: bool): (r: Result<Prepared, PrepareError>)
    ensures image.OtherObject? || (image.NdArray? && !numpy) ==> r == Failure(UnsupportedObject)
    ensures r.Success? ==> r.value.extension in SupportedFormats && r.value.image == Picture(Some(r.value.extension), false)
    ensures image.PilImage? && image.picture.format.Some? && image.picture.format.value != "" ==>
      var f := image.picture.format.value;
      && (r.Success? <==> f in SupportedFormats)
      && (r.Success? ==> r.value.extension == f)
      && (r.Failure? ==> r.error == UnsupportedFormat(f))
    ensures (image.PilImage? && (image.picture.format.None? || image.picture.format.value == "")) || (image.NdArray? && numpy) ==>
      r.Success? && r.value.extension == "PNG"
    ensures r.Success? && image.PilImage? && !image.picture.hasAlpha ==> r.value.caller == PilImage(r.value.image)
    ensures r.Success? && !(image.PilImage? && !image.picture.hasAlpha) ==> r.value.caller == image
  {
    var picture :=
      if image.NdArray? && numpy then Some(Picture(None, image.alpha))
      else if image.PilImage? then Some(image.picture)
      else None;
    if picture.None? then Failure(UnsupportedObject)
    else
      var p := picture.value;
      var extension := if p.format.None? || p.format.value == "" then "PNG" else p.format.value;
      if extension !in SupportedFormats then Failure(UnsupportedFormat(extension))
      else
        var result := Picture(Some(extension), false);
        Success(Prepared(result, extension, if image.PilImage? && !p.hasAlpha then PilImage(result) else image))
  }

  /** Preparing a prepared image gives it back with its format, and the
      caller's image is that same image. */
  lemma {:induction false} PrepareIdempotent(image: ImageObject, numpy: bool)
    requires Prepare(image, numpy).Success?
    ensures var p := Prepare(image, numpy).value;
      Prepare(PilImage(p.image), numpy) == Success(Prepared(p.image, p.extension, PilImage(p.image)))
  {
  }

  /** An image without alpha and without a format comes back to its caller
      marked as PNG. */
  lemma {:induction false} CallerImageMarked(numpy: bool)
    ensures Prepare(PilImage(Picture(None, false)), numpy).value.caller == PilImage(Picture(Some("PNG"), false))
    ensures Prepare(PilImage(Picture(None, true)), numpy).value.caller == PilImage(Picture(None, true))
  {
  }

  /** What `save` is given: a file name, or an image object. */
  datatype Source = Path(path: string) | Object(image: ImageObject)

  /** `save(image)`: the temporary name and the engine's input file. A file
      name is used as is; an object is prepared and written to
      `<temp>_input.<format>`. */
  function InputFile(temp: string, source: Source, numpy: bool): (r: Result<string, PrepareError>)
    ensures source.Path? ==> r == Success(source.path)
    ensures source.Object? ==> (r.Success? <==> Prepare(source.image, numpy).Success?)
    ensures source.Object? && r.Success? ==>
      var extension := Prepare(source.image, numpy).value.extension;
      r.value == temp + "_input" + "." + extension && extension in SupportedFormats
  {
    match source
    case Path(path) => Success(path)
    case Object(image) =>
      var prepared := Prepare(image, numpy);
      if prepared.Failure? then Failure(prepared.error)
      else Success(temp + "_input" + "." + prepared.value.extension)
  }

  // ---------------------------------------------------------------- properties

  /** Box, TSV, OSD and ALTO output are selected by config variables, so the
      engine gets no positional output kind for them; text, pdf and hocr are
      passed by name. */
  lemma {:induction false} OutputKindArgument(extension: string)
    requires extension in {"txt", "pdf", "hocr", "box", "tsv", "osd", "xml"}
    ensures Command.IsImplicitKind(extension) ==> Command.Positional(Words(extension)) == []
    ensures !Command.IsImplicitKind(extension) ==> Command.Positional(Words(extension)) == [extension]
  {
    WordsOne(extension);
  }

  /** The box header splits into the six box columns. */
  lemma {:induction false} BoxHeaderColumns()
    ensures Split(BoxHeader, " ") == BoxColumns
    ensures Distinct(BoxColumns)
  {
    BoxColumnsOneWord();
    SplitJoin(BoxColumns, " ");
    BoxColumnsDistinct();
  }

  lemma {:induction false} BoxColumnsOneWord()
    ensures forall i :: 0 <= i < |BoxColumns| ==> !Contains(BoxColumns[i], " ")
  {
    forall i | 0 <= i < |BoxColumns|
      ensures !Contains(BoxColumns[i], " ")
    {
      ColumnNameOneWord(BoxColumns[i]);
    }
  }

  /** The columns start with six different letters. */
  lemma {:induction false} BoxColumnsDistinct()
    ensures Distinct(BoxColumns)
  {
    var firsts := "clbrtp";
    assert forall i :: 0 <= i < |BoxColumns| ==> |BoxColumns[i]| > 0 && BoxColumns[i][0] == firsts[i];
    assert forall i, j :: 0 <= i < j < |firsts| ==> firsts[i] != firsts[j];
  }

  lemma {:induction false} ColumnNameOneWord(name: string)
    requires name in BoxColumns
    ensures !Contains(name, " ")
  {
    AbsentChar(name, " ");
  }

  /** Stripping a text that starts with a non-blank prefix and has a non-blank
      character after it keeps the prefix and something after it. */
  lemma {:induction false} StripKeepsPrefix(h: string, o: string) returns (rest: string)
    requires h != [] && !IsSpace(h[0]) && !AllSpace(o)
    ensures Strip(h + o) == h + rest && rest != []
  {
    var s := h + o;
    NoLeadingSpace(s);
    var r := Strip(s);
    var j :| 0 <= j < |o| && !IsSpace(o[j]);
    assert s[|h| + j] == o[j];
    assert r == s[..|r|];
    rest := r[|h|..];
    assert r == r[..|h|] + rest;
  }

  /** The header line cuts off the front of a box file. */
  lemma {:induction false} HeaderLineSplits(rest: string)
    ensures Split(BoxHeader + "\n" + rest, "\n") == [BoxHeader] + Split(rest, "\n")
  {
    HeaderHasNoBreak();
    SplitFirst(BoxHeader, "\n", rest);
  }

  /** The header line holds no newline. */
  lemma {:induction false} HeaderHasNoBreak()
    ensures forall j :: 0 <= j < |BoxHeader| ==> BoxHeader[j] != "\n"[0]
  {
    JoinChars(BoxColumns, " ", c => c != '\n');
  }

  /** A box dict of output with any non-blank character has the six box
      columns as its keys, in order. */
  lemma {:induction false} BoxDictKeys(output: string)
    requires !AllSpace(output)
    ensures Keys(Tsv.FileToDict(BoxHeader + "\n" + output, " ", 0)) == BoxColumns
  {
    var tsv := BoxHeader + "\n" + output;
    BoxLines(output);
    BoxHeaderColumns();
    assert Tsv.Header(tsv, " ") == BoxColumns;
    Tsv.DedupDistinct(BoxColumns);
  }

  /** Box output with any non-blank character has the header line and at
      least one more line. */
  lemma {:induction false} BoxLines(output: string)
    requires !AllSpace(output)
    ensures |Tsv.Lines(BoxHeader + "\n" + output)| >= 2
    ensures Tsv.Lines(BoxHeader + "\n" + output)[0] == BoxHeader
  {
    var rest := StrippedBox(output);
    HeaderLineSplits(rest);
  }

  /** Stripping box output keeps its header line in front. */
  lemma {:induction false} StrippedBox(output: string) returns (rest: string)
    requires !AllSpace(output)
    ensures Strip(BoxHeader + "\n" + output) == BoxHeader + "\n" + rest
  {
    var h := BoxHeader + "\n";
    HeaderStart();
    assert h[0] == 'c';
    rest := StripKeepsPrefix(h, output);
  }

  /** The header line starts with the `char` column. */
  lemma {:induction false} HeaderStart()
    ensures |BoxHeader| > 0 && BoxHeader[0] == 'c'
  {
    var tail := Join(BoxColumns[1..], " ");
    assert BoxHeader == "char" + " " + tail;
  }
}
