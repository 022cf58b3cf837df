# pytesseract, modelled in Dafny

pytesseract is a Python wrapper around the Tesseract OCR engine. It saves an
image to a temporary file, runs the `tesseract` executable on it and reads the
engine's output back, optionally decoding it into a dictionary. This project
models the pure logic around that engine run, in three snapshots of the
library:

- the current module `pytesseract/pytesseract.py`:
  - the engine's argument vector and how a run ends (`Command`, `Runner`);
  - the `run_once` cache (`RunOnce`);
  - the version query and its feature gates (`Version`);
  - the language list (`Languages`);
  - the TSV/box decoder `file_to_dict` (`Tsv`);
  - the orientation-and-script decoder `osd_to_dict` (`Osd`);
  - the public `image_to_*` calls, the multi-output config, `prepare` and
    `save` (`Facade`);
  - `main`'s argument check (`Cli`);
- the older module `src/pytesseract.py`:
  - its stricter `file_to_dict` (`LegacyTsv`);
  - everything else that differs from the current module (`Legacy`);
- the original Python 2 script `tesseract.py` (`Original`).

The Python building blocks live in shared modules:

- `Text`: `strip`, `split(sep)`, `split()`, `splitlines()`, `join`,
  `partition`;
- `Numbers`: `str(int)`, `int(s)`, `int(float(s))`, `isdigit`;
- `OrderedDict`: `dict` with string keys, which keeps insertion order and
  lets the last assignment win;
- `Wrappers`: `Option` and `Result`.

Python exceptions are `Failure` values.

Anything the library hands to the outside world is a parameter of the model:

- the engine process, which either failed to spawn with an error number or
  ran for some time and left an exit status and a standard error;
- the files it writes;
- `shlex.split`, an arbitrary function that answers `None` where `shlex`
  raises `ValueError`;
- the platform name;
- `os.linesep`.

Each operation is stated against an independent description and proved:

- the decoders against per-column and per-key characterisations;
- the builders against the position of every part in the vector;
- `str`/`int`, `split`/`join` and `splitlines`/`join` as round trips;
- the cache as a trace of calls.

Where the project's prose documentation and the code disagree, the model
follows the code:

- a two-part OSD line whose label is not a known key raises `KeyError`
  instead of being skipped;
- the current module returns the engine's text output as read, without
  stripping it; only the older module and the original script strip it.

The minimum-version check inside `get_tesseract_version` is an `assert`.
It refuses everything below 3.05 while assertions run, and then the TSV
gate of `image_to_data` passes every version the query returns. Under
`python -O` the `assert` is removed: a lower release gets through the query,
and the gate raises `TSVNotSupported` for it. `Version.GetVersion` takes
Python's `__debug__` as a parameter for this (`Version.TsvGateOpen`).

The original Python 2 script reads its output as a byte string, whose
`strip()` removes only ASCII whitespace. The model uses a separate byte
`strip` there (`Text.ByteStrip`), which keeps characters such as `\x1c`
that Python 3's `str.strip()` removes.

## Model

| member | source | states |
|---|---|---|
| Text.LStrip | pytesseract/pytesseract.py:173 | `lstrip` leaves a suffix of the text, drops only whitespace, and the suffix starts with a non-space |
| Text.RStrip | pytesseract/pytesseract.py:173 | `rstrip` leaves a prefix of the text, drops only whitespace, and the prefix ends with a non-space |
| Text.Strip | pytesseract/pytesseract.py:173 | `strip` gives the slice of the text that has only whitespace around it, and neither end of the slice is whitespace |
| Text.StripEmpty | pytesseract/pytesseract.py:173 | `strip` leaves nothing exactly when the text is all whitespace |
| Text.StripTrimmed | pytesseract/pytesseract.py:173 | a text without whitespace at either end is unchanged by `strip` |
| Text.StripTrailing | pytesseract/pytesseract.py:173 | whitespace after a text with no whitespace at either end is all that `strip` removes |
| Text.ByteLead | tesseract.py:109 | the leading count covers exactly the ASCII whitespace at the start of a byte string |
| Text.ByteStrip | tesseract.py:109 | Python 2's byte `strip()` gives the slice after the leading ASCII whitespace, with only ASCII whitespace cut from its end, and neither end of the result is ASCII whitespace |
| Text.ByteStripTrimmed | tesseract.py:109 | a byte string without ASCII whitespace at either end is unchanged by the byte `strip` |
| Text.ByteStripWords | tesseract.py:109 | the byte `strip` does not change the words of a text |
| Text.Find | pytesseract/pytesseract.py:461-462 | `find` gives the first occurrence of the separator, and none exactly when the text does not contain it |
| Text.Split | pytesseract/pytesseract.py:361 | `split(sep)` gives at least one piece, and no piece contains the separator |
| Text.JoinSplit | pytesseract/pytesseract.py:361 | joining the pieces of `split(sep)` with `sep` gives back the text |
| Text.SplitJoin | pytesseract/pytesseract.py:361 | splitting a join of pieces free of a one-character separator gives back the pieces |
| Text.SplitFirst | pytesseract/pytesseract.py:411 | a first piece without the separator's first character is split off as the first element |
| Text.SplitPair | pytesseract/pytesseract.py:411 | `a + sep + b` splits into exactly `[a, b]` when neither holds the separator |
| Text.AbsentChar | pytesseract/pytesseract.py:411 | a text without the separator's first character does not contain it and splits into itself |
| Text.Before | pytesseract/pytesseract.py:461-462 | the head of `partition(sep)` is the prefix in front of the first separator, or the whole text when there is none |
| Text.BeforeAt | pytesseract/pytesseract.py:461-462 | the head of the partition is the part before a separator that follows it directly |
| Text.Words | pytesseract/pytesseract.py:269 | `split()` gives non-empty words without whitespace |
| Text.WordsSplitAt | pytesseract/pytesseract.py:269 | a run of whitespace separates the words before it from the words after it |
| Text.WordsSkipSpaces | pytesseract/pytesseract.py:269 | leading whitespace adds no word |
| Text.WordsTrailing | pytesseract/pytesseract.py:269 | trailing whitespace adds no word |
| Text.WordsJoin | pytesseract/pytesseract.py:314 | words joined with single spaces split back into the same words |
| Text.WordsOne | pytesseract/pytesseract.py:269 | a single whitespace-free word splits into itself |
| Text.WordsEmpty | pytesseract/pytesseract.py:305 | `split()` is empty exactly when the text is all whitespace |
| Text.WordsLStrip | pytesseract/pytesseract.py:302-304 | `lstrip` does not change the words of a text |
| Text.WordsStrip | pytesseract/pytesseract.py:302-304 | `strip` does not change the words of a text |
| Text.WordsOfJoin | pytesseract/pytesseract.py:302-304 | the words of `' '.join(pieces)` are the pieces' words, one piece after another |
| Text.FlatWordsEmpty | pytesseract/pytesseract.py:302-305 | the pieces yield no word exactly when every piece is blank |
| Text.JoinChars | pytesseract/pytesseract.py:171 | a character property shared by the pieces and the separator holds for every character of the join |
| Text.LineLength | pytesseract/pytesseract.py:172 | the first line is the longest prefix without a line boundary |
| Text.SplitLines | pytesseract/pytesseract.py:172 | `splitlines` gives lines without boundaries, and none exactly for the empty text |
| Text.SplitLinesStep | pytesseract/pytesseract.py:172 | `splitlines` cuts off the first line and one terminator (`\r\n` or one boundary) and goes on with the rest |
| Text.SplitLinesContent | pytesseract/pytesseract.py:172 | the lines, concatenated, are the text with every boundary character removed |
| Text.DropBreaksAppend | pytesseract/pytesseract.py:172 | removing boundaries works piece by piece |
| Text.SplitLinesNoBreak | pytesseract/pytesseract.py:172 | a non-empty text without boundaries is one line |
| Text.SplitLinesOneLine | pytesseract/pytesseract.py:172 | one line followed by a newline is one line |
| Text.SplitLinesJoin | pytesseract/pytesseract.py:172 | lines joined with newlines, the last one non-empty, split back into the same lines |
| Text.SplitLinesJoinNewline | pytesseract/pytesseract.py:172 | lines joined with newlines and ended by one more newline split back into the same lines, an empty last line included |
| Text.JoinNoBreak | pytesseract/pytesseract.py:171-172 | joining lines with spaces adds no line boundary |
| Text.StripNoBreak | pytesseract/pytesseract.py:171-173 | stripping adds no line boundary |
| Numbers.DigitChar | pytesseract/pytesseract.py:259 | every digit value has a digit character that reads back as it |
| Numbers.NatToString | pytesseract/pytesseract.py:259 | `str(n)` is a digit string whose value is `n`, without a leading zero |
| Numbers.IntToString | pytesseract/pytesseract.py:259 | `str(i)` is non-empty, has no surrounding whitespace and starts with `-` exactly for negative `i` |
| Numbers.ParseIntString | pytesseract/pytesseract.py:259 | `int(str(i)) == i` for every integer |
| Numbers.DigitsHaveNoDot | pytesseract/pytesseract.py:383 | a digit string has no decimal point |
| Numbers.ParseDecimalOfInt | pytesseract/pytesseract.py:383 | every text `int()` accepts is read by `int(float())` as the same value |
| Numbers.DecimalBodyTruncates | pytesseract/pytesseract.py:383 | a decimal body with a fraction keeps only its whole part, negated for a minus sign |
| Numbers.ParseDecimalTruncates | pytesseract/pytesseract.py:383 | `int(float('w.f'))` is the whole part `w` |
| Numbers.ParseDecimalTruncatesNegative | pytesseract/pytesseract.py:383 | `int(float('-w.f'))` is `-w`: truncation goes toward zero |
| OrderedDict.Keys | pytesseract/pytesseract.py:375-376 | the keys of a dict are its entries' keys, in order |
| OrderedDict.Get | pytesseract/pytesseract.py:375-376 | a lookup finds a value exactly for the dict's keys |
| OrderedDict.Put | pytesseract/pytesseract.py:376 | assigning keeps the key order and appends a new key at the end; the key gets the new value and every other key keeps its value |
| OrderedDict.PutFirst | pytesseract/pytesseract.py:376 | assigning the first key replaces its value in place |
| OrderedDict.PutBehind | pytesseract/pytesseract.py:376 | assigning a key behind the first entry keeps the first entry in front |
| OrderedDict.Dedup | pytesseract/pytesseract.py:375-376 | the keys without repeats hold the same keys, each once |
| OrderedDict.LastIndex | pytesseract/pytesseract.py:375-376 | the last position of a key holds the key, and no later position does |
| OrderedDict.FromKeysSpec | pytesseract/pytesseract.py:375-376 | filling a dict along the header gives the header's distinct keys in first-seen order, and each key holds the value for its last position: a repeated header name resets its list |
| OrderedDict.FromKeysValues | pytesseract/pytesseract.py:375-376 | every stored value belongs to some position of its key |
| Tsv.PadLast | pytesseract/pytesseract.py:367-370 | only the last row changes, gaining exactly one empty cell, and only when it is narrower than the header |
| Tsv.DecodeAll | pytesseract/pytesseract.py:377-389 | every cell decodes to one value |
| Tsv.DecodeRows | pytesseract/pytesseract.py:362-389 | fewer than two rows give the empty dict; otherwise the keys are the header names without repeats, and each name holds the decoded column of its last header position over the padded rows, with a negative text index counted from the end |
| Tsv.FileToDict | pytesseract/pytesseract.py:359-391 | the same for text: the stripped input cut at newlines and at the delimiter |
| Tsv.CoerceFallback | pytesseract/pytesseract.py:381-387 | a cell becomes an integer exactly when it is outside the text column and `int(float())` reads it; otherwise it stays the cell's text |
| Tsv.PickAppend | pytesseract/pytesseract.py:377-379 | rows contribute to a column one by one, in row order |
| Tsv.DecodeAllAppend | pytesseract/pytesseract.py:381-389 | cells decode independently, in order |
| Tsv.ColumnAppend | pytesseract/pytesseract.py:377-389 | rows contribute to a decoded column one by one, in row order |
| Tsv.ColumnSkipsShortRow | pytesseract/pytesseract.py:378-379 | a row with at most `i` cells adds nothing to column `i`, and the other rows are unaffected |
| Tsv.PickDense | pytesseract/pytesseract.py:377-379 | when every row is wide enough, column `i` holds each row's `i`-th cell |
| Tsv.ColumnDense | pytesseract/pytesseract.py:377-389 | when every row is wide enough, column `i` holds each row's decoded `i`-th cell |
| Tsv.TextColumnVerbatim | pytesseract/pytesseract.py:386-387 | the text column holds the raw cells unchanged |
| Tsv.ShortInputIsEmpty | pytesseract/pytesseract.py:361-363 | a text with at most one line after stripping decodes to the empty dict |
| Tsv.RectangularRows | pytesseract/pytesseract.py:365-389 | for distinct column names and rows as wide as the header, the keys are the header in order and column `i` holds one decoded cell per row |
| Tsv.RectangularColumn | pytesseract/pytesseract.py:375-389 | one column of a rectangular table holds one decoded cell per row |
| Tsv.DedupDistinct | pytesseract/pytesseract.py:375-376 | distinct header names are the keys in header order |
| Tsv.LastIndexDistinct | pytesseract/pytesseract.py:375-376 | in distinct header names, a name's last position is its only position |
| LegacyTsv.ColumnValues | src/pytesseract.py:166-168 | a column decodes exactly when every row has the cell and it decodes, giving one value per row; otherwise it fails with the error of the first bad row |
| LegacyTsv.Fill | src/pytesseract.py:165-168 | the column loop succeeds exactly when every cell of the columns decodes, and then fills the dict along the header; otherwise it fails with the error of the first bad column |
| LegacyTsv.ColumnFails | src/pytesseract.py:165-168 | a failing column means some cell among the columns so far is bad |
| LegacyTsv.ColumnsGrow | src/pytesseract.py:165-168 | one more good column extends the good columns |
| LegacyTsv.DecodeRows | src/pytesseract.py:156-168 | decoding succeeds exactly when every cell decodes; then the keys are the header names without repeats and each holds one value per data row |
| LegacyTsv.FillAll | src/pytesseract.py:165-168 | a filled header has its distinct names as keys, each holding the column of its last position |
| LegacyTsv.ColumnOk | src/pytesseract.py:165-168 | in a decodable table every column decodes |
| LegacyTsv.Rows | src/pytesseract.py:152 | the text cut at newlines, without stripping, always has a header row |
| LegacyTsv.FileToDict | src/pytesseract.py:150-170 | for text cut at every newline: decoding succeeds exactly when every cell of the columns decodes; then the keys are the header tokens without repeats, each holding one value per data row from its last column; otherwise the error is that of the first bad column |
| LegacyTsv.HeaderOnly | src/pytesseract.py:152-168 | a text without a newline is a header alone and gives every column an empty list |
| LegacyTsv.DecodeCellSpec | src/pytesseract.py:167 | the text column is kept verbatim; any other cell must be an integer literal, or the call fails with `ValueError` |
| LegacyTsv.DecoderApply | src/pytesseract.py:167 | a column's decoder decodes each cell by whether it is the text column |
| LegacyTsv.NoSkippedRow | src/pytesseract.py:167 | a row too short for a column fails with `IndexError` instead of being skipped |
| Osd.LineEntry | pytesseract/pytesseract.py:410-412 | an accepted line yields one of the six OSD fields |
| Osd.Decode | pytesseract/pytesseract.py:409-413 | the comprehension fails exactly when some line is rejected, with the first rejected line's error; otherwise each field holds its last accepted value and the keys are the accepted fields in the order of their first accepted line |
| Osd.DecodeStep | pytesseract/pytesseract.py:409-413 | one more line keeps that characterisation |
| Osd.StepFailure | pytesseract/pytesseract.py:409-413 | one more line keeps the failure half of that characterisation |
| Osd.StepSuccess | pytesseract/pytesseract.py:409-413 | one more line keeps the success half of that characterisation |
| Osd.StepValues | pytesseract/pytesseract.py:409-413 | after one more accepted or ignored line, every field holds its last accepted value |
| Osd.StepKeyOrder | pytesseract/pytesseract.py:409-413 | after one more line, the keys are still the accepted fields in first-seen order |
| Osd.KeyOrderStep | pytesseract/pytesseract.py:409-410 | assigning a field extends the key order as one more accepted field does |
| Osd.StillFailing | pytesseract/pytesseract.py:409-413 | a block whose first rejected line raises an error fails with that error |
| Osd.LastRejected | pytesseract/pytesseract.py:409-413 | a block whose only rejected line is the last fails with that line's error |
| Osd.EarlierFailure | pytesseract/pytesseract.py:409-413 | the first rejected line stays the first rejected line when another line follows |
| Osd.PutKeepsDistinct | pytesseract/pytesseract.py:409-410 | assigning a field keeps the keys distinct and adds only that field |
| Osd.OsdToDict | pytesseract/pytesseract.py:408-413 | `osd_to_dict` fails exactly when some line of the block raises, with the first such line's error, and otherwise gives each field its last accepted value, the fields in the order of their first accepted line |
| Osd.UnknownLabelRaises | pytesseract/pytesseract.py:410-412 | a two-part line with a label outside `OSD_KEYS` raises `KeyError` with that label |
| Osd.PlainLineIgnored | pytesseract/pytesseract.py:411-412 | a line without `": "` contributes nothing and raises nothing |
| Osd.IntFieldAccepts | pytesseract/pytesseract.py:394-396 | an int field takes a value exactly when it is all digits, and then holds its number under the renamed field |
| Osd.StrFieldAccepts | pytesseract/pytesseract.py:405 | the `Script` field takes any value verbatim |
| Osd.ScriptKey | pytesseract/pytesseract.py:71 | `Script` is the string field `script` |
| Osd.KnownLine | pytesseract/pytesseract.py:410-412 | a line with a known label contributes its converted value exactly when the value is valid for the field |
| Osd.RotateExample | pytesseract/pytesseract.py:69 | `Rotate: 90` decodes to `rotate = 90` |
| Osd.Ninety | pytesseract/pytesseract.py:396 | `90` is all digits and reads as 90 |
| Osd.NegativeRotateDropped | pytesseract/pytesseract.py:394-396 | `Rotate: -90` is dropped because `-90` is not all digits |
| Osd.RotateLine | pytesseract/pytesseract.py:410-412 | a short `Rotate` line is one line holding the rotation exactly when its value is all digits |
| Osd.DecodeOne | pytesseract/pytesseract.py:409-413 | a single line decodes as one step from the empty dict |
| Command.Positional | pytesseract/pytesseract.py:269-271 | the output-kind tokens passed positionally are a subsequence of the tokens |
| Command.PositionalMembers | pytesseract/pytesseract.py:269-271 | a token is passed exactly when it is not `box`, `osd`, `tsv` or `xml` |
| Command.PositionalAppend | pytesseract/pytesseract.py:269-271 | tokens are filtered one by one, keeping their order |
| Command.NiceArgs | pytesseract/pytesseract.py:256-259 | `nice -n <n>` is present exactly off Windows with a non-zero niceness, and its number reads back as the niceness |
| Command.LangArgs | pytesseract/pytesseract.py:263-264 | `-l <lang>` is present exactly when a language is given |
| Command.ConfigTokens | pytesseract/pytesseract.py:266-267 | an empty config adds no token; any other is split with POSIX rules off Windows |
| Command.RunArgv | pytesseract/pytesseract.py:255-271 | the vector fails exactly when the config cannot be tokenized; otherwise it is the nice prefix, the engine with input and output base, the language, the config tokens and the positional kinds, each at its place |
| Command.Layout | pytesseract/pytesseract.py:255-271 | each of the five parts of the vector sits at its place |
| Command.TxtWord | pytesseract/pytesseract.py:484 | `txt` is one token |
| Command.PlainTextArgv | pytesseract/pytesseract.py:255-271 | plain text with default arguments runs exactly `[cmd, input, outBase, "txt"]` |
| Runner.GetErrors | pytesseract/pytesseract.py:170-173 | the error message is one line without surrounding whitespace |
| Runner.RunTesseract | pytesseract/pytesseract.py:274-284 | a run succeeds exactly when the engine started, did not time out and exited with 0; a timeout is a real number of seconds, 0 meaning none; a missing executable is `TesseractNotFoundError`, another spawn error propagates, a timeout sets the status to -1 and raises, a non-zero status raises `TesseractError` with the error message |
| Runner.GetErrorsOfLines | pytesseract/pytesseract.py:170-173 | a standard error of whole lines, ended by a newline or not, gives those lines joined by single spaces and stripped |
| Runner.SubSecondTimeout | pytesseract/pytesseract.py:141-152 | a run longer than a timeout of a nanosecond is killed with status -1 and raises, and a timeout of 0 never fires |
| Runner.GetErrorsOneLine | pytesseract/pytesseract.py:170-173 | one trimmed line followed by a newline is its own message |
| RunOnce.Invoke | pytesseract/pytesseract.py:161-164 | the function runs exactly when the call is not cached or nothing is stored; a run's value is stored, and otherwise the stored value is returned unchanged |
| RunOnce.CachedAfterSuccess | pytesseract/pytesseract.py:161-164 | after a call that returned a value, a cached call returns the same value without running |
| RunOnce.Calls | pytesseract/pytesseract.py:159-167 | a sequence of calls answers every call and runs the function at most once per call |
| RunOnce.StoredStaysCached | pytesseract/pytesseract.py:161-164 | once a value is stored, cached calls never run the function and all return that value |
| RunOnce.AtMostOnce | pytesseract/pytesseract.py:161-166 | cached calls from an empty cache whose first run succeeds run the function exactly once, and all return its value |
| Version.LessIsLexicographic | pytesseract/pytesseract.py:466 | version order is the lexicographic order on zero-padded release numbers |
| Version.LessTotal | pytesseract/pytesseract.py:466 | the order is asymmetric, and two releases that are not ordered are equal up to trailing zeros |
| Version.Numerals | pytesseract/pytesseract.py:465 | each component's numeral is its `str` |
| Version.ParseRelease | pytesseract/pytesseract.py:465 | a version parses exactly when its stripped text is dot-separated digit runs, and then holds their values |
| Version.RenderChars | pytesseract/pytesseract.py:465 | a rendered release is digits and dots, and starts and ends with a digit |
| Version.RenderPieces | pytesseract/pytesseract.py:465 | a rendered release splits at its dots into its numerals |
| Version.ParseRender | pytesseract/pytesseract.py:465 | reading a rendered release gives it back |
| Version.LStripPrintable | pytesseract/pytesseract.py:461 | `lstrip(string.printable[10:])` drops exactly the leading non-digit printable characters |
| Version.Token | pytesseract/pytesseract.py:461-462 | the version token is a prefix of the stripped banner, holds neither a space nor a `-`, and starts with a digit or a non-printable |
| Version.LStripPrefix | pytesseract/pytesseract.py:461 | a prefix of non-digit printables is dropped entirely |
| Version.CutAfterRelease | pytesseract/pytesseract.py:461-462 | a token without spaces or `-` followed by a space or a `-` is cut off exactly |
| Version.BannerToken | pytesseract/pytesseract.py:460-462 | a banner `<words> <release>[<line break>][ ...or -...]` yields the release and its line break as its token, which parses back to the release |
| Version.TokenAfterPrefix | pytesseract/pytesseract.py:461-462 | after words of non-digit printables, a token starting with a digit and holding no space or `-` is cut off exactly |
| Version.GapRelease | pytesseract/pytesseract.py:465 | a release followed by whitespace still parses as the release |
| Version.GapToken | pytesseract/pytesseract.py:461-462 | a release followed by a line break starts with a digit and holds no space or `-` |
| Version.StripBannerPrefix | pytesseract/pytesseract.py:461 | the words in front of a release are stripped and nothing more |
| Version.GetVersion | pytesseract/pytesseract.py:450-470 | a missing engine is `TesseractNotFoundError`; a failing engine is `CalledProcessError`; otherwise the version is the parsed token when it parses and, while assertions run, is at least 3.05, and `SystemExit` naming the banner otherwise |
| Version.AltoGate | pytesseract/pytesseract.py:527-528 | ALTO output proceeds exactly for a version of at least 4.1.0; a failed query propagates |
| Version.TsvGate | pytesseract/pytesseract.py:590-591 | TSV output proceeds exactly for a version of at least 3.05; a failed query propagates |
| Version.TsvGateOpen | pytesseract/pytesseract.py:466 | while assertions run, the TSV gate passes exactly the versions the query returns; under `python -O` a release below 3.05 reaches the gate and raises `TSVNotSupported` |
| Version.BannerVersion | pytesseract/pytesseract.py:460-470 | a banner holding a release, with or without a line break after it, is accepted exactly when assertions are off or the release is at least 3.05, and then gives that release |
| Version.NewlineBanner | pytesseract/pytesseract.py:460-470 | the banner `tesseract 4.1.1\n leptonica-1.79.0\n` gives release 4.1.1 |
| Version.GateExamples | pytesseract/pytesseract.py:82-83 | 3.04 is below the minimum; 4.0 passes the minimum but not the ALTO gate; 4.1 equals 4.1.0 |
| Languages.ListArgv | pytesseract/pytesseract.py:418-420 | the listing command is the engine with `--list-langs`, then the config tokens; a bad config fails |
| Languages.StripAll | pytesseract/pytesseract.py:438 | every line is stripped, one for one |
| Languages.KeepLanguages | pytesseract/pytesseract.py:439-440 | exactly the entries that match `^[a-z_]+$` are kept |
| Languages.GetLanguages | pytesseract/pytesseract.py:422-442 | the engine is missing exactly when it cannot run or exits with other than 0 or 1; otherwise the result is the stripped lines that are language codes |
| Languages.KeepAppend | pytesseract/pytesseract.py:437-440 | filtering keeps the order of the listing |
| Languages.KeepNames | pytesseract/pytesseract.py:439-440 | language codes are all kept |
| Languages.StripNames | pytesseract/pytesseract.py:438 | language codes are not changed by stripping |
| Languages.NameTrimmed | pytesseract/pytesseract.py:438 | one language code is not changed by stripping |
| Languages.NameOneLine | pytesseract/pytesseract.py:437 | a language code holds no newline |
| Languages.ListingLines | pytesseract/pytesseract.py:437 | a title line, one code per line and a final newline split back into those lines |
| Languages.StripAllAppend | pytesseract/pytesseract.py:438 | stripping a listing works part by part |
| Languages.StripListing | pytesseract/pytesseract.py:437-438 | stripping such a listing touches only its title |
| Languages.ListingKept | pytesseract/pytesseract.py:437-440 | of such a listing exactly the codes are kept |
| Languages.ListedNames | pytesseract/pytesseract.py:435-442 | the usual listing gives back exactly its codes, in order |
| Languages.JoinNonEmpty | pytesseract/pytesseract.py:436 | a listing of two or more lines is not empty |
| Facade.ExtensionConfigs | pytesseract/pytesseract.py:302-303 | each requested extension maps to its `EXTENTION_TO_CONFIG` entry, or to nothing |
| Facade.MultiConfig | pytesseract/pytesseract.py:302-308 | the multi-output config is empty exactly when the extensions add no config variable; otherwise its tokens are `-c` and then every variable in order |
| Facade.StrippedJoinWords | pytesseract/pytesseract.py:302-304 | the stripped join holds the pieces' words, and is empty exactly when they have none |
| Facade.DashC | pytesseract/pytesseract.py:306 | `-c` in front of a config is one more token |
| Facade.ExtensionConfigBlank | pytesseract/pytesseract.py:75-80 | a known extension's config is never blank; an unknown one is empty |
| Facade.ExtensionConfigEnd | pytesseract/pytesseract.py:75-80 | every known extension's config ends in `1` or `x` |
| Facade.MultiConfigEmpty | pytesseract/pytesseract.py:302-308 | no config is passed exactly when none of the extensions is `box`, `xml`, `hocr` or `tsv` |
| Facade.MultiOutputKinds | pytesseract/pytesseract.py:314 | the extensions joined by spaces read back as the same extensions on the command line |
| Facade.MultiReads | pytesseract/pytesseract.py:323-329 | one read per extension, in order, of `<base>.<extension>`, as bytes exactly when asked for or for pdf and hocr |
| Facade.SwitchFirst | pytesseract/pytesseract.py:593 | `f'{switch} {config.strip()}'` has the switch's tokens first, then the user's |
| Facade.SwitchLast | pytesseract/pytesseract.py:547-549 | `f'{config.strip()} {switch}'` has the user's tokens first, then the switch's |
| Facade.Select | pytesseract/pytesseract.py:596-604 | the output-type table succeeds exactly for bytes, dict, string, or a data frame when pandas is present; bytes reads raw bytes, string reads text, dict decodes; frames read raw bytes for pandas; a missing pandas is `PandasNotSupported`; any other type is `KeyError` with that type |
| Facade.ImageToString | pytesseract/pytesseract.py:473-490 | text output with the language and config as given; bytes are raw, a string is text, a dict is `{'text': ...}`, any other type is `KeyError` |
| Facade.ImageToPdfOrHocr | pytesseract/pytesseract.py:493-513 | only pdf and hocr, else `ValueError`; always bytes; hocr puts its variable before the user's config |
| Facade.ImageToAlto | pytesseract/pytesseract.py:516-533 | ALTO output needs the version gate first; then bytes with the ALTO variable before the user's config |
| Facade.ImageToBoxes | pytesseract/pytesseract.py:536-560 | box output with the box-file variables after the user's config; bytes are raw, a string is text, a dict decodes the box header and the output at spaces with text column 0, any other type is `KeyError` |
| Facade.ImageToData | pytesseract/pytesseract.py:576-604 | the TSV gate stops the call first; then TSV output with the TSV variable before the user's config; bytes are raw, a string is text, a dict decodes at tabs with the last column as text, a data frame needs pandas or raises `PandasNotSupported`, any other type is `KeyError` |
| Facade.ImageToOsd | pytesseract/pytesseract.py:607-625 | OSD output with `--psm 0` before the user's config and the language as given; bytes are raw, a string is text, a dict goes through `osd_to_dict`, any other type is `KeyError` |
| Facade.OsdDefaultLanguage | pytesseract/pytesseract.py:609 | with its default language `osd`, an OSD run passes `-l osd`, where `image_to_string` by default passes no language |
| Facade.Prepare | pytesseract/pytesseract.py:186-204 | only images and arrays (with numpy) pass; a missing format is PNG; another format must be supported or raises `TypeError`; the result carries its format and no alpha; a caller's image without alpha is the returned image, so its `format` is set too, and an array or an image with alpha is left as it was |
| Facade.PrepareIdempotent | pytesseract/pytesseract.py:193-204 | preparing a prepared image changes nothing, and the caller's image is that same image |
| Facade.CallerImageMarked | pytesseract/pytesseract.py:197-203 | the caller's image without a format comes back marked PNG when it has no alpha, and unchanged when it has alpha |
| Facade.InputFile | pytesseract/pytesseract.py:208-217 | a path is used as given; an image is saved as `<temp>_input.<format>` for a supported format |
| Facade.OutputKindArgument | pytesseract/pytesseract.py:269-271 | box, TSV, OSD and ALTO output add no command-line token; txt, pdf and hocr add their name |
| Facade.BoxHeaderColumns | pytesseract/pytesseract.py:555 | the box header splits into six distinct column names |
| Facade.BoxColumnsOneWord | pytesseract/pytesseract.py:555 | no box column name holds a space |
| Facade.BoxColumnsDistinct | pytesseract/pytesseract.py:555 | the six box column names are distinct |
| Facade.ColumnNameOneWord | pytesseract/pytesseract.py:555 | a box column name holds no space |
| Facade.StripKeepsPrefix | pytesseract/pytesseract.py:361 | stripping a text with a non-blank start and a non-blank rest keeps the start |
| Facade.HeaderLineSplits | pytesseract/pytesseract.py:555 | the header line is cut off the front of a box file |
| Facade.HeaderHasNoBreak | pytesseract/pytesseract.py:555 | the header line holds no newline |
| Facade.BoxDictKeys | pytesseract/pytesseract.py:554-558 | a box dict of non-blank output has exactly the six box columns as keys, in order |
| Facade.BoxLines | pytesseract/pytesseract.py:554-558 | non-blank box output gives the header line and at least one more line |
| Facade.StrippedBox | pytesseract/pytesseract.py:555 | stripping box output keeps the header line in front |
| Facade.HeaderStart | pytesseract/pytesseract.py:555 | the header starts with the `char` column |
| Cli.Argv | pytesseract/pytesseract.py:629-632 | the vector of a file and an optional language has 2 or 4 entries, with the file last |
| Cli.ParseArgs | pytesseract/pytesseract.py:629-635 | arguments are accepted exactly with 2 entries, or 4 with `-l` second; the file is last, and the language is the third entry of 4 |
| Cli.ParseArgv | pytesseract/pytesseract.py:629-632 | every vector built from arguments parses back to them |
| Cli.ArgvOfParse | pytesseract/pytesseract.py:629-632 | every accepted vector is the vector of what it parsed to |
| Cli.MainExit | pytesseract/pytesseract.py:628-645 | status 2 for a usage error; 0 for printed text; 1 for a missing engine or an OS error; any other exception is uncaught |
| Cli.UsageIsDistinct | src/pytesseract.py:236-242 | a usage error exits the same way whatever the recognition would do, with neither 0 nor 1 |
| Legacy.NiceText | src/pytesseract.py:99 | `str(nice)` is `None` for no niceness and reads back as the number otherwise |
| Legacy.NicePrefix | src/pytesseract.py:98-99 | `nice -n <nice>` is present exactly off Windows when `nice != 0`, which `None` also satisfies |
| Legacy.DefaultNiceBreaksCommand | src/pytesseract.py:125 | the default `nice=None` off Windows runs `nice -n None`, whose niceness is not a number |
| Legacy.NoneIsNoNumber | src/pytesseract.py:99 | `None` is not an integer literal |
| Legacy.OutputKind | src/pytesseract.py:108-109 | the extension is named on the command line exactly when it is not `box` |
| Legacy.RunArgv | src/pytesseract.py:96-109 | the vector fails exactly when the config cannot be tokenized; otherwise it is the nice prefix, the engine with input and output base, the language, the config tokens and the output kind, each at its place |
| Legacy.DefaultRunArgv | src/pytesseract.py:96-109 | with niceness 0 the vector is built and starts with the engine |
| Legacy.KindsOnCommandLine | src/pytesseract.py:108-109 | osd, tsv and xml are named on the command line here, and not in the current module |
| Legacy.CheckStatus | src/pytesseract.py:115-118 | a run succeeds exactly with status 0; otherwise `TesseractError` carries the status and a one-line trimmed message |
| Legacy.CheckStatusAgrees | src/pytesseract.py:43-46 | the older status check ends a finished run exactly as the current module does |
| Legacy.SaveFormat | src/pytesseract.py:71-73 | the saved format is one of JPEG, PNG, TIFF, BMP and GIF: a format among them is kept, anything else is PNG |
| Legacy.SaveFormatIdempotent | src/pytesseract.py:71-73 | saving a saved image keeps its format |
| Legacy.WebpBecomesPng | src/pytesseract.py:72-73 | a WEBP image, which the current module accepts, is saved as PNG here |
| Legacy.Prepare | src/pytesseract.py:58-65 | images are returned unchanged, arrays with numpy become images without a format, anything else is `TypeError` |
| Legacy.PrepareAcceptsSameObjects | src/pytesseract.py:58-65 | the older `prepare` accepts exactly the objects the current one accepts, plus those the current one refuses only for their format |
| Legacy.Files | src/pytesseract.py:130-141 | the image is saved as `<temp>.<format>`, the output base is `<temp>_out`, and the output is `<temp>_out.<extension>` |
| Legacy.FilesDistinct | src/pytesseract.py:130-141 | the input image and the output file never collide, and both start with the temporary name |
| Legacy.ReadOutput | src/pytesseract.py:142-145 | bytes are returned as read; text is stripped and keeps its words |
| Legacy.Dispatch | src/pytesseract.py:188-193 | bytes exactly for the bytes type; the dict decoding exactly for the dict type; any other type is plain output |
| Legacy.UnknownOutputType | src/pytesseract.py:188-193 | an unknown output type is read as a string here, where the current module raises `KeyError` |
| Legacy.ImageToBoxes | src/pytesseract.py:196-214 | box output with ` batch.nochop makebox` appended to the config; a dict decodes the box header and the output |
| Legacy.ImageToString | src/pytesseract.py:173-193 | the deprecated `boxes` flag hands over to `image_to_boxes`; otherwise text output with the config as given, bytes exactly for the bytes type, `{'text': ...}` for a dict and the plain output for any other type |
| Legacy.ImageToData | src/pytesseract.py:217-232 | TSV output with the config as given; bytes exactly for the bytes type; a dict decodes at tabs with the last column as text; any other type is the plain output |
| Legacy.BoxesWords | src/pytesseract.py:204 | the appended suffix adds exactly the tokens `batch.nochop` and `makebox` |
| Legacy.BoxDictKeys | src/pytesseract.py:206-210 | a box dict that decodes has exactly the six box columns as keys, in order |
| Legacy.BoxRowsHeader | src/pytesseract.py:207-210 | the header row of a box file is the box header cut at spaces |
| Original.RunArgv | tesseract.py:51-53 | the command is the engine with input and output base, then `-l <lang>` exactly when a language is given |
| Original.CurrentWithDefaults | tesseract.py:51-53 | it is the current module's vector with no niceness, no config and no output kind |
| Original.ErrorLines | tesseract.py:72-73 | the kept lines are exactly the lines containing `Error` |
| Original.ErrorLinesAppend | tesseract.py:72-73 | filtering keeps the lines' order |
| Original.GetErrors | tesseract.py:66-74 | the message is empty exactly when no line contains `Error`, and otherwise splits at newlines into exactly those lines |
| Original.KeptJoin | tesseract.py:74 | kept lines joined with newlines are empty only without lines, and split back into them |
| Original.GetErrorsOfLines | tesseract.py:72-74 | for a standard error of whole lines, ended by a newline or not, the message is the lines containing `Error` joined by newlines |
| Original.Raise | tesseract.py:87-91 | raising `TesseractError(status, errors)` gives that error exactly when `__init__` takes three parameters, and `TypeError` otherwise |
| Original.ImageToString | tesseract.py:92-113 | both temporary files are removed on every path; a non-zero status raises before the output is read; a missing output file is `IOError`; otherwise the text has only ASCII whitespace stripped from its ends and keeps its words |
| Original.SeparatorKept | tesseract.py:109 | the output `abc\x1c` is returned unchanged, though Python 3's `strip()` would give `abc` |
| Original.AsWrittenRaisesTypeError | tesseract.py:88 | as written, a failing engine run surfaces as `TypeError` |
| Original.FixedRaisesTesseractError | tesseract.py:106-108 | with `self` in place, a failing run raises `TesseractError` with the status and the error lines |
| Original.FilesDistinct | tesseract.py:100-102 | the two temporary files are always different: one ends in `.bmp`, the other in `.txt` |
| Original.MainArgs | tesseract.py:115-121 | the script accepts exactly one argument, the image file, and exits with 1 otherwise |
| Original.MainArgsAgree | tesseract.py:116-118 | the script accepts exactly the vectors the current `main` accepts without a language, and reads the same file |

## Left out

- The engine process is not modelled: `Popen`, pipes, `communicate`, `kill`'s timing, `STARTUPINFO` and the environment. `Runner` takes the spawn outcome as a value, and so do `Languages` and `Version`.
- Temporary files are not modelled: `NamedTemporaryFile`, `tempfile.mktemp`, `os.tempnam`, and the glob-based `cleanup`. The temporary name is a parameter, and `Original` lists the files its `finally` clause removes.
- `save` resolves a path with `realpath(normpath(normcase(...)))`. File-system paths are not modelled, so `Facade.InputFile` returns the path unchanged.
- PIL pixel work is not modelled: flattening alpha onto white, mode conversion, `Image.save` and its failures, and opening the image in `main`. What the recognition did is a value in `Cli.MainExit` and `Original.ImageToString`.
- The numpy and pandas conversions are external libraries, so they are not modelled. `Facade.Select` stops at the decision to read raw bytes for a data frame.
- UTF-8 decoding is not modelled: text is already decoded, and bytes output is the same string.
- `shlex.split` is an arbitrary tokenizer parameter. Its quoting rules are not modelled, and neither is what it returns for an empty string in the older module.
- Numbers.ParseDecimal reads only decimal literals with an optional fraction. Python's `float()` also takes exponents, `inf`, `nan` and underscores; floating point is not modelled.
- Numbers.ParseInt, like `Numbers.IsDigits`, accepts only ASCII digits, whereas Python also accepts other Unicode decimal digits.
- Tsv.CoerceFallback: for `inf`, `infinity` or an overflowing literal such as `1e999`, `int(float())` raises `OverflowError`, which `file_to_dict` does not catch. Python's `float()` forms other than decimal literals are not modelled, so the model keeps such a cell as text instead of failing.
- Osd.LineEntry keeps a float field's value as the accepted literal, not as a float, because floating point is not modelled.
- Version.ParseRelease accepts only release numbers (dot-separated digit runs). `packaging` also accepts epochs, pre-, post- and dev-releases and local labels, and those banners are refused here.
- Languages.GetLanguages takes the line separator (`os.linesep`) as a non-empty parameter.
- Tsv.FileToDict, LegacyTsv.FileToDict: both require a non-empty delimiter. Every caller passes a space or a tab; `split('')` would raise `ValueError`.
- `run_once` is modelled as a generic cache (`RunOnce`). Its application to `get_languages` and `get_tesseract_version` is not composed with those models.
- `LOGGER.debug` and the deprecation `print` in the older `image_to_string` are output only, so they are not modelled.
- Legacy `main` prints an error for an `IOError` and exits with 1. That path behaves like `Cli.MainExit`'s `OsFailure` and is not modelled separately.
- `Original` does not model Python 2's status for an uncaught exception; the script's exceptions are `Failure` values.

## Findings

| source | as written | input that shows it | evidently intended | confidence | as-written member | corrected member |
|---|---|---|---|---|---|---|
| src/pytesseract.py:125 | `run_and_get_output` defaults `nice` to `None`, and `run_tesseract` tests `nice != 0`, which `None` passes | `run_and_get_output(image, 'txt')` on Linux builds `nice -n None tesseract ...` | a default of 0, as every `image_to_*` call passes, so that no `nice` prefix is added | medium, not executed | Legacy.DefaultNiceBreaksCommand | Legacy.DefaultRunArgv |
| tesseract.py:88 | `TesseractError.__init__(status, message)` has no `self` | any engine run with a non-zero status: `raise TesseractError(status, errors)` passes three arguments to a two-parameter `__init__` | `__init__(self, status, message)`, so that the status and error lines reach the caller | high, not executed | Original.AsWrittenRaisesTypeError | Original.FixedRaisesTesseractError |
