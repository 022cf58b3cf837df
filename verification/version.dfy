/** `get_tesseract_version` of pytesseract/pytesseract.py and the two
    feature gates that consult it. The engine's `--version` banner is reduced
    to a version token, which is read as a release number (dot-separated
    integers) and compared with the minimum supported release. */
module Version {
  import opened Wrappers
  import opened Text
  import opened Numbers

  // ---------------------------------------------------------------- releases

  /** A release number such as `4.1.0`. */
  type Release = seq<nat>

  /** `TESSERACT_MIN_VERSION`, `Version('3.05')`. */
  const MinRelease: Release := [3, 5]

  /** `TESSERACT_ALTO_VERSION`, `Version('4.1.0')`. */
  const AltoRelease: Release := [4, 1, 0]

  /** Component `i`, with missing trailing components read as zero. */
  function At(v: Release, i: nat): nat {
    if i < |v| then v[i] else 0
  }

  function Tail(v: Release): Release {
    if |v| > 0 then v[1..] else []
  }

  /** `<` on versions: the first differing component decides, and trailing
      zeros do not count (`4.1` and `4.1.0` are equal). */
  predicate Less(a: Release, b: Release)
    decreases |a| + |b|
  {
    if |a| == 0 && |b| == 0 then false
    else if At(a, 0) != At(b, 0) then At(a, 0) < At(b, 0)
    else Less(Tail(a), Tail(b))
  }

  /** `a` is below `b` at component `k` and agrees with it before. */
  predicate LessAt(a: Release, b: Release, k: nat) {
    (forall i: nat :: i < k ==> At(a, i) == At(b, i)) && At(a, k) < At(b, k)
  }

  /** `Less` is the lexicographic order on zero-padded releases. */
  lemma {:induction false} LessIsLexicographic(a: Release, b: Release)
    ensures Less(a, b) <==> exists k: nat :: LessAt(a, b, k)
    decreases |a| + |b|
  {
    assert forall i: nat :: At(Tail(a), i) == At(a, i + 1);
    assert forall i: nat :: At(Tail(b), i) == At(b, i + 1);
    if |a| == 0 && |b| == 0 {
      assert forall k: nat :: !LessAt(a, b, k);
    } else if At(a, 0) < At(b, 0) {
      assert LessAt(a, b, 0);
    } else if At(a, 0) > At(b, 0) {
      forall k: nat
        ensures !LessAt(a, b, k)
      {
        if k > 0 {
          assert At(a, 0) != At(b, 0);
        }
      }
    } else {
      LessIsLexicographic(Tail(a), Tail(b));
      if Less(a, b) {
        var k: nat :| LessAt(Tail(a), Tail(b), k);
        assert LessAt(a, b, k + 1) by {
          forall i: nat | i < k + 1
            ensures At(a, i) == At(b, i)
          {
            if i > 0 {
              assert At(Tail(a), i - 1) == At(Tail(b), i - 1);
            }
          }
        }
      } else {
        forall k: nat
          ensures !LessAt(a, b, k)
        {
          if k > 0 && LessAt(a, b, k) {
            assert LessAt(Tail(a), Tail(b), k - 1) by {
              forall i: nat | i < k - 1
                ensures At(Tail(a), i) == At(Tail(b), i)
              {
                assert At(a, i + 1) == At(b, i + 1);
              }
            }
          }
        }
      }
    }
  }

  /** No release is below itself, and of two different-valued releases
      exactly one is below the other. */
  lemma {:induction false} LessTotal(a: Release, b: Release)
    ensures !(Less(a, b) && Less(b, a))
    ensures !Less(a, b) && !Less(b, a) ==> forall i: nat :: At(a, i) == At(b, i)
    decreases |a| + |b|
  {
    if |a| == 0 && |b| == 0 {
    } else if At(a, 0) == At(b, 0) {
      LessTotal(Tail(a), Tail(b));
      forall i: nat
        ensures !Less(a, b) && !Less(b, a) ==> At(a, i) == At(b, i)
      {
        if i > 0 {
          assert At(Tail(a), i - 1) == At(a, i) && At(Tail(b), i - 1) == At(b, i);
        }
      }
    }
  }

  // ---------------------------------------------------------------- parsing

  /** `str(v)` of a release: its components joined with `.`. */
  function Render(v: Release): string {
    Join(Numerals(v), ".")
  }

  /** The numerals of the components. */
  function Numerals(v: Release): (parts: seq<string>)
    ensures |parts| == |v|
    ensures forall i :: 0 <= i < |v| ==> parts[i] == NatToString(v[i])
  {
    seq(|v|, i requires 0 <= i < |v| => NatToString(v[i]))
  }

  /** Every piece is a non-empty run of digits. */
  predicate AllNumerals(parts: seq<string>) {
    forall i :: 0 <= i < |parts| ==> IsDigits(parts[i])
  }

  /** `packaging.version.parse` restricted to release numbers: surrounding
      whitespace is ignored, and the rest must be one or more digit runs
      separated by single dots, read as decimal numbers. */
  function ParseRelease(s: string): (r: Option<Release>)
    ensures var parts := Split(Strip(s), ".");
      && (r.Some? <==> AllNumerals(parts))
      && (r.Some? ==> |r.value| == |parts| > 0 && forall i :: 0 <= i < |parts| ==> r.value[i] == DigitsValue(parts[i]))
  {
    var parts := Split(Strip(s), ".");
    if AllNumerals(parts) then
      Some(seq(|parts|, i requires 0 <= i < |parts| => DigitsValue(parts[i])))
    else None
  }

  /** Characters of a rendered release. */
  predicate ReleaseChar(c: char) {
    IsDigit(c) || c == '.'
  }

  /** A rendered release is made of digits and dots and starts with a digit. */
  lemma {:induction false} RenderChars(v: Release)
    requires |v| > 0
    ensures |Render(v)| > 0 && IsDigit(Render(v)[0]) && IsDigit(Render(v)[|Render(v)| - 1])
    ensures forall j :: 0 <= j < |Render(v)| ==> ReleaseChar(Render(v)[j])
  {
    var parts := Numerals(v);
    JoinChars(parts, ".", ReleaseChar);
    JoinEnds(parts, ".");
  }

  /** A join of non-empty pieces starts with the first piece's first character
      and ends with the last piece's last character. */
  lemma {:induction false} JoinEnds(parts: seq<string>, sep: string)
    requires |parts| > 0 && forall i :: 0 <= i < |parts| ==> |parts[i]| > 0
    ensures |Join(parts, sep)| > 0
    ensures Join(parts, sep)[0] == parts[0][0]
    ensures Join(parts, sep)[|Join(parts, sep)| - 1] == parts[|parts| - 1][|parts[|parts| - 1]| - 1]
    decreases |parts|
  {
    if |parts| > 1 {
      JoinEnds(parts[1..], sep);
    }
  }

  /** A rendered release splits back into its numerals. */
  lemma {:induction false} RenderPieces(v: Release)
    requires |v| > 0
    ensures Split(Strip(Render(v)), ".") == Numerals(v)
  {
    var parts := Numerals(v);
    RenderChars(v);
    assert Trimmed(Render(v));
    StripTrimmed(Render(v));
    forall i | 0 <= i < |parts|
      ensures !Contains(parts[i], ".")
    {
      DigitsHaveNoDot(parts[i]);
    }
    SplitJoin(parts, ".");
  }

  /** Reading a rendered release gives it back. */
  lemma {:induction false} ParseRender(v: Release)
    requires |v| > 0
    ensures ParseRelease(Render(v)) == Some(v)
  {
    RenderPieces(v);
    var parts := Numerals(v);
    assert AllNumerals(parts);
    var r := ParseRelease(Render(v));
    assert r.Some? && |r.value| == |v|;
    forall i | 0 <= i < |v|
      ensures r.value[i] == v[i]
    {
      assert r.value[i] == DigitsValue(parts[i]);
      assert parts[i] == NatToString(v[i]);
    }
    assert r.value == v;
  }

  // ---------------------------------------------------------------- the banner

  /** `string.printable[10:]`: ASCII letters, punctuation and whitespace, that
      is every printable ASCII character except the digits. */
  predicate NonDigitPrintable(c: char) {
    ('\t' <= c <= '\r') || (' ' <= c <= '/') || (':' <= c <= '~')
  }

  /** `raw.lstrip(string.printable[10:])`. */
  function LStripPrintable(raw: string): (r: string)
    ensures |r| <= |raw| && r == raw[|raw| - |r|..]
    ensures forall j :: 0 <= j < |raw| - |r| ==> NonDigitPrintable(raw[j])
    ensures r == [] || !NonDigitPrintable(r[0])
    decreases |raw|
  {
    if |raw| > 0 && NonDigitPrintable(raw[0]) then LStripPrintable(raw[1..]) else raw
  }

  /** The version token: the banner without its leading non-digit printable
      prefix, cut at the first space and then at the first `-`. */
  function Token(raw: string): (r: string)
    ensures var t := LStripPrintable(raw); |r| <= |t| && r == t[..|r|]
    ensures !Contains(r, " ") && !Contains(r, "-")
    ensures r == [] || !NonDigitPrintable(r[0])
  {
    var t := LStripPrintable(raw);
    var a := Before(t, " ");
    var r := Before(a, "-");
    assert !Contains(r, " ") by {
      forall j | OccursAt(r, " ", j)
        ensures false
      {
        OccursInPrefix(a, " ", |r|, j);
      }
    }
    r
  }

  /** Dropping a prefix of non-digit printables changes nothing. */
  lemma {:induction false} LStripPrefix(prefix: string, s: string)
    requires forall j :: 0 <= j < |prefix| ==> NonDigitPrintable(prefix[j])
    ensures LStripPrintable(prefix + s) == LStripPrintable(s)
    decreases |prefix|
  {
    if |prefix| > 0 {
      assert (prefix + s)[1..] == prefix[1..] + s;
      LStripPrefix(prefix[1..], s);
    } else {
      assert prefix + s == s;
    }
  }

  /** A token without space or `-` followed by nothing, or by a space or a
      `-` and anything, is cut back to that token. */
  lemma {:induction false} CutAfterRelease(rv: string, rest: string)
    requires forall j :: 0 <= j < |rv| ==> rv[j] != ' ' && rv[j] != '-'
    requires rest == [] || rest[0] == ' ' || rest[0] == '-'
    ensures Before(Before(rv + rest, " "), "-") == rv
  {
    if rest != [] && rest[0] == '-' {
      var k := WordCut(rest);
      assert rv + rest == (rv + rest[..k]) + rest[k..];
      BeforeAt(rv + rest[..k], rest[k..], " ");
      BeforeAt(rv, rest[..k], "-");
    } else {
      BeforeAt(rv, rest, " ");
      assert rv == rv + [];
      BeforeAt(rv, [], "-");
    }
  }

  /** Whitespace other than a space, such as the newline `tesseract
      --version` prints after its release. */
  predicate LineGap(gap: string) {
    forall j :: 0 <= j < |gap| ==> IsSpace(gap[j]) && gap[j] != ' '
  }

  /** A banner `<words> <release>[<gap>][ ...|-...]`, the gap being a line
      break or other whitespace that is not a space, yields the release and
      the gap as its token, and the token reads back as the release. */
  lemma {:induction false} BannerToken(prefix: string, v: Release, gap: string, rest: string)
    requires forall j :: 0 <= j < |prefix| ==> NonDigitPrintable(prefix[j])
    requires |v| > 0
    requires LineGap(gap)
    requires rest == [] || rest[0] == ' ' || rest[0] == '-'
    ensures Token(prefix + Render(v) + gap + rest) == Render(v) + gap
    ensures ParseRelease(Token(prefix + Render(v) + gap + rest)) == Some(v)
  {
    var rv := Render(v);
    RenderChars(v);
    GapToken(rv, gap);
    assert prefix + rv + gap + rest == prefix + (rv + gap) + rest;
    TokenAfterPrefix(prefix, rv + gap, rest);
    GapRelease(v, gap);
  }

  /** The token of `<words><t><rest>` is `t` when `t` starts with a digit and
      holds no space or `-`, and `rest` is empty or starts with either. */
  lemma {:induction false} TokenAfterPrefix(prefix: string, t: string, rest: string)
    requires forall j :: 0 <= j < |prefix| ==> NonDigitPrintable(prefix[j])
    requires |t| > 0 && IsDigit(t[0])
    requires forall j :: 0 <= j < |t| ==> t[j] != ' ' && t[j] != '-'
    requires rest == [] || rest[0] == ' ' || rest[0] == '-'
    ensures Token(prefix + t + rest) == t
  {
    StripBannerPrefix(prefix, t, rest);
    CutAfterRelease(t, rest);
  }

  /** A release followed by a gap of whitespace still reads as the release. */
  lemma {:induction false} GapRelease(v: Release, gap: string)
    requires |v| > 0 && AllSpace(gap)
    ensures ParseRelease(Render(v) + gap) == Some(v)
  {
    var rv := Render(v);
    RenderChars(v);
    assert Trimmed(rv);
    StripTrailing(rv, gap);
    ParseRender(v);
  }

  /** A release with its gap starts with a digit and holds no space or `-`. */
  lemma {:induction false} GapToken(rv: string, gap: string)
    requires |rv| > 0 && IsDigit(rv[0])
    requires forall j :: 0 <= j < |rv| ==> ReleaseChar(rv[j])
    requires LineGap(gap)
    ensures |rv + gap| > 0 && IsDigit((rv + gap)[0])
    ensures forall j :: 0 <= j < |rv + gap| ==> (rv + gap)[j] != ' ' && (rv + gap)[j] != '-'
    ensures AllSpace(gap)
  {
    forall j | 0 <= j < |rv + gap|
      ensures (rv + gap)[j] != ' ' && (rv + gap)[j] != '-'
    {
      if j >= |rv| {
        assert (rv + gap)[j] == gap[j - |rv|];
      }
    }
  }

  /** The words in front of a release are stripped and nothing more. */
  lemma {:induction false} StripBannerPrefix(prefix: string, rv: string, rest: string)
    requires forall j :: 0 <= j < |prefix| ==> NonDigitPrintable(prefix[j])
    requires |rv| > 0 && IsDigit(rv[0])
    ensures LStripPrintable(prefix + rv + rest) == rv + rest
  {
    assert prefix + rv + rest == prefix + (rv + rest);
    LStripPrefix(prefix, rv + rest);
    assert (rv + rest)[0] == rv[0];
  }

  /** Where the first space of `s` is, or its length when there is none. */
  lemma {:induction false} WordCut(s: string) returns (k: nat)
    requires |s| > 0 && s[0] == '-'
    ensures 0 < k <= |s| && s[..k][0] == '-'
    ensures forall j :: 0 <= j < k ==> s[j] != ' '
    ensures k == |s| || s[k] == ' '
  {
    k := 0;
    while k < |s| && (k == 0 || s[k] != ' ')
      invariant k <= |s|
      invariant forall j :: 0 < j < k ==> s[j] != ' '
    {
      k := k + 1;
    }
  }

  // ---------------------------------------------------------------- the query

  /** What `subprocess.check_output([cmd, '--version'])` did: it could not
      start the engine (an `OSError`), or the engine exited with a status and
      printed the banner. */
  datatype VersionRun = CannotStart | Exited(returncode: int, output: string)

  /** `TesseractNotFoundError`, the `CalledProcessError` of `check_output`,
      and the `SystemExit` for an unusable version. */
  datatype VersionError =
    | TesseractNotFound
    | CalledProcessError(returncode: int)
    | InvalidVersion(message: string)

  /** `get_tesseract_version()`: the token's release when it parses and, while
      assertions run, is at least the minimum; otherwise the process exits
      with the banner quoted. `assertions` is Python's `__debug__`: the
      minimum is checked by an `assert`, which `python -O` removes, and then
      every release that parses is returned. */
  function GetVersion(run: VersionRun, assertions: bool): (r: Result<Release, VersionError>)
    ensures run.CannotStart? ==> r == Failure(TesseractNotFound)
    ensures run.Exited? && run.returncode != 0 ==> r == Failure(CalledProcessError(run.returncode))
    ensures run.Exited? && run.returncode == 0 ==>
      var parsed := ParseRelease(Token(run.output));
      && (r.Success? <==> parsed.Some? && (!assertions || !Less(parsed.value, MinRelease)))
      && (r.Success? ==> r.value == parsed.value)
      && (r.Failure? ==> r.error == InvalidVersion("Invalid tesseract version: \"" + run.output + "\""))
  {
    match run
    case CannotStart => Failure(TesseractNotFound)
    case Exited(code, raw) =>
      if code != 0 then Failure(CalledProcessError(code))
      else
        var parsed := ParseRelease(Token(raw));
        if parsed.Some? && (!assertions || !Less(parsed.value, MinRelease)) then Success(parsed.value)
        else Failure(InvalidVersion("Invalid tesseract version: \"" + raw + "\""))
  }

  // ---------------------------------------------------------------- gates

  /** Why a version-gated call stops before the engine runs. */
  datatype GateError = VersionFailed(cause: VersionError) | AltoNotSupported | TsvNotSupported

  /** `image_to_alto_xml`'s check: the version query's error propagates, and a
      release below 4.1.0 is `ALTONotSupported`. */
  function AltoGate(version: Result<Release, VersionError>): (r: Result<(), GateError>)
    ensures r.Success? <==> version.Success? && !Less(version.value, AltoRelease)
    ensures version.Failure? ==> r == Failure(VersionFailed(version.error))
    ensures version.Success? && Less(version.value, AltoRelease) ==> r == Failure(AltoNotSupported)
  {
    if version.Failure? then Failure(VersionFailed(version.error))
    else if Less(version.value, AltoRelease) then Failure(AltoNotSupported)
    else Success(())
  }

  /** `image_to_data`'s check: a release below 3.05 is `TSVNotSupported`. */
  function TsvGate(version: Result<Release, VersionError>): (r: Result<(), GateError>)
    ensures r.Success? <==> version.Success? && !Less(version.value, MinRelease)
    ensures version.Failure? ==> r == Failure(VersionFailed(version.error))
    ensures version.Success? && Less(version.value, MinRelease) ==> r == Failure(TsvNotSupported)
  {
    if version.Failure? then Failure(VersionFailed(version.error))
    else if Less(version.value, MinRelease) then Failure(TsvNotSupported)
    else Success(())
  }

  // ---------------------------------------------------------------- properties

  /** While assertions run, the version query itself refuses releases below
      3.05, so the data gate passes whenever the query succeeds. Under
      `python -O` a lower release gets through the query and the gate raises
      `TSVNotSupported` for it. */
  lemma {:induction false} TsvGateOpen(run: VersionRun, assertions: bool)
    ensures assertions ==> (TsvGate(GetVersion(run, assertions)).Success? <==> GetVersion(run, assertions).Success?)
    ensures !assertions && GetVersion(run, assertions).Success? && Less(GetVersion(run, assertions).value, MinRelease) ==>
      TsvGate(GetVersion(run, assertions)) == Failure(TsvNotSupported)
  {
  }

  /** A banner such as `tesseract 5.3.0-...`, `tesseract v4.1.1 ...` or
      `tesseract 4.1.1\n leptonica-...` is accepted exactly when its release
      parses and, while assertions run, is at least 3.05; then it gives that
      release. */
  lemma {:induction false} BannerVersion(prefix: string, v: Release, gap: string, rest: string, assertions: bool)
    requires forall j :: 0 <= j < |prefix| ==> NonDigitPrintable(prefix[j])
    requires |v| > 0
    requires LineGap(gap)
    requires rest == [] || rest[0] == ' ' || rest[0] == '-'
    ensures GetVersion(Exited(0, prefix + Render(v) + gap + rest), assertions).Success? <==> !assertions || !Less(v, MinRelease)
    ensures !assertions || !Less(v, MinRelease) ==> GetVersion(Exited(0, prefix + Render(v) + gap + rest), assertions) == Success(v)
  {
    BannerToken(prefix, v, gap, rest);
  }

  /** The banner of tesseract 4.1.1, whose release is followed by a newline
      and the leptonica line, gives release 4.1.1. */
  lemma {:induction false} NewlineBanner(assertions: bool)
    ensures GetVersion(Exited(0, "tesseract " + Render([4, 1, 1]) + "\n" + " leptonica-1.79.0\n"), assertions) == Success([4, 1, 1])
  {
    assert forall j :: 0 <= j < |"tesseract "| ==> NonDigitPrintable("tesseract "[j]);
    assert LineGap("\n");
    assert !Less([4, 1, 1], MinRelease);
    BannerVersion("tesseract ", [4, 1, 1], "\n", " leptonica-1.79.0\n", assertions);
  }

  /** 3.04 is refused and 4.0 passes the minimum but not the ALTO gate. */
  lemma {:induction false} GateExamples()
    ensures Less([3, 4], MinRelease)
    ensures !Less([4, 0], MinRelease) && Less([4, 0], AltoRelease)
    ensures !Less([4, 1], AltoRelease) && !Less(AltoRelease, [4, 1])
  {
  }
}
