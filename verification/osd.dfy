/** `osd_to_dict` and `is_valid` of pytesseract/pytesseract.py: the
    orientation-and-script block is read line by line as `Label: value`, each
    known name is renamed to its field and its value checked against the
    field's type, and a later line for the same field replaces an earlier one. */
module Osd {
  import opened Wrappers
  import opened Text
  import opened Numbers
  import opened OrderedDict

  /** The conversion `OSD_KEYS` names for a field. */
  datatype FieldType = IntField | FloatField | StrField

  /** An `OSD_KEYS` entry: the output field and its conversion. */
  datatype OsdKey = OsdKey(field: string, kind: FieldType)

  /** A decoded value. A float is kept as its (accepted) literal. */
  datatype OsdValue = IntValue(n: nat) | FloatValue(literal: string) | StrValue(s: string)

  /** Looking up a name that `OSD_KEYS` does not have. */
  datatype OsdError = KeyError(name: string)

  type OsdDict = Dict<OsdValue>

  /** `OSD_KEYS[name]`. */
  function Lookup(name: string): Option<OsdKey>
  {
    if name == "Page number" then Some(OsdKey("page_num", IntField))
    else if name == "Orientation in degrees" then Some(OsdKey("orientation", IntField))
    else if name == "Rotate" then Some(OsdKey("rotate", IntField))
    else if name == "Orientation confidence" then Some(OsdKey("orientation_conf", FloatField))
    else if name == "Script" then Some(OsdKey("script", StrField))
    else if name == "Script confidence" then Some(OsdKey("script_conf", FloatField))
    else None
  }

  /** The six output fields. */
  predicate IsField(f: string) {
    f in {"page_num", "orientation", "rotate", "orientation_conf", "script", "script_conf"}
  }

  /** `is_valid(value, type)`: an int field needs `value.isdigit()`, a float
      field needs `float(value)` to succeed (decimal literals here), a string
      field accepts anything. */
  predicate IsValid(value: string, kind: FieldType) {
    match kind
    case IntField => IsDigits(value)
    case FloatField => ParseDecimal(value).Some?
    case StrField => true
  }

  /** The conversion applied to an accepted value. */
  function Convert(value: string, kind: FieldType): OsdValue
    requires IsValid(value, kind)
  {
    match kind
    case IntField => IntValue(DigitsValue(value))
    case FloatField => FloatValue(value)
    case StrField => StrValue(value)
  }

  /** What one line contributes: nothing unless it splits into exactly two
      parts at `": "`; then the name must be known (a `KeyError` otherwise),
      and the field is set only when the value is valid for its type. */
  function LineEntry(line: string): (r: Result<Option<Entry<OsdValue>>, OsdError>)
    ensures r.Success? && r.value.Some? ==> IsField(r.value.value.key)
  {
    var kv := Split(line, ": ");
    if |kv| != 2 then Success(None)
    else match Lookup(kv[0])
      case None => Failure(KeyError(kv[0]))
      case Some(key) =>
        if IsValid(kv[1], key.kind) then Success(Some(Entry(key.field, Convert(kv[1], key.kind))))
        else Success(None)
  }

  /** A line that makes the comprehension raise. */
  predicate Rejects(line: string) {
    LineEntry(line).Failure?
  }

  /** The value the last accepted line for field `f` gives, scanning from the end. */
  function LastValue(lines: seq<string>, f: string): Option<OsdValue>
  {
    if |lines| == 0 then None
    else
      var e := LineEntry(lines[|lines| - 1]);
      if e.Success? && e.value.Some? && e.value.value.key == f then Some(e.value.value.value)
      else LastValue(lines[..|lines| - 1], f)
  }

  /** The fields the accepted lines set, in line order, repeats included. */
  function AcceptedFields(lines: seq<string>): seq<string>
  {
    if |lines| == 0 then []
    else
      var e := LineEntry(lines[|lines| - 1]);
      AcceptedFields(lines[..|lines| - 1]) + (if e.Success? && e.value.Some? then [e.value.value.key] else [])
  }

  /** What decoding `lines` must give: the comprehension raises exactly when
      some line is rejected, and then with the error of the first such line;
      otherwise every field holds the value of its last accepted line, and
      only the six known fields appear, once each, in the order their first
      accepted line comes. */
  ghost predicate Decoded(lines: seq<string>, r: Result<OsdDict, OsdError>) {
    FailsAtFirst(lines, r) && HoldsLast(lines, r)
  }

  /** The failure half of `Decoded`. */
  ghost predicate FailsAtFirst(lines: seq<string>, r: Result<OsdDict, OsdError>) {
    && (r.Failure? <==> exists j :: 0 <= j < |lines| && Rejects(lines[j]))
    && (r.Failure? ==> exists j :: FirstRejected(lines, j, r.error))
  }

  /** The success half of `Decoded`. */
  ghost predicate HoldsLast(lines: seq<string>, r: Result<OsdDict, OsdError>) {
    && (r.Success? ==> forall f :: Get(r.value, f) == LastValue(lines, f))
    && (r.Success? ==> Distinct(Keys(r.value)) && forall k :: k in Keys(r.value) ==> IsField(k))
    && (r.Success? ==> Keys(r.value) == Dedup(AcceptedFields(lines)))
  }

  /** Line `j` is the first rejected line, and it raises `error`. */
  predicate FirstRejected(lines: seq<string>, j: int, error: OsdError) {
    && 0 <= j < |lines|
    && LineEntry(lines[j]) == Failure(error)
    && forall j' :: 0 <= j' < j ==> !Rejects(lines[j'])
  }

  /** The comprehension after one more line. */
  function Step(prev: Result<OsdDict, OsdError>, line: string): Result<OsdDict, OsdError>
  {
    if prev.Failure? then prev
    else
      var e := LineEntry(line);
      if e.Failure? then Failure(e.error)
      else if e.value.None? then prev
      else Success(Put(prev.value, e.value.value.key, e.value.value.value))
  }

  /** The dict comprehension over `lines`, in order. */
  function Decode(lines: seq<string>): (r: Result<OsdDict, OsdError>)
    ensures Decoded(lines, r)
    decreases |lines|
  {
    if |lines| == 0 then Success([])
    else
      var n := |lines| - 1;
      var prev := Decode(lines[..n]);
      DecodeStep(lines, prev);
      Step(prev, lines[n])
  }

  /** One more line keeps the decoding right. */
  lemma {:induction false} DecodeStep(lines: seq<string>, prev: Result<OsdDict, OsdError>)
    requires |lines| > 0 && Decoded(lines[..|lines| - 1], prev)
    ensures Decoded(lines, Step(prev, lines[|lines| - 1]))
  {
    StepFailure(lines, prev);
    StepSuccess(lines, prev);
  }

  /** The success half of `DecodeStep`. */
  lemma {:induction false} StepSuccess(lines: seq<string>, prev: Result<OsdDict, OsdError>)
    requires |lines| > 0 && HoldsLast(lines[..|lines| - 1], prev)
    ensures HoldsLast(lines, Step(prev, lines[|lines| - 1]))
  {
    var n := |lines| - 1;
    var e := LineEntry(lines[n]);
    if prev.Success? && e.Success? {
      var d := prev.value;
      var next := if e.value.None? then d else Put(d, e.value.value.key, e.value.value.value);
      assert Step(prev, lines[n]) == Success(next);
      StepValues(lines, d, e.value);
      if e.value.Some? {
        PutKeepsDistinct(d, e.value.value.key, e.value.value.value);
      }
      StepKeyOrder(lines, prev);
    }
  }

  /** One more accepted or ignored line keeps every field at its last value. */
  lemma {:induction false} StepValues(lines: seq<string>, d: OsdDict, o: Option<Entry<OsdValue>>)
    requires |lines| > 0 && LineEntry(lines[|lines| - 1]) == Success(o)
    requires forall f :: Get(d, f) == LastValue(lines[..|lines| - 1], f)
    ensures var next := if o.None? then d else Put(d, o.value.key, o.value.value);
      forall f :: Get(next, f) == LastValue(lines, f)
  {
  }

  /** The key-order half of `StepSuccess`. */
  lemma {:induction false} StepKeyOrder(lines: seq<string>, prev: Result<OsdDict, OsdError>)
    requires |lines| > 0 && prev.Success? && Keys(prev.value) == Dedup(AcceptedFields(lines[..|lines| - 1]))
    requires Step(prev, lines[|lines| - 1]).Success?
    ensures Keys(Step(prev, lines[|lines| - 1]).value) == Dedup(AcceptedFields(lines))
  {
    var p := lines[..|lines| - 1];
    var e := LineEntry(lines[|lines| - 1]);
    if e.value.Some? {
      KeyOrderStep(AcceptedFields(p), prev.value, e.value.value.key, e.value.value.value);
    } else {
      assert AcceptedFields(lines) == AcceptedFields(p) + [];
      assert AcceptedFields(p) + [] == AcceptedFields(p);
    }
  }

  /** Assigning a field keeps the keys the distinct fields in first-seen order. */
  lemma {:induction false} KeyOrderStep(fields: seq<string>, d: OsdDict, k: string, v: OsdValue)
    requires Keys(d) == Dedup(fields)
    ensures Keys(Put(d, k, v)) == Dedup(fields + [k])
  {
    assert (fields + [k])[..|fields|] == fields;
  }

  /** The failure half of `DecodeStep`. */
  lemma {:induction false} StepFailure(lines: seq<string>, prev: Result<OsdDict, OsdError>)
    requires |lines| > 0 && FailsAtFirst(lines[..|lines| - 1], prev)
    ensures FailsAtFirst(lines, Step(prev, lines[|lines| - 1]))
  {
    var n := |lines| - 1;
    var p := lines[..n];
    if prev.Failure? {
      EarlierFailure(lines, p, prev.error);
      StillFailing(lines, prev.error);
    } else {
      NoEarlierRejection(lines, p);
      if Rejects(lines[n]) {
        LastRejected(lines, LineEntry(lines[n]).error);
      } else {
        NoneRejected(lines);
      }
    }
  }

  /** An earlier failure stays the outcome. */
  lemma {:induction false} StillFailing(lines: seq<string>, error: OsdError)
    requires exists j :: FirstRejected(lines, j, error)
    ensures FailsAtFirst(lines, Failure(error))
  {
    var j :| FirstRejected(lines, j, error);
    assert Rejects(lines[j]);
  }

  /** No line before the last is rejected when the prefix decoded. */
  lemma {:induction false} NoEarlierRejection(lines: seq<string>, p: seq<string>)
    requires |lines| > 0 && p == lines[..|lines| - 1]
    requires !exists j :: 0 <= j < |p| && Rejects(p[j])
    ensures forall j :: 0 <= j < |lines| - 1 ==> !Rejects(lines[j])
  {
    forall j | 0 <= j < |lines| - 1
      ensures !Rejects(lines[j])
    {
      assert p[j] == lines[j];
    }
  }

  /** The last line is the first rejected one. */
  lemma {:induction false} LastRejected(lines: seq<string>, error: OsdError)
    requires |lines| > 0 && LineEntry(lines[|lines| - 1]) == Failure(error)
    requires forall j :: 0 <= j < |lines| - 1 ==> !Rejects(lines[j])
    ensures FailsAtFirst(lines, Failure(error))
  {
    assert FirstRejected(lines, |lines| - 1, error);
  }

  /** No line at all is rejected. */
  lemma {:induction false} NoneRejected(lines: seq<string>)
    requires |lines| > 0 && !Rejects(lines[|lines| - 1])
    requires forall j :: 0 <= j < |lines| - 1 ==> !Rejects(lines[j])
    ensures !exists j :: 0 <= j < |lines| && Rejects(lines[j])
  {
  }

  /** A rejected line before the last one is still the first rejected line. */
  lemma {:induction false} EarlierFailure(lines: seq<string>, p: seq<string>, error: OsdError)
    requires |lines| > 0 && p == lines[..|lines| - 1]
    requires exists j :: FirstRejected(p, j, error)
    ensures exists j :: FirstRejected(lines, j, error)
  {
    var j :| FirstRejected(p, j, error);
    assert p[j] == lines[j];
    forall j' | 0 <= j' < j
      ensures !Rejects(lines[j'])
    {
      assert p[j'] == lines[j'];
    }
    assert FirstRejected(lines, j, error);
  }

  lemma {:induction false} PutKeepsDistinct<V>(d: Dict<V>, k: string, v: V)
    requires Distinct(Keys(d))
    ensures Distinct(Keys(Put(d, k, v)))
    ensures forall k' :: k' in Keys(Put(d, k, v)) ==> k' in Keys(d) || k' == k
  {
  }

  /** `osd_to_dict(osd)`: the block cut at every newline and decoded. It
      raises the `KeyError` of the first rejected line; otherwise each field
      holds its last accepted value, and the fields come in the order of
      their first accepted line. */
  function OsdToDict(osd: string): (r: Result<OsdDict, OsdError>)
    ensures r.Failure? <==> exists line :: line in Split(osd, "\n") && Rejects(line)
    ensures r.Failure? ==> exists j :: FirstRejected(Split(osd, "\n"), j, r.error)
    ensures r.Success? ==> forall f :: Get(r.value, f) == LastValue(Split(osd, "\n"), f)
    ensures r.Success? ==> Keys(r.value) == Dedup(AcceptedFields(Split(osd, "\n")))
  {
    var lines := Split(osd, "\n");
    var r := Decode(lines);
    assert (exists j :: 0 <= j < |lines| && Rejects(lines[j])) <==> (exists line :: line in lines && Rejects(line));
    r
  }

  // ---------------------------------------------------------------- lines

  /** A two-part line with an unknown name raises `KeyError` with that name. */
  lemma {:induction false} UnknownLabelRaises(name: string, value: string)
    requires forall j :: 0 <= j < |name| ==> name[j] != ':'
    requires !Contains(value, ": ")
    requires Lookup(name).None?
    ensures LineEntry(name + ": " + value) == Failure(KeyError(name))
  {
    SplitPair(name, value, ": ");
  }

  /** A line without `": "` contributes nothing and raises nothing. */
  lemma {:induction false} PlainLineIgnored(line: string)
    requires !Contains(line, ": ")
    ensures LineEntry(line) == Success(None)
  {
    assert Find(line, ": ").None?;
  }

  /** An int field takes a value exactly when it is all digits, and then holds
      the number those digits denote. */
  lemma {:induction false} IntFieldAccepts(name: string, value: string)
    requires forall j :: 0 <= j < |name| ==> name[j] != ':'
    requires !Contains(value, ": ")
    requires Lookup(name).Some? && Lookup(name).value.kind == IntField
    ensures LineEntry(name + ": " + value).Success?
    ensures LineEntry(name + ": " + value).value.Some? <==> IsDigits(value)
    ensures IsDigits(value) ==>
      LineEntry(name + ": " + value).value == Some(Entry(Lookup(name).value.field, IntValue(DigitsValue(value))))
  {
    SplitPair(name, value, ": ");
  }

  /** A string field takes any value verbatim. */
  lemma {:induction false} StrFieldAccepts(value: string)
    requires !Contains(value, ": ")
    ensures LineEntry("Script: " + value) == Success(Some(Entry("script", StrValue(value))))
  {
    assert "Script: " + value == "Script" + ": " + value;
    SplitPair("Script", value, ": ");
    ScriptKey();
    KnownLine("Script: " + value, "Script", value);
  }

  lemma {:induction false} ScriptKey()
    ensures Lookup("Script") == Some(OsdKey("script", StrField))
  {
  }

  /** A line that splits into a known name and a value. */
  lemma {:induction false} KnownLine(line: string, name: string, value: string)
    requires Split(line, ": ") == [name, value] && Lookup(name).Some?
    ensures var key := Lookup(name).value;
      LineEntry(line) == if IsValid(value, key.kind) then Success(Some(Entry(key.field, Convert(value, key.kind)))) else Success(None)
  {
  }

  // ---------------------------------------------------------------- examples

  /** `Rotate: 90` gives `rotate = 90`. */
  lemma {:induction false} RotateExample()
    ensures OsdToDict("Rotate: 90") == Success([Entry("rotate", IntValue(90))])
  {
    var line := "Rotate: 90";
    assert line == "Rotate: " + "90";
    RotateLine("90");
    Ninety();
    DecodeOne(line);
  }

  lemma {:induction false} Ninety()
    ensures IsDigits("90") && DigitsValue("90") == 90
  {
    assert "90"[..1] == "9";
  }

  /** `Rotate: -90` is dropped: `-90` is not all digits. */
  lemma {:induction false} NegativeRotateDropped()
    ensures OsdToDict("Rotate: -90") == Success([])
  {
    var line := "Rotate: -90";
    assert line == "Rotate: " + "-90";
    RotateLine("-90");
    assert !IsDigits("-90") by {
      assert !IsDigit("-90"[0]);
    }
    DecodeOne(line);
  }

  /** A `Rotate` line with a short value is one line holding the rotation. */
  lemma {:induction false} RotateLine(value: string)
    requires 0 < |value| <= 3 && forall j :: 0 <= j < |value| ==> value[j] != '\n' && value[j] != ':'
    ensures Split("Rotate: " + value, "\n") == ["Rotate: " + value]
    ensures LineEntry("Rotate: " + value) ==
      if IsDigits(value) then Success(Some(Entry("rotate", IntValue(DigitsValue(value))))) else Success(None)
  {
    var line := "Rotate: " + value;
    assert line == "Rotate" + ": " + value;
    assert forall j :: 0 <= j < |line| ==> line[j] != '\n';
    AbsentChar(line, "\n");
    AbsentChar(value, ": ");
    SplitPair("Rotate", value, ": ");
    assert Lookup("Rotate") == Some(OsdKey("rotate", IntField));
    KnownLine(line, "Rotate", value);
  }

  /** A single line is decoded as one step from the empty dict. */
  lemma {:induction false} DecodeOne(line: string)
    ensures Decode([line]) == Step(Success([]), line)
  {
    assert [line][..0] == [];
  }
}
