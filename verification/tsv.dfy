/** The TSV and box-file decoder `file_to_dict` of pytesseract/pytesseract.py:
    the text is stripped and cut into lines and cells, the first line is the
    header, a short last row gets one empty cell, and every column becomes a
    list of cells in which numbers are decoded, except in the text column. */
module Tsv {
  import opened Wrappers
  import opened Text
  import opened Numbers
  import opened OrderedDict

  /** A decoded cell: the integer a numeric cell denotes, or the cell's text. */
  datatype Cell = Int(n: int) | Str(s: string)

  /** Column name to the cells of that column, in header order. */
  type Table = Dict<seq<Cell>>

  /** Each line cut into cells at `delimiter`. */
  function Cells(lines: seq<string>, delimiter: string): seq<seq<string>>
    requires |delimiter| > 0
  {
    seq(|lines|, j requires 0 <= j < |lines| => Split(lines[j], delimiter))
  }

  /** The last row gains one empty cell when it is shorter than `width` (the
      engine leaves out an empty final text field); all other rows are kept. */
  function PadLast(rows: seq<seq<string>>, width: nat): (r: seq<seq<string>>)
    requires |rows| > 0
    ensures |r| == |rows| && r[..|r| - 1] == rows[..|rows| - 1]
    ensures |rows[|rows| - 1]| < width ==> r[|r| - 1] == rows[|rows| - 1] + [""]
    ensures |rows[|rows| - 1]| >= width ==> r[|r| - 1] == rows[|rows| - 1]
  {
    var last := rows[|rows| - 1];
    if |last| < width then rows[..|rows| - 1] + [last + [""]] else rows
  }

  /** A negative column index counts from the end of the header. */
  function NormaliseIndex(index: int, width: nat): int
  {
    if index < 0 then index + width else index
  }

  /** `int(float(cell))` when that succeeds, otherwise the cell itself; the text
      column is never converted. */
  function Coerce(cell: string, isText: bool): Cell
  {
    if isText then Str(cell)
    else match ParseDecimal(cell)
      case Some(n) => Int(n)
      case None => Str(cell)
  }

  /** The raw cells of column `i`: the `i`-th cell of every row that has one,
      in row order; shorter rows are skipped for this column only. */
  function Pick(rows: seq<seq<string>>, i: nat): (cells: seq<string>)
    ensures |cells| <= |rows|
  {
    if |rows| == 0 then [] else (if |rows[0]| <= i then [] else [rows[0][i]]) + Pick(rows[1..], i)
  }

  /** Every cell decoded the same way. */
  function DecodeAll(cells: seq<string>, isText: bool): (r: seq<Cell>)
    ensures |r| == |cells|
  {
    seq(|cells|, k requires 0 <= k < |cells| => Coerce(cells[k], isText))
  }

  /** Column `i` as `file_to_dict` builds it. */
  function Column(rows: seq<seq<string>>, i: nat, textColumn: int): seq<Cell>
  {
    DecodeAll(Pick(rows, i), i == textColumn)
  }

  /** The lines `file_to_dict` sees: the stripped text cut at every newline. */
  function Lines(tsv: string): seq<string>
  {
    Split(Strip(tsv), "\n")
  }

  /** The header row, when there is one. */
  function Header(tsv: string, delimiter: string): seq<string>
    requires |delimiter| > 0
  {
    Split(Lines(tsv)[0], delimiter)
  }

  /** The data rows after the header, the last one padded. */
  function DataRows(tsv: string, delimiter: string): seq<seq<string>>
    requires |delimiter| > 0 && |Lines(tsv)| >= 2
  {
    var rows := Cells(Lines(tsv), delimiter);
    PadLast(rows[1..], |rows[0]|)
  }

  /** The decoding of rows already cut into cells: the first row is the header,
      the rest are data. The keys are the header tokens in header order without
      repeats; a repeated token holds the cells of its last column, because
      re-assigning a key resets its list. */
  function DecodeRows(rows: seq<seq<string>>, textIndex: int): (r: Table)
    ensures |rows| < 2 ==> r == []
    ensures |rows| >= 2 ==> Keys(r) == Dedup(rows[0])
    ensures |rows| >= 2 ==>
      forall k :: k in rows[0] ==>
        Get(r, k) == Some(Column(PadLast(rows[1..], |rows[0]|), LastIndex(rows[0], k), NormaliseIndex(textIndex, |rows[0]|)))
  {
    if |rows| < 2 then []
    else
      var header := rows[0];
      var data := PadLast(rows[1..], |header|);
      var textColumn := NormaliseIndex(textIndex, |header|);
      var value := (i: nat) => Column(data, i, textColumn);
      FromKeysSpec(header, value);
      FromKeys(header, value)
  }

  /** `file_to_dict(tsv, cell_delimiter, str_col_idx)`: fewer than two lines give
      the empty mapping; otherwise the keys are the header tokens and each holds
      the column of its last position in the header. */
  function FileToDict(tsv: string, delimiter: string, textIndex: int): (r: Table)
    requires |delimiter| > 0
    ensures |Lines(tsv)| < 2 ==> r == []
    ensures |Lines(tsv)| >= 2 ==> Keys(r) == Dedup(Header(tsv, delimiter))
    ensures |Lines(tsv)| >= 2 ==>
      var header := Header(tsv, delimiter);
      forall k :: k in header ==>
        Get(r, k) == Some(Column(DataRows(tsv, delimiter), LastIndex(header, k), NormaliseIndex(textIndex, |header|)))
  {
    DecodeRows(Cells(Lines(tsv), delimiter), textIndex)
  }

  // ---------------------------------------------------------------- columns

  /** Per cell, the decoder either reads a number or falls back to the text:
      a cell is an integer exactly when it is outside the text column and
      `int(float(cell))` succeeds, and text cells are kept verbatim. */
  lemma {:induction false} CoerceFallback(cell: string, isText: bool)
    ensures Coerce(cell, isText).Int? <==> !isText && ParseDecimal(cell).Some?
    ensures Coerce(cell, isText).Int? ==> Coerce(cell, isText).n == ParseDecimal(cell).value
    ensures Coerce(cell, isText).Str? ==> Coerce(cell, isText).s == cell
  {
  }

  /** Rows contribute to a column independently and in order. */
  lemma {:induction false} PickAppend(a: seq<seq<string>>, b: seq<seq<string>>, i: nat)
    ensures Pick(a + b, i) == Pick(a, i) + Pick(b, i)
    decreases |a|
  {
    if |a| == 0 {
      assert a + b == b;
    } else {
      assert (a + b)[0] == a[0];
      assert (a + b)[1..] == a[1..] + b;
      PickAppend(a[1..], b, i);
    }
  }

  lemma {:induction false} DecodeAllAppend(p: seq<string>, q: seq<string>, isText: bool)
    ensures DecodeAll(p + q, isText) == DecodeAll(p, isText) + DecodeAll(q, isText)
  {
    var l := DecodeAll(p + q, isText);
    var r := DecodeAll(p, isText) + DecodeAll(q, isText);
    forall k | 0 <= k < |l|
      ensures l[k] == r[k]
    {
      if k < |p| {
        assert (p + q)[k] == p[k];
      } else {
        assert (p + q)[k] == q[k - |p|];
      }
    }
  }

  /** Rows contribute to a decoded column independently and in order. */
  lemma {:induction false} ColumnAppend(a: seq<seq<string>>, b: seq<seq<string>>, i: nat, textColumn: int)
    ensures Column(a + b, i, textColumn) == Column(a, i, textColumn) + Column(b, i, textColumn)
  {
    PickAppend(a, b, i);
    DecodeAllAppend(Pick(a, i), Pick(b, i), i == textColumn);
  }

  /** A row with at most `i` cells adds nothing to column `i`. */
  lemma {:induction false} ColumnSkipsShortRow(a: seq<seq<string>>, row: seq<string>, b: seq<seq<string>>, i: nat, textColumn: int)
    requires |row| <= i
    ensures Column(a + [row] + b, i, textColumn) == Column(a + b, i, textColumn)
  {
    PickAppend(a + [row], b, i);
    PickAppend(a, [row], i);
    PickAppend(a, b, i);
    assert Pick([row], i) == [];
    assert Pick(a + [row] + b, i) == Pick(a + b, i);
  }

  /** When every row has more than `i` cells, column `i` has one cell per row:
      the decoded `i`-th cell of that row. */
  lemma {:induction false} PickDense(rows: seq<seq<string>>, i: nat)
    requires forall j :: 0 <= j < |rows| ==> |rows[j]| > i
    ensures |Pick(rows, i)| == |rows|
    ensures forall j :: 0 <= j < |rows| ==> Pick(rows, i)[j] == rows[j][i]
    decreases |rows|
  {
    if |rows| > 0 {
      PickDense(rows[1..], i);
      assert Pick(rows, i) == [rows[0][i]] + Pick(rows[1..], i);
    }
  }

  lemma {:induction false} ColumnDense(rows: seq<seq<string>>, i: nat, textColumn: int)
    requires forall j :: 0 <= j < |rows| ==> |rows[j]| > i
    ensures |Column(rows, i, textColumn)| == |rows|
    ensures forall j :: 0 <= j < |rows| ==> Column(rows, i, textColumn)[j] == Coerce(rows[j][i], i == textColumn)
  {
    PickDense(rows, i);
  }

  /** The text column is kept verbatim: its cells are exactly the raw cells. */
  lemma {:induction false} TextColumnVerbatim(rows: seq<seq<string>>, i: nat)
    ensures |Column(rows, i, i)| == |Pick(rows, i)|
    ensures forall k :: 0 <= k < |Pick(rows, i)| ==> Column(rows, i, i)[k] == Str(Pick(rows, i)[k])
  {
  }

  // ---------------------------------------------------------------- whole files

  /** A text of at most one non-blank line decodes to the empty mapping. */
  lemma {:induction false} ShortInputIsEmpty(tsv: string, delimiter: string)
    requires |delimiter| > 0
    requires !Contains(Strip(tsv), "\n")
    ensures FileToDict(tsv, delimiter, -1) == []
  {
    assert Find(Strip(tsv), "\n").None?;
  }

  /** For well-formed rows (distinct column names and every data row as wide
      as the header after padding), the keys are the header itself and column
      `i` holds exactly one decoded cell per data row, in row order. */
  lemma {:induction false} RectangularRows(rows: seq<seq<string>>, textIndex: int)
    requires |rows| >= 2 && Distinct(rows[0])
    requires var data := PadLast(rows[1..], |rows[0]|);
      forall j :: 0 <= j < |data| ==> |data[j]| == |rows[0]|
    ensures Keys(DecodeRows(rows, textIndex)) == rows[0]
    ensures forall i :: 0 <= i < |rows[0]| ==>
      var data := PadLast(rows[1..], |rows[0]|);
      var cells := Column(data, i, NormaliseIndex(textIndex, |rows[0]|));
      && Get(DecodeRows(rows, textIndex), rows[0][i]) == Some(cells)
      && |cells| == |data|
      && forall j :: 0 <= j < |data| ==> cells[j] == Coerce(data[j][i], i == NormaliseIndex(textIndex, |rows[0]|))
  {
    DedupDistinct(rows[0]);
    forall i | 0 <= i < |rows[0]|
      ensures var data := PadLast(rows[1..], |rows[0]|);
        var cells := Column(data, i, NormaliseIndex(textIndex, |rows[0]|));
        && Get(DecodeRows(rows, textIndex), rows[0][i]) == Some(cells)
        && |cells| == |data|
        && forall j :: 0 <= j < |data| ==> cells[j] == Coerce(data[j][i], i == NormaliseIndex(textIndex, |rows[0]|))
    {
      RectangularColumn(rows, textIndex, i);
    }
  }

  /** One column of `RectangularRows`. */
  lemma {:induction false} RectangularColumn(rows: seq<seq<string>>, textIndex: int, i: nat)
    requires |rows| >= 2 && Distinct(rows[0]) && i < |rows[0]|
    requires var data := PadLast(rows[1..], |rows[0]|);
      forall j :: 0 <= j < |data| ==> |data[j]| == |rows[0]|
    ensures var data := PadLast(rows[1..], |rows[0]|);
      var cells := Column(data, i, NormaliseIndex(textIndex, |rows[0]|));
      && Get(DecodeRows(rows, textIndex), rows[0][i]) == Some(cells)
      && |cells| == |data|
      && forall j :: 0 <= j < |data| ==> cells[j] == Coerce(data[j][i], i == NormaliseIndex(textIndex, |rows[0]|))
  {
    var data := PadLast(rows[1..], |rows[0]|);
    LastIndexDistinct(rows[0], i);
    ColumnDense(data, i, NormaliseIndex(textIndex, |rows[0]|));
  }

  lemma {:induction false} DedupDistinct(ks: seq<string>)
    requires Distinct(ks)
    ensures Dedup(ks) == ks
    decreases |ks|
  {
    if |ks| > 0 {
      var p := ks[..|ks| - 1];
      DedupDistinct(p);
      assert ks[|ks| - 1] !in p;
      assert ks == p + [ks[|ks| - 1]];
    }
  }

  lemma {:induction false} LastIndexDistinct(ks: seq<string>, i: nat)
    requires Distinct(ks) && i < |ks|
    ensures LastIndex(ks, ks[i]) == i
  {
  }
}
