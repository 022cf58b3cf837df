/** The stricter `file_to_dict` of src/pytesseract.py: the text is cut at
    every newline without stripping, the first line is the header, the last
    data row gets one empty cell when it is short, and every non-text cell must
    be an integer literal. A missing cell or a bad literal fails the whole
    call; there is no per-cell fallback and no skipped row. */
module LegacyTsv {
  import opened Wrappers
  import opened Text
  import opened Numbers
  import opened OrderedDict
  import Tsv

  /** `IndexError` for a row without the cell, `ValueError` for a cell that
      `int()` rejects. */
  datatype DecodeError = IndexError | ValueError(literal: string)

  /** One cell of the list comprehension: the text column keeps the cell,
      every other column takes `int(cell)`, which fails with `ValueError`. */
  function DecodeCell(cell: string, isText: bool): Result<Tsv.Cell, DecodeError>
  {
    if isText then Success(Tsv.Str(cell))
    else match ParseInt(cell)
      case Some(n) => Success(Tsv.Int(n))
      case None => Failure(ValueError(cell))
  }

  /** How the cells of column `i` decode, given the text column. */
  type Decoder = (nat, string) -> Result<Tsv.Cell, DecodeError>

  function DecoderFor(textColumn: int): Decoder
  {
    (i: nat, cell: string) => DecodeCell(cell, i == textColumn)
  }

  /** The cell of column `i` in `row` exists and decodes. */
  predicate CellOk(row: seq<string>, i: nat, decode: Decoder) {
    i < |row| && decode(i, row[i]).Success?
  }

  /** The error a bad cell raises: `IndexError` before any conversion. */
  function CellError(row: seq<string>, i: nat, decode: Decoder): DecodeError
    requires !CellOk(row, i, decode)
  {
    if |row| <= i then IndexError else decode(i, row[i]).error
  }

  /** The list comprehension for column `i`: one value per row, in row order,
      stopping at the first bad cell. */
  function ColumnValues(rows: seq<seq<string>>, i: nat, decode: Decoder): (r: Result<seq<Tsv.Cell>, DecodeError>)
    ensures r.Success? <==> forall j :: 0 <= j < |rows| ==> CellOk(rows[j], i, decode)
    ensures r.Success? ==> |r.value| == |rows|
    ensures r.Success? ==> forall j :: 0 <= j < |rows| ==> Success(r.value[j]) == decode(i, rows[j][i])
    ensures r.Failure? ==>
      exists j :: 0 <= j < |rows| && !CellOk(rows[j], i, decode) && r.error == CellError(rows[j], i, decode)
        && forall j' :: 0 <= j' < j ==> CellOk(rows[j'], i, decode)
  {
    if |rows| == 0 then Success([])
    else if !CellOk(rows[0], i, decode) then Failure(CellError(rows[0], i, decode))
    else
      var rest := ColumnValues(rows[1..], i, decode);
      if rest.Failure? then
        assert forall j :: 1 <= j < |rows| ==> rows[j] == rows[1..][j - 1];
        Failure(rest.error)
      else
        Success([decode(i, rows[0][i]).value] + rest.value)
  }

  /** Column `i` when it decodes, and nothing otherwise. */
  function ColumnOrEmpty(rows: seq<seq<string>>, i: nat, decode: Decoder): seq<Tsv.Cell>
  {
    var r := ColumnValues(rows, i, decode);
    if r.Success? then r.value else []
  }

  /** The cell of column `i` in data row `j` decodes. */
  predicate GoodCell(data: seq<seq<string>>, i: nat, j: nat, decode: Decoder) {
    j < |data| && CellOk(data[j], i, decode)
  }

  /** All cells of the first `n` columns decode. */
  predicate ColumnsOk(data: seq<seq<string>>, n: nat, decode: Decoder) {
    forall i: nat, j: nat :: i < n && j < |data| ==> GoodCell(data, i, j, decode)
  }

  /** The `for i, head in enumerate(header)` loop over the first `n` columns:
      it fails at the first column holding a bad cell, and otherwise fills the
      dict as `FromKeys` does. */
  function Fill(header: seq<string>, data: seq<seq<string>>, decode: Decoder, n: nat): (r: Result<Tsv.Table, DecodeError>)
    requires n <= |header|
    ensures r.Success? <==> ColumnsOk(data, n, decode)
    ensures r.Success? ==> r.value == FromKeys(header[..n], (i: nat) => ColumnOrEmpty(data, i, decode))
    ensures r.Failure? ==>
      exists i: nat :: i < n && ColumnsOk(data, i, decode) && ColumnValues(data, i, decode) == Failure(r.error)
    decreases n
  {
    if n == 0 then Success([])
    else
      var prev := Fill(header, data, decode, n - 1);
      if prev.Failure? then Failure(prev.error)
      else
        var column := ColumnValues(data, n - 1, decode);
        if column.Failure? then
          ColumnFails(data, n, decode);
          Failure(column.error)
        else
          ColumnsGrow(data, n, decode);
          assert header[..n][..n - 1] == header[..n - 1];
          Success(Put(prev.value, header[n - 1], column.value))
  }

  /** A bad cell in column `n - 1` is a bad cell among the first `n` columns. */
  lemma {:induction false} ColumnFails(data: seq<seq<string>>, n: nat, decode: Decoder)
    requires n > 0 && ColumnValues(data, n - 1, decode).Failure?
    ensures !ColumnsOk(data, n, decode)
  {
    var j :| 0 <= j < |data| && !CellOk(data[j], n - 1, decode);
    assert !GoodCell(data, n - 1, j, decode);
  }

  /** One more good column extends the good prefix of columns. */
  lemma {:induction false} ColumnsGrow(data: seq<seq<string>>, n: nat, decode: Decoder)
    requires n > 0 && ColumnsOk(data, n - 1, decode) && ColumnValues(data, n - 1, decode).Success?
    ensures ColumnsOk(data, n, decode)
  {
    forall i: nat, j: nat | i < n && j < |data|
      ensures GoodCell(data, i, j, decode)
    {
      if i < n - 1 {
        assert GoodCell(data, i, j, decode);
      }
    }
  }

  /** The data rows after the header; the last one is padded only when there is one. */
  function DataRows(rows: seq<seq<string>>): seq<seq<string>>
    requires |rows| >= 1
  {
    if |rows| >= 2 then Tsv.PadLast(rows[1..], |rows[0]|) else []
  }

  /** The decoding of rows already cut into cells: it succeeds exactly when
      every cell of every column decodes; then the keys are the header tokens
      without repeats, each holding one value per data row from its last
      column; otherwise it raises the error of the first bad column. */
  function DecodeRows(rows: seq<seq<string>>, textIndex: int): (r: Result<Tsv.Table, DecodeError>)
    requires |rows| >= 1
    ensures var data := DataRows(rows);
      var decode := DecoderFor(Tsv.NormaliseIndex(textIndex, |rows[0]|));
      && (r.Success? <==> ColumnsOk(data, |rows[0]|, decode))
      && (r.Success? ==> Keys(r.value) == Dedup(rows[0]))
      && (r.Success? ==> forall k :: k in rows[0] ==>
            var column := ColumnValues(data, LastIndex(rows[0], k), decode);
            column.Success? && Get(r.value, k) == Some(column.value) && |column.value| == |data|)
      && (r.Failure? ==>
            exists i: nat :: i < |rows[0]| && ColumnsOk(data, i, decode) && ColumnValues(data, i, decode) == Failure(r.error))
  {
    var header := rows[0];
    var data := DataRows(rows);
    var decode := DecoderFor(Tsv.NormaliseIndex(textIndex, |header|));
    FillAll(header, data, decode);
    Fill(header, data, decode, |header|)
  }

  /** Filling every column of the header: the keys and the columns they hold. */
  lemma {:induction false} FillAll(header: seq<string>, data: seq<seq<string>>, decode: Decoder)
    ensures var r := Fill(header, data, decode, |header|);
      && (r.Success? ==> Keys(r.value) == Dedup(header))
      && (r.Success? ==> forall k :: k in header ==>
            var column := ColumnValues(data, LastIndex(header, k), decode);
            column.Success? && Get(r.value, k) == Some(column.value) && |column.value| == |data|)
  {
    var r := Fill(header, data, decode, |header|);
    assert header[..|header|] == header;
    FromKeysSpec(header, (i: nat) => ColumnOrEmpty(data, i, decode));
    if r.Success? {
      forall k | k in header
        ensures ColumnValues(data, LastIndex(header, k), decode).Success?
      {
        ColumnOk(data, |header|, decode, LastIndex(header, k));
      }
    }
  }

  /** Every column of a decodable table decodes. */
  lemma {:induction false} ColumnOk(data: seq<seq<string>>, n: nat, decode: Decoder, i: nat)
    requires ColumnsOk(data, n, decode) && i < n
    ensures ColumnValues(data, i, decode).Success?
  {
    forall j | 0 <= j < |data|
      ensures CellOk(data[j], i, decode)
    {
      assert GoodCell(data, i, j, decode);
    }
  }

  /** The rows of the file: every line, unstripped, cut into cells. */
  function Rows(tsv: string, delimiter: string): (rows: seq<seq<string>>)
    requires |delimiter| > 0
    ensures |rows| >= 1
  {
    Tsv.Cells(Split(tsv, "\n"), delimiter)
  }

  /** `file_to_dict(tsv, cell_delimiter, str_col_idx)` of the older module:
      over the file's rows, it succeeds exactly when every cell decodes; then
      the keys are the header tokens without repeats, each holding one value
      per data row from its last column; otherwise it raises the error of the
      first bad column. */
  function FileToDict(tsv: string, delimiter: string, textIndex: int): (r: Result<Tsv.Table, DecodeError>)
    requires |delimiter| > 0
    ensures var rows := Rows(tsv, delimiter);
      var data := DataRows(rows);
      var decode := DecoderFor(Tsv.NormaliseIndex(textIndex, |rows[0]|));
      && (r.Success? <==> ColumnsOk(data, |rows[0]|, decode))
      && (r.Success? ==> Keys(r.value) == Dedup(rows[0]))
      && (r.Success? ==> forall k :: k in rows[0] ==>
            var column := ColumnValues(data, LastIndex(rows[0], k), decode);
            column.Success? && Get(r.value, k) == Some(column.value) && |column.value| == |data|)
      && (r.Failure? ==>
            exists i: nat :: i < |rows[0]| && ColumnsOk(data, i, decode) && ColumnValues(data, i, decode) == Failure(r.error))
  {
    DecodeRows(Rows(tsv, delimiter), textIndex)
  }

  // ---------------------------------------------------------------- properties

  /** A text without a newline is a header alone: the call succeeds and every
      column is empty. */
  lemma {:induction false} HeaderOnly(tsv: string, delimiter: string, textIndex: int)
    requires |delimiter| > 0 && !Contains(tsv, "\n")
    ensures FileToDict(tsv, delimiter, textIndex).Success?
    ensures forall k :: k in Split(tsv, delimiter) ==> Get(FileToDict(tsv, delimiter, textIndex).value, k) == Some([])
  {
    assert Find(tsv, "\n").None?;
    assert Rows(tsv, delimiter) == [Split(tsv, delimiter)];
  }

  /** Per cell: the text column keeps the cell verbatim, any other column
      holds the integer `int()` reads, and a cell `int()` rejects is a
      `ValueError` carrying that cell. There is no fallback to the text. */
  lemma {:induction false} DecodeCellSpec(textColumn: int, i: nat, cell: string)
    ensures i == textColumn ==> DecoderFor(textColumn)(i, cell) == Success(Tsv.Str(cell))
    ensures i != textColumn && ParseInt(cell).Some? ==> DecoderFor(textColumn)(i, cell) == Success(Tsv.Int(ParseInt(cell).value))
    ensures i != textColumn && ParseInt(cell).None? ==> DecoderFor(textColumn)(i, cell) == Failure(ValueError(cell))
  {
    DecoderApply(textColumn, i, cell);
  }

  lemma {:induction false} DecoderApply(textColumn: int, i: nat, cell: string)
    ensures DecoderFor(textColumn)(i, cell) == DecodeCell(cell, i == textColumn)
  {
  }

  /** A row that is too short for a column makes the decoding fail with
      `IndexError`, unless an earlier row fails first; it is never skipped. */
  lemma {:induction false} NoSkippedRow(rows: seq<seq<string>>, i: nat, j: nat, decode: Decoder)
    requires j < |rows| && |rows[j]| <= i
    requires forall j' :: 0 <= j' < j ==> CellOk(rows[j'], i, decode)
    ensures ColumnValues(rows, i, decode) == Failure(IndexError)
  {
    assert !CellOk(rows[j], i, decode);
  }
}
