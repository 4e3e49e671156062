/** A worksheet as pandas hands it to the extraction scripts, after `read_excel` has taken
    the column labels from the header row: a set of column labels and a list of rows, each
    row mapping labels to cells. Reading the workbook is not modelled. */
module Spreadsheet {
  import opened Wrappers
  import opened Text
  import opened OrderedMap

  /** One cell: empty (pandas `NaN`), a string, or some other value (a number or a date)
      together with the text `str()` renders for it. How pandas renders such values is not
      modelled; the rendering is part of the input. */
  datatype Cell = Missing | Str(text: string) | NonStr(rendered: string)

  /** A row as pandas iterates it: a Series pairing each column label with its cell. */
  type Row = seq<(string, Cell)>

  datatype Sheet = Sheet(columns: set<string>, rows: seq<Row>)

  /** `row[header]`; a header the row does not carry reads as an empty cell. Whether the header
      is a column of the sheet at all is checked separately, against `Sheet.columns`. */
  function CellAt(row: Row, header: string): (c: Cell)
    ensures Get(row, header).None? ==> c == Missing
    ensures Get(row, header).Some? ==> c == Get(row, header).value
  {
    match Get(row, header)
    case None => Missing
    case Some(v) => v
  }

  /** Python `str(value)` for a present cell. */
  function Render(c: Cell): (s: string)
    requires !c.Missing?
  {
    match c
    case Str(t) => t
    case NonStr(t) => t
  }

  /** `str(value).strip()` when the cell is present, and `""` for an empty cell: the default
      both scripts apply, one through `pd.notna`, the other through `fillna('')`. */
  function CleanText(c: Cell): (s: string)
    ensures NoOuterSpace(s)
    ensures c.Missing? ==> s == ""
    ensures c.Str? && NoOuterSpace(c.text) ==> s == c.text
  {
    if c.Missing? then ""
    else
      assert c.Str? && NoOuterSpace(c.text) ==> Trim(c.text) == c.text by {
        if c.Str? && NoOuterSpace(c.text) { TrimNoOuter(c.text); }
      }
      Trim(Render(c))
  }

  /** The first header of `labels` that is not a column of the sheet: the one whose lookup
      raises `KeyError` when the labels are read in this order. */
  function FirstMissingColumn(columns: set<string>, labels: seq<string>): (r: Option<string>)
    ensures r.None? <==> forall l :: l in labels ==> l in columns
    ensures r.Some? ==> r.value in labels && r.value !in columns
    ensures r.Some? ==> exists i :: 0 <= i < |labels| && labels[i] == r.value &&
                                    forall j :: 0 <= j < i ==> labels[j] in columns
  {
    if |labels| == 0 then None
    else if labels[0] !in columns then Some(labels[0])
    else
      var r := FirstMissingColumn(columns, labels[1..]);
      assert r.Some? ==> exists i :: 0 <= i < |labels| && labels[i] == r.value &&
                                     forall j :: 0 <= j < i ==> labels[j] in columns by {
        if r.Some? {
          var i :| 0 <= i < |labels| - 1 && labels[1..][i] == r.value &&
                   forall j :: 0 <= j < i ==> labels[1..][j] in columns;
          assert labels[i + 1] == r.value && forall j :: 0 <= j < i + 1 ==> labels[j] in columns;
        }
      }
      r
  }
}
