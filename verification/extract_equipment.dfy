/** The equipment-list extraction that keeps the sheet's own type spelling: rows whose raw
    type is exactly one of five spellings become eight-field records, location included,
    with no completeness gate. Its policy differs on purpose from `ExtractAllEquipment`. */
module ExtractEquipment {
  import opened Wrappers
  import opened Text
  import opened Lists
  import opened Spreadsheet
  import ExtractAllEquipment

  const TypeColumn: string := "EQUIPMENT TYPE"

  /** The columns each kept row reads unguarded, after the type. */
  const RequiredColumns: seq<string> := ["MAKE", "MODEL"]

  /** The raw spellings the filter accepts, compared exactly: no stripping, no case folding. */
  const AcceptedTypes: set<string> := {" DOZER", "DOZER", " WHEEL LOADER", "WHEEL LOADER", "Wheel loader"}

  /** The location column's label, trailing space included. */
  const LocationColumn: string := "CURRENT LOCATION "

  /** One output object; its eight fields are the eight keys. */
  datatype EquipmentRecord = EquipmentRecord(
    equipmentType: string,
    make: string,
    model: string,
    plateNumber: string,
    assetNumber: string,
    newAssetNumber: string,
    serialNumber: string,
    location: string)

  /** The type filter: `isin` compares the cell itself with the listed strings, so only a
      string cell spelled exactly as listed passes; empty and non-string cells never do. */
  predicate Keep(row: Row) {
    var c := CellAt(row, TypeColumn);
    c.Str? && c.text in AcceptedTypes
  }

  /** A column read only when the sheet has it: its cleaned text, or "" for every row when
      the column is absent. Empty cells have become "" through `fillna('')`. */
  function Optional(columns: set<string>, row: Row, header: string): (s: string)
    ensures header !in columns ==> s == ""
    ensures NoOuterSpace(s)
  {
    if header in columns then CleanText(CellAt(row, header)) else ""
  }

  /** The record of a kept row: the stripped raw type, make and model read unguarded, and
      the four optional columns. */
  function Normalize(columns: set<string>, row: Row): (rec: EquipmentRecord) {
    EquipmentRecord(
      CleanText(CellAt(row, TypeColumn)),
      CleanText(CellAt(row, "MAKE")),
      CleanText(CellAt(row, "MODEL")),
      Optional(columns, row, "PLATE NO."),
      Optional(columns, row, "ASSET NO."),
      Optional(columns, row, "NEW ASSET NO."),
      Optional(columns, row, "MACHINE SERIAL NO."),
      Optional(columns, row, LocationColumn))
  }

  /** The whole script. The filter reads the type column unguarded and keeps the matching
      rows in order; the loop reads make and model unguarded, so the first kept row raises
      `KeyError` when either column is absent; otherwise every kept row yields one record. */
  function Extract(sheet: Sheet): (r: Result<seq<EquipmentRecord>, string>)
    ensures r.Ok? ==> |r.value| == |Filter(sheet.rows, Keep)|
    ensures r.Ok? ==> forall i :: 0 <= i < |r.value| ==>
                        r.value[i] == Normalize(sheet.columns, Filter(sheet.rows, Keep)[i])
  {
    if TypeColumn !in sheet.columns then Err(TypeColumn)
    else
      var kept := Filter(sheet.rows, Keep);
      var missing := FirstMissingColumn(sheet.columns, RequiredColumns);
      if kept != [] && missing.Some? then Err(missing.value)
      else Ok(Map(kept, (row: Row) => Normalize(sheet.columns, row)))
  }

  /** The script fails exactly when the type column is absent, or when make or model is
      absent and some row passes the filter; the error names the first absent column. */
  lemma ExtractFails(sheet: Sheet)
    ensures Extract(sheet).Err?
            <==> TypeColumn !in sheet.columns
                 || (Filter(sheet.rows, Keep) != []
                     && ("MAKE" !in sheet.columns || "MODEL" !in sheet.columns))
    ensures Extract(sheet).Err? ==> Extract(sheet).error !in sheet.columns
  {
  }

  /** Every record's type is the stripped spelling of an accepted type, so it is "DOZER",
      "WHEEL LOADER" or "Wheel loader"; the type is never canonicalised. */
  lemma KeptTypeStripped(columns: set<string>, row: Row)
    requires Keep(row)
    ensures Normalize(columns, row).equipmentType in {"DOZER", "WHEEL LOADER", "Wheel loader"}
  {
    var t := CellAt(row, TypeColumn).text;
    if t == " DOZER" {
      StripLeadingSpace("DOZER");
    } else if t == " WHEEL LOADER" {
      StripLeadingSpace("WHEEL LOADER");
    } else {
      TrimNoOuter(t);
    }
  }

  /** A single leading space is stripped. */
  lemma StripLeadingSpace(s: string)
    requires NoOuterSpace(s) && s != ""
    ensures Trim(" " + s) == s
  {
    assert (" " + s)[1..] == s;
    TrimNoOuter(s);
  }

  /** A column the sheet lacks is "" in every record, whatever the rows hold. */
  lemma AbsentColumnEmpty(sheet: Sheet)
    ensures Extract(sheet).Ok? && "PLATE NO." !in sheet.columns ==>
              forall i :: 0 <= i < |Extract(sheet).value| ==> Extract(sheet).value[i].plateNumber == ""
    ensures Extract(sheet).Ok? && LocationColumn !in sheet.columns ==>
              forall i :: 0 <= i < |Extract(sheet).value| ==> Extract(sheet).value[i].location == ""
  {
  }

  /** There is no completeness gate: a kept row with empty make and model still yields a
      record, and it has empty make and model. */
  lemma KeepsIncompleteRows(sheet: Sheet, i: nat)
    ensures && Extract(sheet).Ok? && i < |Filter(sheet.rows, Keep)|
            && CellAt(Filter(sheet.rows, Keep)[i], "MAKE").Missing?
            ==> i < |Extract(sheet).value| && Extract(sheet).value[i].make == ""
  {
  }

  /** The two scripts' filters disagree in both directions: the wide-spaced upper-case loader
      spelling passes only the canonicalising script ... */
  lemma WideLoaderOnlyCanonical(row: Row)
    requires CellAt(row, TypeColumn) == Str("WHEEL   LOADER")
    ensures ExtractAllEquipment.Keep(row) && !Keep(row)
  {
    var t := CellAt(row, TypeColumn).text;
    TrimNoOuter(t);
    assert t[6] == ' ';
  }

  /** ... and the mixed-case spelling passes only this one. */
  lemma MixedCaseLoaderOnlyHere(row: Row)
    requires CellAt(row, TypeColumn) == Str("Wheel loader")
    ensures Keep(row) && !ExtractAllEquipment.Keep(row)
  {
    var t := CellAt(row, TypeColumn).text;
    TrimNoOuter(t);
    assert t[1] == 'h';
  }
}
