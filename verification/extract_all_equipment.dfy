/** The equipment-list extraction that canonicalises types: rows whose stripped type is a
    dozer or wheel-loader spelling become seven-field records, with the type reduced to
    "WHEEL LOADER" or "DOZER", and rows without both make and model are dropped. */
module ExtractAllEquipment {
  import opened Wrappers
  import opened Text
  import opened Lists
  import opened Spreadsheet

  const TypeColumn: string := "EQUIPMENT TYPE"

  /** The columns read for each kept row, in the order the record literal reads them. */
  const FieldColumns: seq<string> :=
    ["MAKE", "MODEL", "PLATE NO.", "ASSET NO.", "NEW ASSET NO.", "MACHINE SERIAL NO."]

  /** The type spellings the filter accepts once its own list has been stripped; the stripped
      "DOZER" and " DOZER" coincide. */
  const AcceptedTypes: set<string> := {"DOZER", "WHEEL   LOADER", "WHEEL LOADER"}

  /** One output object; its seven fields are the seven keys, and there is no location. */
  datatype EquipmentRecord = EquipmentRecord(
    equipmentType: string,
    make: string,
    model: string,
    plateNumber: string,
    assetNumber: string,
    newAssetNumber: string,
    serialNumber: string)

  /** How the script fails: a label that `df[...]` or `row[...]` looks up and the sheet lacks
      (`KeyError`), or a type column holding no string, on which `.str` raises
      `AttributeError`. */
  datatype Failure = KeyError(column: string) | AttributeError(column: string)

  /** Whether `.str` refuses the type column: a column with rows but no string cell reaches
      pandas as an all-empty, numeric or date column, and the string accessor raises on
      those; a column with at least one string cell, or with no rows, is accepted. */
  predicate NoTextTypes(rows: seq<Row>) {
    |rows| > 0 && forall i :: 0 <= i < |rows| ==> !CellAt(rows[i], TypeColumn).Str?
  }

  /** The type filter on a column `.str` accepts: `.str.strip()` turns a non-string or empty
      cell into `NaN`, which `isin` never accepts; a string is accepted when its stripped text is an accepted
      spelling, compared case-sensitively. */
  predicate Keep(row: Row) {
    var c := CellAt(row, TypeColumn);
    c.Str? && Trim(c.text) in AcceptedTypes
  }

  /** The canonical type: the stripped type with a run of three spaces replaced by one, then
      "WHEEL LOADER" if that text contains "LOADER" and "DOZER" otherwise. */
  function CanonicalType(raw: string): (t: string)
    ensures t == "WHEEL LOADER" || t == "DOZER"
  {
    CanonicalOfStripped(Trim(raw))
  }

  function CanonicalOfStripped(stripped: string): (t: string)
    ensures t == "WHEEL LOADER" || t == "DOZER"
  {
    if Contains(ReplaceAll(stripped, "   ", " "), "LOADER") then "WHEEL LOADER" else "DOZER"
  }

  /** The text of the type cell of a kept row, which is always a string. */
  function TypeText(row: Row): string {
    var c := CellAt(row, TypeColumn);
    if c.Str? then c.text else ""
  }

  /** The record built for a kept row: the canonical type, and every other field the stripped
      text of its cell, or "" for an empty cell. */
  function Normalize(row: Row): (rec: EquipmentRecord) {
    EquipmentRecord(
      CanonicalType(TypeText(row)),
      CleanText(CellAt(row, "MAKE")),
      CleanText(CellAt(row, "MODEL")),
      CleanText(CellAt(row, "PLATE NO.")),
      CleanText(CellAt(row, "ASSET NO.")),
      CleanText(CellAt(row, "NEW ASSET NO.")),
      CleanText(CellAt(row, "MACHINE SERIAL NO.")))
  }

  /** The completeness gate: both make and model are non-empty. */
  predicate Complete(rec: EquipmentRecord) {
    rec.make != "" && rec.model != ""
  }

  /** What every emitted record satisfies. */
  predicate WellFormed(rec: EquipmentRecord) {
    && (rec.equipmentType == "WHEEL LOADER" || rec.equipmentType == "DOZER")
    && rec.make != "" && rec.model != ""
    && NoOuterSpace(rec.make) && NoOuterSpace(rec.model) && NoOuterSpace(rec.plateNumber)
    && NoOuterSpace(rec.assetNumber) && NoOuterSpace(rec.newAssetNumber)
    && NoOuterSpace(rec.serialNumber)
  }

  /** A built record that passes the gate is well formed. */
  lemma NormalizeWellFormed(row: Row)
    ensures Complete(Normalize(row)) ==> WellFormed(Normalize(row))
  {
  }

  /** Every complete record built from any rows is well formed. */
  lemma BuiltWellFormed(kept: seq<Row>)
    ensures forall x :: x in Filter(Map(kept, Normalize), Complete) ==> WellFormed(x)
  {
    var built := Map(kept, Normalize);
    forall x | x in Filter(built, Complete) ensures WellFormed(x) {
      var i :| 0 <= i < |built| && built[i] == x;
      NormalizeWellFormed(kept[i]);
    }
  }

  /** The whole script. The filter reads the type column unguarded, raises if that column
      holds no string, and keeps the matching rows in order. The loop then reads the record columns of each kept row unguarded, so
      the first kept row raises `KeyError` for the first record column the sheet lacks;
      otherwise each kept row contributes its record when the record passes the gate. */
  function Extract(sheet: Sheet): (r: Result<seq<EquipmentRecord>, Failure>)
    ensures r.Ok? ==> forall i :: 0 <= i < |r.value| ==> WellFormed(r.value[i])
    ensures r.Ok? ==> |r.value| <= |Filter(sheet.rows, Keep)|
  {
    if TypeColumn !in sheet.columns then Err(KeyError(TypeColumn))
    else if NoTextTypes(sheet.rows) then Err(AttributeError(TypeColumn))
    else
      var kept := Filter(sheet.rows, Keep);
      var missing := FirstMissingColumn(sheet.columns, FieldColumns);
      if kept != [] && missing.Some? then Err(KeyError(missing.value))
      else
        var out := Filter(Map(kept, Normalize), Complete);
        assert forall i :: 0 <= i < |out| ==> WellFormed(out[i]) by {
          BuiltWellFormed(kept);
          forall i | 0 <= i < |out| ensures WellFormed(out[i]) {
            assert out[i] in out;
          }
        }
        Ok(out)
  }

  /** The script fails exactly when the type column is absent, when it has rows but no string
      in them, or when a record column is absent and some row passes the type filter: absent
      columns are errors, never defaults. */
  lemma ExtractFails(sheet: Sheet)
    ensures Extract(sheet).Err?
            <==> TypeColumn !in sheet.columns
                 || NoTextTypes(sheet.rows)
                 || (Filter(sheet.rows, Keep) != []
                     && exists c :: c in FieldColumns && c !in sheet.columns)
    ensures Extract(sheet).Err? && Extract(sheet).error.KeyError? ==>
              && Extract(sheet).error.column !in sheet.columns
              && (Extract(sheet).error.column == TypeColumn || Extract(sheet).error.column in FieldColumns)
    ensures Extract(sheet) == Err(AttributeError(TypeColumn)) <==> TypeColumn in sheet.columns && NoTextTypes(sheet.rows)
  {
  }

  /** Order is kept: extracting from two sheets' worth of rows one after the other gives the
      two results one after the other. */
  lemma ExtractAppend(columns: set<string>, a: seq<Row>, b: seq<Row>)
    requires TypeColumn in columns && forall c :: c in FieldColumns ==> c in columns
    ensures Extract(Sheet(columns, a)).Ok? && Extract(Sheet(columns, b)).Ok? ==>
              && Extract(Sheet(columns, a + b)).Ok?
              && Extract(Sheet(columns, a + b)).value
                 == Extract(Sheet(columns, a)).value + Extract(Sheet(columns, b)).value
  {
    if Extract(Sheet(columns, a)).Ok? && Extract(Sheet(columns, b)).Ok? {
      NoTextTypesAppend(a, b);
      ExtractAllColumns(Sheet(columns, a));
      ExtractAllColumns(Sheet(columns, b));
      ExtractAllColumns(Sheet(columns, a + b));
      FilterAppend(a, b, Keep);
      var ka, kb := Filter(a, Keep), Filter(b, Keep);
      MapAppend(ka, kb, Normalize);
      FilterAppend(Map(ka, Normalize), Map(kb, Normalize), Complete);
    }
  }

  /** Rows with no string type between them leave no string in either part. */
  lemma NoTextTypesAppend(a: seq<Row>, b: seq<Row>)
    ensures NoTextTypes(a + b) ==> NoTextTypes(a) || NoTextTypes(b)
  {
    if NoTextTypes(a + b) {
      if |a| > 0 {
        forall i | 0 <= i < |a| ensures !CellAt(a[i], TypeColumn).Str? {
          assert a[i] == (a + b)[i];
        }
      } else {
        assert a + b == b;
      }
    }
  }

  /** With every column present, the script succeeds unless the type column has rows but no
      string, and a record is emitted exactly when some row passes the type filter, builds
      that record, and the record has both make and model. */
  lemma ExtractMembers(sheet: Sheet, rec: EquipmentRecord)
    requires TypeColumn in sheet.columns && forall c :: c in FieldColumns ==> c in sheet.columns
    ensures Extract(sheet).Ok? <==> !NoTextTypes(sheet.rows)
    ensures Extract(sheet).Ok? ==>
              (rec in Extract(sheet).value
               <==> Complete(rec) && exists row :: row in sheet.rows && Keep(row) && Normalize(row) == rec)
  {
    ExtractAllColumns(sheet);
    FilterMapFilterMembers(sheet.rows, Keep, Normalize, Complete, rec);
  }

  lemma ExtractAllColumns(sheet: Sheet)
    requires TypeColumn in sheet.columns && forall c :: c in FieldColumns ==> c in sheet.columns
    ensures !NoTextTypes(sheet.rows) ==> Extract(sheet) == Ok(Filter(Map(Filter(sheet.rows, Keep), Normalize), Complete))
  {
  }

  /** A kept row becomes a wheel loader exactly when its stripped type is one of the two
      wheel-loader spellings, and a dozer otherwise. */
  lemma KeptTypeCanonical(row: Row)
    ensures Keep(row) ==> (Normalize(row).equipmentType == "WHEEL LOADER" <==> Trim(TypeText(row)) != "DOZER")
  {
    AcceptedTypeCanonical(TypeText(row));
  }

  /** The same for the type text itself: the canonical type of an accepted spelling. */
  lemma AcceptedTypeCanonical(raw: string)
    ensures Trim(raw) in AcceptedTypes ==> (CanonicalType(raw) == "WHEEL LOADER" <==> Trim(raw) != "DOZER")
  {
    if Trim(raw) in AcceptedTypes {
      AcceptedStrippedCanonical(Trim(raw));
    }
  }

  lemma AcceptedStrippedCanonical(t: string)
    requires t in AcceptedTypes
    ensures CanonicalOfStripped(t) == "WHEEL LOADER" <==> t != "DOZER"
  {
    if t == "DOZER" {
      DozerIsDozer(t);
    } else if t == "WHEEL LOADER" {
      LoaderIsLoader(t);
    } else {
      SpacedLoaderIsLoader(t);
    }
  }

  lemma DozerIsDozer(t: string)
    requires t == "DOZER"
    ensures !Contains(ReplaceAll(t, "   ", " "), "LOADER")
  {
    ReplaceAllPlainPrefix(t, "", "   ", " ");
    assert t + "" == t;
  }

  lemma LoaderIsLoader(t: string)
    requires t == "WHEEL LOADER"
    ensures Contains(ReplaceAll(t, "   ", " "), "LOADER")
  {
    var w, l, pat := "WHEEL", "LOADER", "   ";
    assert t == w + [pat[0]] + l;
    ReplaceSingle(w, l, pat, " ");
    ContainsAt(t, l, |w| + 1);
  }

  lemma SpacedLoaderIsLoader(t: string)
    requires t == "WHEEL   LOADER"
    ensures Contains(ReplaceAll(t, "   ", " "), "LOADER")
  {
    var w, l, pat := "WHEEL", "LOADER", "   ";
    assert t == w + pat + l;
    ReplaceExact(w, l, pat, " ");
    ContainsAt(w + " " + l, l, |w| + 1);
  }

  /** Two words joined by one copy of the pattern's first character, which neither word
      contains, are left alone when the pattern repeats that character. */
  lemma ReplaceSingle(w: string, l: string, pat: string, rep: string)
    requires |pat| > 1 && pat[1] == pat[0] && pat[0] !in w && pat[0] !in l
    ensures ReplaceAll(w + [pat[0]] + l, pat, rep) == w + [pat[0]] + l
  {
    var rest := [pat[0]] + l;
    assert w + [pat[0]] + l == w + rest;
    ReplaceAllPlainPrefix(w, rest, pat, rep);
    if |rest| >= |pat| {
      assert rest[..|pat|][1] == l[0];
      ReplaceAllSkip(rest, pat, rep);
      assert rest[1..] == l;
      ReplaceAllPlainPrefix(l, "", pat, rep);
      assert l + "" == l;
    }
  }

  /** Two words joined by the pattern, which neither word's characters start, become the
      words joined by the replacement. */
  lemma ReplaceExact(w: string, l: string, pat: string, rep: string)
    requires |pat| > 0 && pat[0] !in w && pat[0] !in l
    ensures ReplaceAll(w + pat + l, pat, rep) == w + rep + l
  {
    assert w + pat + l == w + (pat + l);
    ReplaceAllPlainPrefix(w, pat + l, pat, rep);
    ReplaceAllMatch(l, pat, rep);
    ReplaceAllPlainPrefix(l, "", pat, rep);
    assert l + "" == l;
  }
}
