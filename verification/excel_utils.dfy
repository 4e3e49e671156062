/** Spreadsheet import validation: the header check on the first row, the mapping of
    spreadsheet headers to database fields, per-row validation with error numbering, and the
    three built-in template configurations. Reading and writing workbooks is not modelled;
    the schema validator together with the optional row transformer is a function parameter. */
module ExcelUtils {
  import opened Wrappers
  import opened Text
  import opened Lists
  import opened OrderedMap

  /** A JavaScript object with string keys, in key insertion order. */
  type Object<V> = seq<(string, V)>

  /** A template: sheet name, header row, header-to-field mapping, required headers and
      sample rows. */
  datatype TemplateConfig = TemplateConfig(
    sheetName: string,
    headers: seq<string>,
    fieldMapping: seq<(string, string)>,
    requiredHeaders: seq<string>,
    sampleData: seq<seq<string>>)

  /** One validation issue: the path to the offending field and a message. */
  datatype Issue = Issue(path: seq<string>, message: string)

  /** What transforming and validating one mapped row gives: the validated value, the
      validator's issues, or an exception (with its message when it is an `Error`). */
  datatype Outcome<T> = Valid(data: T) | Invalid(issues: seq<Issue>) | Threw(message: Option<string>)

  datatype ImportError = ImportError(row: int, field: Option<string>, message: string)

  datatype Summary = Summary(total: nat, valid: nat, invalid: nat)

  /** The import result; `data` is absent when the header check fails. */
  datatype ImportResult<T> = ImportResult(
    success: bool,
    data: Option<seq<T>>,
    errors: seq<ImportError>,
    summary: Summary)

  // ---------------------------------------------------------------- header check

  /** `header in row`. */
  predicate HasKey<V>(row: Object<V>, header: string) {
    KeyIndex(row, header).Some?
  }

  /** The required headers the first row lacks, in the order the configuration lists them. */
  function MissingHeaders<V>(required: seq<string>, firstRow: Object<V>): (r: seq<string>)
    ensures forall h :: h in r <==> h in required && !HasKey(firstRow, h)
    ensures |r| <= |required|
  {
    if |required| == 0 then []
    else if !HasKey(firstRow, required[0]) then [required[0]] + MissingHeaders(required[1..], firstRow)
    else MissingHeaders(required[1..], firstRow)
  }

  // ---------------------------------------------------------------- field mapping

  /** The mapped row: for each mapping entry in order, the database field is set to the row's
      value under the spreadsheet header (`None` for `undefined`); a later entry for the same
      field overwrites an earlier one. */
  function MapRowInto<V>(acc: Object<Option<V>>, row: Object<V>, mapping: seq<(string, string)>)
    : (r: Object<Option<V>>)
    ensures DistinctKeys(acc) ==> DistinctKeys(r)
    ensures forall k :: (forall i :: 0 <= i < |mapping| ==> mapping[i].1 != k) ==> Get(r, k) == Get(acc, k)
    decreases |mapping|
  {
    if |mapping| == 0 then acc
    else MapRowInto(Set(acc, mapping[0].1, Get(row, mapping[0].0)), row, mapping[1..])
  }

  function MapRow<V>(row: Object<V>, mapping: seq<(string, string)>): (r: Object<Option<V>>)
    ensures DistinctKeys(r)
  {
    MapRowInto([], row, mapping)
  }

  /** The mapped row has exactly the mapping's database fields as keys, and a field holds the
      row's value under the last spreadsheet header mapped to it. */
  lemma {:induction false} MapRowIntoFields<V>(acc: Object<Option<V>>, row: Object<V>,
                                               mapping: seq<(string, string)>, i: nat)
    requires i < |mapping|
    requires forall j :: i < j < |mapping| ==> mapping[j].1 != mapping[i].1
    ensures Get(MapRowInto(acc, row, mapping), mapping[i].1) == Some(Get(row, mapping[i].0))
    decreases |mapping|
  {
    var next := Set(acc, mapping[0].1, Get(row, mapping[0].0));
    if i > 0 {
      MapRowIntoFields(next, row, mapping[1..], i - 1);
    } else {
      assert forall j :: 0 <= j < |mapping[1..]| ==> mapping[1..][j].1 != mapping[0].1;
    }
  }

  lemma MapRowFields<V>(row: Object<V>, mapping: seq<(string, string)>)
    ensures forall i :: 0 <= i < |mapping| && (forall j :: i < j < |mapping| ==> mapping[j].1 != mapping[i].1)
              ==> Get(MapRow(row, mapping), mapping[i].1) == Some(Get(row, mapping[i].0))
    ensures forall k :: (forall i :: 0 <= i < |mapping| ==> mapping[i].1 != k) ==> Get(MapRow(row, mapping), k).None?
  {
    forall i | 0 <= i < |mapping| && (forall j :: i < j < |mapping| ==> mapping[j].1 != mapping[i].1)
      ensures Get(MapRow(row, mapping), mapping[i].1) == Some(Get(row, mapping[i].0))
    {
      MapRowIntoFields([], row, mapping, i);
    }
  }

  // ---------------------------------------------------------------- row processing

  /** One error per validator issue of row `index`, with the issue's path joined by dots as
      the field. */
  function IssueErrors(index: nat, issues: seq<Issue>): seq<ImportError> {
    if |issues| == 0 then []
    else [ImportError(index + 2, Some(Join(issues[0].path, ".")), issues[0].message)]
         + IssueErrors(index, issues[1..])
  }

  /** Each issue becomes the error at the same position, carrying the issue's message and its
      path joined by dots as the field. */
  lemma {:induction false} IssueErrorsAt(index: nat, issues: seq<Issue>)
    ensures |IssueErrors(index, issues)| == |issues|
    ensures forall k :: 0 <= k < |issues| ==>
              IssueErrors(index, issues)[k]
              == ImportError(index + 2, Some(Join(issues[k].path, ".")), issues[k].message)
  {
    if |issues| > 0 {
      IssueErrorsAt(index, issues[1..]);
    }
  }

  /** The errors one row contributes, all numbered `index + 2` (one for the header row and
      one for counting from 1): one per validator issue, or one for an exception. */
  function RowErrors<T>(index: nat, o: Outcome<T>): seq<ImportError> {
    match o
    case Valid(_) => []
    case Invalid(issues) => IssueErrors(index, issues)
    case Threw(m) => [ImportError(index + 2, None, m.GetOr("Unknown error"))]
  }

  /** A row's errors all carry its number; a valid row has none, a row whose validation
      failed has one per issue, and a row that threw has exactly one. */
  lemma RowErrorsShape<T>(index: nat, o: Outcome<T>)
    ensures forall e :: e in RowErrors(index, o) ==> e.row == index + 2
    ensures o.Valid? ==> RowErrors(index, o) == []
    ensures o.Invalid? ==> |RowErrors(index, o)| == |o.issues|
    ensures o.Threw? ==> |RowErrors(index, o)| == 1
  {
    if o.Invalid? {
      IssueErrorsAt(index, o.issues);
      forall e | e in RowErrors(index, o) ensures e.row == index + 2 {
        var k :| 0 <= k < |o.issues| && RowErrors(index, o)[k] == e;
      }
    }
  }

  /** What checking one spreadsheet row gives: the row mapped to database fields, then
      transformed and validated. */
  function CheckRow<V, T>(mapping: seq<(string, string)>, check: Object<Option<V>> -> Outcome<T>,
                          row: Object<V>): Outcome<T> {
    check(MapRow(row, mapping))
  }

  /** The values the `forEach` collects: the validated value of each valid row, in row
      order. */
  function ValidData<T>(outcomes: seq<Outcome<T>>): (r: seq<T>)
    ensures |r| <= |outcomes|
  {
    if |outcomes| == 0 then []
    else if outcomes[0].Valid? then [outcomes[0].data] + ValidData(outcomes[1..])
    else ValidData(outcomes[1..])
  }

  /** The errors the `forEach` collects, the first outcome being row `from` (0-based): each
      row's errors, in row order. */
  function Errors<T>(outcomes: seq<Outcome<T>>, from: nat): (r: seq<ImportError>)
  {
    if |outcomes| == 0 then []
    else RowErrors(from, outcomes[0]) + Errors(outcomes[1..], from + 1)
  }

  /** Every collected value is the value of a valid row, and every valid row's value is
      collected. */
  lemma {:induction false} ValidDataMembers<T>(outcomes: seq<Outcome<T>>)
    ensures forall d :: d in ValidData(outcomes) <==> Valid(d) in outcomes
  {
    if |outcomes| > 0 {
      ValidDataMembers(outcomes[1..]);
      assert outcomes == [outcomes[0]] + outcomes[1..];
    }
  }

  /** Rows are handled one by one: the outcomes of `a` and then those of `b` give the values
      of `a` followed by those of `b`. */
  lemma {:induction false} ValidDataAppend<T>(a: seq<Outcome<T>>, b: seq<Outcome<T>>)
    ensures ValidData(a + b) == ValidData(a) + ValidData(b)
  {
    if |a| == 0 {
      assert a + b == b;
    } else {
      assert (a + b)[0] == a[0];
      assert (a + b)[1..] == a[1..] + b;
      ValidDataAppend(a[1..], b);
    }
  }

  /** The same for errors, with `b`'s rows numbered after `a`'s. */
  lemma {:induction false} ErrorsAppend<T>(a: seq<Outcome<T>>, b: seq<Outcome<T>>, from: nat)
    ensures Errors(a + b, from) == Errors(a, from) + Errors(b, from + |a|)
  {
    if |a| == 0 {
      assert a + b == b;
    } else {
      assert (a + b)[0] == a[0];
      assert (a + b)[1..] == a[1..] + b;
      ErrorsAppend(a[1..], b, from + 1);
    }
  }

  /** One row on its own: a valid row contributes its value and no error, any other row
      contributes no value and its errors. */
  lemma CollectOne<T>(o: Outcome<T>, from: nat)
    ensures o.Valid? ==> ValidData([o]) == [o.data] && Errors([o], from) == []
    ensures !o.Valid? ==> ValidData([o]) == [] && Errors([o], from) == RowErrors(from, o)
  {
    assert [o][1..] == [];
    assert RowErrors(from, o) + [] == RowErrors(from, o);
  }

  /** Every error names a data row: row numbers run from `from + 2` to the last row's. */
  lemma {:induction false} ErrorRowsInRange<T>(outcomes: seq<Outcome<T>>, from: nat)
    ensures forall e :: e in Errors(outcomes, from) ==> from + 2 <= e.row < from + |outcomes| + 2
  {
    if |outcomes| > 0 {
      ErrorRowsInRange(outcomes[1..], from + 1);
      RowErrorsShape(from, outcomes[0]);
    }
  }

  /** Error row numbers never decrease along the error list. */
  lemma {:induction false} ErrorsOrdered<T>(outcomes: seq<Outcome<T>>, from: nat)
    ensures forall i, j :: 0 <= i < j < |Errors(outcomes, from)| ==>
              Errors(outcomes, from)[i].row <= Errors(outcomes, from)[j].row
  {
    if |outcomes| > 0 {
      ErrorsOrdered(outcomes[1..], from + 1);
      ErrorRowsInRange(outcomes[1..], from + 1);
      RowErrorsShape(from, outcomes[0]);
      var head := RowErrors(from, outcomes[0]);
      var tail := Errors(outcomes[1..], from + 1);
      var errs := head + tail;
      forall i, j | 0 <= i < j < |errs| ensures errs[i].row <= errs[j].row {
        if i < |head| {
          assert errs[i] == head[i] && head[i] in head;
          if j >= |head| {
            assert errs[j] == tail[j - |head|] && tail[j - |head|] in tail;
            assert errs[i].row == from + 2;
            assert errs[j].row >= from + 3;
          } else {
            assert errs[j] == head[j] && head[j] in head;
          }
        } else {
          assert errs[i] == tail[i - |head|] && errs[j] == tail[j - |head|];
          assert tail[i - |head|].row <= tail[j - |head|].row;
        }
      }
    }
  }

  // ---------------------------------------------------------------- the whole validation

  /** `validateAndTransformExcelData`. */
  function ValidateAndTransform<V, T>(rawData: seq<Object<V>>, config: TemplateConfig,
                                      check: Object<Option<V>> -> Outcome<T>): (r: ImportResult<T>)
    ensures r.summary.total == |rawData|
    ensures r.success <==> r.errors == []
    ensures r.data.Some? ==> r.summary.valid == |r.data.value| && r.summary.invalid == |r.errors|
    ensures r.data.None? <==> |rawData| > 0 && MissingHeaders(config.requiredHeaders, rawData[0]) != []
    ensures r.data.None? ==> |r.errors| == 1 && r.errors[0].row == 0
    ensures r.data.Some? ==> forall e :: e in r.errors ==> 2 <= e.row < |rawData| + 2
  {
    var missing := if |rawData| > 0 then MissingHeaders(config.requiredHeaders, rawData[0]) else [];
    if missing != [] then
      var n := |rawData|;
      ImportResult(false, None,
                   [ImportError(0, None, "Missing required columns: " + Join(missing, ", "))],
                   Summary(n, 0, n))
    else
      var outcomes := Map(rawData, row => CheckRow(config.fieldMapping, check, row));
      var data, errors := ValidData(outcomes), Errors(outcomes, 0);
      ErrorRowsInRange(outcomes, 0);
      ImportResult(|errors| == 0, Some(data), errors, Summary(|rawData|, |data|, |errors|))
  }

  /** Empty input skips the header check and succeeds with nothing counted. */
  lemma ValidateEmpty<V, T>(config: TemplateConfig, check: Object<Option<V>> -> Outcome<T>)
    ensures var r := ValidateAndTransform([], config, check);
            r.success && r.data == Some([]) && r.summary == Summary(0, 0, 0)
  {
  }

  /** A failed header check reports every row as invalid, and its one error lists exactly the
      missing required headers. */
  lemma ValidateMissingHeaders<V, T>(rawData: seq<Object<V>>, config: TemplateConfig,
                                     check: Object<Option<V>> -> Outcome<T>)
    requires |rawData| > 0 && MissingHeaders(config.requiredHeaders, rawData[0]) != []
    ensures var r := ValidateAndTransform(rawData, config, check);
            && !r.success
            && r.summary == Summary(|rawData|, 0, |rawData|)
            && r.errors[0].message
               == "Missing required columns: " + Join(MissingHeaders(config.requiredHeaders, rawData[0]), ", ")
  {
  }

  /** With the headers in place, the data are exactly the validated values of the rows: a
      value is collected if and only if some row validates to it. */
  lemma ValidateData<V, T>(rawData: seq<Object<V>>, config: TemplateConfig,
                           check: Object<Option<V>> -> Outcome<T>)
    requires ValidateAndTransform(rawData, config, check).data.Some?
    ensures forall d :: d in ValidateAndTransform(rawData, config, check).data.value <==>
              exists i :: 0 <= i < |rawData| && check(MapRow(rawData[i], config.fieldMapping)) == Valid(d)
  {
    var outcomes := Map(rawData, row => CheckRow(config.fieldMapping, check, row));
    ValidDataMembers(outcomes);
    forall d ensures Valid(d) in outcomes <==>
      exists i :: 0 <= i < |rawData| && check(MapRow(rawData[i], config.fieldMapping)) == Valid(d)
    {
      if Valid(d) in outcomes {
        var i :| 0 <= i < |outcomes| && outcomes[i] == Valid(d);
        assert check(MapRow(rawData[i], config.fieldMapping)) == Valid(d);
      }
      if exists i :: 0 <= i < |rawData| && check(MapRow(rawData[i], config.fieldMapping)) == Valid(d) {
        var i :| 0 <= i < |rawData| && check(MapRow(rawData[i], config.fieldMapping)) == Valid(d);
        assert outcomes[i] == Valid(d);
      }
    }
  }

  /** The errors are listed in row order. */
  lemma ValidateErrorsOrdered<V, T>(rawData: seq<Object<V>>, config: TemplateConfig,
                                    check: Object<Option<V>> -> Outcome<T>)
    ensures var errs := ValidateAndTransform(rawData, config, check).errors;
            forall i, j :: 0 <= i < j < |errs| ==> errs[i].row <= errs[j].row
  {
    var outcomes := Map(rawData, row => CheckRow(config.fieldMapping, check, row));
    ErrorsOrdered(outcomes, 0);
  }

  /** Splitting the data rows of a sheet whose headers are in place does not change the data:
      validating `a + b` collects the values of `a` and then those of `b`. */
  lemma ValidateAppendData<V, T>(a: seq<Object<V>>, b: seq<Object<V>>, config: TemplateConfig,
                                 check: Object<Option<V>> -> Outcome<T>)
    requires |a| > 0 && |b| > 0
    requires MissingHeaders(config.requiredHeaders, a[0]) == []
    requires MissingHeaders(config.requiredHeaders, b[0]) == []
    ensures ValidateAndTransform(a + b, config, check).data.Some?
    ensures ValidateAndTransform(a + b, config, check).data.value
            == ValidateAndTransform(a, config, check).data.value
               + ValidateAndTransform(b, config, check).data.value
  {
    var f := row => CheckRow(config.fieldMapping, check, row);
    assert (a + b)[0] == a[0];
    MapAppend(a, b, f);
    ValidDataAppend(Map(a, f), Map(b, f));
  }

  /** The error count can exceed the number of failed rows: a single row with two issues
      counts as two invalid entries. */
  lemma InvalidCountsIssues<V, T>(row: Object<V>, config: TemplateConfig,
                                  check: Object<Option<V>> -> Outcome<T>, a: Issue, b: Issue)
    requires MissingHeaders(config.requiredHeaders, row) == []
    requires check(MapRow(row, config.fieldMapping)) == Invalid([a, b])
    ensures ValidateAndTransform([row], config, check).summary == Summary(1, 0, 2)
  {
    var outcomes := Map([row], r => CheckRow(config.fieldMapping, check, r));
    var o: Outcome<T> := Invalid([a, b]);
    assert outcomes == [o];
    CollectOne(o, 0);
    RowErrorsShape(0, o);
  }

  // ---------------------------------------------------------------- built-in templates

  /** The mapping lists the headers, in header order. */
  predicate MappingFollowsHeaders(c: TemplateConfig) {
    && |c.fieldMapping| == |c.headers|
    && forall i :: 0 <= i < |c.headers| ==> c.fieldMapping[i].0 == c.headers[i]
  }

  /** No two headers map to the same database field. */
  predicate DistinctFields(c: TemplateConfig) {
    forall i, j :: 0 <= i < j < |c.fieldMapping| ==> c.fieldMapping[i].1 != c.fieldMapping[j].1
  }

  predicate RequiredAreHeaders(c: TemplateConfig) {
    forall h :: h in c.requiredHeaders ==> h in c.headers
  }

  /** Every sample row has one cell per header. */
  predicate SamplesFit(c: TemplateConfig) {
    forall k :: 0 <= k < |c.sampleData| ==> |c.sampleData[k]| == |c.headers|
  }

  /** A template whose parts agree. */
  predicate Consistent(c: TemplateConfig) {
    MappingFollowsHeaders(c) && DistinctFields(c) && RequiredAreHeaders(c) && SamplesFit(c)
  }

  /** For a consistent template each header's value lands in its own database field, and no
      other field appears in the mapped row. */
  lemma ConsistentMapping<V>(c: TemplateConfig, row: Object<V>)
    requires Consistent(c)
    ensures forall i :: 0 <= i < |c.headers| ==>
              Get(MapRow(row, c.fieldMapping), c.fieldMapping[i].1) == Some(Get(row, c.headers[i]))
    ensures forall k :: (forall i :: 0 <= i < |c.fieldMapping| ==> c.fieldMapping[i].1 != k) ==>
              Get(MapRow(row, c.fieldMapping), k).None?
  {
    MapRowFields(row, c.fieldMapping);
  }

  const EmployeeTemplate: TemplateConfig := TemplateConfig(
    "Employees",
    ["Employee ID*", "Full Name*", "Role*", "Phone Number", "Email", "Specialty", "Department",
     "Device User ID"],
    [("Employee ID*", "employeeId"), ("Full Name*", "fullName"), ("Role*", "role"),
     ("Phone Number", "phoneNumber"), ("Email", "email"), ("Specialty", "specialty"),
     ("Department", "department"), ("Device User ID", "deviceUserId")],
    ["Employee ID*", "Full Name*", "Role*"],
    [["EMP001", "John Doe", "mechanic", "+251911234567", "john@example.com", "Engine",
      "mechanical", "1001"],
     ["EMP002", "Jane Smith", "supervisor", "+251922345678", "jane@example.com", "",
      "mechanical", "1002"]])

  const SparePartsTemplate: TemplateConfig := TemplateConfig(
    "Spare Parts",
    ["Part Number*", "Part Name*", "Category*", "Description", "Price", "Stock Quantity",
     "Location Instructions"],
    [("Part Number*", "partNumber"), ("Part Name*", "partName"), ("Category*", "category"),
     ("Description", "description"), ("Price", "price"), ("Stock Quantity", "stockQuantity"),
     ("Location Instructions", "locationInstructions")],
    ["Part Number*", "Part Name*", "Category*"],
    [["PN-001", "Engine Oil Filter", "Engine", "Standard oil filter for CAT engines", "25.50",
      "100", "Engine compartment, left side"],
     ["PN-002", "Hydraulic Hose", "Hydraulic", "1/2 inch hydraulic hose", "15.75", "50",
      "Hydraulic system, main line"]])

  const EquipmentTemplate: TemplateConfig := TemplateConfig(
    "Equipment",
    ["Equipment Type*", "Make*", "Model*", "Plate No", "Asset No", "New Asset No",
     "Machine Serial", "Plant Number", "Project Area", "Price", "Remarks"],
    [("Equipment Type*", "equipmentType"), ("Make*", "make"), ("Model*", "model"),
     ("Plate No", "plateNo"), ("Asset No", "assetNo"), ("New Asset No", "newAssetNo"),
     ("Machine Serial", "machineSerial"), ("Plant Number", "plantNumber"),
     ("Project Area", "projectArea"), ("Price", "price"), ("Remarks", "remarks")],
    ["Equipment Type*", "Make*", "Model*"],
    [["DOZER", "CAT", "D8R", "AA-12345", "AST-001", "NAST-001", "SN123456", "PLANT-01",
      "Area A", "250000", ""],
     ["WHEEL LOADER", "KOMATSU", "WA470", "AA-67890", "AST-002", "NAST-002", "SN789012",
      "PLANT-02", "Area B", "180000", ""]])

  lemma EmployeeTemplateConsistent(c: TemplateConfig)
    requires c == EmployeeTemplate
    ensures Consistent(c)
  {
    EmployeeFieldsDistinct(c);
    assert MappingFollowsHeaders(c) by {}
    assert RequiredAreHeaders(c) by {}
    assert SamplesFit(c) by {}
  }

  lemma EmployeeFieldsDistinct(c: TemplateConfig)
    requires c == EmployeeTemplate
    ensures DistinctFields(c)
  {
  }

  lemma SparePartsTemplateConsistent(c: TemplateConfig)
    requires c == SparePartsTemplate
    ensures Consistent(c)
  {
    SparePartsFieldsDistinct(c);
    assert MappingFollowsHeaders(c) by {}
    assert RequiredAreHeaders(c) by {}
    assert SamplesFit(c) by {}
  }

  lemma SparePartsFieldsDistinct(c: TemplateConfig)
    requires c == SparePartsTemplate
    ensures DistinctFields(c)
  {
  }

  lemma EquipmentTemplateConsistent(c: TemplateConfig)
    requires c == EquipmentTemplate
    ensures Consistent(c)
  {
    EquipmentFieldsDistinct(c);
    assert MappingFollowsHeaders(c) by {}
    assert RequiredAreHeaders(c) by {}
    assert SamplesFit(c) by {}
  }

  lemma EquipmentFieldsDistinct(c: TemplateConfig)
    requires c == EquipmentTemplate
    ensures DistinctFields(c)
  {
  }
}
