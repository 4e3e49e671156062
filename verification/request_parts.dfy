/** The parts-requisition form: the editable list of requisition lines (add, remove with
    renumbering, field edits, picking a spare part from the catalogue) and the submit step
    that validates the lines and builds the request payload. Line ids come from a random id
    generator and are parameters here. */
module RequestParts {
  import opened Wrappers
  import opened Text
  import opened Lists

  datatype Line = Line(
    id: string, lineNumber: int, sparePartId: Option<string>, description: string,
    unitOfMeasure: string, quantityRequested: int, remarks: string)

  const DefaultUnit: string := "pcs"

  /** A fresh, empty line. */
  function BlankLine(id: string, lineNumber: int): (l: Line)
    ensures l.id == id && l.lineNumber == lineNumber && l.sparePartId.None?
    ensures l.description == "" && l.unitOfMeasure == DefaultUnit && l.quantityRequested == 1 && l.remarks == ""
  {
    Line(id, lineNumber, None, "", DefaultUnit, 1, "")
  }

  /** The form's starting state, and the state after a successful submit: one blank line. */
  function Initial(freshId: string): (lines: seq<Line>)
    ensures |lines| == 1 && lines[0] == BlankLine(freshId, 1)
  {
    [BlankLine(freshId, 1)]
  }

  /** Lines are numbered 1, 2, … in list order. */
  predicate Numbered(lines: seq<Line>) {
    forall i :: 0 <= i < |lines| ==> lines[i].lineNumber == i + 1
  }

  /** `addLine`: a blank line numbered one past the current count, appended. */
  function AddLine(lines: seq<Line>, freshId: string): (r: seq<Line>)
    ensures |r| == |lines| + 1 && r[..|lines|] == lines
    ensures r[|lines|] == BlankLine(freshId, |lines| + 1)
    ensures Numbered(lines) ==> Numbered(r)
  {
    lines + [BlankLine(freshId, |lines| + 1)]
  }

  /** `line` with its number replaced. */
  function Renumbered(line: Line, n: int): (r: Line)
    ensures r.lineNumber == n && r.(lineNumber := line.lineNumber) == line
  {
    line.(lineNumber := n)
  }

  /** The `map((line, index) => …)` that numbers lines from 1. */
  function Renumber(lines: seq<Line>): (r: seq<Line>)
    ensures |r| == |lines| && Numbered(r)
    ensures forall i :: 0 <= i < |r| ==> r[i] == Renumbered(lines[i], i + 1)
  {
    seq(|lines|, i requires 0 <= i < |lines| => Renumbered(lines[i], i + 1))
  }

  function IdIsNot(id: string): Line -> bool {
    (l: Line) => l.id != id
  }

  /** What `removeLine` does: refuses to remove the last remaining line, otherwise drops
      every line with the id and renumbers the rest. */
  datatype Removal = Refused | Removed(lines: seq<Line>)

  function RemoveLine(lines: seq<Line>, id: string): (r: Removal)
    ensures r.Refused? <==> |lines| == 1
    ensures r.Removed? ==> Numbered(r.lines)
    ensures r.Removed? ==> forall i :: 0 <= i < |r.lines| ==> r.lines[i].id != id
    ensures r.Removed? ==> r.lines == Renumber(Filter(lines, IdIsNot(id)))
  {
    if |lines| == 1 then Refused
    else
      var kept := Filter(lines, IdIsNot(id));
      assert forall i :: 0 <= i < |kept| ==> kept[i].id != id by {
        forall i | 0 <= i < |kept| ensures kept[i].id != id {
          assert kept[i] in kept;
        }
      }
      Removed(Renumber(kept))
  }

  /** Removal keeps the other lines, in their order, changing only their numbers. */
  lemma RemoveKeepsOthers(lines: seq<Line>, id: string)
    requires |lines| != 1
    ensures var r := RemoveLine(lines, id).lines;
            |r| == |Filter(lines, IdIsNot(id))| &&
            forall i :: 0 <= i < |r| ==> r[i].(lineNumber := Filter(lines, IdIsNot(id))[i].lineNumber) == Filter(lines, IdIsNot(id))[i]
  {
  }

  /** Removing a line that was just added gives back the original lines when their ids are
      distinct from the new one and they were already numbered. */
  lemma {:induction false} RemoveUndoesAdd(lines: seq<Line>, freshId: string)
    requires Numbered(lines) && |lines| > 0
    requires forall l :: l in lines ==> l.id != freshId
    ensures RemoveLine(AddLine(lines, freshId), freshId) == Removed(lines)
  {
    var added := AddLine(lines, freshId);
    FilterAppend(lines, [BlankLine(freshId, |lines| + 1)], IdIsNot(freshId));
    FilterAll(lines, IdIsNot(freshId));
    assert Filter([BlankLine(freshId, |lines| + 1)], IdIsNot(freshId)) == [];
    assert Filter(added, IdIsNot(freshId)) == lines;
    var r := Renumber(lines);
    assert forall i :: 0 <= i < |lines| ==> r[i] == lines[i];
  }

  /** Filtering with a test every element passes changes nothing. */
  lemma {:induction false} FilterAll<T>(s: seq<T>, p: T -> bool)
    requires forall x :: x in s ==> p(x)
    ensures Filter(s, p) == s
  {
    if |s| > 0 {
      FilterAll(s[1..], p);
      assert s == [s[0]] + s[1..];
      FilterAppend([s[0]], s[1..], p);
    }
  }

  /** The fields `updateLine` is called with. */
  datatype Edit = SetDescription(text: string) | SetUnit(unit: string) | SetQuantity(quantity: int) | SetRemarks(text: string)

  function ApplyEdit(line: Line, e: Edit): (r: Line)
    ensures r.id == line.id && r.lineNumber == line.lineNumber && r.sparePartId == line.sparePartId
  {
    match e
    case SetDescription(t) => line.(description := t)
    case SetUnit(u) => line.(unitOfMeasure := u)
    case SetQuantity(q) => line.(quantityRequested := q)
    case SetRemarks(t) => line.(remarks := t)
  }

  /** `parseInt(input) || 1`: an unparseable input (None) or zero becomes 1. */
  function QuantityInput(parsed: Option<int>): (q: int)
    ensures q != 0
    ensures parsed.Some? && parsed.value != 0 ==> q == parsed.value
  {
    if parsed.Some? && parsed.value != 0 then parsed.value else 1
  }

  /** The lines with `f` applied to those carrying the id. */
  function MapLine(lines: seq<Line>, id: string, f: Line -> Line): (r: seq<Line>)
    ensures |r| == |lines|
    ensures forall i :: 0 <= i < |r| ==> r[i] == (if lines[i].id == id then f(lines[i]) else lines[i])
  {
    seq(|lines|, i requires 0 <= i < |lines| => if lines[i].id == id then f(lines[i]) else lines[i])
  }

  /** `updateLine`: the edit applied to the line with the id, every other line unchanged. */
  function UpdateLine(lines: seq<Line>, id: string, e: Edit): (r: seq<Line>)
    ensures |r| == |lines|
    ensures forall i :: 0 <= i < |r| && lines[i].id != id ==> r[i] == lines[i]
    ensures forall i :: 0 <= i < |r| && lines[i].id == id ==> r[i] == ApplyEdit(lines[i], e)
    ensures Numbered(lines) ==> Numbered(r)
  {
    MapLine(lines, id, (l: Line) => ApplyEdit(l, e))
  }

  /** A catalogue entry; a missing unit is the empty string. */
  datatype SparePart = SparePart(id: string, partName: string, partNumber: string, unitOfMeasure: string)

  /** `spareParts.find(p => p.id === partId)`. */
  function FindPart(parts: seq<SparePart>, partId: string): (r: Option<SparePart>)
    ensures r.Some? ==> r.value in parts && r.value.id == partId
    ensures r.None? <==> forall p :: p in parts ==> p.id != partId
  {
    if |parts| == 0 then None
    else if parts[0].id == partId then Some(parts[0])
    else FindPart(parts[1..], partId)
  }

  /** The line after the part is picked: the part id, "name (number)" as description, and the
      part's unit or "pcs". */
  function PickedLine(line: Line, part: SparePart): (r: Line)
    ensures r.id == line.id && r.lineNumber == line.lineNumber && r.sparePartId == Some(part.id)
    ensures r.description == part.partName + " (" + part.partNumber + ")"
    ensures r.unitOfMeasure == (if part.unitOfMeasure != "" then part.unitOfMeasure else DefaultUnit)
    ensures r.quantityRequested == line.quantityRequested && r.remarks == line.remarks
  {
    line.(sparePartId := Some(part.id),
          description := part.partName + " (" + part.partNumber + ")",
          unitOfMeasure := if part.unitOfMeasure != "" then part.unitOfMeasure else DefaultUnit)
  }

  /** `handlePartSelect`: an unknown part changes nothing; a known one fills in the line with
      the id and leaves every other line alone. */
  function PartSelect(lines: seq<Line>, parts: seq<SparePart>, lineId: string, partId: string): (r: seq<Line>)
    ensures FindPart(parts, partId).None? ==> r == lines
    ensures |r| == |lines|
    ensures forall i :: 0 <= i < |r| && lines[i].id != lineId ==> r[i] == lines[i]
    ensures FindPart(parts, partId).Some? ==>
              forall i :: 0 <= i < |r| && lines[i].id == lineId ==> r[i] == PickedLine(lines[i], FindPart(parts, partId).value)
    ensures Numbered(lines) ==> Numbered(r)
  {
    match FindPart(parts, partId)
    case None => lines
    case Some(part) => MapLine(lines, lineId, (l: Line) => PickedLine(l, part))
  }

  // ---------------------------------------------------------------- submit

  /** A request line as sent: empty part ids and remarks become null. */
  datatype RequestLine = RequestLine(
    lineNumber: int, sparePartId: Option<string>, description: string, unitOfMeasure: string,
    quantityRequested: int, remarks: Option<string>, status: string)

  datatype Request = Request(workOrderId: string, workshopId: Option<string>, status: string, lines: seq<RequestLine>)

  datatype Submission = EmptyDescription | InvalidQuantity | Submitted(request: Request)

  /** `value || null` for an optional string. */
  function NullIfBlank(s: Option<string>): (r: Option<string>)
    ensures r.Some? <==> s.Some? && s.value != ""
    ensures r.Some? ==> r.value == s.value
  {
    if s.Some? && s.value != "" then s else None
  }

  function ToRequestLine(l: Line): (r: RequestLine)
    ensures r.status == "pending"
    ensures r.lineNumber == l.lineNumber && r.description == l.description
    ensures r.unitOfMeasure == l.unitOfMeasure && r.quantityRequested == l.quantityRequested
    ensures r.sparePartId == NullIfBlank(l.sparePartId) && r.remarks == NullIfBlank(Some(l.remarks))
  {
    RequestLine(l.lineNumber, NullIfBlank(l.sparePartId), l.description, l.unitOfMeasure,
                l.quantityRequested, NullIfBlank(Some(l.remarks)), "pending")
  }

  predicate BlankDescription(l: Line) {
    Trim(l.description) == ""
  }

  /** `handleSubmit`: a blank description is reported first, then a quantity below 1;
      otherwise the request goes out with status "pending_foreman" and one pending request
      line per form line, in order. */
  function Submit(lines: seq<Line>, workOrderId: string, workshopId: Option<string>): (r: Submission)
    ensures r == EmptyDescription <==> exists i :: 0 <= i < |lines| && BlankDescription(lines[i])
    ensures r == InvalidQuantity <==>
              (forall i :: 0 <= i < |lines| ==> !BlankDescription(lines[i])) &&
              exists i :: 0 <= i < |lines| && lines[i].quantityRequested < 1
    ensures r.Submitted? ==> r.request.status == "pending_foreman" && r.request.workOrderId == workOrderId
    ensures r.Submitted? ==> r.request.workshopId == NullIfBlank(workshopId)
    ensures r.Submitted? ==> r.request.lines == Map(lines, ToRequestLine)
  {
    if exists i :: 0 <= i < |lines| && BlankDescription(lines[i]) then EmptyDescription
    else if exists i :: 0 <= i < |lines| && lines[i].quantityRequested < 1 then InvalidQuantity
    else Submitted(Request(workOrderId, NullIfBlank(workshopId), "pending_foreman", Map(lines, ToRequestLine)))
  }

  /** A sent request carries one pending line per form line, in order, each with a
      description that is not blank and a quantity of at least one. */
  lemma SubmittedLines(lines: seq<Line>, workOrderId: string, workshopId: Option<string>)
    requires Submit(lines, workOrderId, workshopId).Submitted?
    ensures var sent := Submit(lines, workOrderId, workshopId).request.lines;
            && |sent| == |lines|
            && forall i :: 0 <= i < |lines| ==>
                 && sent[i] == ToRequestLine(lines[i])
                 && sent[i].status == "pending"
                 && sent[i].quantityRequested >= 1
                 && Trim(sent[i].description) != ""
  {
    var sent := Submit(lines, workOrderId, workshopId).request.lines;
    forall i | 0 <= i < |lines|
      ensures sent[i].quantityRequested >= 1 && Trim(sent[i].description) != ""
    {
      assert !BlankDescription(lines[i]);
    }
  }

  /** The untouched form cannot be submitted: its one line has no description. */
  lemma InitialNotSubmittable(freshId: string, workOrderId: string, workshopId: Option<string>)
    ensures Submit(Initial(freshId), workOrderId, workshopId) == EmptyDescription
  {
    var lines := Initial(freshId);
    assert Trim(lines[0].description) == "" by {
      assert lines[0].description == "";
    }
    assert BlankDescription(lines[0]);
  }
}
