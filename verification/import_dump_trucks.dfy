/** The dump-truck import that splits lines on runs of whitespace: each data line of the pasted
    equipment list becomes a dump-truck record with the location and the remark folded into
    one remarks text; the two excluded trucks are counted, and the records are inserted in
    batches of fifty. The database inserts themselves are not modelled. */
module ImportDumpTrucks {
  import opened Wrappers
  import opened Text
  import opened Lists
  import opened TruckLines

  // ---------------------------------------------------------------- splitting on /\s{2,}/

  /** Two whitespace characters start at `i`. */
  predicate RunAt(s: string, i: int) {
    0 <= i && i + 1 < |s| && IsSpace(s[i]) && IsSpace(s[i + 1])
  }

  /** No two consecutive whitespace characters. */
  predicate NoRun(s: string) {
    forall i :: 0 <= i < |s| ==> !RunAt(s, i)
  }

  /** The first position at or after `from` where a run of two or more whitespace characters
      starts. */
  function FirstRun(s: string, from: nat): (r: Option<nat>)
    ensures r.Some? ==> from <= r.value && RunAt(s, r.value)
    ensures r.Some? ==> forall j :: from <= j < r.value ==> !RunAt(s, j)
    ensures r.None? <==> forall j :: from <= j < |s| ==> !RunAt(s, j)
    decreases |s| - from
  {
    if from + 1 >= |s| then None
    else if RunAt(s, from) then Some(from)
    else FirstRun(s, from + 1)
  }

  /** The end of the whitespace run that starts at `i`: the greedy `\s{2,}` match. */
  function RunEnd(s: string, i: nat): (e: nat)
    requires i <= |s|
    ensures i <= e <= |s|
    ensures forall j :: i <= j < e ==> IsSpace(s[j])
    ensures e == |s| || !IsSpace(s[e])
    decreases |s| - i
  {
    if i == |s| || !IsSpace(s[i]) then i else RunEnd(s, i + 1)
  }

  /** `line.split(/\s{2,}/)`: the pieces between maximal runs of two or more whitespace
      characters, with an empty piece before a leading run and after a trailing one. */
  function SplitRuns(s: string): (r: seq<string>)
    ensures |r| >= 1
    ensures forall k :: 0 <= k < |r| ==> NoRun(r[k])
    decreases |s|
  {
    match FirstRun(s, 0)
    case None => [s]
    case Some(i) =>
      assert NoRun(s[..i]) by {
        forall j | 0 <= j ensures !RunAt(s[..i], j) {
          if RunAt(s[..i], j) { assert RunAt(s, j); }
        }
      }
      [s[..i]] + SplitRuns(s[RunEnd(s, i)..])
  }

  /** A field as the split can produce it between two separators. */
  predicate Piece(p: string) {
    p != "" && NoOuterSpace(p) && NoRun(p)
  }

  lemma {:induction false} FirstRunAt(s: string, from: nat, i: nat)
    requires from <= i && RunAt(s, i)
    requires forall j :: from <= j < i ==> !RunAt(s, j)
    ensures FirstRun(s, from) == Some(i)
    decreases i - from
  {
    if from < i {
      FirstRunAt(s, from + 1, i);
    }
  }

  lemma {:induction false} RunEndAt(s: string, i: nat, e: nat)
    requires i <= e <= |s|
    requires forall j :: i <= j < e ==> IsSpace(s[j])
    requires e == |s| || !IsSpace(s[e])
    ensures RunEnd(s, i) == e
    decreases e - i
  {
    if i < e {
      RunEndAt(s, i + 1, e);
    }
  }

  /** A joined list starts with its first element. */
  lemma {:induction false} JoinStartsWith(ps: seq<string>, sep: string)
    requires |ps| >= 1
    ensures |Join(ps, sep)| >= |ps[0]| && Join(ps, sep)[..|ps[0]|] == ps[0]
  {
    if |ps| > 1 {
      assert Join(ps, sep) == ps[0] + (sep + Join(ps[1..], sep));
    }
  }

  /** Splitting undoes joining: fields that are non-empty, have no outer whitespace and no
      run of whitespace inside, joined with a separator of two or more whitespace
      characters, split back into the same fields. */
  lemma {:induction false} SplitRunsJoin(pieces: seq<string>, sep: string)
    requires |pieces| >= 1
    requires |sep| >= 2 && AllSpace(sep)
    requires forall k :: 0 <= k < |pieces| ==> Piece(pieces[k])
    ensures SplitRuns(Join(pieces, sep)) == pieces
  {
    var p := pieces[0];
    if |pieces| == 1 {
      assert FirstRun(p, 0).None?;
    } else {
      var rest := pieces[1..];
      var tail := Join(rest, sep);
      var s := p + sep + tail;
      assert Join(pieces, sep) == s;
      JoinStartsWith(rest, sep);
      assert tail[0] == rest[0][0];
      assert s[|p|] == sep[0] && s[|p| + 1] == sep[1];
      forall j | 0 <= j < |p| ensures !RunAt(s, j) {
        if j + 1 < |p| {
          assert s[j] == p[j] && s[j + 1] == p[j + 1];
          assert !RunAt(p, j);
        } else {
          assert s[j] == p[|p| - 1];
        }
      }
      FirstRunAt(s, 0, |p|);
      var e := |p| + |sep|;
      assert forall j :: |p| <= j < e ==> s[j] == sep[j - |p|];
      assert s[e] == tail[0];
      RunEndAt(s, |p|, e);
      assert s[..|p|] == p;
      assert s[e..] == tail;
      SplitRunsJoin(rest, sep);
    }
  }

  // ---------------------------------------------------------------- one line

  /** One record of the insert; `machineSerial` is always null here. */
  datatype Truck = Truck(
    equipmentType: string,
    make: string,
    model: string,
    plateNo: Option<string>,
    assetNo: string,
    newAssetNo: Option<string>,
    machineSerial: Option<string>,
    remarks: string)

  /** What every inserted record satisfies. */
  predicate WellFormed(t: Truck) {
    && t.equipmentType == DumpTruck
    && t.machineSerial.None?
    && t.assetNo !in ExcludedAssets
    && t.make != "" && t.model != "" && t.assetNo != ""
    && (t.plateNo.Some? ==> t.plateNo.value != "")
    && (t.newAssetNo.Some? ==> t.newAssetNo.value != "")
  }

  /** The remarks text: the location, followed by " - " and the remark when there is one. */
  function Remarks(location: string, remark: string): (r: string)
    ensures StartsWith(r, location)
    ensures remark == "" <==> r == location
    ensures remark != "" ==> EndsWith(r, " - " + remark)
  {
    if remark != "" then location + " - " + remark else location
  }

  /** The loop body for one line. */
  function Classify(line: string): (r: LineResult<Truck>)
    ensures r.Parsed? ==> WellFormed(r.record)
    ensures r.Excluded? ==> r.assetNo in ExcludedAssets
  {
    if SkippedLine(line) then Skipped
    else
      var parts := SplitRuns(line);
      if |parts| < 10 then Skipped
      else
        var equipmentType := Field(parts, 1);
        var make := Field(parts, 2);
        var model := Field(parts, 3);
        var assetNo := Field(parts, 6);
        if equipmentType != DumpTruck then Skipped
        else if assetNo in ExcludedAssets then Excluded(assetNo)
        else if make == "" || model == "" || assetNo == "" then Skipped
        else
          Parsed(Truck(DumpTruck, make, model, NullIfEmpty(Field(parts, 5)), assetNo,
                       NullIfEmpty(Field(parts, 7)), None,
                       Remarks(Field(parts, 12), Field(parts, 14))))
  }

  /** A line is excluded exactly when it passes the line filter, has at least ten fields, is
      a dump truck, and carries one of the two excluded asset numbers. */
  predicate ExcludedLine(line: string) {
    && !SkippedLine(line)
    && |SplitRuns(line)| >= 10
    && Field(SplitRuns(line), 1) == DumpTruck
    && Field(SplitRuns(line), 6) in ExcludedAssets
  }

  /** A line gives a record exactly when it passes the line filter, has at least ten fields,
      is a dump truck with make, model and an asset number that is not excluded; the
      record's fields are the line's fields, with empty plate and new asset numbers null. */
  lemma ClassifyParsed(line: string)
    ensures Classify(line).Excluded? <==> ExcludedLine(line)
    ensures Classify(line).Parsed? <==>
              && !SkippedLine(line)
              && |SplitRuns(line)| >= 10
              && Field(SplitRuns(line), 1) == DumpTruck
              && Field(SplitRuns(line), 6) !in ExcludedAssets
              && Field(SplitRuns(line), 2) != ""
              && Field(SplitRuns(line), 3) != ""
              && Field(SplitRuns(line), 6) != ""
    ensures Classify(line).Parsed? ==>
              var parts := SplitRuns(line);
              var t := Classify(line).record;
              && t.make == Field(parts, 2) && t.model == Field(parts, 3)
              && t.assetNo == Field(parts, 6)
              && t.plateNo == NullIfEmpty(Field(parts, 5))
              && t.newAssetNo == NullIfEmpty(Field(parts, 7))
              && t.remarks == Remarks(Field(parts, 12), Field(parts, 14))
  {
  }

  /** Blank lines, mixer-truck lines and lines of fewer than ten fields give nothing. */
  lemma ShortOrSkippedLines(line: string)
    requires SkippedLine(line) || |SplitRuns(line)| < 10
    ensures Classify(line).Skipped?
  {
  }

  // ---------------------------------------------------------------- the whole import

  datatype DumpImport = DumpImport(trucks: seq<Truck>, excludedCount: nat)

  /** Every data line classified, in order. */
  function ClassifyAll(lines: seq<string>): (r: seq<LineResult<Truck>>)
    ensures |r| == |lines|
    ensures forall i :: 0 <= i < |lines| ==> r[i] == Classify(lines[i])
  {
    Map(lines, Classify)
  }

  /** The parse loop over the lines of the file (header lines included). */
  function ImportLines(lines: seq<string>): (r: DumpImport)
    ensures forall t :: t in r.trucks ==> WellFormed(t)
  {
    var rs := ClassifyAll(Drop(lines, 2));
    RecordsMembers(rs);
    DumpImport(Records(rs), ExcludedCount(rs))
  }

  /** `excludedCount` is the number of excluded data lines. */
  lemma ExcludedCounted(lines: seq<string>)
    ensures ImportLines(lines).excludedCount == |Filter(Drop(lines, 2), ExcludedLine)|
  {
    var data := Drop(lines, 2);
    var rs := ClassifyAll(data);
    forall i | 0 <= i < |rs| ensures rs[i].Excluded? <==> ExcludedLine(data[i]) {
      ClassifyParsed(data[i]);
    }
    ExcludedCountIsFilter(data, rs, ExcludedLine);
  }

  /** `importDumpTrucks` up to the inserts. */
  function Import(content: string): (r: DumpImport) {
    ImportLines(Split(content, '\n'))
  }

  /** The two header lines never matter: whatever they hold, the result is that of the lines
      after them. */
  lemma HeaderLinesIgnored(h: seq<string>, g: seq<string>, rest: seq<string>)
    requires |h| == 2 && |g| == 2
    ensures ImportLines(h + rest) == ImportLines(g + rest)
  {
    assert Drop(h + rest, 2) == rest;
    assert Drop(g + rest, 2) == rest;
  }

  /** Lines are handled one by one: the records of a file are those of its first lines
      followed by those of the rest, and the exclusion counts add up. */
  lemma ImportAppend(a: seq<string>, b: seq<string>)
    requires |a| >= 2
    ensures ImportLines(a + b).trucks == ImportLines(a).trucks + ClassifiedRecords(b)
  {
    assert Drop(a + b, 2) == Drop(a, 2) + b;
    MapAppend(Drop(a, 2), b, Classify);
    RecordsAppend(ClassifyAll(Drop(a, 2)), ClassifyAll(b));
  }

  /** The records a run of data lines gives. */
  function ClassifiedRecords(lines: seq<string>): seq<Truck> {
    Records(ClassifyAll(lines))
  }

  // ---------------------------------------------------------------- batches

  const BatchSize: nat := 50

  /** The insert batches: `trucksToInsert.slice(i, i + 50)` for `i = 0, 50, 100, …`. */
  function Batches(trucks: seq<Truck>): (r: seq<seq<Truck>>)
    ensures forall k :: 0 <= k < |r| ==> 0 < |r[k]| <= BatchSize
    ensures forall k :: 0 <= k < |r| - 1 ==> |r[k]| == BatchSize
  {
    Chunks(trucks, BatchSize)
  }

  /** The batches cover the records exactly once and in order, and batch `k` is the slice
      starting at index `50 k`. */
  lemma BatchesCover(trucks: seq<Truck>)
    ensures Flatten(Batches(trucks)) == trucks
    ensures forall k :: 0 <= k < |Batches(trucks)| ==>
              k * BatchSize < |trucks|
              && Batches(trucks)[k] == trucks[k * BatchSize .. Min(|trucks|, k * BatchSize + BatchSize)]
  {
    ChunksFlatten(trucks, BatchSize);
    forall k | 0 <= k < |Batches(trucks)|
      ensures k * BatchSize < |trucks|
      ensures Batches(trucks)[k] == trucks[k * BatchSize .. Min(|trucks|, k * BatchSize + BatchSize)]
    {
      ChunkAt(trucks, BatchSize, k);
    }
  }
}
