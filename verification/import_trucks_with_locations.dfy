/** The dump-truck import that splits lines on tabs and remembers where each truck is: each
    data line becomes a dump-truck record, the asset number is mapped to the truck's current
    location, and the distinct non-empty locations become the garages to look up or create.
    The database work after parsing is not modelled. */
module ImportTrucksWithLocations {
  import opened Wrappers
  import opened Text
  import opened Lists
  import opened OrderedMap
  import opened TruckLines

  /** One element of `trucksData`. */
  datatype Truck = Truck(
    equipmentType: string,
    make: string,
    model: string,
    plateNo: Option<string>,
    assetNo: string,
    newAssetNo: Option<string>,
    machineSerial: Option<string>,
    remarks: Option<string>)

  /** What one kept line gives: the record and the truck's current location. */
  datatype Entry = Entry(truck: Truck, location: string)

  /** What every record satisfies: a dump truck with make and a non-excluded asset number,
      and null in place of every empty optional field. */
  predicate WellFormed(t: Truck) {
    && t.equipmentType == DumpTruck
    && t.make != "" && t.assetNo != ""
    && t.assetNo !in ExcludedAssets
    && (t.plateNo.Some? ==> t.plateNo.value != "")
    && (t.newAssetNo.Some? ==> t.newAssetNo.value != "")
    && (t.machineSerial.Some? ==> t.machineSerial.value != "")
    && (t.remarks.Some? ==> t.remarks.value != "")
  }

  /** The loop body for one line. Model is not required: a missing model is "". */
  function Classify(line: string): (r: LineResult<Entry>)
    ensures r.Parsed? ==> WellFormed(r.record.truck)
    ensures r.Excluded? ==> r.assetNo in ExcludedAssets
  {
    if SkippedLine(line) then Skipped
    else
      var parts := Split(line, '\t');
      if |parts| < 10 then Skipped
      else
        var make := Field(parts, 2);
        var assetNo := Field(parts, 6);
        if Field(parts, 1) != DumpTruck then Skipped
        else if assetNo in ExcludedAssets then Excluded(assetNo)
        else if make == "" || assetNo == "" then Skipped
        else
          Parsed(Entry(
            Truck(DumpTruck, make, Field(parts, 3), NullIfEmpty(Field(parts, 5)), assetNo,
                  NullIfEmpty(Field(parts, 7)), NullIfEmpty(Field(parts, 8)),
                  NullIfEmpty(Field(parts, 15))),
            Field(parts, 13)))
  }

  /** A line gives a record exactly when it passes the line filter, has at least ten
      tab-separated fields, and is a dump truck with make and a non-excluded asset number;
      it is excluded exactly when it is a dump truck with an excluded asset number. The
      record's fields are the line's, and its location is field 13. */
  lemma ClassifyCases(line: string)
    ensures Classify(line).Excluded? <==>
              && !SkippedLine(line)
              && |Split(line, '\t')| >= 10
              && Field(Split(line, '\t'), 1) == DumpTruck
              && Field(Split(line, '\t'), 6) in ExcludedAssets
    ensures Classify(line).Parsed? <==>
              && !SkippedLine(line)
              && |Split(line, '\t')| >= 10
              && Field(Split(line, '\t'), 1) == DumpTruck
              && Field(Split(line, '\t'), 6) !in ExcludedAssets
              && Field(Split(line, '\t'), 2) != ""
              && Field(Split(line, '\t'), 6) != ""
    ensures Classify(line).Parsed? ==>
              var parts := Split(line, '\t');
              var e := Classify(line).record;
              && e.truck.make == Field(parts, 2) && e.truck.model == Field(parts, 3)
              && e.truck.assetNo == Field(parts, 6)
              && e.truck.plateNo == NullIfEmpty(Field(parts, 5))
              && e.truck.newAssetNo == NullIfEmpty(Field(parts, 7))
              && e.truck.machineSerial == NullIfEmpty(Field(parts, 8))
              && e.truck.remarks == NullIfEmpty(Field(parts, 15))
              && e.location == Field(parts, 13)
  {
  }

  // ---------------------------------------------------------------- the location map

  /** `locationMap.set(assetNo, currentLocation)` for each entry in order. */
  function LocationMapInto(acc: seq<(string, string)>, entries: seq<Entry>): (r: seq<(string, string)>)
    ensures DistinctKeys(acc) ==> DistinctKeys(r)
    ensures forall a :: (forall i :: 0 <= i < |entries| ==> entries[i].truck.assetNo != a) ==>
              Get(r, a) == Get(acc, a)
    decreases |entries|
  {
    if |entries| == 0 then acc
    else LocationMapInto(Set(acc, entries[0].truck.assetNo, entries[0].location), entries[1..])
  }

  function LocationMap(entries: seq<Entry>): (r: seq<(string, string)>)
    ensures DistinctKeys(r)
  {
    LocationMapInto([], entries)
  }

  /** An asset number maps to the location of its last entry: a later line with the same
      asset number overwrites an earlier one. */
  lemma {:induction false} LocationMapIntoLast(acc: seq<(string, string)>, entries: seq<Entry>, i: nat)
    requires i < |entries|
    requires forall j :: i < j < |entries| ==> entries[j].truck.assetNo != entries[i].truck.assetNo
    ensures Get(LocationMapInto(acc, entries), entries[i].truck.assetNo) == Some(entries[i].location)
    decreases |entries|
  {
    var next := Set(acc, entries[0].truck.assetNo, entries[0].location);
    if i > 0 {
      LocationMapIntoLast(next, entries[1..], i - 1);
    } else {
      assert forall j :: 0 <= j < |entries[1..]| ==>
        entries[1..][j].truck.assetNo != entries[0].truck.assetNo;
    }
  }

  /** The location map holds exactly the entries' asset numbers, each with the location of
      the last entry carrying it. */
  lemma LocationMapLast(entries: seq<Entry>)
    ensures forall i :: 0 <= i < |entries|
              && (forall j :: i < j < |entries| ==> entries[j].truck.assetNo != entries[i].truck.assetNo)
              ==> Get(LocationMap(entries), entries[i].truck.assetNo) == Some(entries[i].location)
    ensures forall a :: (forall i :: 0 <= i < |entries| ==> entries[i].truck.assetNo != a) ==>
              Get(LocationMap(entries), a).None?
  {
    forall i | 0 <= i < |entries|
      && (forall j :: i < j < |entries| ==> entries[j].truck.assetNo != entries[i].truck.assetNo)
      ensures Get(LocationMap(entries), entries[i].truck.assetNo) == Some(entries[i].location)
    {
      LocationMapIntoLast([], entries, i);
    }
  }

  /** `[...new Set(locationMap.values())].filter(Boolean)`: the distinct locations in
      first-seen order, without the empty one. */
  function LocationNames(m: seq<(string, string)>): (r: seq<string>)
    ensures NoDuplicates(r)
    ensures "" !in r
    ensures forall x :: x in r <==> x != "" && x in Values(m)
  {
    var id := (x: string) => x;
    var unique := DedupBy(Values(m), id, {});
    DedupByDistinct(Values(m), id, {});
    DedupByCovers(Values(m), id, {});
    var r := Filter(unique, (x: string) => x != "");
    assert NoDuplicates(r) by {
      FilterDistinct(unique, (x: string) => x != "");
    }
    r
  }

  /** Filtering a list without repeats keeps it without repeats. */
  lemma {:induction false} FilterDistinct(s: seq<string>, p: string -> bool)
    requires forall i, j :: 0 <= i < j < |s| ==> s[i] != s[j]
    ensures NoDuplicates(Filter(s, p))
  {
    if |s| > 0 {
      FilterDistinct(s[1..], p);
      var rest := Filter(s[1..], p);
      if p(s[0]) {
        assert s[0] !in s[1..];
        assert s[0] !in rest;
        var r := [s[0]] + rest;
        forall i, j | 0 <= i < j < |r| ensures r[i] != r[j] {
          assert r[j] == rest[j - 1] && rest[j - 1] in rest;
          if i > 0 { assert r[i] == rest[i - 1]; }
        }
      }
    }
  }

  // ---------------------------------------------------------------- the whole parse

  datatype TruckImport = TruckImport(
    trucks: seq<Truck>,
    locationMap: seq<(string, string)>,
    excludedCount: nat,
    locationNames: seq<string>)

  function Trucks(entries: seq<Entry>): (r: seq<Truck>)
    ensures |r| == |entries|
    ensures forall i :: 0 <= i < |entries| ==> r[i] == entries[i].truck
  {
    Map(entries, (e: Entry) => e.truck)
  }

  /** The entries of the kept lines, in line order (header lines included in `lines`). */
  function Entries(lines: seq<string>): (r: seq<Entry>)
    ensures forall e :: e in r ==> WellFormed(e.truck)
  {
    var body := Drop(lines, 2);
    var rs := Map(body, Classify);
    assert forall e :: e in Records(rs) ==> WellFormed(e.truck) by {
      RecordsMembers(rs);
      forall e | e in Records(rs) ensures WellFormed(e.truck) {
        var k :| 0 <= k < |rs| && rs[k] == Parsed(e);
        assert rs[k] == Classify(body[k]);
      }
    }
    Records(rs)
  }

  /** The parse of `importTrucksWithLocations` over the lines of the file (header lines
      included), up to the unique location names. */
  function ImportLines(lines: seq<string>): (r: TruckImport)
    ensures forall t :: t in r.trucks ==> WellFormed(t)
    ensures NoDuplicates(r.locationNames) && "" !in r.locationNames
  {
    var entries := Entries(lines);
    var m := LocationMap(entries);
    assert forall t :: t in Trucks(entries) ==> WellFormed(t) by {
      forall t | t in Trucks(entries) ensures WellFormed(t) {
        var i :| 0 <= i < |entries| && Trucks(entries)[i] == t;
        assert entries[i] in entries;
      }
    }
    TruckImport(Trucks(entries), m, ExcludedCount(Map(Drop(lines, 2), Classify)), LocationNames(m))
  }

  function Import(content: string): TruckImport {
    ImportLines(Split(content, '\n'))
  }

  /** Excluded trucks never reach the records or the location map. */
  lemma ExcludedNeverMapped(lines: seq<string>, a: string)
    requires a in ExcludedAssets
    ensures Get(LocationMap(Entries(lines)), a).None?
    ensures forall t :: t in Trucks(Entries(lines)) ==> t.assetNo != a
  {
    var entries := Entries(lines);
    LocationMapLast(entries);
    assert forall i :: 0 <= i < |entries| ==> entries[i].truck.assetNo != a by {
      forall i | 0 <= i < |entries| ensures entries[i].truck.assetNo != a {
        assert entries[i] in entries;
      }
    }
  }

  /** Two kept lines with the same asset number give two records but one location-map entry,
      holding the later line's location. */
  lemma DuplicateAssetKept(e1: Entry, e2: Entry)
    requires e1.truck.assetNo == e2.truck.assetNo
    ensures |Trucks([e1, e2])| == 2
    ensures |LocationMap([e1, e2])| == 1
    ensures Get(LocationMap([e1, e2]), e1.truck.assetNo) == Some(e2.location)
  {
    var entries := [e1, e2];
    LocationMapLast(entries);
    assert entries[1..] == [e2] && entries[1..][1..] == [];
    var m1 := Set([], e1.truck.assetNo, e1.location);
    assert |m1| == 1 && KeyIndex(m1, e1.truck.assetNo).Some?;
    var m2 := Set(m1, e2.truck.assetNo, e2.location);
    assert LocationMapInto(m1, [e2]) == LocationMapInto(m2, []) == m2;
    assert LocationMap(entries) == LocationMapInto(m1, [e2]);
  }

  /** A line the import counts as excluded. */
  predicate ExcludedLine(line: string) {
    && !SkippedLine(line)
    && |Split(line, '\t')| >= 10
    && Field(Split(line, '\t'), 1) == DumpTruck
    && Field(Split(line, '\t'), 6) in ExcludedAssets
  }

  /** `excludedCount` is the number of excluded data lines. */
  lemma ExcludedCounted(lines: seq<string>)
    ensures ImportLines(lines).excludedCount == |Filter(Drop(lines, 2), ExcludedLine)|
  {
    var data := Drop(lines, 2);
    var rs := Map(data, Classify);
    forall i | 0 <= i < |rs| ensures rs[i].Excluded? <==> ExcludedLine(data[i]) {
      ClassifyCases(data[i]);
    }
    ExcludedCountIsFilter(data, rs, ExcludedLine);
  }
}
