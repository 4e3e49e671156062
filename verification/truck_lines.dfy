/** What the two dump-truck import scripts share: the pasted equipment list read as lines
    after two header lines, the line filter both apply first, the trimmed field lookup, the
    two excluded asset numbers, and the per-line outcome (skipped, excluded or parsed) with
    the parsed records and the exclusion count gathered in line order. */
module TruckLines {
  import opened Wrappers
  import opened Text
  import opened Lists

  /** The asset numbers of the sold and the cannibalised truck, never imported. */
  const ExcludedAssets: set<string> := {"VEH 01-20", "VEH 01-36"}

  /** The only equipment type either script imports. */
  const DumpTruck: string := "DUMP TRUCK"

  /** `fileContent.split("\n").slice(2)`: the data lines, without the two header lines. */
  function DataLines(content: string): (r: seq<string>) {
    Drop(Split(content, '\n'), 2)
  }

  /** The first check on every line: blank lines and mixer-truck lines are skipped. */
  predicate SkippedLine(line: string) {
    Trim(line) == "" || Contains(line, "MIXER TRUCK")
  }

  /** `parts[k]?.trim() || ""`: the trimmed field, or "" past the end of the line. */
  function Field(parts: seq<string>, k: nat): (f: string)
    ensures NoOuterSpace(f)
    ensures k >= |parts| ==> f == ""
    ensures k < |parts| ==> f == Trim(parts[k])
  {
    if k < |parts| then Trim(parts[k]) else ""
  }

  /** `value || null` for a string: the empty string becomes null. */
  function NullIfEmpty(s: string): (r: Option<string>)
    ensures r.None? <==> s == ""
    ensures r.Some? ==> r.value == s
  {
    if s == "" then None else Some(s)
  }

  /** What one line gives: nothing, an excluded truck (counted), or a record. */
  datatype LineResult<R> = Skipped | Excluded(assetNo: string) | Parsed(record: R)

  /** The records, in line order. */
  function Records<R>(rs: seq<LineResult<R>>): (r: seq<R>)
    ensures |r| <= |rs|
  {
    if |rs| == 0 then []
    else if rs[0].Parsed? then [rs[0].record] + Records(rs[1..])
    else Records(rs[1..])
  }

  /** `excludedCount`: one per excluded line. */
  function ExcludedCount<R>(rs: seq<LineResult<R>>): (n: nat)
    ensures n <= |rs|
  {
    if |rs| == 0 then 0
    else (if rs[0].Excluded? then 1 else 0) + ExcludedCount(rs[1..])
  }

  /** Records are gathered line by line, in order. */
  lemma {:induction false} RecordsAppend<R>(a: seq<LineResult<R>>, b: seq<LineResult<R>>)
    ensures Records(a + b) == Records(a) + Records(b)
  {
    if |a| == 0 {
      assert a + b == b;
    } else {
      assert (a + b)[0] == a[0];
      assert (a + b)[1..] == a[1..] + b;
      RecordsAppend(a[1..], b);
    }
  }

  /** A record is gathered exactly when some line parsed to it. */
  lemma {:induction false} RecordsMembers<R>(rs: seq<LineResult<R>>)
    ensures forall x :: x in Records(rs) <==> Parsed(x) in rs
  {
    if |rs| > 0 {
      RecordsMembers(rs[1..]);
      assert rs == [rs[0]] + rs[1..];
    }
  }

  /** The exclusion count is the number of lines an independent test picks out, when that test
      agrees with the outcome on every line. */
  lemma {:induction false} ExcludedCountIsFilter<R>(lines: seq<string>, rs: seq<LineResult<R>>,
                                                    excluded: string -> bool)
    requires |rs| == |lines|
    requires forall i :: 0 <= i < |lines| ==> (rs[i].Excluded? <==> excluded(lines[i]))
    ensures ExcludedCount(rs) == |Filter(lines, excluded)|
  {
    if |rs| > 0 {
      ExcludedCountIsFilter(lines[1..], rs[1..], excluded);
    }
  }
}
