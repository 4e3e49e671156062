/** The parts-catalogue extraction: each line of the catalogue text is trimmed, the current
    section is updated from the section headings it contains, every part number on the line
    is recorded with the line's cleaned-up description, the section and the 1-based line
    number, and the list is de-duplicated by part number keeping first occurrences. Reading
    the PDF and writing the JSON file are not modelled. */
module ExtractParts {
  import opened Wrappers
  import opened Text
  import opened Lists
  import opened Scan

  // ---------------------------------------------------------------- the part-number pattern

  predicate IsUpper(c: char) {
    'A' <= c <= 'Z'
  }

  /** The length of the run of digits starting at `i`. */
  function DigitRun(s: string, i: nat): (n: nat)
    requires i <= |s|
    ensures i + n <= |s|
    ensures forall j :: i <= j < i + n ==> IsDigit(s[j])
    ensures i + n == |s| || !IsDigit(s[i + n])
  {
    SpanWhile(s, i, IsDigit)
  }

  /** Four to six digits, and nothing else. */
  predicate SerialBlock(t: string) {
    4 <= |t| <= 6 && AllDigits(t)
  }

  /** What follows the leading digits of a part number: "-" and the serial block, optionally
      preceded by one upper-case letter. */
  predicate PartTail(t: string) {
    || (|t| > 0 && t[0] == '-' && SerialBlock(t[1..]))
    || (|t| > 1 && IsUpper(t[0]) && t[1] == '-' && SerialBlock(t[2..]))
  }

  /** `[0-9]{1,3}[A-Z]?-[0-9]{4,6}` as a whole string. */
  predicate IsPartNumber(t: string) {
    exists d :: 1 <= d <= 3 && d <= |t| && AllDigits(t[..d]) && PartTail(t[d..])
  }

  /** The end of the match of `\b[0-9]{1,3}[A-Z]?-[0-9]{4,6}\b` that starts at `p`, if there is
      one. The engine's backtracking never helps: fewer leading digits leave a digit where the
      letter or "-" must be, and fewer serial digits leave a digit where the boundary must be,
      so a match exists only when both digit runs are maximal. */
  function MatchAt(s: string, p: nat): (r: Option<nat>)
    requires p <= |s|
    ensures r.Some? ==> p + 6 <= r.value <= |s|
    ensures r.Some? ==> LeftBoundary(s, p) && RightBoundary(s, r.value)
  {
    if !LeftBoundary(s, p) then None
    else
      var d := DigitRun(s, p);
      if d < 1 || d > 3 then None
      else
        var k := if p + d < |s| && IsUpper(s[p + d]) then p + d + 1 else p + d;
        if k >= |s| || s[k] != '-' then None
        else
          var m := DigitRun(s, k + 1);
          if m < 4 || m > 6 then None
          else if !RightBoundary(s, k + 1 + m) then None
          else Some(k + 1 + m)
  }

  /** Every match is a part number. */
  lemma MatchIsPartNumber(s: string, p: nat)
    requires p <= |s| && MatchAt(s, p).Some?
    ensures IsPartNumber(s[p..MatchAt(s, p).value])
  {
    var e := MatchAt(s, p).value;
    var t := s[p..e];
    var d := DigitRun(s, p);
    var k := if p + d < |s| && IsUpper(s[p + d]) then p + d + 1 else p + d;
    var m := DigitRun(s, k + 1);
    assert e == k + 1 + m;
    var lead := t[..d];
    forall i | 0 <= i < |lead| ensures IsDigit(lead[i]) {
      assert lead[i] == s[p + i];
    }
    var tail := t[d..];
    var serial := tail[k - p - d + 1..];
    assert |serial| == m;
    forall i | 0 <= i < |serial| ensures IsDigit(serial[i]) {
      assert serial[i] == s[k + 1 + i];
    }
    assert SerialBlock(serial);
    if k == p + d {
      assert tail[0] == '-';
    } else {
      assert tail[0] == s[p + d] && tail[1] == '-';
    }
    assert PartTail(tail);
  }

  /** The shape of a part number, position by position: `d` leading digits, an optional
      upper-case letter, "-" at `k`, then digits to the end. */
  lemma PartNumberShape(t: string) returns (d: nat, k: nat)
    requires IsPartNumber(t)
    ensures 1 <= d <= 3 && d <= k <= d + 1 && k + 5 <= |t| <= k + 7
    ensures forall j :: 0 <= j < d ==> IsDigit(t[j])
    ensures k == d + 1 ==> IsUpper(t[d])
    ensures t[k] == '-'
    ensures forall j :: k + 1 <= j < |t| ==> IsDigit(t[j])
  {
    d :| 1 <= d <= 3 && d <= |t| && AllDigits(t[..d]) && PartTail(t[d..]);
    var tail := t[d..];
    assert forall j :: 0 <= j < d ==> t[j] == t[..d][j];
    if tail[0] == '-' && SerialBlock(tail[1..]) {
      k := d;
      assert forall j :: k + 1 <= j < |t| ==> t[j] == tail[1..][j - k - 1];
    } else {
      k := d + 1;
      assert t[d] == tail[0] && t[k] == tail[1];
      assert forall j :: k + 1 <= j < |t| ==> t[j] == tail[2..][j - k - 1];
    }
  }

  /** The converse of `MatchIsPartNumber`: a part number on its own is matched whole. */
  lemma PartNumberMatches(t: string)
    requires IsPartNumber(t)
    ensures MatchAt(t, 0) == Some(|t|)
  {
    var d, k := PartNumberShape(t);
    SpanUnique(t, 0, IsDigit, d);
    SpanUnique(t, k + 1, IsDigit, |t| - k - 1);
  }

  /** The end of the match starting at each position of `s` from `from` on, if one starts
      there. */
  function EndsFrom(s: string, from: nat): (r: seq<Option<nat>>)
    requires from <= |s|
    ensures |r| == |s| - from
    ensures forall p :: 0 <= p < |r| && r[p].Some? ==> from + p < r[p].value <= |s|
    decreases |s| - from
  {
    if from == |s| then [] else [MatchAt(s, from)] + EndsFrom(s, from + 1)
  }

  /** The end of the match starting at each position of `s`, if one starts there. */
  function MatchEnds(s: string): (t: seq<Option<nat>>)
    ensures |t| == |s| && EndsAfter(t)
  {
    EndsFrom(s, 0)
  }

  lemma {:induction false} EndsFromAt(s: string, from: nat, p: nat)
    requires from <= p < |s|
    ensures EndsFrom(s, from)[p - from] == MatchAt(s, p)
    decreases p - from
  {
    if from < p {
      EndsFromAt(s, from + 1, p);
    }
  }

  /** The table holds the match at each position. */
  lemma MatchEndsAt(s: string, p: nat)
    requires p < |s|
    ensures MatchEnds(s)[p] == MatchAt(s, p)
  {
    EndsFromAt(s, 0, p);
  }

  /** Every end in the table lies past its start and within the text. */
  predicate EndsAfter(t: seq<Option<nat>>) {
    forall p :: 0 <= p < |t| && t[p].Some? ==> p < t[p].value <= |t|
  }

  /** A left-to-right scan of a table of match ends from `from`: each match is listed as its
      start and end, and the search resumes where it ended. */
  function ScanEnds(t: seq<Option<nat>>, from: nat): (r: seq<(nat, nat)>)
    requires from <= |t| && EndsAfter(t)
    ensures forall k :: 0 <= k < |r| ==> from <= r[k].0 <= r[k].1 <= |t|
    decreases |t| - from
  {
    if from == |t| then []
    else
      match t[from]
      case Some(e) => [(from, e)] + ScanEnds(t, e)
      case None => ScanEnds(t, from + 1)
  }

  /** The `matchAll` scan from `from`: the start and end of every match, left to right, the
      search resuming where the previous match ended. */
  function Matches(s: string, from: nat): (r: seq<(nat, nat)>)
    requires from <= |s|
    ensures forall k :: 0 <= k < |r| ==> from <= r[k].0 <= r[k].1 <= |s|
  {
    ScanEnds(MatchEnds(s), from)
  }

  /** The scanned spans come left to right, each ending before the next begins. */
  lemma {:induction false} ScanEndsOrdered(t: seq<Option<nat>>, from: nat)
    requires from <= |t| && EndsAfter(t)
    ensures OrderedSpans(ScanEnds(t, from), from, |t|)
    decreases |t| - from
  {
    if from < |t| {
      match t[from]
      case Some(e) =>
        ScanEndsOrdered(t, e);
        assert ScanEnds(t, from)[1..] == ScanEnds(t, e);
      case None =>
        ScanEndsOrdered(t, from + 1);
    }
  }

  /** The scanned matches come left to right, each ending before the next begins. */
  lemma MatchesOrdered(s: string, from: nat)
    requires from <= |s|
    ensures OrderedSpans(Matches(s, from), from, |s|)
  {
    ScanEndsOrdered(MatchEnds(s), from);
  }

  /** Spans `[start, end)` of a text of length `n`, left to right from `from`, each ending
      before the next begins. */
  predicate OrderedSpans(ms: seq<(nat, nat)>, from: nat, n: nat)
    decreases |ms|
  {
    from <= n && (|ms| == 0 || (from <= ms[0].0 <= ms[0].1 <= n && OrderedSpans(ms[1..], ms[0].1, n)))
  }

  /** Every scanned span is an entry of the table. */
  lemma {:induction false} ScanEndsSound(t: seq<Option<nat>>, from: nat)
    requires from <= |t| && EndsAfter(t)
    ensures forall k :: 0 <= k < |ScanEnds(t, from)| ==>
              ScanEnds(t, from)[k].0 < |t| && t[ScanEnds(t, from)[k].0] == Some(ScanEnds(t, from)[k].1)
    decreases |t| - from
  {
    if from < |t| {
      match t[from]
      case Some(e) => ScanEndsSound(t, e);
      case None => ScanEndsSound(t, from + 1);
    }
  }

  /** An entry of the table at `q` lies within one of the spans scanned from `from`: the
      `k`-th. */
  lemma {:induction false} ScanEndsComplete(t: seq<Option<nat>>, from: nat, q: nat) returns (k: nat)
    requires from <= q < |t| && EndsAfter(t) && t[q].Some?
    ensures k < |ScanEnds(t, from)| && ScanEnds(t, from)[k].0 <= q < ScanEnds(t, from)[k].1
    decreases |t| - from
  {
    match t[from]
    case Some(e) =>
      if q < e {
        k := 0;
      } else {
        var k' := ScanEndsComplete(t, e, q);
        k := k' + 1;
        assert ScanEnds(t, from)[k] == ScanEnds(t, e)[k'];
      }
    case None =>
      k := ScanEndsComplete(t, from + 1, q);
  }

  /** The scan lists exactly the matches `matchAll` reports: each scanned pair is a match of
      the pattern, and no match is skipped, since every position where the pattern matches
      either starts a scanned match or lies inside one (where the search had moved past it). */
  lemma MatchesMatch(s: string, from: nat)
    requires from <= |s|
    ensures forall k :: 0 <= k < |Matches(s, from)| ==>
              MatchAt(s, Matches(s, from)[k].0) == Some(Matches(s, from)[k].1)
    ensures forall q :: from <= q < |s| && MatchAt(s, q).Some? ==>
              exists k :: 0 <= k < |Matches(s, from)| && Matches(s, from)[k].0 <= q < Matches(s, from)[k].1
  {
    var t := MatchEnds(s);
    var ms := Matches(s, from);
    assert ms == ScanEnds(t, from);
    ScanEndsSound(t, from);
    forall k | 0 <= k < |ms| ensures MatchAt(s, ms[k].0) == Some(ms[k].1) {
      MatchEndsAt(s, ms[k].0);
    }
    forall q | from <= q < |s| && MatchAt(s, q).Some?
      ensures exists k :: 0 <= k < |ms| && ms[k].0 <= q < ms[k].1
    {
      MatchEndsAt(s, q);
      var k := ScanEndsComplete(t, from, q);
      assert ms[k].0 <= q < ms[k].1;
    }
  }

  /** One step of the scan: a match at `from` is listed and the search resumes at its end;
      otherwise the search moves on by one character. */
  lemma MatchesStep(s: string, from: nat)
    requires from < |s|
    ensures MatchAt(s, from).Some? ==>
              Matches(s, from) == [(from, MatchAt(s, from).value)] + Matches(s, MatchAt(s, from).value)
    ensures MatchAt(s, from).None? ==> Matches(s, from) == Matches(s, from + 1)
  {
    MatchEndsAt(s, from);
  }

  /** The part numbers on a line, in order. */
  function PartNumbers(s: string): (r: seq<string>)
    ensures |r| == |Matches(s, 0)|
    ensures forall k :: 0 <= k < |r| ==> r[k] == s[Matches(s, 0)[k].0..Matches(s, 0)[k].1]
    ensures forall k :: 0 <= k < |r| ==> IsPartNumber(r[k])
  {
    var ms := Matches(s, 0);
    var r := seq(|ms|, k requires 0 <= k < |ms| => s[ms[k].0..ms[k].1]);
    assert forall k :: 0 <= k < |r| ==> IsPartNumber(r[k]) by {
      MatchesMatch(s, 0);
      forall k | 0 <= k < |r| ensures IsPartNumber(r[k]) {
        MatchIsPartNumber(s, ms[k].0);
      }
    }
    r
  }

  /** The text from `from` on with the spans a scan of the table of match ends finds left
      out, character by character. */
  function CutScan(s: string, t: seq<Option<nat>>, from: nat): string
    requires |t| == |s| && from <= |s| && EndsAfter(t)
    decreases |s| - from
  {
    if from == |s| then ""
    else
      match t[from]
      case Some(e) => CutScan(s, t, e)
      case None => [s[from]] + CutScan(s, t, from + 1)
  }

  /** `s.replace(partNumberRegex, '')` from `from` on: the text with every match removed. */
  function RemoveMatches(s: string, from: nat): string
    requires from <= |s|
  {
    CutScan(s, MatchEnds(s), from)
  }

  /** `s[from..]` with the given spans cut out: what is left between and around them. */
  function CutOut(s: string, from: nat, ms: seq<(nat, nat)>): string
    requires from <= |s| && OrderedSpans(ms, from, |s|)
    decreases |ms|
  {
    if |ms| == 0 then s[from..] else s[from..ms[0].0] + CutOut(s, ms[0].1, ms[1..])
  }

  /** Cutting out from one position earlier keeps the character there. */
  lemma CutOutCons(s: string, from: nat, ms: seq<(nat, nat)>)
    requires from < |s| && OrderedSpans(ms, from + 1, |s|)
    ensures OrderedSpans(ms, from, |s|)
    ensures CutOut(s, from, ms) == [s[from]] + CutOut(s, from + 1, ms)
  {
    if |ms| == 0 {
      assert s[from..] == [s[from]] + s[from + 1..];
    } else {
      var tail := CutOut(s, ms[0].1, ms[1..]);
      var gap := s[from + 1..ms[0].0];
      assert s[from..ms[0].0] == [s[from]] + gap;
      assert CutOut(s, from, ms) == ([s[from]] + gap) + tail;
      assert CutOut(s, from + 1, ms) == gap + tail;
      assert ([s[from]] + gap) + tail == [s[from]] + (gap + tail);
    }
  }

  /** Leaving spans out character by character leaves what is between and around the
      scanned spans. */
  lemma {:induction false} CutScanCutOut(s: string, t: seq<Option<nat>>, from: nat)
    requires |t| == |s| && from <= |s| && EndsAfter(t)
    ensures OrderedSpans(ScanEnds(t, from), from, |s|)
    ensures CutScan(s, t, from) == CutOut(s, from, ScanEnds(t, from))
    decreases |s| - from
  {
    ScanEndsOrdered(t, from);
    if from < |s| {
      match t[from]
      case Some(e) =>
        CutScanCutOut(s, t, e);
        assert ScanEnds(t, from)[1..] == ScanEnds(t, e);
        assert s[from..from] == "";
      case None =>
        CutScanCutOut(s, t, from + 1);
        CutOutCons(s, from, ScanEnds(t, from + 1));
    }
  }

  /** The replacement removes exactly the scanned matches: what is left is the text between
      and around them, in order. */
  lemma RemoveMatchesCutOut(s: string, from: nat)
    requires from <= |s|
    ensures OrderedSpans(Matches(s, from), from, |s|)
    ensures RemoveMatches(s, from) == CutOut(s, from, Matches(s, from))
  {
    CutScanCutOut(s, MatchEnds(s), from);
  }

  /** The total length of the matches. */
  function MatchedLength(ms: seq<(nat, nat)>): int {
    if |ms| == 0 then 0 else (ms[0].1 - ms[0].0) + MatchedLength(ms[1..])
  }

  /** Every character from `from` on is either kept or inside exactly one scanned span. */
  lemma {:induction false} CutScanLength(s: string, t: seq<Option<nat>>, from: nat)
    requires |t| == |s| && from <= |s| && EndsAfter(t)
    ensures |CutScan(s, t, from)| + MatchedLength(ScanEnds(t, from)) == |s| - from
    decreases |s| - from
  {
    if from < |s| {
      match t[from]
      case Some(e) =>
        CutScanLength(s, t, e);
        assert ScanEnds(t, from)[1..] == ScanEnds(t, e);
      case None =>
        CutScanLength(s, t, from + 1);
    }
  }

  /** Removal and the scan agree: every character from `from` on is either kept or part of
      exactly one match. */
  lemma RemoveMatchesLength(s: string, from: nat)
    requires from <= |s|
    ensures |RemoveMatches(s, from)| + MatchedLength(Matches(s, from)) == |s| - from
  {
    CutScanLength(s, MatchEnds(s), from);
  }

  /** With no entry from `from` on, nothing is cut and nothing is scanned. */
  lemma {:induction false} CutScanNone(s: string, t: seq<Option<nat>>, from: nat)
    requires |t| == |s| && from <= |s| && EndsAfter(t)
    requires forall p :: from <= p < |t| ==> t[p].None?
    ensures CutScan(s, t, from) == s[from..] && ScanEnds(t, from) == []
    decreases |s| - from
  {
    if from < |s| {
      CutScanNone(s, t, from + 1);
      assert s[from..] == [s[from]] + s[from + 1..];
    }
  }

  /** A line with no match is kept whole. */
  lemma RemoveNoMatches(s: string, from: nat)
    requires from <= |s|
    requires forall p :: from <= p <= |s| ==> MatchAt(s, p).None?
    ensures RemoveMatches(s, from) == s[from..]
    ensures Matches(s, from) == []
  {
    forall p | from <= p < |s| ensures MatchEnds(s)[p].None? {
      MatchEndsAt(s, p);
    }
    CutScanNone(s, MatchEnds(s), from);
  }

  // ---------------------------------------------------------------- the description

  /** The characters `[.\s-]` stripped from both ends of the description. */
  predicate IsNoise(c: char) {
    c == '.' || c == '-' || IsSpace(c)
  }

  predicate NoOuterNoise(s: string) {
    |s| == 0 || (!IsNoise(s[0]) && !IsNoise(s[|s| - 1]))
  }

  predicate AllNoise(s: string) {
    forall i :: 0 <= i < |s| ==> IsNoise(s[i])
  }

  /** `replace(/^[.\s-]+/, '')`. */
  function StripNoiseStart(s: string): (r: string)
    ensures |r| <= |s| && r == s[|s| - |r|..]
    ensures forall i :: 0 <= i < |s| - |r| ==> IsNoise(s[i])
    ensures |r| == 0 || !IsNoise(r[0])
  {
    if |s| > 0 && IsNoise(s[0]) then
      var r := StripNoiseStart(s[1..]);
      assert forall i :: 0 < i < |s| ==> s[i] == s[1..][i - 1];
      r
    else
      s
  }

  /** `replace(/[.\s-]+$/, '')`. */
  function StripNoiseEnd(s: string): (r: string)
    ensures |r| <= |s| && r == s[..|r|]
    ensures forall i :: |r| <= i < |s| ==> IsNoise(s[i])
    ensures |r| == 0 || !IsNoise(r[|r| - 1])
  {
    if |s| > 0 && IsNoise(s[|s| - 1]) then
      var r := StripNoiseEnd(s[..|s| - 1]);
      assert forall i :: 0 <= i < |s| - 1 ==> s[i] == s[..|s| - 1][i];
      r
    else
      s
  }

  /** `replace(/^[.\s-]+|[.\s-]+$/g, '')`: the leading and the trailing noise removed. */
  function StripNoise(s: string): (r: string)
    ensures NoOuterNoise(r)
    ensures |r| <= |s|
  {
    var t := StripNoiseStart(s);
    var r := StripNoiseEnd(t);
    assert |r| > 0 ==> r[0] == t[0];
    r
  }

  /** `r` sits at `k` in `s` with nothing but noise before and after it. */
  predicate NoiseAround(s: string, k: nat, r: string) {
    k + |r| <= |s| && s[k..k + |r|] == r && AllNoise(s[..k]) && AllNoise(s[k + |r|..])
  }

  /** Only one text without outer noise sits in `s` between noise: the stripped text is
      determined by the input alone. */
  lemma NoiseAroundUnique(s: string, k: nat, r: string, k': nat, r': string)
    requires NoiseAround(s, k, r) && NoOuterNoise(r)
    requires NoiseAround(s, k', r') && NoOuterNoise(r')
    ensures r == r'
  {
    assert |r| > 0 ==> s[k] == r[0] && s[k + |r| - 1] == r[|r| - 1];
    assert |r'| > 0 ==> s[k'] == r'[0] && s[k' + |r'| - 1] == r'[|r'| - 1];
    NoiseOutside(s, k, r, k');
    NoiseOutside(s, k, r, k' + |r'| - 1);
    NoiseOutside(s, k', r', k);
    NoiseOutside(s, k', r', k + |r| - 1);
    assert |r| == |r'| ==> s[k..k + |r|] == s[k'..k' + |r'|] || k != k';
  }

  /** Around the text, everything is noise. */
  lemma NoiseOutside(s: string, k: nat, r: string, i: int)
    requires NoiseAround(s, k, r)
    ensures 0 <= i < |s| && !(k <= i < k + |r|) ==> IsNoise(s[i])
  {
    if 0 <= i < k {
      assert s[..k][i] == s[i];
    } else if k + |r| <= i < |s| {
      assert s[k + |r|..][i - k - |r|] == s[i];
    }
  }

  /** `r` sits at `k` in `s` with nothing but noise before and after it, character by
      character. */
  lemma NoiseAroundIntro(s: string, k: nat, r: string)
    requires k + |r| <= |s| && s[k..k + |r|] == r
    requires forall i :: 0 <= i < k ==> IsNoise(s[i])
    requires forall i :: k + |r| <= i < |s| ==> IsNoise(s[i])
    ensures NoiseAround(s, k, r)
  {
    var pre := s[..k];
    forall i | 0 <= i < |pre| ensures IsNoise(pre[i]) {
      assert pre[i] == s[i];
    }
    var post := s[k + |r|..];
    forall i | 0 <= i < |post| ensures IsNoise(post[i]) {
      assert post[i] == s[k + |r| + i];
    }
  }

  /** Stripping removes only noise: the result is the input's middle, with nothing but noise
      before and after it (and, by `NoiseAroundUnique`, the only such text without outer
      noise). */
  lemma StripNoiseAt(s: string) returns (k: nat)
    ensures NoiseAround(s, k, StripNoise(s)) && NoOuterNoise(StripNoise(s))
  {
    var t := StripNoiseStart(s);
    var r := StripNoiseEnd(t);
    k := |s| - |t|;
    DropSlice(s, k, 0, |r|);
    forall i | k + |r| <= i < |s| ensures IsNoise(s[i]) {
      assert s[i] == t[i - k];
    }
    NoiseAroundIntro(s, k, r);
  }

  /** Leading whitespace dropped. */
  function SkipSpace(s: string): (r: string)
    ensures |r| <= |s| && r == s[|s| - |r|..]
    ensures |r| == 0 || !IsSpace(r[0])
    ensures forall i :: 0 <= i < |s| - |r| ==> IsSpace(s[i])
  {
    if |s| > 0 && IsSpace(s[0]) then SkipSpace(s[1..]) else s
  }

  /** The characters other than whitespace, in order. */
  function NonSpace(s: string): string {
    if |s| == 0 then "" else (if IsSpace(s[0]) then "" else [s[0]]) + NonSpace(s[1..])
  }

  lemma {:induction false} NonSpaceSkip(s: string)
    ensures NonSpace(SkipSpace(s)) == NonSpace(s)
  {
    if |s| > 0 && IsSpace(s[0]) {
      NonSpaceSkip(s[1..]);
    }
  }

  /** No whitespace other than single spaces. */
  predicate SingleSpaced(s: string) {
    && (forall i :: 0 <= i < |s| ==> IsSpace(s[i]) ==> s[i] == ' ')
    && (forall i :: 0 <= i < |s| - 1 ==> !(s[i] == ' ' && s[i + 1] == ' '))
  }

  /** `replace(/\s+/g, ' ')`: every run of whitespace becomes one space. */
  function CollapseSpace(s: string): (r: string)
    ensures |r| <= |s|
    ensures |r| > 0 <==> |s| > 0
    ensures |s| > 0 && !IsSpace(s[0]) ==> r[0] == s[0]
    ensures |s| > 0 && !IsSpace(s[|s| - 1]) ==> r[|r| - 1] == s[|s| - 1]
    ensures |s| > 0 && IsSpace(s[0]) ==> r[0] == ' '
    ensures NonSpace(r) == NonSpace(s)
    decreases |s|
  {
    if |s| == 0 then ""
    else if IsSpace(s[0]) then
      var rest := SkipSpace(s);
      assert |rest| > 0 ==> rest[|rest| - 1] == s[|s| - 1];
      assert |rest| == 0 ==> IsSpace(s[|s| - 1]);
      var r := " " + CollapseSpace(rest);
      assert r[1..] == CollapseSpace(rest);
      NonSpaceSkip(s);
      r
    else
      var r := [s[0]] + CollapseSpace(s[1..]);
      assert r[1..] == CollapseSpace(s[1..]);
      r
  }

  /** The collapsed text has no whitespace but single spaces. */
  lemma {:induction false} CollapseSpaceSingle(s: string)
    ensures SingleSpaced(CollapseSpace(s))
    decreases |s|
  {
    if |s| > 0 {
      if IsSpace(s[0]) {
        var rest := SkipSpace(s);
        CollapseSpaceSingle(rest);
        assert |rest| > 0 ==> !IsSpace(rest[0]);
      } else {
        CollapseSpaceSingle(s[1..]);
      }
    }
  }

  /** Text without whitespace is left as it is. */
  lemma {:induction false} CollapseSpaceNoSpace(s: string)
    requires forall i :: 0 <= i < |s| ==> !IsSpace(s[i])
    ensures CollapseSpace(s) == s
    decreases |s|
  {
    if |s| > 0 {
      CollapseSpaceNoSpace(s[1..]);
    }
  }

  /** A run of whitespace between two pieces of text, neither of which has whitespace at that
      side, becomes one space, and the pieces are collapsed on their own: so words stay apart,
      each separated by exactly one space. */
  lemma {:induction false} CollapseSpaceJoin(a: string, w: string, b: string)
    requires |a| == 0 || !IsSpace(a[|a| - 1])
    requires |w| > 0 && forall i :: 0 <= i < |w| ==> IsSpace(w[i])
    requires |b| == 0 || !IsSpace(b[0])
    ensures CollapseSpace(a + w + b) == CollapseSpace(a) + " " + CollapseSpace(b)
    decreases |a|, 1
  {
    if |a| == 0 {
      assert a + w + b == w + b;
      SkipSpaceRun(w, b);
    } else if IsSpace(a[0]) {
      CollapseSpaceJoinLeadingRun(a, w, b);
    } else {
      CollapseSpaceJoinLeadingWord(a, w, b);
    }
  }

  lemma {:induction false} CollapseSpaceJoinLeadingRun(a: string, w: string, b: string)
    requires |a| > 0 && IsSpace(a[0]) && !IsSpace(a[|a| - 1])
    requires |w| > 0 && forall i :: 0 <= i < |w| ==> IsSpace(w[i])
    requires |b| == 0 || !IsSpace(b[0])
    ensures CollapseSpace(a + w + b) == CollapseSpace(a) + " " + CollapseSpace(b)
    decreases |a|, 0
  {
    var rest := SkipSpace(a);
    SkipSpaceInside(a);
    CollapseLeadingSpace(a);
    CollapseLeadingSpaceAppend(a, w + b);
    ConcatAssoc(a, w, b);
    ConcatAssoc(rest, w, b);
    CollapseSpaceJoin(rest, w, b);
    PrependJoined(" ", CollapseSpace(rest), CollapseSpace(b));
  }

  /** Text that starts with whitespace collapses to one space and the rest collapsed. */
  lemma CollapseLeadingSpace(x: string)
    requires |x| > 0 && IsSpace(x[0])
    ensures CollapseSpace(x) == " " + CollapseSpace(SkipSpace(x))
  {
  }

  /** ... and when the leading run ends inside `x`, what follows `x` is untouched by it. */
  lemma CollapseLeadingSpaceAppend(x: string, y: string)
    requires |x| > 0 && IsSpace(x[0]) && !IsSpace(x[|x| - 1])
    ensures CollapseSpace(x + y) == " " + CollapseSpace(SkipSpace(x) + y)
  {
    SkipSpaceAppend(x, y);
    CollapseLeadingSpace(x + y);
  }

  /** A leading run that ends inside `x` leaves a shorter, non-empty text ending as `x` does. */
  lemma SkipSpaceInside(x: string)
    requires |x| > 0 && IsSpace(x[0]) && !IsSpace(x[|x| - 1])
    ensures 0 < |SkipSpace(x)| < |x| && !IsSpace(SkipSpace(x)[|SkipSpace(x)| - 1])
  {
    assert SkipSpace(x) == SkipSpace(x[1..]);
    assert SkipSpace(x) == x[|x| - |SkipSpace(x)|..];
  }


  lemma {:induction false} CollapseSpaceJoinLeadingWord(a: string, w: string, b: string)
    requires |a| > 0 && !IsSpace(a[0]) && !IsSpace(a[|a| - 1])
    requires |w| > 0 && forall i :: 0 <= i < |w| ==> IsSpace(w[i])
    requires |b| == 0 || !IsSpace(b[0])
    ensures CollapseSpace(a + w + b) == CollapseSpace(a) + " " + CollapseSpace(b)
    decreases |a|, 0
  {
    var tail := a[1..];
    assert CollapseSpace(a + w + b) == [a[0]] + CollapseSpace(tail + w + b) by {
      assert (a + w + b)[1..] == tail + w + b;
    }
    CollapseSpaceJoin(tail, w, b);
    PrependJoined([a[0]], CollapseSpace(tail), CollapseSpace(b));
  }


  lemma ConcatAssoc(x: string, y: string, z: string)
    ensures x + (y + z) == x + y + z
  {
  }

  lemma PrependJoined(p: string, x: string, y: string)
    ensures p + (x + " " + y) == p + x + " " + y
  {
  }

  /** Skipping a whitespace run stops at the text after it. */
  lemma {:induction false} SkipSpaceRun(w: string, b: string)
    requires forall i :: 0 <= i < |w| ==> IsSpace(w[i])
    requires |b| == 0 || !IsSpace(b[0])
    ensures SkipSpace(w + b) == b
    decreases |w|
  {
    if |w| == 0 {
      assert w + b == b;
    } else {
      assert (w + b)[1..] == w[1..] + b;
      SkipSpaceRun(w[1..], b);
    }
  }

  /** Skipping whitespace in a text that ends with something else never reaches what follows. */
  lemma {:induction false} SkipSpaceAppend(x: string, y: string)
    requires |x| > 0 && !IsSpace(x[|x| - 1])
    ensures SkipSpace(x + y) == SkipSpace(x) + y
    decreases |x|
  {
    if IsSpace(x[0]) {
      assert (x + y)[1..] == x[1..] + y;
      SkipSpaceAppend(x[1..], y);
    }
  }

  /** A line's description: the part numbers removed, then trimmed, stripped of leading and
      trailing dots, dashes and whitespace, and single-spaced. */
  function Describe(line: string): (d: string)
    ensures NoOuterNoise(d)
    ensures SingleSpaced(d)
  {
    var stripped := StripNoise(Trim(RemoveMatches(line, 0)));
    var d := CollapseSpace(stripped);
    CollapseSpaceSingle(stripped);
    assert |d| > 0 ==> !IsNoise(d[0]) && !IsNoise(d[|d| - 1]);
    d
  }

  /** `description && description.length > 3 && description.length < 200`. */
  predicate AcceptedDescription(d: string) {
    d != "" && 3 < |d| < 200
  }

  // ---------------------------------------------------------------- sections

  const SectionPatterns: seq<string> := [
    "LUBRICATION SYSTEM", "COOLING SYSTEM", "AIR INLET AND EXHAUST SYSTEM", "FUEL SYSTEM",
    "ELECTRICAL AND STARTING SYSTEM", "POWER TRAIN", "HYDRAULIC SYSTEM",
    "STEERING AND BRAKING SYSTEM", "FRAME AND BODY", "UNDERCARRIAGE", "IMPLEMENTS",
    "WORK TOOLS", "OPERATOR STATION"]

  const InitialSection: string := "General"

  /** The index of the first listed section name the line contains, searching from `from`. */
  function FirstSection(line: string, patterns: seq<string>, from: nat): (r: Option<nat>)
    requires from <= |patterns|
    ensures r.Some? ==> from <= r.value < |patterns| && Contains(line, patterns[r.value])
    ensures r.Some? ==> forall j :: from <= j < r.value ==> !Contains(line, patterns[j])
    ensures r.None? <==> forall j :: from <= j < |patterns| ==> !Contains(line, patterns[j])
    decreases |patterns| - from
  {
    if from == |patterns| then None
    else if Contains(line, patterns[from]) then Some(from)
    else FirstSection(line, patterns, from + 1)
  }

  /** The section loop: the first contained section name, or the current section. */
  function UpdateSection(current: string, line: string, patterns: seq<string>): (r: string)
    ensures r == current || r in patterns
    ensures r != current ==> Contains(line, r)
    ensures (exists k :: 0 <= k < |patterns| && Contains(line, patterns[k])) ==>
              exists k :: 0 <= k < |patterns| && r == patterns[k] && Contains(line, r)
                && forall j :: 0 <= j < k ==> !Contains(line, patterns[j])
    ensures (forall k :: 0 <= k < |patterns| ==> !Contains(line, patterns[k])) ==> r == current
  {
    match FirstSection(line, patterns, 0)
    case Some(k) => patterns[k]
    case None => current
  }

  /** The section in effect after the first `n` lines: an independent left fold over the
      lines. */
  function SectionAfter(lines: seq<string>, patterns: seq<string>, n: nat): (r: string)
    requires n <= |lines|
    ensures r == InitialSection || r in patterns
  {
    if n == 0 then InitialSection
    else UpdateSection(SectionAfter(lines, patterns, n - 1), lines[n - 1], patterns)
  }

  // ---------------------------------------------------------------- the scan

  datatype Part = Part(partNumber: string, description: string, category: string, line: nat)

  /** The parts one line contributes, all with the same description, section and line. */
  function LineParts(numbers: seq<string>, description: string, section: string, lineNo: nat)
    : (r: seq<Part>)
    ensures |r| == |numbers|
    ensures forall k :: 0 <= k < |r| ==> r[k] == Part(numbers[k], description, section, lineNo)
    ensures forall p :: p in r <==>
              p.partNumber in numbers && p.description == description && p.category == section && p.line == lineNo
  {
    seq(|numbers|, k requires 0 <= k < |numbers| => Part(numbers[k], description, section, lineNo))
  }

  /** What every recorded part satisfies. */
  predicate GoodPart(p: Part, patterns: seq<string>) {
    && IsPartNumber(p.partNumber)
    && AcceptedDescription(p.description)
    && NoOuterNoise(p.description) && SingleSpaced(p.description)
    && (p.category == InitialSection || p.category in patterns)
  }

  /** Whether `line` yields part `p`, section and line number aside: the line's description
      is accepted, and `p` carries one of the line's part numbers and that description. */
  predicate LineYields(line: string, p: Part) {
    && AcceptedDescription(Describe(line))
    && p.partNumber in PartNumbers(line)
    && p.description == Describe(line)
  }

  /** What one trimmed line yields with `section` current: a part for each part number on
      it, in order, when its description is accepted. */
  function LineOutput(line: string, section: string, lineNo: nat): (r: seq<Part>)
    ensures forall k :: 0 <= k < |r| ==>
              && IsPartNumber(r[k].partNumber)
              && AcceptedDescription(r[k].description)
              && NoOuterNoise(r[k].description) && SingleSpaced(r[k].description)
              && r[k].category == section && r[k].line == lineNo
    ensures AcceptedDescription(Describe(line)) ==>
              |r| == |PartNumbers(line)| && forall k :: 0 <= k < |r| ==> r[k].partNumber == PartNumbers(line)[k]
    ensures !AcceptedDescription(Describe(line)) ==> r == []
  {
    var d := Describe(line);
    if AcceptedDescription(d) then LineParts(PartNumbers(line), d, section, lineNo) else []
  }

  /** A line yields a part exactly when the part carries one of its part numbers and its
      accepted description, with the section and line number given. */
  lemma LineOutputMembers(line: string, section: string, lineNo: nat, p: Part)
    ensures p in LineOutput(line, section, lineNo) <==>
              LineYields(line, p) && p.category == section && p.line == lineNo
  {
  }

  /** A per-line output that stamps each of its parts with the section and line number it
      was given. */
  ghost predicate Stamps(out: (string, string, nat) -> seq<Part>) {
    forall line, section, lineNo, k :: 0 <= k < |out(line, section, lineNo)| ==>
      out(line, section, lineNo)[k].category == section && out(line, section, lineNo)[k].line == lineNo
  }

  /** The script's per-line output stamps its parts with the section and line it is given. */
  lemma LineOutputStamps()
    ensures Stamps(LineOutput)
  {
    forall line, section, lineNo, k | 0 <= k < |LineOutput(line, section, lineNo)|
      ensures LineOutput(line, section, lineNo)[k].category == section
      ensures LineOutput(line, section, lineNo)[k].line == lineNo
    {
    }
  }

  /** The loop over the trimmed `lines`, the first of which is line `start` (0-based), entered
      with `section` current; `out` is what a line yields (`LineOutput` in the script). */
  function ScanLines(lines: seq<string>, start: nat, section: string, patterns: seq<string>,
                out: (string, string, nat) -> seq<Part>): (r: seq<Part>)
    requires Stamps(out)
    ensures forall k :: 0 <= k < |r| ==> start < r[k].line <= start + |lines|
    ensures section == InitialSection || section in patterns ==>
              forall k :: 0 <= k < |r| ==> r[k].category == InitialSection || r[k].category in patterns
  {
    if |lines| == 0 then []
    else
      var line := lines[0];
      var sec := UpdateSection(section, line, patterns);
      out(line, sec, start + 1) + ScanLines(lines[1..], start + 1, sec, patterns, out)
  }

  /** The parts lines `k..` yield, each with the section in effect on its own line: a
      reference for the scan that takes each line on its own instead of carrying the section
      from line to line. */
  function PerLine(lines: seq<string>, patterns: seq<string>, out: (string, string, nat) -> seq<Part>,
                   k: nat): seq<Part>
    requires k <= |lines|
    decreases |lines| - k
  {
    if k == |lines| then []
    else out(lines[k], SectionAfter(lines, patterns, k + 1), k + 1) + PerLine(lines, patterns, out, k + 1)
  }

  /** The loop, entered at line `k` with the section in effect there, yields what the lines
      from `k` on yield one by one. */
  lemma {:induction false} ScanLinesIsPerLine(lines: seq<string>, k: nat, patterns: seq<string>,
                                         out: (string, string, nat) -> seq<Part>)
    requires k <= |lines| && Stamps(out)
    ensures ScanLines(lines[k..], k, SectionAfter(lines, patterns, k), patterns, out) == PerLine(lines, patterns, out, k)
    decreases |lines| - k
  {
    if k < |lines| {
      var rest := lines[k..];
      assert rest[0] == lines[k];
      assert rest[1..] == lines[k + 1..];
      ScanLinesIsPerLine(lines, k + 1, patterns, out);
    }
  }

  /** A part is yielded by the lines from `k` on exactly when its own line is one of them
      and that line, with the section in effect on it, yields it. */
  lemma {:induction false} PerLineMembers(lines: seq<string>, patterns: seq<string>,
                                     out: (string, string, nat) -> seq<Part>, k: nat, p: Part)
    requires k <= |lines| && Stamps(out)
    ensures p in PerLine(lines, patterns, out, k) <==>
              k < p.line <= |lines| && p in out(lines[p.line - 1], SectionAfter(lines, patterns, p.line), p.line)
    decreases |lines| - k
  {
    if k < |lines| {
      var here := out(lines[k], SectionAfter(lines, patterns, k + 1), k + 1);
      PerLineMembers(lines, patterns, out, k + 1, p);
      if p in here {
        var i :| 0 <= i < |here| && here[i] == p;
        assert p.line == k + 1;
      }
    }
  }

  /** The loop over all the lines records a part exactly when its 1-based line is one of
      them and that line, with the section in effect after it, yields the part. */
  lemma ScanLinesMembers(lines: seq<string>, patterns: seq<string>, out: (string, string, nat) -> seq<Part>,
                         p: Part)
    requires Stamps(out)
    ensures p in ScanLines(lines, 0, InitialSection, patterns, out) <==>
              1 <= p.line <= |lines| && p in out(lines[p.line - 1], SectionAfter(lines, patterns, p.line), p.line)
  {
    assert lines[0..] == lines;
    ScanLinesIsPerLine(lines, 0, patterns, out);
    PerLineMembers(lines, patterns, out, 0, p);
  }

  /** The parts come in line order. */
  lemma {:induction false} ScanLinesOrdered(lines: seq<string>, start: nat, section: string, patterns: seq<string>,
                                       out: (string, string, nat) -> seq<Part>)
    requires Stamps(out)
    ensures forall i, j :: 0 <= i < j < |ScanLines(lines, start, section, patterns, out)| ==>
              ScanLines(lines, start, section, patterns, out)[i].line <= ScanLines(lines, start, section, patterns, out)[j].line
  {
    if |lines| > 0 {
      var line := lines[0];
      var sec := UpdateSection(section, line, patterns);
      var here := out(line, sec, start + 1);
      var rest := ScanLines(lines[1..], start + 1, sec, patterns, out);
      ScanLinesOrdered(lines[1..], start + 1, sec, patterns, out);
      var r := here + rest;
      assert r == ScanLines(lines, start, section, patterns, out);
      forall i, j | 0 <= i < j < |r| ensures r[i].line <= r[j].line {
        if j < |here| {
          assert r[i] == here[i] && r[j] == here[j];
          assert here[i].line == start + 1 && here[j].line == start + 1;
        } else if i < |here| {
          assert r[i] == here[i] && r[j] == rest[j - |here|];
          assert here[i].line == start + 1 && rest[j - |here|].line > start + 1;
        } else {
          assert r[i] == rest[i - |here|] && r[j] == rest[j - |here|];
        }
      }
    }
  }

  // ---------------------------------------------------------------- the whole script

  function PartKey(p: Part): string {
    p.partNumber
  }

  /** The text's lines, each trimmed. */
  function TrimmedLines(text: string): (r: seq<string>)
    ensures |r| == |Split(text, '\n')|
    ensures forall i :: 0 <= i < |r| ==> r[i] == Trim(Split(text, '\n')[i])
  {
    Map(Split(text, '\n'), (line: string) => Trim(line))
  }

  /** The scan of the whole text, before de-duplication. */
  function AllParts(text: string): (r: seq<Part>)
    ensures forall p :: p in r ==> GoodPart(p, SectionPatterns)
  {
    LineOutputStamps();
    var lines := TrimmedLines(text);
    var r := ScanLines(lines, 0, InitialSection, SectionPatterns, LineOutput);
    assert forall p :: p in r ==> GoodPart(p, SectionPatterns) by {
      assert lines[0..] == lines;
      ScanLinesIsPerLine(lines, 0, SectionPatterns, LineOutput);
      forall p | p in r ensures GoodPart(p, SectionPatterns) {
        PerLineMembers(lines, SectionPatterns, LineOutput, 0, p);
      }
    }
    r
  }

  /** `extractParts` from the PDF text to `uniqueParts`. */
  function Extract(text: string): (r: seq<Part>)
    ensures forall p :: p in r ==> GoodPart(p, SectionPatterns)
    ensures forall i, j :: 0 <= i < j < |r| ==> r[i].partNumber != r[j].partNumber
  {
    DedupByDistinct(AllParts(text), PartKey, {});
    DedupBy(AllParts(text), PartKey, {})
  }

  /** The part kept for a part number is its first occurrence in the scan, and the extracted
      part numbers are exactly the scanned ones. */
  lemma ExtractKeepsFirst(text: string, i: nat)
    ensures && i < |AllParts(text)|
            && (forall j :: 0 <= j < i ==> AllParts(text)[j].partNumber != AllParts(text)[i].partNumber)
            ==> AllParts(text)[i] in Extract(text)
  {
    if i < |AllParts(text)| && forall j :: 0 <= j < i ==> AllParts(text)[j].partNumber != AllParts(text)[i].partNumber {
      DedupByKeepsFirst(AllParts(text), PartKey, {}, i);
    }
  }

  /** Every extracted part's category is the section in effect on its line, and its line
      number is 1-based. */
  lemma ExtractSections(text: string)
    ensures forall p :: p in Extract(text) ==>
              1 <= p.line <= |Split(text, '\n')|
              && p.category == SectionAfter(TrimmedLines(text), SectionPatterns, p.line)
  {
    forall p | p in Extract(text)
      ensures 1 <= p.line <= |Split(text, '\n')|
      ensures p.category == SectionAfter(TrimmedLines(text), SectionPatterns, p.line)
    {
      ExtractedWasScanned(text, p);
      ScannedSection(TrimmedLines(text), p);
    }
  }

  /** De-duplication only drops parts. */
  lemma ExtractedWasScanned(text: string, p: Part)
    requires p in Extract(text)
    ensures p in AllParts(text)
  {
  }

  /** A part the scan of `lines` records lies on one of them, under the section in effect there. */
  lemma ScannedSection(lines: seq<string>, p: Part)
    requires p in ScanLines(lines, 0, InitialSection, SectionPatterns, LineOutput)
    ensures 1 <= p.line <= |lines| && p.category == SectionAfter(lines, SectionPatterns, p.line)
  {
    LineOutputStamps();
    ScanLinesMembers(lines, SectionPatterns, LineOutput, p);
    LineOutputMembers(lines[p.line - 1], SectionAfter(lines, SectionPatterns, p.line), p.line, p);
  }

}
