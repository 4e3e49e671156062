/** `parseEquipmentDescription`: splits a free-text equipment description into a name, a
    plate number (after "P/N", or else the first digits-dash-alphanumeric word) and a serial
    number (after "S/N"). A missing or empty input is `None` or `Some("")`; non-string
    inputs are not modelled. */
module ParseEquipmentDescription {
  import opened Wrappers
  import opened Text
  import opened Scan

  datatype Parsed = Parsed(
    equipmentName: string,
    plateNumber: string,
    serialNumber: string,
    description: string)

  /** `[\w-]`. */
  predicate IsPlateChar(c: char) {
    IsWordChar(c) || c == '-'
  }

  // ---------------------------------------------------------------- "S/N" and "P/N"

  /** `X\/N\s+` followed by a token character, under the `i` flag, at `p`. The whitespace
      run is maximal because a token character is never whitespace, so backtracking into
      `\s+` cannot help. */
  predicate LabelAt(s: string, p: nat, upper: char, lower: char, token: char -> bool) {
    && p + 3 <= |s|
    && (s[p] == upper || s[p] == lower) && s[p + 1] == '/' && (s[p + 2] == 'N' || s[p + 2] == 'n')
    && var w := SpanWhile(s, p + 3, IsSpace);
       w >= 1 && p + 3 + w < |s| && token(s[p + 3 + w])
  }

  function TokenStart(s: string, p: nat, upper: char, lower: char, token: char -> bool): (k: nat)
    requires LabelAt(s, p, upper, lower, token)
    ensures p + 4 <= k < |s| && token(s[k])
  {
    p + 3 + SpanWhile(s, p + 3, IsSpace)
  }

  /** Where the match ends: the token is the maximal run of token characters. */
  function LabelEnd(s: string, p: nat, upper: char, lower: char, token: char -> bool): (e: nat)
    requires LabelAt(s, p, upper, lower, token)
    ensures TokenStart(s, p, upper, lower, token) < e <= |s|
  {
    var k := TokenStart(s, p, upper, lower, token);
    k + SpanWhile(s, k, token)
  }

  /** `/S\/N\s+([A-Z0-9]+)/i` matches at `p`. */
  predicate SerialAt(s: string, p: nat) {
    LabelAt(s, p, 'S', 's', IsAlnum)
  }

  /** `/P\/N\s+([\w-]+)/i` matches at `p`. */
  predicate PlateAt(s: string, p: nat) {
    LabelAt(s, p, 'P', 'p', IsPlateChar)
  }

  function SerialToken(s: string, p: nat): (r: string)
    requires SerialAt(s, p)
    ensures |r| > 0 && forall i :: 0 <= i < |r| ==> IsAlnum(r[i])
    ensures NoOuterSpace(r)
  {
    s[TokenStart(s, p, 'S', 's', IsAlnum)..LabelEnd(s, p, 'S', 's', IsAlnum)]
  }

  function PlateToken(s: string, p: nat): (r: string)
    requires PlateAt(s, p)
    ensures |r| > 0 && forall i :: 0 <= i < |r| ==> IsPlateChar(r[i])
    ensures NoOuterSpace(r)
  {
    var r := s[TokenStart(s, p, 'P', 'p', IsPlateChar)..LabelEnd(s, p, 'P', 'p', IsPlateChar)];
    assert !IsSpace(r[0]) && !IsSpace(r[|r| - 1]);
    r
  }

  /** Wherever the matched text of a label match occurs, the pattern matches there too. */
  lemma LabelOccurrence(s: string, p: nat, q: nat, upper: char, lower: char, token: char -> bool)
    requires LabelAt(s, p, upper, lower, token)
    requires !IsSpace(s[TokenStart(s, p, upper, lower, token)])
    ensures OccursAt(s, s[p..LabelEnd(s, p, upper, lower, token)], q) ==> LabelAt(s, q, upper, lower, token)
  {
    var e := LabelEnd(s, p, upper, lower, token);
    var m := s[p..e];
    var w := SpanWhile(s, p + 3, IsSpace);
    if OccursAt(s, m, q) {
      OccursAtChar(s, m, q, 0);
      OccursAtChar(s, m, q, 1);
      OccursAtChar(s, m, q, 2);
      OccursAtChar(s, m, q, 3 + w);
      forall k | q + 3 <= k < q + 3 + w ensures IsSpace(s[k]) {
        OccursAtChar(s, m, q, k - q);
        assert m[k - q] == s[p + (k - q)];
        assert IsSpace(s[p + (k - q)]);
      }
      SpanUnique(s, q + 3, IsSpace, w);
      assert q + 3 + w < |s| && token(s[q + 3 + w]);
    }
  }

  lemma OccursAtChar(s: string, m: string, q: nat, k: nat)
    requires OccursAt(s, m, q) && k < |m|
    ensures s[q + k] == m[k]
  {
    assert s[q..q + |m|][k] == s[q + k];
  }

  /** `indexOf(match[0])` finds the label match itself: an earlier occurrence of the same
      text would be an earlier match. */
  lemma LabelIndexOf(s: string, p: nat, upper: char, lower: char, token: char -> bool)
    requires LabelAt(s, p, upper, lower, token)
    requires !IsSpace(s[TokenStart(s, p, upper, lower, token)])
    requires forall q :: 0 <= q < p ==> !LabelAt(s, q, upper, lower, token)
    ensures IndexOf(s, s[p..LabelEnd(s, p, upper, lower, token)]) == Some(p)
  {
    var m := s[p..LabelEnd(s, p, upper, lower, token)];
    forall q | 0 <= q < p ensures !OccursAt(s, m, q) {
      LabelOccurrence(s, p, q, upper, lower, token);
    }
    IndexOfAt(s, m, p);
  }

  // ---------------------------------------------------------------- the fallback plate

  /** `/\b(\d+-[A-Z0-9]+)\b/i` matches at `p`. Both runs are maximal: a shorter digit run is
      followed by a digit rather than '-', and a shorter alphanumeric run ends between two
      word characters, where there is no boundary. */
  predicate FallbackAt(s: string, p: nat) {
    && p < |s| && LeftBoundary(s, p)
    && var d := SpanWhile(s, p, IsDigitChar);
       && d >= 1 && p + d < |s| && s[p + d] == '-'
       && var a := SpanWhile(s, p + d + 1, IsAlnum);
          a >= 1 && RightBoundary(s, p + d + 1 + a)
  }

  function FallbackEnd(s: string, p: nat): (e: nat)
    requires FallbackAt(s, p)
    ensures p + 3 <= e <= |s|
  {
    var d := SpanWhile(s, p, IsDigitChar);
    p + d + 1 + SpanWhile(s, p + d + 1, IsAlnum)
  }

  /** The matched text, which is also the captured group. */
  function FallbackToken(s: string, p: nat): (r: string)
    requires FallbackAt(s, p)
    ensures |r| >= 3 && IsDigitChar(r[0]) && IsAlnum(r[|r| - 1]) && '-' in r
    ensures NoOuterSpace(r)
  {
    var d := SpanWhile(s, p, IsDigitChar);
    var e := FallbackEnd(s, p);
    var r := s[p..e];
    assert r[d] == '-';
    assert r[|r| - 1] == s[e - 1];
    r
  }

  // ---------------------------------------------------------------- the parse

  /** `x || "Unknown"`. */
  function OrUnknown(x: string): (r: string)
    ensures r != ""
    ensures x != "" ==> r == x
  {
    if x == "" then "Unknown" else x
  }

  /** The name when a match sits at `p`: the trimmed text before it. */
  function NameBefore(t: string, p: nat): string
    requires p <= |t|
  {
    OrUnknown(Trim(t[..p]))
  }

  /** The fallback name as written: the text before the first occurrence of the matched
      text, found again with `indexOf`. */
  function FallbackNameAsWritten(t: string, p: nat): (r: string)
    requires FallbackAt(t, p)
    ensures exists j :: 0 <= j <= p && r == NameBefore(t, j)
  {
    var m := FallbackToken(t, p);
    assert OccursAt(t, m, p);
    IndexOfAtMost(t, m, p);
    var j := IndexOf(t, m).value;
    var r := NameBefore(t, j);
    assert 0 <= j <= p && r == NameBefore(t, j);
    r
  }

  /** When the matched text does not occur earlier, the two readings agree. */
  lemma FallbackNameAgrees(t: string, p: nat)
    requires FallbackAt(t, p)
    requires forall j :: 0 <= j < p ==> !OccursAt(t, FallbackToken(t, p), j)
    ensures FallbackNameAsWritten(t, p) == NameBefore(t, p)
  {
    IndexOfAt(t, FallbackToken(t, p), p);
  }

  /** The reading of a trimmed description. The serial number comes from the first "S/N" match on its
      own. The plate comes from the first "P/N" match, else from the first fallback match;
      the name is the text before that match, else before "S/N", else the whole text. Names
      are found at the match position (for "P/N" and "S/N" this is what `indexOf` finds,
      see `LabelIndexOf`; for the fallback see `FallbackNameAsWritten`). */
  function ParseTrimmed(t: string): (r: Parsed)
    ensures r.equipmentName != "" && r.description == t
    ensures FirstMatch(t, 0, SerialAt).None? ==> r.serialNumber == ""
    ensures FirstMatch(t, 0, SerialAt).Some? ==> r.serialNumber == SerialToken(t, FirstMatch(t, 0, SerialAt).value)
    ensures FirstMatch(t, 0, PlateAt).Some? ==>
      var p := FirstMatch(t, 0, PlateAt).value;
      r.plateNumber == PlateToken(t, p) && r.equipmentName == NameBefore(t, p)
    ensures FirstMatch(t, 0, PlateAt).None? && FirstMatch(t, 0, FallbackAt).Some? ==>
      var p := FirstMatch(t, 0, FallbackAt).value;
      r.plateNumber == FallbackToken(t, p) && r.equipmentName == NameBefore(t, p)
    ensures FirstMatch(t, 0, PlateAt).None? && FirstMatch(t, 0, FallbackAt).None? ==>
      && r.plateNumber == ""
      && r.equipmentName == (if FirstMatch(t, 0, SerialAt).Some? then NameBefore(t, FirstMatch(t, 0, SerialAt).value)
                             else OrUnknown(t))
  {
    var sn := FirstMatch(t, 0, SerialAt);
    var serial := if sn.Some? then SerialToken(t, sn.value) else "";
    match FirstMatch(t, 0, PlateAt)
    case Some(p) => Parsed(NameBefore(t, p), PlateToken(t, p), serial, t)
    case None =>
      match FirstMatch(t, 0, FallbackAt)
      case Some(p) => Parsed(NameBefore(t, p), FallbackToken(t, p), serial, t)
      case None => Parsed(if sn.Some? then NameBefore(t, sn.value) else OrUnknown(t), "", serial, t)
  }

  /** `parseEquipmentDescription`: a missing or empty description gives "Unknown" and empty
      fields; any other is trimmed and then read as above. */
  function Parse(input: Option<string>): (r: Parsed)
    ensures input.None? || input == Some("") ==> r == Parsed("Unknown", "", "", "")
    ensures r.equipmentName != ""
    ensures input.Some? && input.value != "" ==> r.description == Trim(input.value)
  {
    if input.None? || input.value == "" then Parsed("Unknown", "", "", "")
    else ParseTrimmed(Trim(input.value))
  }

  /** For both labels, the name the source cuts at `indexOf(match[0])` is the name before
      the match. */
  lemma LabelNamesAreAtMatch(t: string)
    ensures FirstMatch(t, 0, SerialAt).Some? ==>
      var p := FirstMatch(t, 0, SerialAt).value;
      IndexOf(t, t[p..LabelEnd(t, p, 'S', 's', IsAlnum)]) == Some(p)
    ensures FirstMatch(t, 0, PlateAt).Some? ==>
      var p := FirstMatch(t, 0, PlateAt).value;
      IndexOf(t, t[p..LabelEnd(t, p, 'P', 'p', IsPlateChar)]) == Some(p)
  {
    FirstMatchesAreFirst(t);
    if FirstMatch(t, 0, SerialAt).Some? {
      var p := FirstMatch(t, 0, SerialAt).value;
      forall q | 0 <= q < p ensures !LabelAt(t, q, 'S', 's', IsAlnum) {
        assert !SerialAt(t, q);
      }
      LabelIndexOf(t, p, 'S', 's', IsAlnum);
    }
    if FirstMatch(t, 0, PlateAt).Some? {
      var p := FirstMatch(t, 0, PlateAt).value;
      forall q | 0 <= q < p ensures !LabelAt(t, q, 'P', 'p', IsPlateChar) {
        assert !PlateAt(t, q);
      }
      LabelIndexOf(t, p, 'P', 'p', IsPlateChar);
    }
  }

  /** The leftmost-match property of the three searches, stated per pattern. */
  lemma FirstMatchesAreFirst(t: string)
    ensures FirstMatch(t, 0, SerialAt).Some? ==>
      forall q :: 0 <= q < FirstMatch(t, 0, SerialAt).value ==> !SerialAt(t, q)
    ensures FirstMatch(t, 0, PlateAt).Some? ==>
      forall q :: 0 <= q < FirstMatch(t, 0, PlateAt).value ==> !PlateAt(t, q)
    ensures FirstMatch(t, 0, FallbackAt).Some? ==>
      forall q :: 0 <= q < FirstMatch(t, 0, FallbackAt).value ==> !FallbackAt(t, q)
  {
    var sn: (string, nat) -> bool := SerialAt;
    var pn: (string, nat) -> bool := PlateAt;
    var fb: (string, nat) -> bool := FallbackAt;
    if FirstMatch(t, 0, SerialAt).Some? {
      forall q | 0 <= q < FirstMatch(t, 0, SerialAt).value ensures !SerialAt(t, q) {
        assert !sn(t, q);
      }
    }
    if FirstMatch(t, 0, PlateAt).Some? {
      forall q | 0 <= q < FirstMatch(t, 0, PlateAt).value ensures !PlateAt(t, q) {
        assert !pn(t, q);
      }
    }
    if FirstMatch(t, 0, FallbackAt).Some? {
      forall q | 0 <= q < FirstMatch(t, 0, FallbackAt).value ensures !FallbackAt(t, q) {
        assert !fb(t, q);
      }
    }
  }

  lemma PlateFirstAt(t: string, p: nat)
    requires p <= |t| && PlateAt(t, p)
    requires forall q: nat :: q < p ==> !PlateAt(t, q)
    ensures FirstMatch(t, 0, PlateAt) == Some(p)
  {
    var at: (string, nat) -> bool := PlateAt;
    forall q: nat | q < p ensures !at(t, q) {
      assert !PlateAt(t, q);
    }
    FirstMatchIs(t, 0, at, p);
  }

  lemma SerialFirstAt(t: string, p: nat)
    requires p <= |t| && SerialAt(t, p)
    requires forall q: nat :: q < p ==> !SerialAt(t, q)
    ensures FirstMatch(t, 0, SerialAt) == Some(p)
  {
    var at: (string, nat) -> bool := SerialAt;
    forall q: nat | q < p ensures !at(t, q) {
      assert !SerialAt(t, q);
    }
    FirstMatchIs(t, 0, at, p);
  }

  lemma FallbackFirstAt(t: string, p: nat)
    requires p <= |t| && FallbackAt(t, p)
    requires forall q: nat :: q < p ==> !FallbackAt(t, q)
    ensures FirstMatch(t, 0, FallbackAt) == Some(p)
  {
    var at: (string, nat) -> bool := FallbackAt;
    forall q: nat | q < p ensures !at(t, q) {
      assert !FallbackAt(t, q);
    }
    FirstMatchIs(t, 0, at, p);
  }

  /** Without a '/', neither label can match. */
  lemma NoSlashNoLabel(t: string)
    requires '/' !in t
    ensures FirstMatch(t, 0, SerialAt) == None
    ensures FirstMatch(t, 0, PlateAt) == None
  {
    var sn: (string, nat) -> bool := SerialAt;
    var pn: (string, nat) -> bool := PlateAt;
    forall q: nat | q <= |t| ensures !sn(t, q) && !pn(t, q) {
      if q + 3 <= |t| {
        assert t[q + 1] in t;
      }
    }
    FirstMatchNone(t, 0, sn);
    FirstMatchNone(t, 0, pn);
  }
}
