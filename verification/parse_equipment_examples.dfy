/** Worked inputs for `parseEquipmentDescription`: the two shapes of its documentation's
    examples, the examples themselves, and the input on which the fallback name goes wrong. */
module ParseEquipmentExamples {
  import opened Wrappers
  import opened Text
  import opened Scan
  import opened ParseEquipmentDescription

  /** A name the parser can cut cleanly: non-empty, no outer whitespace, no '/'. */
  predicate PlainName(name: string) {
    name != "" && NoOuterSpace(name) && '/' !in name
  }

  predicate PlateWord(w: string) {
    w != "" && forall i :: 0 <= i < |w| ==> IsPlateChar(w[i])
  }

  predicate SerialWord(w: string) {
    w != "" && forall i :: 0 <= i < |w| ==> IsAlnum(w[i])
  }

  /** The text `name P/N plate S/N serial`. */
  function Labelled(name: string, plate: string, serial: string): (t: string)
    ensures |t| == |name| + |plate| + |serial| + 10
  {
    name + " P/N " + plate + " S/N " + serial
  }

  /** Where the pieces of `name P/N plate S/N serial` sit. */
  predicate LabelledLayout(t: string, name: string, plate: string, serial: string) {
    var a := |name|;
    var c := a + 5 + |plate|;
    && |t| == c + 5 + |serial|
    && (forall k :: 0 <= k < a ==> t[k] == name[k])
    && t[a] == ' ' && t[a + 1] == 'P' && t[a + 2] == '/' && t[a + 3] == 'N' && t[a + 4] == ' '
    && (forall k :: a + 5 <= k < c ==> t[k] == plate[k - a - 5])
    && t[c] == ' ' && t[c + 1] == 'S' && t[c + 2] == '/' && t[c + 3] == 'N' && t[c + 4] == ' '
    && (forall k :: c + 5 <= k < |t| ==> t[k] == serial[k - c - 5])
    && t[..a + 1] == name + " "
  }

  lemma LabelledChars(name: string, plate: string, serial: string)
    ensures LabelledLayout(Labelled(name, plate, serial), name, plate, serial)
  {
    var t := Labelled(name, plate, serial);
    var a := |name|;
    assert t == name + " P/N " + plate + " S/N " + serial;
    assert t[..a + 1] == name + " ";
  }

  /** In `name P/N plate S/N serial` the first "P/N" match is the one after the name, and
      it captures the plate. */
  lemma LabelledPlate(t: string, name: string, plate: string, serial: string)
    requires PlainName(name) && PlateWord(plate) && SerialWord(serial)
    requires LabelledLayout(t, name, plate, serial)
    ensures FirstMatch(t, 0, PlateAt) == Some(|name| + 1)
    ensures PlateToken(t, |name| + 1) == plate
  {
    var a := |name|;
    var c := a + 5 + |plate|;
    LabelledPlateAt(t, name, plate, serial);
    forall q: nat | q < a + 1 ensures !PlateAt(t, q) {
      if q + 1 < a {
        assert name[q + 1] in name;
      }
    }
    PlateFirstAt(t, a + 1);
    LabelledSlices(t, name, plate, serial);
  }

  lemma LabelledPlateAt(t: string, name: string, plate: string, serial: string)
    requires PlainName(name) && PlateWord(plate) && SerialWord(serial)
    requires LabelledLayout(t, name, plate, serial)
    ensures PlateAt(t, |name| + 1)
    ensures TokenStart(t, |name| + 1, 'P', 'p', IsPlateChar) == |name| + 5
    ensures LabelEnd(t, |name| + 1, 'P', 'p', IsPlateChar) == |name| + 5 + |plate|
  {
    var a := |name|;
    SpanUnique(t, a + 4, IsSpace, 1);
    SpanUnique(t, a + 5, IsPlateChar, |plate|);
  }

  lemma LabelledSlices(t: string, name: string, plate: string, serial: string)
    requires LabelledLayout(t, name, plate, serial)
    ensures t[|name| + 5..|name| + 5 + |plate|] == plate
    ensures t[|name| + 5 + |plate| + 5..] == serial
  {
  }

  /** ... and the first "S/N" match is the one after the plate, and it captures the
      serial. */
  lemma LabelledSerial(t: string, name: string, plate: string, serial: string)
    requires PlainName(name) && PlateWord(plate) && SerialWord(serial)
    requires LabelledLayout(t, name, plate, serial)
    ensures FirstMatch(t, 0, SerialAt) == Some(|name| + 5 + |plate| + 1)
    ensures SerialToken(t, |name| + 5 + |plate| + 1) == serial
  {
    var c := |name| + 5 + |plate|;
    LabelledSerialAt(t, name, plate, serial);
    LabelledNoSerialBefore(t, name, plate, serial);
    SerialFirstAt(t, c + 1);
    LabelledSlices(t, name, plate, serial);
  }

  lemma LabelledNoSerialBefore(t: string, name: string, plate: string, serial: string)
    requires PlainName(name) && PlateWord(plate) && SerialWord(serial)
    requires LabelledLayout(t, name, plate, serial)
    ensures forall q: nat :: q < |name| + 5 + |plate| + 1 ==> !SerialAt(t, q)
  {
    var a := |name|;
    var c := a + 5 + |plate|;
    forall q: nat | q < c + 1 ensures !SerialAt(t, q) {
      if q + 1 < a {
        assert name[q + 1] in name;
      } else if a + 5 <= q + 1 < c {
        assert IsPlateChar(t[q + 1]);
      }
    }
  }

  lemma LabelledSerialAt(t: string, name: string, plate: string, serial: string)
    requires PlainName(name) && PlateWord(plate) && SerialWord(serial)
    requires LabelledLayout(t, name, plate, serial)
    ensures SerialAt(t, |name| + 5 + |plate| + 1)
    ensures TokenStart(t, |name| + 5 + |plate| + 1, 'S', 's', IsAlnum) == |name| + 5 + |plate| + 5
    ensures LabelEnd(t, |name| + 5 + |plate| + 1, 'S', 's', IsAlnum) == |t|
  {
    var c := |name| + 5 + |plate|;
    SpanUnique(t, c + 4, IsSpace, 1);
    SpanUnique(t, c + 5, IsAlnum, |serial|);
  }

  lemma LabelledName(t: string, name: string, plate: string, serial: string)
    requires PlainName(name)
    requires LabelledLayout(t, name, plate, serial)
    ensures NameBefore(t, |name| + 1) == name
  {
    TrimSpaceAfter(name);
  }

  lemma LabelledSerialField(t: string, name: string, plate: string, serial: string)
    requires PlainName(name) && PlateWord(plate) && SerialWord(serial)
    requires LabelledLayout(t, name, plate, serial)
    ensures ParseTrimmed(t).serialNumber == serial
  {
    LabelledSerial(t, name, plate, serial);
    SerialOnly(t, |name| + 5 + |plate| + 1);
  }

  lemma SerialOnly(t: string, q: nat)
    requires FirstMatch(t, 0, SerialAt) == Some(q)
    ensures ParseTrimmed(t).serialNumber == SerialToken(t, q)
  {
  }

  lemma LabelledNameField(t: string, name: string, plate: string, serial: string)
    requires PlainName(name) && PlateWord(plate) && SerialWord(serial)
    requires LabelledLayout(t, name, plate, serial)
    ensures ParseTrimmed(t).equipmentName == name
  {
    LabelledPlate(t, name, plate, serial);
    LabelledName(t, name, plate, serial);
  }

  lemma LabelledPlateField(t: string, name: string, plate: string, serial: string)
    requires PlainName(name) && PlateWord(plate) && SerialWord(serial)
    requires LabelledLayout(t, name, plate, serial)
    ensures ParseTrimmed(t).plateNumber == plate
  {
    LabelledPlate(t, name, plate, serial);
  }

  lemma LabelledNoOuterSpace(t: string, name: string, plate: string, serial: string)
    requires PlainName(name) && SerialWord(serial)
    requires LabelledLayout(t, name, plate, serial)
    ensures NoOuterSpace(t)
  {
    assert t[0] == name[0] && t[|t| - 1] == serial[|serial| - 1];
  }

  /** Both labels present: the name is the text before "P/N", and the plate and serial are
      the words after the labels. */
  lemma LabelledDescription(t: string, name: string, plate: string, serial: string)
    requires PlainName(name) && PlateWord(plate) && SerialWord(serial)
    requires LabelledLayout(t, name, plate, serial)
    ensures Parse(Some(t)) == Parsed(name, plate, serial, t)
  {
    LabelledSerialField(t, name, plate, serial);
    LabelledNameField(t, name, plate, serial);
    LabelledPlateField(t, name, plate, serial);
    LabelledNoOuterSpace(t, name, plate, serial);
    TrimNoOuter(t);
    TrimmedInput(t, t);
  }

  lemma TrimmedInput(s: string, t: string)
    requires s != "" && Trim(s) == t
    ensures Parse(Some(s)) == ParseTrimmed(t)
  {
  }

  /** The first example of the source's documentation. */
  lemma DocExampleHighBed()
    ensures Parse(Some("High Bed P/N 3-84078 S/N LZZ5CLVBGW147496"))
            == Parsed("High Bed", "3-84078", "LZZ5CLVBGW147496", "High Bed P/N 3-84078 S/N LZZ5CLVBGW147496")
  {
    HighBedWords();
    HighBedLayout();
    LabelledDescription("High Bed P/N 3-84078 S/N LZZ5CLVBGW147496", "High Bed", "3-84078", "LZZ5CLVBGW147496");
  }

  lemma HighBedWords()
    ensures PlainName("High Bed") && PlateWord("3-84078") && SerialWord("LZZ5CLVBGW147496")
  {
  }

  lemma HighBedLayout()
    ensures LabelledLayout("High Bed P/N 3-84078 S/N LZZ5CLVBGW147496", "High Bed", "3-84078", "LZZ5CLVBGW147496")
  {
    LabelledChars("High Bed", "3-84078", "LZZ5CLVBGW147496");
    assert Labelled("High Bed", "3-84078", "LZZ5CLVBGW147496") == "High Bed P/N 3-84078 S/N LZZ5CLVBGW147496";
  }

  // ---------------------------------------------------------------- no label: `name digits-tail`

  predicate DigitWord(w: string) {
    w != "" && forall i :: 0 <= i < |w| ==> IsDigitChar(w[i])
  }

  /** A name in which the fallback pattern cannot start: no digits. */
  predicate DigitFreeName(name: string) {
    PlainName(name) && forall i :: 0 <= i < |name| ==> !IsDigitChar(name[i])
  }

  /** The text `name digits-tail`. */
  function Unlabelled(name: string, digits: string, tail: string): (t: string)
    ensures |t| == |name| + |digits| + |tail| + 2
  {
    name + " " + digits + "-" + tail
  }

  predicate UnlabelledLayout(t: string, name: string, digits: string, tail: string) {
    var a := |name|;
    var h := a + 1 + |digits|;
    && |t| == h + 1 + |tail|
    && (forall k :: 0 <= k < a ==> t[k] == name[k])
    && t[a] == ' '
    && (forall k :: a + 1 <= k < h ==> t[k] == digits[k - a - 1])
    && t[h] == '-'
    && (forall k :: h + 1 <= k < |t| ==> t[k] == tail[k - h - 1])
    && t[..a + 1] == name + " "
    && t[a + 1..] == digits + "-" + tail
  }

  lemma UnlabelledChars(name: string, digits: string, tail: string)
    ensures UnlabelledLayout(Unlabelled(name, digits, tail), name, digits, tail)
  {
    var t := Unlabelled(name, digits, tail);
    var a := |name|;
    assert t == name + " " + digits + "-" + tail;
    assert t[..a + 1] == name + " ";
    assert t[a + 1..] == digits + "-" + tail;
  }

  lemma UnlabelledFallbackAt(t: string, name: string, digits: string, tail: string)
    requires DigitFreeName(name) && DigitWord(digits) && SerialWord(tail)
    requires UnlabelledLayout(t, name, digits, tail)
    ensures FallbackAt(t, |name| + 1)
    ensures FallbackEnd(t, |name| + 1) == |t|
  {
    var a := |name|;
    var h := a + 1 + |digits|;
    SpanUnique(t, a + 1, IsDigitChar, |digits|);
    SpanUnique(t, h + 1, IsAlnum, |tail|);
  }

  lemma UnlabelledFallback(t: string, name: string, digits: string, tail: string)
    requires DigitFreeName(name) && DigitWord(digits) && SerialWord(tail)
    requires UnlabelledLayout(t, name, digits, tail)
    ensures FirstMatch(t, 0, FallbackAt) == Some(|name| + 1)
    ensures FallbackToken(t, |name| + 1) == digits + "-" + tail
  {
    var a := |name|;
    UnlabelledFallbackAt(t, name, digits, tail);
    forall q: nat | q < a + 1 ensures !FallbackAt(t, q) {
      assert !IsDigitChar(t[q]);
      SpanUnique(t, q, IsDigitChar, 0);
    }
    FallbackFirstAt(t, a + 1);
  }

  lemma UnlabelledNoSlash(t: string, name: string, digits: string, tail: string)
    requires DigitFreeName(name) && DigitWord(digits) && SerialWord(tail)
    requires UnlabelledLayout(t, name, digits, tail)
    ensures FirstMatch(t, 0, SerialAt) == None && FirstMatch(t, 0, PlateAt) == None
  {
    forall k | 0 <= k < |t| ensures t[k] != '/' {
      if k < |name| {
        assert name[k] in name;
      }
    }
    NoSlashNoLabel(t);
  }

  lemma FallbackOnly(t: string, p: nat)
    requires FirstMatch(t, 0, PlateAt) == None && FirstMatch(t, 0, FallbackAt) == Some(p)
    ensures ParseTrimmed(t).plateNumber == FallbackToken(t, p)
    ensures ParseTrimmed(t).equipmentName == NameBefore(t, p)
  {
  }

  lemma NoSerial(t: string)
    requires FirstMatch(t, 0, SerialAt) == None
    ensures ParseTrimmed(t).serialNumber == ""
  {
  }

  lemma UnlabelledFields(t: string, name: string, digits: string, tail: string)
    requires DigitFreeName(name) && DigitWord(digits) && SerialWord(tail)
    requires UnlabelledLayout(t, name, digits, tail)
    ensures ParseTrimmed(t).plateNumber == digits + "-" + tail
    ensures ParseTrimmed(t).equipmentName == NameBefore(t, |name| + 1)
    ensures ParseTrimmed(t).serialNumber == ""
  {
    UnlabelledNoSlash(t, name, digits, tail);
    UnlabelledFallback(t, name, digits, tail);
    FallbackOnly(t, |name| + 1);
    NoSerial(t);
  }

  /** No label: the plate is the first digits-dash-alphanumeric word and the name is the
      text before it. */
  lemma UnlabelledDescription(t: string, name: string, digits: string, tail: string)
    requires DigitFreeName(name) && DigitWord(digits) && SerialWord(tail)
    requires UnlabelledLayout(t, name, digits, tail)
    ensures Parse(Some(t)) == Parsed(name, digits + "-" + tail, "", t)
  {
    UnlabelledFields(t, name, digits, tail);
    UnlabelledNameAndTrim(t, name, digits, tail);
    TrimmedInput(t, t);
  }

  lemma UnlabelledNameAndTrim(t: string, name: string, digits: string, tail: string)
    requires DigitFreeName(name) && DigitWord(digits) && SerialWord(tail)
    requires UnlabelledLayout(t, name, digits, tail)
    ensures NameBefore(t, |name| + 1) == name
    ensures Trim(t) == t
  {
    TrimSpaceAfter(name);
    assert t[0] == name[0] && t[|t| - 1] == tail[|tail| - 1];
    TrimNoOuter(t);
  }

  /** The second example of the source's documentation. */
  lemma DocExamplePump()
    ensures Parse(Some("Pump 3-35809ET")) == Parsed("Pump", "3-35809ET", "", "Pump 3-35809ET")
  {
    PumpWords();
    PumpLayout();
    UnlabelledDescription("Pump 3-35809ET", "Pump", "3", "35809ET");
  }

  lemma PumpWords()
    ensures DigitFreeName("Pump") && DigitWord("3") && SerialWord("35809ET")
    ensures "3" + "-" + "35809ET" == "3-35809ET"
  {
  }

  lemma PumpLayout()
    ensures UnlabelledLayout("Pump 3-35809ET", "Pump", "3", "35809ET")
  {
    UnlabelledChars("Pump", "3", "35809ET");
    assert Unlabelled("Pump", "3", "35809ET") == "Pump 3-35809ET";
  }

  // ---------------------------------------------------------------- the fallback name as written

  /** As written, the fallback name is cut where `indexOf` first finds the matched text, and
      that can be an earlier spot where the pattern did not match for want of a word
      boundary: in "A12-3 12-3" the pattern matches "12-3" at 6, `indexOf` finds it at 1,
      and the name becomes "A" instead of "A12-3". */
  lemma FallbackIndexOfFindsEarlierText()
    ensures FirstMatch("A12-3 12-3", 0, FallbackAt) == Some(6)
    ensures FallbackToken("A12-3 12-3", 6) == "12-3"
    ensures FallbackNameAsWritten("A12-3 12-3", 6) == "A"
    ensures Trim("A12-3 12-3") == "A12-3 12-3"
    ensures ParseTrimmed("A12-3 12-3").equipmentName == "A12-3"
  {
    EarlierTextMatch();
    EarlierTextToken();
    EarlierTextAsWritten();
    EarlierTextTrim();
    EarlierTextTrimmed();
  }

  lemma EarlierTextMatch()
    ensures FirstMatch("A12-3 12-3", 0, FallbackAt) == Some(6)
  {
    EarlierTextToken();
    EarlierTextNoneBefore();
    FallbackFirstAt("A12-3 12-3", 6);
  }

  lemma EarlierTextNoneBefore()
    ensures forall q: nat :: q < 6 ==> !FallbackAt("A12-3 12-3", q)
  {
    var t := "A12-3 12-3";
    forall q: nat | q < 6 ensures !FallbackAt(t, q) {
      if q == 0 || q == 3 || q == 5 {
        SpanUnique(t, q, IsDigitChar, 0);
      } else if q == 4 {
        SpanUnique(t, 4, IsDigitChar, 1);
      }
    }
  }

  lemma EarlierTextToken()
    ensures FallbackAt("A12-3 12-3", 6)
    ensures FallbackToken("A12-3 12-3", 6) == "12-3"
  {
    var t := "A12-3 12-3";
    SpanUnique(t, 6, IsDigitChar, 2);
    SpanUnique(t, 9, IsAlnum, 1);
    assert t[6..10] == "12-3";
  }

  lemma EarlierTextIndexOf()
    ensures IndexOf("A12-3 12-3", "12-3") == Some(1)
  {
    var t := "A12-3 12-3";
    assert t[1..5] == "12-3";
    assert t[0..4] != "12-3" by { assert t[0..4][0] == 'A'; }
    IndexOfAt(t, "12-3", 1);
  }

  lemma EarlierTextAsWritten()
    ensures FallbackAt("A12-3 12-3", 6)
    ensures FallbackNameAsWritten("A12-3 12-3", 6) == "A"
  {
    EarlierTextToken();
    EarlierTextIndexOf();
    assert "A12-3 12-3"[..1] == "A";
    TrimNoOuter("A");
  }

  lemma EarlierTextTrimmed()
    ensures ParseTrimmed("A12-3 12-3").equipmentName == "A12-3"
  {
    EarlierTextMatch();
    EarlierTextNoLabel();
    FallbackOnly("A12-3 12-3", 6);
    EarlierTextName();
  }

  lemma EarlierTextNoLabel()
    ensures FirstMatch("A12-3 12-3", 0, SerialAt) == None
    ensures FirstMatch("A12-3 12-3", 0, PlateAt) == None
  {
    var t := "A12-3 12-3";
    forall k | 0 <= k < |t| ensures t[k] != '/' { }
    NoSlashNoLabel(t);
  }

  lemma EarlierTextName()
    ensures NameBefore("A12-3 12-3", 6) == "A12-3"
  {
    assert "A12-3 12-3"[..6] == "A12-3" + " ";
    TrimSpaceAfter("A12-3");
  }

  lemma EarlierTextTrim()
    ensures Trim("A12-3 12-3") == "A12-3 12-3"
  {
    TrimNoOuter("A12-3 12-3");
  }
}
