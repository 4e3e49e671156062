/** The MySQL data export: every non-empty table becomes a comment, a DELETE and one INSERT
    per row, between statements that switch foreign-key checks off and on. The generation
    timestamp is a parameter and the database reads are the given tables. */
module ExportMySql {
  import opened Wrappers
  import opened Text
  import opened SqlLiteral

  /** A string literal: quotes doubled, then backslashes doubled, as MySQL's default reader
      (which honours backslash escapes) needs. */
  function EncodeString(s: string): (r: string)
    ensures r == Quoted(s, true)
  {
    DoubleBothIsEscape(s);
    "'" + DoubleBackslashes(DoubleQuotes(s)) + "'"
  }

  /** A JSON value as the exporter writes it: quotes doubled, backslashes left alone. */
  function EncodeJsonAsWritten(json: string): (r: string)
    ensures r == Quoted(json, false)
  {
    QuoteDoubled(json)
  }

  /** A JSON value written the way strings are, so that MySQL reads back the JSON text. */
  function EncodeJson(json: string): (r: string)
    ensures ReadLiteral(r, true) == Some((json, ""))
  {
    StringRoundTrip(json, "");
    assert EncodeString(json) + "" == EncodeString(json);
    EncodeString(json)
  }

  /** `toISOString().slice(0, 19).replace('T', ' ')` in quotes. */
  function EncodeDate(iso: string): string {
    "'" + ReplaceFirst(Take(iso, 19), 'T', " ") + "'"
  }

  /** An ISO timestamp loses its fraction and zone, and its date and time come apart by a
      space instead of the `T`. */
  lemma EncodeDateShape(iso: string)
    requires |iso| >= 19 && iso[10] == 'T' && 'T' !in iso[..10]
    ensures EncodeDate(iso) == "'" + iso[..10] + " " + iso[11..19] + "'"
  {
    var head := iso[..19];
    assert Take(iso, 19) == head;
    assert head[..10] == iso[..10] && head[10] == 'T';
    ReplaceFirstAt(head, 'T', " ", 10);
    assert head[11..] == iso[11..19];
  }

  /** The corrected JSON literal and the exporter's own differ only for JSON texts with a
      backslash. */
  lemma JsonEncodingsAgree(json: string)
    ensures '\\' !in json ==> EncodeJson(json) == EncodeJsonAsWritten(json)
  {
    if '\\' !in json {
      EscapeWithoutBackslash(json);
    }
  }

  /** The literal of one value. JSON values take the corrected encoding, which agrees with the
      exporter's own whenever the JSON text has no backslash. */
  function Encode(v: SqlValue): (r: string)
    ensures v.Null? ==> r == "NULL"
    ensures v.Bool? ==> r == (if v.b then "1" else "0")
    ensures v.Str? ==> ReadLiteral(r, true) == Some((v.s, ""))
    ensures v.Json? ==> ReadLiteral(r, true) == Some((v.text, ""))
    ensures v.Json? && '\\' !in v.text ==> r == EncodeJsonAsWritten(v.text)
    ensures v.Raw? ==> r == v.rendered
  {
    match v
    case Null => "NULL"
    case Str(s) =>
      StringRoundTrip(s, "");
      assert EncodeString(s) + "" == EncodeString(s);
      EncodeString(s)
    case Bool(b) => if b then "1" else "0"
    case DateVal(iso) => EncodeDate(iso)
    case Json(text) =>
      JsonEncodingsAgree(text);
      EncodeJson(text)
    case Raw(rendered) => rendered
  }

  /** The string literal reads back as the string, whatever follows it (short of a quote
      that would extend it). */
  lemma StringRoundTrip(s: string, rest: string)
    requires NoLeadingQuote(rest)
    ensures ReadLiteral(EncodeString(s) + rest, true) == Some((s, rest))
  {
    QuotedRoundTrip(s, rest, true);
  }

  /** Distinct strings get distinct literals. */
  lemma EncodeStringInjective(a: string, b: string)
    requires EncodeString(a) == EncodeString(b)
    ensures a == b
  {
    StringRoundTrip(a, "");
    StringRoundTrip(b, "");
    assert EncodeString(a) + "" == EncodeString(a);
    assert EncodeString(b) + "" == EncodeString(b);
  }

  /** As written, a JSON text containing a backslash does not survive: MySQL reads the
      two-backslash JSON string `["\\"]` as `["\"]`, which is no longer valid JSON. */
  lemma JsonAsWrittenLosesBackslash()
    ensures var json := "[\"\\\\\"]";
            && ReadLiteral(EncodeJsonAsWritten(json), true) == Some(("[\"\\\"]", ""))
            && "[\"\\\"]" != json
  {
    var json := "[\"\\\\\"]";
    JsonAsWrittenText();
    ReadSingleQuoted(json + "'", true);
    ReadsTwoBackslashJson();
    assert |"[\"\\\"]"| != |json|;
  }

  lemma JsonAsWrittenText()
    ensures EncodeJsonAsWritten("[\"\\\\\"]") == "'" + ("[\"\\\\\"]" + "'")
  {
    EscapeIdentity("[\"\\\\\"]", false);
  }

  /** The reading step of the counterexample, one character at a time. */
  lemma ReadsTwoBackslashJson()
    ensures ReadQuoted("[\"\\\\\"]" + "'", true) == Some(("[\"\\\"]", ""))
  {
    var t0 := "'";
    var t1 := [']'] + t0;
    var t2 := ['"'] + t1;
    var t3 := ['\\', '\\'] + t2;
    var t4 := ['"'] + t3;
    var t5 := ['['] + t4;
    ReadClose("", true);
    assert t0 + "" == t0;
    ReadPlain(']', t0, true);
    ReadPlain('"', t1, true);
    ReadBackslash('\\', t2);
    ReadPlain('"', t3, true);
    ReadPlain('[', t4, true);
    assert ReadQuoted(t5, true) == Some((['['] + (['"'] + (MySqlEscape('\\') + (['"'] + ([']'] + "")))), ""));
    assert t5 == "[\"\\\\\"]" + "'";
    assert ['['] + (['"'] + (MySqlEscape('\\') + (['"'] + ([']'] + "")))) == "[\"\\\"]";
  }

  /** As written, JSON texts without a backslash do survive. */
  lemma JsonAsWrittenWithoutBackslash(json: string)
    requires '\\' !in json
    ensures ReadLiteral(EncodeJsonAsWritten(json), true) == Some((json, ""))
  {
    EscapeWithoutBackslash(json);
    QuotedRoundTrip(json, "", true);
    assert Quoted(json, true) + "" == EncodeJsonAsWritten(json);
  }

  function Statements(t: Table): seq<string> {
    TableStatements(t, Encode)
  }

  function Header(generated: string): string {
    "-- MySQL Export from PostgreSQL\n" + "-- Generated: " + generated + "\n\n" + "SET FOREIGN_KEY_CHECKS=0;\n\n"
  }

  const Footer: string := "SET FOREIGN_KEY_CHECKS=1;\n"

  /** The whole script: foreign-key checks go off first and back on last. */
  function Export(generated: string, tables: seq<Table>): (r: string)
    ensures StartsWith(r, Header(generated))
    ensures EndsWith(r, Footer)
    ensures |r| == |Header(generated)| + |Concat(Sections(tables, Statements))| + |Footer|
    ensures r[|Header(generated)|..|r| - |Footer|] == Concat(Sections(tables, Statements))
  {
    var body := Concat(Sections(tables, Statements));
    assert (Header(generated) + body + Footer)[..|Header(generated)|] == Header(generated);
    assert (Header(generated) + body + Footer)[|Header(generated)|..|Header(generated)| + |body|] == body;
    Header(generated) + body + Footer
  }

  /** A table without rows leaves no trace in the script. */
  lemma ExportSkipsEmptyTable(generated: string, before: seq<Table>, t: Table, after: seq<Table>)
    requires |t.rows| == 0
    ensures Export(generated, before + [t] + after) == Export(generated, before + after)
  {
    SkipsEmptyTable(before, t, after, Statements);
  }
}
