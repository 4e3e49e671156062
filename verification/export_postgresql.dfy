/** The PostgreSQL data export: standard string literals (backslashes are ordinary
    characters), TRUE and FALSE for booleans, and no statements around the tables. */
module ExportPostgres {
  import opened Wrappers
  import opened Text
  import opened SqlLiteral

  /** The literal of one value. Strings, arrays and objects are written with their quotes
      doubled and nothing else changed. */
  function Encode(v: SqlValue): (r: string)
    ensures v.Null? ==> r == "NULL"
    ensures v.Bool? ==> r == (if v.b then "TRUE" else "FALSE")
    ensures v.Str? ==> ReadLiteral(r, false) == Some((v.s, ""))
    ensures v.Json? ==> ReadLiteral(r, false) == Some((v.text, ""))
    ensures v.DateVal? ==> r == "'" + v.iso + "'"
    ensures v.Raw? ==> r == v.rendered
  {
    match v
    case Null => "NULL"
    case Str(s) => EncodeText(s)
    case Bool(b) => if b then "TRUE" else "FALSE"
    case DateVal(iso) => "'" + iso + "'"
    case Json(text) => EncodeText(text)
    case Raw(rendered) => rendered
  }

  /** A string or JSON text as a literal that a standard reader reads back unchanged. */
  function EncodeText(s: string): (r: string)
    ensures ReadLiteral(r, false) == Some((s, ""))
  {
    QuotedRoundTrip(s, "", false);
    assert Quoted(s, false) + "" == Quoted(s, false);
    QuoteDoubled(s)
  }

  function Statements(t: Table): seq<string> {
    TableStatements(t, Encode)
  }

  function Header(generated: string): string {
    "-- PostgreSQL Data Export\n" + "-- Generated: " + generated + "\n\n"
  }

  /** The whole script: the header, then the tables' sections in order. */
  function Export(generated: string, tables: seq<Table>): (r: string)
    ensures StartsWith(r, Header(generated))
    ensures r[|Header(generated)|..] == Concat(Sections(tables, Statements))
  {
    Header(generated) + Concat(Sections(tables, Statements))
  }

  /** A table without rows leaves no trace in the script. */
  lemma ExportSkipsEmptyTable(generated: string, before: seq<Table>, t: Table, after: seq<Table>)
    requires |t.rows| == 0
    ensures Export(generated, before + [t] + after) == Export(generated, before + after)
  {
    SkipsEmptyTable(before, t, after, Statements);
  }
}
