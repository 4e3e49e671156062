/** The SQL Server data export: `N'…'` literals, tables under the `dbo` schema, and a `GO`
    batch separator after each table's DELETE and after its INSERTs. */
module ExportSqlServer {
  import opened Wrappers
  import opened Text
  import opened SqlLiteral

  /** A Unicode string literal with its quotes doubled and backslashes left alone. Arrays and
      objects are written the same way. The reader this is checked against gives backslashes
      no meaning; SQL Server's own reader drops a backslash that is directly followed by a
      line break, together with the break, which this model does not follow. */
  function EncodeString(s: string): (r: string)
    ensures r == "N" + Quoted(s, false)
  {
    "N" + QuoteDoubled(s)
  }

  /** The literal of one value. */
  function Encode(v: SqlValue): (r: string)
    ensures v.Null? ==> r == "NULL"
    ensures v.Bool? ==> r == (if v.b then "1" else "0")
    ensures v.Str? ==> ReadLiteral(r, false) == Some((v.s, ""))
    ensures v.Json? ==> ReadLiteral(r, false) == Some((v.text, ""))
    ensures v.DateVal? ==> r == "'" + v.iso + "'"
    ensures v.Raw? ==> r == v.rendered
  {
    match v
    case Null => "NULL"
    case Str(s) =>
      StringRoundTrip(s, "");
      assert EncodeString(s) + "" == EncodeString(s);
      EncodeString(s)
    case Bool(b) => if b then "1" else "0"
    case DateVal(iso) => "'" + iso + "'"
    case Json(text) =>
      StringRoundTrip(text, "");
      assert EncodeString(text) + "" == EncodeString(text);
      EncodeString(text)
    case Raw(rendered) => rendered
  }

  /** The `N'…'` literal reads back as the string, whatever follows it (short of a quote
      that would extend it). */
  lemma StringRoundTrip(s: string, rest: string)
    requires NoLeadingQuote(rest)
    ensures ReadLiteral(EncodeString(s) + rest, false) == Some((s, rest))
  {
    EscapeRoundTrip(s, rest, false);
    assert EncodeString(s) + rest == "N'" + (EscapeChars(s, false) + "'" + rest);
    ReadNationalQuoted(EscapeChars(s, false) + "'" + rest, false);
  }

  /** A timestamp's quoted ISO text reads back unchanged: it holds no quote. */
  lemma DateRoundTrip(iso: string)
    requires '\'' !in iso
    ensures ReadLiteral(Encode(DateVal(iso)), false) == Some((iso, ""))
  {
    EscapeIdentity(iso, false);
    QuotedRoundTrip(iso, "", false);
    assert Quoted(iso, false) + "" == Encode(DateVal(iso));
  }

  /** The statements of one table: nothing when it is empty, otherwise a comment, the
      DELETE and its `GO`, one INSERT into `dbo.<name>` per row, and a closing `GO`. */
  function Statements(t: Table): (r: seq<string>)
    ensures |t.rows| == 0 <==> r == []
    ensures |t.rows| > 0 ==>
      && |r| == |t.rows| + 3
      && r[0] == "-- Table: " + t.name + "\n"
      && r[1] == "DELETE FROM dbo." + t.name + ";\nGO\n\n"
      && (forall i :: 0 <= i < |t.rows| ==> r[i + 2] == InsertStatement("dbo." + t.name, t.rows[i], Encode))
      && r[|r| - 1] == "GO\n\n"
  {
    if |t.rows| == 0 then []
    else ["-- Table: " + t.name + "\n", "DELETE FROM dbo." + t.name + ";\nGO\n\n"]
         + Inserts("dbo." + t.name, t.rows, Encode) + ["GO\n\n"]
  }

  function Header(generated: string): string {
    "-- SQL Server Data Export from PostgreSQL\n" + "-- Generated: " + generated + "\n\n"
      + "USE GelanTerminal;\nGO\n\n"
  }

  /** The whole script: the database is selected before any table, and every table's
      section is its own batch. */
  function Export(generated: string, tables: seq<Table>): (r: string)
    ensures StartsWith(r, Header(generated))
    ensures r[|Header(generated)|..] == Concat(Sections(tables, Statements))
  {
    Header(generated) + Concat(Sections(tables, Statements))
  }

  /** A table without rows leaves no trace in the script. */
  lemma ExportSkipsEmptyTable(generated: string, before: seq<Table>, t: Table, after: seq<Table>)
    requires |t.rows| == 0
    ensures Export(generated, before + [t] + after) == Export(generated, before + after)
  {
    SkipsEmptyTable(before, t, after, Statements);
  }
}
