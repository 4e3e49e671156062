/** The SQL text shared by the three data exporters: the quoting of string literals, a
    reader for such literals (the inverse the exporters rely on), and the INSERT statement a
    row becomes. Table rows are the column/value pairs of `Object.keys(row)`, in that order. */
module SqlLiteral {
  import opened Wrappers
  import opened Text

  /** A column value as the exporters classify it. `toISOString`, `JSON.stringify` and the
      rendering of numbers are not modelled; their text is carried as it is. */
  datatype SqlValue =
    | Null                       // null or undefined
    | Str(s: string)
    | Bool(b: bool)
    | DateVal(iso: string)       // the text of `toISOString()`
    | Json(text: string)         // the text of `JSON.stringify` for arrays and objects
    | Raw(rendered: string)      // numbers and the rest, interpolated as they are

  type Row = seq<(string, SqlValue)>

  datatype Table = Table(name: string, rows: seq<Row>)

  // ---------------------------------------------------------------- escaping

  /** `replace(/'/g, "''")`. */
  function DoubleQuotes(s: string): string {
    ReplaceAll(s, "'", "''")
  }

  /** `replace(/\\/g, '\\\\')`. */
  function DoubleBackslashes(s: string): string {
    ReplaceAll(s, "\\", "\\\\")
  }

  /** How one character is written inside a quoted literal: a quote is doubled, and, for a
      reader that honours backslash escapes, so is a backslash. */
  function EscapeChar(c: char, backslashEscapes: bool): string {
    if c == '\'' then "''" else if backslashEscapes && c == '\\' then "\\\\" else [c]
  }

  function EscapeChars(s: string, backslashEscapes: bool): string {
    if |s| == 0 then "" else EscapeChar(s[0], backslashEscapes) + EscapeChars(s[1..], backslashEscapes)
  }

  lemma ReplaceCharStep(s: string, c: char, rep: string)
    requires |s| > 0
    ensures ReplaceAll(s, [c], rep) == (if s[0] == c then rep else [s[0]]) + ReplaceAll(s[1..], [c], rep)
  {
    assert s[..1] == [s[0]];
  }

  /** Doubling quotes is escaping for a reader without backslash escapes. */
  lemma {:induction false} DoubleQuotesIsEscape(s: string)
    ensures DoubleQuotes(s) == EscapeChars(s, false)
  {
    if |s| > 0 {
      ReplaceCharStep(s, '\'', "''");
      DoubleQuotesIsEscape(s[1..]);
    }
  }

  /** Doubling quotes and then backslashes is escaping for a reader with backslash escapes:
      the first step introduces no backslash, so the two doublings do not interfere. */
  lemma {:induction false} DoubleBothIsEscape(s: string)
    ensures DoubleBackslashes(DoubleQuotes(s)) == EscapeChars(s, true)
  {
    if |s| > 0 {
      var c := s[0];
      var q := if c == '\'' then "''" else [c];
      ReplaceCharStep(s, '\'', "''");
      assert DoubleQuotes(s) == q + DoubleQuotes(s[1..]);
      ReplaceConcat(q, DoubleQuotes(s[1..]), '\\', "\\\\");
      if c == '\'' {
        ReplaceAbsent(q, '\\', "\\\\");
      } else {
        ReplaceCharStep(q, '\\', "\\\\");
        assert q[1..] == "";
      }
      assert DoubleBackslashes(q) == EscapeChar(c, true);
      DoubleBothIsEscape(s[1..]);
    }
  }

  // ---------------------------------------------------------------- reading literals back

  /** The character(s) a backslash escape stands for in a MySQL string literal; `\%` and
      `\_` keep their backslash, and an unknown escape stands for the character itself. */
  function MySqlEscape(c: char): string {
    match c
    case '0' => "\U{0000}"
    case 'b' => "\U{0008}"
    case 'n' => "\n"
    case 'r' => "\r"
    case 't' => "\t"
    case 'Z' => "\U{001A}"
    case '%' => "\\%"
    case '_' => "\\_"
    case _ => [c]
  }

  function Prepend(p: string, r: Option<(string, string)>): Option<(string, string)> {
    match r
    case None => None
    case Some(vr) => Some((p + vr.0, vr.1))
  }

  /** Reads the body of a quoted literal whose opening quote is already consumed: the value
      up to the closing quote and the text after it; `None` when the literal is not closed. */
  function ReadQuoted(t: string, backslashEscapes: bool): (r: Option<(string, string)>)
    ensures r.Some? ==> |r.value.1| < |t| && r.value.1 == t[|t| - |r.value.1|..]
    decreases |t|
  {
    if |t| == 0 then None
    else if t[0] == '\'' then
      if |t| >= 2 && t[1] == '\'' then Prepend("'", ReadQuoted(t[2..], backslashEscapes))
      else Some(("", t[1..]))
    else if backslashEscapes && t[0] == '\\' then
      if |t| < 2 then None else Prepend(MySqlEscape(t[1]), ReadQuoted(t[2..], backslashEscapes))
    else Prepend([t[0]], ReadQuoted(t[1..], backslashEscapes))
  }

  lemma ReadPlain(c: char, t: string, backslashEscapes: bool)
    requires c != '\'' && !(backslashEscapes && c == '\\')
    ensures ReadQuoted([c] + t, backslashEscapes) == Prepend([c], ReadQuoted(t, backslashEscapes))
  {
    assert ([c] + t)[1..] == t;
  }

  lemma ReadDoubledQuote(t: string, backslashEscapes: bool)
    ensures ReadQuoted("''" + t, backslashEscapes) == Prepend("'", ReadQuoted(t, backslashEscapes))
  {
    assert ("''" + t)[2..] == t;
  }

  lemma ReadBackslash(c: char, t: string)
    ensures ReadQuoted(['\\', c] + t, true) == Prepend(MySqlEscape(c), ReadQuoted(t, true))
  {
    assert (['\\', c] + t)[2..] == t;
  }

  lemma ReadClose(rest: string, backslashEscapes: bool)
    requires NoLeadingQuote(rest)
    ensures ReadQuoted("'" + rest, backslashEscapes) == Some(("", rest))
  {
    assert ("'" + rest)[1..] == rest;
  }

  /** Reads one string literal, `'…'` or `N'…'`, at the start of `text`. */
  function ReadLiteral(text: string, backslashEscapes: bool): (r: Option<(string, string)>)
    ensures r.Some? ==> |r.value.1| < |text| && r.value.1 == text[|text| - |r.value.1|..]
  {
    if StartsWith(text, "'") then ReadQuoted(text[1..], backslashEscapes)
    else if StartsWith(text, "N'") then ReadQuoted(text[2..], backslashEscapes)
    else None
  }

  /** A literal opened by a plain quote is read from the character after it. */
  lemma ReadSingleQuoted(body: string, backslashEscapes: bool)
    ensures ReadLiteral("'" + body, backslashEscapes) == ReadQuoted(body, backslashEscapes)
  {
    assert ("'" + body)[1..] == body;
  }

  /** A literal opened by `N'` is read from the character after the quote. */
  lemma ReadNationalQuoted(body: string, backslashEscapes: bool)
    ensures ReadLiteral("N'" + body, backslashEscapes) == ReadQuoted(body, backslashEscapes)
  {
    var text := "N'" + body;
    assert text[..1] != "'" by { assert text[..1][0] == 'N'; }
    assert text[..2] == "N'";
    assert text[2..] == body;
  }

  /** Text that does not begin with a quote, so a closing quote before it is not doubled. */
  predicate NoLeadingQuote(rest: string) {
    |rest| == 0 || rest[0] != '\''
  }

  /** Escaping is undone by the reader: the escaped text followed by a closing quote reads
      back as exactly the original value, and reading stops right after the quote. */
  lemma {:induction false} EscapeRoundTrip(s: string, rest: string, backslashEscapes: bool)
    requires NoLeadingQuote(rest)
    ensures ReadQuoted(EscapeChars(s, backslashEscapes) + "'" + rest, backslashEscapes) == Some((s, rest))
  {
    EscapeRoundTripAfter(s, "'" + rest, rest, backslashEscapes);
    assert EscapeChars(s, backslashEscapes) + "'" + rest == EscapeChars(s, backslashEscapes) + ("'" + rest);
  }

  /** The induction behind `EscapeRoundTrip`, over the escaped text followed by `after`. */
  lemma {:induction false} EscapeRoundTripAfter(s: string, after: string, rest: string, backslashEscapes: bool)
    requires after == "'" + rest && NoLeadingQuote(rest)
    ensures ReadQuoted(EscapeChars(s, backslashEscapes) + after, backslashEscapes) == Some((s, rest))
  {
    if |s| == 0 {
      assert EscapeChars(s, backslashEscapes) + after == after;
      ReadClose(rest, backslashEscapes);
    } else {
      EscapeRoundTripAfter(s[1..], after, rest, backslashEscapes);
      EscapeCharsCons(s, after, backslashEscapes);
      ReadAfterEscape(s[0], EscapeChars(s[1..], backslashEscapes) + after, s[1..], rest, backslashEscapes);
      assert [s[0]] + s[1..] == s;
    }
  }

  /** An escaped character in front of a literal's body is read back in front of its value. */
  lemma ReadAfterEscape(c: char, tail: string, v: string, rest: string, backslashEscapes: bool)
    requires ReadQuoted(tail, backslashEscapes) == Some((v, rest))
    ensures ReadQuoted(EscapeChar(c, backslashEscapes) + tail, backslashEscapes) == Some(([c] + v, rest))
  {
    ReadEscaped(c, tail, backslashEscapes);
  }

  lemma EscapeCharsCons(s: string, after: string, backslashEscapes: bool)
    requires |s| > 0
    ensures EscapeChars(s, backslashEscapes) + after
            == EscapeChar(s[0], backslashEscapes) + (EscapeChars(s[1..], backslashEscapes) + after)
  {
  }

  /** One escaped character reads back as itself. */
  lemma ReadEscaped(c: char, t: string, backslashEscapes: bool)
    ensures ReadQuoted(EscapeChar(c, backslashEscapes) + t, backslashEscapes)
            == Prepend([c], ReadQuoted(t, backslashEscapes))
  {
    if c == '\'' {
      ReadDoubledQuote(t, backslashEscapes);
    } else if backslashEscapes && c == '\\' {
      ReadBackslash('\\', t);
    } else {
      ReadPlain(c, t, backslashEscapes);
    }
  }

  /** Escaping is injective: two values with the same escaped text are equal. */
  lemma EscapeInjective(a: string, b: string, backslashEscapes: bool)
    requires EscapeChars(a, backslashEscapes) == EscapeChars(b, backslashEscapes)
    ensures a == b
  {
    EscapeRoundTrip(a, "", backslashEscapes);
    EscapeRoundTrip(b, "", backslashEscapes);
  }

  /** Without backslashes in the value, both readers agree on the escaped text. */
  lemma {:induction false} EscapeWithoutBackslash(s: string)
    requires '\\' !in s
    ensures EscapeChars(s, true) == EscapeChars(s, false)
  {
    if |s| > 0 {
      assert s[0] != '\\';
      assert '\\' !in s[1..] by { assert forall i :: 0 <= i < |s| - 1 ==> s[1..][i] == s[i + 1]; }
      EscapeWithoutBackslash(s[1..]);
    }
  }

  /** Text without quotes (and, for a backslash-escaping reader, without backslashes) is
      its own escape. */
  lemma {:induction false} EscapeIdentity(s: string, backslashEscapes: bool)
    requires '\'' !in s
    requires backslashEscapes ==> '\\' !in s
    ensures EscapeChars(s, backslashEscapes) == s
  {
    if |s| > 0 {
      assert s[0] in s;
      assert forall i :: 0 <= i < |s| - 1 ==> s[1..][i] == s[i + 1];
      EscapeIdentity(s[1..], backslashEscapes);
      assert s == [s[0]] + s[1..];
    }
  }

  // ---------------------------------------------------------------- quoted literals

  /** A quoted literal: the opening quote, the escaped value and the closing quote. */
  function Quoted(s: string, backslashEscapes: bool): string {
    "'" + EscapeChars(s, backslashEscapes) + "'"
  }

  /** `"'" + s.replace(/'/g, "''") + "'"`: the literal with only its quotes doubled, which the
      PostgreSQL and SQL Server exporters write for strings and the MySQL exporter for JSON. */
  function QuoteDoubled(s: string): (r: string)
    ensures r == Quoted(s, false)
  {
    DoubleQuotesIsEscape(s);
    "'" + DoubleQuotes(s) + "'"
  }

  /** A quoted literal reads back as its value, whatever follows it (short of a quote that
      would extend it). */
  lemma QuotedRoundTrip(s: string, rest: string, backslashEscapes: bool)
    requires NoLeadingQuote(rest)
    ensures ReadLiteral(Quoted(s, backslashEscapes) + rest, backslashEscapes) == Some((s, rest))
  {
    EscapeRoundTrip(s, rest, backslashEscapes);
    assert Quoted(s, backslashEscapes) + rest == "'" + (EscapeChars(s, backslashEscapes) + "'" + rest);
    ReadSingleQuoted(EscapeChars(s, backslashEscapes) + "'" + rest, backslashEscapes);
  }

  // ---------------------------------------------------------------- statements

  function Columns(row: Row): (r: seq<string>)
    ensures |r| == |row|
    ensures forall i :: 0 <= i < |r| ==> r[i] == row[i].0
  {
    if |row| == 0 then [] else [row[0].0] + Columns(row[1..])
  }

  /** The literal of every value, in column order. */
  function Literals(row: Row, encode: SqlValue -> string): (r: seq<string>)
    ensures |r| == |row|
    ensures forall i :: 0 <= i < |r| ==> r[i] == encode(row[i].1)
  {
    if |row| == 0 then [] else [encode(row[0].1)] + Literals(row[1..], encode)
  }

  /** `INSERT INTO <target> (<columns>) VALUES (<values>);` and a newline. */
  function InsertStatement(target: string, row: Row, encode: SqlValue -> string): string {
    "INSERT INTO " + target + " (" + Join(Columns(row), ", ") + ") VALUES ("
      + Join(Literals(row, encode), ", ") + ");\n"
  }

  /** Column list and value list of an INSERT line up: as many values as columns, the `i`-th
      value being the literal of the `i`-th column's value. */
  lemma InsertAligned(row: Row, encode: SqlValue -> string)
    ensures |Columns(row)| == |Literals(row, encode)| == |row|
    ensures forall i :: 0 <= i < |row| ==> Columns(row)[i] == row[i].0 && Literals(row, encode)[i] == encode(row[i].1)
  {
  }

  /** One INSERT into `target` per row, in row order. */
  function Inserts(target: string, rows: seq<Row>, encode: SqlValue -> string): (r: seq<string>)
    ensures |r| == |rows|
    ensures forall i :: 0 <= i < |rows| ==> r[i] == InsertStatement(target, rows[i], encode)
  {
    seq(|rows|, i requires 0 <= i < |rows| => InsertStatement(target, rows[i], encode))
  }

  /** What the MySQL and PostgreSQL exporters write for one table: nothing when it is empty,
      otherwise a comment, the DELETE, one INSERT per row and a blank line. */
  function TableStatements(t: Table, encode: SqlValue -> string): (r: seq<string>)
    ensures |t.rows| == 0 <==> r == []
    ensures |t.rows| > 0 ==>
      && |r| == |t.rows| + 3
      && r[0] == "-- Table: " + t.name + "\n"
      && r[1] == "DELETE FROM " + t.name + ";\n"
      && (forall i :: 0 <= i < |t.rows| ==> r[i + 2] == InsertStatement(t.name, t.rows[i], encode))
      && r[|r| - 1] == "\n"
  {
    if |t.rows| == 0 then []
    else ["-- Table: " + t.name + "\n", "DELETE FROM " + t.name + ";\n"] + Inserts(t.name, t.rows, encode) + ["\n"]
  }

  /** The text of each table, in table order, as a dialect's `statements` writes it. */
  function Sections(tables: seq<Table>, statements: Table -> seq<string>): (r: seq<string>)
    ensures |r| == |tables|
    ensures forall i :: 0 <= i < |tables| ==> r[i] == Concat(statements(tables[i]))
  {
    seq(|tables|, i requires 0 <= i < |tables| => Concat(statements(tables[i])))
  }

  lemma SectionsAppend(a: seq<Table>, b: seq<Table>, statements: Table -> seq<string>)
    ensures Sections(a + b, statements) == Sections(a, statements) + Sections(b, statements)
  {
    forall i | 0 <= i < |a + b|
      ensures Sections(a + b, statements)[i] == (Sections(a, statements) + Sections(b, statements))[i]
    {
      if i >= |a| {
        assert (a + b)[i] == b[i - |a|];
      }
    }
  }

  /** A table for which a dialect writes nothing leaves no trace in the tables' text. */
  lemma SkipsEmptyTable(before: seq<Table>, t: Table, after: seq<Table>, statements: Table -> seq<string>)
    requires statements(t) == []
    ensures Concat(Sections(before + [t] + after, statements)) == Concat(Sections(before + after, statements))
  {
    SectionsAppend(before + [t], after, statements);
    SectionsAppend(before, [t], statements);
    SectionsAppend(before, after, statements);
    assert Sections([t], statements) == [""];
    ConcatDropEmpty(Sections(before, statements), Sections(after, statements));
  }

  function Concat(parts: seq<string>): string {
    if |parts| == 0 then "" else parts[0] + Concat(parts[1..])
  }

  lemma {:induction false} ConcatAppend(a: seq<string>, b: seq<string>)
    ensures Concat(a + b) == Concat(a) + Concat(b)
  {
    if |a| == 0 {
      assert a + b == b;
    } else {
      assert (a + b)[1..] == a[1..] + b;
      ConcatAppend(a[1..], b);
    }
  }

  /** An empty part contributes nothing. */
  lemma ConcatDropEmpty(a: seq<string>, b: seq<string>)
    ensures Concat(a + [""] + b) == Concat(a + b)
  {
    ConcatAppend(a + [""], b);
    ConcatAppend(a, [""]);
    ConcatAppend(a, b);
  }
}
