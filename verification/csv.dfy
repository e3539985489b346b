/** The CSV export of the audit screen (`AuditController.exportAuditData`
    and `escapeCsv`). Fields follow section 2 of RFC 4180: a field holding a
    comma, a double quote or a line break is enclosed in double quotes
    (rule 6), and a double quote inside it is written twice (rule 7).

    `Read` is a reader for one such row, so that what the writer promises
    can be stated as a round trip: the row read back gives the cells that
    were written. */
module Csv {
  import opened Common
  import opened Text

  // ---------------------------------------------------------------------
  // Escaping one field
  // ---------------------------------------------------------------------

  /** The characters that force quoting: comma, double quote, line feed.
      A lone carriage return does not. */
  predicate IsSpecial(c: char) {
    c == ',' || c == '"' || c == '\n'
  }

  predicate NeedsQuotes(s: string) {
    exists i :: 0 <= i < |s| && IsSpecial(s[i])
  }

  /** `s.replace("\"", "\"\"")`. */
  function DoubleQuotes(s: string): (r: string)
    ensures |r| >= |s|
    decreases |s|
  {
    if s == [] then []
    else (if s[0] == '"' then "\"\"" else [s[0]]) + DoubleQuotes(s[1..])
  }

  /** `escapeCsv`: a null cell is empty; a cell without special characters
      is written as it is; any other is quoted with its quotes doubled. */
  function EscapeCsv(v: Option<string>): (r: string)
    ensures v.None? ==> r == ""
    ensures v.Some? ==> (r == v.value <==> !NeedsQuotes(v.value))
    ensures v.Some? && NeedsQuotes(v.value) ==> |r| >= 2 && r[0] == '"' && r[|r| - 1] == '"'
  {
    match v
    case None => ""
    case Some(s) => if NeedsQuotes(s) then "\"" + DoubleQuotes(s) + "\"" else s
  }

  // ---------------------------------------------------------------------
  // Reading a row back
  // ---------------------------------------------------------------------

  /** Reads an unquoted field: everything up to the next comma. */
  function ReadPlain(s: string): (r: (string, string))
    ensures r.0 + r.1 == s
    ensures r.1 == [] || r.1[0] == ','
    decreases |s|
  {
    if s == [] || s[0] == ',' then ([], s)
    else
      var (f, rest) := ReadPlain(s[1..]);
      assert [s[0]] + f + rest == [s[0]] + s[1..];
      ([s[0]] + f, rest)
  }

  /** Reads the inside of a quoted field, after its opening quote: a pair
      of quotes stands for one, a single quote closes the field. An
      unterminated field takes the rest of the line. */
  function ReadQuoted(s: string): (r: (string, string))
    ensures |r.1| <= |s|
    decreases |s|
  {
    if s == [] then ([], [])
    else if s[0] == '"' then
      if |s| >= 2 && s[1] == '"' then
        var (f, rest) := ReadQuoted(s[2..]);
        (['"'] + f, rest)
      else ([], s[1..])
    else
      var (f, rest) := ReadQuoted(s[1..]);
      ([s[0]] + f, rest)
  }

  /** Reads one field and returns what follows it. */
  function ReadField(s: string): (r: (string, string))
    ensures |r.1| <= |s|
  {
    if s != [] && s[0] == '"' then ReadQuoted(s[1..]) else ReadPlain(s)
  }

  /** Reads a row (without its line terminator) into its fields; the
      character after each field is taken as the separator. */
  function Read(s: string): (r: seq<string>)
    ensures |r| >= 1
    decreases |s|
  {
    var (f, rest) := ReadField(s);
    if rest == [] then [f] else [f] + Read(rest[1..])
  }

  /** Cells joined by commas, as `String.format("%s,%s,...")` does. */
  function Join(cells: seq<string>): (r: string)
    decreases |cells|
  {
    if |cells| <= 1 then (if cells == [] then "" else cells[0])
    else cells[0] + "," + Join(cells[1..])
  }

  /** Every cell escaped; each escaped cell, read on its own, is one field
      holding exactly the original cell. */
  function EscapeAll(cells: seq<string>): (r: seq<string>)
    ensures |r| == |cells|
    ensures forall i :: 0 <= i < |cells| ==> r[i] == EscapeCsv(Some(cells[i]))
    ensures forall i :: 0 <= i < |cells| ==> ReadField(r[i]) == (cells[i], [])
  {
    var r := seq(|cells|, i requires 0 <= i < |cells| => EscapeCsv(Some(cells[i])));
    forall i | 0 <= i < |cells|
      ensures ReadField(r[i]) == (cells[i], [])
    {
      ReadFieldBack(cells[i], []);
      assert r[i] + [] == r[i];
    }
    r
  }

  /** A field without special characters reads back as itself. */
  lemma {:induction false} ReadPlainBack(s: string, t: string)
    requires !NeedsQuotes(s)
    requires t == [] || t[0] == ','
    ensures ReadPlain(s + t) == (s, t)
    decreases |s|
  {
    if s == [] {
      assert s + t == t;
    } else {
      assert (s + t)[0] == s[0] && !IsSpecial(s[0]);
      assert (s + t)[1..] == s[1..] + t;
      ReadPlainBack(s[1..], t);
      assert s == [s[0]] + s[1..];
    }
  }

  /** The inside of a quoted field, with its quotes doubled and a closing
      quote after it, reads back as the original. */
  lemma {:induction false} ReadQuotedBack(s: string, t: string)
    requires t == [] || t[0] != '"'
    ensures ReadQuoted(DoubleQuotes(s) + "\"" + t) == (s, t)
    decreases |s|
  {
    var w := DoubleQuotes(s) + "\"" + t;
    if s == [] {
      assert w == "\"" + t;
      assert w[1..] == t;
    } else if s[0] == '"' {
      assert w == "\"\"" + (DoubleQuotes(s[1..]) + "\"" + t);
      assert w[2..] == DoubleQuotes(s[1..]) + "\"" + t;
      ReadQuotedBack(s[1..], t);
      assert s == ['"'] + s[1..];
    } else {
      assert w == [s[0]] + (DoubleQuotes(s[1..]) + "\"" + t);
      assert w[1..] == DoubleQuotes(s[1..]) + "\"" + t;
      ReadQuotedBack(s[1..], t);
      assert s == [s[0]] + s[1..];
    }
  }

  /** An escaped field followed by a separator (or nothing) reads back as
      the original cell. */
  lemma ReadFieldBack(s: string, t: string)
    requires t == [] || t[0] == ','
    ensures ReadField(EscapeCsv(Some(s)) + t) == (s, t)
  {
    if NeedsQuotes(s) {
      QuotedFieldBack(s, t);
    } else {
      PlainFieldBack(s, t);
    }
  }

  /** A quoted field reads back through its opening quote. */
  lemma QuotedFieldBack(s: string, t: string)
    requires NeedsQuotes(s)
    requires t == [] || t[0] == ','
    ensures ReadField(EscapeCsv(Some(s)) + t) == (s, t)
  {
    var body := DoubleQuotes(s) + "\"" + t;
    assert EscapeCsv(Some(s)) + t == "\"" + body;
    ReadAfterQuote(body);
    ReadQuotedBack(s, t);
  }

  /** A field opening with a quote is read as a quoted field. */
  lemma ReadAfterQuote(body: string)
    ensures ReadField("\"" + body) == ReadQuoted(body)
  {
    assert ("\"" + body)[1..] == body;
  }

  /** A field left unquoted does not start with a quote, so it is read as
      a plain field. */
  lemma PlainFieldBack(s: string, t: string)
    requires !NeedsQuotes(s)
    requires t == [] || t[0] == ','
    ensures ReadField(EscapeCsv(Some(s)) + t) == (s, t)
  {
    ReadPlainBack(s, t);
    assert s != [] ==> !IsSpecial(s[0]);
    assert (s + t) != [] && (s + t)[0] == '"' ==> s == [] by {
      if s != [] {
        assert (s + t)[0] == s[0];
      }
    }
  }

  /** Section 2 of RFC 4180, rules 6 and 7, as a round trip: a row of
      escaped cells reads back as exactly those cells, whatever they
      contain. */
  lemma {:induction false} EscapedRowReadsBack(cells: seq<string>)
    requires |cells| >= 1
    ensures Read(Join(EscapeAll(cells))) == cells
    decreases |cells|
  {
    var es := EscapeAll(cells);
    if |cells| == 1 {
      assert Join(es) == EscapeCsv(Some(cells[0])) + [];
      ReadFieldBack(cells[0], []);
    } else {
      var t := "," + Join(es[1..]);
      assert Join(es) == EscapeCsv(Some(cells[0])) + t;
      ReadFieldBack(cells[0], t);
      assert t[1..] == Join(es[1..]);
      assert es[1..] == EscapeAll(cells[1..]);
      EscapedRowReadsBack(cells[1..]);
    }
  }

  // ---------------------------------------------------------------------
  // The rows of the export
  // ---------------------------------------------------------------------

  /** One element of the exported `data`, as the client sends it back: the
      entries the rows use, each possibly null. */
  datatype Item = Item(
    createdAt: Option<string>,
    userName: Option<string>,
    action: Option<string>,
    details: Option<string>,
    ip: Option<string>,
    event: Option<string>,
    severity: Option<string>)

  /** What `%s` prints for an entry: its text, or "null". */
  function Shown(v: Option<string>): string {
    v.GetOr("null")
  }

  /** The text each column of a log row is meant to carry. */
  function LogCells(it: Item): (r: seq<string>)
    ensures |r| == 5
  {
    [Shown(it.createdAt), Shown(it.userName), it.action.GetOr(""), it.details.GetOr(""), Shown(it.ip)]
  }

  /** The text each column of a security row is meant to carry. */
  function SecurityCells(it: Item): (r: seq<string>)
    ensures |r| == 5
  {
    [Shown(it.createdAt), Shown(it.userName), it.event.GetOr(""), Shown(it.severity), it.details.GetOr("")]
  }

  /** A log row as the source writes it: only action and details are
      escaped; date, user name and address are printed raw. */
  function LogRowAsWritten(it: Item): (r: string)
    ensures |r| >= 1 && r[|r| - 1] == '\n'
  {
    Join([Shown(it.createdAt), Shown(it.userName), EscapeCsv(it.action), EscapeCsv(it.details), Shown(it.ip)]) + "\n"
  }

  /** A security row as the source writes it: only event and details are
      escaped. */
  function SecurityRowAsWritten(it: Item): (r: string)
    ensures |r| >= 1 && r[|r| - 1] == '\n'
  {
    Join([Shown(it.createdAt), Shown(it.userName), EscapeCsv(it.event), Shown(it.severity), EscapeCsv(it.details)]) + "\n"
  }

  /** A log row with every cell escaped. */
  function LogRow(it: Item): (r: string)
    ensures |r| >= 1 && r[|r| - 1] == '\n'
    ensures Read(r[..|r| - 1]) == LogCells(it)
  {
    var r := Join(EscapeAll(LogCells(it))) + "\n";
    assert r[..|r| - 1] == Join(EscapeAll(LogCells(it)));
    EscapedRowReadsBack(LogCells(it));
    r
  }

  /** A security row with every cell escaped. */
  function SecurityRow(it: Item): (r: string)
    ensures |r| >= 1 && r[|r| - 1] == '\n'
    ensures Read(r[..|r| - 1]) == SecurityCells(it)
  {
    var r := Join(EscapeAll(SecurityCells(it))) + "\n";
    assert r[..|r| - 1] == Join(EscapeAll(SecurityCells(it)));
    EscapedRowReadsBack(SecurityCells(it));
    r
  }

  /** Where the raw cells need no quoting, the rows as written and the
      fully escaped rows are the same text. */
  lemma RowsAgreeOnPlainCells(it: Item)
    ensures (!NeedsQuotes(Shown(it.createdAt)) && !NeedsQuotes(Shown(it.userName)) && !NeedsQuotes(Shown(it.ip)))
            ==> LogRowAsWritten(it) == LogRow(it)
    ensures (!NeedsQuotes(Shown(it.createdAt)) && !NeedsQuotes(Shown(it.userName)) && !NeedsQuotes(Shown(it.severity)))
            ==> SecurityRowAsWritten(it) == SecurityRow(it)
  {
    if !NeedsQuotes(Shown(it.createdAt)) && !NeedsQuotes(Shown(it.userName)) && !NeedsQuotes(Shown(it.ip)) {
      LogRowOfPlain(it);
    }
    if !NeedsQuotes(Shown(it.createdAt)) && !NeedsQuotes(Shown(it.userName)) && !NeedsQuotes(Shown(it.severity)) {
      SecurityRowOfPlain(it);
    }
  }

  /** Escaping the cells of a log row whose raw cells are plain changes
      only action and details. */
  lemma LogRowOfPlain(it: Item)
    requires !NeedsQuotes(Shown(it.createdAt)) && !NeedsQuotes(Shown(it.userName)) && !NeedsQuotes(Shown(it.ip))
    ensures EscapeAll(LogCells(it))
         == [Shown(it.createdAt), Shown(it.userName), EscapeCsv(it.action), EscapeCsv(it.details), Shown(it.ip)]
  {
    assert !NeedsQuotes("");
  }

  /** Escaping the cells of a security row whose raw cells are plain
      changes only event and details. */
  lemma SecurityRowOfPlain(it: Item)
    requires !NeedsQuotes(Shown(it.createdAt)) && !NeedsQuotes(Shown(it.userName)) && !NeedsQuotes(Shown(it.severity))
    ensures EscapeAll(SecurityCells(it))
         == [Shown(it.createdAt), Shown(it.userName), EscapeCsv(it.event), Shown(it.severity), EscapeCsv(it.details)]
  {
    assert !NeedsQuotes("");
  }

  /** A cell without special characters, followed by a comma, is read as
      one column and reading goes on after the comma. */
  lemma ReadPlainCell(c: string, rest: string)
    requires !NeedsQuotes(c)
    ensures Read(c + "," + rest) == [c] + Read(rest)
    ensures Read(c) == [c]
  {
    ReadPlainBack(c, "," + rest);
    assert c + "," + rest == c + ("," + rest);
    assert ("," + rest)[1..] == rest;
    ReadPlainBack(c, []);
    assert c + [] == c;
    assert c != [] ==> !IsSpecial(c[0]);
  }

  /** A user name with a comma, e.g. "Ana, Bo", is written raw by the
      source and the row reads back as six columns instead of five. */
  lemma CommaInUserNameSplitsRow()
    ensures var it := Item(Some("d"), Some("a,b"), None, None, Some("i"), None, None);
      var row := LogRowAsWritten(it);
      |Read(row[..|row| - 1])| == 6 && |Read(LogRow(it)[..|LogRow(it)| - 1])| == 5
  {
    var it := Item(Some("d"), Some("a,b"), None, None, Some("i"), None, None);
    RawCommaRowReadsSix();
    assert |LogCells(it)| == 5;
  }

  /** The raw row of that item reads back as six cells. */
  lemma RawCommaRowReadsSix()
    ensures var row := LogRowAsWritten(Item(Some("d"), Some("a,b"), None, None, Some("i"), None, None));
      |Read(row[..|row| - 1])| == 6
  {
    var it := Item(Some("d"), Some("a,b"), None, None, Some("i"), None, None);
    var row := LogRowAsWritten(it);
    assert row[..|row| - 1] == "d" + "," + ("a" + "," + ("b" + "," + ("" + "," + ("" + "," + "i"))));
    assert !NeedsQuotes("d") && !NeedsQuotes("a") && !NeedsQuotes("b") && !NeedsQuotes("") && !NeedsQuotes("i");
    ReadPlainCell("i", "");
    ReadPlainCell("", "i");
    ReadPlainCell("", "" + "," + "i");
    ReadPlainCell("b", "" + "," + ("" + "," + "i"));
    ReadPlainCell("a", "b" + "," + ("" + "," + ("" + "," + "i")));
    ReadPlainCell("d", "a" + "," + ("b" + "," + ("" + "," + ("" + "," + "i"))));
  }

  // ---------------------------------------------------------------------
  // The export
  // ---------------------------------------------------------------------

  /** The header line of each export. */
  const LogHeader: string := "Fecha,Usuario,Acci√≥n,Detalles,IP\n"
  const SecurityHeader: string := "Fecha,Usuario,Evento,Severidad,Detalles\n"

  /** What the export sends back: CSV text or the data unchanged as JSON. */
  datatype Export = CsvFile(content: string) | JsonFile(items: seq<Item>)

  /** The rows of the export as the source writes them; `type` other
      than "logs" (null included) gives security rows. */
  function Rows(kind: Option<string>, data: seq<Item>): (r: seq<string>)
    ensures |r| == |data|
    ensures forall i :: 0 <= i < |data| ==>
      r[i] == if kind == Some("logs") then LogRowAsWritten(data[i]) else SecurityRowAsWritten(data[i])
    ensures forall i :: 0 <= i < |data| && RawCellsPlain(kind, data[i]) ==> r[i] == EscapedRows(kind, data)[i]
  {
    var r := seq(|data|, i requires 0 <= i < |data| =>
      if kind == Some("logs") then LogRowAsWritten(data[i]) else SecurityRowAsWritten(data[i]));
    forall i | 0 <= i < |data| && RawCellsPlain(kind, data[i])
      ensures r[i] == EscapedRows(kind, data)[i]
    {
      RowsAgreeOnPlainCells(data[i]);
    }
    r
  }

  /** The rows with every cell escaped: each row, without its final line
      feed, reads back as its item's five cells. */
  function EscapedRows(kind: Option<string>, data: seq<Item>): (r: seq<string>)
    ensures |r| == |data|
    ensures forall i :: 0 <= i < |data| ==>
      r[i] == if kind == Some("logs") then LogRow(data[i]) else SecurityRow(data[i])
    ensures forall i :: 0 <= i < |data| ==>
      |r[i]| >= 1 && Read(r[i][..|r[i]| - 1]) == (if kind == Some("logs") then LogCells(data[i]) else SecurityCells(data[i]))
  {
    seq(|data|, i requires 0 <= i < |data| => if kind == Some("logs") then LogRow(data[i]) else SecurityRow(data[i]))
  }

  function Concat(rows: seq<string>): string
    decreases |rows|
  {
    if rows == [] then "" else rows[0] + Concat(rows[1..])
  }

  /** The header of the export of `kind`. */
  function Header(kind: Option<string>): string {
    if kind == Some("logs") then LogHeader else SecurityHeader
  }

  /** The export of `data` as `format`, the CSV text made of `rows`: no
      data (null or empty) is refused first; then "csv" and "json", in any
      case, are the only formats. */
  function Exported(kind: Option<string>, data: Option<seq<Item>>, format: string,
                    rows: seq<Item> -> seq<string>): (r: Result<Export>)
    ensures (data.None? || data.value == []) ==> r == Err(NoData)
    ensures r.Ok? <==> data.Some? && data.value != [] && (EqualsIgnoreCase(format, "csv") || EqualsIgnoreCase(format, "json"))
    ensures r.Err? ==> r.error in {NoData, UnsupportedFormat}
    ensures r.Ok? && r.value.JsonFile? ==> r.value.items == data.value
    ensures r.Ok? && EqualsIgnoreCase(format, "csv") ==>
      r.value.CsvFile? && r.value.content == Header(kind) + Concat(rows(data.value))
  {
    if data.None? || data.value == [] then Err(NoData)
    else if EqualsIgnoreCase(format, "csv") then Ok(CsvFile(Header(kind) + Concat(rows(data.value))))
    else if EqualsIgnoreCase(format, "json") then Ok(JsonFile(data.value))
    else Err(UnsupportedFormat)
  }

  /** `exportAuditData`, with the rows as the source writes them. */
  function ExportAudit(kind: Option<string>, data: Option<seq<Item>>, format: string): (r: Result<Export>)
    ensures (data.None? || data.value == []) ==> r == Err(NoData)
    ensures r.Ok? <==> data.Some? && data.value != [] && (EqualsIgnoreCase(format, "csv") || EqualsIgnoreCase(format, "json"))
    ensures r.Err? ==> r.error in {NoData, UnsupportedFormat}
    ensures r.Ok? && r.value.JsonFile? ==> r.value.items == data.value
    ensures r.Ok? && EqualsIgnoreCase(format, "csv") ==>
      r.value.CsvFile? && r.value.content == Header(kind) + Concat(Rows(kind, data.value))
  {
    Exported(kind, data, format, d => Rows(kind, d))
  }

  /** The export with every cell escaped, so that each row reads back as
      its item's cells. */
  function ExportAuditEscaped(kind: Option<string>, data: Option<seq<Item>>, format: string): (r: Result<Export>)
    ensures r.Ok? <==> data.Some? && data.value != [] && (EqualsIgnoreCase(format, "csv") || EqualsIgnoreCase(format, "json"))
    ensures r.Ok? && EqualsIgnoreCase(format, "csv") ==>
      r.value.CsvFile? && r.value.content == Header(kind) + Concat(EscapedRows(kind, data.value))
  {
    Exported(kind, data, format, d => EscapedRows(kind, d))
  }

  /** Each row of the escaped export reads back as the cells of its item. */
  lemma ExportedRowsReadBack(kind: Option<string>, data: seq<Item>, i: int)
    requires 0 <= i < |data|
    ensures var row := EscapedRows(kind, data)[i];
      |row| >= 1 && Read(row[..|row| - 1]) == (if kind == Some("logs") then LogCells(data[i]) else SecurityCells(data[i]))
  {
  }

  /** The cells the source prints raw in a row of `kind` need no quoting. */
  predicate RawCellsPlain(kind: Option<string>, it: Item) {
    && !NeedsQuotes(Shown(it.createdAt)) && !NeedsQuotes(Shown(it.userName))
    && (if kind == Some("logs") then !NeedsQuotes(Shown(it.ip)) else !NeedsQuotes(Shown(it.severity)))
  }

  /** When no raw cell needs quoting the source's export is the escaped
      one, so each of its rows reads back as its item's cells. */
  lemma ExportsAgreeOnPlainCells(kind: Option<string>, data: seq<Item>, format: string)
    requires forall i :: 0 <= i < |data| ==> RawCellsPlain(kind, data[i])
    ensures ExportAudit(kind, Some(data), format) == ExportAuditEscaped(kind, Some(data), format)
    ensures forall i :: 0 <= i < |data| ==> var row := Rows(kind, data)[i];
      Read(row[..|row| - 1]) == (if kind == Some("logs") then LogCells(data[i]) else SecurityCells(data[i]))
  {
    forall i | 0 <= i < |data|
      ensures Rows(kind, data)[i] == EscapedRows(kind, data)[i]
    {
      RowsAgreeOnPlainCells(data[i]);
    }
    assert Rows(kind, data) == EscapedRows(kind, data);
  }

  /** The export of one log whose author is named "a,b" is the raw row
      under the header, and it differs from the escaped export. */
  lemma ExportSplitsCommaUserName()
    ensures var it := Item(Some("d"), Some("a,b"), None, None, Some("i"), None, None);
      && ExportAudit(Some("logs"), Some([it]), "csv") == Ok(CsvFile(LogHeader + LogRowAsWritten(it)))
      && ExportAudit(Some("logs"), Some([it]), "csv") != ExportAuditEscaped(Some("logs"), Some([it]), "csv")
  {
    var it := Item(Some("d"), Some("a,b"), None, None, Some("i"), None, None);
    OneLogExport(it);
    CommaInUserNameSplitsRow();
    assert LogRowAsWritten(it) != LogRow(it);
    SuffixDecides(LogHeader, LogRowAsWritten(it), LogRow(it));
  }

  /** The csv exports of a single log, as written and escaped. */
  lemma OneLogExport(it: Item)
    ensures ExportAudit(Some("logs"), Some([it]), "csv") == Ok(CsvFile(LogHeader + LogRowAsWritten(it)))
    ensures ExportAuditEscaped(Some("logs"), Some([it]), "csv") == Ok(CsvFile(LogHeader + LogRow(it)))
  {
    assert EqualsIgnoreCase("csv", "csv");
    OneLogRow(it);
  }

  /** The rows of a single log, as written and escaped. */
  lemma OneLogRow(it: Item)
    ensures Concat(Rows(Some("logs"), [it])) == LogRowAsWritten(it)
    ensures Concat(EscapedRows(Some("logs"), [it])) == LogRow(it)
  {
    assert Rows(Some("logs"), [it]) == [LogRowAsWritten(it)];
    assert Concat([LogRowAsWritten(it)]) == LogRowAsWritten(it) + Concat([]);
    assert EscapedRows(Some("logs"), [it]) == [LogRow(it)];
    assert Concat([LogRow(it)]) == LogRow(it) + Concat([]);
  }

  /** Two texts after the same prefix are equal only if they are. */
  lemma SuffixDecides(p: string, a: string, b: string)
    requires a != b
    ensures p + a != p + b
  {
    assert a == (p + a)[|p|..];
    assert b == (p + b)[|p|..];
  }
}
