/** The CSV reader and writer of src/lib/internUtils.ts: `parseCSV` as a
    character scanner, `escapeCSV` and `toCSV`, and the facts that tie them
    together. */
module InternCsv {
  import opened Strings
  import opened Types
  import opened InternUtils

  // ------------------------------------------------------------------ parser

  /** The scanner's state: finished rows, the cells of the open row, the open
      cell, and whether a quoted section is open. */
  datatype Scan = Scan(rows: seq<seq<string>>, row: seq<string>, cur: string, inQuotes: bool)

  const Start := Scan([], [], "", false)

  /** No cell held by the state contains a carriage return. */
  predicate NoCr(st: Scan) {
    '\r' !in st.cur
    && (forall j :: 0 <= j < |st.row| ==> '\r' !in st.row[j])
    && (forall i, j :: 0 <= i < |st.rows| && 0 <= j < |st.rows[i]| ==> '\r' !in st.rows[i][j])
  }

  /** The number of characters one step of the scanning loop consumes: two for
      a doubled quote, otherwise one. */
  function Width(s: string): (w: nat)
    requires s != []
    ensures 1 <= w <= |s|
  {
    if s[0] == '"' && |s| > 1 && s[1] == '"' then 2 else 1
  }

  /** One step of the scanning loop of `parseCSV`. A doubled quote is a literal
      quote (inside or outside a quoted section), a single quote toggles the
      quoted section, an unquoted comma closes the cell, an unquoted line feed
      closes the row, and a carriage return is dropped. */
  function Next(s: string, st: Scan): Scan
    requires s != []
  {
    if s[0] == '"' && |s| > 1 && s[1] == '"' then st.(cur := st.cur + "\"")
    else if s[0] == '"' then st.(inQuotes := !st.inQuotes)
    else if s[0] == ',' && !st.inQuotes then st.(row := st.row + [st.cur], cur := "")
    else if s[0] == '\n' && !st.inQuotes then Scan(st.rows + [st.row + [st.cur]], [], "", st.inQuotes)
    else if s[0] == '\r' then st
    else st.(cur := st.cur + [s[0]])
  }

  /** The scanning loop of `parseCSV` run over `s` from state `st`. */
  function Feed(s: string, st: Scan): Scan
    decreases |s|
  {
    if s == [] then st else Feed(s[Width(s)..], Next(s, st))
  }

  /** Scanning only appends rows, each with at least one cell, and never
      brings in a carriage return. */
  lemma {:induction false} FeedAppendsRows(s: string, st: Scan)
    ensures var r := Feed(s, st);
      |st.rows| <= |r.rows| && r.rows[..|st.rows|] == st.rows
      && (forall i :: |st.rows| <= i < |r.rows| ==> |r.rows[i]| >= 1)
      && (NoCr(st) ==> NoCr(r))
    decreases |s|
  {
    if s != [] {
      assert s[0] == '\r' ==> s == "\r" + s[1..];
      if s[0] == '"' && |s| > 1 && s[1] == '"' {
        FeedAppendsRows(s[2..], st.(cur := st.cur + "\""));
      } else if s[0] == '"' {
        FeedAppendsRows(s[1..], st.(inQuotes := !st.inQuotes));
      } else if s[0] == ',' && !st.inQuotes {
        FeedAppendsRows(s[1..], st.(row := st.row + [st.cur], cur := ""));
      } else if s[0] == '\n' && !st.inQuotes {
        FeedAppendsRows(s[1..], Scan(st.rows + [st.row + [st.cur]], [], "", st.inQuotes));
      } else if s[0] == '\r' {
        FeedAppendsRows(s[1..], st);
      } else {
        FeedAppendsRows(s[1..], st.(cur := st.cur + [s[0]]));
      }
    }
  }

  /** After the loop: an open row, or a non-empty open cell, becomes the last row. */
  function Finish(st: Scan): (rows: seq<seq<string>>)
    ensures |st.cur| > 0 || |st.row| > 0 ==> rows == st.rows + [st.row + [st.cur]]
    ensures |st.cur| == 0 && |st.row| == 0 ==> rows == st.rows
  {
    if |st.cur| > 0 || |st.row| > 0 then st.rows + [st.row + [st.cur]] else st.rows
  }

  /** `parseCSV(text)`: every row has at least one cell, and no cell holds a
      carriage return. */
  function CsvRows(text: string): (rows: seq<seq<string>>)
    ensures forall i :: 0 <= i < |rows| ==> |rows[i]| >= 1
    ensures forall i, j :: 0 <= i < |rows| && 0 <= j < |rows[i]| ==> '\r' !in rows[i][j]
  {
    FeedAppendsRows(text, Start);
    Finish(Feed(text, Start))
  }

  /** `parseCSV` as the source writes it: one pass with an index, a doubled
      quote consuming two characters. */
  method ParseCsv(text: string) returns (rows: seq<seq<string>>)
    ensures rows == CsvRows(text)
  {
    rows := [];
    var current := "";
    var row: seq<string> := [];
    var inQuotes := false;
    var i := 0;
    while i < |text|
      invariant 0 <= i <= |text|
      invariant Feed(text[i..], Scan(rows, row, current, inQuotes)) == Feed(text, Start)
      decreases |text| - i
    {
      var ch := text[i];
      assert text[i..][0] == ch && text[i..][1..] == text[i + 1..];
      if ch == '"' && i + 1 < |text| && text[i + 1] == '"' {
        assert text[i..][2..] == text[i + 2..];
        current := current + "\"";
        i := i + 2;
        continue;
      }
      if ch == '"' {
        inQuotes := !inQuotes;
        i := i + 1;
        continue;
      }
      if ch == ',' && !inQuotes {
        row := row + [current];
        current := "";
        i := i + 1;
        continue;
      }
      if ch == '\n' && !inQuotes {
        row := row + [current];
        rows := rows + [row];
        row := [];
        current := "";
        i := i + 1;
        continue;
      }
      if ch == '\r' {
        i := i + 1;
        continue;
      }
      current := current + [ch];
      i := i + 1;
    }
    assert text[i..] == [];
    if |current| > 0 || |row| > 0 {
      row := row + [current];
      rows := rows + [row];
    }
  }

  // ------------------------------------------------------------------ writer

  /** `value.replace(/"/g, '""')`: every double quote doubled. */
  function DoubleQuotes(value: string): (r: string)
    ensures |r| >= |value|
    ensures '"' !in value ==> r == value
  {
    if value == [] then []
    else
      var rest := DoubleQuotes(value[1..]);
      assert '"' !in value ==> value == [value[0]] + value[1..];
      (if value[0] == '"' then "\"\"" else [value[0]]) + rest
  }

  /** A cell needs quoting when it holds a quote, a comma or a line feed. */
  predicate NeedsQuotes(value: string) {
    Has(value, '"') || Has(value, ',') || Has(value, '\n')
  }

  /** `escapeCSV(value)`: a cell that needs it is wrapped in quotes with its
      quotes doubled; any other cell is written as it is. */
  function EscapeCsv(value: string): (r: string)
    ensures !NeedsQuotes(value) ==> r == value
    ensures NeedsQuotes(value) ==> |r| >= |value| + 2 && r[0] == '"' && r[|r| - 1] == '"'
  {
    if NeedsQuotes(value) then "\"" + DoubleQuotes(value) + "\"" else value
  }

  /** The header line's cells. */
  const HeaderCells: seq<string> :=
    ["id", "name", "role", "email", "phone", "projects", "manager", "startDate", "performance", "skills", "department"]

  /** The cells `toCSV` writes for one intern; the two lists are joined with
      ` | ` and the image URL is not exported. */
  function Fields(x: Intern): seq<string> {
    [x.id, x.name, x.role, x.email, x.phone, ListCellText(x.projects), x.manager,
     x.startDate, x.performance, ListCellText(x.skills), x.department]
  }

  /** `row.map(escapeCSV).join(',')` */
  function EscRow(cells: seq<string>): string {
    Join(seq(|cells|, i requires 0 <= i < |cells| => EscapeCsv(cells[i])), ",")
  }

  /** The lines of the export: the header, then one line per intern. */
  function CsvLines(interns: seq<Intern>): seq<string> {
    [Join(HeaderCells, ",")] + InternLines(interns)
  }

  function InternLines(interns: seq<Intern>): seq<string> {
    seq(|interns|, i requires 0 <= i < |interns| => EscRow(Fields(interns[i])))
  }

  /** `toCSV(interns)`: the lines joined with line feeds. */
  function CsvText(interns: seq<Intern>): string {
    Join(CsvLines(interns), "\n")
  }

  /** `toCSV` as the source writes it: the header line, then a line pushed per intern. */
  method ToCsv(interns: seq<Intern>) returns (text: string)
    ensures text == CsvText(interns)
  {
    var lines := [Join(HeaderCells, ",")];
    var i := 0;
    while i < |interns|
      invariant 0 <= i <= |interns|
      invariant lines == CsvLines(interns[..i])
    {
      CsvLinesStep(interns, i);
      lines := lines + [EscRow(Fields(interns[i]))];
      i := i + 1;
    }
    assert interns[..i] == interns;
    text := Join(lines, "\n");
  }

  lemma CsvLinesStep(xs: seq<Intern>, i: nat)
    requires i < |xs|
    ensures CsvLines(xs[..i + 1]) == CsvLines(xs[..i]) + [EscRow(Fields(xs[i]))]
  {
    assert InternLines(xs[..i + 1]) == InternLines(xs[..i]) + [EscRow(Fields(xs[i]))];
  }

  // ------------------------------------------------------- scanner steps

  lemma FeedPair(t: string, st: Scan)
    ensures Feed("\"\"" + t, st) == Feed(t, st.(cur := st.cur + "\""))
  {
    assert ("\"\"" + t)[2..] == t;
  }

  lemma FeedToggle(t: string, st: Scan)
    requires t == [] || t[0] != '"'
    ensures Feed("\"" + t, st) == Feed(t, st.(inQuotes := !st.inQuotes))
  {
    assert ("\"" + t)[1..] == t;
  }

  lemma FeedChar(c: char, t: string, st: Scan)
    requires c != '"' && c != '\r'
    requires st.inQuotes || (c != ',' && c != '\n')
    ensures Feed([c] + t, st) == Feed(t, st.(cur := st.cur + [c]))
  {
    assert ([c] + t)[1..] == t;
  }

  lemma FeedComma(t: string, st: Scan)
    requires !st.inQuotes
    ensures Feed("," + t, st) == Feed(t, st.(row := st.row + [st.cur], cur := ""))
  {
    assert ("," + t)[1..] == t;
  }

  lemma FeedNewline(t: string, st: Scan)
    requires !st.inQuotes
    ensures Feed("\n" + t, st) == Feed(t, Scan(st.rows + [st.row + [st.cur]], [], "", false))
  {
    assert ("\n" + t)[1..] == t;
  }

  // ------------------------------------------------------------ round trip

  /** A cell made of double quotes alone. */
  predicate QuotesOnly(f: string) {
    |f| > 0 && forall k :: 0 <= k < |f| ==> f[k] == '"'
  }

  /** The cells the export writes in a form the parser reads back unchanged. */
  predicate CsvSafe(f: string) {
    '\r' !in f && !QuotesOnly(f)
  }

  /** Inside a quoted section, the doubled text and its closing quote give
      back the cell's characters and close the section. */
  lemma {:induction false} FeedQuoted(h: string, rest: string, st: Scan)
    requires st.inQuotes && '\r' !in h
    requires rest == [] || rest[0] != '"'
    ensures Feed(DoubleQuotes(h) + "\"" + rest, st) == Feed(rest, st.(cur := st.cur + h, inQuotes := false))
    decreases |h|
  {
    if h == [] {
      FeedClose(rest, st);
      EmptyCell(st);
    } else {
      FeedQuotedStep(h, rest, st);
      FeedQuoted(h[1..], rest, st.(cur := st.cur + [h[0]]));
      QuotedState(h, st);
    }
  }

  lemma EmptyCell(st: Scan)
    ensures st.(cur := st.cur + "", inQuotes := false) == st.(inQuotes := false)
  {
    assert st.cur + "" == st.cur;
  }

  lemma QuotedState(h: string, st: Scan)
    requires h != []
    ensures var st1 := st.(cur := st.cur + [h[0]]);
      st1.(cur := st1.cur + h[1..], inQuotes := false) == st.(cur := st.cur + h, inQuotes := false)
  {
    assert st.cur + [h[0]] + h[1..] == st.cur + h;
  }

  /** The closing quote of a quoted section. */
  lemma FeedClose(rest: string, st: Scan)
    requires st.inQuotes
    requires rest == [] || rest[0] != '"'
    ensures Feed(DoubleQuotes([]) + "\"" + rest, st) == Feed(rest, st.(inQuotes := false))
  {
    assert DoubleQuotes([]) + "\"" + rest == "\"" + rest;
    FeedToggle(rest, st);
  }

  /** One character of a quoted section: a doubled quote or a plain character. */
  lemma FeedQuotedStep(h: string, rest: string, st: Scan)
    requires st.inQuotes && h != [] && h[0] != '\r'
    ensures Feed(DoubleQuotes(h) + "\"" + rest, st)
      == Feed(DoubleQuotes(h[1..]) + "\"" + rest, st.(cur := st.cur + [h[0]]))
  {
    var d := DoubleQuotes(h[1..]);
    var tail := d + "\"" + rest;
    if h[0] == '"' {
      assert DoubleQuotes(h) + "\"" + rest == "\"\"" + tail;
      assert "\"" == [h[0]];
      FeedPair(tail, st);
    } else {
      assert DoubleQuotes(h) + "\"" + rest == [h[0]] + tail;
      FeedChar(h[0], tail, st);
    }
  }

  /** A quoted cell that is not quotes alone is read back as the cell itself,
      leading quotes included. */
  lemma {:induction false} FeedQuotedCell(f: string, k: nat, rest: string, st: Scan)
    requires !st.inQuotes && '\r' !in f
    requires k < |f| && f[k] != '"'
    requires rest == [] || rest[0] != '"'
    ensures Feed("\"" + DoubleQuotes(f) + "\"" + rest, st) == Feed(rest, st.(cur := st.cur + f))
    decreases |f|
  {
    if f[0] != '"' {
      FeedOpenQuote(f, rest, st);
    } else {
      var st1 := st.(cur := st.cur + "\"");
      FeedLeadingQuote(f, rest, st);
      FeedQuotedCell(f[1..], k - 1, rest, st1);
      LeadingQuoteState(f, st);
    }
  }

  lemma LeadingQuoteState(f: string, st: Scan)
    requires f != [] && f[0] == '"'
    ensures st.(cur := st.cur + "\"").(cur := st.cur + "\"" + f[1..]) == st.(cur := st.cur + f)
  {
    assert st.cur + "\"" + f[1..] == st.cur + f;
  }

  /** A quoted cell that starts with a character other than a quote: the
      opening quote opens the section and the closing one ends it. */
  lemma FeedOpenQuote(f: string, rest: string, st: Scan)
    requires !st.inQuotes && '\r' !in f && f != [] && f[0] != '"'
    requires rest == [] || rest[0] != '"'
    ensures Feed("\"" + DoubleQuotes(f) + "\"" + rest, st) == Feed(rest, st.(cur := st.cur + f))
  {
    FeedOpen(f, rest, st);
    FeedQuoted(f, rest, st.(inQuotes := true));
    OpenState(f, st);
  }

  /** The opening quote of a cell that does not start with a quote. */
  lemma FeedOpen(f: string, rest: string, st: Scan)
    requires f != [] && f[0] != '"'
    ensures Feed("\"" + DoubleQuotes(f) + "\"" + rest, st)
      == Feed(DoubleQuotes(f) + "\"" + rest, st.(inQuotes := !st.inQuotes))
  {
    var body := DoubleQuotes(f) + "\"" + rest;
    assert "\"" + DoubleQuotes(f) + "\"" + rest == "\"" + body;
    assert body[0] == f[0];
    FeedToggle(body, st);
  }

  lemma OpenState(f: string, st: Scan)
    requires !st.inQuotes
    ensures var st1 := st.(inQuotes := true);
      st1.(cur := st1.cur + f, inQuotes := false) == st.(cur := st.cur + f)
  {
  }

  /** The opening quote before a doubled leading quote pairs with it instead. */
  lemma FeedLeadingQuote(f: string, rest: string, st: Scan)
    requires f != [] && f[0] == '"'
    ensures Feed("\"" + DoubleQuotes(f) + "\"" + rest, st)
      == Feed("\"" + DoubleQuotes(f[1..]) + "\"" + rest, st.(cur := st.cur + "\""))
  {
    var tail := "\"" + DoubleQuotes(f[1..]) + "\"" + rest;
    assert "\"" + DoubleQuotes(f) + "\"" + rest == "\"\"" + tail;
    FeedPair(tail, st);
  }

  /** A cell written as it is is read back as it is. */
  lemma {:induction false} FeedPlainCell(f: string, rest: string, st: Scan)
    requires !st.inQuotes && !NeedsQuotes(f) && '\r' !in f
    ensures Feed(f + rest, st) == Feed(rest, st.(cur := st.cur + f))
    decreases |f|
  {
    if f == [] {
      assert f + rest == rest && st.cur + f == st.cur;
    } else {
      assert f + rest == [f[0]] + (f[1..] + rest);
      assert !NeedsQuotes(f[1..]) by {
        assert forall c :: c in f[1..] ==> c in f;
      }
      FeedChar(f[0], f[1..] + rest, st);
      FeedPlainCell(f[1..], rest, st.(cur := st.cur + [f[0]]));
      assert st.cur + [f[0]] + f[1..] == st.cur + f;
    }
  }

  /** One escaped cell, followed by a comma, a line feed or the end, is read
      back as the cell. */
  lemma FeedCell(f: string, rest: string, st: Scan)
    requires !st.inQuotes && CsvSafe(f)
    requires rest == [] || rest[0] != '"'
    ensures Feed(EscapeCsv(f) + rest, st) == Feed(rest, st.(cur := st.cur + f))
  {
    if NeedsQuotes(f) {
      var k :| 0 <= k < |f| && f[k] != '"';
      FeedQuotedCell(f, k, rest, st);
    } else {
      FeedPlainCell(f, rest, st);
    }
  }

  /** An escaped row leaves its cells in the open row, the last one open. */
  lemma {:induction false} FeedRow(cells: seq<string>, rest: string, st: Scan)
    requires |cells| >= 1 && forall j :: 0 <= j < |cells| ==> CsvSafe(cells[j])
    requires !st.inQuotes && st.cur == ""
    requires rest == [] || rest[0] == '\n'
    ensures Feed(EscRow(cells) + rest, st)
      == Feed(rest, st.(row := st.row + cells[..|cells| - 1], cur := cells[|cells| - 1]))
    decreases |cells|
  {
    if |cells| == 1 {
      FeedRowOne(cells, rest, st);
    } else {
      FeedRowHead(cells, rest, st);
      FeedRow(cells[1..], rest, st.(row := st.row + [cells[0]], cur := ""));
      RowState(cells, st);
    }
  }

  /** A row of one cell leaves that cell open. */
  lemma FeedRowOne(cells: seq<string>, rest: string, st: Scan)
    requires |cells| == 1 && CsvSafe(cells[0])
    requires !st.inQuotes && st.cur == ""
    requires rest == [] || rest[0] == '\n'
    ensures Feed(EscRow(cells) + rest, st)
      == Feed(rest, st.(row := st.row + cells[..|cells| - 1], cur := cells[|cells| - 1]))
  {
    assert EscRow(cells) == EscapeCsv(cells[0]);
    FeedCell(cells[0], rest, st);
    assert st.(cur := st.cur + cells[0]) == st.(row := st.row + cells[..0], cur := cells[0]);
  }

  /** The first cell of a longer row and its comma push that cell. */
  lemma FeedRowHead(cells: seq<string>, rest: string, st: Scan)
    requires |cells| >= 2 && CsvSafe(cells[0])
    requires !st.inQuotes && st.cur == ""
    ensures Feed(EscRow(cells) + rest, st)
      == Feed(EscRow(cells[1..]) + rest, st.(row := st.row + [cells[0]], cur := ""))
  {
    EscRowCons(cells);
    var more := EscRow(cells[1..]) + rest;
    assert EscRow(cells) + rest == EscapeCsv(cells[0]) + ("," + more);
    FeedCellComma(cells[0], more, st);
  }

  lemma EscRowCons(cells: seq<string>)
    requires |cells| >= 2
    ensures EscRow(cells) == EscapeCsv(cells[0]) + "," + EscRow(cells[1..])
  {
    var esc := seq(|cells|, i requires 0 <= i < |cells| => EscapeCsv(cells[i]));
    var tail := seq(|cells| - 1, i requires 0 <= i < |cells| - 1 => EscapeCsv(cells[1..][i]));
    assert esc == [EscapeCsv(cells[0])] + tail;
    JoinCons(EscapeCsv(cells[0]), tail, ",");
  }

  /** A cell followed by a comma is pushed onto the open row. */
  lemma FeedCellComma(c: string, more: string, st: Scan)
    requires !st.inQuotes && st.cur == "" && CsvSafe(c)
    ensures Feed(EscapeCsv(c) + ("," + more), st) == Feed(more, st.(row := st.row + [c], cur := ""))
  {
    FeedCell(c, "," + more, st);
    var st1 := st.(cur := st.cur + c);
    FeedComma(more, st1);
    assert st1.(row := st1.row + [st1.cur], cur := "") == st.(row := st.row + [c], cur := "") by {
      assert st.cur + c == c;
    }
  }

  lemma RowState(cells: seq<string>, st: Scan)
    requires |cells| >= 2
    ensures var st2 := st.(row := st.row + [cells[0]], cur := "");
      st2.(row := st2.row + cells[1..][..|cells| - 2], cur := cells[1..][|cells| - 2])
      == st.(row := st.row + cells[..|cells| - 1], cur := cells[|cells| - 1])
  {
    assert st.row + [cells[0]] + cells[1..][..|cells| - 2] == st.row + cells[..|cells| - 1];
  }

  /** The escaped lines of a table of cells. */
  function Lines(tbl: seq<seq<string>>): seq<string> {
    seq(|tbl|, i requires 0 <= i < |tbl| => EscRow(tbl[i]))
  }

  /** Escaped rows joined with line feeds are read back row by row; the last
      row is still open when the text ends. */
  /** Rows of at least one cell, each cell read back unchanged. */
  predicate SafeTable(tbl: seq<seq<string>>) {
    (forall i :: 0 <= i < |tbl| ==> |tbl[i]| >= 1)
    && forall i, j :: 0 <= i < |tbl| && 0 <= j < |tbl[i]| ==> CsvSafe(tbl[i][j])
  }

  lemma SafeTableParts(tbl: seq<seq<string>>)
    requires |tbl| >= 1 && SafeTable(tbl)
    ensures SafeTable(tbl[1..])
    ensures |tbl[0]| >= 1 && forall j :: 0 <= j < |tbl[0]| ==> CsvSafe(tbl[0][j])
  {
  }

  lemma {:induction false} FeedTable(tbl: seq<seq<string>>, rows: seq<seq<string>>)
    requires |tbl| >= 1 && SafeTable(tbl)
    ensures var last := tbl[|tbl| - 1];
      Feed(Join(Lines(tbl), "\n"), Scan(rows, [], "", false))
      == Scan(rows + tbl[..|tbl| - 1], last[..|last| - 1], last[|last| - 1], false)
    decreases |tbl|
  {
    if |tbl| == 1 {
      FeedTableOne(tbl, rows);
    } else {
      FeedTableHead(tbl, rows);
      FeedTable(tbl[1..], rows + [tbl[0]]);
      PrefixShift(rows, tbl);
    }
  }

  /** A table of one row leaves that row open. */
  lemma FeedTableOne(tbl: seq<seq<string>>, rows: seq<seq<string>>)
    requires |tbl| == 1 && SafeTable(tbl)
    ensures var last := tbl[|tbl| - 1];
      Feed(Join(Lines(tbl), "\n"), Scan(rows, [], "", false))
      == Scan(rows + tbl[..|tbl| - 1], last[..|last| - 1], last[|last| - 1], false)
  {
    SafeTableParts(tbl);
    OneLine(tbl);
    FeedRow(tbl[0], [], Scan(rows, [], "", false));
    assert rows + tbl[..0] == rows;
  }

  /** The first line of a longer table becomes a finished row. */
  lemma FeedTableHead(tbl: seq<seq<string>>, rows: seq<seq<string>>)
    requires |tbl| >= 2 && SafeTable(tbl)
    ensures SafeTable(tbl[1..])
    ensures Feed(Join(Lines(tbl), "\n"), Scan(rows, [], "", false))
      == Feed(Join(Lines(tbl[1..]), "\n"), Scan(rows + [tbl[0]], [], "", false))
  {
    SafeTableParts(tbl);
    LinesCons(tbl);
    FeedLine(tbl[0], Join(Lines(tbl[1..]), "\n"), rows);
  }

  lemma OneLine(tbl: seq<seq<string>>)
    requires |tbl| == 1
    ensures Join(Lines(tbl), "\n") == EscRow(tbl[0]) + []
  {
    assert Lines(tbl) == [EscRow(tbl[0])];
  }

  lemma PrefixShift(rows: seq<seq<string>>, tbl: seq<seq<string>>)
    requires |tbl| >= 2
    ensures rows + [tbl[0]] + tbl[1..][..|tbl[1..]| - 1] == rows + tbl[..|tbl| - 1]
    ensures tbl[1..][|tbl[1..]| - 1] == tbl[|tbl| - 1]
  {
    assert [tbl[0]] + tbl[1..][..|tbl| - 2] == tbl[..|tbl| - 1];
  }

  /** A whole line followed by its line feed becomes a finished row. */
  lemma FeedLine(cells: seq<string>, rest: string, rows: seq<seq<string>>)
    requires |cells| >= 1 && forall j :: 0 <= j < |cells| ==> CsvSafe(cells[j])
    ensures Feed(EscRow(cells) + ("\n" + rest), Scan(rows, [], "", false))
      == Feed(rest, Scan(rows + [cells], [], "", false))
  {
    var st := Scan(rows, [], "", false);
    FeedRow(cells, "\n" + rest, st);
    FeedNewline(rest, st.(row := cells[..|cells| - 1], cur := cells[|cells| - 1]));
    assert [] + cells[..|cells| - 1] + [cells[|cells| - 1]] == cells;
  }

  lemma LinesCons(tbl: seq<seq<string>>)
    requires |tbl| >= 2
    ensures Join(Lines(tbl), "\n") == EscRow(tbl[0]) + ("\n" + Join(Lines(tbl[1..]), "\n"))
  {
    assert Lines(tbl) == [EscRow(tbl[0])] + Lines(tbl[1..]);
    JoinCons(EscRow(tbl[0]), Lines(tbl[1..]), "\n");
  }

  /** Every cell `toCSV` writes for the intern is read back unchanged. */
  predicate CsvSafeIntern(x: Intern) {
    forall j :: 0 <= j < |Fields(x)| ==> CsvSafe(Fields(x)[j])
  }

  /** The header cells are read back unchanged. */
  lemma HeaderSafe()
    ensures forall j :: 0 <= j < |HeaderCells| ==> !NeedsQuotes(HeaderCells[j]) && CsvSafe(HeaderCells[j])
  {
    forall j | 0 <= j < |HeaderCells| ensures !NeedsQuotes(HeaderCells[j]) && CsvSafe(HeaderCells[j]) {
      PlainWordSafe(HeaderCells[j]);
    }
  }

  /** The header line needs no escaping. */
  lemma HeaderLine()
    ensures EscRow(HeaderCells) == Join(HeaderCells, ",")
  {
    HeaderSafe();
    assert seq(|HeaderCells|, i requires 0 <= i < |HeaderCells| => EscapeCsv(HeaderCells[i])) == HeaderCells;
  }

  /** A non-empty word of ASCII letters. */
  predicate PlainWord(w: string) {
    |w| > 0 && forall k :: 0 <= k < |w| ==> 'a' <= w[k] <= 'z' || 'A' <= w[k] <= 'Z'
  }

  lemma PlainWordSafe(w: string)
    requires PlainWord(w)
    ensures !NeedsQuotes(w) && CsvSafe(w)
  {
    assert w[0] != '"';
  }

  /** The cells `toCSV` writes: the header, then each intern's cells. */
  function Table(interns: seq<Intern>): seq<seq<string>> {
    [HeaderCells] + seq(|interns|, i requires 0 <= i < |interns| => Fields(interns[i]))
  }

  lemma TableSafe(interns: seq<Intern>)
    requires forall i :: 0 <= i < |interns| ==> CsvSafeIntern(interns[i])
    ensures SafeTable(Table(interns))
  {
    HeaderSafe();
    var tbl := Table(interns);
    forall i, j | 0 <= i < |tbl| && 0 <= j < |tbl[i]| ensures CsvSafe(tbl[i][j]) {
      if i > 0 {
        assert tbl[i] == Fields(interns[i - 1]);
      }
    }
  }

  lemma TableLines(interns: seq<Intern>)
    ensures Lines(Table(interns)) == CsvLines(interns)
  {
    var rest := seq(|interns|, i requires 0 <= i < |interns| => Fields(interns[i]));
    LinesCons2(HeaderCells, rest);
    HeaderLine();
  }

  lemma LinesCons2(h: seq<string>, rest: seq<seq<string>>)
    ensures Lines([h] + rest) == [EscRow(h)] + Lines(rest)
  {
  }

  /** Every row of the export has eleven cells. */
  lemma TableWidth(interns: seq<Intern>)
    ensures forall i :: 0 <= i < |Table(interns)| ==> |Table(interns)[i]| == 11
  {
  }

  /** The open last row of at least two cells is closed at the end of the text. */
  lemma FinishTable(tbl: seq<seq<string>>)
    requires |tbl| >= 1 && |tbl[|tbl| - 1]| >= 2
    ensures var last := tbl[|tbl| - 1];
      Finish(Scan([] + tbl[..|tbl| - 1], last[..|last| - 1], last[|last| - 1], false)) == tbl
  {
    var last := tbl[|tbl| - 1];
    assert last[..|last| - 1] + [last[|last| - 1]] == last;
    assert [] + tbl[..|tbl| - 1] + [last] == tbl;
  }

  /** Export then parse: the header row, then each intern's cells, whenever no
      cell holds a carriage return or is made of double quotes alone. */
  lemma CsvRoundTrip(interns: seq<Intern>)
    requires forall i :: 0 <= i < |interns| ==> CsvSafeIntern(interns[i])
    ensures CsvRows(CsvText(interns)) == Table(interns)
  {
    var tbl := Table(interns);
    TableSafe(interns);
    TableLines(interns);
    TableWidth(interns);
    assert CsvText(interns) == Join(Lines(tbl), "\n");
    FeedTable(tbl, []);
    FinishTable(tbl);
  }

  // ------------------------------------------------ quote-free reference

  /** Each line split on commas. */
  function SplitEach(lines: seq<string>): (r: seq<seq<string>>)
    ensures |r| == |lines|
  {
    seq(|lines|, i requires 0 <= i < |lines| => Split(lines[i], ','))
  }

  /** A reference reading of a text without quotes or carriage returns: its
      lines, less one trailing empty line, each split on commas. */
  function PlainRows(text: string): seq<seq<string>> {
    var lines := Split(text, '\n');
    var kept := if lines[|lines| - 1] == "" then lines[..|lines| - 1] else lines;
    SplitEach(kept)
  }

  /** The state reached after reading quote-free text `u` from finished rows
      `rows`: every complete line a row, the last line open. */
  function PlainScan(rows: seq<seq<string>>, u: string): Scan {
    var lines := Split(u, '\n');
    var cells := Split(lines[|lines| - 1], ',');
    Scan(rows + SplitEach(lines[..|lines| - 1]), cells[..|cells| - 1], cells[|cells| - 1], false)
  }

  /** Scanning quote-free text: `t` is the part of the current line already
      read, held as the open row and cell. */
  lemma {:induction false} FeedPlainText(s: string, rows: seq<seq<string>>, row: seq<string>, cur: string, t: string)
    requires '"' !in s && '\r' !in s && '\n' !in t
    requires row + [cur] == Split(t, ',')
    ensures Feed(s, Scan(rows, row, cur, false)) == PlainScan(rows, t + s)
    decreases |s|
  {
    if s == [] {
      PlainScanStart(rows, row, cur, t);
      assert t + s == t;
    } else if s[0] == '\n' {
      PlainNewlineStep(s, rows, row, cur, t);
      FeedPlainText(s[1..], rows + [row + [cur]], [], "", "");
      PlainScanNewline(rows, t, s);
    } else if s[0] == ',' {
      PlainCommaStep(s, rows, row, cur, t);
      FeedPlainText(s[1..], rows, row + [cur], "", t + [',']);
    } else {
      PlainCharStep(s, rows, row, cur, t);
      FeedPlainText(s[1..], rows, row, cur + [s[0]], t + [s[0]]);
    }
  }

  lemma PlainScanStart(rows: seq<seq<string>>, row: seq<string>, cur: string, t: string)
    requires '\n' !in t && row + [cur] == Split(t, ',')
    ensures Scan(rows, row, cur, false) == PlainScan(rows, t)
  {
    assert Split(t, '\n') == [t];
    assert SplitEach([]) == [] && rows + [] == rows;
    var cells := Split(t, ',');
    assert cells[..|cells| - 1] == row && cells[|cells| - 1] == cur;
  }

  lemma PlainScanNewline(rows: seq<seq<string>>, t: string, s: string)
    requires s != [] && s[0] == '\n' && '\n' !in t
    ensures PlainScan(rows + [Split(t, ',')], "" + s[1..]) == PlainScan(rows, t + s)
  {
    assert "" + s[1..] == s[1..];
    NewlineLines(t, s);
    var l2 := Split(s[1..], '\n');
    SplitEachCons(t, l2);
    assert rows + [Split(t, ',')] + SplitEach(l2[..|l2| - 1]) == rows + ([Split(t, ',')] + SplitEach(l2[..|l2| - 1]));
  }

  lemma PlainCommaStep(s: string, rows: seq<seq<string>>, row: seq<string>, cur: string, t: string)
    requires s != [] && s[0] == ','
    requires row + [cur] == Split(t, ',')
    ensures Feed(s, Scan(rows, row, cur, false)) == Feed(s[1..], Scan(rows, row + [cur], "", false))
    ensures (row + [cur]) + [""] == Split(t + [','], ',')
    ensures (t + [',']) + s[1..] == t + s
  {
    assert s == "," + s[1..];
    FeedComma(s[1..], Scan(rows, row, cur, false));
    SplitSnocSep(t, ',');
  }

  lemma PlainCharStep(s: string, rows: seq<seq<string>>, row: seq<string>, cur: string, t: string)
    requires s != [] && s[0] != ',' && s[0] != '\n' && s[0] != '"' && s[0] != '\r'
    requires row + [cur] == Split(t, ',')
    ensures Feed(s, Scan(rows, row, cur, false)) == Feed(s[1..], Scan(rows, row, cur + [s[0]], false))
    ensures row + [cur + [s[0]]] == Split(t + [s[0]], ',')
    ensures (t + [s[0]]) + s[1..] == t + s
  {
    assert s == [s[0]] + s[1..];
    FeedChar(s[0], s[1..], Scan(rows, row, cur, false));
    OpenCellSnoc(row, cur, t, s[0]);
  }

  /** A character other than a comma extends the open cell. */
  lemma OpenCellSnoc(row: seq<string>, cur: string, t: string, c: char)
    requires c != ',' && row + [cur] == Split(t, ',')
    ensures row + [cur + [c]] == Split(t + [c], ',')
  {
    SplitSnocOther(t, c, ',');
    var p := Split(t, ',');
    assert p[..|p| - 1] == row && p[|p| - 1] == cur;
  }

  lemma PlainNewlineStep(s: string, rows: seq<seq<string>>, row: seq<string>, cur: string, t: string)
    requires s != [] && s[0] == '\n' && '\n' !in t
    requires row + [cur] == Split(t, ',')
    ensures Feed(s, Scan(rows, row, cur, false)) == Feed(s[1..], Scan(rows + [Split(t, ',')], [], "", false))
    ensures [] + [""] == Split("", ',')
  {
    assert s == "\n" + s[1..];
    FeedNewline(s[1..], Scan(rows, row, cur, false));
  }

  /** A line feed after a line without one ends that line. */
  lemma NewlineLines(t: string, s: string)
    requires s != [] && s[0] == '\n' && '\n' !in t
    ensures Split(t + s, '\n') == [t] + Split(s[1..], '\n')
  {
    SplitPrefix(t, s, '\n');
    var q := Split(s, '\n');
    assert q == [""] + Split(s[1..], '\n');
    assert t + q[0] == t;
  }

  lemma SplitEachCons(t: string, ls: seq<string>)
    requires |ls| >= 1
    ensures var lines := [t] + ls;
      SplitEach(lines[..|lines| - 1]) == [Split(t, ',')] + SplitEach(ls[..|ls| - 1])
      && lines[|lines| - 1] == ls[|ls| - 1]
  {
    var lines := [t] + ls;
    assert lines[..|lines| - 1] == [t] + ls[..|ls| - 1];
  }

  /** Without quotes or carriage returns, `parseCSV` is the plain reading:
      split into lines, drop one trailing empty line, split each on commas. */
  lemma PlainCsv(text: string)
    requires '"' !in text && '\r' !in text
    ensures CsvRows(text) == PlainRows(text)
  {
    PlainStart(text);
    FinishPlain(text);
  }

  /** Quote-free text read from the start. */
  lemma PlainStart(text: string)
    requires '"' !in text && '\r' !in text
    ensures Feed(text, Start) == PlainScan([], text)
  {
    assert [] + [""] == Split("", ',') && "" + text == text;
    FeedPlainText(text, [], [], "", "");
  }

  /** Closing the open line of the plain reading. */
  lemma FinishPlain(text: string)
    ensures Finish(PlainScan([], text)) == PlainRows(text)
  {
    var lines := Split(text, '\n');
    if lines[|lines| - 1] == "" {
      FinishEmptyLine(lines, []);
    } else {
      FinishOpenLine(lines, []);
    }
  }

  /** An empty last line adds no row. */
  lemma FinishEmptyLine(lines: seq<string>, rows: seq<seq<string>>)
    requires |lines| >= 1 && lines[|lines| - 1] == ""
    ensures var cells := Split(lines[|lines| - 1], ',');
      Finish(Scan(rows + SplitEach(lines[..|lines| - 1]), cells[..|cells| - 1], cells[|cells| - 1], false))
      == rows + SplitEach(lines[..|lines| - 1])
  {
    assert Split("", ',') == [""];
  }

  /** A non-empty last line is the last row. */
  lemma FinishOpenLine(lines: seq<string>, rows: seq<seq<string>>)
    requires |lines| >= 1 && lines[|lines| - 1] != ""
    ensures var cells := Split(lines[|lines| - 1], ',');
      Finish(Scan(rows + SplitEach(lines[..|lines| - 1]), cells[..|cells| - 1], cells[|cells| - 1], false))
      == rows + SplitEach(lines)
  {
    var last := lines[|lines| - 1];
    var cells := Split(last, ',');
    assert cells[..|cells| - 1] + [cells[|cells| - 1]] == cells;
    JoinSplit(last, ',');
    assert cells != [""];
    assert lines == lines[..|lines| - 1] + [last];
    assert SplitEach(lines) == SplitEach(lines[..|lines| - 1]) + [cells];
  }

  // ----------------------------------------------- where the round trip ends

  /** A cell holding one double quote is written as four quotes, which the
      parser reads as two literal quotes: such a cell gains a quote. */
  lemma QuoteCellGrows()
    ensures EscapeCsv("\"") == "\"\"\"\""
    ensures CsvRows(EscapeCsv("\"")) == [["\"\""]]
  {
    assert NeedsQuotes("\"");
    assert DoubleQuotes("\"") == "\"\"";
    var q1 := Scan([], [], "\"", false);
    var q2 := Scan([], [], "\"\"", false);
    FeedPair("\"\"", Start);
    assert "\"\"" + "\"\"" == "\"\"\"\"";
    assert Start.(cur := Start.cur + "\"") == q1;
    FeedPair([], q1);
    assert "\"\"" + [] == "\"\"";
    assert q1.(cur := q1.cur + "\"") == q2;
    assert Feed("\"\"\"\"", Start) == q2;
    assert |q2.cur| == 2;
    assert q2.row + [q2.cur] == ["\"\""];
    assert q2.rows + [q2.row + [q2.cur]] == [["\"\""]];
  }

  /** A carriage return inside a cell, even a quoted one, is dropped. */
  lemma CarriageReturnDropped()
    ensures EscapeCsv("a\rb") == "a\rb"
    ensures CsvRows("a\rb") == [["ab"]]
  {
    assert !NeedsQuotes("a\rb");
    var a := Scan([], [], "a", false);
    var ab := Scan([], [], "ab", false);
    assert "a\rb" == ['a'] + "\rb";
    FeedChar('a', "\rb", Start);
    assert Start.(cur := Start.cur + ['a']) == a;
    assert ("\rb")[1..] == "b";
    assert Feed("\rb", a) == Feed("b", a);
    assert "b" == ['b'] + [];
    FeedChar('b', [], a);
    assert a.(cur := a.cur + ['b']) == ab;
    assert Feed("a\rb", Start) == ab;
    assert |ab.cur| == 2;
    assert ab.row + [ab.cur] == ["ab"];
    assert ab.rows + [ab.row + [ab.cur]] == [["ab"]];
  }
}
