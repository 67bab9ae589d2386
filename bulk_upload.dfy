/** The parallel-CSV ingestion pipeline of src/components/BulkUploadModal.jsx:
    a quote-aware one-line tokenizer, a header-checked row parser, the `|`
    tag splitter, the row validator, the normalise/validate/count loop run
    when a file is picked, and the serializer back to CSV. */
module BulkUpload {
  import opened JsString
  import K = KhmerUnicodeNormalizer
  import opened Options

  /** One CSV record. The fields are the columns `raw_text`, `type`,
      `normtext`, `span_raw`, `span_type` and `span_norm`; `types` and
      `spanTypes` hold `|`-separated tag lists. */
  datatype Row = Row(
    rawText: string, types: string, normText: string,
    spanRaw: string, spanTypes: string, spanNorm: string)

  /** The error `parseParallelCsv` throws. */
  datatype CsvError = CsvError(code: string, message: string)

  /** What `parseParallelCsv` returns, or the error it throws. */
  datatype ParseResult = Parsed(header: seq<string>, rows: seq<Row>) | Thrown(error: CsvError)

  // ---------------------------------------------------------------------
  // parseCsvLine

  /** The tokenizer run over the rest `rest` of a line, with the current
      cell `cur` and the quote state `inQuotes`. Two adjacent quotes are a
      literal quote whatever the state; a lone quote toggles the state; a
      comma outside quotes ends the cell. */
  function FieldsFrom(rest: string, cur: string, inQuotes: bool): (cols: seq<string>)
    ensures |cols| >= 1
    decreases |rest|
  {
    if rest == [] then [cur]
    else if rest[0] == '"' && |rest| > 1 && rest[1] == '"' then FieldsFrom(rest[2..], cur + "\"", inQuotes)
    else if rest[0] == '"' then FieldsFrom(rest[1..], cur, !inQuotes)
    else if rest[0] == ',' && !inQuotes then [cur] + FieldsFrom(rest[1..], [], inQuotes)
    else FieldsFrom(rest[1..], cur + [rest[0]], inQuotes)
  }

  /** The columns of one line. */
  function CsvFields(line: string): (cols: seq<string>)
    ensures |cols| >= 1
  {
    FieldsFrom(line, [], false)
  }

  /** `parseCsvLine` */
  method ParseCsvLine(line: string) returns (cols: seq<string>)
    ensures cols == CsvFields(line)
  {
    cols := [];
    var cur: string := [];
    var inQuotes := false;
    var i := 0;
    while i < |line|
      invariant 0 <= i <= |line|
      invariant cols + FieldsFrom(line[i..], cur, inQuotes) == CsvFields(line)
      decreases |line| - i
    {
      var ch := line[i];
      if ch == '"' && i + 1 < |line| && line[i + 1] == '"' {
        assert line[i..][2..] == line[i + 2..];
        cur := cur + "\"";
        i := i + 2;
      } else if ch == '"' {
        assert line[i..][1..] == line[i + 1..];
        inQuotes := !inQuotes;
        i := i + 1;
      } else if ch == ',' && !inQuotes {
        assert line[i..][1..] == line[i + 1..];
        cols := cols + [cur];
        cur := [];
        i := i + 1;
      } else {
        assert line[i..][1..] == line[i + 1..];
        cur := cur + [ch];
        i := i + 1;
      }
    }
    cols := cols + [cur];
  }

  /** The commas the tokenizer meets outside quotes, from state `inQuotes` on. */
  function UnquotedCommas(rest: string, inQuotes: bool): nat
    decreases |rest|
  {
    if rest == [] then 0
    else if rest[0] == '"' && |rest| > 1 && rest[1] == '"' then UnquotedCommas(rest[2..], inQuotes)
    else if rest[0] == '"' then UnquotedCommas(rest[1..], !inQuotes)
    else if rest[0] == ',' && !inQuotes then 1 + UnquotedCommas(rest[1..], inQuotes)
    else UnquotedCommas(rest[1..], inQuotes)
  }

  lemma {:induction false} FieldsFromCount(rest: string, cur: string, inQuotes: bool)
    ensures |FieldsFrom(rest, cur, inQuotes)| == 1 + UnquotedCommas(rest, inQuotes)
    decreases |rest|
  {
    if rest == [] {
    } else if rest[0] == '"' && |rest| > 1 && rest[1] == '"' {
      FieldsFromCount(rest[2..], cur + "\"", inQuotes);
    } else if rest[0] == '"' {
      FieldsFromCount(rest[1..], cur, !inQuotes);
    } else if rest[0] == ',' && !inQuotes {
      FieldsFromCount(rest[1..], [], inQuotes);
    } else {
      FieldsFromCount(rest[1..], cur + [rest[0]], inQuotes);
    }
  }

  /** A line has one column more than it has commas outside quotes. */
  lemma ColumnCount(line: string)
    ensures |CsvFields(line)| == 1 + UnquotedCommas(line, false)
  {
    FieldsFromCount(line, [], false);
  }

  /** Two adjacent quotes are a literal quote even outside a quoted field. */
  lemma AdjacentQuotesExample()
    ensures CsvFields("a,\"\",b") == ["a", "\"", "b"]
  {
    var s := "a,\"\",b";
    assert s[1..] == ",\"\",b" && s[1..][1..] == "\"\",b" && s[1..][1..][2..] == ",b";
    assert ",b"[1..] == "b" && "b"[1..] == "";
    assert [] + ['a'] == "a" && [] + ['b'] == "b" && [] + "\"" == "\"";
  }

  /** Outside quotes, a line without quotes is scanned like `split(",")`. */
  lemma {:induction false} FieldsFromNoQuotes(rest: string, cur: string)
    requires '"' !in rest
    ensures var ps := Split(rest, ',');
      FieldsFrom(rest, cur, false) == [cur + ps[0]] + ps[1..]
  {
    if rest == [] {
      assert cur + [] == cur;
    } else if rest[0] == ',' {
      FieldsFromNoQuotes(rest[1..], []);
      var ps := Split(rest[1..], ',');
      assert Split(rest, ',') == [[]] + ps;
      assert [] + ps[0] == ps[0];
      assert [ps[0]] + ps[1..] == ps;
      assert cur + [] == cur;
    } else {
      FieldsFromNoQuotes(rest[1..], cur + [rest[0]]);
      assert cur + [rest[0]] + Split(rest[1..], ',')[0] == cur + ([rest[0]] + Split(rest[1..], ',')[0]);
    }
  }

  /** A line without quotes has the columns of `line.split(",")`. */
  lemma CsvFieldsNoQuotes(line: string)
    requires '"' !in line
    ensures CsvFields(line) == Split(line, ',')
  {
    FieldsFromNoQuotes(line, []);
    var ps := Split(line, ',');
    assert [] + ps[0] == ps[0];
    assert [ps[0]] + ps[1..] == ps;
  }

  // ---------------------------------------------------------------------
  // csvEscape and toParallelCsv

  /** `/[",\n]/.test(s)` */
  predicate NeedsQuoting(s: string) {
    '"' in s || ',' in s || '\n' in s
  }

  /** `s.replace(/"/g, '""')` */
  function DoubleQuotes(s: string): (r: string)
    ensures forall c :: c in r ==> c in s
  {
    if s == [] then [] else (if s[0] == '"' then "\"\"" else [s[0]]) + DoubleQuotes(s[1..])
  }

  /** `csvEscape`: a cell holding a quote, a comma or a line feed is
      wrapped in quotes with its quotes doubled; any other cell is kept. */
  function CsvEscape(s: string): (r: string)
    ensures !NeedsQuoting(s) ==> r == s
    ensures NeedsQuoting(s) ==> |r| >= 2 && r[0] == '"' && r[|r| - 1] == '"'
    ensures forall c :: c in r ==> c in s || c == '"'
  {
    if NeedsQuoting(s) then "\"" + DoubleQuotes(s) + "\"" else s
  }

  /** The cells of a row in the required column order. */
  function Cells(r: Row): seq<string> {
    [r.rawText, r.types, r.normText, r.spanRaw, r.spanTypes, r.spanNorm]
  }

  function EscapeEach(cells: seq<string>): (r: seq<string>)
    ensures |r| == |cells|
    ensures forall k :: 0 <= k < |cells| ==> r[k] == CsvEscape(cells[k])
  {
    if cells == [] then [] else [CsvEscape(cells[0])] + EscapeEach(cells[1..])
  }

  /** One body line of `toParallelCsv`. */
  function RowLine(r: Row): string {
    Join(EscapeEach(Cells(r)), ",")
  }

  function RowLines(rows: seq<Row>): (r: seq<string>)
    ensures |r| == |rows|
    ensures forall k :: 0 <= k < |rows| ==> r[k] == RowLine(rows[k])
  {
    if rows == [] then [] else [RowLine(rows[0])] + RowLines(rows[1..])
  }

  /** The header line `toParallelCsv` writes. */
  const HeaderLine: string :=
    "raw_text" + ("," + ("type" + ("," + ("normtext" + ("," + ("span_raw" + ("," + ("span_type" + ("," + "span_norm")))))))))

  /** The text `toParallelCsv` builds around a header line `h`: `h`, a line
      feed, the row lines joined with line feeds, and a final line feed. */
  function CsvText(h: string, rows: seq<Row>): (csv: string)
    ensures |csv| > |h| && csv[..|h| + 1] == h + "\n"
    ensures csv[|csv| - 1] == '\n'
  {
    var csv := h + "\n" + Join(RowLines(rows), "\n") + "\n";
    assert csv[..|h| + 1] == h + "\n";
    csv
  }

  /** `toParallelCsv`: the fixed header line, one line per row, and a
      final line feed. */
  function ToParallelCsv(rows: seq<Row>): (csv: string)
    ensures |csv| > |HeaderLine| && csv[..|HeaderLine| + 1] == HeaderLine + "\n"
    ensures csv[|csv| - 1] == '\n'
  {
    CsvText(HeaderLine, rows)
  }

  // ---------------------------------------------------------------------
  // Reading a serialized cell back

  /** `n` quote characters. */
  function Quotes(n: nat): (r: string)
    ensures |r| == n && forall i :: 0 <= i < n ==> r[i] == '"'
  {
    if n == 0 then [] else "\"" + Quotes(n - 1)
  }

  /** A non-empty cell made of quotes only: the one kind of cell the
      serializer cannot write in a form the tokenizer reads back. */
  predicate OnlyQuotes(s: string) {
    |s| > 0 && forall i :: 0 <= i < |s| ==> s[i] == '"'
  }

  /** The number of quotes `s` starts with. */
  function LeadingQuotes(s: string): (n: nat)
    ensures n <= |s| && s[..n] == Quotes(n)
    ensures n < |s| ==> s[n] != '"'
  {
    if s == [] || s[0] != '"' then 0
    else
      var n := LeadingQuotes(s[1..]);
      assert s[..n + 1] == "\"" + s[1..][..n];
      n + 1
  }

  /** One step of the tokenizer on two adjacent quotes. */
  lemma StepPair(y: string, cur: string, inQuotes: bool)
    ensures FieldsFrom("\"\"" + y, cur, inQuotes) == FieldsFrom(y, cur + "\"", inQuotes)
  {
    assert ("\"\"" + y)[2..] == y;
  }

  /** One step of the tokenizer on a lone quote. */
  lemma StepToggle(y: string, cur: string, inQuotes: bool)
    requires y == [] || y[0] != '"'
    ensures FieldsFrom("\"" + y, cur, inQuotes) == FieldsFrom(y, cur, !inQuotes)
  {
    assert ("\"" + y)[1..] == y;
  }

  /** One step of the tokenizer on a code point that joins the cell. */
  lemma StepChar(c: char, y: string, cur: string, inQuotes: bool)
    requires c != '"' && (inQuotes || c != ',')
    ensures FieldsFrom([c] + y, cur, inQuotes) == FieldsFrom(y, cur + [c], inQuotes)
  {
    assert ([c] + y)[1..] == y;
  }

  lemma {:induction false} PlainCell(x: string, rest: string, cur: string, inQuotes: bool)
    requires '"' !in x && (inQuotes || ',' !in x)
    ensures FieldsFrom(x + rest, cur, inQuotes) == FieldsFrom(rest, cur + x, inQuotes)
  {
    if x == [] {
      assert x + rest == rest && cur + x == cur;
    } else {
      assert (x + rest)[1..] == x[1..] + rest;
      PlainCell(x[1..], rest, cur + [x[0]], inQuotes);
      assert cur + [x[0]] + x[1..] == cur + x;
    }
  }

  lemma {:induction false} QuotedCell(x: string, rest: string, cur: string)
    ensures FieldsFrom(DoubleQuotes(x) + rest, cur, true) == FieldsFrom(rest, cur + x, true)
  {
    if x == [] {
      assert DoubleQuotes(x) + rest == rest && cur + x == cur;
    } else {
      var d := DoubleQuotes(x[1..]);
      var y := d + rest;
      var c := cur + [x[0]];
      QuotedCell(x[1..], rest, c);
      assert x == [x[0]] + x[1..];
      assert c + x[1..] == cur + x;
      if x[0] == '"' {
        assert DoubleQuotes(x) == "\"\"" + d;
        assert DoubleQuotes(x) + rest == "\"\"" + y;
        StepPair(y, cur, true);
      } else {
        assert DoubleQuotes(x) == [x[0]] + d;
        assert DoubleQuotes(x) + rest == [x[0]] + y;
        StepChar(x[0], y, cur, true);
      }
    }
  }

  lemma {:induction false} QuotePairs(n: nat, rest: string, cur: string, inQuotes: bool)
    ensures FieldsFrom(Quotes(2 * n) + rest, cur, inQuotes) == FieldsFrom(rest, cur + Quotes(n), inQuotes)
  {
    if n == 0 {
      assert Quotes(0) + rest == rest && cur + Quotes(0) == cur;
    } else {
      assert Quotes(2 * n) + rest == "\"\"" + (Quotes(2 * (n - 1)) + rest);
      QuotePairs(n - 1, rest, cur + "\"", inQuotes);
      assert cur + "\"" + Quotes(n - 1) == cur + Quotes(n);
    }
  }

  lemma {:induction false} DoubleQuotesConcat(a: string, b: string)
    ensures DoubleQuotes(a + b) == DoubleQuotes(a) + DoubleQuotes(b)
  {
    if a == [] {
      assert a + b == b;
    } else {
      assert (a + b)[1..] == a[1..] + b;
      DoubleQuotesConcat(a[1..], b);
    }
  }

  lemma {:induction false} DoubleQuotesOfQuotes(n: nat)
    ensures DoubleQuotes(Quotes(n)) == Quotes(2 * n)
  {
    if n > 0 {
      DoubleQuotesOfQuotes(n - 1);
      assert Quotes(n)[1..] == Quotes(n - 1);
    }
  }

  /** The opening quote of an escaped cell whose text `t` does not start
      with a quote switches to quoted mode; the closing quote before a
      comma or the end of the line switches back. */
  lemma QuotedTail(t: string, rest: string, cur: string)
    requires t != [] && t[0] != '"'
    requires rest == [] || rest[0] == ','
    ensures FieldsFrom("\"" + DoubleQuotes(t) + "\"" + rest, cur, false) == FieldsFrom(rest, cur + t, false)
  {
    var d := DoubleQuotes(t);
    assert d[0] == t[0] by {
      assert d == [t[0]] + DoubleQuotes(t[1..]);
    }
    var close := "\"" + rest;
    assert "\"" + d + "\"" + rest == "\"" + (d + close);
    StepToggle(d + close, cur, false);
    QuotedCell(t, close, cur);
    StepToggle(rest, cur + t, true);
  }

  lemma QuotesShift(n: nat)
    ensures "\"" + Quotes(n) == Quotes(n) + "\""
  {
    assert "\"" + Quotes(n) == Quotes(n + 1);
  }

  /** The escaped form of `Quotes(k) + t` starts with `2 * k` quotes. */
  lemma EscapedQuotedShape(k: nat, t: string, rest: string)
    ensures "\"" + DoubleQuotes(Quotes(k) + t) + "\"" + rest
         == Quotes(2 * k) + ("\"" + DoubleQuotes(t) + "\"" + rest)
  {
    var q, qq, d := Quotes(k), Quotes(2 * k), DoubleQuotes(t);
    DoubleQuotesConcat(q, t);
    DoubleQuotesOfQuotes(k);
    QuotesShift(2 * k);
    assert "\"" + (qq + d) == qq + "\"" + d;
  }

  /** The escaped form of a quoted cell `Quotes(k) + t` read from the
      start of a cell. */
  lemma EscapedQuotedCell(k: nat, t: string, rest: string)
    requires t != [] && t[0] != '"'
    requires rest == [] || rest[0] == ','
    ensures FieldsFrom("\"" + DoubleQuotes(Quotes(k) + t) + "\"" + rest, [], false)
         == FieldsFrom(rest, Quotes(k) + t, false)
  {
    EscapedQuotedShape(k, t, rest);
    QuotePairs(k, "\"" + DoubleQuotes(t) + "\"" + rest, [], false);
    assert [] + Quotes(k) == Quotes(k);
    QuotedTail(t, rest, Quotes(k));
  }

  /** An escaped cell followed by a comma or the end of the line reads
      back as the cell itself, unless it is made of quotes only. */
  lemma EscapedCell(s: string, rest: string)
    requires !OnlyQuotes(s)
    requires rest == [] || rest[0] == ','
    ensures FieldsFrom(CsvEscape(s) + rest, [], false) == FieldsFrom(rest, s, false)
  {
    if !NeedsQuoting(s) {
      PlainCell(s, rest, [], false);
      assert [] + s == s;
    } else {
      var k := LeadingQuotes(s);
      var t := s[k..];
      assert s == Quotes(k) + t;
      EscapedQuotedCell(k, t, rest);
    }
  }

  /** A serialized line reads back as its cells. */
  lemma {:induction false} EscapedCells(cells: seq<string>)
    requires |cells| >= 1
    requires forall k :: 0 <= k < |cells| ==> !OnlyQuotes(cells[k])
    ensures CsvFields(Join(EscapeEach(cells), ",")) == cells
  {
    var es := EscapeEach(cells);
    if |cells| == 1 {
      EscapedCell(cells[0], []);
      assert Join(es, ",") == CsvEscape(cells[0]) + [];
    } else {
      var tail := cells[1..];
      var restLine := Join(es[1..], ",");
      assert es[1..] == EscapeEach(tail);
      EscapedCells(tail);
      assert Join(es, ",") == CsvEscape(cells[0]) + ("," + restLine);
      EscapedCell(cells[0], "," + restLine);
      StepComma(restLine, cells[0]);
      assert [cells[0]] + tail == cells;
    }
  }

  /** One step of the tokenizer on a comma outside quotes. */
  lemma StepComma(y: string, cur: string)
    ensures FieldsFrom("," + y, cur, false) == [cur] + FieldsFrom(y, [], false)
  {
    assert ("," + y)[1..] == y;
  }

  /** The caveat: a lone quote is written as four quotes, which read back
      as two. */
  lemma LoneQuoteCaveat()
    ensures CsvEscape("\"") == "\"\"\"\""
    ensures CsvFields(CsvEscape("\"")) == ["\"\""]
  {
    assert DoubleQuotes("\"") == "\"\"";
    var s := "\"\"\"\"";
    assert s[2..] == "\"\"" && s[2..][2..] == [];
    assert [] + "\"" + "\"" == "\"\"";
  }

  // ---------------------------------------------------------------------
  // parseParallelCsv

  /** The required columns, in the order of the error message. */
  const RequiredColumns: seq<string> := ["raw_text", "type", "normtext", "span_raw", "span_type", "span_norm"]

  /** `xs.filter(p)`: the elements that pass, in order. */
  function Filter<T>(xs: seq<T>, p: T -> bool): (r: seq<T>)
    ensures |r| <= |xs|
  {
    if xs == [] then []
    else
      var last := xs[|xs| - 1];
      Filter(xs[..|xs| - 1], p) + (if p(last) then [last] else [])
  }

  /** What the filter keeps comes from the input and passes. */
  lemma {:induction false} FilterKept<T>(xs: seq<T>, p: T -> bool)
    ensures forall x :: x in Filter(xs, p) ==> x in xs && p(x)
  {
    if xs != [] {
      var init := xs[..|xs| - 1];
      FilterKept(init, p);
      assert forall x :: x in init ==> x in xs;
    }
  }

  /** The filter keeps what it keeps from each part. */
  lemma {:induction false} FilterAppend<T>(a: seq<T>, b: seq<T>, p: T -> bool)
    ensures Filter(a + b, p) == Filter(a, p) + Filter(b, p)
    decreases |b|
  {
    if b == [] {
      assert a + b == a;
    } else {
      var ab := a + b;
      assert ab[..|ab| - 1] == a + b[..|b| - 1];
      assert ab[|ab| - 1] == b[|b| - 1];
      FilterAppend(a, b[..|b| - 1], p);
    }
  }

  /** When everything passes, everything is kept. */
  lemma {:induction false} FilterAll<T>(xs: seq<T>, p: T -> bool)
    requires forall k :: 0 <= k < |xs| ==> p(xs[k])
    ensures Filter(xs, p) == xs
  {
    if xs != [] {
      var init := xs[..|xs| - 1];
      FilterAll(init, p);
      assert init + [xs[|xs| - 1]] == xs;
    }
  }

  /** When nothing passes, nothing is kept. */
  lemma {:induction false} FilterNone<T>(xs: seq<T>, p: T -> bool)
    requires forall k :: 0 <= k < |xs| ==> !p(xs[k])
    ensures Filter(xs, p) == []
  {
    if xs != [] {
      FilterNone(xs[..|xs| - 1], p);
    }
  }

  /** `(l) => l.trim().length > 0` */
  predicate IsContentLine(l: string) {
    Trim(l) != []
  }

  /** `.filter((l) => l.trim().length > 0)` */
  function NonBlankLines(ls: seq<string>): seq<string> {
    Filter(ls, IsContentLine)
  }

  /** The lines `parseParallelCsv` works on: line endings unified to LF,
      blank and whitespace-only lines dropped. */
  function ContentLines(text: string): seq<string> {
    NonBlankLines(Split(ToLf(text), '\n'))
  }

  /** Content lines hold no line feed and are not blank. */
  lemma ContentLinesShape(text: string)
    ensures forall x :: x in ContentLines(text) ==> '\n' !in x && Trim(x) != []
  {
    var pieces := Split(ToLf(text), '\n');
    FilterKept(pieces, IsContentLine);
    assert forall x :: x in pieces ==> '\n' !in x;
  }

  /** `ls.indexOf(name)`: the first index holding `name`, or -1. */
  function IndexOf(ls: seq<string>, name: string): (r: int)
    ensures -1 <= r < |ls|
    ensures r == -1 <==> name !in ls
    ensures r >= 0 ==> ls[r] == name && forall k :: 0 <= k < r ==> ls[k] != name
  {
    if ls == [] then -1
    else if ls[0] == name then 0
    else
      var j := IndexOf(ls[1..], name);
      if j == -1 then -1 else j + 1
  }

  /** `required.filter((h) => idx(h) === -1)` */
  function Missing(names: seq<string>, header: seq<string>): (r: seq<string>)
    ensures |r| <= |names|
  {
    if names == [] then []
    else (if IndexOf(header, names[0]) == -1 then [names[0]] else []) + Missing(names[1..], header)
  }

  /** The missing names are exactly the names absent from the header. */
  lemma {:induction false} MissingMembers(names: seq<string>, header: seq<string>)
    ensures forall n :: n in Missing(names, header) <==> n in names && n !in header
  {
    if names != [] {
      MissingMembers(names[1..], header);
    }
  }

  /** The header cells: the first content line's columns, trimmed. */
  function HeaderCells(line: string): seq<string> {
    TrimEach(CsvFields(line))
  }

  /** The message of the `BAD_HEADER` error. */
  function HeaderMessage(missing: seq<string>): string {
    "CSV header missing: " + Join(missing, ", ")
  }

  /** `cols[i] ?? ""` */
  function Cell(cols: seq<string>, i: int): string {
    if 0 <= i < |cols| then cols[i] else []
  }

  /** The row built from one data line's columns. */
  function RowFrom(header: seq<string>, cols: seq<string>): Row {
    Row(
      Cell(cols, IndexOf(header, "raw_text")),
      Cell(cols, IndexOf(header, "type")),
      Cell(cols, IndexOf(header, "normtext")),
      Cell(cols, IndexOf(header, "span_raw")),
      Cell(cols, IndexOf(header, "span_type")),
      Cell(cols, IndexOf(header, "span_norm")))
  }

  /** One row per data line, in order. */
  function DataRows(header: seq<string>, lines: seq<string>): (rows: seq<Row>)
    ensures |rows| == |lines|
  {
    seq(|lines|, k requires 0 <= k < |lines| => RowFrom(header, CsvFields(lines[k])))
  }

  lemma DataRowsSnoc(header: seq<string>, lines: seq<string>, line: string)
    ensures DataRows(header, lines + [line]) == DataRows(header, lines) + [RowFrom(header, CsvFields(line))]
  {
  }

  /** What `parseParallelCsv` returns or throws. Only `BAD_HEADER` is
      thrown; a parsed header is empty exactly when there is no content
      line and then there are no rows; otherwise it names every required
      column and each data line gives one row. */
  function ParseCsv(text: string): (r: ParseResult)
    ensures r.Thrown? ==> r.error.code == "BAD_HEADER"
    ensures r.Parsed? ==> (r.header == [] <==> ContentLines(text) == [])
    ensures r.Parsed? && r.header == [] ==> r.rows == []
    ensures r.Parsed? && r.header != [] ==>
      && (forall n :: n in RequiredColumns ==> n in r.header)
      && |r.rows| == |ContentLines(text)| - 1
  {
    var lines := ContentLines(text);
    if lines == [] then Parsed([], [])
    else
      var header := HeaderCells(lines[0]);
      var missing := Missing(RequiredColumns, header);
      MissingMembers(RequiredColumns, header);
      if missing != [] then Thrown(CsvError("BAD_HEADER", HeaderMessage(missing)))
      else Parsed(header, DataRows(header, lines[1..]))
  }

  /** With a complete header, row `k` is built from content line `k + 1`,
      its cells looked up by the header's first matching index. */
  lemma ParsedRowsAt(text: string)
    ensures var r := ParseCsv(text);
      r.Parsed? && r.header != [] ==>
        forall k :: 0 <= k < |r.rows| ==> r.rows[k] == RowFrom(r.header, CsvFields(ContentLines(text)[k + 1]))
  {
  }

  /** `parseParallelCsv` */
  method ParseParallelCsv(text: string) returns (r: ParseResult)
    ensures r == ParseCsv(text)
  {
    var lines := ContentLines(text);
    if |lines| == 0 {
      return Parsed([], []);
    }
    var cols := ParseCsvLine(lines[0]);
    var header := TrimEach(cols);
    var missing := Missing(RequiredColumns, header);
    if |missing| > 0 {
      return Thrown(CsvError("BAD_HEADER", HeaderMessage(missing)));
    }
    var rows := ParseDataLines(header, lines);
    r := Parsed(header, rows);
  }

  /** The row loop of `parseParallelCsv`: one row per line after the
      header line, in order. */
  method ParseDataLines(header: seq<string>, lines: seq<string>) returns (rows: seq<Row>)
    requires |lines| >= 1
    ensures rows == DataRows(header, lines[1..])
  {
    rows := [];
    var i := 1;
    while i < |lines|
      invariant 1 <= i <= |lines|
      invariant rows == DataRows(header, lines[1..i])
    {
      var cols := ParseCsvLine(lines[i]);
      assert lines[1..i + 1] == lines[1..i] + [lines[i]];
      DataRowsSnoc(header, lines[1..i], lines[i]);
      rows := rows + [RowFrom(header, cols)];
      i := i + 1;
    }
    assert lines[1..i] == lines[1..];
  }

  /** The missing names keep the order of the required list. */
  lemma {:induction false} MissingAppend(a: seq<string>, b: seq<string>, header: seq<string>)
    ensures Missing(a + b, header) == Missing(a, header) + Missing(b, header)
  {
    if a == [] {
      assert a + b == b;
    } else {
      var ab := a + b;
      assert ab[0] == a[0] && ab[1..] == a[1..] + b;
      MissingAppend(a[1..], b, header);
      var head := if IndexOf(header, a[0]) == -1 then [a[0]] else [];
      assert Missing(ab, header) == head + Missing(ab[1..], header);
      assert Missing(a, header) == head + Missing(a[1..], header);
    }
  }

  /** The header check: the error is thrown exactly when a required
      column is absent from the trimmed header cells, and its message
      lists the absent ones. */
  lemma HeaderError(text: string)
    ensures var lines := ContentLines(text);
      ParseCsv(text).Thrown? <==>
        lines != [] && exists n :: n in RequiredColumns && n !in HeaderCells(lines[0])
    ensures var lines := ContentLines(text);
      ParseCsv(text).Thrown? ==>
        ParseCsv(text).error == CsvError("BAD_HEADER", HeaderMessage(Missing(RequiredColumns, HeaderCells(lines[0]))))
  {
    var lines := ContentLines(text);
    if lines != [] {
      MissingMembers(RequiredColumns, HeaderCells(lines[0]));
      var missing := Missing(RequiredColumns, HeaderCells(lines[0]));
      if missing != [] {
        assert missing[0] in missing;
      }
    }
  }

  /** Text made of whitespace only parses to an empty header and no rows. */
  lemma ParseBlankText(text: string)
    requires AllWhiteSpace(text)
    ensures ParseCsv(text) == Parsed([], [])
  {
    var t := ToLf(text);
    assert AllWhiteSpace(t) by {
      forall i | 0 <= i < |t| ensures IsWhiteSpace(t[i]) {
        assert t[i] in t;
      }
    }
    var pieces := Split(t, '\n');
    forall k | 0 <= k < |pieces| ensures Trim(pieces[k]) == [] {
      JoinHasPieceChars(pieces, "\n", k);
      assert AllWhiteSpace(pieces[k]) by {
        forall i | 0 <= i < |pieces[k]| ensures IsWhiteSpace(pieces[k][i]) {
          assert pieces[k][i] in pieces[k];
        }
      }
      TrimEmpty(pieces[k]);
    }
    FilterNone(pieces, IsContentLine);
  }

  // ---------------------------------------------------------------------
  // Reading back what toParallelCsv writes

  /** A cell the serializer writes on one line and the tokenizer reads
      back unchanged: no line break and not made of quotes only. */
  predicate WritableCell(c: string) {
    '\n' !in c && '\r' !in c && !OnlyQuotes(c)
  }

  predicate WritableRow(r: Row) {
    forall k :: 0 <= k < 6 ==> WritableCell(Cells(r)[k])
  }

  /** `indexOf` finds the first occurrence. */
  lemma {:induction false} IndexOfFirst(ls: seq<string>, name: string, k: nat)
    requires k < |ls| && ls[k] == name
    requires forall j :: 0 <= j < k ==> ls[j] != name
    ensures IndexOf(ls, name) == k
  {
    if k > 0 {
      IndexOfFirst(ls[1..], name, k - 1);
    }
  }

  /** The required columns sit at indices 0 to 5, in their own order. */
  lemma RequiredIndex(k: nat)
    requires k < 6
    ensures IndexOf(RequiredColumns, RequiredColumns[k]) == k
  {
    var rc := RequiredColumns;
    if k == 0 { IndexOfFirst(rc, "raw_text", 0); }
    else if k == 1 { IndexOfFirst(rc, "type", 1); }
    else if k == 2 { IndexOfFirst(rc, "normtext", 2); }
    else if k == 3 { IndexOfFirst(rc, "span_raw", 3); }
    else if k == 4 { IndexOfFirst(rc, "span_type", 4); }
    else { IndexOfFirst(rc, "span_norm", 5); }
  }

  /** A header whose columns `raw_text` to `span_norm` are found at 0 to 5. */
  predicate StandardHeader(h: seq<string>) {
    && IndexOf(h, "raw_text") == 0 && IndexOf(h, "type") == 1 && IndexOf(h, "normtext") == 2
    && IndexOf(h, "span_raw") == 3 && IndexOf(h, "span_type") == 4 && IndexOf(h, "span_norm") == 5
  }

  lemma RequiredColumnsStandard()
    ensures StandardHeader(RequiredColumns)
  {
    RequiredIndex(0);
    RequiredIndex(1);
    RequiredIndex(2);
    RequiredIndex(3);
    RequiredIndex(4);
    RequiredIndex(5);
  }

  /** Under such a header, a row's cells give the row back. */
  lemma RowFromCells(h: seq<string>, r: Row)
    requires StandardHeader(h)
    ensures RowFrom(h, Cells(r)) == r
  {
  }

  /** Column names are made of lower-case letters and underscores. */
  lemma RequiredLetters()
    ensures forall k, c :: 0 <= k < |RequiredColumns| && c in RequiredColumns[k] ==> 'a' <= c <= 'z' || c == '_'
  {
    forall k | 0 <= k < |RequiredColumns|
      ensures forall c :: c in RequiredColumns[k] ==> 'a' <= c <= 'z' || c == '_'
    {
      assert forall c :: c in RequiredColumns[k] ==> 'a' <= c <= 'z' || c == '_';
    }
  }

  /** Column names are lower-case words: no comma, no quote, no whitespace. */
  lemma RequiredNames()
    ensures forall k :: 0 <= k < |RequiredColumns| ==>
      ',' !in RequiredColumns[k] && '"' !in RequiredColumns[k] && IsTrimmed(RequiredColumns[k])
  {
    forall k | 0 <= k < |RequiredColumns|
      ensures ',' !in RequiredColumns[k] && '"' !in RequiredColumns[k] && IsTrimmed(RequiredColumns[k])
    {
      assert forall c :: c in RequiredColumns[k] ==> 'a' <= c <= 'z' || c == '_';
    }
  }

  /** The written header line joins the required columns with commas. */
  lemma HeaderLineJoin()
    ensures Join(RequiredColumns, ",") == HeaderLine
  {
    var l5: seq<string> := ["span_norm"];
    var l4 := ["span_type"] + l5;
    var l3 := ["span_raw"] + l4;
    var l2 := ["normtext"] + l3;
    var l1 := ["type"] + l2;
    RequiredColumnsShape();
    JoinCons("raw_text", l1, ",");
    JoinCons("type", l2, ",");
    JoinCons("normtext", l3, ",");
    JoinCons("span_raw", l4, ",");
    JoinCons("span_type", l5, ",");
  }

  lemma RequiredColumnsShape()
    ensures RequiredColumns
         == ["raw_text"] + (["type"] + (["normtext"] + (["span_raw"] + (["span_type"] + ["span_norm"]))))
  {
  }

  /** Joining a list with a first piece in front. */
  lemma JoinCons(x: string, ls: seq<string>, sep: string)
    requires ls != []
    ensures Join([x] + ls, sep) == x + (sep + Join(ls, sep))
  {
    assert ([x] + ls)[1..] == ls;
  }

  /** The written header line reads back as the required columns. */
  lemma HeaderLineCells()
    ensures HeaderCells(HeaderLine) == RequiredColumns
  {
    var rc := RequiredColumns;
    HeaderLineJoin();
    RequiredNames();
    forall c | c in HeaderLine ensures c != '"' {
      JoinChars(rc, ",", c);
    }
    SplitJoin(rc, ',');
    CsvFieldsNoQuotes(HeaderLine);
    TrimEachTrimmed(rc);
  }

  /** No required column is missing from the written header. */
  lemma NoneMissing()
    ensures Missing(RequiredColumns, RequiredColumns) == []
  {
    NoneMissingFrom(RequiredColumns, RequiredColumns);
  }

  /** Nothing is missing when every name is in the header. */
  lemma {:induction false} NoneMissingFrom(names: seq<string>, header: seq<string>)
    requires forall k :: 0 <= k < |names| ==> names[k] in header
    ensures Missing(names, header) == []
  {
    if names != [] {
      NoneMissingFrom(names[1..], header);
    }
  }

  /** A written row line reads back as the row's cells. */
  lemma RowLineCells(r: Row)
    requires WritableRow(r)
    ensures CsvFields(RowLine(r)) == Cells(r)
  {
    assert forall k :: 0 <= k < 6 ==> !OnlyQuotes(Cells(r)[k]);
    EscapedCells(Cells(r));
  }

  /** A written row line holds no line break and is not blank. */
  lemma RowLineShape(r: Row)
    requires WritableRow(r)
    ensures '\n' !in RowLine(r) && '\r' !in RowLine(r)
    ensures Trim(RowLine(r)) != []
  {
    var es := EscapeEach(Cells(r));
    var line := RowLine(r);
    forall k | 0 <= k < |es| ensures '\n' !in es[k] && '\r' !in es[k] {
      assert WritableCell(Cells(r)[k]);
    }
    forall c | c in line ensures c != '\n' && c != '\r' {
      JoinChars(es, ",", c);
    }
    assert line[|es[0]|] == ',' by {
      assert [es[0]] + es[1..] == es;
      JoinCons(es[0], es[1..], ",");
    }
    NotBlankAt(line, |es[0]|);
  }

  /** Text with a code point other than whitespace is not blank. */
  lemma NotBlankAt(s: string, i: nat)
    requires i < |s| && !IsWhiteSpace(s[i])
    ensures Trim(s) != []
  {
    TrimEmpty(s);
  }

  /** A written row reads back as itself under a standard header. */
  lemma RowReadsBack(h: seq<string>, r: Row)
    requires StandardHeader(h) && WritableRow(r)
    ensures RowFrom(h, CsvFields(RowLine(r))) == r
  {
    RowLineCells(r);
    RowFromCells(h, r);
  }

  /** The rows read back from their written lines. */
  lemma DataRowsOfRowLines(h: seq<string>, rows: seq<Row>)
    requires StandardHeader(h)
    requires forall k :: 0 <= k < |rows| ==> WritableRow(rows[k])
    ensures DataRows(h, RowLines(rows)) == rows
  {
    var lines := RowLines(rows);
    forall k | 0 <= k < |rows| ensures RowFrom(h, CsvFields(lines[k])) == rows[k] {
      RowReadsBack(h, rows[k]);
    }
    DataRowsPointwise(h, lines, rows);
  }

  lemma DataRowsPointwise(h: seq<string>, lines: seq<string>, rows: seq<Row>)
    requires |lines| == |rows|
    requires forall k :: 0 <= k < |rows| ==> RowFrom(h, CsvFields(lines[k])) == rows[k]
    ensures DataRows(h, lines) == rows
  {
  }

  /** The pieces text written around a header line `h` and body lines
      splits into at line feeds: `h`, the lines, and the empty piece after
      the final line feed (two when there is no line). */
  function Pieces(h: string, lines: seq<string>): seq<string> {
    if lines == [] then [h, [], []] else [h] + lines + [[]]
  }

  /** The pieces of what `toParallelCsv` writes around `h`. */
  function WrittenPieces(h: string, rows: seq<Row>): seq<string> {
    Pieces(h, RowLines(rows))
  }

  lemma WrittenPiecesJoin(h: string, rows: seq<Row>)
    ensures Join(WrittenPieces(h, rows), "\n") == CsvText(h, rows)
  {
    PiecesJoin(h, RowLines(rows));
  }

  /** The header, the lines and a final empty piece (two when there is no
      line), joined at line feeds. */
  lemma PiecesJoin(h: string, lines: seq<string>)
    ensures Join(Pieces(h, lines), "\n") == h + "\n" + Join(lines, "\n") + "\n"
  {
    if lines == [] {
      var e: string := [];
      assert [h, e, e][1..] == [e, e];
      assert [e, e][1..] == [e];
      assert Join([e, e], "\n") == "\n";
      assert Join([h, e, e], "\n") == h + "\n" + "\n";
      assert Join(lines, "\n") == [];
    } else {
      JoinSnoc([h] + lines, [], "\n");
      assert ([h] + lines)[1..] == lines;
      assert Join([h] + lines, "\n") == h + "\n" + Join(lines, "\n");
    }
  }

  /** The header line holds no line break and is not blank. */
  lemma HeaderLineShape()
    ensures '\n' !in HeaderLine && '\r' !in HeaderLine
    ensures Trim(HeaderLine) != []
  {
    HeaderLineNoBreak();
    NotBlankAt(HeaderLine, 0);
  }

  lemma HeaderLineNoBreak()
    ensures '\n' !in HeaderLine
    ensures '\r' !in HeaderLine
  {
    HeaderLineJoin();
    RequiredLetters();
    forall c | c in HeaderLine ensures c != '\n' && c != '\r' {
      JoinChars(RequiredColumns, ",", c);
    }
  }

  /** No written row line holds a line break or is blank. */
  lemma RowLinesShape(rows: seq<Row>)
    requires forall k :: 0 <= k < |rows| ==> WritableRow(rows[k])
    ensures forall k :: 0 <= k < |RowLines(rows)| ==>
      '\n' !in RowLines(rows)[k] && '\r' !in RowLines(rows)[k] && Trim(RowLines(rows)[k]) != []
  {
    forall k | 0 <= k < |rows|
      ensures '\n' !in RowLines(rows)[k] && '\r' !in RowLines(rows)[k] && Trim(RowLines(rows)[k]) != []
    {
      RowLineShape(rows[k]);
    }
  }

  /** No piece holds a line break when neither the header nor a line does. */
  lemma PiecesShape(h: string, lines: seq<string>)
    requires '\n' !in h && '\r' !in h
    requires forall k :: 0 <= k < |lines| ==> '\n' !in lines[k] && '\r' !in lines[k]
    ensures forall k :: 0 <= k < |Pieces(h, lines)| ==>
      '\n' !in Pieces(h, lines)[k] && '\r' !in Pieces(h, lines)[k]
  {
    var pieces := Pieces(h, lines);
    forall k | 0 <= k < |pieces| ensures '\n' !in pieces[k] && '\r' !in pieces[k] {
      if k == 0 {
        assert pieces[k] == h;
      } else if lines == [] || k == |pieces| - 1 {
        assert pieces[k] == [];
      } else {
        assert pieces[k] == lines[k - 1];
      }
    }
  }

  /** Text written around a header line without line breaks has no
      carriage return, so unifying line endings leaves it as it is. */
  lemma WrittenNoCr(h: string, rows: seq<Row>)
    requires '\n' !in h && '\r' !in h
    requires forall k :: 0 <= k < |rows| ==> WritableRow(rows[k])
    ensures ToLf(CsvText(h, rows)) == CsvText(h, rows)
    ensures Split(CsvText(h, rows), '\n') == WrittenPieces(h, rows)
  {
    var pieces := WrittenPieces(h, rows);
    WrittenPiecesJoin(h, rows);
    RowLinesShape(rows);
    PiecesShape(h, RowLines(rows));
    forall c | c in CsvText(h, rows) ensures c != '\r' {
      JoinChars(pieces, "\n", c);
    }
    ToLfNoCr(CsvText(h, rows));
    SplitJoin(pieces, '\n');
  }

  /** The content lines of text written around a header line without line
      breaks that is not blank: that header line and one line per row. */
  lemma CsvPieces(h: string, rows: seq<Row>)
    requires '\n' !in h && '\r' !in h && Trim(h) != []
    requires forall k :: 0 <= k < |rows| ==> WritableRow(rows[k])
    ensures ContentLines(CsvText(h, rows)) == [h] + RowLines(rows)
  {
    WrittenNoCr(h, rows);
    ContentLinesOfPieces(CsvText(h, rows), WrittenPieces(h, rows));
    RowLinesShape(rows);
    PiecesKept(h, RowLines(rows));
  }

  lemma ContentLinesOfPieces(text: string, pieces: seq<string>)
    requires ToLf(text) == text && Split(text, '\n') == pieces
    ensures ContentLines(text) == NonBlankLines(pieces)
  {
  }

  /** Dropping the blank pieces leaves the header line and the lines. */
  lemma PiecesKept(h: string, lines: seq<string>)
    requires Trim(h) != []
    requires forall k :: 0 <= k < |lines| ==> Trim(lines[k]) != []
    ensures NonBlankLines(Pieces(h, lines)) == [h] + lines
  {
    if lines == [] {
      HeaderOnlyKept(h);
    } else {
      var kept := [h] + lines;
      forall k | 0 <= k < |kept| ensures IsContentLine(kept[k]) {
        if k > 0 {
          assert kept[k] == lines[k - 1];
        }
      }
      FilterAll(kept, IsContentLine);
      EmptyLineDropped();
      FilterAppend(kept, [[]], IsContentLine);
    }
  }

  lemma EmptyLineDropped()
    ensures Filter([[]], IsContentLine) == []
  {
    assert !IsContentLine([]);
    FilterNone([[]], IsContentLine);
  }

  lemma HeaderOnlyKept(h: string)
    requires Trim(h) != []
    ensures NonBlankLines([h, [], []]) == [h]
  {
    assert [h, [], []] == [h] + [[], []];
    FilterAll([h], IsContentLine);
    FilterNone([[], []], IsContentLine);
    FilterAppend([h], [[], []], IsContentLine);
  }

  /** `parseParallelCsv` reads back what `toParallelCsv` writes: the
      required header and the same rows, as long as no cell holds a line
      break or is made of quotes only. */
  lemma RoundTrip(rows: seq<Row>)
    requires forall k :: 0 <= k < |rows| ==> WritableRow(rows[k])
    ensures ParseCsv(ToParallelCsv(rows)) == Parsed(RequiredColumns, rows)
  {
    HeaderLineShape();
    CsvPieces(HeaderLine, rows);
    assert ToParallelCsv(rows) == CsvText(HeaderLine, rows);
    var lines := [HeaderLine] + RowLines(rows);
    assert lines[0] == HeaderLine && lines[1..] == RowLines(rows);
    HeaderLineCells();
    NoneMissing();
    RequiredColumnsStandard();
    DataRowsOfRowLines(RequiredColumns, rows);
  }

  /** A data line with fewer columns than the header gives empty strings
      for the missing ones: a line without commas or quotes fills
      `raw_text` only, untrimmed. */
  lemma ShortRowDefaults(h: seq<string>, line: string)
    requires StandardHeader(h)
    requires ',' !in line && '"' !in line
    ensures RowFrom(h, CsvFields(line)) == Row(line, [], [], [], [], [])
  {
    CsvFieldsNoQuotes(line);
    SplitNoSep(line, ',');
  }

  // ---------------------------------------------------------------------
  // splitTypesPipe

  /** `.filter(Boolean)` on strings. */
  function NonEmpty(ls: seq<string>): (r: seq<string>)
    ensures |r| <= |ls|
  {
    if ls == [] then [] else (if ls[0] == [] then [] else [ls[0]]) + NonEmpty(ls[1..])
  }

  /** A tag as `splitTypesPipe` returns it: non-empty, trimmed, no `|`. */
  predicate IsTag(t: string) {
    t != [] && IsTrimmed(t) && '|' !in t
  }

  /** `splitTypesPipe`: the `|`-separated pieces of `s`, trimmed, with
      the empty ones dropped. */
  function SplitTypesPipe(s: string): (tags: seq<string>)
    ensures forall k :: 0 <= k < |tags| ==> IsTag(tags[k])
  {
    var trimmed := TrimEach(Split(s, '|'));
    TrimmedPieces(Split(s, '|'));
    NonEmptyTags(trimmed);
    NonEmpty(trimmed)
  }

  /** Trimmed pieces without `|` keep not having one. */
  lemma TrimmedPieces(pieces: seq<string>)
    requires forall k :: 0 <= k < |pieces| ==> '|' !in pieces[k]
    ensures forall k :: 0 <= k < |pieces| ==> IsTrimmed(TrimEach(pieces)[k]) && '|' !in TrimEach(pieces)[k]
  {
    forall k | 0 <= k < |pieces| ensures '|' !in TrimEach(pieces)[k] {
      TrimInside(pieces[k], '|');
    }
  }

  lemma {:induction false} NonEmptyTags(ls: seq<string>)
    requires forall k :: 0 <= k < |ls| ==> IsTrimmed(ls[k]) && '|' !in ls[k]
    ensures forall k :: 0 <= k < |NonEmpty(ls)| ==> IsTag(NonEmpty(ls)[k])
  {
    if ls != [] {
      NonEmptyTags(ls[1..]);
    }
  }

  lemma {:induction false} NonEmptyOfNonEmpty(ls: seq<string>)
    requires forall k :: 0 <= k < |ls| ==> ls[k] != []
    ensures NonEmpty(ls) == ls
  {
    if ls != [] {
      NonEmptyOfNonEmpty(ls[1..]);
      assert [ls[0]] + ls[1..] == ls;
    }
  }

  /** The filter keeps each non-empty string, in order: it distributes
      over concatenation. */
  lemma {:induction false} NonEmptyAppend(a: seq<string>, b: seq<string>)
    ensures NonEmpty(a + b) == NonEmpty(a) + NonEmpty(b)
    decreases |a|
  {
    if a == [] {
      assert a + b == b;
    } else {
      assert (a + b)[1..] == a[1..] + b;
      NonEmptyAppend(a[1..], b);
    }
  }

  /** What the filter keeps is exactly the non-empty strings of its input. */
  lemma {:induction false} NonEmptyMembers(ls: seq<string>, x: string)
    ensures x in NonEmpty(ls) <==> x in ls && x != []
    decreases |ls|
  {
    if ls != [] {
      NonEmptyMembers(ls[1..], x);
      assert ls == [ls[0]] + ls[1..];
    }
  }

  /** A `|` splits the tags of the text before it from those after it. */
  lemma SplitTypesPipeAppend(a: string, b: string)
    ensures SplitTypesPipe(a + "|" + b) == SplitTypesPipe(a) + SplitTypesPipe(b)
  {
    SplitAppend(a, b, '|');
    TrimEachAppend(Split(a, '|'), Split(b, '|'));
    NonEmptyAppend(TrimEach(Split(a, '|')), TrimEach(Split(b, '|')));
  }

  /** Text without a `|` is one tag, trimmed, unless it is only whitespace. */
  lemma SplitTypesPipeOne(s: string)
    requires '|' !in s
    ensures SplitTypesPipe(s) == (if Trim(s) == [] then [] else [Trim(s)])
  {
    SplitNoSep(s, '|');
    assert TrimEach([s]) == [Trim(s)];
    assert NonEmpty([Trim(s)]) == (if Trim(s) == [] then [] else [Trim(s)]) + NonEmpty([]);
  }

  /** A tag with whitespace around it and no `|` is that one tag. */
  lemma SplitTypesPipePadded(w1: string, t: string, w2: string)
    requires AllWhiteSpace(w1) && AllWhiteSpace(w2) && IsTag(t)
    ensures SplitTypesPipe(w1 + t + w2) == [t]
  {
    assert '|' !in w1 + t + w2;
    TrimPadded(w1, t, w2);
    SplitTypesPipeOne(w1 + t + w2);
  }

  /** Whitespace alone holds no tag. */
  lemma SplitTypesPipeBlank(w: string)
    requires AllWhiteSpace(w)
    ensures SplitTypesPipe(w) == []
  {
    assert '|' !in w;
    TrimEmpty(w);
    SplitTypesPipeOne(w);
  }

  /** `" X | |X "` gives the tag `X` twice, and so for every tag and every
      whitespace padding: pieces are trimmed, the blank one is dropped and
      duplicates are kept. */
  lemma SplitTypesPipeDuplicateTag(s: string, w: string, t: string)
    requires AllWhiteSpace(w) && IsTag(t)
    requires s == w + t + w + "|" + w + "|" + t + w
    ensures SplitTypesPipe(s) == [t, t]
  {
    var first, last := w + t + w, [] + t + w;
    var rest := w + "|" + last;
    assert s == first + "|" + rest;
    SplitTypesPipePadded(w, t, w);
    SplitTypesPipePadded([], t, w);
    SplitTypesPipeBlank(w);
    SplitTypesPipeAppend(w, last);
    SplitTypesPipeAppend(first, rest);
  }

  /** Splitting the `|`-join of tags gives the same tags back, in order
      and with their duplicates. */
  lemma SplitJoinedTags(tags: seq<string>)
    requires forall k :: 0 <= k < |tags| ==> IsTag(tags[k])
    ensures SplitTypesPipe(Join(tags, "|")) == tags
  {
    if tags == [] {
      assert Split([], '|') == [[]];
      assert TrimEach([[]]) == [Trim([])];
      assert Trim([]) == [];
    } else {
      SplitJoin(tags, '|');
      TrimEachTrimmed(tags);
      NonEmptyOfNonEmpty(tags);
    }
  }

  /** Re-splitting the stored `|`-join of the tags of `s` gives the same tags. */
  lemma SplitTypesPipeRejoin(s: string)
    ensures SplitTypesPipe(Join(SplitTypesPipe(s), "|")) == SplitTypesPipe(s)
  {
    SplitJoinedTags(SplitTypesPipe(s));
  }

  // ---------------------------------------------------------------------
  // validateRow

  /** `{ ok: true }` or `{ ok: false, reason }` */
  datatype Verdict = Accepted | Rejected(reason: string)

  /** What `validateRow` accepts: trimmed `raw_text` and `normtext` are
      non-empty, there is a `type` tag, and a non-blank `span_raw` comes
      with a non-blank `span_norm` and a `span_type` tag. */
  predicate RowIsValid(row: Row) {
    && Trim(row.rawText) != [] && Trim(row.normText) != []
    && SplitTypesPipe(row.types) != []
    && (Trim(row.spanRaw) != [] ==> Trim(row.spanNorm) != [] && SplitTypesPipe(row.spanTypes) != [])
  }

  /** `validateRow`: accepts exactly the valid rows; otherwise the first
      failing check, in the order raw/norm, type, span_norm, span_type,
      gives the reason. */
  function ValidateRow(row: Row): (v: Verdict)
    ensures v.Accepted? <==> RowIsValid(row)
    ensures (Trim(row.rawText) == [] || Trim(row.normText) == []) ==>
      v == Rejected("Missing raw_text or normtext")
    ensures Trim(row.rawText) != [] && Trim(row.normText) != [] && SplitTypesPipe(row.types) == [] ==>
      v == Rejected("Missing type")
    ensures Trim(row.rawText) != [] && Trim(row.normText) != [] && SplitTypesPipe(row.types) != [] ==>
      && (Trim(row.spanRaw) != [] && Trim(row.spanNorm) == [] ==>
            v == Rejected("span_norm required when span_raw provided"))
      && (Trim(row.spanRaw) != [] && Trim(row.spanNorm) != [] && SplitTypesPipe(row.spanTypes) == [] ==>
            v == Rejected("span_type required when span_raw provided"))
  {
    var raw := Trim(row.rawText);
    var norm := Trim(row.normText);
    var types := SplitTypesPipe(row.types);
    if raw == [] || norm == [] then Rejected("Missing raw_text or normtext")
    else if |types| == 0 then Rejected("Missing type")
    else
      var spanRaw := Trim(row.spanRaw);
      var spanNorm := Trim(row.spanNorm);
      var spanTypes := SplitTypesPipe(row.spanTypes);
      if spanRaw != [] && spanNorm == [] then Rejected("span_norm required when span_raw provided")
      else if spanRaw != [] && |spanTypes| == 0 then Rejected("span_type required when span_raw provided")
      else Accepted
  }

  // ---------------------------------------------------------------------
  // The row loop of onPickFile

  /** `rows.filter(p).length` */
  function CountWhere<T>(xs: seq<T>, p: T -> bool): (n: nat)
    ensures n <= |xs|
  {
    if xs == [] then 0 else CountWhere(xs[..|xs| - 1], p) + (if p(xs[|xs| - 1]) then 1 else 0)
  }

  /** `xs.map(f).filter(p)` */
  function MapFilter<T, U>(xs: seq<T>, f: T -> U, p: U -> bool): (out: seq<U>)
    ensures |out| <= |xs|
  {
    if xs == [] then []
    else
      var last := xs[|xs| - 1];
      MapFilter(xs[..|xs| - 1], f, p) + (if p(f(last)) then [f(last)] else [])
  }

  /** Every kept element passes. */
  lemma {:induction false} MapFilterPasses<T, U>(xs: seq<T>, f: T -> U, p: U -> bool)
    ensures forall k :: 0 <= k < |MapFilter(xs, f, p)| ==> p(MapFilter(xs, f, p)[k])
  {
    if xs != [] {
      var init := xs[..|xs| - 1];
      MapFilterPasses(init, f, p);
      var last := xs[|xs| - 1];
      var a := MapFilter(init, f, p);
      var out := MapFilter(xs, f, p);
      assert out == a + (if p(f(last)) then [f(last)] else []);
      forall k | 0 <= k < |out| ensures p(out[k]) {
        if k < |a| { assert out[k] == a[k]; }
      }
    }
  }

  /** Every kept element is the image of an input element. */
  lemma {:induction false} MapFilterFrom<T, U>(xs: seq<T>, f: T -> U, p: U -> bool, y: U)
    requires y in MapFilter(xs, f, p)
    ensures exists x :: x in xs && y == f(x)
  {
    var init := xs[..|xs| - 1];
    var last := xs[|xs| - 1];
    if y in MapFilter(init, f, p) {
      MapFilterFrom(init, f, p, y);
      var x :| x in init && y == f(x);
      assert x in xs;
    } else {
      assert last in xs;
    }
  }

  lemma {:induction false} CountWhereAppend<T>(a: seq<T>, b: seq<T>, p: T -> bool)
    ensures CountWhere(a + b, p) == CountWhere(a, p) + CountWhere(b, p)
    decreases |b|
  {
    if b == [] {
      assert a + b == a;
    } else {
      var ab := a + b;
      assert ab[..|ab| - 1] == a + b[..|b| - 1];
      assert ab[|ab| - 1] == b[|b| - 1];
      CountWhereAppend(a, b[..|b| - 1], p);
    }
  }

  lemma {:induction false} MapFilterAppend<T, U>(a: seq<T>, b: seq<T>, f: T -> U, p: U -> bool)
    ensures MapFilter(a + b, f, p) == MapFilter(a, f, p) + MapFilter(b, f, p)
    decreases |b|
  {
    if b == [] {
      assert a + b == a;
    } else {
      var ab := a + b;
      assert ab[..|ab| - 1] == a + b[..|b| - 1];
      assert ab[|ab| - 1] == b[|b| - 1];
      MapFilterAppend(a, b[..|b| - 1], f, p);
    }
  }

  /** The row the loop builds from a parsed row: the four text fields
      through the Khmer normaliser, the two tag fields re-joined from
      their cleaned tags. */
  function NormalizedRow(nfc: string -> string, r: Row): Row
  {
    Row(
      K.Normalization(nfc, r.rawText).text,
      Join(SplitTypesPipe(r.types), "|"),
      K.Normalization(nfc, r.normText).text,
      K.Normalization(nfc, r.spanRaw).text,
      Join(SplitTypesPipe(r.spanTypes), "|"),
      K.Normalization(nfc, r.spanNorm).text)
  }

  /** The normalised row holds cleaned text and the same tags. */
  lemma NormalizedRowClean(nfc: string -> string, r: Row)
    ensures var n := NormalizedRow(nfc, r);
      && K.Clean(n.rawText) && K.Clean(n.normText) && K.Clean(n.spanRaw) && K.Clean(n.spanNorm)
      && SplitTypesPipe(n.types) == SplitTypesPipe(r.types)
      && SplitTypesPipe(n.spanTypes) == SplitTypesPipe(r.spanTypes)
  {
    SplitTypesPipeRejoin(r.types);
    SplitTypesPipeRejoin(r.spanTypes);
  }

  /** Whether any of the four normalised fields reported a correction. */
  predicate RowCorrected(nfc: string -> string, r: Row) {
    || K.Normalization(nfc, r.rawText).corrected
    || K.Normalization(nfc, r.normText).corrected
    || K.Normalization(nfc, r.spanRaw).corrected
    || K.Normalization(nfc, r.spanNorm).corrected
  }

  function Normalizer(nfc: string -> string): Row -> Row {
    r => NormalizedRow(nfc, r)
  }

  function CorrectionFlag(nfc: string -> string): Row -> bool {
    r => RowCorrected(nfc, r)
  }

  predicate IsAccepted(n: Row) {
    ValidateRow(n).Accepted?
  }

  /** The normalised rows that validate, in input order: each is valid and
      comes from a parsed row, and there is one per parsed row whose
      normalised form validates. */
  function AcceptedRows(nfc: string -> string, rows: seq<Row>): (out: seq<Row>)
    ensures |out| <= |rows|
  {
    MapFilter(rows, Normalizer(nfc), IsAccepted)
  }

  /** Every accepted row passes `validateRow`. */
  lemma AcceptedRowsValid(nfc: string -> string, rows: seq<Row>)
    ensures forall k :: 0 <= k < |AcceptedRows(nfc, rows)| ==> ValidateRow(AcceptedRows(nfc, rows)[k]).Accepted?
  {
    MapFilterPasses(rows, Normalizer(nfc), IsAccepted);
  }

  /** Every accepted row is the normalised form of a parsed row. */
  lemma AcceptedRowsFrom(nfc: string -> string, rows: seq<Row>, n: Row)
    requires n in AcceptedRows(nfc, rows)
    ensures exists r :: r in rows && n == NormalizedRow(nfc, r)
  {
    MapFilterFrom(rows, Normalizer(nfc), IsAccepted, n);
  }

  /** The number of rows with a correction, accepted or not. */
  function CorrectedCount(nfc: string -> string, rows: seq<Row>): (n: nat)
    ensures n <= |rows|
  {
    CountWhere(rows, CorrectionFlag(nfc))
  }

  /** The accepted rows of a concatenation are those of each part, in order. */
  lemma AcceptedRowsAppend(nfc: string -> string, a: seq<Row>, b: seq<Row>)
    ensures AcceptedRows(nfc, a + b) == AcceptedRows(nfc, a) + AcceptedRows(nfc, b)
  {
    MapFilterAppend(a, b, Normalizer(nfc), IsAccepted);
  }

  /** The corrected count of a concatenation is the sum of the parts'. */
  lemma CorrectedCountAppend(nfc: string -> string, a: seq<Row>, b: seq<Row>)
    ensures CorrectedCount(nfc, a + b) == CorrectedCount(nfc, a) + CorrectedCount(nfc, b)
  {
    CountWhereAppend(a, b, CorrectionFlag(nfc));
  }

  /** A single element is kept when its image passes. */
  lemma MapFilterOne<T, U>(x: T, f: T -> U, p: U -> bool)
    ensures MapFilter([x], f, p) == if p(f(x)) then [f(x)] else []
  {
    assert [x][..0] == [];
  }

  /** A single element counts when it passes. */
  lemma CountWhereOne<T>(x: T, p: T -> bool)
    ensures CountWhere([x], p) == if p(x) then 1 else 0
  {
    assert [x][..0] == [];
  }

  lemma TakeOneMore<T>(xs: seq<T>, i: nat)
    requires i < |xs|
    ensures xs[..i + 1] == xs[..i] + [xs[i]]
  {
  }

  /** One row is accepted when its normalised form validates. */
  lemma AcceptedRowsOne(nfc: string -> string, r: Row)
    ensures AcceptedRows(nfc, [r]) == if IsAccepted(NormalizedRow(nfc, r)) then [NormalizedRow(nfc, r)] else []
  {
    MapFilterOne(r, Normalizer(nfc), IsAccepted);
  }

  /** One row counts when one of its fields was corrected. */
  lemma CorrectedCountOne(nfc: string -> string, r: Row)
    ensures CorrectedCount(nfc, [r]) == if RowCorrected(nfc, r) then 1 else 0
  {
    CountWhereOne(r, CorrectionFlag(nfc));
  }

  /** What one more iteration of the row loop adds. */
  lemma ProcessStep(nfc: string -> string, rows: seq<Row>, i: nat)
    requires i < |rows|
    ensures AcceptedRows(nfc, rows[..i + 1]) == AcceptedRows(nfc, rows[..i]) + AcceptedRows(nfc, [rows[i]])
    ensures CorrectedCount(nfc, rows[..i + 1]) == CorrectedCount(nfc, rows[..i]) + CorrectedCount(nfc, [rows[i]])
  {
    TakeOneMore(rows, i);
    AcceptedRowsAppend(nfc, rows[..i], [rows[i]]);
    CorrectedCountAppend(nfc, rows[..i], [rows[i]]);
  }

  /** The body of the loop of `onPickFile` for one parsed row: normalise
      its four text fields, count it when one of them was corrected, and
      keep the normalised row when it validates. */
  method ProcessRow(nfc: string -> string, r: Row, out: seq<Row>, valid: nat, corrected: nat)
    returns (out': seq<Row>, valid': nat, corrected': nat)
    requires valid == |out|
    ensures out' == out + AcceptedRows(nfc, [r]) && valid' == |out'|
    ensures corrected' == corrected + CorrectedCount(nfc, [r])
  {
    AcceptedRowsOne(nfc, r);
    CorrectedCountOne(nfc, r);
    var normalizedRow, rowCorrected := NormalizeRow(nfc, r);
    corrected' := if rowCorrected then corrected + 1 else corrected;
    out', valid' := KeepIfValid(normalizedRow, out, valid);
  }

  /** One iteration of the loop at index `i`: from the accepted rows and
      counts of the rows before `i` to those of the rows up to `i`. */
  method ProcessRowAt(nfc: string -> string, rows: seq<Row>, i: nat, out: seq<Row>, valid: nat, corrected: nat)
    returns (out': seq<Row>, valid': nat, corrected': nat)
    requires i < |rows|
    requires out == AcceptedRows(nfc, rows[..i]) && valid == |out|
    requires corrected == CorrectedCount(nfc, rows[..i])
    ensures out' == AcceptedRows(nfc, rows[..i + 1]) && valid' == |out'|
    ensures corrected' == CorrectedCount(nfc, rows[..i + 1])
  {
    ProcessStep(nfc, rows, i);
    out', valid', corrected' := ProcessRow(nfc, rows[i], out, valid, corrected);
  }

  /** `if (v.ok) { valid++; out.push(normalized) }` after
      `const v = validateRow(normalized)`. */
  method KeepIfValid(n: Row, out: seq<Row>, valid: nat) returns (out': seq<Row>, valid': nat)
    requires valid == |out|
    ensures out' == out + (if IsAccepted(n) then [n] else [])
    ensures valid' == |out'|
  {
    var v := ValidateRow(n);
    if !v.Accepted? {
      return out, valid;
    }
    valid' := valid + 1;
    out' := out + [n];
  }

  /** The four text fields of a parsed row through `normalizeKhmerEncoding`
      and the tag fields re-joined from their cleaned tags: the row
      `NormalizedRow` describes, with `corrected` set when one of the four
      reported a correction. */
  method NormalizeRow(nfc: string -> string, r: Row) returns (normalizedRow: Row, corrected: bool)
    ensures normalizedRow == NormalizedRow(nfc, r)
    ensures corrected == RowCorrected(nfc, r)
  {
    var a := K.NormalizeKhmerEncoding(nfc, r.rawText);
    var b := K.NormalizeKhmerEncoding(nfc, r.normText);
    var c := K.NormalizeKhmerEncoding(nfc, r.spanRaw);
    var d := K.NormalizeKhmerEncoding(nfc, r.spanNorm);
    corrected := a.corrected || b.corrected || c.corrected || d.corrected;
    normalizedRow := Row(a.text, Join(SplitTypesPipe(r.types), "|"), b.text,
                         c.text, Join(SplitTypesPipe(r.spanTypes), "|"), d.text);
  }

  /** The loop of `onPickFile` over the parsed rows: the accepted rows, their
      number, and the number of rows with a correction. */
  method ProcessRows(nfc: string -> string, rows: seq<Row>) returns (out: seq<Row>, valid: nat, corrected: nat)
    ensures out == AcceptedRows(nfc, rows)
    ensures valid == |out| && valid <= |rows|
    ensures corrected == CorrectedCount(nfc, rows)
  {
    corrected := 0;
    out := [];
    valid := 0;
    var i := 0;
    while i < |rows|
      invariant 0 <= i <= |rows|
      invariant out == AcceptedRows(nfc, rows[..i]) && valid == |out|
      invariant corrected == CorrectedCount(nfc, rows[..i])
    {
      out, valid, corrected := ProcessRowAt(nfc, rows, i, out, valid, corrected);
      i := i + 1;
    }
    assert rows[..i] == rows;
  }

  // ---------------------------------------------------------------------
  // onPickFile

  /** The state `onPickFile` leaves: the preview, valid and corrected
      counts, the normalised rows and the error message (`""` for none). */
  datatype Preview = Preview(
    previewCount: Option<nat>, validCount: Option<nat>, correctedCount: nat,
    normalizedRows: seq<Row>, error: string)

  const NoValidRows: string := "No valid rows found. Check required columns and values."

  /** `onPickFile` on the text of the picked file. A thrown header error
      leaves the reset state with its message; otherwise the counts and the
      accepted rows are set, with an error when no row is valid. */
  method PickFile(nfc: string -> string, text: string) returns (p: Preview)
    ensures ParseCsv(text).Thrown? ==> p == Preview(None, None, 0, [], ParseCsv(text).error.message)
    ensures ParseCsv(text).Parsed? ==>
      var rows := ParseCsv(text).rows;
      var out := AcceptedRows(nfc, rows);
      && p.previewCount == Some(|rows|)
      && p.validCount == Some(|out|)
      && p.correctedCount == CorrectedCount(nfc, rows)
      && p.normalizedRows == out
      && (p.error == NoValidRows <==> out == [])
      && (out != [] ==> p.error == [])
  {
    var parsed := ParseParallelCsv(text);
    if parsed.Thrown? {
      return Preview(None, None, 0, [], parsed.error.message);
    }
    var out, valid, corrected := ProcessRows(nfc, parsed.rows);
    var error := if valid == 0 then NoValidRows else [];
    p := Preview(Some(|parsed.rows|), Some(valid), corrected, out, error);
  }
}
