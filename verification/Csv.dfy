/** The label sheet's CSV: printer, line reader and field splitter. */
module Csv {
  import opened Text

  predicate NeedsQuotes(s: string) {
    ',' in s || '"' in s || '\n' in s || '\r' in s
  }

  function Doubled(s: string): string {
    if s == "" then "" else (if s[0] == '"' then "\"\"" else [s[0]]) + Doubled(s[1..])
  }

  /** `csvField`: quoted, with embedded quotes doubled, when the field needs it. */
  function CsvField(s: string): string {
    if NeedsQuotes(s) then "\"" + (Doubled(s) + "\"") else s
  }

  function CsvFields(fields: seq<string>): (r: seq<string>)
    ensures |r| == |fields| && forall i :: 0 <= i < |fields| ==> r[i] == CsvField(fields[i])
  {
    seq(|fields|, i requires 0 <= i < |fields| => CsvField(fields[i]))
  }

  function CsvRow(fields: seq<string>): string {
    Join(CsvFields(fields), ',')
  }

  /** What is left to split: the rest of the line, the field so far, and whether a quote is open. */
  function SplitRest(rest: string, cur: string, inQuotes: bool): seq<string>
    decreases |rest|
  {
    if rest == "" then [cur]
    else if inQuotes then
      if rest[0] != '"' then SplitRest(rest[1..], cur + [rest[0]], true)
      else if |rest| > 1 && rest[1] == '"' then SplitRest(rest[2..], cur + "\"", true)
      else SplitRest(rest[1..], cur, false)
    else if rest[0] == '"' && cur == "" then SplitRest(rest[1..], cur, true)
    else if rest[0] == ',' then [cur] + SplitRest(rest[1..], "", false)
    else SplitRest(rest[1..], cur + [rest[0]], false)
  }

  /** `splitCsvFields`. */
  method SplitCsvFields(line: string) returns (fields: seq<string>)
    ensures fields == SplitRest(line, "", false)
  {
    fields := [];
    var cur, inQuotes, i := "", false, 0;
    while i < |line|
      invariant 0 <= i <= |line|
      invariant fields + SplitRest(line[i..], cur, inQuotes) == SplitRest(line, "", false)
    {
      var ch := line[i];
      ghost var rest := line[i..];
      assert rest[0] == ch && rest[1..] == line[i + 1..];
      if inQuotes {
        if ch == '"' {
          if i + 1 < |line| && line[i + 1] == '"' {
            assert rest[1] == '"' && rest[2..] == line[i + 2..];
            cur := cur + "\"";
            i := i + 1;
          } else {
            inQuotes := false;
          }
        } else {
          cur := cur + [ch];
        }
      } else if ch == '"' && cur == "" {
        inQuotes := true;
      } else if ch == ',' {
        fields := fields + [cur];
        cur := "";
      } else {
        cur := cur + [ch];
      }
      i := i + 1;
    }
    assert line[i..] == "";
    fields := fields + [cur];
  }

  // ---------------------------------------------------------------- the field round trip

  predicate FieldEnd(rest: string) {
    rest == "" || rest[0] == ','
  }

  lemma {:induction false} PlainIsRead(s: string, cur: string, rest: string)
    requires !NeedsQuotes(s)
    ensures SplitRest(s + rest, cur, false) == SplitRest(rest, cur + s, false)
    decreases |s|
  {
    if s == "" {
      assert s + rest == rest && cur + s == cur;
    } else {
      assert s[0] in s;
      assert (s + rest)[0] == s[0] && (s + rest)[1..] == s[1..] + rest;
      PlainIsRead(s[1..], cur + [s[0]], rest);
      assert cur + [s[0]] + s[1..] == cur + s;
    }
  }

  /** Inside quotes, one printed character is read back as itself. */
  lemma QuotedStep(c: char, tail: string, cur: string)
    ensures SplitRest((if c == '"' then "\"\"" else [c]) + tail, cur, true) == SplitRest(tail, cur + [c], true)
  {
    var head := if c == '"' then "\"\"" else [c];
    assert (head + tail)[|head|..] == tail;
  }

  lemma ClosingQuote(rest: string, cur: string)
    requires FieldEnd(rest)
    ensures SplitRest("\"" + rest, cur, true) == SplitRest(rest, cur, false)
  {
    assert ("\"" + rest)[1..] == rest;
  }

  lemma DoubledStep(s: string, rest: string)
    requires s != ""
    ensures Doubled(s) + rest == (if s[0] == '"' then "\"\"" else [s[0]]) + (Doubled(s[1..]) + rest)
  {
  }

  lemma ShiftOne(cur: string, s: string)
    requires s != ""
    ensures cur + [s[0]] + s[1..] == cur + s
  {
  }

  lemma {:induction false} QuotedIsRead(s: string, cur: string, rest: string)
    requires FieldEnd(rest)
    ensures SplitRest(Doubled(s) + ("\"" + rest), cur, true) == SplitRest(rest, cur + s, false)
    decreases |s|
  {
    if s == "" {
      assert Doubled(s) + ("\"" + rest) == "\"" + rest;
      assert cur + s == cur;
      ClosingQuote(rest, cur);
    } else {
      DoubledStep(s, "\"" + rest);
      QuotedStep(s[0], Doubled(s[1..]) + ("\"" + rest), cur);
      QuotedIsRead(s[1..], cur + [s[0]], rest);
      ShiftOne(cur, s);
    }
  }

  lemma FieldIsRead(s: string, rest: string)
    requires FieldEnd(rest)
    ensures SplitRest(CsvField(s) + rest, "", false) == SplitRest(rest, s, false)
  {
    if NeedsQuotes(s) {
      var body := Doubled(s) + ("\"" + rest);
      assert CsvField(s) + rest == "\"" + body;
      assert ("\"" + body)[1..] == body;
      QuotedIsRead(s, "", rest);
      assert "" + s == s;
    } else {
      PlainIsRead(s, "", rest);
      assert "" + s == s;
    }
  }

  lemma RowStep(fields: seq<string>)
    requires |fields| > 1
    ensures CsvRow(fields) == CsvField(fields[0]) + ("," + CsvRow(fields[1..]))
  {
    assert CsvFields(fields)[1..] == CsvFields(fields[1..]);
    assert CsvField(fields[0]) + ("," + CsvRow(fields[1..])) == CsvField(fields[0]) + [','] + CsvRow(fields[1..]);
  }

  lemma CommaEndsField(field: string, rest: string)
    ensures SplitRest("," + rest, field, false) == [field] + SplitRest(rest, "", false)
  {
    assert ("," + rest)[1..] == rest;
  }

  /** Splitting a printed row gives the fields back unchanged, whatever characters they contain. */
  lemma {:induction false} RowRoundTrip(fields: seq<string>)
    requires fields != []
    ensures SplitRest(CsvRow(fields), "", false) == fields
    decreases |fields|
  {
    if |fields| == 1 {
      FieldIsRead(fields[0], "");
      assert CsvField(fields[0]) + "" == CsvRow(fields);
    } else {
      RowStep(fields);
      FieldIsRead(fields[0], "," + CsvRow(fields[1..]));
      CommaEndsField(fields[0], CsvRow(fields[1..]));
      RowRoundTrip(fields[1..]);
      assert [fields[0]] + fields[1..] == fields;
    }
  }

  // ---------------------------------------------------------------- the file round trip

  /** The rows as written: joined with newlines, and one at the end. */
  function FileText(lines: seq<string>): string {
    Join(lines, '\n') + "\n"
  }

  /** A carriage return just before a line break belongs to the break. */
  function Chomp(piece: string): string {
    if piece != "" && piece[|piece| - 1] == '\r' then piece[..|piece| - 1] else piece
  }

  /** `split(/\r?\n/)` on pieces already cut at the newlines: all but the last are chomped. */
  function ChompAll(pieces: seq<string>): seq<string> {
    if |pieces| <= 1 then pieces else [Chomp(pieces[0])] + ChompAll(pieces[1..])
  }

  function NonBlank(lines: seq<string>): seq<string> {
    if lines == [] then []
    else (if JsBlank(lines[0]) then [] else [lines[0]]) + NonBlank(lines[1..])
  }

  /** The lines of a file, blank ones dropped. */
  function FileLines(text: string): seq<string> {
    NonBlank(ChompAll(Split(text, '\n')))
  }

  predicate SafeLine(line: string) {
    '\n' !in line && !JsBlank(line)
  }

  lemma {:induction false} ChompedHaveNoNewline(pieces: seq<string>)
    requires forall i :: 0 <= i < |pieces| ==> '\n' !in pieces[i]
    ensures forall i :: 0 <= i < |ChompAll(pieces)| ==> '\n' !in ChompAll(pieces)[i]
  {
    if |pieces| > 1 { ChompedHaveNoNewline(pieces[1..]); }
  }

  lemma {:induction false} NonBlankAreSafe(lines: seq<string>)
    requires forall i :: 0 <= i < |lines| ==> '\n' !in lines[i]
    ensures forall i :: 0 <= i < |NonBlank(lines)| ==> SafeLine(NonBlank(lines)[i])
  {
    if lines != [] { NonBlankAreSafe(lines[1..]); }
  }

  lemma {:induction false} SafeLinesSurvive(lines: seq<string>)
    requires forall i :: 0 <= i < |lines| ==> SafeLine(lines[i]) && Chomp(lines[i]) == lines[i]
    ensures NonBlank(ChompAll(lines + [""])) == lines
    decreases |lines|
  {
    if lines == [] {
      assert ChompAll([""]) == [""] && JsBlank("");
      assert [] + [""] == [""];
      assert NonBlank([""]) == [];
    } else {
      var rest := lines[1..] + [""];
      assert (lines + [""])[1..] == rest;
      SafeLinesSurvive(lines[1..]);
      assert ([lines[0]] + ChompAll(rest))[1..] == ChompAll(rest);
    }
  }

  lemma {:induction false} JoinThenNewline(lines: seq<string>)
    requires lines != [] && forall i :: 0 <= i < |lines| ==> '\n' !in lines[i]
    ensures Split(FileText(lines), '\n') == lines + [""]
  {
    SplitJoin(lines + [""], '\n');
    JoinSnoc(lines);
  }

  lemma {:induction false} JoinSnoc(lines: seq<string>)
    requires lines != []
    ensures Join(lines + [""], '\n') == FileText(lines)
  {
    if |lines| > 1 {
      assert (lines + [""])[1..] == lines[1..] + [""];
      JoinSnoc(lines[1..]);
    }
  }

  /** Reading a written file gives the lines back exactly when none contains a newline and none is blank. */
  lemma LinesRoundTrip(lines: seq<string>)
    requires lines != [] && forall i :: 0 <= i < |lines| ==> Chomp(lines[i]) == lines[i]
    ensures FileLines(FileText(lines)) == lines <==> forall i :: 0 <= i < |lines| ==> SafeLine(lines[i])
  {
    var pieces := Split(FileText(lines), '\n');
    ChompedHaveNoNewline(pieces);
    NonBlankAreSafe(ChompAll(pieces));
    if forall i :: 0 <= i < |lines| ==> SafeLine(lines[i]) {
      JoinThenNewline(lines);
      SafeLinesSurvive(lines);
    }
  }

  /** The same lines with a carriage return before each line break. */
  function WithReturns(lines: seq<string>): (r: seq<string>)
    ensures |r| == |lines| && forall i :: 0 <= i < |lines| ==> r[i] == lines[i] + "\r"
  {
    seq(|lines|, i requires 0 <= i < |lines| => lines[i] + "\r")
  }

  lemma {:induction false} ReturnsAreChomped(lines: seq<string>, last: string)
    ensures ChompAll(WithReturns(lines) + [last]) == lines + [last]
    decreases |lines|
  {
    if lines == [] {
      assert WithReturns(lines) + [last] == [last] && lines + [last] == [last];
    } else {
      ReturnsAreChomped(lines[1..], last);
      assert (WithReturns(lines) + [last])[1..] == WithReturns(lines[1..]) + [last];
      assert Chomp(lines[0] + "\r") == lines[0];
      assert [lines[0]] + (lines[1..] + [last]) == lines + [last];
    }
  }

  lemma {:induction false} SafeLinesStay(lines: seq<string>, last: string)
    requires forall i :: 0 <= i < |lines| ==> SafeLine(lines[i])
    ensures NonBlank(lines + [last]) == if JsBlank(last) then lines else lines + [last]
    decreases |lines|
  {
    if lines == [] {
      assert [] + [last] == [last];
    } else {
      assert (lines + [last])[1..] == lines[1..] + [last];
      SafeLinesStay(lines[1..], last);
    }
  }

  /** A file saved with carriage returns reads as the same lines; one behind the last break, which none follows, is
      kept as it is. */
  lemma ReturnsAreDropped(lines: seq<string>, last: string)
    requires (forall i :: 0 <= i < |lines| ==> SafeLine(lines[i])) && '\n' !in last
    ensures FileLines(Join(WithReturns(lines) + [last], '\n')) == if JsBlank(last) then lines else lines + [last]
  {
    SplitJoin(WithReturns(lines) + [last], '\n');
    ReturnsAreChomped(lines, last);
    SafeLinesStay(lines, last);
  }

  function Rows(rows: seq<seq<string>>): (r: seq<string>)
    ensures |r| == |rows| && forall i :: 0 <= i < |rows| ==> r[i] == CsvRow(rows[i])
  {
    seq(|rows|, i requires 0 <= i < |rows| => CsvRow(rows[i]))
  }

  /** What a caller can check before printing: no field holds a newline, and the row is not a single blank field
      that prints bare. */
  predicate PrintableRow(row: seq<string>) {
    && (forall k :: 0 <= k < |row| ==> '\n' !in row[k])
    && !(|row| == 1 && JsBlank(row[0]) && '\r' !in row[0])
  }

  /** A sheet of non-empty rows survives the file exactly when every row is printable in that sense. */
  lemma SheetRoundTrip(rows: seq<seq<string>>)
    requires rows != [] && forall i :: 0 <= i < |rows| ==> rows[i] != []
    ensures FileLines(FileText(Rows(rows))) == Rows(rows) <==> forall i :: 0 <= i < |rows| ==> PrintableRow(rows[i])
  {
    forall i | 0 <= i < |rows|
      ensures Chomp(Rows(rows)[i]) == Rows(rows)[i]
      ensures SafeLine(Rows(rows)[i]) <==> PrintableRow(rows[i])
    {
      RowEndsClean(rows[i]);
      RowIsSafe(rows[i]);
    }
    LinesRoundTrip(Rows(rows));
  }

  /** Such a sheet comes back field by field. */
  lemma SheetIsRecovered(rows: seq<seq<string>>)
    requires rows != [] && forall i :: 0 <= i < |rows| ==> rows[i] != [] && PrintableRow(rows[i])
    ensures var lines := FileLines(FileText(Rows(rows)));
      |lines| == |rows| && forall i :: 0 <= i < |rows| ==> SplitRest(lines[i], "", false) == rows[i]
  {
    SheetRoundTrip(rows);
    forall i | 0 <= i < |rows| ensures SplitRest(Rows(rows)[i], "", false) == rows[i] {
      RowRoundTrip(rows[i]);
    }
  }

  lemma FieldEndsClean(s: string)
    ensures CsvField(s) != "" ==> CsvField(s)[|CsvField(s)| - 1] != '\r'
  {
  }

  lemma {:induction false} RowEndsClean(row: seq<string>)
    requires row != []
    ensures Chomp(CsvRow(row)) == CsvRow(row)
    decreases |row|
  {
    if |row| == 1 {
      FieldEndsClean(row[0]);
    } else {
      assert CsvFields(row)[1..] == CsvFields(row[1..]);
      var rest := CsvRow(row[1..]);
      RowEndsClean(row[1..]);
      assert CsvRow(row) == CsvField(row[0]) + [','] + rest;
      assert rest != "" ==> CsvRow(row)[|CsvRow(row)| - 1] == rest[|rest| - 1];
    }
  }

  lemma {:induction false} DoubledKeepsNewlines(s: string)
    ensures '\n' in Doubled(s) <==> '\n' in s
  {
    if s != "" {
      DoubledKeepsNewlines(s[1..]);
      assert s == [s[0]] + s[1..];
    }
  }

  lemma FieldKeepsNewlines(s: string)
    ensures '\n' in CsvField(s) <==> '\n' in s
  {
    DoubledKeepsNewlines(s);
  }

  lemma {:induction false} RowKeepsNewlines(row: seq<string>)
    requires row != []
    ensures '\n' in CsvRow(row) <==> exists k :: 0 <= k < |row| && '\n' in row[k]
    decreases |row|
  {
    FieldKeepsNewlines(row[0]);
    if |row| > 1 {
      assert CsvFields(row)[1..] == CsvFields(row[1..]);
      RowKeepsNewlines(row[1..]);
      assert CsvRow(row) == CsvField(row[0]) + [','] + CsvRow(row[1..]);
      assert forall k :: 1 <= k < |row| ==> row[k] == row[1..][k - 1];
    }
  }

  lemma RowIsSafe(row: seq<string>)
    requires row != []
    ensures SafeLine(CsvRow(row)) <==> PrintableRow(row)
  {
    RowKeepsNewlines(row);
    if |row| > 1 {
      var rest := CsvRow(row[1..]);
      assert CsvFields(row)[1..] == CsvFields(row[1..]);
      assert CsvRow(row) == CsvField(row[0]) + [','] + rest;
      assert ',' in CsvRow(row);
    } else if NeedsQuotes(row[0]) {
      assert CsvRow(row)[0] == '"';
      assert '"' in CsvRow(row);
      if '\n' !in row[0] && '\r' !in row[0] { QuotedIsNotBlank(row[0]); }
    }
  }

  lemma QuotedIsNotBlank(s: string)
    requires NeedsQuotes(s) && '\n' !in s && '\r' !in s
    ensures !JsBlank(s)
  {
  }
}
