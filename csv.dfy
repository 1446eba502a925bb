/**
 * `Calculator.parseCSV` (calculator.js:5-30): the crossing records of one CSV
 * text, header line dropped.
 */
module Csv {
  import opened Wrappers
  import opened Text
  import opened Seqs

  /** One crossing record: who measured, the crossing type, the clock time and the bib number. */
  datatype Row = Row(measurer: string, kind: string, time: string, number: string)

  /** A CSV file once parsed: its name and its records. */
  datatype ParsedFile = ParsedFile(name: string, rows: seq<Row>)

  /** What one data line contributes: a record, or nothing for a blank, short or bib-less line. */
  function LineEntry(raw: string): Option<Row> {
    var line := Trim(raw);
    if line == [] then None
    else
      var values := Split(line, ',');
      if |values| < 4 then None
      else
        var entry := Row(Trim(values[0]), Trim(values[1]), Trim(values[2]), Trim(values[3]));
        if entry.number == [] then None else Some(entry)
  }

  /** The lines of the trimmed content; the first one is the header. */
  function Lines(content: string): seq<string> {
    Split(Trim(content), '\n')
  }

  /** The records `parseCSV` returns: one per accepted data line, in line order. */
  function Rows(content: string): seq<Row> {
    FilterMap(LineEntry, Lines(content)[1..])
  }

  /** There are at most as many records as data lines. */
  lemma RowsCount(content: string)
    ensures |Lines(content)| >= 1 && |Rows(content)| <= |Lines(content)| - 1
  {
  }

  /** `Calculator.parseCSV`: split the trimmed text into lines, then read every line after the header. */
  method ParseCsv(content: string) returns (data: seq<Row>)
    ensures data == Rows(content)
  {
    var lines := Split(Trim(content), '\n');
    data := DataRows(lines);
  }

  /** The loop of calculator.js:9-27: every line from the second on, each accepted record pushed in turn. */
  method DataRows(lines: seq<string>) returns (data: seq<Row>)
    requires |lines| >= 1
    ensures data == FilterMap(LineEntry, lines[1..])
  {
    data := [];
    var i := 1;
    while i < |lines|
      invariant 1 <= i <= |lines|
      invariant data == FilterMap(LineEntry, lines[1..i])
    {
      var entry := ReadLine(lines[i]);
      FilterMapStep(LineEntry, lines, 1, i, data, entry);
      if entry.Some? {
        data := data + [entry.value];
      }
      i := i + 1;
    }
    assert lines[1..] == lines[1..i];
  }

  /**
   * The body of the loop at calculator.js:10-26 for one line: a blank line,
   * or one with fewer than three commas (four fields), gives nothing; a record
   * it gives has trimmed fields and a bib number.
   */
  method ReadLine(raw: string) returns (entry: Option<Row>)
    ensures entry == LineEntry(raw)
    ensures Trim(raw) == [] ==> entry.None?
    ensures Count(Trim(raw), ',') < 3 ==> entry.None?
    ensures entry.Some? ==> WellFormedRow(entry.value)
  {
    var line := Trim(raw);
    if line == [] {
      return None;
    }
    var values := Split(line, ',');
    SplitCount(line, ',');
    entry := None;
    if |values| >= 4 {
      var record := Row(Trim(values[0]), Trim(values[1]), Trim(values[2]), Trim(values[3]));
      if record.number != [] {
        entry := Some(record);
      }
    }
  }

  /** What every emitted record looks like: trimmed fields and a bib number. */
  predicate WellFormedRow(r: Row) {
    IsTrimmed(r.measurer) && IsTrimmed(r.kind) && IsTrimmed(r.time) && IsTrimmed(r.number)
    && r.number != []
  }

  /** Every record comes from a data line, never the header, and every accepted data line gives one. */
  lemma RowsFromDataLines(content: string, r: Row)
    ensures r in Rows(content) <==>
              exists i :: 1 <= i < |Lines(content)| && LineEntry(Lines(content)[i]) == Some(r)
  {
    FilterMapFrom(LineEntry, Lines(content), 1, r);
  }

  /** An accepted line gives trimmed fields and a bib number. */
  lemma LineEntryWellFormed(raw: string)
    ensures LineEntry(raw).Some? ==> WellFormedRow(LineEntry(raw).value)
  {
  }

  /** Every record has trimmed fields and a non-empty bib number. */
  lemma RowsWellFormed(content: string, r: Row)
    requires r in Rows(content)
    ensures WellFormedRow(r)
  {
    RowsFromDataLines(content, r);
    var i :| 1 <= i < |Lines(content)| && LineEntry(Lines(content)[i]) == Some(r);
    LineEntryWellFormed(Lines(content)[i]);
  }

  /** A record that survives being written as a CSV line and read back. */
  predicate Writable(r: Row) {
    WellFormedRow(r)
    && ',' !in r.measurer && ',' !in r.kind && ',' !in r.time && ',' !in r.number
    && '\n' !in r.measurer && '\n' !in r.kind && '\n' !in r.time && '\n' !in r.number
  }

  /** The CSV line for a record. */
  function RowLine(r: Row): string {
    r.measurer + "," + r.kind + "," + r.time + "," + r.number
  }

  /** A CSV text: a header line, then one line per record. */
  function Render(header: string, rows: seq<Row>): string {
    Join([header] + seq(|rows|, i requires 0 <= i < |rows| => RowLine(rows[i])), '\n')
  }

  lemma RowLineSplits(r: Row)
    requires Writable(r)
    ensures Split(RowLine(r), ',') == [r.measurer, r.kind, r.time, r.number]
  {
    var fields := [r.measurer, r.kind, r.time, r.number];
    JoinFour(r.measurer, r.kind, r.time, r.number, ',');
    assert RowLine(r) == r.measurer + [','] + (r.kind + [','] + (r.time + [','] + r.number));
    SplitJoin(fields, ',');
  }

  lemma JoinFour(a: string, b: string, c: string, d: string, sep: char)
    ensures Join([a, b, c, d], sep) == a + [sep] + (b + [sep] + (c + [sep] + d))
  {
    assert [a, b, c, d][1..] == [b, c, d] && [b, c, d][1..] == [c, d] && [c, d][1..] == [d];
    assert Join([c, d], sep) == c + [sep] + d;
    assert Join([b, c, d], sep) == b + [sep] + (c + [sep] + d);
  }

  lemma RowLineTrimmed(r: Row)
    requires Writable(r)
    ensures RowLine(r) != [] && IsTrimmed(RowLine(r))
  {
    var line := RowLine(r);
    assert line[|line| - 1] == r.number[|r.number| - 1];
    if r.measurer == [] {
      assert line[0] == ',';
    } else {
      assert line[0] == r.measurer[0];
    }
  }

  lemma LineEntryOfRowLine(r: Row)
    requires Writable(r)
    ensures LineEntry(RowLine(r)) == Some(r)
  {
    var line := RowLine(r);
    RowLineTrimmed(r);
    TrimmedIsFixed(line);
    RowLineSplits(r);
    var values := Split(line, ',');
    TrimmedIsFixed(r.measurer);
    TrimmedIsFixed(r.kind);
    TrimmedIsFixed(r.time);
    TrimmedIsFixed(r.number);
    assert Row(Trim(values[0]), Trim(values[1]), Trim(values[2]), Trim(values[3])) == r;
  }

  lemma {:induction false} JoinFirst(parts: seq<string>, sep: char)
    requires |parts| >= 1 && parts[0] != []
    ensures Join(parts, sep) != [] && Join(parts, sep)[0] == parts[0][0]
  {
  }

  lemma {:induction false} JoinLast(parts: seq<string>, sep: char)
    requires |parts| >= 1 && parts[|parts| - 1] != []
    ensures var j := Join(parts, sep); j != [] && j[|j| - 1] == parts[|parts| - 1][|parts[|parts| - 1]| - 1]
  {
    if |parts| > 1 {
      JoinLast(parts[1..], sep);
    }
  }

  /**
   * Reading a rendered CSV text gives back exactly its records, in order;
   * the header line is dropped whatever it holds.
   */
  lemma ParseRender(header: string, rows: seq<Row>)
    requires header != [] && IsTrimmed(header) && '\n' !in header
    requires forall i :: 0 <= i < |rows| ==> Writable(rows[i])
    ensures Rows(Render(header, rows)) == rows
  {
    var lines := seq(|rows|, i requires 0 <= i < |rows| => RowLine(rows[i]));
    var parts := [header] + lines;
    var content := Join(parts, '\n');
    forall i | 0 <= i < |parts| ensures '\n' !in parts[i] {
      if i > 0 {
        assert parts[i] == RowLine(rows[i - 1]);
      }
    }
    JoinFirst(parts, '\n');
    assert parts[|parts| - 1] != [] && !IsSpace(parts[|parts| - 1][|parts[|parts| - 1]| - 1]) by {
      if |rows| > 0 {
        var r := rows[|rows| - 1];
        assert parts[|parts| - 1] == RowLine(r);
        assert RowLine(r)[|RowLine(r)| - 1] == r.number[|r.number| - 1];
      }
    }
    JoinLast(parts, '\n');
    TrimmedIsFixed(content);
    SplitJoin(parts, '\n');
    assert Lines(content)[1..] == lines;
    forall i | 0 <= i < |lines| ensures LineEntry(lines[i]) == Some(rows[i]) {
      LineEntryOfRowLine(rows[i]);
    }
    FilterMapAll(LineEntry, lines, rows);
  }
}
