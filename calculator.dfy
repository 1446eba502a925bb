/**
 * `Calculator.calculate` (calculator.js:178-224) without its I/O: the CSV
 * texts come in as a parameter, in the order `Object.entries` lists them, and
 * the stages run in turn — parse every file, build the sections, build the
 * bib records, set the durations — into one report.
 */
module Calculator {
  import opened Wrappers
  import opened Csv
  import Text
  import S = Sections
  import B = Bibs
  import D = Durations

  /** The object `calculate` returns; `None` stands for a field that is absent. */
  datatype Report = Report(
    success: bool,
    error: Option<string>,
    bibData: seq<B.BibRecord>,
    sections: seq<S.Section>,
    fileCount: Option<nat>)

  /** The message of calculator.js:184: "no CSV file found". */
  const NoFiles := "CSVファイルが見つかりません"

  /** Every file name paired with its parsed rows (calculator.js:191-195). */
  function ParsedFiles(csvData: seq<(string, string)>): (files: seq<ParsedFile>)
    ensures |files| == |csvData|
    ensures forall i :: 0 <= i < |files| ==> files[i].name == csvData[i].0 && files[i].rows == Rows(csvData[i].1)
  {
    seq(|csvData|, i requires 0 <= i < |csvData| => ParsedFile(csvData[i].0, Rows(csvData[i].1)))
  }

  /** The records after `calculateDurations`: each one visited with every section. */
  function WithDurations(bibs: seq<B.BibRecord>, sections: seq<S.Section>): (r: seq<B.BibRecord>)
    ensures |r| == |bibs|
    ensures forall i :: 0 <= i < |r| ==> r[i] == D.VisitAll(bibs[i], sections)
  {
    seq(|bibs|, i requires 0 <= i < |bibs| => D.VisitAll(bibs[i], sections))
  }

  /** The report `calculate` builds from the files it was given. */
  function ReportOf(csvData: seq<(string, string)>): Report {
    if csvData == [] then Report(false, Some(NoFiles), [], [], None)
    else
      var files := ParsedFiles(csvData);
      var sections := S.SectionsOf(files);
      Report(true, None, WithDurations(B.BibsOf(files, sections), sections), sections, Some(|csvData|))
  }

  lemma ParsedFilesSnoc(csvData: seq<(string, string)>, i: nat)
    requires i < |csvData|
    ensures ParsedFiles(csvData[..i + 1]) == ParsedFiles(csvData[..i]) + [ParsedFile(csvData[i].0, Rows(csvData[i].1))]
  {
    var a, b := ParsedFiles(csvData[..i + 1]), ParsedFiles(csvData[..i]) + [ParsedFile(csvData[i].0, Rows(csvData[i].1))];
    assert |a| == |b|;
    forall k | 0 <= k < |a| ensures a[k] == b[k] {
      assert csvData[..i + 1][k] == csvData[k];
      if k < i {
        assert csvData[..i][k] == csvData[k];
      }
    }
  }

  /** The loop of calculator.js:192-195: every file parsed in turn. */
  method ParseAll(csvData: seq<(string, string)>) returns (parsedData: seq<ParsedFile>)
    ensures parsedData == ParsedFiles(csvData)
  {
    parsedData := [];
    for i := 0 to |csvData|
      invariant parsedData == ParsedFiles(csvData[..i])
    {
      var (filename, content) := csvData[i];
      var rows := ParseCsv(content);
      parsedData := parsedData + [ParsedFile(filename, rows)];
      ParsedFilesSnoc(csvData, i);
    }
    assert csvData[..|csvData|] == csvData;
  }

  /** calculator.js:203: `calculateDurations` on the array of records `buildBibData` returned. */
  method SetDurations(bibList: seq<B.BibRecord>, sections: seq<S.Section>) returns (bibData: seq<B.BibRecord>)
    ensures bibData == WithDurations(bibList, sections)
  {
    var records := new B.BibRecord[|bibList|](i requires 0 <= i < |bibList| => bibList[i]);
    D.CalculateDurations(records, sections);
    bibData := records[..];
  }

  /**
   * `calculate`: no file gives a failure with empty lists; otherwise the
   * stages run in order and the report counts the files.
   */
  method Calculate(csvData: seq<(string, string)>) returns (report: Report)
    ensures report == ReportOf(csvData)
  {
    if |csvData| == 0 {
      return Report(false, Some(NoFiles), [], [], None);
    }
    var parsedData := ParseAll(csvData);
    var sections := S.BuildSections(parsedData);
    var bibList := B.BuildBibData(parsedData, sections);
    var bibData := SetDurations(bibList, sections);
    report := Report(true, None, bibData, sections, Some(|csvData|));
  }

  /**
   * No file gives a failure with the message and empty lists; any file gives
   * a success that counts the files.
   */
  lemma ReportOutcome(csvData: seq<(string, string)>)
    ensures ReportOf(csvData).success <==> csvData != []
    ensures csvData == [] ==> ReportOf(csvData) == Report(false, Some(NoFiles), [], [], None)
    ensures csvData != [] ==> ReportOf(csvData).fileCount == Some(|csvData|)
  {
  }

  /**
   * End to end: in a successful report, every record has a timing for every
   * section, holding the time of the bib's last row in the section's start
   * file and in its goal file, and the duration computed from the two.
   */
  lemma ReportTimings(csvData: seq<(string, string)>, i: nat, s: S.Section)
    requires csvData != []
    requires i < |ReportOf(csvData).bibData| && s in ReportOf(csvData).sections
    ensures var r := ReportOf(csvData).bibData[i];
      var entries := B.AllEntries(ParsedFiles(csvData));
      && s.section in r.sections
      && r.sections[s.section]
         == D.WithDuration(B.Timing(B.LastTime(entries, r.bibNumber, s.startFile),
                                    B.LastTime(entries, r.bibNumber, s.goalFile), None))
  {
    var files := ParsedFiles(csvData);
    var sections := S.SectionsOf(files);
    var bibs := B.BibsOf(files, sections);
    var rec := bibs[i];
    S.SectionKeysDistinct(files);
    B.BibTimes(files, sections, rec, s);
    D.VisitAllAt(rec, sections, s.section);
  }

  /** A successful report holds one record per bib number that some row carries. */
  lemma ReportBibs(csvData: seq<(string, string)>, b: string)
    requires csvData != []
    ensures var bibs := ReportOf(csvData).bibData;
      && B.UniqueBibs(bibs)
      && (B.HasBib(bibs, b) <==> B.BibInFiles(ParsedFiles(csvData), b))
  {
    var files := ParsedFiles(csvData);
    var sections := S.SectionsOf(files);
    var bibs := B.BibsOf(files, sections);
    var out := ReportOf(csvData).bibData;
    B.BibsDistinct(files, sections);
    B.BibPerNumber(files, sections, b);
    assert forall j :: 0 <= j < |out| ==> out[j].bibNumber == bibs[j].bibNumber;
  }

  /**
   * When every bib number in the files is numeric, the records of a
   * successful report come in ascending order of their values.
   */
  lemma ReportOrdered(csvData: seq<(string, string)>)
    requires csvData != [] && B.NumericBibs(ParsedFiles(csvData))
    ensures var bibs := ReportOf(csvData).bibData;
      && (forall i :: 0 <= i < |bibs| ==> Text.ParseInt(bibs[i].bibNumber).Some?)
      && (forall i, j :: 0 <= i < j < |bibs| ==> Text.ParseInt(bibs[i].bibNumber).value <= Text.ParseInt(bibs[j].bibNumber).value)
  {
    var files := ParsedFiles(csvData);
    var sections := S.SectionsOf(files);
    var bibs := B.BibsOf(files, sections);
    var out := ReportOf(csvData).bibData;
    B.BibsOrdered(files, sections);
    ReportBibNumbers(csvData, files, sections, bibs, out);
    assert forall j :: 0 <= j < |out| ==> Text.ParseInt(out[j].bibNumber) == Text.ParseInt(bibs[j].bibNumber);
  }

  lemma ReportBibNumbers(csvData: seq<(string, string)>, files: seq<ParsedFile>, sections: seq<S.Section>,
                         bibs: seq<B.BibRecord>, out: seq<B.BibRecord>)
    requires csvData != [] && files == ParsedFiles(csvData) && sections == S.SectionsOf(files)
    requires bibs == B.BibsOf(files, sections) && out == ReportOf(csvData).bibData
    ensures |out| == |bibs| && forall j :: 0 <= j < |out| ==> out[j].bibNumber == bibs[j].bibNumber
  {
  }
}
