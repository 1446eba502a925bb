/**
 * `Calculator.buildBibData` (calculator.js:97-142): one record per bib number
 * seen in any row, holding for every section the time of the last row of that
 * bib in the section's start file and in its goal file, the records sorted by
 * the integer value of their bib numbers.
 */
module Bibs {
  import opened Wrappers
  import opened Text
  import opened Seqs
  import opened Csv
  import S = Sections
  import Times

  /** The times of one bib in one section; `None` stands for `null`. */
  datatype Timing = Timing(startTime: Option<string>, goalTime: Option<string>, duration: Option<Times.Num>)

  /** One bib's record: its number as written, and a timing per section key. */
  datatype BibRecord = BibRecord(bibNumber: string, sections: map<string, Timing>)

  /** A row together with the name of the file it comes from. */
  datatype Entry = Entry(file: string, row: Row)

  /** The rows of one file, each paired with the file's name. */
  function Tag(name: string, rows: seq<Row>): (entries: seq<Entry>)
    ensures |entries| == |rows|
  {
    seq(|rows|, i requires 0 <= i < |rows| => Entry(name, rows[i]))
  }

  /** Every row of every file, files in input order, rows in file order. */
  function AllEntries(files: seq<ParsedFile>): seq<Entry> {
    if files == [] then []
    else AllEntries(files[..|files| - 1]) + Tag(files[|files| - 1].name, files[|files| - 1].rows)
  }

  /** The timing a section starts with: all `null`. */
  const Blank := Timing(None, None, None)

  /** The timing recorded under `key`, or the blank one the loop creates when there is none. */
  function TimingAt(rec: BibRecord, key: string): Timing {
    if key in rec.sections then rec.sections[key] else Blank
  }

  /** calculator.js:124-129: a row's time becomes the start (goal) time when its file is the section's start (goal) file. */
  function Mark(t: Timing, file: string, time: string, s: S.Section): (r: Timing)
    ensures r.startTime == (if s.startFile == Some(file) then Some(time) else t.startTime)
    ensures r.goalTime == (if s.goalFile == Some(file) then Some(time) else t.goalTime)
    ensures r.duration == t.duration
  {
    var t1 := if s.startFile == Some(file) then t.(startTime := Some(time)) else t;
    if s.goalFile == Some(file) then t1.(goalTime := Some(time)) else t1
  }

  /** One pass of the inner loop (calculator.js:114-130) for one section. */
  function Touch(rec: BibRecord, file: string, time: string, s: S.Section): BibRecord {
    rec.(sections := rec.sections[s.section := Mark(TimingAt(rec, s.section), file, time, s)])
  }

  /** The keys of a list of sections. */
  function KeysOf(sections: seq<S.Section>): set<string> {
    set s | s in sections :: s.section
  }

  /** The inner loop over all sections, in order. */
  function TouchAll(rec: BibRecord, file: string, time: string, sections: seq<S.Section>): (r: BibRecord)
    ensures r.bibNumber == rec.bibNumber
    ensures r.sections.Keys == rec.sections.Keys + KeysOf(sections)
  {
    if sections == [] then rec
    else
      var init := sections[..|sections| - 1];
      assert KeysOf(sections) == KeysOf(init) + {sections[|sections| - 1].section} by {
        assert sections == init + [sections[|sections| - 1]];
      }
      Touch(TouchAll(rec, file, time, init), file, time, sections[|sections| - 1])
  }

  /** The bib map under construction: its keys in insertion order, and the map. */
  datatype Table = Table(order: seq<string>, byBib: map<string, BibRecord>)

  /** The order lists each key of the map once, and each record sits under its own bib number. */
  ghost predicate Keyed(t: Table) {
    && (forall i, j :: 0 <= i < j < |t.order| ==> t.order[i] != t.order[j])
    && (forall i :: 0 <= i < |t.order| ==> t.order[i] in t.byBib)
    && (forall b :: b in t.byBib ==> b in t.order && t.byBib[b].bibNumber == b)
  }

  /** One row (calculator.js:102-131): create the bib's record if new, then visit every section. */
  function AddRow(t: Table, e: Entry, sections: seq<S.Section>): Table {
    var b := e.row.number;
    var t1 := if b in t.byBib then t else Table(t.order + [b], t.byBib[b := BibRecord(b, map[])]);
    Table(t1.order, t1.byBib[b := TouchAll(t1.byBib[b], e.file, e.row.time, sections)])
  }

  /** The bib map after every row in turn. */
  function Replay(entries: seq<Entry>, sections: seq<S.Section>): (t: Table)
    ensures Keyed(t)
  {
    if entries == [] then Table([], map[])
    else AddRow(Replay(entries[..|entries| - 1], sections), entries[|entries| - 1], sections)
  }

  /** The map's records in insertion order (`Array.from(bibMap.values())`). */
  function Values(t: Table): seq<BibRecord>
    requires Keyed(t)
  {
    seq(|t.order|, i requires 0 <= i < |t.order| => t.byBib[t.order[i]])
  }

  /**
   * The comparator of calculator.js:135-139, `parseInt(a) - parseInt(b)`:
   * `a` sorts after `b` when the difference is positive. A `NaN` difference
   * counts as zero, as `Array.prototype.sort` treats it.
   */
  predicate BibAfter(a: BibRecord, b: BibRecord) {
    var x, y := ParseInt(a.bibNumber), ParseInt(b.bibNumber);
    x.Some? && y.Some? && x.value - y.value > 0
  }

  /** The records `buildBibData` returns. */
  function BibsOf(files: seq<ParsedFile>, sections: seq<S.Section>): seq<BibRecord> {
    SortBy(Values(Replay(AllEntries(files), sections)), BibAfter)
  }

  lemma ReplaySnoc(entries: seq<Entry>, e: Entry, sections: seq<S.Section>)
    ensures Replay(entries + [e], sections) == AddRow(Replay(entries, sections), e, sections)
  {
    assert (entries + [e])[..|entries|] == entries;
  }

  lemma AllEntriesSnoc(files: seq<ParsedFile>, i: nat)
    requires i < |files|
    ensures AllEntries(files[..i + 1]) == AllEntries(files[..i]) + Tag(files[i].name, files[i].rows)
  {
    assert files[..i + 1][..i] == files[..i];
  }

  lemma TouchAllSnoc(rec: BibRecord, file: string, time: string, sections: seq<S.Section>, k: nat)
    requires k < |sections|
    ensures TouchAll(rec, file, time, sections[..k + 1]) == Touch(TouchAll(rec, file, time, sections[..k]), file, time, sections[k])
  {
    assert sections[..k + 1][..k] == sections[..k];
  }

  lemma Overwrite<K, V>(m: map<K, V>, k: K, a: V, b: V)
    ensures m[k := a][k := b] == m[k := b]
  {
  }

  /** The `sections.forEach` of calculator.js:114-130 for one row of one file. */
  method VisitSections(bib0: BibRecord, filename: string, time: string, sections: seq<S.Section>)
    returns (bib: BibRecord)
    ensures bib == TouchAll(bib0, filename, time, sections)
  {
    bib := bib0;
    for k := 0 to |sections|
      invariant bib == TouchAll(bib0, filename, time, sections[..k])
    {
      ghost var b0 := bib;
      var section := sections[k];
      if section.section !in bib.sections {
        bib := bib.(sections := bib.sections[section.section := Timing(None, None, None)]);
      }
      var sectionData := bib.sections[section.section];
      if section.startFile == Some(filename) {
        sectionData := sectionData.(startTime := Some(time));
      }
      if section.goalFile == Some(filename) {
        sectionData := sectionData.(goalTime := Some(time));
      }
      assert sectionData == Mark(TimingAt(b0, section.section), filename, time, section);
      Overwrite(b0.sections, section.section, Blank, sectionData);
      bib := bib.(sections := bib.sections[section.section := sectionData]);
      assert bib == Touch(b0, filename, time, section);
      TouchAllSnoc(bib0, filename, time, sections, k);
    }
    assert sections[..|sections|] == sections;
  }

  /** `Calculator.buildBibData` */
  method BuildBibData(files: seq<ParsedFile>, sections: seq<S.Section>) returns (bibData: seq<BibRecord>)
    ensures bibData == BibsOf(files, sections)
  {
    var order: seq<string> := [];
    var byBib: map<string, BibRecord> := map[];
    for i := 0 to |files|
      invariant Table(order, byBib) == Replay(AllEntries(files[..i]), sections)
    {
      var filename := files[i].name;
      var records := files[i].rows;
      ghost var done := AllEntries(files[..i]);
      ghost var entries := Tag(filename, records);
      assert done + entries[..0] == done;
      for j := 0 to |records|
        invariant Table(order, byBib) == Replay(done + entries[..j], sections)
      {
        ghost var before := done + entries[..j];
        ghost var t0 := Table(order, byBib);
        var record := records[j];
        assert entries[j] == Entry(filename, record);
        var bibNumber := record.number;
        if bibNumber !in byBib {
          order := order + [bibNumber];
          byBib := byBib[bibNumber := BibRecord(bibNumber, map[])];
        }
        var bib := VisitSections(byBib[bibNumber], filename, record.time, sections);
        byBib := byBib[bibNumber := bib];
        assert Table(order, byBib) == AddRow(t0, entries[j], sections);
        ReplaySnoc(before, entries[j], sections);
        PrefixExtend(done, entries, j);
      }
      assert entries[..|records|] == entries;
      AllEntriesSnoc(files, i);
    }
    assert files[..|files|] == files;
    bibData := SortBy(Values(Table(order, byBib)), BibAfter);
  }

  /** Visiting sections leaves the timing of any other key as it was. */
  lemma {:induction false} TouchAllOther(rec: BibRecord, file: string, time: string, sections: seq<S.Section>, key: string)
    requires key !in KeysOf(sections) && key in rec.sections
    ensures TouchAll(rec, file, time, sections).sections[key] == rec.sections[key]
  {
    if sections != [] {
      var init := sections[..|sections| - 1];
      assert sections[|sections| - 1] in sections;
      assert KeysOf(init) <= KeysOf(sections) by {
        forall s | s in init ensures s in sections {}
      }
      TouchAllOther(rec, file, time, init, key);
    }
  }

  /**
   * With distinct keys, visiting the sections marks each section's timing
   * exactly once, starting from what the record held (or blank).
   */
  lemma {:induction false} TouchAllAt(rec: BibRecord, file: string, time: string, sections: seq<S.Section>, i: nat)
    requires S.UniqueKeys(sections) && i < |sections|
    ensures TouchAll(rec, file, time, sections).sections[sections[i].section]
         == Mark(TimingAt(rec, sections[i].section), file, time, sections[i])
  {
    var n := |sections| - 1;
    var init := sections[..n];
    var key := sections[i].section;
    if i == n {
      assert key !in KeysOf(init) by {
        forall s | s in init ensures s.section != key {
          var j :| 0 <= j < n && init[j] == s;
          assert sections[j] == s;
        }
      }
      if key in rec.sections {
        TouchAllOther(rec, file, time, init, key);
      }
    } else {
      assert init[i] == sections[i];
      TouchAllAt(rec, file, time, init, i);
    }
  }

  /** Some row has the bib number. */
  ghost predicate BibSeen(entries: seq<Entry>, b: string) {
    exists i :: 0 <= i < |entries| && entries[i].row.number == b
  }

  lemma {:induction false} ReplayKeys(entries: seq<Entry>, sections: seq<S.Section>, b: string)
    ensures b in Replay(entries, sections).byBib <==> BibSeen(entries, b)
  {
    if entries != [] {
      var init := entries[..|entries| - 1];
      ReplayKeys(init, sections, b);
      AddRowKeys(Replay(init, sections), entries[|entries| - 1], sections, b);
      BibSeenSnoc(entries, b);
    }
  }

  lemma AddRowKeys(t: Table, e: Entry, sections: seq<S.Section>, b: string)
    ensures b in AddRow(t, e, sections).byBib <==> b in t.byBib || b == e.row.number
  {
  }

  lemma BibSeenSnoc(entries: seq<Entry>, b: string)
    requires entries != []
    ensures BibSeen(entries, b) <==> BibSeen(entries[..|entries| - 1], b) || entries[|entries| - 1].row.number == b
  {
    var init := entries[..|entries| - 1];
    if BibSeen(init, b) {
      var i :| 0 <= i < |init| && init[i].row.number == b;
      assert entries[i] == init[i];
    }
    if BibSeen(entries, b) && entries[|entries| - 1].row.number != b {
      var i :| 0 <= i < |entries| && entries[i].row.number == b;
      assert init[i] == entries[i];
    }
  }

  /** Every record of the map has a timing for exactly the keys of the sections. */
  lemma {:induction false} ReplayRecordKeys(entries: seq<Entry>, sections: seq<S.Section>, b: string)
    requires b in Replay(entries, sections).byBib
    ensures Replay(entries, sections).byBib[b].sections.Keys == KeysOf(sections)
  {
    var init := entries[..|entries| - 1];
    if b in Replay(init, sections).byBib {
      ReplayRecordKeys(init, sections, b);
    }
  }

  /** The entry is a row of the given bib in the given file. */
  predicate RowOf(e: Entry, b: string, file: Option<string>) {
    file == Some(e.file) && e.row.number == b
  }

  /**
   * The time of the last row, in iteration order, with bib `b` in file
   * `file`; `None` when there is none (or `file` is `None`).
   */
  function LastTime(entries: seq<Entry>, b: string, file: Option<string>): (r: Option<string>)
    ensures r.None? <==> forall i :: 0 <= i < |entries| ==> !RowOf(entries[i], b, file)
    ensures r.Some? ==> exists i :: 0 <= i < |entries| && RowOf(entries[i], b, file) && entries[i].row.time == r.value
                          && forall j :: i < j < |entries| ==> !RowOf(entries[j], b, file)
  {
    var last := LastIndex(entries, (e: Entry) => RowOf(e, b, file));
    if last.None? then None else Some(entries[last.value].row.time)
  }

  lemma LastTimeSnoc(entries: seq<Entry>, b: string, file: Option<string>)
    requires entries != []
    ensures LastTime(entries, b, file)
         == if RowOf(entries[|entries| - 1], b, file) then Some(entries[|entries| - 1].row.time)
            else LastTime(entries[..|entries| - 1], b, file)
  {
    var p := (e: Entry) => RowOf(e, b, file);
    var init := entries[..|entries| - 1];
    if !p(entries[|entries| - 1]) {
      var r := LastIndex(init, p);
      if r.Some? {
        assert init[r.value] == entries[r.value];
      }
    }
  }

  lemma NoRowNoTime(entries: seq<Entry>, b: string, file: Option<string>)
    requires !BibSeen(entries, b)
    ensures LastTime(entries, b, file) == None
  {
  }

  /**
   * Last row wins: in the map, a bib's timing for a section holds the time of
   * its last row in the section's start file and in its goal file.
   */
  lemma {:induction false} ReplayTimes(entries: seq<Entry>, sections: seq<S.Section>, b: string, i: nat)
    requires S.UniqueKeys(sections) && i < |sections|
    requires b in Replay(entries, sections).byBib
    ensures TimingAt(Replay(entries, sections).byBib[b], sections[i].section)
         == Timing(LastTime(entries, b, sections[i].startFile), LastTime(entries, b, sections[i].goalFile), None)
  {
    var n := |entries| - 1;
    var init := entries[..n];
    var e := entries[n];
    var s := sections[i];
    var t0 := Replay(init, sections);
    LastTimeSnoc(entries, b, s.startFile);
    LastTimeSnoc(entries, b, s.goalFile);
    if e.row.number != b {
      ReplayTimes(init, sections, b, i);
    } else {
      var rec0 := if b in t0.byBib then t0.byBib[b] else BibRecord(b, map[]);
      TouchAllAt(rec0, e.file, e.row.time, sections, i);
      assert TimingAt(rec0, s.section)
          == Timing(LastTime(init, b, s.startFile), LastTime(init, b, s.goalFile), None) by {
        if b in t0.byBib {
          ReplayRecordKeys(init, sections, b);
          assert s.section in KeysOf(sections);
          ReplayTimes(init, sections, b, i);
        } else {
          ReplayKeys(init, sections, b);
          NoRowNoTime(init, b, s.startFile);
          NoRowNoTime(init, b, s.goalFile);
        }
      }
    }
  }

  /** No two records of the list share a bib number. */
  ghost predicate UniqueBibs(bibs: seq<BibRecord>) {
    forall i, j :: 0 <= i < j < |bibs| ==> bibs[i].bibNumber != bibs[j].bibNumber
  }

  /** Some record of the list has the bib number. */
  ghost predicate HasBib(bibs: seq<BibRecord>, b: string) {
    exists j :: 0 <= j < |bibs| && bibs[j].bibNumber == b
  }

  /** Some row of the file has the bib number. */
  ghost predicate FileHasBib(f: ParsedFile, b: string) {
    exists k :: 0 <= k < |f.rows| && f.rows[k].number == b
  }

  /** Some row of some file has the bib number. */
  ghost predicate BibInFiles(files: seq<ParsedFile>, b: string) {
    AnyOf(files, (f: ParsedFile) => FileHasBib(f, b))
  }

  lemma SortedBibsDistinct(t: Table)
    requires Keyed(t)
    ensures KeysDistinct(SortBy(Values(t), BibAfter), (r: BibRecord) => r.bibNumber)
  {
    SortByKeysDistinct(Values(t), BibAfter, (r: BibRecord) => r.bibNumber);
  }

  /** One record per bib number: no two records share one. */
  lemma BibsDistinct(files: seq<ParsedFile>, sections: seq<S.Section>)
    ensures UniqueBibs(BibsOf(files, sections))
  {
    SortedBibsDistinct(Replay(AllEntries(files), sections));
  }

  lemma SortedBibsKeys(t: Table, b: string, after: (BibRecord, BibRecord) -> bool)
    requires Keyed(t)
    ensures HasBib(SortBy(Values(t), after), b) <==> b in t.byBib
  {
    var values := Values(t);
    var out := SortBy(values, after);
    if HasBib(out, b) {
      var j :| 0 <= j < |out| && out[j].bibNumber == b;
      SortByHas(values, after, out[j]);
      var m :| 0 <= m < |values| && values[m] == out[j];
    }
    if b in t.byBib {
      var m :| 0 <= m < |t.order| && t.order[m] == b;
      SortByHas(values, after, values[m]);
      var j :| 0 <= j < |out| && out[j] == values[m];
    }
  }

  lemma BibSeenAppend(a: seq<Entry>, c: seq<Entry>, b: string)
    ensures BibSeen(a + c, b) <==> BibSeen(a, b) || BibSeen(c, b)
  {
    if BibSeen(a + c, b) {
      var i :| 0 <= i < |a + c| && (a + c)[i].row.number == b;
      if i >= |a| {
        assert c[i - |a|] == (a + c)[i];
      }
    }
    if BibSeen(c, b) {
      var i :| 0 <= i < |c| && c[i].row.number == b;
      assert (a + c)[|a| + i] == c[i];
    }
    if BibSeen(a, b) {
      var i :| 0 <= i < |a| && a[i].row.number == b;
      assert (a + c)[i] == a[i];
    }
  }

  lemma BibSeenTag(f: ParsedFile, b: string)
    ensures BibSeen(Tag(f.name, f.rows), b) <==> FileHasBib(f, b)
  {
    var entries := Tag(f.name, f.rows);
    if FileHasBib(f, b) {
      var k :| 0 <= k < |f.rows| && f.rows[k].number == b;
      assert entries[k].row == f.rows[k];
    }
  }

  lemma {:induction false} AllEntriesBibs(files: seq<ParsedFile>, b: string)
    ensures BibSeen(AllEntries(files), b) <==> BibInFiles(files, b)
  {
    if files != [] {
      var init := files[..|files| - 1];
      var last := files[|files| - 1];
      AllEntriesBibs(init, b);
      BibSeenAppend(AllEntries(init), Tag(last.name, last.rows), b);
      BibSeenTag(last, b);
      AnyOfSnoc(files, (f: ParsedFile) => FileHasBib(f, b));
    }
  }

  /** There is a record for a bib number exactly when some row of some file carries it. */
  lemma BibPerNumber(files: seq<ParsedFile>, sections: seq<S.Section>, b: string)
    ensures HasBib(BibsOf(files, sections), b) <==> BibInFiles(files, b)
  {
    var entries := AllEntries(files);
    SortedBibsKeys(Replay(entries, sections), b, BibAfter);
    ReplayKeys(entries, sections, b);
    AllEntriesBibs(files, b);
  }

  /** Each returned record is the map's record for its own bib number. */
  lemma OutputRecord(files: seq<ParsedFile>, sections: seq<S.Section>, r: BibRecord)
    requires r in BibsOf(files, sections)
    ensures r.bibNumber in Replay(AllEntries(files), sections).byBib
    ensures r == Replay(AllEntries(files), sections).byBib[r.bibNumber]
  {
    RecordInTable(Replay(AllEntries(files), sections), r, BibAfter);
  }

  lemma RecordInTable(t: Table, r: BibRecord, after: (BibRecord, BibRecord) -> bool)
    requires Keyed(t) && r in SortBy(Values(t), after)
    ensures r.bibNumber in t.byBib && t.byBib[r.bibNumber] == r
  {
    SortByHas(Values(t), after, r);
    var m :| 0 <= m < |t.order| && Values(t)[m] == r;
    assert t.byBib[t.order[m]] == r;
  }

  /** Every record has a timing for every section, and for nothing else. */
  lemma EverySection(files: seq<ParsedFile>, sections: seq<S.Section>, r: BibRecord)
    requires r in BibsOf(files, sections)
    ensures r.sections.Keys == KeysOf(sections)
  {
    OutputRecord(files, sections, r);
    ReplayRecordKeys(AllEntries(files), sections, r.bibNumber);
  }

  /** `BibAfter` is a strict order on any records: a positive difference of integers. */
  lemma BibAfterStrict(s: seq<BibRecord>)
    ensures StrictOn(s, BibAfter)
  {
  }

  /** Every bib number that some row carries reads as an integer under `parseInt`. */
  ghost predicate NumericBibs(files: seq<ParsedFile>) {
    forall b :: BibInFiles(files, b) ==> ParseInt(b).Some?
  }

  /**
   * When every bib number is numeric, the records come in ascending order of
   * their bib numbers' integer values.
   */
  lemma BibsOrdered(files: seq<ParsedFile>, sections: seq<S.Section>)
    requires NumericBibs(files)
    ensures var bibs := BibsOf(files, sections);
      && (forall i :: 0 <= i < |bibs| ==> ParseInt(bibs[i].bibNumber).Some?)
      && (forall i, j :: 0 <= i < j < |bibs| ==> ParseInt(bibs[i].bibNumber).value <= ParseInt(bibs[j].bibNumber).value)
  {
    var bibs := BibsOf(files, sections);
    forall i | 0 <= i < |bibs| ensures ParseInt(bibs[i].bibNumber).Some? {
      BibPerNumber(files, sections, bibs[i].bibNumber);
      assert HasBib(bibs, bibs[i].bibNumber);
    }
    var values := Values(Replay(AllEntries(files), sections));
    BibAfterStrict(values);
    SortBySorted(values, BibAfter);
  }

  /**
   * Last row wins: a record's start (goal) time in a section is the time of
   * the last row of that bib in the section's start (goal) file, or `null`
   * when there is no such row or no such file; no duration is set yet.
   */
  lemma BibTimes(files: seq<ParsedFile>, sections: seq<S.Section>, r: BibRecord, s: S.Section)
    requires S.UniqueKeys(sections)
    requires r in BibsOf(files, sections) && s in sections
    ensures s.section in r.sections
    ensures r.sections[s.section]
         == Timing(LastTime(AllEntries(files), r.bibNumber, s.startFile),
                   LastTime(AllEntries(files), r.bibNumber, s.goalFile), None)
  {
    EverySection(files, sections, r);
    OutputRecord(files, sections, r);
    var i :| 0 <= i < |sections| && sections[i] == s;
    ReplayTimes(AllEntries(files), sections, r.bibNumber, i);
  }

  /**
   * A file that is one section's start file and another's (or the same
   * section's) goal file sets both times from the same row.
   */
  lemma SharedFileSetsBoth(files: seq<ParsedFile>, sections: seq<S.Section>, r: BibRecord, s1: S.Section, s2: S.Section)
    requires S.UniqueKeys(sections)
    requires r in BibsOf(files, sections) && s1 in sections && s2 in sections
    requires s1.startFile == s2.goalFile
    ensures TimingAt(r, s1.section).startTime == TimingAt(r, s2.section).goalTime
  {
    var entries := AllEntries(files);
    BibTimes(files, sections, r, s1);
    BibTimes(files, sections, r, s2);
    assert r.sections[s1.section].startTime == LastTime(entries, r.bibNumber, s1.startFile);
    assert r.sections[s2.section].goalTime == LastTime(entries, r.bibNumber, s2.goalFile);
  }
}
