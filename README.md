# Checkpoint timing calculator, modelled in Dafny

This project models the calculation core of a checkpoint timing tool for a
timed event with `PC` and `CO` checkpoints. Each checkpoint section has a
START and a GOAL crossing. The core is the `Calculator` object of
`calculator.js`. It does the following:

- `parseCSV` reads the crossing rows of one CSV text. Each row holds the
  measurer, the type, the time and the bib number. The header line is skipped.
- `parseFileName` decodes the section tokens a file name carries, such as
  `PC1START` or `CO2GOAL`.
- `buildSections` merges the tokens of all file names into one sorted list of
  sections. Each section holds its start file and its goal file.
- `buildBibData` builds one record per bib number. Each record has a start
  time and a goal time for every section.
- `timeToSeconds` converts an `HH:MM:SS.ms` time to seconds.
- `calculateDurations` sets each section's duration to goal − start.
- `calculate` runs these stages in order on all the CSV texts.

The files are:

- `wrappers.dfy`: the `Option` type.
- `text.dfy`: the JavaScript string and number built-ins the core relies on.
  These are `trim`, `split`, `indexOf`, `replace` of a string, ASCII
  `toUpperCase`, `parseInt` and `parseFloat`.
- `seqs.dfy`: filtering, the stable sort that `Array.prototype.sort` performs,
  and their lemmas.
- `csv.dfy`: `parseCSV`.
- `file_name.dfy`: `parseFileName`.
- `sections.dfy`: `buildSections`.
- `bibs.dfy`: `buildBibData`.
- `times.dfy`: `timeToSeconds`.
- `durations.dfy`: `calculateDurations`.
- `calculator.dfy`: the pure middle of `calculate`.

The loops that build up state (the lines of `parseCSV`, the maps of
`buildSections` and `buildBibData`, the passes of `calculateDurations` and of
`calculate`) are methods with `while` or `for` loops. Each is proved equal to
a specification function that replays the same steps one element at a time,
for example `Sections.Replay` and `Bibs.Replay`. The lemmas then state, about
those functions, what the code promises. Two parts of the source stay
functions: the `forEach` of `parseFileName`, which only filters and maps the
name's components (`Seqs.FilterMap`), and the two calls of the built-in
`Array.prototype.sort`, modelled by a stable insertion sort (`Seqs.SortBy`).

A JavaScript `Map` is modelled as a table. The table holds its keys in
insertion order next to a Dafny `map`. `calculateDurations` updates the records
in place, so it works on an `array` of records. A JavaScript number is
`Times.Num`: an exact real or `NaN`.

## Behaviour a reader might expect that the code does not have

The model follows `calculator.js`. Some behaviour that a timing tool of this
kind could be expected to have is absent from it:

- Files claiming the same section and direction are not detected, and such
  claims are not excluded. Section roles are last-write-wins
  (`Sections.LastFileWins`), and every role is used.
- Duplicate rows for the same bib in the same file are neither reported nor
  excluded. The time of the last such row is kept (`Bibs.ReplayTimes`).
- The bib records are not sorted in descending order. The comparator
  `parseInt(a) - parseInt(b)` sorts them ascending (`Bibs.BibsOrdered`).
- There is no comparison against target times.
- A file name is not rejected when one of its components does not parse. Only
  that component is skipped: the tokens of a name are those of its matching
  components (`FileName.ParseComponents`), and a component without a `PC` or
  `CO` prefix matches nothing (`FileName.MatchNeedsCategory`).
  `FileName.BadComponentSkipped` shows this on `PC2START_notes.csv`.
- `.csv` is not stripped as a suffix. `replace('.csv', '')` removes its first
  occurrence, wherever it stands (`FileName.RemoveCsvAnywhere`). In
  `PC2START.csv_PC1GOAL.csv` the last component keeps its `.csv`, no longer
  matches, and the PC1 GOAL token is lost (`FileName.CsvInsideName`).
- A section's key is not normalised to an upper-case category. The key is
  kept exactly as written in the name, so `pc1START` and `PC1GOAL` name two
  different sections (`FileName.CasePreservingKeys`).

## Model

| member | source | states |
|---|---|---|
| Csv.ParseCsv | calculator.js:5-30 | returns exactly the records of the accepted data lines of the trimmed, newline-split text, in line order |
| Csv.DataRows | calculator.js:9-27 | the loop from the second line on pushes the record of each accepted line, in order |
| Csv.ReadLine | calculator.js:10-26 | a line that is blank after trimming gives nothing; a line with fewer than three commas (four fields) gives nothing; a record it gives has trimmed fields and a non-empty bib number; it reads the line as `LineEntry` does |
| Csv.RowsCount | calculator.js:6-9 | at least one line, and no more records than lines after the header |
| Csv.RowsFromDataLines | calculator.js:9-27 | a record is returned exactly when some line other than the first (the header) is accepted with it |
| Csv.LineEntryWellFormed | calculator.js:15-25 | an accepted line gives trimmed fields and a non-empty bib number |
| Csv.RowsWellFormed | calculator.js:5-30 | every returned record has trimmed fields and a non-empty bib number |
| Csv.LineEntryOfRowLine | calculator.js:10-25 | a record written as a four-field comma line is read back unchanged |
| Csv.ParseRender | calculator.js:5-30 | a non-blank, trimmed, single-line header plus one line per record parses back to exactly those records, whatever else the header holds |
| FileName.MatchComponent | calculator.js:43-50 | a matching component gives category and kind in upper case, the number the digits spell, and the section key as written, which is a prefix of the component |
| FileName.MatchShaped | calculator.js:43-50 | every two-letter PC/CO prefix, digit run and START/GOAL suffix, in any letter case, matches with those values |
| FileName.MatchNeedsCategory | calculator.js:43-44 | a component shorter than two characters, or not starting with `PC` or `CO` in some letter case, gives no token |
| FileName.MatchRejectsWord | calculator.js:43-44 | the component `notes` gives no token |
| FileName.ParseFileName | calculator.js:33-55 | at most one token per `_`-separated component |
| FileName.RemoveCsvAnywhere | calculator.js:35 | the first `.csv` is cut out wherever it stands: behind a dot-free prefix, the prefix and whatever follows the `.csv` are kept |
| FileName.RemoveCsvSuffix | calculator.js:35 | removing the first `.csv` from a dot-free base plus `.csv` gives the base |
| FileName.MatchNoDot | calculator.js:43-44 | a component containing `.` gives no token |
| FileName.CsvInsideName | calculator.js:35-52 | `PC2START.csv_PC1GOAL.csv` has the components `PC2START` and `PC1GOAL.csv`, and gives only the PC2 START token |
| FileName.ParseComponents | calculator.js:33-55 | for a name made of components free of `_` and `.`, joined by `_`, plus `.csv`: its tokens are those of its matching components, one each, in component order |
| FileName.TokensOfName | calculator.js:41-51 | every token has category PC or CO, kind START or GOAL, and comes from one component of the name |
| FileName.ParseTwoComponents | calculator.js:38-52 | a two-component name yields the first component's token, then the second's |
| FileName.CasePreservingKeys | calculator.js:49 | `pc1START_PC1GOAL.csv` gives two tokens whose section keys are `pc1` and `PC1` |
| FileName.BadComponentSkipped | calculator.js:41-52 | `PC2START_notes.csv` gives the PC2 START token only |
| Sections.BuildSections | calculator.js:58-94 | the nested loops and the sort return exactly `SectionsOf`, the sorted values of the replayed section map |
| Sections.AllClaimsMember | calculator.js:61-64 | a (file, token) pair is visited exactly when that file's name carries that token |
| Sections.ReplayKeys | calculator.js:64-74 | the map has a key exactly when some visited token names it |
| Sections.SectionKeysDistinct | calculator.js:66-74 | no two returned sections share a key |
| Sections.SectionPerKey | calculator.js:61-83 | there is a section for a key exactly when some file name carries a token for it |
| Sections.LastClaimant | calculator.js:61-81 | the last file in input order claiming a role; none exactly when no file claims it |
| Sections.ReplayRole | calculator.js:76-81 | after the loop each role holds the file of the last token claiming it |
| Sections.LastFileWins | calculator.js:58-94 | each returned section's start (goal) file is the last file whose name claims START (GOAL) for its key, or null |
| Sections.SectionsOk | calculator.js:67-73 | each section's category and number are those its key spells, and the category is PC or CO |
| Sections.AfterStrict | calculator.js:86-91 | the comparator, read as "`a` sorts after `b` when it is positive", is a strict order (asymmetric, hence irreflexive, and transitive) on sections whose category is PC or CO |
| Sections.SectionsOrdered | calculator.js:86-91 | every PC section precedes every CO section, and numbers ascend within a category |
| Text.ParseIntDigits | calculator.js:166-167 | `parseInt` reads a plain decimal digit string as the number it spells |
| Text.ParseFloatDecimal | calculator.js:168 | `parseFloat` reads `digits.digits` as its exact decimal value |
| Times.TimeToSeconds | calculator.js:161-175 | the result is null exactly when the text does not have exactly two `:` |
| Times.SecondsOf | calculator.js:163-170 | null exactly when there are not three parts |
| Times.TimeOfParts | calculator.js:163-170 | a three-part time is hours·3600 + minutes·60 + seconds when every part parses, and `NaN` (not null) otherwise |
| Times.Combine | calculator.js:170 | the sum of the three parsed values, with `NaN` spreading, is the time of day they spell |
| Times.TimeOfValues | calculator.js:161-170 | three colon-free parts that parse to h, m and s give h·3600 + m·60 + s |
| Times.OneHourFiveMinutes | calculator.js:161-175 | `01:05:30.50` is 3930.5 seconds |
| Times.WordHoursGiveNaN | calculator.js:166-170 | `ab:05:30` gives `NaN`, which is distinct from null |
| Bibs.Mark | calculator.js:124-129 | a row's time becomes the start (goal) time exactly when its file is the section's start (goal) file; otherwise that time is kept; the duration is untouched |
| Bibs.VisitSections | calculator.js:113-130 | the inner loop over the sections equals `TouchAll` on the record |
| Bibs.BuildBibData | calculator.js:97-142 | the nested loops and the sort return exactly `BibsOf`, the sorted values of the replayed bib map |
| Bibs.TouchAll | calculator.js:113-130 | visiting the sections keeps the bib number and adds a timing for each section key |
| Bibs.TouchAllOther | calculator.js:113-130 | the timing of a key that is not among the sections is unchanged |
| Bibs.TouchAllAt | calculator.js:113-130 | with distinct section keys, each section's timing is marked once, from what was there or from all-null |
| Bibs.ReplayKeys | calculator.js:100-108 | the map has a record for a bib exactly when some row carries it |
| Bibs.ReplayRecordKeys | calculator.js:100-131 | every record has a timing for exactly the section keys |
| Bibs.LastTime | calculator.js:100-131 | the time of the last row of a bib in a file; null exactly when there is no such row |
| Bibs.ReplayTimes | calculator.js:100-131 | a record's start (goal) time in a section is the time of the bib's last row in the section's start (goal) file |
| Bibs.BibsDistinct | calculator.js:103-108 | no two returned records share a bib number |
| Bibs.BibPerNumber | calculator.js:97-142 | there is a returned record for a bib number exactly when some row of some file carries it |
| Bibs.OutputRecord | calculator.js:135 | every returned record is the map's record for its own bib number, so sorting only reorders |
| Bibs.EverySection | calculator.js:113-121 | every returned record has a timing for every section and for nothing else |
| Bibs.BibAfterStrict | calculator.js:135-139 | the comparator `parseInt(a) - parseInt(b)`, read as "`a` sorts after `b` when it is positive" and with a `NaN` difference counted as equal, is a strict order |
| Bibs.BibsOrdered | calculator.js:135-139 | when every bib number in the files parses, every returned bib number parses and the values ascend |
| Bibs.BibTimes | calculator.js:97-142 | a returned record's start (goal) time in a section is the time of its last row in the start (goal) file, or null; no duration is set yet |
| Bibs.SharedFileSetsBoth | calculator.js:124-129 | a file that is one section's start file and another's goal file sets both times from the same row |
| Durations.CalculateDurations | calculator.js:145-157 | every record of the array is replaced by the record visited with every section, in order |
| Durations.VisitSection | calculator.js:147-154 | one record and one section: the record as `Visit` leaves it |
| Durations.SetDuration | calculator.js:148-154 | the check on one timing leaves it as `WithDuration` does |
| Durations.WithDuration | calculator.js:148-154 | the start and goal times are kept; the duration becomes `DurationOf` the timing when that is set, and is kept otherwise |
| Durations.VisitAll | calculator.js:147-156 | visiting the sections keeps the bib number and the set of section keys |
| Durations.WithDurationIdempotent | calculator.js:149-154 | setting the duration a second time changes nothing |
| Durations.VisitAllKeepsTimes | calculator.js:145-157 | no start or goal time is ever modified |
| Durations.VisitAllOther | calculator.js:147-156 | a timing whose key is not among the sections is left alone |
| Durations.VisitAllAt | calculator.js:147-156 | a timing whose key is among the sections gets the duration computed from its own times, however often the key recurs |
| Durations.NoClamping | calculator.js:149-153 | the duration is exactly goal − start, negative when the goal is earlier |
| Durations.DurationSetWhen | calculator.js:148-154 | `DurationOf`, the duration a timing gets, is set exactly when both times are non-empty and both have exactly two `:` |
| Calculator.ParsedFiles | calculator.js:193-196 | one parsed file per input, with its name and the records of its text |
| Calculator.ParseAll | calculator.js:193-196 | the loop parses every file in turn |
| Calculator.WithDurations | calculator.js:205 | each record after `calculateDurations` is that record visited with every section |
| Calculator.SetDurations | calculator.js:202-205 | `calculateDurations` on an array of the records from `buildBibData` gives `WithDurations` |
| Calculator.Calculate | calculator.js:178-224 | the report is `ReportOf`: the stages run in order on the given texts |
| Calculator.ReportOutcome | calculator.js:183-215 | success exactly when there is a file; no file gives the failure with its message and empty lists; otherwise the file count is the number of inputs |
| Calculator.ReportTimings | calculator.js:192-205 | end to end, every record's timing for every section holds the last start and goal times of its bib and the duration computed from them |
| Calculator.ReportBibs | calculator.js:192-205 | end to end, one record per bib number that some row carries |
| Calculator.ReportOrdered | calculator.js:199-205 | end to end, when every bib number in the files parses, the records come in ascending order of their values |

## Left out

- `api.js`, `config.js` and the user interface are not part of this model.
  The CSV texts reach `Calculator.Calculate` as a parameter, in the order
  `Object.entries` lists them.
- `GitHubAPI.getAllCSVData`, `ConfigManager.saveLastCalculation`,
  `console.error`, `async`/`await` and the `try`/`catch` of `calculate` are
  left out. They are I/O, and the model has no exceptions. So the report that
  carries `error.message` is not produced.
- `timeToSeconds` has a `catch` that returns null. It is unreachable in the
  model, because every time is a string.
- `Object.keys` lists integer-like names before the others. That ordering is
  not modelled: the input order is taken as the iteration order.
- `Csv.ParseCsv`: the unused `filename` parameter of `parseCSV` is dropped.
- `Csv.ParseRender` requires a non-blank header line. With a blank first line,
  `content.trim()` removes it, and the first data line is then skipped as the
  header. The model reproduces this, but no lemma states it.
- The inputs of `calculate` are keys of a JavaScript object, so their names are
  distinct. The model does not need this: every lemma holds for any list of
  names.
- `Durations.CalculateDurations` does not apply `toFixed(2)`. The duration is
  kept as the exact difference (`Times.Num`), not a string rounded to two
  decimals.
- Floating-point rounding is not modelled. Numbers are exact reals.
- `parseFloat` is modelled as a sign, then digits, then optionally `.` and
  digits. Exponents and `Infinity` are not modelled.
- `parseInt` is modelled in base 10, and in base 16 after `0x`. Its loss of
  precision on very long digit runs is not modelled.
- `Bibs.BuildBibData` and `Calculator.Calculate`: when some bib number does
  not parse, the order of the records is not modelled faithfully.
  - The comparator then gives `NaN`, which the sort treats as equal. Such a
    comparator is not a consistent order, so the engine's sort may return any
    permutation. For bibs `3`, `x`, `1` in that order, the engine can return
    them unchanged, while the model's insertion sort returns `1`, `3`, `x`.
  - So `Bibs.BibsOrdered` and `Calculator.ReportOrdered` require every bib
    number to parse (`Bibs.NumericBibs`). The comparator is then a consistent
    order and the sort is stable, so the order is determined.
  - Once any bib is non-numeric, only the permutation facts describe the
    program: `Bibs.BibPerNumber`, `Bibs.BibsDistinct`, `Bibs.OutputRecord`,
    `Bibs.EverySection` and `Bibs.BibTimes`.
- `Bibs.BibTimes`, `Bibs.TouchAllAt`, `Bibs.ReplayTimes` and
  `Bibs.SharedFileSetsBoth` require the section keys to be distinct.
  - `buildSections` always returns distinct keys (`Sections.SectionKeysDistinct`).
  - `Calculator.ReportTimings` states the end-to-end result without that
    requirement.
- Concrete whole-file examples, such as a file `PC1START.csv` with one row
  ending in a duration, are not proved. The pieces they need are proved:
  - file names: `FileName.CasePreservingKeys`;
  - times: `Times.OneHourFiveMinutes`;
  - the round trip of a CSV text: `Csv.ParseRender`.
