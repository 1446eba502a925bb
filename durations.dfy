/**
 * `Calculator.calculateDurations` (calculator.js:144-157): for every bib and
 * every section, the duration goal - start in seconds, set only where both
 * times are present, non-empty and split into three `:`-parts.
 */
module Durations {
  import opened Wrappers
  import Times
  import Text
  import S = Sections
  import opened Bibs

  /** A time the `if` of calculator.js:148 lets through: not `null` and not the empty string. */
  predicate Truthy(t: Option<string>) {
    t.Some? && |t.value| > 0
  }

  /** The duration a timing gets (calculator.js:148-154); `None` when the timing is left alone. */
  function DurationOf(t: Timing): Option<Times.Num> {
    if Truthy(t.startTime) && Truthy(t.goalTime) then
      var start := Times.TimeToSeconds(t.startTime.value);
      var goal := Times.TimeToSeconds(t.goalTime.value);
      if start.Some? && goal.Some? then Some(Times.Minus(goal.value, start.value)) else None
    else None
  }

  /** One section's timing after the check of calculator.js:148-154. */
  function WithDuration(t: Timing): (r: Timing)
    ensures r.startTime == t.startTime && r.goalTime == t.goalTime
    ensures r.duration == (if DurationOf(t).Some? then DurationOf(t) else t.duration)
  {
    var d := DurationOf(t);
    if d.Some? then t.(duration := d) else t
  }

  /** One pass of the inner `forEach` (calculator.js:146-155): a missing timing is skipped. */
  function Visit(rec: BibRecord, s: S.Section): BibRecord {
    if s.section in rec.sections then rec.(sections := rec.sections[s.section := WithDuration(rec.sections[s.section])])
    else rec
  }

  /** The inner `forEach` over every section, in order. */
  function VisitAll(rec: BibRecord, sections: seq<S.Section>): (r: BibRecord)
    ensures r.bibNumber == rec.bibNumber && r.sections.Keys == rec.sections.Keys
  {
    if sections == [] then rec
    else Visit(VisitAll(rec, sections[..|sections| - 1]), sections[|sections| - 1])
  }

  lemma VisitAllSnoc(rec: BibRecord, sections: seq<S.Section>, k: nat)
    requires k < |sections|
    ensures VisitAll(rec, sections[..k + 1]) == Visit(VisitAll(rec, sections[..k]), sections[k])
  {
    assert sections[..k + 1][..k] == sections[..k];
  }

  /**
   * `calculateDurations`: the records of the array are updated in place, each
   * one visited with every section.
   */
  method CalculateDurations(bibData: array<BibRecord>, sections: seq<S.Section>)
    modifies bibData
    ensures forall i :: 0 <= i < bibData.Length ==> bibData[i] == VisitAll(old(bibData[i]), sections)
  {
    for i := 0 to bibData.Length
      invariant forall p :: 0 <= p < i ==> bibData[p] == VisitAll(old(bibData[p]), sections)
      invariant forall p :: i <= p < bibData.Length ==> bibData[p] == old(bibData[p])
    {
      ghost var b0 := bibData[i];
      for k := 0 to |sections|
        invariant bibData[i] == VisitAll(b0, sections[..k])
        invariant forall p :: 0 <= p < i ==> bibData[p] == VisitAll(old(bibData[p]), sections)
        invariant forall p :: i < p < bibData.Length ==> bibData[p] == old(bibData[p])
      {
        bibData[i] := VisitSection(bibData[i], sections[k]);
        VisitAllSnoc(b0, sections, k);
      }
      assert sections[..|sections|] == sections;
    }
  }

  /** The body of the inner `forEach` (calculator.js:147-154) for one record and one section. */
  method VisitSection(bib: BibRecord, section: S.Section) returns (r: BibRecord)
    ensures r == Visit(bib, section)
  {
    r := bib;
    if section.section in bib.sections {
      var sectionData := SetDuration(bib.sections[section.section]);
      r := bib.(sections := bib.sections[section.section := sectionData]);
    }
  }

  /** The check of calculator.js:148-154 on one section's timing. */
  method SetDuration(sectionData: Timing) returns (r: Timing)
    ensures r == WithDuration(sectionData)
  {
    r := sectionData;
    if Truthy(sectionData.startTime) && Truthy(sectionData.goalTime) {
      var startSeconds := Times.TimeToSeconds(sectionData.startTime.value);
      var goalSeconds := Times.TimeToSeconds(sectionData.goalTime.value);
      if startSeconds.Some? && goalSeconds.Some? {
        r := sectionData.(duration := Some(Times.Minus(goalSeconds.value, startSeconds.value)));
      }
    }
  }

  /** Setting the duration twice sets the same one. */
  lemma WithDurationIdempotent(t: Timing)
    ensures WithDuration(WithDuration(t)) == WithDuration(t)
  {
    assert DurationOf(WithDuration(t)) == DurationOf(t);
  }

  /** Visiting the sections never changes a start or goal time. */
  lemma {:induction false} VisitAllKeepsTimes(rec: BibRecord, sections: seq<S.Section>, key: string)
    requires key in rec.sections
    ensures VisitAll(rec, sections).sections[key].startTime == rec.sections[key].startTime
    ensures VisitAll(rec, sections).sections[key].goalTime == rec.sections[key].goalTime
  {
    if sections != [] {
      VisitAllKeepsTimes(rec, sections[..|sections| - 1], key);
    }
  }

  /** A timing whose key is not among the sections is left as it was. */
  lemma {:induction false} VisitAllOther(rec: BibRecord, sections: seq<S.Section>, key: string)
    requires key in rec.sections
    requires forall s :: s in sections ==> s.section != key
    ensures VisitAll(rec, sections).sections[key] == rec.sections[key]
  {
    if sections != [] {
      var init := sections[..|sections| - 1];
      assert forall s :: s in init ==> s in sections;
      assert sections[|sections| - 1] in sections;
      VisitAllOther(rec, init, key);
    }
  }

  /** A timing whose key is among the sections has its duration set as for it alone, however often the key recurs. */
  lemma {:induction false} VisitAllAt(rec: BibRecord, sections: seq<S.Section>, key: string)
    requires key in rec.sections
    requires exists s :: s in sections && s.section == key
    ensures VisitAll(rec, sections).sections[key] == WithDuration(rec.sections[key])
  {
    var init := sections[..|sections| - 1];
    var last := sections[|sections| - 1];
    assert sections == init + [last];
    assert VisitAll(rec, sections) == Visit(VisitAll(rec, init), last);
    if exists s :: s in init && s.section == key {
      VisitAllAt(rec, init, key);
      if last.section == key {
        WithDurationIdempotent(rec.sections[key]);
      }
    } else {
      forall s | s in init ensures s.section != key {
      }
      assert last.section == key;
      VisitAllOther(rec, init, key);
    }
  }

  /**
   * The duration is exactly goal - start, with no clamping: a goal earlier
   * than the start gives a negative duration.
   */
  lemma NoClamping(start: string, goal: string, a: real, b: real)
    requires start != "" && goal != ""
    requires Times.TimeToSeconds(start) == Some(Times.Finite(a))
    requires Times.TimeToSeconds(goal) == Some(Times.Finite(b))
    ensures DurationOf(Timing(Some(start), Some(goal), None)) == Some(Times.Finite(b - a))
  {
    var t := Timing(Some(start), Some(goal), None);
    DurationIsMinus(t, a, b);
    FiniteMinus(a, b);
  }

  lemma DurationIsMinus(t: Timing, a: real, b: real)
    requires Truthy(t.startTime) && Truthy(t.goalTime)
    requires Times.TimeToSeconds(t.startTime.value) == Some(Times.Finite(a))
    requires Times.TimeToSeconds(t.goalTime.value) == Some(Times.Finite(b))
    ensures DurationOf(t) == Some(Times.Minus(Times.Finite(b), Times.Finite(a)))
  {
  }

  lemma FiniteMinus(a: real, b: real)
    ensures Times.Minus(Times.Finite(b), Times.Finite(a)) == Times.Finite(b - a)
  {
  }

  /** A duration is set exactly when both times are non-empty and both have exactly two `:`. */
  lemma DurationSetWhen(t: Timing)
    ensures DurationOf(t).Some? <==>
      && Truthy(t.startTime) && Truthy(t.goalTime)
      && Text.Count(t.startTime.value, ':') == 2 && Text.Count(t.goalTime.value, ':') == 2
  {
  }
}
