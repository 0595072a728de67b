/**
 The directory names of exports: the maintained one, and one for each slice of the past. Different slices
 have different names, so writing one never replaces another.
 */
module ExportNames {
  import opened Decimal
  import opened ExportInstall
  import opened Names
  import opened TimestampText

  datatype Point = AtTime(cutoff: ParsedTimestamp) | AtRevision(wiki: nat, revision: nat)

  datatype Format = Markdown | Text

  datatype Scope = WholeLibrary | OneCollection(id: nat)

  /** What one historical export is of. */
  datatype Slice = Slice(point: Point, format: Format, scope: Scope)

  const CURRENT := "current"

  function TimeName(cutoff: ParsedTimestamp): string {
    if cutoff.nanosecond == 0 then "at-time-unix-" + IntText(cutoff.unixSeconds)
    else "at-time-unix-" + IntText(cutoff.unixSeconds) + "-" + Padded(cutoff.nanosecond, 9)
  }

  function PointName(point: Point): string {
    match point
    case AtTime(cutoff) => TimeName(cutoff)
    case AtRevision(wiki, revision) => "at-revision-" + NatText(wiki) + "-" + NatText(revision)
  }

  function FormatName(format: Format): string { if format.Markdown? then "markdown" else "text" }

  function ScopeName(scope: Scope): string {
    match scope
    case WholeLibrary => "library"
    case OneCollection(id) => "collection" + "-" + NatText(id)
  }

  function SliceName(slice: Slice): string {
    PointName(slice.point) + "-" + FormatName(slice.format) + "-" + ScopeName(slice.scope)
  }

  /** A fraction of a second, as the reader of timestamps returns it. */
  predicate Fractional(slice: Slice) {
    slice.point.AtTime? ==> slice.point.cutoff.nanosecond < Pow10(9)
  }

  // ---------------------------------------------------------------- Points

  lemma PointStart(point: Point)
    ensures |PointName(point)| > 3 && PointName(point)[0] == 'a'
    ensures PointName(point)[3] == if point.AtTime? then 't' else 'r'
  {
  }

  lemma DigitsHaveNoDash(text: string)
    requires forall c <- text :: IsDecimalDigit(c)
    ensures '-' !in text
  {
  }

  // Only a fraction puts a dash behind the first character of the seconds.
  lemma FractionHasDash(t: ParsedTimestamp)
    ensures t.nanosecond != 0 <==> exists k | 13 < k < |TimeName(t)| :: TimeName(t)[k] == '-'
  {
    var seconds := IntText(t.unixSeconds);
    DashOnlyInFront(t.unixSeconds);
    if t.nanosecond != 0 {
      assert TimeName(t)[13 + |seconds|] == '-';
    } else {
      assert forall k | 13 < k < |TimeName(t)| :: TimeName(t)[k] == seconds[k - 13];
    }
  }

  lemma TimesDiffer(a: ParsedTimestamp, b: ParsedTimestamp)
    requires a.nanosecond < Pow10(9) && b.nanosecond < Pow10(9) && TimeName(a) == TimeName(b)
    ensures a == b
  {
    var start := "at-time-unix-";
    var x, y := IntText(a.unixSeconds), IntText(b.unixSeconds);
    DashOnlyInFront(a.unixSeconds);
    DashOnlyInFront(b.unixSeconds);
    FractionHasDash(a);
    FractionHasDash(b);
    if a.nanosecond == 0 {
      assert x == TimeName(a)[13..] == y;
      IntTextIsInjective(a.unixSeconds, b.unixSeconds);
    } else {
      DigitsHaveNoDash(Padded(a.nanosecond, 9));
      DigitsHaveNoDash(Padded(b.nanosecond, 9));
      LastPartIsUnique(start + x, Padded(a.nanosecond, 9), start + y, Padded(b.nanosecond, 9), '-');
      assert x == (start + x)[13..] == y;
      IntTextIsInjective(a.unixSeconds, b.unixSeconds);
      PaddedIsInjective(a.nanosecond, b.nanosecond, 9);
    }
  }

  lemma RevisionsDiffer(a: Point, b: Point)
    requires a.AtRevision? && b.AtRevision? && PointName(a) == PointName(b)
    ensures a == b
  {
    var x, y := "at-revision-" + NatText(a.wiki), "at-revision-" + NatText(b.wiki);
    DigitsHaveNoDash(NatText(a.revision));
    DigitsHaveNoDash(NatText(b.revision));
    LastPartIsUnique(x, NatText(a.revision), y, NatText(b.revision), '-');
    assert NatText(a.wiki) == x[12..] == y[12..] == NatText(b.wiki);
    NatTextIsInjective(a.wiki, b.wiki);
    NatTextIsInjective(a.revision, b.revision);
  }

  // ---------------------------------------------------------------- Slices

  function LastWord(scope: Scope): string { if scope.WholeLibrary? then "library" else NatText(scope.id) }

  function Front(slice: Slice): string {
    var front := PointName(slice.point) + "-" + FormatName(slice.format);
    if slice.scope.WholeLibrary? then front else front + "-" + "collection"
  }

  lemma SplitAtLastWord(slice: Slice)
    ensures SliceName(slice) == Front(slice) + ['-'] + LastWord(slice.scope)
    ensures '-' !in LastWord(slice.scope)
    ensures IsDecimalDigit(LastWord(slice.scope)[0]) <==> slice.scope.OneCollection?
  {
    if slice.scope.OneCollection? {
      var digits := NatText(slice.scope.id);
      DigitsHaveNoDash(digits);
      assert digits[0] in digits;
      assert SliceName(slice) == Front(slice) + ['-'] + digits;
    }
  }

  lemma FormatHasNoDash(format: Format)
    ensures '-' !in FormatName(format)
  {
  }

  // Slices of different points, formats or scopes have different names, none of them the current export's.
  lemma SlicesDiffer(a: Slice, b: Slice)
    requires Fractional(a) && Fractional(b) && SliceName(a) == SliceName(b)
    ensures a == b
  {
    SplitAtLastWord(a);
    SplitAtLastWord(b);
    LastPartIsUnique(Front(a), LastWord(a.scope), Front(b), LastWord(b.scope), '-');
    if a.scope.OneCollection? {
      NatTextIsInjective(a.scope.id, b.scope.id);
      assert Front(a)[..|Front(a)| - 11] == PointName(a.point) + "-" + FormatName(a.format);
      assert Front(b)[..|Front(b)| - 11] == PointName(b.point) + "-" + FormatName(b.format);
    }
    FormatHasNoDash(a.format);
    FormatHasNoDash(b.format);
    LastPartIsUnique(PointName(a.point), FormatName(a.format), PointName(b.point), FormatName(b.format), '-');
    assert FormatName(a.format)[0] == FormatName(b.format)[0];
    PointStart(a.point);
    PointStart(b.point);
    if a.point.AtTime? {
      TimesDiffer(a.point.cutoff, b.point.cutoff);
    } else {
      RevisionsDiffer(a.point, b.point);
    }
  }

  lemma SliceIsNotCurrent(slice: Slice)
    ensures SliceName(slice) != CURRENT && Named(Output(SliceName(slice))) && Named(Output(CURRENT))
  {
    PointStart(slice.point);
    assert SliceName(slice)[0] == PointName(slice.point)[0];
  }

  predicate IsOther(other: Slice, slice: Slice) { other != slice && Fractional(other) }

  ghost predicate NamesAnother(name: string, slice: Slice) {
    exists other: Slice :: IsOther(other, slice) && SliceName(other) == name
  }

  // Whatever other exports are written, and wherever they are cut short, a slice stays as it was.
  lemma {:induction false} OtherRunsKeepASlice(states: seq<Files>, runs: seq<Run>, i: nat, j: nat, slice: Slice)
    requires Runs(states, runs) && i <= j < |states| && Fractional(slice)
    requires forall k | i <= k < j :: runs[k].name == CURRENT || NamesAnother(runs[k].name, slice)
    ensures var output := Output(SliceName(slice));
            && (output in states[j] <==> output in states[i])
            && (output in states[i] ==> states[j][output] == states[i][output])
    decreases j - i
  {
    if i < j {
      OtherRunsKeepASlice(states, runs, i, j - 1, slice);
      SliceIsNotCurrent(slice);
      if runs[j - 1].name != CURRENT {
        var other: Slice :| IsOther(other, slice) && SliceName(other) == runs[j - 1].name;
        if SliceName(other) == SliceName(slice) {
          SlicesDiffer(other, slice);
        }
      }
      assert DuringRun(states[j - 1], states[j], runs[j - 1].name, runs[j - 1].pid, runs[j - 1].content);
      assert !Touchable(Output(SliceName(slice)), runs[j - 1].name, runs[j - 1].pid);
    }
  }
}
