/**
 Choosing the revision of a page that was current at an instant. The store compares timestamps as
 text; the selection is proved to be the one by time.
 */
module HistoricalCutoff {
  import opened Wrappers
  import Calendar
  import opened Decimal
  import opened TimestampText
  import opened TimestampTheorems

  datatype Revision = Revision(id: nat, time: seq<byte>)

  /** Row order of the store query: later text first, then the larger revision ID. */
  predicate Precedes(a: Revision, b: Revision) {
    LexLess(a.time, b.time) || (a.time == b.time && a.id <= b.id)
  }

  /** The store query for one page: the last row in text order whose text is at most the cutoff. */
  function NewestAtOrBefore(rows: seq<Revision>, cutoff: seq<byte>): Option<Revision> {
    if rows == [] then None
    else
      var rest := NewestAtOrBefore(rows[1..], cutoff);
      if !LexAtMost(rows[0].time, cutoff) then rest
      else if rest.Some? && Precedes(rows[0], rest.value) then rest
      else Some(rows[0])
  }

  function RevisionAt(rows: seq<Revision>, cutoff: ParsedTimestamp): Result<Option<Revision>, TimestampError> {
    match Print(cutoff.unixSeconds)
    case Err(e) => Err(e)
    case Ok(text) => Ok(NewestAtOrBefore(rows, text))
  }

  /** Captured revisions carry the canonical text of a whole second. */
  ghost predicate CanonicalRow(r: Revision) {
    exists w :: Canonical(w) && Render(w) == r.time
  }

  /** The instant that a canonical row's text names. */
  ghost function Seconds(r: Revision): int {
    if CanonicalRow(r) then (var w :| Canonical(w) && Render(w) == r.time; UnixSeconds(w)) else 0
  }

  lemma RowText(r: Revision)
    requires CanonicalRow(r)
    ensures Print(Seconds(r)) == Ok(r.time)
  {
    var w :| Canonical(w) && Render(w) == r.time && Seconds(r) == UnixSeconds(w);
    WellFormedIsAccepted(w);
    ParseThenPrint(w);
  }

  const SECOND := 1_000_000_000

  /** The instant, in nanoseconds since the epoch. */
  function Nanoseconds(cutoff: ParsedTimestamp): int { cutoff.unixSeconds * SECOND + cutoff.nanosecond }

  /** The start of the whole second is no later than the instant. */
  predicate NoLater(seconds: int, cutoff: ParsedTimestamp) { seconds * SECOND <= Nanoseconds(cutoff) }

  lemma WholeSecondsSuffice(seconds: int, cutoff: ParsedTimestamp)
    requires cutoff.nanosecond < SECOND
    ensures NoLater(seconds, cutoff) <==> seconds <= cutoff.unixSeconds
  {
  }

  // The text filter keeps exactly the revisions at or before the instant, though its fraction is dropped.
  lemma TextFilterIsTimeFilter(r: Revision, cutoff: ParsedTimestamp)
    requires CanonicalRow(r) && Print(cutoff.unixSeconds).Ok? && cutoff.nanosecond < SECOND
    ensures LexAtMost(r.time, Print(cutoff.unixSeconds).value) <==> NoLater(Seconds(r), cutoff)
  {
    RowText(r);
    TextOrderIsTimeOrder(Seconds(r), cutoff.unixSeconds);
    WholeSecondsSuffice(Seconds(r), cutoff);
  }

  /** Order by instant, then by revision ID. */
  predicate Earlier(a: Revision, s: int, b: Revision, t: int) { s < t || (s == t && a.id <= b.id) }

  lemma PrecedesIsEarlier(a: Revision, b: Revision)
    requires CanonicalRow(a) && CanonicalRow(b)
    ensures Precedes(a, b) <==> Earlier(a, Seconds(a), b, Seconds(b))
  {
    RowText(a);
    RowText(b);
    TextOrderIsTimeOrder(Seconds(a), Seconds(b));
  }

  /** `found` is the latest row, by the given clock, of those not after the instant. */
  ghost predicate Latest(rows: seq<Revision>, at: Revision -> int, cutoff: ParsedTimestamp, found: Option<Revision>) {
    match found
    case None => forall i | 0 <= i < |rows| :: !NoLater(at(rows[i]), cutoff)
    case Some(r) =>
      r in rows && NoLater(at(r), cutoff)
      && forall i | 0 <= i < |rows| && NoLater(at(rows[i]), cutoff) :: Earlier(rows[i], at(rows[i]), r, at(r))
  }

  /** `found` is the revision of the page current at the instant. */
  ghost predicate CurrentAt(rows: seq<Revision>, cutoff: ParsedTimestamp, found: Option<Revision>) {
    Latest(rows, Seconds, cutoff, found)
  }

  // One more row in front either replaces the row found among the others or leaves it.
  lemma LatestWithRow(rows: seq<Revision>, at: Revision -> int, cutoff: ParsedTimestamp, rest: Option<Revision>)
    requires rows != [] && Latest(rows[1..], at, cutoff, rest)
    ensures !NoLater(at(rows[0]), cutoff) ==> Latest(rows, at, cutoff, rest)
    ensures NoLater(at(rows[0]), cutoff) ==>
              var kept := rest.Some? && Earlier(rows[0], at(rows[0]), rest.value, at(rest.value));
              Latest(rows, at, cutoff, if kept then rest else Some(rows[0]))
  {
    assert forall i | 1 <= i < |rows| :: rows[i] == rows[1..][i - 1];
    assert rest.Some? ==> rest.value in rows;
  }

  lemma {:induction false} QueryFindsCurrent(rows: seq<Revision>, cutoff: ParsedTimestamp, text: seq<byte>)
    requires forall i | 0 <= i < |rows| :: CanonicalRow(rows[i])
    requires Print(cutoff.unixSeconds) == Ok(text) && cutoff.nanosecond < SECOND
    ensures CurrentAt(rows, cutoff, NewestAtOrBefore(rows, text))
    ensures NewestAtOrBefore(rows, text).Some? ==> CanonicalRow(NewestAtOrBefore(rows, text).value)
  {
    if rows != [] {
      var rest := NewestAtOrBefore(rows[1..], text);
      QueryFindsCurrent(rows[1..], cutoff, text);
      TextFilterIsTimeFilter(rows[0], cutoff);
      if rest.Some? {
        PrecedesIsEarlier(rows[0], rest.value);
      }
      LatestWithRow(rows, Seconds, cutoff, rest);
    }
  }

  // The whole chain, from any accepted timestamp to the revision: it succeeds exactly for the
  // instants of the years 0001 to 9999, and then returns the revision current at that instant.
  lemma CutoffSelectsByTime(text: seq<byte>, rows: seq<Revision>)
    requires Parse(text).Ok?
    requires forall i | 0 <= i < |rows| :: CanonicalRow(rows[i])
    ensures var cutoff := Parse(text).value;
            && (RevisionAt(rows, cutoff).Ok? <==> FIRST_PRINTABLE <= UnixSeconds(Reading(text)) <= LAST_PRINTABLE)
            && (RevisionAt(rows, cutoff).Ok? ==> CurrentAt(rows, cutoff, RevisionAt(rows, cutoff).value))
  {
    var cutoff := Parse(text).value;
    AcceptsExactlyTheGrammar(text);
    PrintableRange(cutoff.unixSeconds);
    if Print(cutoff.unixSeconds).Ok? {
      QueryFindsCurrent(rows, cutoff, Print(cutoff.unixSeconds).value);
    }
  }

  /** "0000-01-01T00:00:00Z" */
  const YEAR_ZERO: seq<byte> := [48, 48, 48, 48, 45, 48, 49, 45, 48, 49, 84, 48, 48, 58, 48, 48, 58, 48, 48, 90]

  lemma YearZeroText()
    ensures CivilText(Calendar.Date(0, 1, 1), 0, 0, 0) + [LETTER_Z] == YEAR_ZERO
  {
    assert Dec(0, 4) == [48, 48, 48, 48] && Dec(1, 2) == [48, 49] && Dec(0, 2) == [48, 48];
  }

  // The reader accepts year 0000, which the printer refuses: such a cutoff never selects anything.
  lemma YearZeroIsReadButRefused(rows: seq<Revision>)
    ensures Parse(YEAR_ZERO).Ok? && RevisionAt(rows, Parse(YEAR_ZERO).value) == Err(OutsideCalendar)
  {
    var w := Written(Calendar.Date(0, 1, 1), 0, 0, 0, [], Zulu);
    YearZeroText();
    assert Render(w) == CivilText(w.date, 0, 0, 0) + [LETTER_Z];
    WellFormedIsAccepted(w);
    assert UnixSeconds(w) < FIRST_PRINTABLE;
    PrintableRange(UnixSeconds(w));
  }
}
