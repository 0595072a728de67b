/**
 What the timestamp reader and printer promise: the reader accepts exactly the grammar and returns
 the exact instant, the two undo each other, and the order of printed texts is the order of time.
 */
module TimestampTheorems {
  import opened Wrappers
  import opened Calendar
  import opened Decimal
  import opened TimestampText

  // ---------------------------------------------------------------- Civil part

  lemma CivilSlices(d: Date, hour: nat, minute: nat, second: nat, rest: seq<byte>)
    requires 0 <= d.year && 0 <= d.month && 0 <= d.day
    ensures var t := CivilText(d, hour, minute, second) + rest;
            && t[0..4] == Dec(d.year, 4) && t[4] == DASH && t[5..7] == Dec(d.month, 2) && t[7] == DASH
            && t[8..10] == Dec(d.day, 2) && t[10] == LETTER_T && t[11..13] == Dec(hour, 2) && t[13] == COLON
            && t[14..16] == Dec(minute, 2) && t[16] == COLON && t[17..19] == Dec(second, 2)
  {
  }

  predicate Separated(t: seq<byte>) {
    |t| >= 20 && t[4] == DASH && t[7] == DASH && t[10] == LETTER_T && t[13] == COLON && t[16] == COLON
  }

  lemma FieldsFromDecimals(t: seq<byte>, d: Date, hour: nat, minute: nat, second: nat)
    requires 0 <= d.year && Valid(d) && hour <= 23 && minute <= 59 && second <= 59 && Separated(t)
    requires DecimalAt(t, 0, 4) == Ok(d.year) && DecimalAt(t, 5, 7) == Ok(d.month) && DecimalAt(t, 8, 10) == Ok(d.day)
    requires DecimalAt(t, 11, 13) == Ok(hour) && DecimalAt(t, 14, 16) == Ok(minute)
    requires DecimalAt(t, 17, 19) == Ok(second)
    ensures ParseFields(t) == Ok(Fields(d, hour, minute, second))
  {
    assert d == Date(d.year, d.month, d.day);
  }

  lemma FieldsFromSlices(t: seq<byte>, d: Date, hour: nat, minute: nat, second: nat)
    requires 0 <= d.year <= 9999 && Valid(d) && hour <= 23 && minute <= 59 && second <= 59 && Separated(t)
    requires t[0..4] == Dec(d.year, 4) && t[5..7] == Dec(d.month, 2) && t[8..10] == Dec(d.day, 2)
    requires t[11..13] == Dec(hour, 2) && t[14..16] == Dec(minute, 2) && t[17..19] == Dec(second, 2)
    ensures ParseFields(t) == Ok(Fields(d, hour, minute, second))
  {
    DecimalOfFour(t, 0, d.year);
    DecimalOfTwo(t, 5, d.month);
    DecimalOfTwo(t, 8, d.day);
    DecimalOfTwo(t, 11, hour);
    DecimalOfTwo(t, 14, minute);
    DecimalOfTwo(t, 17, second);
    FieldsFromDecimals(t, d, hour, minute, second);
  }

  lemma DecimalOfFour(bytes: seq<byte>, start: nat, n: nat)
    requires start + 4 <= |bytes| && n <= 9999 && bytes[start..start + 4] == Dec(n, 4)
    ensures DecimalAt(bytes, start, start + 4) == Ok(n)
  {
    assert Pow10(4) == 10000;
    DecimalOfDec(bytes, start, n, 4);
  }

  lemma DecimalOfTwo(bytes: seq<byte>, start: nat, n: nat)
    requires start + 2 <= |bytes| && n <= 99 && bytes[start..start + 2] == Dec(n, 2)
    ensures DecimalAt(bytes, start, start + 2) == Ok(n)
  {
    assert Pow10(2) == 100;
    DecimalOfDec(bytes, start, n, 2);
  }

  lemma FieldsOfCivilText(d: Date, hour: nat, minute: nat, second: nat, rest: seq<byte>)
    requires 0 <= d.year <= 9999 && Valid(d) && hour <= 23 && minute <= 59 && second <= 59 && rest != []
    ensures ParseFields(CivilText(d, hour, minute, second) + rest) == Ok(Fields(d, hour, minute, second))
  {
    CivilSlices(d, hour, minute, second, rest);
    FieldsFromSlices(CivilText(d, hour, minute, second) + rest, d, hour, minute, second);
  }

  lemma DecimalOfDec(bytes: seq<byte>, start: nat, n: nat, width: nat)
    requires start + width <= |bytes| && n < Pow10(width)
    requires bytes[start..start + width] == Dec(n, width)
    ensures DecimalAt(bytes, start, start + width) == Ok(n)
  {
    ValueOfDec(n, width);
  }

  lemma CivilTextOfFields(bytes: seq<byte>)
    requires ParseFields(bytes).Ok?
    ensures var f := ParseFields(bytes).value;
            && 0 <= f.date.year <= 9999 && Valid(f.date) && f.hour <= 23 && f.minute <= 59 && f.second <= 59
            && bytes[..19] == CivilText(f.date, f.hour, f.minute, f.second)
  {
    var f := ParseFields(bytes).value;
    DecOfValue(bytes[0..4]);
    DecOfValue(bytes[5..7]);
    DecOfValue(bytes[8..10]);
    DecOfValue(bytes[11..13]);
    DecOfValue(bytes[14..16]);
    DecOfValue(bytes[17..19]);
    assert Pow10(4) == 10000;
    SplitCivil(bytes[..19]);
    assert bytes[..19][0..4] == bytes[0..4] && bytes[..19][5..7] == bytes[5..7];
    assert bytes[..19][8..10] == bytes[8..10] && bytes[..19][11..13] == bytes[11..13];
    assert bytes[..19][14..16] == bytes[14..16] && bytes[..19][17..19] == bytes[17..19];
  }

  lemma SplitCivil(t: seq<byte>)
    requires |t| == 19
    ensures t == t[0..4] + [t[4]] + t[5..7] + [t[7]] + t[8..10] + [t[10]]
                 + t[11..13] + [t[13]] + t[14..16] + [t[16]] + t[17..19]
  {
  }

  // ---------------------------------------------------------------- Fraction

  lemma {:induction false} RunEnds(bytes: seq<byte>, start: nat, end: nat)
    requires start <= end < |bytes| && AllDigits(bytes[start..end]) && !IsDigit(bytes[end])
    ensures DigitRunEnd(bytes, start) == end
    decreases end - start
  {
    if start < end {
      assert IsDigit(bytes[start..end][0]);
      assert bytes[start + 1..end] == bytes[start..end][1..];
      RunEnds(bytes, start + 1, end);
    }
  }

  // The retained digits scaled up carry the whole value of the fraction.
  lemma RetainedIsExact(fraction: seq<byte>)
    requires AllDigits(fraction)
    requires forall i | 9 <= i < |fraction| :: fraction[i] == ZERO
    ensures var k := Min(|fraction|, 9);
            ExactFraction(fraction, Value(fraction[..k]) * Pow10(9 - k))
  {
    var k := Min(|fraction|, 9);
    var head, tail := fraction[..k], fraction[k..];
    assert fraction == head + tail;
    ValueOfConcat(head, tail);
    ValueOfZeros(tail);
    DecOfValue(head);
    ScaledValue(Value(head), k, |tail|);
  }

  lemma ScaledValue(v: nat, k: nat, zeros: nat)
    requires k <= 9 && v < Pow10(k)
    ensures v * Pow10(9 - k) * Pow10(k + zeros) == v * Pow10(zeros) * 1_000_000_000
    ensures v * Pow10(9 - k) < 1_000_000_000
  {
    NinePlaces();
    PowAdds(k, zeros);
    PowAdds(9 - k, k);
    Rearranged(v, Pow10(9 - k), Pow10(k), Pow10(zeros), 1_000_000_000);
    Scales(v, Pow10(k), Pow10(9 - k));
  }

  lemma Rearranged(v: nat, p: nat, k: nat, z: nat, n: nat)
    requires p * k == n
    ensures v * p * (k * z) == v * z * n
  {
    calc {
      v * p * (k * z);
      v * (p * (k * z));
      { assert p * (k * z) == (p * k) * z; }
      v * (n * z);
      v * (z * n);
      v * z * n;
    }
  }

  lemma Scales(a: nat, b: nat, factor: nat)
    requires a < b && factor > 0
    ensures a * factor < b * factor
  {
  }

  lemma ExactFractionIsUnique(fraction: seq<byte>, m: nat, n: nat)
    requires AllDigits(fraction) && ExactFraction(fraction, m) && ExactFraction(fraction, n)
    ensures m == n
  {
    if m < n {
      Scales(m, n, Pow10(|fraction|));
    } else if n < m {
      Scales(n, m, Pow10(|fraction|));
    }
  }

  lemma FractionAt(bytes: seq<byte>, fraction: seq<byte>)
    requires fraction != [] && AllDigits(fraction) && 20 + |fraction| < |bytes|
    requires bytes[19] == DOT && bytes[20..20 + |fraction|] == fraction && !IsDigit(bytes[20 + |fraction|])
    requires forall i | 9 <= i < |fraction| :: fraction[i] == ZERO
    ensures ParseFraction(bytes).Ok? && ParseFraction(bytes).value.0 == 20 + |fraction|
    ensures ExactFraction(fraction, ParseFraction(bytes).value.1)
  {
    var end := 20 + |fraction|;
    RunEnds(bytes, 20, end);
    var retained := Min(|fraction|, 9);
    assert bytes[20..20 + retained] == fraction[..retained];
    forall i | 20 + retained <= i < end
      ensures bytes[i] == ZERO
    {
      assert bytes[i] == bytes[20..end][i - 20] == fraction[i - 20];
    }
    RetainedIsExact(fraction);
  }

  lemma FractionOfText(civil: seq<byte>, fraction: seq<byte>, zone: seq<byte>)
    requires |civil| == 19 && AllDigits(fraction) && zone != [] && !IsDigit(zone[0]) && zone[0] != DOT
    requires forall i | 9 <= i < |fraction| :: fraction[i] == ZERO
    ensures var bytes := civil + FractionText(fraction) + zone;
            && ParseFraction(bytes).Ok?
            && ParseFraction(bytes).value.0 == 19 + |FractionText(fraction)|
            && ExactFraction(fraction, ParseFraction(bytes).value.1)
  {
    var bytes := civil + FractionText(fraction) + zone;
    if fraction != [] {
      var end := 20 + |fraction|;
      assert bytes[19] == DOT && bytes[end] == zone[0];
      assert bytes[20..end] == fraction;
      FractionAt(bytes, fraction);
    } else {
      assert bytes[19] == zone[0];
    }
  }

  ghost function FractionDigits(bytes: seq<byte>): seq<byte>
    requires |bytes| >= 20 && ParseFraction(bytes).Ok?
  {
    if bytes[19] == DOT then bytes[20..ParseFraction(bytes).value.0] else []
  }

  lemma TextOfFraction(bytes: seq<byte>)
    requires |bytes| >= 20 && ParseFraction(bytes).Ok?
    ensures var (cursor, nanosecond) := ParseFraction(bytes).value; var f := FractionDigits(bytes);
            && bytes[19..cursor] == FractionText(f) && AllDigits(f)
            && (forall i | 9 <= i < |f| :: f[i] == ZERO)
            && ExactFraction(f, nanosecond)
  {
    var cursor := ParseFraction(bytes).value.0;
    var f := FractionDigits(bytes);
    if bytes[19] == DOT {
      assert bytes[19..cursor] == [DOT] + f;
      var retained := Min(|f|, 9);
      assert forall i | 20 + retained <= i < cursor :: bytes[i] == ZERO;
      assert forall i | 9 <= i < |f| :: f[i] == bytes[20 + i];
      assert bytes[20..20 + retained] == f[..retained];
      RetainedIsExact(f);
    }
  }

  // ---------------------------------------------------------------- Zone

  lemma ZoneOfText(prefix: seq<byte>, zone: Zone)
    requires zone.Offset? ==> zone.hours <= 23 && zone.minutes <= 59
    ensures ParseZone(prefix + ZoneText(zone), |prefix|) == Ok(zone)
  {
    var bytes, text, cursor := prefix + ZoneText(zone), ZoneText(zone), |prefix|;
    assert bytes[cursor] == text[0];
    if zone.Offset? {
      OffsetSlices(zone);
      SliceAfter(prefix, text, 1, 3);
      SliceAfter(prefix, text, 4, 6);
      assert bytes[cursor + 3] == text[3];
      assert Pow10(2) == 100;
      DecimalOfDec(bytes, cursor + 1, zone.hours, 2);
      DecimalOfDec(bytes, cursor + 4, zone.minutes, 2);
    }
  }

  lemma SliceAfter(prefix: seq<byte>, text: seq<byte>, from: nat, to: nat)
    requires from <= to <= |text|
    ensures (prefix + text)[|prefix| + from..|prefix| + to] == text[from..to]
  {
  }

  lemma OffsetSlices(zone: Zone)
    requires zone.Offset?
    ensures var t := ZoneText(zone);
            && |t| == 6 && t[0] == (if zone.east then PLUS else DASH) && t[3] == COLON
            && t[1..3] == Dec(zone.hours, 2) && t[4..6] == Dec(zone.minutes, 2)
  {
  }

  lemma TextOfZone(bytes: seq<byte>, cursor: nat)
    requires cursor <= |bytes| && ParseZone(bytes, cursor).Ok?
    ensures var zone := ParseZone(bytes, cursor).value;
            && bytes[cursor..] == ZoneText(zone)
            && (zone.Offset? ==> zone.hours <= 23 && zone.minutes <= 59)
  {
    var zone := ParseZone(bytes, cursor).value;
    if zone.Offset? {
      DecOfValue(bytes[cursor + 1..cursor + 3]);
      DecOfValue(bytes[cursor + 4..cursor + 6]);
      assert bytes[cursor..] == [bytes[cursor]] + bytes[cursor + 1..cursor + 3] + [bytes[cursor + 3]]
                                + bytes[cursor + 4..cursor + 6];
    }
  }

  // ---------------------------------------------------------------- The reader against the grammar

  // Every written timestamp is accepted, as exactly the instant it denotes.
  lemma WellFormedIsAccepted(w: Written)
    requires WellFormed(w)
    ensures Parse(Render(w)).Ok?
    ensures Parse(Render(w)).value.unixSeconds == UnixSeconds(w)
    ensures ExactFraction(w.fraction, Parse(Render(w)).value.nanosecond)
  {
    var civil := CivilText(w.date, w.hour, w.minute, w.second);
    var fraction, zone := FractionText(w.fraction), ZoneText(w.zone);
    assert Render(w) == civil + (fraction + zone);
    FieldsOfCivilText(w.date, w.hour, w.minute, w.second, fraction + zone);
    FractionOfText(civil, w.fraction, zone);
    ZoneOfText(civil + fraction, w.zone);
  }

  /** What an accepted text says. */
  ghost function Reading(bytes: seq<byte>): Written
    requires Parse(bytes).Ok?
  {
    var f := ParseFields(bytes).value;
    Written(f.date, f.hour, f.minute, f.second, FractionDigits(bytes),
            ParseZone(bytes, ParseFraction(bytes).value.0).value)
  }

  // Nothing else is accepted.
  lemma AcceptedIsWellFormed(bytes: seq<byte>)
    requires Parse(bytes).Ok?
    ensures WellFormed(Reading(bytes)) && Render(Reading(bytes)) == bytes
  {
    var w, cursor := Reading(bytes), ParseFraction(bytes).value.0;
    CivilTextOfFields(bytes);
    TextOfFraction(bytes);
    TextOfZone(bytes, cursor);
    assert WellFormed(w);
    ThreeParts(bytes, cursor);
  }

  lemma ThreeParts(bytes: seq<byte>, cursor: nat)
    requires 19 <= cursor <= |bytes|
    ensures bytes == bytes[..19] + bytes[19..cursor] + bytes[cursor..]
  {
  }

  lemma AcceptsExactlyTheGrammar(bytes: seq<byte>)
    ensures Parse(bytes).Ok? <==> exists w :: WellFormed(w) && Render(w) == bytes
    ensures Parse(bytes).Ok? ==>
              && Parse(bytes).value.unixSeconds == UnixSeconds(Reading(bytes))
              && AllDigits(Reading(bytes).fraction)
              && ExactFraction(Reading(bytes).fraction, Parse(bytes).value.nanosecond)
  {
    if Parse(bytes).Ok? {
      AcceptedIsWellFormed(bytes);
      WellFormedIsAccepted(Reading(bytes));
    }
    forall w | WellFormed(w) && Render(w) == bytes
      ensures Parse(bytes).Ok?
    {
      WellFormedIsAccepted(w);
    }
  }

  lemma LongerFraction(n: nat, p: nat, z: nat, v: nat, unit: nat)
    requires n * p == v * unit
    ensures n * (p * z) == v * z * unit
  {
    calc {
      n * (p * z);
      (n * p) * z;
      v * unit * z;
      { assert unit * z == z * unit; }
      v * (z * unit);
      v * z * unit;
    }
  }

  lemma ZerosKeepFraction(fraction: seq<byte>, zeros: nat, nanosecond: nat)
    requires AllDigits(fraction) && ExactFraction(fraction, nanosecond)
    ensures ExactFraction(fraction + Zeros(zeros), nanosecond)
  {
    ValueOfConcat(fraction, Zeros(zeros));
    ValueOfZeros(Zeros(zeros));
    PowAdds(|fraction|, zeros);
    LongerFraction(nanosecond, Pow10(|fraction|), Pow10(zeros), Value(fraction), 1_000_000_000);
  }

  lemma ZerosKeepForm(w: Written, zeros: nat)
    requires WellFormed(w)
    ensures WellFormed(w.(fraction := w.fraction + Zeros(zeros)))
    ensures UnixSeconds(w.(fraction := w.fraction + Zeros(zeros))) == UnixSeconds(w)
  {
  }

  // Any number of zeros after the fraction leaves the instant unchanged; an absent fraction is zero.
  lemma TrailingZerosAreIgnored(w: Written, zeros: nat)
    requires WellFormed(w)
    ensures var longer := w.(fraction := w.fraction + Zeros(zeros));
            WellFormed(longer) && Parse(Render(longer)) == Parse(Render(w))
  {
    ZerosKeepForm(w, zeros);
    var longer := w.(fraction := w.fraction + Zeros(zeros));
    WellFormedIsAccepted(w);
    WellFormedIsAccepted(longer);
    var shorterRead, longerRead := Parse(Render(w)).value, Parse(Render(longer)).value;
    ZerosKeepFraction(w.fraction, zeros, shorterRead.nanosecond);
    ExactFractionIsUnique(longer.fraction, shorterRead.nanosecond, longerRead.nanosecond);
    assert shorterRead == longerRead;
  }

  // ---------------------------------------------------------------- The printer

  const FIRST_PRINTABLE := -62_135_596_800
  const LAST_PRINTABLE := 253_402_300_799

  function Print(unixSeconds: int): Result<seq<byte>, TimestampError> {
    var date := CivilFromDays(unixSeconds / 86400);
    var secondsOfDay := unixSeconds % 86400;
    if !(1 <= date.year <= 9999) then Err(OutsideCalendar)
    else
      DayRoundTrip(unixSeconds / 86400);
      Ok(CivilText(date, secondsOfDay / 3600, secondsOfDay % 3600 / 60, secondsOfDay % 60) + [LETTER_Z])
  }

  method EraOfDay64(days: i64) returns (era: i64, dayOfEra: i64)
    requires -110_000_000_000_000 <= days <= 110_000_000_000_000
    ensures var shifted := days as int + 719468;
            era as int == shifted / 146097 && dayOfEra as int == shifted - era as int * 146097
    ensures -1_000_000_000 <= era <= 1_000_000_000 && 0 <= dayOfEra < 146097
  {
    var shiftedDays := days + 719468;
    era := shiftedDays / 146097;
    dayOfEra := shiftedDays - era * 146097;
  }

  method YearOfEra64(dayOfEra: i64) returns (yearOfEra: i64, dayOfYear: i64)
    requires 0 <= dayOfEra < 146097
    ensures yearOfEra as int == YearOfEra(dayOfEra as int)
    ensures dayOfYear as int == dayOfEra as int - DaysBeforeYearOfEra(yearOfEra as int)
    ensures 0 <= yearOfEra < 400 && 0 <= dayOfYear <= 365
  {
    ghost var year, day := DayOfEraSplits(dayOfEra as int);
    YearOfEraRoundTrip(year, day);
    yearOfEra := (dayOfEra - dayOfEra / 1460 + dayOfEra / 36524 - dayOfEra / 146096) / 365;
    dayOfYear := dayOfEra - (365 * yearOfEra + yearOfEra / 4 - yearOfEra / 100);
  }

  method CivilOfYear64(era: i64, yearOfEra: i64, dayOfYear: i64) returns (year: i64, month: i64, day: i64)
    requires -1_000_000_000 <= era <= 1_000_000_000 && 0 <= yearOfEra < 400 && 0 <= dayOfYear <= 365
    ensures Date(year as int, month as int, day as int) == CivilOfYear(era as int, yearOfEra as int, dayOfYear as int)
  {
    year := yearOfEra + era * 400;
    var shiftedMonth := (5 * dayOfYear + 2) / 153;
    day := dayOfYear - (153 * shiftedMonth + 2) / 5 + 1;
    month := shiftedMonth + if shiftedMonth < 10 then 3 else -9;
    year := year + if month <= 2 then 1 else 0;
  }

  method CivilFromDays64(days: i64) returns (year: i64, month: i64, day: i64)
    requires -110_000_000_000_000 <= days <= 110_000_000_000_000
    ensures Date(year as int, month as int, day as int) == CivilFromDays(days as int)
    ensures 1 <= month <= 12 && 1 <= day <= 31
  {
    var era, dayOfEra := EraOfDay64(days);
    var yearOfEra, dayOfYear := YearOfEra64(dayOfEra);
    year, month, day := CivilOfYear64(era, yearOfEra, dayOfYear);
    DayRoundTrip(days as int);
  }

  method CivilText64(date: Date, secondsOfDay: i64) returns (text: seq<byte>)
    requires 0 <= date.year && 0 <= date.month && 0 <= date.day && 0 <= secondsOfDay < 86400
    ensures var s := secondsOfDay as int;
            text == CivilText(date, s / 3600, s % 3600 / 60, s % 60) + [LETTER_Z]
  {
    var hour, minute, second := secondsOfDay / 3600, secondsOfDay % 3600 / 60, secondsOfDay % 60;
    text := CivilText(date, hour as int, minute as int, second as int) + [LETTER_Z];
  }

  // The printer in 64-bit arithmetic. The sum that the program checks, and the products that it does not,
  // stay in range for every 64-bit number of seconds.
  method CanonicalMediawikiTimestamp(unixSeconds: i64) returns (r: Result<seq<byte>, TimestampError>)
    ensures r == Print(unixSeconds as int)
  {
    var year, month, day := CivilFromDays64(unixSeconds / 86400);
    if !(1 <= year <= 9999) {
      return Err(OutsideCalendar);
    }
    var text := CivilText64(Date(year as int, month as int, day as int), unixSeconds % 86400);
    return Ok(text);
  }

  // The printer succeeds on exactly the seconds of the years 0001 to 9999.
  lemma PrintableRange(unixSeconds: int)
    ensures Print(unixSeconds).Ok? <==> FIRST_PRINTABLE <= unixSeconds <= LAST_PRINTABLE
  {
    var day := unixSeconds / 86400;
    DayRoundTrip(day);
    PrintableYears(CivilFromDays(day));
  }

  lemma PrintableYears(d: Date)
    requires Valid(d)
    ensures 1 <= d.year <= 9999 <==> -719162 <= DaysFromCivil(d) <= 2932896
  {
    var first, last := Date(1, 1, 1), Date(9999, 12, 31);
    assert DaysFromCivil(first) == -719162 && DaysFromCivil(last) == 2932896;
    OrderIsDayOrder(d, first);
    OrderIsDayOrder(last, d);
  }

  /** The canonical written form: UTC, no fraction, a year the printer accepts. */
  predicate Canonical(w: Written) {
    WellFormed(w) && w.fraction == [] && w.zone == Zulu && w.date.year >= 1
  }

  ghost function CivilReading(unixSeconds: int): Written {
    var secondsOfDay := unixSeconds % 86400;
    Written(CivilFromDays(unixSeconds / 86400), secondsOfDay / 3600, secondsOfDay % 3600 / 60,
            secondsOfDay % 60, [], Zulu)
  }

  lemma PrintsCanonically(unixSeconds: int)
    requires Print(unixSeconds).Ok?
    ensures var w := CivilReading(unixSeconds);
            Canonical(w) && Print(unixSeconds) == Ok(Render(w)) && UnixSeconds(w) == unixSeconds
  {
    DayRoundTrip(unixSeconds / 86400);
    ClockSplits(unixSeconds % 86400);
    var w := CivilReading(unixSeconds);
    assert Render(w) == CivilText(w.date, w.hour, w.minute, w.second) + [LETTER_Z];
  }

  lemma ClockSplits(secondsOfDay: int)
    requires 0 <= secondsOfDay < 86400
    ensures var h, m, s := secondsOfDay / 3600, secondsOfDay % 3600 / 60, secondsOfDay % 60;
            0 <= h <= 23 && 0 <= m <= 59 && 0 <= s <= 59 && h * 3600 + m * 60 + s == secondsOfDay
  {
    var h, m, s := secondsOfDay / 3600, secondsOfDay % 3600 / 60, secondsOfDay % 60;
    assert secondsOfDay == 60 * (60 * h + m) + secondsOfDay % 3600 % 60;
  }

  lemma ClockJoins(day: int, h: nat, m: nat, s: nat)
    requires h <= 23 && m <= 59 && s <= 59
    ensures var unixSeconds := day * 86400 + h * 3600 + m * 60 + s;
            && unixSeconds / 86400 == day
            && unixSeconds % 86400 / 3600 == h && unixSeconds % 86400 % 3600 / 60 == m
            && unixSeconds % 86400 % 60 == s
  {
    var ofDay := h * 3600 + m * 60 + s;
    assert (day * 86400 + ofDay) / 86400 == day;
    assert ofDay / 3600 == h && ofDay % 3600 == m * 60 + s;
    assert ofDay == 60 * (h * 60 + m) + s;
    assert ofDay / 60 == h * 60 + m;
  }

  lemma PrintThenParse(unixSeconds: int)
    requires Print(unixSeconds).Ok?
    ensures Parse(Print(unixSeconds).value) == Ok(ParsedTimestamp(unixSeconds, 0))
  {
    PrintsCanonically(unixSeconds);
    WellFormedIsAccepted(CivilReading(unixSeconds));
    assert ExactFraction([], 0);
    ExactFractionIsUnique([], 0, Parse(Print(unixSeconds).value).value.nanosecond);
  }

  lemma CivilReadingBack(w: Written, unixSeconds: int, day: int)
    requires w.hour <= 23 && w.minute <= 59 && w.second <= 59 && w.fraction == [] && w.zone == Zulu
    requires unixSeconds == day * 86400 + w.hour * 3600 + w.minute * 60 + w.second
    requires CivilFromDays(day) == w.date
    ensures CivilReading(unixSeconds) == w
  {
    ClockJoins(day, w.hour, w.minute, w.second);
  }

  lemma CanonicalIsCivilReading(w: Written)
    requires Canonical(w)
    ensures CivilReading(UnixSeconds(w)) == w
  {
    DateRoundTrip(w.date);
    CivilReadingBack(w, UnixSeconds(w), DaysFromCivil(w.date));
  }

  lemma ParseThenPrint(w: Written)
    requires Canonical(w)
    ensures Parse(Render(w)).Ok? && Print(Parse(Render(w)).value.unixSeconds) == Ok(Render(w))
  {
    WellFormedIsAccepted(w);
    CanonicalIsCivilReading(w);
    PrintsCanonically(UnixSeconds(w));
  }

  // ---------------------------------------------------------------- Text order is time order

  // One more equally wide numeric field after equally long prefixes.
  lemma LexOfField(p: seq<byte>, q: seq<byte>, m: nat, n: nat, width: nat, separator: seq<byte>)
    requires |p| == |q| && m < Pow10(width) && n < Pow10(width)
    ensures LexLess(p + Dec(m, width) + separator, q + Dec(n, width) + separator)
            <==> LexLess(p, q) || (p == q && m < n)
    ensures p + Dec(m, width) + separator == q + Dec(n, width) + separator <==> p == q && m == n
  {
    LexOfDec(m, n, width);
    LexOfConcat(p, Dec(m, width), q, Dec(n, width));
    var x, y := p + Dec(m, width), q + Dec(n, width);
    LexOfConcat(x, separator, y, separator);
    LexIrreflexive(separator);
    assert x[..|p|] == p && y[..|q|] == q && x[|p|..] == Dec(m, width) && y[|q|..] == Dec(n, width);
    assert (x + separator)[..|x|] == x && (y + separator)[..|y|] == y;
  }

  lemma {:induction false} LexIrreflexive(s: seq<byte>)
    ensures !LexLess(s, s)
  {
    if s != [] {
      LexIrreflexive(s[1..]);
    }
  }

  lemma LexOfDates(a: Date, b: Date)
    requires 0 <= a.year <= 9999 && Valid(a) && 0 <= b.year <= 9999 && Valid(b)
    ensures LexLess(DateText(a), DateText(b)) <==> Before(a, b)
    ensures DateText(a) == DateText(b) <==> a == b
  {
    assert Pow10(4) == 10000 && Pow10(2) == 100;
    var p, q := Dec(a.year, 4) + [DASH], Dec(b.year, 4) + [DASH];
    assert [] + Dec(a.year, 4) + [DASH] == p && [] + Dec(b.year, 4) + [DASH] == q;
    LexOfField([], [], a.year, b.year, 4, [DASH]);
    LexOfField(p, q, a.month, b.month, 2, [DASH]);
    LexOfField(p + Dec(a.month, 2) + [DASH], q + Dec(b.month, 2) + [DASH], a.day, b.day, 2, [LETTER_T]);
  }

  ghost function DateText(d: Date): (t: seq<byte>)
    requires 0 <= d.year && 0 <= d.month && 0 <= d.day
    ensures |t| == 11
  {
    Dec(d.year, 4) + [DASH] + Dec(d.month, 2) + [DASH] + Dec(d.day, 2) + [LETTER_T]
  }

  lemma LexOfCivil(a: Written, b: Written)
    requires Canonical(a) && Canonical(b)
    ensures LexLess(Render(a), Render(b)) <==>
            Before(a.date, b.date) || (a.date == b.date &&
              (a.hour < b.hour || (a.hour == b.hour &&
                (a.minute < b.minute || (a.minute == b.minute && a.second < b.second)))))
  {
    assert Pow10(2) == 100;
    LexOfDates(a.date, b.date);
    var p, q := DateText(a.date), DateText(b.date);
    LexOfField(p, q, a.hour, b.hour, 2, [COLON]);
    var p', q' := p + Dec(a.hour, 2) + [COLON], q + Dec(b.hour, 2) + [COLON];
    LexOfField(p', q', a.minute, b.minute, 2, [COLON]);
    LexOfField(p' + Dec(a.minute, 2) + [COLON], q' + Dec(b.minute, 2) + [COLON], a.second, b.second, 2, [LETTER_Z]);
    assert Render(a) == p' + Dec(a.minute, 2) + [COLON] + Dec(a.second, 2) + [LETTER_Z];
    assert Render(b) == q' + Dec(b.minute, 2) + [COLON] + Dec(b.second, 2) + [LETTER_Z];
  }

  // Byte order of canonical texts is the numeric order of their seconds.
  lemma TextOrderIsTimeOrder(s: int, t: int)
    requires Print(s).Ok? && Print(t).Ok?
    ensures LexLess(Print(s).value, Print(t).value) <==> s < t
    ensures Print(s).value == Print(t).value <==> s == t
  {
    PrintsCanonically(s);
    PrintsCanonically(t);
    var a, b := CivilReading(s), CivilReading(t);
    LexOfCivil(a, b);
    OrderIsDayOrder(a.date, b.date);
    OrderIsDayOrder(b.date, a.date);
    if a.date == b.date {
      assert DaysFromCivil(a.date) == DaysFromCivil(b.date);
    }
    PrintThenParse(s);
    PrintThenParse(t);
  }
}
