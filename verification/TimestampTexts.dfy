/**
 What the timestamp reader makes of concrete texts, byte for byte: which clock times, fractions and zones it
 takes, and by how much a zone moves the instant.
 */
module TimestampTexts {
  import opened Wrappers
  import opened Calendar
  import opened Decimal
  import opened TimestampText
  import opened TimestampTheorems

  /** Two decimal digits. */
  function Two(n: nat): seq<byte>
    requires n < 100
  {
    [48 + n / 10, 48 + n % 10]
  }

  lemma TwoDigits(n: nat)
    requires n < 100
    ensures Two(n) == Dec(n, 2)
  {
    assert Dec(n / 10, 1) == Dec(n / 10 / 10, 0) + [48 + n / 10 % 10];
  }

  /** `YYYY-MM-DDThh:mm:ss`, the year given by its two halves. */
  function LocalText(century: nat, year: nat, month: nat, day: nat, hour: nat, minute: nat, second: nat):
    (text: seq<byte>)
    requires century < 100 && year < 100 && month < 100 && day < 100 && hour < 100 && minute < 100 && second < 100
    ensures |text| == 19
  {
    Two(century) + Two(year) + [45] + Two(month) + [45] + Two(day) + [84]
    + Two(hour) + [58] + Two(minute) + [58] + Two(second)
  }

  lemma YearDigits(century: nat, year: nat)
    requires century < 100 && year < 100
    ensures Two(century) + Two(year) == Dec(100 * century + year, 4)
  {
    var n := 100 * century + year;
    TwoDigits(century);
    assert n / 10 / 10 == century && n / 10 % 10 == year / 10 && n % 10 == year % 10;
    assert Dec(n, 4) == Dec(n / 10 / 10, 2) + [48 + n / 10 % 10] + [48 + n % 10];
  }

  lemma LocalIsCivil(century: nat, year: nat, month: nat, day: nat, hour: nat, minute: nat, second: nat)
    requires century < 100 && year < 100 && month < 100 && day < 100 && hour < 100 && minute < 100 && second < 100
    ensures LocalText(century, year, month, day, hour, minute, second)
         == CivilText(Date(100 * century + year, month, day), hour, minute, second)
  {
    YearDigits(century, year);
    TwoDigits(month);
    TwoDigits(day);
    TwoDigits(hour);
    TwoDigits(minute);
    TwoDigits(second);
  }

  /** A date of the calendar and a time of the clock. */
  predicate OnTheClock(year: nat, month: nat, day: nat, hour: nat, minute: nat, second: nat) {
    1 <= month <= 12 && 1 <= day <= DaysInMonth(year, month) && hour <= 23 && minute <= 59 && second <= 59
  }

  lemma FieldsOrRefusal(t: seq<byte>, year: nat, month: nat, day: nat, hour: nat, minute: nat, second: nat)
    requires Separated(t)
    requires DecimalAt(t, 0, 4) == Ok(year) && DecimalAt(t, 5, 7) == Ok(month) && DecimalAt(t, 8, 10) == Ok(day)
    requires DecimalAt(t, 11, 13) == Ok(hour) && DecimalAt(t, 14, 16) == Ok(minute)
    requires DecimalAt(t, 17, 19) == Ok(second)
    ensures ParseFields(t) == if OnTheClock(year, month, day, hour, minute, second)
                              then Ok(Fields(Date(year, month, day), hour, minute, second))
                              else Err(ComponentOutOfRange)
  {
  }

  lemma FieldsOfLocal(century: nat, year: nat, month: nat, day: nat, hour: nat, minute: nat, second: nat,
                      rest: seq<byte>)
    requires century < 100 && year < 100 && month < 100 && day < 100 && hour < 100 && minute < 100 && second < 100
    requires rest != []
    ensures ParseFields(LocalText(century, year, month, day, hour, minute, second) + rest)
         == if OnTheClock(100 * century + year, month, day, hour, minute, second)
            then Ok(Fields(Date(100 * century + year, month, day), hour, minute, second))
            else Err(ComponentOutOfRange)
  {
    var d := Date(100 * century + year, month, day);
    var t := LocalText(century, year, month, day, hour, minute, second) + rest;
    LocalIsCivil(century, year, month, day, hour, minute, second);
    CivilSlices(d, hour, minute, second, rest);
    DecimalOfFour(t, 0, d.year);
    DecimalOfTwo(t, 5, month);
    DecimalOfTwo(t, 8, day);
    DecimalOfTwo(t, 11, hour);
    DecimalOfTwo(t, 14, minute);
    DecimalOfTwo(t, 17, second);
    FieldsOrRefusal(t, d.year, month, day, hour, minute, second);
  }

  lemma ZuluOfText(prefix: seq<byte>)
    ensures ParseZone(prefix + [90], |prefix|) == Ok(Zulu)
  {
    ZoneOfText(prefix, Zulu);
  }

  // A text without fraction that ends in Z is accepted if and only if its numbers are a date and a time.
  lemma AcceptsTheClock(century: nat, year: nat, month: nat, day: nat, hour: nat, minute: nat, second: nat)
    requires century < 100 && year < 100 && month < 100 && day < 100 && hour < 100 && minute < 100 && second < 100
    ensures var text := LocalText(century, year, month, day, hour, minute, second) + [90];
            Parse(text).Ok? <==> OnTheClock(100 * century + year, month, day, hour, minute, second)
  {
    var local := LocalText(century, year, month, day, hour, minute, second);
    FieldsOfLocal(century, year, month, day, hour, minute, second, [90]);
    assert (local + [90])[19] == 90;
    ZuluOfText(local);
  }

  // ---------------------------------------------------------------- Zones

  /** `+hh:mm` or `-hh:mm`, after its sign. */
  function ZoneDigits(hours: nat, minutes: nat): seq<byte>
    requires hours < 100 && minutes < 100
  {
    Two(hours) + [58] + Two(minutes)
  }

  lemma ZoneOrRefusal(prefix: seq<byte>, sign: byte, hours: nat, minutes: nat)
    requires sign in {43, 45} && hours < 100 && minutes < 100
    ensures ParseZone(prefix + [sign] + ZoneDigits(hours, minutes), |prefix|)
         == if hours <= 23 && minutes <= 59 then Ok(Offset(sign == 43, hours, minutes)) else Err(OffsetOutOfRange)
  {
    var text, cursor := [sign] + ZoneDigits(hours, minutes), |prefix|;
    var bytes := prefix + [sign] + ZoneDigits(hours, minutes);
    assert bytes == prefix + text;
    TwoDigits(hours);
    TwoDigits(minutes);
    SliceAfter(prefix, text, 1, 3);
    SliceAfter(prefix, text, 4, 6);
    assert text[1..3] == Two(hours) && text[4..6] == Two(minutes);
    DecimalOfTwo(bytes, cursor + 1, hours);
    DecimalOfTwo(bytes, cursor + 4, minutes);
    assert bytes[cursor] == sign && bytes[cursor + 3] == 58;
  }

  predicate Local(d: Date, hour: nat, minute: nat, second: nat, fraction: seq<byte>) {
    && 0 <= d.year <= 9999 && Valid(d) && hour <= 23 && minute <= 59 && second <= 59
    && AllDigits(fraction) && forall i | 9 <= i < |fraction| :: fraction[i] == 48
  }

  lemma ReadUpToZone(d: Date, hour: nat, minute: nat, second: nat, fraction: seq<byte>, zone: seq<byte>)
    requires Local(d, hour, minute, second, fraction) && zone != [] && !IsDigit(zone[0]) && zone[0] != 46
    ensures var local := CivilText(d, hour, minute, second) + FractionText(fraction);
            && ParseFields(local + zone) == Ok(Fields(d, hour, minute, second))
            && ParseFraction(local + zone).Ok? && ParseFraction(local + zone).value.0 == |local|
            && ExactFraction(fraction, ParseFraction(local + zone).value.1)
  {
    var civil, f := CivilText(d, hour, minute, second), FractionText(fraction);
    assert civil + f + zone == civil + (f + zone);
    FieldsOfCivilText(d, hour, minute, second, f + zone);
    FractionOfText(civil, fraction, zone);
  }

  lemma ZoneMovesFields(d: Date, hour: nat, minute: nat, second: nat, fraction: seq<byte>, hours: nat, minutes: nat)
    requires Local(d, hour, minute, second, fraction) && hours < 100 && minutes < 100
    ensures var local := CivilText(d, hour, minute, second) + FractionText(fraction);
            var zulu := Parse(local + [90]);
            var east, west := Parse(local + [43] + ZoneDigits(hours, minutes)),
                              Parse(local + [45] + ZoneDigits(hours, minutes));
            && zulu.Ok? && (east.Ok? <==> hours <= 23 && minutes <= 59) && (west.Ok? <==> hours <= 23 && minutes <= 59)
            && (east.Ok? ==> east.value == ParsedTimestamp(zulu.value.unixSeconds - (hours * 3600 + minutes * 60),
                                                           zulu.value.nanosecond))
            && (west.Ok? ==> west.value == ParsedTimestamp(zulu.value.unixSeconds + (hours * 3600 + minutes * 60),
                                                           zulu.value.nanosecond))
  {
    var local := CivilText(d, hour, minute, second) + FractionText(fraction);
    ReadUpToZone(d, hour, minute, second, fraction, [90]);
    ZuluOfText(local);
    ReadUpToOffset(d, hour, minute, second, fraction, 43, hours, minutes);
    ReadUpToOffset(d, hour, minute, second, fraction, 45, hours, minutes);
    ExactFractionIsUnique(fraction, ParseFraction(local + [90]).value.1,
                          ParseFraction(local + [43] + ZoneDigits(hours, minutes)).value.1);
    ExactFractionIsUnique(fraction, ParseFraction(local + [90]).value.1,
                          ParseFraction(local + [45] + ZoneDigits(hours, minutes)).value.1);
  }

  lemma ReadUpToOffset(d: Date, hour: nat, minute: nat, second: nat, fraction: seq<byte>, sign: byte,
                       hours: nat, minutes: nat)
    requires Local(d, hour, minute, second, fraction) && sign in {43, 45} && hours < 100 && minutes < 100
    ensures var local := CivilText(d, hour, minute, second) + FractionText(fraction);
            var bytes := local + [sign] + ZoneDigits(hours, minutes);
            && ParseFields(bytes) == Ok(Fields(d, hour, minute, second))
            && ParseFraction(bytes).Ok? && ParseFraction(bytes).value.0 == |local|
            && ExactFraction(fraction, ParseFraction(bytes).value.1)
            && ParseZone(bytes, |local|) == if hours <= 23 && minutes <= 59 then Ok(Offset(sign == 43, hours, minutes))
                                            else Err(OffsetOutOfRange)
  {
    var local := CivilText(d, hour, minute, second) + FractionText(fraction);
    var zone := [sign] + ZoneDigits(hours, minutes);
    ReadUpToZone(d, hour, minute, second, fraction, zone);
    assert local + zone == local + [sign] + ZoneDigits(hours, minutes);
    ZoneOrRefusal(local, sign, hours, minutes);
  }

  // ---------------------------------------------------------------- Whole texts

  /** What stands between the seconds and the zone. */
  function Point(digits: seq<byte>): seq<byte> { if digits == [] then [] else [46] + digits }

  // The same local time is an earlier instant the further east it is written, and a later one the further west: by
  // exactly the hours and minutes of the zone. A zone is accepted if and only if it is less than a day.
  lemma ZoneMovesTheInstant(century: nat, year: nat, month: nat, day: nat, hour: nat, minute: nat, second: nat,
                            digits: seq<byte>, hours: nat, minutes: nat)
    requires century < 100 && year < 100 && hours < 100 && minutes < 100
    requires OnTheClock(100 * century + year, month, day, hour, minute, second)
    requires AllDigits(digits) && forall i | 9 <= i < |digits| :: digits[i] == 48
    ensures var local := LocalText(century, year, month, day, hour, minute, second) + Point(digits);
            var zone := Two(hours) + [58] + Two(minutes);
            var zulu, east, west := Parse(local + [90]), Parse(local + [43] + zone), Parse(local + [45] + zone);
            && zulu.Ok? && (east.Ok? <==> hours <= 23 && minutes <= 59) && (west.Ok? <==> hours <= 23 && minutes <= 59)
            && (east.Ok? ==> east.value == ParsedTimestamp(zulu.value.unixSeconds - (hours * 3600 + minutes * 60),
                                                           zulu.value.nanosecond))
            && (west.Ok? ==> west.value == ParsedTimestamp(zulu.value.unixSeconds + (hours * 3600 + minutes * 60),
                                                           zulu.value.nanosecond))
  {
    LocalIsCivil(century, year, month, day, hour, minute, second);
    assert Point(digits) == FractionText(digits);
    ZoneMovesFields(Date(100 * century + year, month, day), hour, minute, second, digits, hours, minutes);
  }

  predicate NoFinerThanNanoseconds(digits: seq<byte>) {
    digits != [] && forall i | 9 <= i < |digits| :: digits[i] == 48
  }

  /** `r` is the instant `whole`, moved by the fraction that `digits` spell. */
  predicate Adds(whole: ParsedTimestamp, r: ParsedTimestamp, digits: seq<byte>)
    requires AllDigits(digits)
  {
    && r.unixSeconds == whole.unixSeconds && r.nanosecond < 1_000_000_000
    && r.nanosecond * Pow10(|digits|) == Value(digits) * 1_000_000_000
  }

  // A fraction is accepted if and only if it has a digit and nothing but zeros beyond the ninth, and is then read
  // exactly; without a fraction the nanosecond is 0.
  lemma FractionIsExact(century: nat, year: nat, month: nat, day: nat, hour: nat, minute: nat, second: nat,
                        digits: seq<byte>)
    requires century < 100 && year < 100 && OnTheClock(100 * century + year, month, day, hour, minute, second)
    requires AllDigits(digits)
    ensures var civil := LocalText(century, year, month, day, hour, minute, second);
            var whole, r := Parse(civil + [90]), Parse(civil + [46] + digits + [90]);
            && whole.Ok? && whole.value.nanosecond == 0 && (r.Ok? <==> NoFinerThanNanoseconds(digits))
            && (r.Ok? ==> Adds(whole.value, r.value, digits))
  {
    LocalIsCivil(century, year, month, day, hour, minute, second);
    FractionOfCivil(Date(100 * century + year, month, day), hour, minute, second, digits);
  }

  lemma FractionOfCivil(d: Date, hour: nat, minute: nat, second: nat, digits: seq<byte>)
    requires 0 <= d.year <= 9999 && Valid(d) && hour <= 23 && minute <= 59 && second <= 59 && AllDigits(digits)
    ensures var civil := CivilText(d, hour, minute, second);
            var whole, r := Parse(civil + [90]), Parse(civil + [46] + digits + [90]);
            && whole.Ok? && whole.value.nanosecond == 0 && (r.Ok? <==> NoFinerThanNanoseconds(digits))
            && (r.Ok? ==> Adds(whole.value, r.value, digits))
  {
    WholeSecond(d, hour, minute, second);
    if NoFinerThanNanoseconds(digits) {
      FractionIsRead(d, hour, minute, second, digits);
    } else {
      FractionIsRefused(CivilText(d, hour, minute, second), digits);
    }
  }

  lemma WholeSecond(d: Date, hour: nat, minute: nat, second: nat)
    requires 0 <= d.year <= 9999 && Valid(d) && hour <= 23 && minute <= 59 && second <= 59
    ensures Parse(CivilText(d, hour, minute, second) + [90])
         == Ok(ParsedTimestamp(UnixSeconds(Written(d, hour, minute, second, [], Zulu)), 0))
  {
    var civil := CivilText(d, hour, minute, second);
    FieldsOfCivilText(d, hour, minute, second, [90]);
    assert (civil + [90])[19] == 90;
    ZuluOfText(civil);
  }

  lemma FractionIsRead(d: Date, hour: nat, minute: nat, second: nat, digits: seq<byte>)
    requires Local(d, hour, minute, second, digits) && digits != []
    ensures var r := Parse(CivilText(d, hour, minute, second) + [46] + digits + [90]);
            && r.Ok? && r.value.unixSeconds == UnixSeconds(Written(d, hour, minute, second, [], Zulu))
            && ExactFraction(digits, r.value.nanosecond)
  {
    var local := CivilText(d, hour, minute, second) + FractionText(digits);
    assert CivilText(d, hour, minute, second) + [46] + digits == local;
    ReadUpToZone(d, hour, minute, second, digits, [90]);
    ZuluOfText(local);
  }

  lemma FractionIsRefused(civil: seq<byte>, digits: seq<byte>)
    requires |civil| == 19 && AllDigits(digits)
    requires digits == [] || exists i | 9 <= i < |digits| :: digits[i] != 48
    ensures Parse(civil + [46] + digits + [90]).Err?
  {
    var bytes, end := civil + [46] + digits + [90], 20 + |digits|;
    assert bytes[20..end] == digits && bytes[end] == 90;
    RunEnds(bytes, 20, end);
    if i :| 9 <= i < |digits| && digits[i] != 48 {
      assert bytes[20 + i] == digits[i];
    }
  }

  lemma EpochIsZero()
    ensures Parse(LocalText(19, 70, 1, 1, 0, 0, 0) + [90]) == Ok(ParsedTimestamp(0, 0))
  {
    FieldsOfLocal(19, 70, 1, 1, 0, 0, 0, [90]);
    ZuluOfText(LocalText(19, 70, 1, 1, 0, 0, 0));
    assert (LocalText(19, 70, 1, 1, 0, 0, 0) + [90])[19] == 90;
    WalkIsCount(0);
  }
}
