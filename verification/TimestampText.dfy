/**
 The RFC 3339 reader and the canonical MediaWiki printer of the historical export.

 `Parse` is what the reader computes and `ParseRfc3339` the cursor loop that computes it in machine
 integers; `Render` is the independent statement of section 5.6 of RFC 3339 the reader is proved
 against, and `Print` the printer.
 */
module TimestampText {
  import opened Wrappers
  import opened Calendar
  import opened Decimal

  newtype u32 = x: int | 0 <= x < 0x1_0000_0000
  newtype i64 = x: int | -0x8000_0000_0000_0000 <= x < 0x8000_0000_0000_0000

  const DASH: byte := 45
  const LETTER_T: byte := 84
  const COLON: byte := 58
  const DOT: byte := 46
  const PLUS: byte := 43
  const LETTER_Z: byte := 90

  datatype ParsedTimestamp = ParsedTimestamp(unixSeconds: int, nanosecond: nat)

  datatype TimestampError =
    | UnexpectedShape
    | MissingComponent
    | NonNumericComponent
    | ComponentOutOfRange
    | EmptyFraction
    | FinerThanNanoseconds
    | OffsetOutOfRange
    | MissingZone
    | OutsideCalendar

  // ---------------------------------------------------------------- The written form

  datatype Zone = Zulu | Offset(east: bool, hours: nat, minutes: nat)

  /** A timestamp as it is written; `fraction` holds the digits after the point, if any. */
  datatype Written = Written(date: Date, hour: nat, minute: nat, second: nat, fraction: seq<byte>, zone: Zone)

  predicate WellFormed(w: Written) {
    && 0 <= w.date.year <= 9999 && Valid(w.date)
    && w.hour <= 23 && w.minute <= 59 && w.second <= 59
    && AllDigits(w.fraction)
    && (forall i | 9 <= i < |w.fraction| :: w.fraction[i] == ZERO)
    && (w.zone.Offset? ==> w.zone.hours <= 23 && w.zone.minutes <= 59)
  }

  function CivilText(d: Date, hour: nat, minute: nat, second: nat): (text: seq<byte>)
    requires 0 <= d.year && 0 <= d.month && 0 <= d.day
    ensures |text| == 19
  {
    Dec(d.year, 4) + [DASH] + Dec(d.month, 2) + [DASH] + Dec(d.day, 2) + [LETTER_T]
    + Dec(hour, 2) + [COLON] + Dec(minute, 2) + [COLON] + Dec(second, 2)
  }

  function FractionText(fraction: seq<byte>): seq<byte> {
    if fraction == [] then [] else [DOT] + fraction
  }

  function ZoneText(zone: Zone): seq<byte> {
    match zone
    case Zulu => [LETTER_Z]
    case Offset(east, hours, minutes) => [if east then PLUS else DASH] + Dec(hours, 2) + [COLON] + Dec(minutes, 2)
  }

  function Render(w: Written): seq<byte>
    requires WellFormed(w)
  {
    CivilText(w.date, w.hour, w.minute, w.second) + FractionText(w.fraction) + ZoneText(w.zone)
  }

  function OffsetSeconds(zone: Zone): int {
    match zone
    case Zulu => 0
    case Offset(east, hours, minutes) => (if east then 1 else -1) * (hours * 3600 + minutes * 60)
  }

  /** Seconds since the epoch of the written local time, without its fraction, in UTC. */
  function UnixSeconds(w: Written): int {
    DaysFromCivil(w.date) * 86400 + w.hour * 3600 + w.minute * 60 + w.second - OffsetSeconds(w.zone)
  }

  /** `nanosecond` is exactly the written fraction: nanosecond / 10^9 == 0.fraction. */
  predicate ExactFraction(fraction: seq<byte>, nanosecond: nat)
    requires AllDigits(fraction)
  {
    nanosecond < 1_000_000_000 && nanosecond * Pow10(|fraction|) == Value(fraction) * 1_000_000_000
  }

  // ---------------------------------------------------------------- The reader

  function DecimalAt(bytes: seq<byte>, start: nat, end: nat): Result<nat, TimestampError>
    requires start <= end
  {
    if end > |bytes| then Err(MissingComponent)
    else if !AllDigits(bytes[start..end]) then Err(NonNumericComponent)
    else Ok(Value(bytes[start..end]))
  }

  datatype Fields = Fields(date: Date, hour: nat, minute: nat, second: nat)

  function ParseFields(bytes: seq<byte>): Result<Fields, TimestampError> {
    if |bytes| < 20 || bytes[4] != DASH || bytes[7] != DASH || bytes[10] != LETTER_T
       || bytes[13] != COLON || bytes[16] != COLON
    then Err(UnexpectedShape)
    else
      match (DecimalAt(bytes, 0, 4), DecimalAt(bytes, 5, 7), DecimalAt(bytes, 8, 10),
             DecimalAt(bytes, 11, 13), DecimalAt(bytes, 14, 16), DecimalAt(bytes, 17, 19))
      case (Ok(year), Ok(month), Ok(day), Ok(hour), Ok(minute), Ok(second)) =>
        if !(1 <= month <= 12) || day == 0 || day > DaysInMonth(year, month)
           || hour > 23 || minute > 59 || second > 59
        then Err(ComponentOutOfRange)
        else Ok(Fields(Date(year, month, day), hour, minute, second))
      case _ => Err(NonNumericComponent)
  }

  /** The first position at or after `i` that holds no digit. */
  function DigitRunEnd(bytes: seq<byte>, i: nat): (end: nat)
    requires i <= |bytes|
    ensures i <= end <= |bytes|
    ensures AllDigits(bytes[i..end])
    ensures end < |bytes| ==> !IsDigit(bytes[end])
    decreases |bytes| - i
  {
    if i < |bytes| && IsDigit(bytes[i]) then
      var end := DigitRunEnd(bytes, i + 1);
      assert bytes[i..end] == [bytes[i]] + bytes[i + 1..end];
      end
    else i
  }

  lemma PrefixOfRun(bytes: seq<byte>, start: nat, end: nat, retained: nat)
    requires start <= end <= |bytes| && retained <= end - start && AllDigits(bytes[start..end])
    ensures AllDigits(bytes[start..start + retained])
  {
    assert bytes[start..start + retained] == bytes[start..end][..retained];
  }

  /** The position after the optional fraction that starts at 19, and its nanoseconds. */
  function ParseFraction(bytes: seq<byte>): (r: Result<(nat, nat), TimestampError>)
    requires |bytes| >= 20
    ensures r.Ok? ==> 19 <= r.value.0 <= |bytes|
  {
    if bytes[19] != DOT then Ok((19, 0))
    else
      var end := DigitRunEnd(bytes, 20);
      var retained := Min(end - 20, 9);
      if end == 20 then Err(EmptyFraction)
      else if exists i | 20 + retained <= i < end :: bytes[i] != ZERO then Err(FinerThanNanoseconds)
      else
        PrefixOfRun(bytes, 20, end, retained);
        Ok((end, Value(bytes[20..20 + retained]) * Pow10(9 - retained)))
  }

  function ParseZone(bytes: seq<byte>, cursor: nat): Result<Zone, TimestampError>
    requires cursor <= |bytes|
  {
    if cursor + 1 == |bytes| && bytes[cursor] == LETTER_Z then Ok(Zulu)
    else if cursor + 6 == |bytes| && bytes[cursor] in {PLUS, DASH} && bytes[cursor + 3] == COLON then
      match (DecimalAt(bytes, cursor + 1, cursor + 3), DecimalAt(bytes, cursor + 4, cursor + 6))
      case (Ok(hours), Ok(minutes)) =>
        if hours > 23 || minutes > 59 then Err(OffsetOutOfRange)
        else Ok(Offset(bytes[cursor] == PLUS, hours, minutes))
      case _ => Err(NonNumericComponent)
    else Err(MissingZone)
  }

  function Parse(bytes: seq<byte>): Result<ParsedTimestamp, TimestampError> {
    match ParseFields(bytes)
    case Err(e) => Err(e)
    case Ok(f) =>
      match ParseFraction(bytes)
      case Err(e) => Err(e)
      case Ok((cursor, nanosecond)) =>
        match ParseZone(bytes, cursor)
        case Err(e) => Err(e)
        case Ok(zone) =>
          Ok(ParsedTimestamp(UnixSeconds(Written(f.date, f.hour, f.minute, f.second, [], zone)), nanosecond))
  }

  method Decimal32(bytes: seq<byte>, start: nat, end: nat) returns (r: Result<u32, TimestampError>)
    requires start <= end <= start + 9
    ensures match DecimalAt(bytes, start, end)
            case Ok(n) => n < Pow10(end - start) && r.Ok? && r.value as int == n
            case Err(e) => r == Err(e)
  {
    if end > |bytes| {
      return Err(MissingComponent);
    }
    var digits := bytes[start..end];
    if !AllDigits(digits) {
      return Err(NonNumericComponent);
    }
    var value: u32 := 0;
    for i := 0 to |digits|
      invariant value as int == Value(digits[..i]) < Pow10(i)
    {
      assert digits[..i + 1][..i] == digits[..i];
      PowIsMonotone(i + 1, 9);
      value := value * 10 + (digits[i] - ZERO) as u32;
    }
    assert digits[..|digits|] == digits;
    return Ok(value);
  }

  lemma {:induction false} PowIsMonotone(a: nat, b: nat)
    requires a <= b
    ensures Pow10(a) <= Pow10(b)
    decreases b - a
  {
    if a < b {
      PowIsMonotone(a + 1, b);
    }
  }

  method Era64(adjustedYear: i64) returns (era: i64, yearOfEra: i64)
    requires -1 <= adjustedYear <= 9999
    ensures era as int == adjustedYear as int / 400 && yearOfEra as int == adjustedYear as int % 400
  {
    // The only negative numerator is -400, which every rounding divides alike.
    era := (if adjustedYear >= 0 then adjustedYear else adjustedYear - 399) / 400;
    yearOfEra := adjustedYear - era * 400;
  }

  method DayOfEra64(yearOfEra: i64, adjustedMonth: i64, day: i64) returns (dayOfEra: i64)
    requires 0 <= yearOfEra < 400 && 0 <= adjustedMonth < 12 && 1 <= day <= 31
    ensures dayOfEra as int ==
            DaysBeforeYearOfEra(yearOfEra as int) + DaysBeforeMonth(adjustedMonth as int) + day as int - 1
    ensures 0 <= dayOfEra < 200_000
  {
    var dayOfYear := (153 * adjustedMonth + 2) / 5 + day - 1;
    dayOfEra := yearOfEra * 365 + yearOfEra / 4 - yearOfEra / 100 + dayOfYear;
  }

  // The civil conversion of the reader in 64-bit arithmetic, for the years four digits can spell.
  method DaysFromCivil64(year: i64, month: u32, day: u32) returns (days: i64)
    requires 0 <= year <= 9999 && 1 <= month <= 12 && 1 <= day <= 31
    ensures days as int == DaysFromCivil(Date(year as int, month as int, day as int))
    ensures -1_000_000 <= days <= 4_000_000
  {
    DaysFromCivilSplits(Date(year as int, month as int, day as int));
    var era, yearOfEra := Era64(if month <= 2 then year - 1 else year);
    var dayOfEra := DayOfEra64(yearOfEra, if month > 2 then month as i64 - 3 else month as i64 + 9, day as i64);
    days := era * 146097 + dayOfEra - 719468;
  }

  method ReadFields(bytes: seq<byte>) returns (r: Result<(i64, u32, u32, u32, u32, u32), TimestampError>)
    ensures match ParseFields(bytes)
            case Err(e) => r == Err(e)
            case Ok(f) =>
              r.Ok? && 0 <= r.value.0 <= 9999 && 1 <= r.value.1 <= 12 && 1 <= r.value.2 <= 31
              && r.value.3 <= 23 && r.value.4 <= 59 && r.value.5 <= 59
              && f == Fields(Date(r.value.0 as int, r.value.1 as int, r.value.2 as int),
                             r.value.3 as int, r.value.4 as int, r.value.5 as int)
  {
    if |bytes| < 20 || bytes[4] != DASH || bytes[7] != DASH || bytes[10] != LETTER_T
       || bytes[13] != COLON || bytes[16] != COLON {
      return Err(UnexpectedShape);
    }
    var year := Decimal32(bytes, 0, 4);
    if year.Err? { return Err(year.error); }
    var month := Decimal32(bytes, 5, 7);
    if month.Err? { return Err(month.error); }
    var day := Decimal32(bytes, 8, 10);
    if day.Err? { return Err(day.error); }
    var hour := Decimal32(bytes, 11, 13);
    if hour.Err? { return Err(hour.error); }
    var minute := Decimal32(bytes, 14, 16);
    if minute.Err? { return Err(minute.error); }
    var second := Decimal32(bytes, 17, 19);
    if second.Err? { return Err(second.error); }
    assert Pow10(4) == 10000;
    if !(1 <= month.value <= 12) || day.value == 0
       || day.value as int > DaysInMonth(year.value as int, month.value as int)
       || hour.value > 23 || minute.value > 59 || second.value > 59 {
      return Err(ComponentOutOfRange);
    }
    return Ok((year.value as i64, month.value, day.value, hour.value, minute.value, second.value));
  }

  method ScaleToNanoseconds(leading: u32, retained: nat) returns (nanosecond: u32)
    requires retained <= 9 && leading as int < Pow10(retained)
    ensures nanosecond as int == leading as int * Pow10(9 - retained)
    ensures nanosecond < 1_000_000_000
  {
    nanosecond := leading;
    for n := retained to 9
      invariant nanosecond as int == leading as int * Pow10(n - retained)
      invariant nanosecond as int < Pow10(n)
    {
      PowIsMonotone(n + 1, 9);
      NinePlaces();
      NextDigit(leading as int, Pow10(n - retained), 0, 0);
      nanosecond := nanosecond * 10;
    }
    NinePlaces();
  }

  lemma NinePlaces()
    ensures Pow10(9) == 1_000_000_000
  {
    assert Pow10(3) == 1000;
    PowAdds(3, 3);
    PowAdds(6, 3);
  }

  method ReadFraction(bytes: seq<byte>) returns (r: Result<(nat, u32), TimestampError>)
    requires |bytes| >= 20
    ensures match ParseFraction(bytes)
            case Err(e) => r == Err(e)
            case Ok((cursor, nanosecond)) =>
              r.Ok? && r.value.0 == cursor && r.value.1 as int == nanosecond < 1_000_000_000
  {
    var cursor, nanosecond: u32 := 19, 0;
    if bytes[cursor] == DOT {
      cursor := cursor + 1;
      while cursor < |bytes| && IsDigit(bytes[cursor])
        invariant 20 <= cursor <= |bytes|
        invariant DigitRunEnd(bytes, 20) == DigitRunEnd(bytes, cursor)
      {
        cursor := cursor + 1;
      }
      var digits := cursor - 20;
      if digits == 0 {
        return Err(EmptyFraction);
      }
      var retained := Min(digits, 9);
      PrefixOfRun(bytes, 20, cursor, retained);
      var leading := Decimal32(bytes, 20, 20 + retained);
      nanosecond := ScaleToNanoseconds(leading.value, retained);
      if exists i | 20 + retained <= i < cursor :: bytes[i] != ZERO {
        return Err(FinerThanNanoseconds);
      }
    }
    return Ok((cursor, nanosecond));
  }

  method ReadOffset(bytes: seq<byte>, cursor: nat) returns (r: Result<i64, TimestampError>)
    requires cursor <= |bytes|
    ensures match ParseZone(bytes, cursor)
            case Err(e) => r == Err(e)
            case Ok(zone) => r.Ok? && r.value as int == OffsetSeconds(zone) && -86400 < r.value < 86400
  {
    if cursor + 1 == |bytes| && bytes[cursor] == LETTER_Z {
      return Ok(0);
    }
    if cursor + 6 == |bytes| && bytes[cursor] in {PLUS, DASH} && bytes[cursor + 3] == COLON {
      var hours := Decimal32(bytes, cursor + 1, cursor + 3);
      if hours.Err? { return Err(hours.error); }
      var minutes := Decimal32(bytes, cursor + 4, cursor + 6);
      if minutes.Err? { return Err(minutes.error); }
      if hours.value > 23 || minutes.value > 59 {
        return Err(OffsetOutOfRange);
      }
      var offset := (hours.value * 3600 + minutes.value * 60) as i64;
      return Ok(if bytes[cursor] == PLUS then offset else -offset);
    }
    return Err(MissingZone);
  }

  method UnixSeconds64(days: i64, hour: u32, minute: u32, second: u32, offset: i64) returns (unixSeconds: i64)
    requires -1_000_000 <= days <= 4_000_000 && hour <= 23 && minute <= 59 && second <= 59
    requires -86400 < offset < 86400
    ensures unixSeconds as int ==
            days as int * 86400 + hour as int * 3600 + minute as int * 60 + second as int - offset as int
  {
    var localSeconds := days * 86400 + (hour * 3600) as i64 + (minute * 60) as i64 + second as i64;
    unixSeconds := localSeconds - offset;
  }

  method ParseRfc3339(bytes: seq<byte>) returns (r: Result<ParsedTimestamp, TimestampError>)
    ensures r == Parse(bytes)
  {
    var fields := ReadFields(bytes);
    if fields.Err? { return Err(fields.error); }
    var (year, month, day, hour, minute, second) := fields.value;
    var fraction := ReadFraction(bytes);
    if fraction.Err? { return Err(fraction.error); }
    var (cursor, nanosecond) := fraction.value;
    var offset := ReadOffset(bytes, cursor);
    if offset.Err? { return Err(offset.error); }
    // The checked operations of the program never overflow here, so its range error cannot occur.
    var days := DaysFromCivil64(year, month, day);
    var unixSeconds := UnixSeconds64(days, hour, minute, second, offset.value);
    return Ok(ParsedTimestamp(unixSeconds as int, nanosecond as int));
  }
}
