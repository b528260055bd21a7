/** Timestamps as text: Go's RFC3339Nano form (RFC 3339 section 5.6, the
    fraction without its trailing zeros), written in UTC and read with any
    numeric offset. */
module Rfc3339 {
  import opened Wrappers
  import opened Decimal
  import opened Calendar

  function TrimZeros(s: string): string {
    if s != "" && s[|s| - 1] == '0' then TrimZeros(s[..|s| - 1]) else s
  }

  function FormatFraction(nanos: nat): string {
    if nanos == 0 then "" else "." + TrimZeros(AppendInt(nanos, 9))
  }

  function Stamp(year: string, month: string, day: string, hour: string, minute: string, second: string): string {
    year + "-" + month + "-" + day + "T" + hour + ":" + minute + ":" + second
  }

  function StampOf(t: DateTime): string {
    Stamp(AppendInt(t.date.year, 4), AppendInt(t.date.month, 2), AppendInt(t.date.day, 2),
          AppendInt(t.hour, 2), AppendInt(t.minute, 2), AppendInt(t.second, 2))
  }

  /** t.UTC().Format(time.RFC3339Nano), for an instant in any year. */
  function Format(i: Instant): string {
    StampOf(FromInstant(i)) + FormatFraction(i % NANOS_PER_SECOND) + "Z"
  }

  function ZoneText(minutes: int): string {
    var size := if minutes < 0 then -minutes else minutes;
    (if minutes < 0 then "-" else "+") + AppendInt(size / 60, 2) + ":" + AppendInt(size % 60, 2)
  }

  /** The clock reading of an instant at a place some minutes east of UTC. */
  function LocalTime(i: Instant, minutes: int): DateTime { FromInstant(i + minutes * 60 * NANOS_PER_SECOND) }

  /** The same instant written with a numeric offset, as other clients may. */
  function FormatAt(i: Instant, minutes: int): string {
    StampOf(LocalTime(i, minutes)) + FormatFraction(i % NANOS_PER_SECOND) + ZoneText(minutes)
  }

  /** A field of digits with a value within bounds. */
  function Field(s: string, low: int, high: int): Option<int> {
    if AllDigits(s) && low <= DigitsValue(s) <= high then Some(DigitsValue(s)) else None
  }

  function LeadingDigits(s: string): string {
    if s != "" && IsDigit(s[0]) then [s[0]] + LeadingDigits(s[1..]) else ""
  }

  /** An optional fraction, cut after nine digits, and the text behind it. */
  function ParseFraction(s: string): (r: (nat, string))
    ensures r.0 < NANOS_PER_SECOND
  {
    if |s| >= 2 && s[0] == '.' && IsDigit(s[1]) then
      var digits := LeadingDigits(s[1..]);
      LeadingDigitsPrefix(s[1..]);
      var used := digits[..if |digits| < 9 then |digits| else 9];
      ScaledBound(used);
      (Scale(DigitsValue(used), 9 - |used|), s[1 + |digits|..])
    else (0, s)
  }

  /** The zone designator as seconds east of UTC. */
  function ParseZone(s: string): Option<int> {
    if s == "Z" then Some(0)
    else if |s| == 6 && (s[0] == '+' || s[0] == '-') && s[3] == ':' then
      match (Field(s[1..3], 0, 23), Field(s[4..6], 0, 59))
      case (Some(hour), Some(minute)) =>
        var offset := (hour * 60 + minute) * 60;
        Some(if s[0] == '-' then -offset else offset)
      case _ => None
    else None
  }

  function ParseStamp(s: string): (r: Option<DateTime>)
    requires |s| == 19
    ensures r.Some? ==> ValidDateTime(r.value)
  {
    if !(s[4] == '-' && s[7] == '-' && s[10] == 'T' && s[13] == ':' && s[16] == ':') then None
    else
      match (Field(s[0..4], 0, 9999), Field(s[5..7], 1, 12))
      case (Some(year), Some(month)) => (
        match (Field(s[8..10], 1, DaysIn(year, month)), Field(s[11..13], 0, 23), Field(s[14..16], 0, 59), Field(s[17..19], 0, 59))
        case (Some(day), Some(hour), Some(minute), Some(second)) =>
          Some(DateTime(Civil(year, month, day), hour, minute, second, 0))
        case _ => None
      )
      case _ => None
  }

  /** The RFC 3339 reading of a timestamp, which time.Parse tries first. */
  function Parse(s: string): Option<Instant> {
    if |s| < 19 then None
    else
      var (nanos, rest) := ParseFraction(s[19..]);
      match (ParseStamp(s[..19]), ParseZone(rest))
      case (Some(stamp), Some(offset)) =>
        Some(ToInstant(stamp.(nanos := nanos)) - offset * NANOS_PER_SECOND)
      case _ => None
  }

  // ---- Laws ----

  lemma {:induction false} LeadingDigitsPrefix(s: string)
    ensures AllDigits(LeadingDigits(s)) && LeadingDigits(s) <= s
  {
    if s != "" && IsDigit(s[0]) {
      LeadingDigitsPrefix(s[1..]);
      assert s == [s[0]] + s[1..];
    }
  }

  lemma {:induction false} LeadingDigitsOf(digits: string, rest: string)
    requires AllDigits(digits) && (rest == "" || !IsDigit(rest[0]))
    ensures LeadingDigits(digits + rest) == digits
  {
    if digits == "" {
      assert digits + rest == rest;
    } else {
      LeadingDigitsOf(digits[1..], rest);
      assert (digits + rest)[1..] == digits[1..] + rest;
      assert digits == [digits[0]] + digits[1..];
    }
  }

  lemma {:induction false} ScaleMonotone(a: nat, b: nat, k: nat)
    requires a < b
    ensures Scale(a, k) + Scale(1, k) <= Scale(b, k)
    decreases k
  {
    if k > 0 {
      ScaleMonotone(a, b, k - 1);
      ScaleLinear(a, k - 1);
      ScaleLinear(b, k - 1);
      ScaleLinear(1, k - 1);
      ScaleFactor(a, k - 1);
      ScaleFactor(b, k - 1);
      ScaleFactor(1, k - 1);
    }
  }

  lemma ScaleFactor(n: nat, k: nat)
    ensures Scale(10 * n, k) == Scale(n, k + 1)
  {
  }

  lemma {:induction false} DigitsBound(s: string)
    requires AllDigits(s)
    ensures DigitsValue(s) < Scale(1, |s|)
  {
    if s != "" {
      DigitsBound(s[..|s| - 1]);
      ScaleLinear(1, |s| - 1);
    }
  }

  lemma {:induction false} ScaledBound(s: string)
    requires AllDigits(s) && |s| <= 9
    ensures Scale(DigitsValue(s), 9 - |s|) < NANOS_PER_SECOND
  {
    DigitsBound(s);
    ScaleMonotone(DigitsValue(s), Scale(1, |s|), 9 - |s|);
    ScaleSum(1, |s|, 9 - |s|);
    ScaleNonzero(1, 9 - |s|);
    assert Scale(1, 9) == 1_000_000_000;
  }

  lemma {:induction false} ScaleNonzero(n: nat, k: nat)
    requires n > 0
    ensures Scale(n, k) > 0
    decreases k
  {
    if k > 0 {
      ScaleNonzero(n * 10, k - 1);
    }
  }

  lemma {:induction false} ScaleSum(n: nat, j: nat, k: nat)
    ensures Scale(Scale(n, j), k) == Scale(n, j + k)
    decreases j
  {
    if j > 0 {
      ScaleSum(n * 10, j - 1, k);
    }
  }

  /** Dropping trailing zeros of a fraction does not change its value. */
  lemma {:induction false} TrimmedValue(s: string)
    requires AllDigits(s) && |s| <= 9
    ensures AllDigits(TrimZeros(s)) && |TrimZeros(s)| <= |s|
    ensures Scale(DigitsValue(TrimZeros(s)), 9 - |TrimZeros(s)|) == Scale(DigitsValue(s), 9 - |s|)
    ensures DigitsValue(s) > 0 ==> TrimZeros(s) != ""
  {
    if s != "" && s[|s| - 1] == '0' {
      var front := s[..|s| - 1];
      TrimmedValue(front);
      assert DigitsValue(s) == DigitsValue(front) * 10;
      ScaleFactor(DigitsValue(front), 9 - |s|);
    }
  }

  lemma ScaleNine()
    ensures Scale(1, 9) == NANOS_PER_SECOND
  {
  }

  lemma ScaleZero(n: nat)
    ensures Scale(n, 0) == n
  {
  }

  lemma ParseFormatFraction(nanos: nat, zone: string)
    requires nanos < NANOS_PER_SECOND
    requires zone != "" && zone[0] != '.' && !IsDigit(zone[0])
    ensures ParseFraction(FormatFraction(nanos) + zone) == (nanos, zone)
  {
    hide AppendInt, Scale, TrimZeros, DigitsValue;
    if nanos == 0 {
      assert FormatFraction(0) + zone == zone;
    } else {
      ScaleNine();
      AppendIntFixed(nanos, 9);
      var digits := TrimZeros(AppendInt(nanos, 9));
      TrimmedValue(AppendInt(nanos, 9));
      var s := FormatFraction(nanos) + zone;
      assert s[1..] == digits + zone;
      LeadingDigitsOf(digits, zone);
      ScaleZero(DigitsValue(AppendInt(nanos, 9)));
      assert digits[..|digits|] == digits;
      assert s[1 + |digits|..] == zone;
    }
  }

  lemma Middle(before: string, part: string, after: string)
    ensures (before + part + after)[|before|..|before| + |part|] == part
  {
  }

  lemma StampSlices(year: string, month: string, day: string, hour: string, minute: string, second: string)
    requires |year| == 4 && |month| == |day| == |hour| == |minute| == |second| == 2
    ensures var s := Stamp(year, month, day, hour, minute, second);
            && |s| == 19 && s[4] == '-' && s[7] == '-' && s[10] == 'T' && s[13] == ':' && s[16] == ':'
            && s[0..4] == year && s[5..7] == month && s[8..10] == day
            && s[11..13] == hour && s[14..16] == minute && s[17..19] == second
  {
    var s := Stamp(year, month, day, hour, minute, second);
    var a, b, c := year + "-", year + "-" + month + "-", year + "-" + month + "-" + day + "T";
    var d, e := c + hour + ":", c + hour + ":" + minute + ":";
    Middle("", year, s[4..]);
    assert s == "" + year + s[4..];
    Middle(a, month, s[7..]);
    assert s == a + month + s[7..];
    Middle(b, day, s[10..]);
    assert s == b + day + s[10..];
    Middle(c, hour, s[13..]);
    assert s == c + hour + s[13..];
    Middle(d, minute, s[16..]);
    assert s == d + minute + s[16..];
    Middle(e, second, "");
    assert s == e + second + "";
  }

  lemma FixedField(x: nat, width: nat, low: int, high: int)
    requires width > 0 && low <= x <= high < Scale(1, width)
    ensures |AppendInt(x, width)| == width && Field(AppendInt(x, width), low, high) == Some(x)
  {
    AppendIntFixed(x, width);
  }

  lemma ParseFormatStamp(t: DateTime)
    requires ValidDateTime(t) && 0 <= t.date.year <= 9999
    ensures |StampOf(t)| == 19 && ParseStamp(StampOf(t)) == Some(t.(nanos := 0))
  {
    hide AppendInt, Field, Stamp;
    assert Scale(1, 4) == 10000 && Scale(1, 2) == 100;
    FixedField(t.date.year, 4, 0, 9999);
    FixedField(t.date.month, 2, 1, 12);
    FixedField(t.date.day, 2, 1, DaysIn(t.date.year, t.date.month));
    FixedField(t.hour, 2, 0, 23);
    FixedField(t.minute, 2, 0, 59);
    FixedField(t.second, 2, 0, 59);
    StampSlices(AppendInt(t.date.year, 4), AppendInt(t.date.month, 2), AppendInt(t.date.day, 2),
                AppendInt(t.hour, 2), AppendInt(t.minute, 2), AppendInt(t.second, 2));
  }

  /** A stamp, a fraction and a zone, written and read back as one timestamp. */
  lemma ParseWritten(t: DateTime, zone: string, offset: int)
    requires ValidDateTime(t) && 0 <= t.date.year <= 9999
    requires zone != "" && zone[0] != '.' && !IsDigit(zone[0]) && ParseZone(zone) == Some(offset)
    ensures Parse(StampOf(t) + FormatFraction(t.nanos) + zone) == Some(ToInstant(t) - offset * NANOS_PER_SECOND)
  {
    hide StampOf, ParseStamp, ParseFraction, FormatFraction, ParseZone, ToInstant;
    ParseFormatStamp(t);
    ParseFormatFraction(t.nanos, zone);
    var s := StampOf(t) + FormatFraction(t.nanos) + zone;
    assert s[..19] == StampOf(t) && s[19..] == FormatFraction(t.nanos) + zone;
    assert t.(nanos := 0).(nanos := t.nanos) == t;
  }

  /** A formatted instant of the years 0 to 9999 is read back exactly, to the nanosecond. */
  lemma ParseFormat(i: Instant)
    requires FourDigitYear(i)
    ensures Parse(Format(i)) == Some(i)
  {
    FourDigitYearExactly(i);
    hide StampOf, Parse, FormatFraction, FromInstant, ToInstant;
    ToFromInstant(i);
    NanosOf(i);
    ParseWritten(FromInstant(i), "Z", 0);
  }

  // ---- Which texts are what Format writes ----

  /** A fraction without trailing zeros, if any, and the designator of UTC. */
  predicate CanonicalTail(s: string) {
    || s == "Z"
    || (&& 3 <= |s| <= 11 && s[0] == '.' && s[|s| - 1] == 'Z'
        && AllDigits(s[1..|s| - 1]) && s[|s| - 2] != '0')
  }

  predicate CanonicalTime(s: string) { |s| >= 20 && ParseStamp(s[..19]).Some? && CanonicalTail(s[19..]) }

  lemma {:induction false} TrimZerosOf(s: string, k: nat)
    requires s != "" && s[|s| - 1] != '0'
    ensures TrimZeros(s + Zeros(k)) == s
    decreases k
  {
    if k == 0 {
      assert s + Zeros(0) == s;
    } else {
      TrimZerosOf(s, k - 1);
      assert (s + Zeros(k))[..|s| + k - 1] == s + Zeros(k - 1);
    }
  }

  lemma {:induction false} TrimZerosLast(s: string)
    ensures TrimZeros(s) != "" ==> TrimZeros(s)[|TrimZeros(s)| - 1] != '0'
  {
    if s != "" && s[|s| - 1] == '0' {
      TrimZerosLast(s[..|s| - 1]);
    }
  }

  lemma FieldDigits(s: string, low: int, high: int)
    requires s != "" && Field(s, low, high).Some?
    ensures AppendInt(Field(s, low, high).value, |s|) == s
  {
    AppendDigits(s);
  }

  lemma FormatParseStamp(s: string)
    requires |s| == 19 && ParseStamp(s).Some?
    ensures StampOf(ParseStamp(s).value) == s
  {
    hide AppendInt, Field, DaysIn;
    FieldDigits(s[0..4], 0, 9999);
    FieldDigits(s[5..7], 1, 12);
    var t := ParseStamp(s).value;
    FieldDigits(s[8..10], 1, DaysIn(t.date.year, t.date.month));
    FieldDigits(s[11..13], 0, 23);
    FieldDigits(s[14..16], 0, 59);
    FieldDigits(s[17..19], 0, 59);
    assert s == Stamp(s[0..4], s[5..7], s[8..10], s[11..13], s[14..16], s[17..19]);
  }

  lemma FormatParseFraction(s: string)
    requires CanonicalTail(s)
    ensures ParseFraction(s).1 == "Z" && FormatFraction(ParseFraction(s).0) + "Z" == s
  {
    hide AppendInt, Scale, DigitsValue, TrimZeros;
    if s != "Z" {
      var digits := s[1..|s| - 1];
      var wide := digits + Zeros(9 - |digits|);
      assert s[1..] == digits + "Z" && digits[|digits| - 1] == s[|s| - 2];
      assert IsDigit(s[1]);
      LeadingDigitsOf(digits, "Z");
      assert digits[..|digits|] == digits;
      TrailingZeros(digits, 9 - |digits|);
      TrimZerosOf(digits, 9 - |digits|);
      AppendDigits(wide);
      var nanos := ParseFraction(s).0;
      assert nanos == DigitsValue(wide);
      assert s[1 + |digits|..] == "Z";
      if nanos == 0 {
        LastDigitCounts(digits);
        ScaleNonzero(DigitsValue(digits), 9 - |digits|);
        assert false;
      }
    }
  }

  lemma LastDigitCounts(s: string)
    requires s != "" && AllDigits(s) && s[|s| - 1] != '0'
    ensures DigitsValue(s) > 0
  {
  }

  lemma FormatTail(nanos: nat)
    requires nanos < NANOS_PER_SECOND
    ensures CanonicalTail(FormatFraction(nanos) + "Z")
  {
    hide AppendInt, Scale, DigitsValue, TrimZeros;
    if nanos != 0 {
      ScaleNine();
      AppendIntFixed(nanos, 9);
      TrimmedValue(AppendInt(nanos, 9));
      TrimZerosLast(AppendInt(nanos, 9));
      var digits := TrimZeros(AppendInt(nanos, 9));
      var s := FormatFraction(nanos) + "Z";
      assert s[1..|s| - 1] == digits && s[|s| - 2] == digits[|digits| - 1];
    }
  }

  lemma FormatCanonical(i: Instant)
    requires FourDigitYear(i)
    ensures CanonicalTime(Format(i))
  {
    FourDigitYearExactly(i);
    hide StampOf, ParseStamp, FormatFraction, FromInstant, ToInstant, CanonicalTail;
    ToFromInstant(i);
    ParseFormatStamp(FromInstant(i));
    FormatTail(i % NANOS_PER_SECOND);
    assert Format(i)[..19] == StampOf(FromInstant(i)) && Format(i)[19..] == FormatFraction(i % NANOS_PER_SECOND) + "Z";
  }

  lemma UtcZone()
    ensures ParseZone("Z") == Some(0)
  {
  }

  lemma StampWithoutNanos(t: DateTime, nanos: int)
    ensures StampOf(t.(nanos := nanos)) == StampOf(t)
  {
  }

  lemma FormatParse(s: string)
    requires CanonicalTime(s)
    ensures Parse(s).Some? && Format(Parse(s).value) == s
  {
    hide ParseStamp, FormatFraction, FromInstant, ToInstant, CanonicalTail, ParseFraction, StampOf, ParseZone;
    FormatParseStamp(s[..19]);
    FormatParseFraction(s[19..]);
    var t := ParseStamp(s[..19]).value.(nanos := ParseFraction(s[19..]).0);
    assert ParseZone("Z") == Some(0) by { UtcZone(); }
    StampWithoutNanos(t, ParseStamp(s[..19]).value.nanos);
    FromToInstant(t);
    NanosOf(ToInstant(t));
    assert s == s[..19] + s[19..];
  }

  /** Reading accepts offsets and fractions that writing never produces: a
      timestamp is what Format writes for its instant exactly if it is in UTC,
      marked Z, with at most nine fraction digits, the last of them not zero. */
  lemma FormatParseExactly(s: string)
    requires Parse(s).Some?
    ensures Format(Parse(s).value) == s <==> CanonicalTime(s)
  {
    hide Parse, Format, CanonicalTime, FourDigitYear;
    var i := Parse(s).value;
    if CanonicalTime(s) {
      FormatParse(s);
    } else if Format(i) == s {
      if FourDigitYear(i) {
        FormatCanonical(i);
      } else {
        ParseFormatWide(i);
      }
      assert false;
    }
  }

  lemma ParseZoneText(minutes: int)
    requires -1440 < minutes < 1440
    ensures var zone := ZoneText(minutes);
            && zone != "" && zone[0] != '.' && !IsDigit(zone[0]) && ParseZone(zone) == Some(minutes * 60)
            && |zone| == 6 && zone[0] == (if minutes < 0 then '-' else '+') && zone[3] == ':'
            && AllDigits(zone[1..3]) && AllDigits(zone[4..6])
            && DigitsValue(zone[1..3]) * 60 + DigitsValue(zone[4..6]) == if minutes < 0 then -minutes else minutes
  {
    hide AppendInt, Field;
    var size := if minutes < 0 then -minutes else minutes;
    assert Scale(1, 2) == 100;
    FixedField(size / 60, 2, 0, 23);
    FixedField(size % 60, 2, 0, 59);
    AppendIntFixed(size / 60, 2);
    AppendIntFixed(size % 60, 2);
    var zone := ZoneText(minutes);
    assert zone[1..3] == AppendInt(size / 60, 2) && zone[4..6] == AppendInt(size % 60, 2);
  }

  /** The offset names the place, not the moment: an instant written at any
      offset is read back as the same instant. Its UTC year may then be none of
      0 to 9999, which the written year hides. */
  lemma ParseFormatAt(i: Instant, minutes: int)
    requires -1440 < minutes < 1440 && FourDigitYear(i + minutes * 60 * NANOS_PER_SECOND)
    ensures Parse(FormatAt(i, minutes)) == Some(i)
    ensures var s := FormatAt(i, minutes);
            && |s| >= 25 && s[|s| - 6] == (if minutes < 0 then '-' else '+') && s[|s| - 3] == ':'
            && AllDigits(s[|s| - 5..|s| - 3]) && AllDigits(s[|s| - 2..])
            && DigitsValue(s[|s| - 5..|s| - 3]) * 60 + DigitsValue(s[|s| - 2..]) == if minutes < 0 then -minutes else minutes
  {
    hide StampOf, Parse, FormatFraction, FromInstant, ToInstant, ZoneText, ParseZone;
    var there := i + minutes * 60 * NANOS_PER_SECOND;
    FourDigitYearExactly(there);
    ToFromInstant(there);
    NanosOf(there);
    WholeSeconds(i, minutes * 60);
    ParseZoneText(minutes);
    ParseWritten(LocalTime(i, minutes), ZoneText(minutes), minutes * 60);
    ParseFormatStamp(LocalTime(i, minutes));
    var s, zone := FormatAt(i, minutes), ZoneText(minutes);
    assert s[|s| - 6..] == zone;
    assert s[|s| - 5..|s| - 3] == zone[1..3] && s[|s| - 2..] == zone[4..6];
  }

  lemma WholeSeconds(i: Instant, seconds: int)
    ensures (i + seconds * NANOS_PER_SECOND) % NANOS_PER_SECOND == i % NANOS_PER_SECOND
  {
  }

  lemma NanosOf(i: Instant)
    ensures FromInstant(i).nanos == i % NANOS_PER_SECOND
  {
  }

  lemma LongYear(year: nat)
    requires year >= 10000
    ensures |AppendInt(year, 4)| >= 5 && AllDigits(AppendInt(year, 4))
  {
    FormatUintValue(year);
    assert Scale(1, 4) == 10000;
    DigitsBound(FormatUint(year));
    if |FormatUint(year)| <= 4 {
      ScaleMonotoneWidth(|FormatUint(year)|, 4);
    } else {
      assert AppendInt(year, 4) == FormatUint(year);
    }
  }

  lemma {:induction false} ScaleMonotoneWidth(j: nat, k: nat)
    requires j <= k
    ensures Scale(1, j) <= Scale(1, k)
    decreases k
  {
    if j < k {
      ScaleMonotoneWidth(j, k - 1);
      ScaleLinear(1, k - 1);
    }
  }

  /** An instant outside the years 0 to 9999 is written with a sign or a fifth
      year digit, which no RFC 3339 timestamp has. */
  lemma ParseFormatWide(i: Instant)
    requires !FourDigitYear(i)
    ensures Parse(Format(i)) == None
  {
    FourDigitYearExactly(i);
    hide AppendInt, FromInstant, FormatFraction, ParseFraction, ParseZone;
    var t := FromInstant(i);
    var year := AppendInt(t.date.year, 4);
    if t.date.year < 0 {
      NegativeYear(t.date.year);
      assert Format(i)[0] == year[0] == '-';
      assert Format(i)[0..4][0] == '-';
    } else {
      LongYear(t.date.year);
      assert Format(i)[4] == year[4];
    }
  }

  lemma NegativeYear(year: int)
    requires year < 0
    ensures AppendInt(year, 4) != "" && AppendInt(year, 4)[0] == '-'
  {
  }

  /** A field of a stamp: digits that denote a number. */
  predicate Denotes(field: string, x: int) { AllDigits(field) && DigitsValue(field) == x }

  /** Where Format writes what, for a year of four digits: the date, a T, the time
      of day, and behind a point, if the instant is no whole second, the digits of
      its nanoseconds without trailing zeros; and a Z at the end. */
  lemma FormatLayout(i: Instant)
    requires FourDigitYear(i)
    ensures var s, t := Format(i), FromInstant(i);
            && |s| >= 20 && s[4] == '-' && s[7] == '-' && s[10] == 'T' && s[13] == ':' && s[16] == ':' && s[|s| - 1] == 'Z'
            && Denotes(s[0..4], t.date.year) && Denotes(s[5..7], t.date.month) && Denotes(s[8..10], t.date.day)
            && Denotes(s[11..13], t.hour) && Denotes(s[14..16], t.minute) && Denotes(s[17..19], t.second)
            && (if t.nanos == 0 then |s| == 20
                else
                  && 22 <= |s| <= 30 && s[19] == '.' && s[|s| - 2] != '0' && AllDigits(s[20..|s| - 1])
                  && Scale(DigitsValue(s[20..|s| - 1]), 30 - |s|) == t.nanos)
  {
    FourDigitYearExactly(i);
    hide StampOf, FormatFraction, FromInstant, ToInstant;
    var t := FromInstant(i);
    ToFromInstant(i);
    NanosOf(i);
    StampLayout(t);
    FractionLayout(t.nanos);
    var s, stamp, fraction := Format(i), StampOf(t), FormatFraction(t.nanos);
    assert s[..19] == stamp && s[19..] == fraction + "Z";
    forall a, b | 0 <= a <= b <= 19
      ensures s[a..b] == stamp[a..b]
    {
      assert s[a..b] == s[..19][a..b];
    }
    if t.nanos != 0 {
      assert s[20..|s| - 1] == fraction[1..];
    }
  }

  lemma StampLayout(t: DateTime)
    requires ValidDateTime(t) && 0 <= t.date.year <= 9999
    ensures var s := StampOf(t);
            && |s| == 19 && s[4] == '-' && s[7] == '-' && s[10] == 'T' && s[13] == ':' && s[16] == ':'
            && Denotes(s[0..4], t.date.year) && Denotes(s[5..7], t.date.month) && Denotes(s[8..10], t.date.day)
            && Denotes(s[11..13], t.hour) && Denotes(s[14..16], t.minute) && Denotes(s[17..19], t.second)
  {
    hide AppendInt, DigitsValue, Stamp;
    assert Scale(1, 4) == 10000 && Scale(1, 2) == 100;
    AppendIntFixed(t.date.year, 4);
    AppendIntFixed(t.date.month, 2);
    AppendIntFixed(t.date.day, 2);
    AppendIntFixed(t.hour, 2);
    AppendIntFixed(t.minute, 2);
    AppendIntFixed(t.second, 2);
    StampSlices(AppendInt(t.date.year, 4), AppendInt(t.date.month, 2), AppendInt(t.date.day, 2),
                AppendInt(t.hour, 2), AppendInt(t.minute, 2), AppendInt(t.second, 2));
  }

  lemma FractionLayout(nanos: nat)
    requires nanos < NANOS_PER_SECOND
    ensures var f := FormatFraction(nanos);
            if nanos == 0 then f == ""
            else
              && 2 <= |f| <= 10 && f[0] == '.' && f[|f| - 1] != '0' && AllDigits(f[1..])
              && Scale(DigitsValue(f[1..]), 10 - |f|) == nanos
  {
    hide AppendInt, Scale, DigitsValue, TrimZeros;
    if nanos != 0 {
      ScaleNine();
      AppendIntFixed(nanos, 9);
      TrimmedValue(AppendInt(nanos, 9));
      TrimZerosLast(AppendInt(nanos, 9));
      ScaleZero(DigitsValue(AppendInt(nanos, 9)));
      assert FormatFraction(nanos)[1..] == TrimZeros(AppendInt(nanos, 9));
    }
  }

  predicate StampChar(c: char) { IsDigit(c) || c in "-:T.Z" }

  predicate StampChars(s: string) { forall i :: 0 <= i < |s| ==> StampChar(s[i]) }

  lemma AppendIntChars(x: int, width: nat)
    ensures StampChars(AppendInt(x, width))
  {
    FormatUintValue(if x < 0 then -x else x);
  }

  lemma {:induction false} TrimZerosPrefix(s: string)
    ensures TrimZeros(s) <= s
  {
    if s != "" && s[|s| - 1] == '0' {
      TrimZerosPrefix(s[..|s| - 1]);
    }
  }

  /** A timestamp is made of digits and the characters - : T . Z only. */
  lemma FormatChars(i: Instant)
    ensures StampChars(Format(i))
  {
    hide AppendInt, FromInstant, TrimZeros, StampChar, ZoneText;
    var t := FromInstant(i);
    AppendIntChars(t.date.year, 4);
    AppendIntChars(t.date.month, 2);
    AppendIntChars(t.date.day, 2);
    AppendIntChars(t.hour, 2);
    AppendIntChars(t.minute, 2);
    AppendIntChars(t.second, 2);
    AppendIntChars(i % NANOS_PER_SECOND, 9);
    TrimZerosPrefix(AppendInt(i % NANOS_PER_SECOND, 9));
    Punctuation();
  }

  lemma Punctuation()
    ensures StampChar('-') && StampChar(':') && StampChar('T') && StampChar('.') && StampChar('Z') && !StampChar('|')
    ensures forall c :: StampChar(c) ==> c as int < 256
  {
  }
}
