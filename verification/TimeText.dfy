/** Dates and times as text: how values are written and how a server-side row
    builder reads them. */
module TimeText {
  import opened Bytes
  import opened Digits
  import opened Temporal

  // ---------------------------------------------------------------- writing

  /** `two_digits` */
  function TwoDigits(value: nat): (s: string)
    ensures |s| == 2 && AllDigits(s)
  {
    Fixed(value, 2)
  }

  /** `mysql_time_hours` */
  function HoursText(hours: nat): (s: string)
    ensures s != "" && AllDigits(s)
  {
    if hours < 100 then TwoDigits(hours) else ToText(hours)
  }

  function TrimZeros(s: string): (t: string)
    ensures t <= s
  {
    if s != "" && s[|s| - 1] == '0' then TrimZeros(s[..|s| - 1]) else s
  }

  /** `fractional_suffix`; the sum is taken in 32 bits. */
  function FractionSuffix(micros: u32): string {
    if micros == 0 then "" else "." + TrimZeros(ToText((1000000 + micros) % 0x1_0000_0000)[1..])
  }

  method FractionalSuffix(micros: u32) returns (suffix: string)
    ensures suffix == FractionSuffix(micros)
  {
    if micros == 0 {
      return "";
    }
    var frac := ToText((1000000 + micros) % 0x1_0000_0000)[1..];
    ghost var all := frac;
    while frac != "" && frac[|frac| - 1] == '0'
      invariant TrimZeros(frac) == TrimZeros(all)
      decreases |frac|
    {
      frac := frac[..|frac| - 1];
    }
    suffix := "." + frac;
  }

  function ClockText(hours: string, minutes: nat, seconds: nat): string {
    hours + ":" + TwoDigits(minutes) + ":" + TwoDigits(seconds)
  }

  /** `format_mysql_datetime` */
  function DateTimeText(d: DateTime, dateOnly: bool): string
    requires d.micros < 0x1_0000_0000
  {
    var date := Fixed(d.year, 4) + "-" + TwoDigits(d.month) + "-" + TwoDigits(d.day);
    if dateOnly then date
    else date + " " + ClockText(TwoDigits(d.hour), d.minute, d.second) + FractionSuffix(d.micros)
  }

  /** The text of a time whose hours are written as given. */
  function TimeTextWith(t: Time, hours: string): string
    requires t.micros < 0x1_0000_0000
  {
    (if t.negative then "-" else "") + ClockText(hours, t.minutes, t.seconds) + FractionSuffix(t.micros)
  }

  // ---------------------------------------------------------------- reading

  function Shorter(a: nat, b: nat): (c: nat)
    ensures c <= a && c <= b
  {
    if a < b then a else b
  }

  /** `parse_fraction_micros`: up to six digits; what follows is ignored. */
  function ParseFraction(s: string): (r: Result<nat, ()>)
    ensures r.Ok? ==> r.value < 1000000
  {
    var n := Shorter(|s|, 6);
    if AllDigits(s[..n]) then
      FractionBound(s[..n]);
      Ok(ValueOf(s[..n]) * Pow10(6 - n))
    else Err(())
  }

  lemma {:induction false} FractionBound(s: string)
    requires AllDigits(s) && |s| <= 6
    ensures ValueOf(s) * Pow10(6 - |s|) < 1000000
  {
    hide ValueOf, Pow10;
    ValueBound(s);
    Pow10Values();
    assert |s| == 0 || |s| == 1 || |s| == 2 || |s| == 3 || |s| == 4 || |s| == 5 || |s| == 6;
    assert Pow10(|s|) * Pow10(6 - |s|) == 1000000;
    LessTimes(ValueOf(s), Pow10(|s|), Pow10(6 - |s|));
  }

  lemma LessTimes(a: nat, b: nat, c: nat)
    requires a < b && c > 0
    ensures a * c < b * c
  {
  }

  method ParseFractionMicros(s: string) returns (r: Result<nat, ()>)
    ensures r == ParseFraction(s)
  {
    var micros: nat, scale: nat, i := 0, 100000, 0;
    Pow10Values();
    assert s[..0] == "";
    while i < |s| && i < 6
      invariant i <= |s| && i <= 6 && AllDigits(s[..i])
      invariant micros == ValueOf(s[..i]) * Pow10(6 - i)
      invariant scale == if i < 6 then Pow10(5 - i) else 0
    {
      if !IsDigit(s[i]) {
        assert s[..Shorter(|s|, 6)][i] == s[i];
        return Err(());
      }
      assert s[..i + 1][..i] == s[..i];
      NextDigit(ValueOf(s[..i]), DigitValue(s[i]), Pow10(5 - i));
      micros := micros + DigitValue(s[i]) * scale;
      scale := scale / 10;
      i := i + 1;
    }
    r := Ok(micros);
  }

  lemma NextDigit(value: nat, digit: nat, unit: nat)
    ensures value * (10 * unit) + digit * unit == (10 * value + digit) * unit
  {
  }

  /** The time part of `parse_datetime_parts`, added to a date. */
  function ParseClock(date: DateTime, s: string): (r: Result<DateTime, ()>)
    ensures r.Ok? ==> r.value.hour < 0x100 && r.value.minute < 0x100 && r.value.second < 0x100 && r.value.micros < 1000000
    ensures r.Ok? ==> r.value.year == date.year && r.value.month == date.month && r.value.day == date.day
  {
    if |s| < 8 || s[2] != ':' || s[5] != ':' then Err(())
    else
      var hour :- Stoi(s[..2], 0x100);
      var minute :- Stoi(s[3..5], 0x100);
      var second :- Stoi(s[6..8], 0x100);
      var micros :- if |s| > 8 && s[8] == '.' then ParseFraction(s[9..]) else Ok(0);
      Ok(date.(hour := hour, minute := minute, second := second, micros := micros))
  }

  function DateOnly(d: DateTime): DateTime {
    DateTime(d.year, d.month, d.day, 0, 0, 0, 0)
  }

  /** Fields that fit the integers they are kept in. */
  predicate Narrow(d: DateTime) {
    && d.year < 0x1_0000 && d.month < 0x100 && d.day < 0x100
    && d.hour < 0x100 && d.minute < 0x100 && d.second < 0x100 && d.micros < 1000000
  }

  predicate FitsFields(t: Time) {
    t.hours < 0x1_0000_0000 && t.minutes < 0x100 && t.seconds < 0x100 && t.micros < 1000000
  }

  /** `parse_datetime_parts` */
  function ParseDateTime(s: string, dateOnly: bool): (r: Result<DateTime, ()>)
    ensures r.Ok? ==> Narrow(r.value)
    ensures r.Ok? && dateOnly ==> r.value == DateOnly(r.value)
  {
    if |s| < 10 || s[4] != '-' || s[7] != '-' then Err(())
    else
      var year :- Stoi(s[..4], 0x1_0000);
      var month :- Stoi(s[5..7], 0x100);
      var day :- Stoi(s[8..10], 0x100);
      var date := DateTime(year, month, day, 0, 0, 0, 0);
      if dateOnly || |s| == 10 then Ok(date)
      else ParseClock(date, s[if s[10] == 'T' || s[10] == ' ' then 11 else 10..])
  }

  /** The text parsing in `append_binary_time_value`. */
  function ParseTime(s: string): (r: Result<Time, ()>)
    ensures r.Ok? ==> FitsFields(r.value)
  {
    if s != "" && s[0] == '-' then
      var t :- ParseUnsigned(s[1..]);
      Ok(t.(negative := true))
    else ParseUnsigned(s)
  }

  function ParseUnsigned(s: string): (r: Result<Time, ()>)
    ensures r.Ok? ==> FitsFields(r.value)
  {
    match IndexOf(s, ':')
    case None => Err(())
    case Some(first) =>
      var hoursText, afterHours := s[..first], s[first + 1..];
      match IndexOf(afterHours, ':')
      case None => Err(())
      case Some(second) =>
        var hours :- Stoul(hoursText, 0x1_0000_0000);
        var minutes :- Stoul(afterHours[..second], 0x100);
        var (seconds, micros) :- ParseSeconds(afterHours[second + 1..]);
        Ok(Time(false, hours, minutes, seconds, micros))
  }

  function ParseSeconds(s: string): (r: Result<(nat, nat), ()>)
    ensures r.Ok? ==> r.value.0 < 0x100 && r.value.1 < 1000000
  {
    match IndexOf(s, '.')
    case None =>
      var seconds :- Stoul(s, 0x100);
      Ok((seconds, 0))
    case Some(dot) =>
      var seconds :- Stoul(s[..dot], 0x100);
      var micros :- ParseFraction(s[dot + 1..]);
      Ok((seconds, micros))
  }

  // ------------------------------------------------------------ round trips

  lemma TenTimes(a: nat, b: nat)
    ensures 10 * (a * b) == a * (10 * b)
  {
  }

  lemma {:induction false} TrimZerosValue(s: string)
    requires AllDigits(s)
    ensures var t := TrimZeros(s);
      AllDigits(t) && |t| <= |s| && ValueOf(s) == ValueOf(t) * Pow10(|s| - |t|)
  {
    if s != "" && s[|s| - 1] == '0' {
      var front := s[..|s| - 1];
      TrimZerosValue(front);
      var t := TrimZeros(front);
      TenTimes(ValueOf(t), Pow10(|front| - |t|));
      assert ValueOf(s) == 10 * ValueOf(front);
      assert Pow10(|s| - |t|) == 10 * Pow10(|front| - |t|);
    }
  }

  lemma SuffixText(micros: nat)
    requires 0 < micros < 1000000
    ensures FractionSuffix(micros) == "." + TrimZeros(Fixed(micros, 6))
  {
    hide ToText, Fixed, TrimZeros, Pow10;
    Pow10Values();
    PaddedByOne(micros, 6);
  }

  /** The fraction of a second is written without trailing zeros and read back
      exactly. */
  lemma FractionRoundTrip(micros: nat)
    requires 0 < micros < 1000000
    ensures var t := TrimZeros(Fixed(micros, 6));
      FractionSuffix(micros) == "." + t && ParseFraction(t) == Ok(micros)
  {
    hide ToText, Fixed, ValueOf, TrimZeros, Pow10, FractionSuffix;
    SuffixText(micros);
    var t := TrimZeros(Fixed(micros, 6));
    TrimZerosValue(Fixed(micros, 6));
    assert micros < Pow10(6) by { Pow10Values(); }
    FixedValue(micros, 6);
    assert t[..Shorter(|t|, 6)] == t;
  }

  /** Dates whose fields fit their fixed number of digits. */
  predicate Canonical(d: DateTime) {
    && d.year <= 9999 && d.month <= 99 && d.day <= 99 && d.hour <= 99 && d.minute <= 99 && d.second <= 99
    && d.micros < 1000000
  }

  lemma ClockRoundTrip(date: DateTime, d: DateTime)
    requires Canonical(d)
    ensures ParseClock(date, ClockText(TwoDigits(d.hour), d.minute, d.second) + FractionSuffix(d.micros))
         == Ok(date.(hour := d.hour, minute := d.minute, second := d.second, micros := d.micros))
  {
    hide Fixed, Stoi, FractionSuffix, ParseFraction;
    Pow10Values();
    StoiFixed(d.hour, 2, 0x100);
    StoiFixed(d.minute, 2, 0x100);
    StoiFixed(d.second, 2, 0x100);
    var clock := ClockText(TwoDigits(d.hour), d.minute, d.second);
    var s := clock + FractionSuffix(d.micros);
    assert s[..2] == TwoDigits(d.hour) && s[3..5] == TwoDigits(d.minute) && s[6..8] == TwoDigits(d.second);
    assert s[8..] == FractionSuffix(d.micros);
    if d.micros == 0 {
      NoFraction();
    } else {
      FractionRoundTrip(d.micros);
      assert s[9..] == FractionSuffix(d.micros)[1..];
    }
  }

  lemma NoFraction()
    ensures FractionSuffix(0) == ""
  {
  }

  lemma DateRoundTrip(d: DateTime, clock: string)
    requires Canonical(d) && (clock == "" || clock[0] == ' ')
    ensures ParseDateTime(DateTimeText(d, true) + clock, true) == Ok(DateOnly(d))
    ensures ParseDateTime(DateTimeText(d, true) + clock, false)
         == if clock == "" then Ok(DateOnly(d)) else ParseClock(DateOnly(d), clock[1..])
  {
    hide Fixed, Stoi, ParseClock;
    Pow10Values();
    StoiFixed(d.year, 4, 0x1_0000);
    StoiFixed(d.month, 2, 0x100);
    StoiFixed(d.day, 2, 0x100);
    var s := DateTimeText(d, true) + clock;
    assert s[..4] == Fixed(d.year, 4) && s[5..7] == TwoDigits(d.month) && s[8..10] == TwoDigits(d.day);
    assert s[10..] == clock;
    if clock != "" {
      assert s[11..] == clock[1..];
    }
  }

  /** A date and time is read back from its text with every field; read as a date
      it loses its time. */
  lemma DateTimeRoundTrip(d: DateTime)
    requires Canonical(d)
    ensures ParseDateTime(DateTimeText(d, false), false) == Ok(d)
    ensures ParseDateTime(DateTimeText(d, false), true) == Ok(DateOnly(d))
    ensures ParseDateTime(DateTimeText(d, true), true) == ParseDateTime(DateTimeText(d, true), false) == Ok(DateOnly(d))
  {
    hide Fixed, ParseClock, FractionSuffix, ParseDateTime;
    var clock := ClockText(TwoDigits(d.hour), d.minute, d.second) + FractionSuffix(d.micros);
    DateRoundTrip(d, "");
    DateRoundTrip(d, " " + clock);
    ClockRoundTrip(DateOnly(d), d);
    assert DateTimeText(d, false) == DateTimeText(d, true) + (" " + clock);
    assert DateTimeText(d, true) + "" == DateTimeText(d, true);
    assert (" " + clock)[1..] == clock;
  }

  lemma SecondsRoundTrip(seconds: nat, micros: nat)
    requires seconds <= 99 && micros < 1000000
    ensures ParseSeconds(TwoDigits(seconds) + FractionSuffix(micros)) == Ok((seconds, micros))
  {
    hide Fixed, Stoul, FractionSuffix, ParseFraction, IndexOf, ValueOf;
    Pow10Values();
    FixedValue(seconds, 2);
    var text := TwoDigits(seconds);
    StoulDigits(text, 0x100);
    if micros == 0 {
      NoFraction();
      assert text + "" == text;
      IndexOfNone(text, '.');
    } else {
      FractionRoundTrip(micros);
      var fraction := FractionSuffix(micros)[1..];
      var s := text + FractionSuffix(micros);
      assert s == text + ['.'] + fraction;
      IndexOfFirst(text, '.', fraction);
      assert s[..2] == text && s[3..] == fraction;
    }
  }

  /** Times whose fields can be written as text. */
  predicate Writable(t: Time) {
    t.hours < 0x1_0000_0000 && t.minutes <= 99 && t.seconds <= 99 && t.micros < 1000000
  }

  lemma UnsignedTimeRoundTrip(t: Time, hours: string)
    requires Writable(t) && !t.negative
    requires hours != "" && AllDigits(hours) && ValueOf(hours) == t.hours
    ensures ParseUnsigned(TimeTextWith(t, hours)) == Ok(t)
    ensures TimeTextWith(t, hours)[0] != '-'
  {
    hide Fixed, Stoul, FractionSuffix, IndexOf, ValueOf, ParseSeconds;
    Pow10Values();
    FixedValue(t.minutes, 2);
    StoulDigits(hours, 0x1_0000_0000);
    StoulDigits(TwoDigits(t.minutes), 0x100);
    SecondsRoundTrip(t.seconds, t.micros);
    var s := TimeTextWith(t, hours);
    var last := TwoDigits(t.seconds) + FractionSuffix(t.micros);
    var afterHours := TwoDigits(t.minutes) + [':'] + last;
    assert s == hours + [':'] + afterHours;
    assert s[0] == hours[0];
    IndexOfFirst(hours, ':', afterHours);
    IndexOfFirst(TwoDigits(t.minutes), ':', last);
    assert s[..|hours|] == hours && s[|hours| + 1..] == afterHours;
    assert afterHours[..2] == TwoDigits(t.minutes) && afterHours[3..] == last;
  }

  /** A time is read back from its text with its sign and every field, however many
      digits its hours are written with. */
  lemma TimeRoundTrip(t: Time, hours: string)
    requires Writable(t)
    requires hours != "" && AllDigits(hours) && ValueOf(hours) == t.hours
    ensures ParseTime(TimeTextWith(t, hours)) == Ok(t)
  {
    hide ClockText, FractionSuffix, ParseUnsigned, ValueOf;
    var u := t.(negative := false);
    UnsignedTimeRoundTrip(u, hours);
    if t.negative {
      assert TimeTextWith(t, hours)[1..] == TimeTextWith(u, hours);
    }
  }
}
