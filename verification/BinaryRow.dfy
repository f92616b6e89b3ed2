/** The rows of the binary protocol: a null bitmap with an offset of two bits, and
    values in the form of their column type. */
module BinaryRow {
  import opened Bytes
  import opened Bitmaps
  import opened ColumnTypes
  import opened Digits
  import opened TimeText
  import Temporal
  import ResultSet

  // ----------------------------------------------------------------- values

  type octets = s: string | |s| < U64 && IsByteText(s) witness ""

  type integer = n: int | -0x8000_0000_0000_0000 <= n < U64

  /** A DOUBLE is its 64 bits. */
  datatype Value = Null | Integer(number: integer) | Double(bits: u64) | Data(data: blob) | Text(text: octets)

  type Field = ResultSet.Field

  /** What the platform makes of floating-point numbers, on bit patterns: casts from
      and to integers, `std::stod`, the casts between `float` and `double`, and the
      text of a number. */
  datatype Floats = Floats(
    ofInteger: integer -> u64, truncate: u64 -> int, ofText: string -> Option<u64>,
    narrow: u64 -> u32, widen: u32 -> u64, text: u64 -> octets)

  predicate IsUnsigned(f: Field) {
    ResultSet.HasFlag(f.flags, 32)
  }

  predicate IsBinary(f: Field) {
    ResultSet.HasFlag(f.flags, 128)
  }

  // ------------------------------------------------------------------- text

  /** `server_value_to_string` */
  function ValueText(fl: Floats, v: Value): octets {
    match v
    case Null => ""
    case Integer(n) =>
      NumberTextShort(if n < 0 then 0 - n else n);
      if n < 0 then "-" + ToText(0 - n) else ToText(n)
    case Double(bits) => fl.text(bits)
    case Data(s) => AsText(s)
    case Text(s) => s
  }

  lemma NumberTextShort(n: nat)
    requires n < U64
    ensures |ToText(n)| <= 20
    ensures IsByteText(ToText(n))
  {
    assert Pow10(20) >= U64 by {
      Pow10Values();
      assert Pow10(8) == 10 * Pow10(7) && Pow10(7) == 10 * Pow10(6);
      assert Pow10(11) == 10 * Pow10(10) && Pow10(10) == 10 * Pow10(9) && Pow10(9) == 10 * Pow10(8);
      assert Pow10(14) == 10 * Pow10(13) && Pow10(13) == 10 * Pow10(12) && Pow10(12) == 10 * Pow10(11);
      assert Pow10(17) == 10 * Pow10(16) && Pow10(16) == 10 * Pow10(15) && Pow10(15) == 10 * Pow10(14);
      assert Pow10(20) == 10 * Pow10(19) && Pow10(19) == 10 * Pow10(18) && Pow10(18) == 10 * Pow10(17);
    }
    TextLength(n, 20);
    forall i | 0 <= i < |ToText(n)| ensures ToText(n)[i] as int < 256 {
      assert IsDigit(ToText(n)[i]);
    }
  }

  lemma {:induction false} TextLength(n: nat, width: nat)
    requires width >= 1 && n < Pow10(width)
    ensures |ToText(n)| <= width
  {
    if n >= 10 {
      assert Pow10(1) == 10 * Pow10(0);
      TextLength(n / 10, width - 1);
    }
  }

  lemma SuffixOctets(micros: u32)
    ensures |FractionSuffix(micros)| <= 20
    ensures IsByteText(FractionSuffix(micros))
  {
    if micros != 0 {
      NumberTextShort((1000000 + micros) % 0x1_0000_0000);
      var text := ToText((1000000 + micros) % 0x1_0000_0000)[1..];
      assert TrimZeros(text) <= text;
    }
  }

  lemma ClockOctets(hours: string, minutes: nat, seconds: nat)
    requires AllDigits(hours) && |hours| <= 20
    ensures |ClockText(hours, minutes, seconds)| <= 26
    ensures IsByteText(ClockText(hours, minutes, seconds))
  {
  }

  /** Written dates and times are plain text. */
  function DateTimeOctets(d: Temporal.DateTime, dateOnly: bool): (s: octets)
    requires d.micros < 0x1_0000_0000
    ensures s == DateTimeText(d, dateOnly)
  {
    SuffixOctets(d.micros);
    ClockOctets(TwoDigits(d.hour), d.minute, d.second);
    DateTimeText(d, dateOnly)
  }

  function TimeOctets(t: Temporal.Time): (s: octets)
    requires t.micros < 0x1_0000_0000 && t.hours < 0x1_0000_0000
    ensures s == TimeTextWith(t, ToText(t.hours))
  {
    SuffixOctets(t.micros);
    NumberTextShort(t.hours);
    ClockOctets(ToText(t.hours), t.minutes, t.seconds);
    TimeTextWith(t, ToText(t.hours))
  }

  // --------------------------------------------------------------- integers

  function IntegerWidth(columnType: byte): (width: nat)
    ensures width in {0, 1, 2, 4, 8}
  {
    if columnType == TINY then 1
    else if columnType == SHORT || columnType == YEAR then 2
    else if columnType == LONG || columnType == INT24 then 4
    else if columnType == LONGLONG then 8
    else 0
  }

  /** `value_to_i64` and `value_to_u64`, before the cast to the column's width. */
  function Number(fl: Floats, v: Value, wide: bool): Result<int, ()> {
    match v
    case Null => Ok(0)
    case Integer(n) => Ok(n)
    case Double(bits) => Ok(fl.truncate(bits))
    case Data(s) => NumberIn(AsText(s), wide)
    case Text(s) => NumberIn(s, wide)
  }

  function NumberIn(s: string, wide: bool): Result<int, ()> {
    if s == "" then Ok(0)
    else if wide then Stoul(s, U64)
    else
      match ScanInteger(s)
      case Some(n) => if -0x8000_0000_0000_0000 <= n < 0x8000_0000_0000_0000 then Ok(n) else Err(())
      case None => Err(())
  }

  function AppendInteger(fl: Floats, v: Value, f: Field): Result<bytes, ()> {
    var n :- Number(fl, v, f.columnType == LONGLONG && IsUnsigned(f));
    var width := IntegerWidth(f.columnType);
    Ok(LittleEndian(n % Pow256(width), width))
  }

  function TakeInteger(s: bytes, width: nat, unsigned: bool): Parsed<integer>
    requires width <= 8
  {
    var (n, rest) :- TakeLE(s, width);
    WidthBound(width);
    Parsed(if unsigned then n else Signed(n, width), rest)
  }

  lemma WidthBound(width: nat)
    requires width <= 8
    ensures Pow256(width) <= U64
  {
    Pow256Values();
    assert Pow256(7) == 256 * Pow256(6);
  }

  // --------------------------------------------------------- floating point

  /** The bytes of a floating-point column, or 0. */
  function FloatWidth(columnType: byte): (width: nat)
    ensures width in {0, 4, 8}
  {
    if columnType == FLOAT then 4 else if columnType == DOUBLE then 8 else 0
  }

  /** `value_to_double` */
  function DoubleOf(fl: Floats, v: Value): Result<u64, ()> {
    match v
    case Null => Ok(0)
    case Integer(n) => Ok(fl.ofInteger(n))
    case Double(bits) => Ok(bits)
    case Data(s) => DoubleIn(fl, AsText(s))
    case Text(s) => DoubleIn(fl, s)
  }

  function DoubleIn(fl: Floats, s: string): Result<u64, ()> {
    if s == "" then Ok(0)
    else
      match fl.ofText(s)
      case None => Err(())
      case Some(bits) => Ok(bits)
  }

  function AppendFloat(fl: Floats, v: Value, columnType: byte): Result<bytes, ()> {
    var bits :- DoubleOf(fl, v);
    Ok(if columnType == FLOAT then LittleEndian(fl.narrow(bits), 4) else LittleEndian(bits, 8))
  }

  function TakeFloat(fl: Floats, s: bytes, columnType: byte): Parsed<Value> {
    Pow256Values();
    var (n, rest) :- TakeLE(s, if columnType == FLOAT then 4 else 8);
    Parsed(Double(if columnType == FLOAT then fl.widen(n) else n), rest)
  }

  /** A number as a column of either precision keeps it. */
  function Rounded(fl: Floats, bits: u64, columnType: byte): u64 {
    if columnType == FLOAT then fl.widen(fl.narrow(bits)) else bits
  }

  lemma FloatExact(fl: Floats, v: Value, columnType: byte, rest: bytes)
    requires AppendFloat(fl, v, columnType).Ok?
    ensures TakeFloat(fl, AppendFloat(fl, v, columnType).value + rest, columnType)
         == Parsed(Double(Rounded(fl, DoubleOf(fl, v).value, columnType)), rest)
  {
    hide LittleEndian, TakeLE, DoubleOf;
    Pow256Values();
    var bits := DoubleOf(fl, v).value;
    if columnType == FLOAT {
      TakeLEInverse(fl.narrow(bits), 4, rest);
    } else {
      TakeLEInverse(bits, 8, rest);
    }
  }

  /** Where narrowing undoes widening, a FLOAT column keeps exactly the numbers that
      a `float` can hold. */
  lemma FloatKeepsSingles(fl: Floats, bits: u64)
    requires forall single: u32 :: fl.narrow(fl.widen(single)) == single
    ensures Rounded(fl, bits, FLOAT) == bits <==> exists single: u32 :: fl.widen(single) == bits
  {
    if single: u32 :| fl.widen(single) == bits {
      assert fl.narrow(bits) == single;
    }
  }

  // ------------------------------------------------------ dates and times

  const ZERO_DATE := "0000-00-00"
  const ZERO_DATETIME := "0000-00-00 00:00:00"
  const ZERO_TIME := "00:00:00"

  predicate IsDate(columnType: byte) {
    columnType == DATE || columnType == NEWDATE
  }

  predicate IsDateTime(columnType: byte) {
    columnType == DATETIME || columnType == TIMESTAMP
  }

  predicate HasTime(d: Temporal.DateTime) {
    d.hour != 0 || d.minute != 0 || d.second != 0 || d.micros != 0
  }

  function DateBytes(d: Temporal.DateTime): bytes {
    LittleEndian(d.year, 2) + (LittleEndian(d.month, 1) + LittleEndian(d.day, 1))
  }

  function ClockBytes(hour: nat, minute: nat, second: nat): bytes {
    LittleEndian(hour, 1) + (LittleEndian(minute, 1) + LittleEndian(second, 1))
  }

  function MicrosBytes(micros: nat): bytes {
    if micros == 0 then [] else LittleEndian(micros, 4)
  }

  /** `append_binary_datetime_value` */
  function AppendDateTime(text: string, dateOnly: bool): Result<bytes, ()> {
    if text in {"", ZERO_DATE, ZERO_DATETIME} then Ok([0])
    else
      var d :- ParseDateTime(text, dateOnly);
      if dateOnly || !HasTime(d) then Ok([4] + DateBytes(d))
      else
        Ok([if d.micros == 0 then 7 else 11] + (DateBytes(d) + (ClockBytes(d.hour, d.minute, d.second) + MicrosBytes(d.micros))))
  }

  function TakeClock(s: bytes): Parsed<(nat, nat, nat)> {
    var (hour, s1) :- TakeLE(s, 1);
    var (minute, s2) :- TakeLE(s1, 1);
    var (second, rest) :- TakeLE(s2, 1);
    Parsed((hour, minute, second), rest)
  }

  function TakeMicros(s: bytes, present: bool): (r: Parsed<u32>) {
    if !present then Parsed(0, s)
    else
      Pow256Values();
      var (micros, rest) :- TakeLE(s, 4);
      Parsed(micros, rest)
  }

  /** `parse_binary_datetime`; only DATE columns are shown without a time. */
  function TakeDateTime(s: bytes, columnType: byte): Parsed<octets> {
    var (length, s0) :- TakeLE(s, 1);
    if length == 0 then Parsed(if columnType == DATE then ZERO_DATE else ZERO_DATETIME, s0)
    else if length != 4 && length != 7 && length != 11 then Malformed
    else
      var (year, s1) :- TakeLE(s0, 2);
      var (month, s2) :- TakeLE(s1, 1);
      var (day, s3) :- TakeLE(s2, 1);
      var (clock, s4) :- if length >= 7 then TakeClock(s3) else Parsed((0, 0, 0), s3);
      var (micros, rest) :- TakeMicros(s4, length == 11);
      var (hour, minute, second) := clock;
      Parsed(DateTimeOctets(Temporal.DateTime(year, month, day, hour, minute, second, micros), columnType == DATE), rest)
  }

  /** `append_binary_time_value` */
  function AppendTime(text: string): Result<bytes, ()> {
    if text == "" || text == ZERO_TIME then Ok([0])
    else
      var t :- ParseTime(text);
      Ok([if t.micros == 0 then 8 else 12] + TimeBytes(t))
  }

  function TimeBytes(t: Temporal.Time): bytes {
    LittleEndian(if t.negative then 1 else 0, 1)
      + (LittleEndian(t.hours / 24, 4) + (ClockBytes(t.hours % 24, t.minutes, t.seconds) + MicrosBytes(t.micros)))
  }

  /** `parse_binary_time`; the hours are summed in 32 bits and not padded. */
  function TakeTime(s: bytes): Parsed<octets> {
    var (length, s0) :- TakeLE(s, 1);
    if length == 0 then Parsed(ZERO_TIME, s0)
    else if length != 8 && length != 12 then Malformed
    else
      var (sign, s1) :- TakeLE(s0, 1);
      var (days, s2) :- TakeLE(s1, 4);
      var (clock, s3) :- TakeClock(s2);
      var (micros, rest) :- TakeMicros(s3, length == 12);
      var (hour, minute, second) := clock;
      var hours := (days * 24 + hour) % 0x1_0000_0000;
      Parsed(TimeOctets(Temporal.Time(sign != 0, hours, minute, second, micros)), rest)
  }

  // ------------------------------------------------------------ any column

  /** Columns whose bytes are handed out undecoded. */
  predicate IsRaw(f: Field) {
    && (f.columnType in {TINY_BLOB, MEDIUM_BLOB, LONG_BLOB, BLOB, GEOMETRY, VECTOR, BIT}
        || f.columnType in {VARCHAR, VAR_STRING, STRING, ENUM, SET})
    && (f.characterSet == 63 || IsBinary(f))
  }

  /** `value_to_encoded_buffer` */
  function EncodedBytes(fl: Floats, v: Value): blob {
    match v
    case Data(s) => s
    case _ => AsBytes(ValueText(fl, v))
  }

  /** `append_binary_result_value` */
  function AppendValue(fl: Floats, v: Value, f: Field): Result<bytes, ()> {
    if IntegerWidth(f.columnType) > 0 then AppendInteger(fl, v, f)
    else if FloatWidth(f.columnType) > 0 then AppendFloat(fl, v, f.columnType)
    else if IsDate(f.columnType) || IsDateTime(f.columnType) then AppendDateTime(ValueText(fl, v), IsDate(f.columnType))
    else if f.columnType == TIME then AppendTime(ValueText(fl, v))
    else Ok(LenencBytes(EncodedBytes(fl, v)))
  }

  /** `parse_binary_value` with the default options. A column of NULL type takes
      nothing from the row. */
  function TakeValue(fl: Floats, s: bytes, f: Field): Parsed<Value> {
    var width := IntegerWidth(f.columnType);
    if width > 0 then
      var (n, rest) :- TakeInteger(s, width, IsUnsigned(f));
      Parsed(Integer(n), rest)
    else if FloatWidth(f.columnType) > 0 then TakeFloat(fl, s, f.columnType)
    else if IsDate(f.columnType) || IsDateTime(f.columnType) then
      var (text, rest) :- TakeDateTime(s, f.columnType);
      Parsed(Text(text), rest)
    else if f.columnType == TIME then
      var (text, rest) :- TakeTime(s);
      Parsed(Text(text), rest)
    else if f.columnType == NULL_TYPE then Parsed(Null, s)
    else
      var (data, rest) :- TakeLenencBytes(s);
      Parsed(if data.None? then Null else if IsRaw(f) then Data(data.value) else Text(AsText(data.value)), rest)
  }

  // ------------------------------------------------- what comes back, exactly

  function DateTimeBack(text: string, columnType: byte): octets
    requires AppendDateTime(text, IsDate(columnType)).Ok?
  {
    if text in {"", ZERO_DATE, ZERO_DATETIME} then if columnType == DATE then ZERO_DATE else ZERO_DATETIME
    else DateTimeOctets(ParseDateTime(text, IsDate(columnType)).value, columnType == DATE)
  }

  function TimeBack(text: string): octets
    requires AppendTime(text).Ok?
  {
    if text == "" || text == ZERO_TIME then ZERO_TIME else TimeOctets(ParseTime(text).value)
  }

  /** The value that a column shows after the value `v` was written to it: the
      integer cut to the column's width and sign, the number rounded to its
      precision, the date or time that the text denotes, or the same bytes. */
  function Back(fl: Floats, v: Value, f: Field): Value
    requires AppendValue(fl, v, f).Ok?
  {
    var width := IntegerWidth(f.columnType);
    if width > 0 then
      WidthBound(width);
      Integer(Wrap(Number(fl, v, f.columnType == LONGLONG && IsUnsigned(f)).value, width, IsUnsigned(f)))
    else if FloatWidth(f.columnType) > 0 then Double(Rounded(fl, DoubleOf(fl, v).value, f.columnType))
    else if IsDate(f.columnType) || IsDateTime(f.columnType) then Text(DateTimeBack(ValueText(fl, v), f.columnType))
    else if f.columnType == TIME then Text(TimeBack(ValueText(fl, v)))
    else if IsRaw(f) then Data(EncodedBytes(fl, v))
    else Text(AsText(EncodedBytes(fl, v)))
  }

  lemma TakeDateExact(d: Temporal.DateTime, rest: bytes)
    requires Narrow(d)
    ensures var s := DateBytes(d) + rest;
      && TakeLE(s, 2) == Parsed(d.year, LittleEndian(d.month, 1) + (LittleEndian(d.day, 1) + rest))
      && TakeLE(LittleEndian(d.month, 1) + (LittleEndian(d.day, 1) + rest), 1) == Parsed(d.month, LittleEndian(d.day, 1) + rest)
      && TakeLE(LittleEndian(d.day, 1) + rest, 1) == Parsed(d.day, rest)
  {
    hide LittleEndian, TakeLE;
    Pow256Values();
    var year, month, day := LittleEndian(d.year, 2), LittleEndian(d.month, 1), LittleEndian(d.day, 1);
    Concat3(year, month + day, rest);
    Concat3(month, day, rest);
    TakeLEInverse(d.year, 2, month + (day + rest));
    TakeLEInverse(d.month, 1, day + rest);
    TakeLEInverse(d.day, 1, rest);
  }

  lemma TakeClockExact(hour: nat, minute: nat, second: nat, rest: bytes)
    requires hour < 0x100 && minute < 0x100 && second < 0x100
    ensures TakeClock(ClockBytes(hour, minute, second) + rest) == Parsed((hour, minute, second), rest)
  {
    hide LittleEndian, TakeLE;
    Pow256Values();
    var h, m, s := LittleEndian(hour, 1), LittleEndian(minute, 1), LittleEndian(second, 1);
    Concat3(h, m + s, rest);
    Concat3(m, s, rest);
    TakeLEInverse(hour, 1, m + (s + rest));
    TakeLEInverse(minute, 1, s + rest);
    TakeLEInverse(second, 1, rest);
  }

  lemma TakeMicrosExact(micros: nat, rest: bytes)
    requires micros < 1000000
    ensures TakeMicros(MicrosBytes(micros) + rest, micros != 0) == Parsed(micros, rest)
  {
    Pow256Values();
    if micros == 0 {
      assert [] + rest == rest;
    } else {
      TakeLEInverse(micros, 4, rest);
    }
  }

  lemma TakeLength(length: byte, rest: bytes)
    ensures TakeLE([length] + rest, 1) == Parsed(length, rest)
  {
    assert ([length] + rest)[..1] == [length] && ([length] + rest)[1..] == rest;
    assert FromLittleEndian([length]) == length;
  }

  /** Each length form of a date gives the fields back. */
  lemma DateTimeFormExact(d: Temporal.DateTime, columnType: byte, rest: bytes)
    requires Narrow(d)
    ensures var clock := ClockBytes(d.hour, d.minute, d.second);
      && (!HasTime(d) ==>
            TakeDateTime([4] + DateBytes(d) + rest, columnType) == Parsed(DateTimeOctets(d, columnType == DATE), rest))
      && TakeDateTime([if d.micros == 0 then 7 else 11] + (DateBytes(d) + (clock + MicrosBytes(d.micros))) + rest, columnType)
         == Parsed(DateTimeOctets(d, columnType == DATE), rest)
  {
    hide LittleEndian, TakeLE, TakeClock, TakeMicros, DateTimeOctets, ClockBytes, MicrosBytes, DateBytes;
    var clock, micros := ClockBytes(d.hour, d.minute, d.second), MicrosBytes(d.micros);
    var length: byte := if d.micros == 0 then 7 else 11;
    Concat3([4], DateBytes(d), rest);
    TakeLength(4, DateBytes(d) + rest);
    TakeDateExact(d, rest);
    assert [length] + (DateBytes(d) + (clock + micros)) + rest == [length] + (DateBytes(d) + (clock + (micros + rest)));
    TakeLength(length, DateBytes(d) + (clock + (micros + rest)));
    TakeDateExact(d, clock + (micros + rest));
    TakeClockExact(d.hour, d.minute, d.second, micros + rest);
    TakeMicrosExact(d.micros, rest);
    assert TakeMicros(rest, false) == Parsed(0, rest) by { NoMicros(rest); }
  }

  lemma NoMicros(rest: bytes)
    ensures TakeMicros(rest, false) == Parsed(0, rest)
  {
  }

  lemma DateTimeExact(text: string, columnType: byte, rest: bytes)
    requires AppendDateTime(text, IsDate(columnType)).Ok?
    ensures TakeDateTime(AppendDateTime(text, IsDate(columnType)).value + rest, columnType)
         == Parsed(DateTimeBack(text, columnType), rest)
  {
    hide ParseDateTime, DateTimeOctets, DateBytes, ClockBytes, MicrosBytes, TakeClock, TakeMicros, TakeLE;
    if text in {"", ZERO_DATE, ZERO_DATETIME} {
      TakeLength(0, rest);
    } else {
      DateTimeFormExact(ParseDateTime(text, IsDate(columnType)).value, columnType, rest);
    }
  }

  /** The fields behind the length of a time, in the order they are read. */
  lemma TimeFieldsExact(t: Temporal.Time, rest: bytes)
    requires FitsFields(t)
    ensures var s2 := ClockBytes(t.hours % 24, t.minutes, t.seconds) + (MicrosBytes(t.micros) + rest);
      var s1 := LittleEndian(t.hours / 24, 4) + s2;
      && TimeBytes(t) + rest == LittleEndian(if t.negative then 1 else 0, 1) + s1
      && TakeLE(TimeBytes(t) + rest, 1) == Parsed(if t.negative then 1 else 0, s1)
      && TakeLE(s1, 4) == Parsed(t.hours / 24, s2)
      && TakeClock(s2) == Parsed((t.hours % 24, t.minutes, t.seconds), MicrosBytes(t.micros) + rest)
      && TakeMicros(MicrosBytes(t.micros) + rest, t.micros != 0) == Parsed(t.micros, rest)
  {
    hide LittleEndian, TakeLE, TakeClock, TakeMicros, ClockBytes, MicrosBytes;
    var sign, days := LittleEndian(if t.negative then 1 else 0, 1), LittleEndian(t.hours / 24, 4);
    var clock, micros := ClockBytes(t.hours % 24, t.minutes, t.seconds), MicrosBytes(t.micros);
    Concat3(sign, days + (clock + micros), rest);
    Concat3(days, clock + micros, rest);
    Concat3(clock, micros, rest);
    Pow256Values();
    TakeLEInverse(if t.negative then 1 else 0, 1, days + (clock + (micros + rest)));
    TakeLEInverse(t.hours / 24, 4, clock + (micros + rest));
    TakeClockExact(t.hours % 24, t.minutes, t.seconds, micros + rest);
    TakeMicrosExact(t.micros, rest);
  }

  lemma TimeExact(text: string, rest: bytes)
    requires AppendTime(text).Ok?
    ensures TakeTime(AppendTime(text).value + rest) == Parsed(TimeBack(text), rest)
  {
    hide LittleEndian, TakeLE, TakeClock, TakeMicros, TimeOctets, ClockBytes, MicrosBytes, ParseTime, TimeBytes;
    if text == "" || text == ZERO_TIME {
      TakeLength(0, rest);
    } else {
      var t := ParseTime(text).value;
      var length: byte := if t.micros == 0 then 8 else 12;
      Concat3([length], TimeBytes(t), rest);
      TakeLength(length, TimeBytes(t) + rest);
      TimeFieldsExact(t, rest);
      assert t.hours / 24 * 24 + t.hours % 24 == t.hours;
    }
  }

  lemma TakeIntegerExact(n: int, width: nat, unsigned: bool, rest: bytes)
    requires width in {1, 2, 4, 8}
    ensures -0x8000_0000_0000_0000 <= Wrap(n, width, unsigned) < U64
    ensures TakeInteger(LittleEndian(n % Pow256(width), width) + rest, width, unsigned)
         == Parsed(Wrap(n, width, unsigned), rest)
  {
    hide LittleEndian, TakeLE, Pow256;
    WidthBound(width);
    TakeLEInverse(n % Pow256(width), width, rest);
  }

  lemma IntegerExact(fl: Floats, v: Value, f: Field, rest: bytes)
    requires IntegerWidth(f.columnType) > 0 && AppendInteger(fl, v, f).Ok?
    ensures TakeValue(fl, AppendInteger(fl, v, f).value + rest, f) == Parsed(Back(fl, v, f), rest)
  {
    hide LittleEndian, TakeInteger, Pow256, Number, Wrap;
    TakeIntegerExact(Number(fl, v, f.columnType == LONGLONG && IsUnsigned(f)).value,
                     IntegerWidth(f.columnType), IsUnsigned(f), rest);
  }

  /** Any value that can be written to a column is read back from exactly the bytes
      written, except in a column of NULL type. */
  lemma ValueExact(fl: Floats, v: Value, f: Field, rest: bytes)
    requires f.columnType != NULL_TYPE && AppendValue(fl, v, f).Ok?
    ensures TakeValue(fl, AppendValue(fl, v, f).value + rest, f) == Parsed(Back(fl, v, f), rest)
  {
    hide TakeDateTime, TakeTime, TakeLenencBytes, AppendDateTime, AppendTime, AppendInteger, LenencBytes,
      ParseTime, ParseDateTime, DateTimeBack, TimeBack, ValueText, AsText, AsBytes;
    if IntegerWidth(f.columnType) > 0 {
      IntegerExact(fl, v, f, rest);
    } else if FloatWidth(f.columnType) > 0 {
      FloatExact(fl, v, f.columnType, rest);
    } else if IsDate(f.columnType) || IsDateTime(f.columnType) {
      DateTimeExact(ValueText(fl, v), f.columnType, rest);
    } else if f.columnType == TIME {
      TimeExact(ValueText(fl, v), rest);
    } else {
      TakeLenencBytesInverse(EncodedBytes(fl, v), rest);
    }
  }

  // ------------------------------------------------------------------- rows

  function ValueAt(row: seq<Value>, i: nat): Value {
    if i < |row| then row[i] else Null
  }

  function BitmapLength(columns: nat): (n: nat)
    ensures 8 * n >= columns + 2
  {
    (columns + 9) / 8
  }

  /** The bitmap after the first `n` columns: the bit of a column is two above its
      index. */
  function NullBits(row: seq<Value>, n: nat, columns: nat): (bitmap: bytes)
    requires n <= columns
    ensures |bitmap| == BitmapLength(columns)
  {
    if n == 0 then ZeroBytes(BitmapLength(columns))
    else
      var bitmap := NullBits(row, n - 1, columns);
      if ValueAt(row, n - 1).Null? then SetBit(bitmap, n + 1) else bitmap
  }

  /** A bit is set exactly for the NULL columns. */
  lemma {:induction false} NullBitsExact(row: seq<Value>, n: nat, columns: nat, bit: nat)
    requires n <= columns
    ensures HasBit(NullBits(row, n, columns), bit) <==> 2 <= bit < n + 2 && ValueAt(row, bit - 2).Null?
  {
    if n == 0 {
      ZeroBitsClear(BitmapLength(columns), bit);
    } else {
      NullBitsExact(row, n - 1, columns, bit);
      if ValueAt(row, n - 1).Null? {
        SetBitExact(NullBits(row, n - 1, columns), n + 1, bit);
      }
    }
  }

  function CellBytes(fl: Floats, v: Value, f: Field): Result<bytes, ()> {
    if v.Null? then Ok([]) else AppendValue(fl, v, f)
  }

  function CellsFrom(fl: Floats, row: seq<Value>, fields: seq<Field>, i: nat): Result<bytes, ()>
    requires i <= |fields|
    decreases |fields| - i
  {
    if i == |fields| then Ok([])
    else
      var head :- CellBytes(fl, ValueAt(row, i), fields[i]);
      var tail :- CellsFrom(fl, row, fields, i + 1);
      Ok(head + tail)
  }

  /** `build_binary_row_payload` */
  function RowPayload(fl: Floats, row: seq<Value>, fields: seq<Field>): Result<bytes, ()> {
    var cells :- CellsFrom(fl, row, fields, 0);
    Ok([0] + (NullBits(row, |fields|, |fields|) + cells))
  }

  function TakeCell(fl: Floats, s: bytes, bitmap: bytes, f: Field, i: nat): Parsed<Value> {
    if HasBit(bitmap, i + 2) then Parsed(Null, s) else TakeValue(fl, s, f)
  }

  function TakeCells(fl: Floats, s: bytes, bitmap: bytes, fields: seq<Field>, i: nat): (r: Parsed<seq<Value>>)
    requires i <= |fields|
    ensures r.Parsed? ==> |r.value| == |fields| - i
    decreases |fields| - i
  {
    if i == |fields| then Parsed([], s)
    else
      var (v, s1) :- TakeCell(fl, s, bitmap, fields[i], i);
      var (vs, rest) :- TakeCells(fl, s1, bitmap, fields, i + 1);
      Parsed([v] + vs, rest)
  }

  /** `parse_binary_row`; bytes behind the last column are ignored. */
  function ParseRow(fl: Floats, payload: bytes, fields: seq<Field>): (r: Parsed<seq<Value>>)
    ensures r.Parsed? ==> |r.value| == |fields|
  {
    var (marker, s1) :- TakeLE(payload, 1);
    if marker != 0 then Malformed
    else
      var (bitmap, s2) :- TakeBytes(s1, BitmapLength(|fields|));
      TakeCells(fl, s2, bitmap, fields, 0)
  }

  lemma {:induction false} CellsOk(fl: Floats, row: seq<Value>, fields: seq<Field>, i: nat, j: nat)
    requires i <= j < |fields| && CellsFrom(fl, row, fields, i).Ok?
    ensures CellBytes(fl, ValueAt(row, j), fields[j]).Ok?
    decreases j - i
  {
    hide CellBytes;
    if i < j {
      CellsOk(fl, row, fields, i + 1, j);
    }
  }

  /** What a column shows after the value was written to it. */
  function BackCell(fl: Floats, v: Value, f: Field): Value {
    if v.Null? || AppendValue(fl, v, f).Err? then Null else Back(fl, v, f)
  }

  /** What each column from `i` on shows after the row was written. */
  function BackFrom(fl: Floats, row: seq<Value>, fields: seq<Field>, i: nat): (vs: seq<Value>)
    requires i <= |fields|
    ensures |vs| == |fields| - i
    ensures forall k :: 0 <= k < |vs| ==> vs[k] == BackCell(fl, ValueAt(row, i + k), fields[i + k])
  {
    hide BackCell;
    seq(|fields| - i, k requires 0 <= k < |fields| - i => BackCell(fl, ValueAt(row, i + k), fields[i + k]))
  }

  lemma BackStep(fl: Floats, row: seq<Value>, fields: seq<Field>, i: nat)
    requires i < |fields|
    ensures BackFrom(fl, row, fields, i) == [BackCell(fl, ValueAt(row, i), fields[i])] + BackFrom(fl, row, fields, i + 1)
  {
    hide BackCell, BackFrom;
  }

  /** Only NULL is put into columns of NULL type. */
  predicate NullColumnsNull(row: seq<Value>, fields: seq<Field>) {
    forall i :: 0 <= i < |fields| && fields[i].columnType == NULL_TYPE ==> ValueAt(row, i).Null?
  }

  lemma {:induction false} CellsExact(fl: Floats, row: seq<Value>, fields: seq<Field>, i: nat, rest: bytes)
    requires i <= |fields| && NullColumnsNull(row, fields) && CellsFrom(fl, row, fields, i).Ok?
    ensures TakeCells(fl, CellsFrom(fl, row, fields, i).value + rest, NullBits(row, |fields|, |fields|), fields, i)
         == Parsed(BackFrom(fl, row, fields, i), rest)
    decreases |fields| - i
  {
    hide TakeValue, AppendValue, Back, HasBit, NullBits, BackFrom;
    if i == |fields| {
      assert [] + rest == rest;
    } else {
      BackStep(fl, row, fields, i);
      var v, bitmap := ValueAt(row, i), NullBits(row, |fields|, |fields|);
      var head, tail := CellBytes(fl, v, fields[i]).value, CellsFrom(fl, row, fields, i + 1).value;
      Concat3(head, tail, rest);
      NullBitsExact(row, |fields|, |fields|, i + 2);
      if v.Null? {
        assert [] + (tail + rest) == tail + rest;
      } else {
        ValueExact(fl, v, fields[i], tail + rest);
      }
      CellsExact(fl, row, fields, i + 1, rest);
    }
  }

  lemma {:induction false} NullColumnShowsNull(fl: Floats, s: bytes, bitmap: bytes, fields: seq<Field>, i: nat, j: nat)
    requires i <= j < |fields| && fields[j].columnType == NULL_TYPE
    requires TakeCells(fl, s, bitmap, fields, i).Parsed?
    ensures TakeCells(fl, s, bitmap, fields, i).value[j - i] == Null
    decreases j - i
  {
    hide HasBit;
    if i < j {
      NullColumnShowsNull(fl, TakeCell(fl, s, bitmap, fields[i], i).rest, bitmap, fields, i + 1, j);
    }
  }

  /** A row that can be written is read back column by column, with nothing left
      over, exactly when only NULL was put into columns of NULL type: what is
      written for another value there is never read. */
  lemma BinaryRowExact(fl: Floats, row: seq<Value>, fields: seq<Field>)
    requires RowPayload(fl, row, fields).Ok?
    ensures ParseRow(fl, RowPayload(fl, row, fields).value, fields) == Parsed(BackFrom(fl, row, fields, 0), [])
       <==> NullColumnsNull(row, fields)
  {
    hide TakeCells, CellsFrom, NullBits, Back, AppendValue, TakeLE;
    var bitmap, cells := NullBits(row, |fields|, |fields|), CellsFrom(fl, row, fields, 0).value;
    TakeLength(0, bitmap + cells);
    TakeBytesInverse(bitmap, cells);
    if NullColumnsNull(row, fields) {
      CellsExact(fl, row, fields, 0, []);
      assert cells + [] == cells;
    } else {
      var j :| 0 <= j < |fields| && fields[j].columnType == NULL_TYPE && !ValueAt(row, j).Null?;
      CellsOk(fl, row, fields, 0, j);
      BackIsNotNull(fl, ValueAt(row, j), fields[j]);
      if TakeCells(fl, cells, bitmap, fields, 0).Parsed? {
        NullColumnShowsNull(fl, cells, bitmap, fields, 0, j);
      }
    }
  }

  lemma BackIsNotNull(fl: Floats, v: Value, f: Field)
    requires AppendValue(fl, v, f).Ok?
    ensures Back(fl, v, f) != Null
  {
  }

  // ---------------------------------------------------- values that are kept

  /** Values whose column shows them unchanged: integers in range, byte strings
      where bytes are handed out, text where text is, and canonical dates. */
  ghost predicate Kept(fl: Floats, v: Value, f: Field) {
    match v
    case Null => true
    case Integer(n) => IntegerWidth(f.columnType) > 0 && InRange(n, IntegerWidth(f.columnType), IsUnsigned(f))
    case Double(bits) => FloatWidth(f.columnType) > 0 && Rounded(fl, bits, f.columnType) == bits
    case Data(_) => IsLenenc(f) && IsRaw(f)
    case Text(s) =>
      if f.columnType == DATE then exists d :: Canonical(d) && s == DateTimeText(d, true)
      else if IsDateTime(f.columnType) then exists d :: Canonical(d) && s == DateTimeText(d, false)
      else IsLenenc(f) && !IsRaw(f)
  }

  predicate IsLenenc(f: Field) {
    && IntegerWidth(f.columnType) == 0 && FloatWidth(f.columnType) == 0 && !IsDate(f.columnType) && !IsDateTime(f.columnType)
    && f.columnType != TIME && f.columnType != NULL_TYPE
  }

  lemma DateKept(d: Temporal.DateTime, s: octets, columnType: byte)
    requires Canonical(d) && s == DateTimeText(d, columnType == DATE)
    requires columnType == DATE || IsDateTime(columnType)
    ensures AppendDateTime(s, IsDate(columnType)).Ok?
    ensures DateTimeBack(s, columnType) == s
  {
    hide ParseDateTime, FractionSuffix, Fixed;
    DateTimeRoundTrip(d);
    assert columnType == DATE ==> |s| == 10;
    assert columnType != DATE ==> |s| >= 19;
  }

  lemma KeptExact(fl: Floats, v: Value, f: Field)
    requires Kept(fl, v, f) && !v.Null?
    ensures AppendValue(fl, v, f).Ok? && Back(fl, v, f) == v
  {
    hide DateTimeBack, AppendDateTime, ParseDateTime, Wrap, InRange, DateTimeText;
    match v
    case Integer(n) => WrapExact(n, IntegerWidth(f.columnType), IsUnsigned(f));
    case Double(_) =>
    case Data(_) =>
    case Text(s) =>
      if f.columnType == DATE {
        var d :| Canonical(d) && s == DateTimeText(d, true);
        DateKept(d, s, f.columnType);
      } else if IsDateTime(f.columnType) {
        var d :| Canonical(d) && s == DateTimeText(d, false);
        DateKept(d, s, f.columnType);
      } else {
        TextInverse(s);
      }
  }

  lemma {:induction false} KeptCells(fl: Floats, row: seq<Value>, fields: seq<Field>, i: nat)
    requires i <= |fields| && forall j :: 0 <= j < |fields| ==> Kept(fl, ValueAt(row, j), fields[j])
    ensures CellsFrom(fl, row, fields, i).Ok?
    decreases |fields| - i
  {
    hide Kept, AppendValue, Back;
    if i < |fields| {
      if !ValueAt(row, i).Null? {
        KeptExact(fl, ValueAt(row, i), fields[i]);
      }
      KeptCells(fl, row, fields, i + 1);
    }
  }

  /** Rows of such values come back unchanged, missing values as NULL. */
  lemma BinaryRowRoundTrip(fl: Floats, row: seq<Value>, fields: seq<Field>)
    requires forall i :: 0 <= i < |fields| ==> Kept(fl, ValueAt(row, i), fields[i])
    ensures RowPayload(fl, row, fields).Ok?
    ensures ParseRow(fl, RowPayload(fl, row, fields).value, fields)
         == Parsed(seq(|fields|, i requires 0 <= i < |fields| => ValueAt(row, i)), [])
  {
    hide ParseRow, CellsFrom, AppendValue, Back, Kept, NullBits;
    KeptCells(fl, row, fields, 0);
    forall i | 0 <= i < |fields| && fields[i].columnType == NULL_TYPE
      ensures ValueAt(row, i).Null?
    {
      NullTypeKeepsNull(fl, ValueAt(row, i), fields[i]);
    }
    BinaryRowExact(fl, row, fields);
    forall i | 0 <= i < |fields|
      ensures BackFrom(fl, row, fields, 0)[i] == ValueAt(row, i)
    {
      if !ValueAt(row, i).Null? {
        KeptExact(fl, ValueAt(row, i), fields[i]);
      }
    }
    assert BackFrom(fl, row, fields, 0) == seq(|fields|, i requires 0 <= i < |fields| => ValueAt(row, i));
  }

  lemma NullTypeKeepsNull(fl: Floats, v: Value, f: Field)
    requires Kept(fl, v, f) && f.columnType == NULL_TYPE
    ensures v.Null?
  {
  }

  /** A NEWDATE is written as a date but read as a date and time. */
  lemma NewDateGainsTime(d: Temporal.DateTime, s: octets)
    requires Canonical(d) && s == DateTimeText(d, true)
    ensures AppendDateTime(s, true).Ok?
    ensures DateTimeBack(s, NEWDATE) == s + " 00:00:00"
  {
    hide ParseDateTime, Fixed, FractionSuffix;
    DateTimeRoundTrip(d);
    NoFraction();
    ZeroDigits();
    assert |s| == 10;
    assert ZERO_DATE + " 00:00:00" == ZERO_DATETIME;
    assert s != ZERO_DATE ==> DateTimeBack(s, NEWDATE) == DateTimeText(DateOnly(d), false) == s + (" " + ClockText("00", 0, 0));
  }

  lemma ZeroDigits()
    ensures TwoDigits(0) == "00"
  {
    assert Fixed(0, 2) == Fixed(0, 1) + ['0'] && Fixed(0, 1) == Fixed(0, 0) + ['0'];
  }

  /** A time comes back denoting the same sign, hours, minutes, seconds and
      microseconds, whatever its hours were padded to. */
  lemma TimeKept(t: Temporal.Time, hours: string, s: octets)
    requires Writable(t) && hours != "" && AllDigits(hours) && ValueOf(hours) == t.hours
    requires s == TimeTextWith(t, hours)
    ensures AppendTime(s).Ok?
    ensures ParseTime(TimeBack(s)) == Ok(t)
    ensures TimeBack(s) == if s == ZERO_TIME then s else TimeTextWith(t, ToText(t.hours))
  {
    hide ParseTime, FractionSuffix, ToText, ValueOf;
    TimeRoundTrip(t, hours);
    ToTextValue(t.hours);
    TimeRoundTrip(t, ToText(t.hours));
    assert s != "";
  }

  // ------------------------------------------------------------ the originals

  /** `build_binary_row_payload`: the bitmap is filled in place, then the values are
      appended. */
  method BuildBinaryRow(fl: Floats, row: seq<Value>, fields: seq<Field>) returns (r: Result<bytes, ()>)
    ensures r.Err? <==> RowPayload(fl, row, fields).Err?
    ensures r.Ok? ==> r == RowPayload(fl, row, fields)
  {
    hide AppendValue, OrBit;
    var nullBitmap := new byte[(|fields| + 7 + 2) / 8](_ => 0);
    assert nullBitmap[..] == ZeroBytes(BitmapLength(|fields|));
    for i := 0 to |fields|
      invariant nullBitmap[..] == NullBits(row, i, |fields|)
    {
      if ValueAt(row, i).Null? {
        var bit := i + 2;
        ghost var before := nullBitmap[..];
        nullBitmap[bit / 8] := OrBit(nullBitmap[bit / 8], bit % 8);
        assert nullBitmap[..] == SetBit(before, bit);
      }
    }
    var payload := [0] + nullBitmap[..];
    var i := 0;
    ghost var start := payload;
    while i < |fields|
      invariant i <= |fields|
      invariant CellsFrom(fl, row, fields, 0).Ok? <==> CellsFrom(fl, row, fields, i).Ok?
      invariant CellsFrom(fl, row, fields, i).Ok? ==>
                  start + CellsFrom(fl, row, fields, 0).value == payload + CellsFrom(fl, row, fields, i).value
    {
      if !ValueAt(row, i).Null? {
        var cell :- AppendValue(fl, ValueAt(row, i), fields[i]);
        if CellsFrom(fl, row, fields, i).Ok? {
          Concat3(payload, cell, CellsFrom(fl, row, fields, i + 1).value);
        }
        payload := payload + cell;
      } else if CellsFrom(fl, row, fields, i).Ok? {
        assert [] + CellsFrom(fl, row, fields, i + 1).value == CellsFrom(fl, row, fields, i + 1).value;
      }
      i := i + 1;
    }
    Concat3([0], NullBits(row, |fields|, |fields|), CellsFrom(fl, row, fields, 0).value);
    assert payload + [] == payload;
    r := Ok(payload);
  }

  method ReadClock(cursor: PacketCursor) returns (r: Result<(nat, nat, nat), ()>)
    requires cursor.Valid()
    modifies cursor`offset
    ensures cursor.Valid() && old(cursor.offset) <= cursor.offset
    ensures r.Err? <==> TakeClock(old(cursor.Rest())).Malformed?
    ensures r.Ok? ==> TakeClock(old(cursor.Rest())) == Parsed(r.value, cursor.Rest())
  {
    hide TakeLE;
    var hour :- cursor.ReadLE(1);
    var minute :- cursor.ReadLE(1);
    var second :- cursor.ReadLE(1);
    r := Ok((hour, minute, second));
  }

  method ReadMicros(cursor: PacketCursor, present: bool) returns (r: Result<u32, ()>)
    requires cursor.Valid()
    modifies cursor`offset
    ensures cursor.Valid() && old(cursor.offset) <= cursor.offset
    ensures r.Err? <==> TakeMicros(old(cursor.Rest()), present).Malformed?
    ensures r.Ok? ==> TakeMicros(old(cursor.Rest()), present) == Parsed(r.value, cursor.Rest())
  {
    hide TakeLE;
    if !present {
      return Ok(0);
    }
    Pow256Values();
    var micros :- cursor.ReadLE(4);
    r := Ok(micros);
  }

  /** `parse_binary_datetime` */
  method ParseBinaryDateTime(cursor: PacketCursor, columnType: byte) returns (r: Result<octets, ()>)
    requires cursor.Valid()
    modifies cursor`offset
    ensures cursor.Valid() && old(cursor.offset) <= cursor.offset
    ensures r.Err? <==> TakeDateTime(old(cursor.Rest()), columnType).Malformed?
    ensures r.Ok? ==> TakeDateTime(old(cursor.Rest()), columnType) == Parsed(r.value, cursor.Rest())
  {
    hide TakeLE, TakeClock, TakeMicros, DateTimeText;
    var length :- cursor.ReadLE(1);
    if length == 0 {
      return Ok(if columnType == DATE then ZERO_DATE else ZERO_DATETIME);
    }
    if length != 4 && length != 7 && length != 11 {
      return Err(());
    }
    var year :- cursor.ReadLE(2);
    var month :- cursor.ReadLE(1);
    var day :- cursor.ReadLE(1);
    var clock := (0, 0, 0);
    if length >= 7 {
      clock :- ReadClock(cursor);
    }
    var micros :- ReadMicros(cursor, length == 11);
    var (hour, minute, second) := clock;
    r := Ok(DateTimeOctets(Temporal.DateTime(year, month, day, hour, minute, second, micros), columnType == DATE));
  }

  /** `parse_binary_time` */
  method ParseBinaryTime(cursor: PacketCursor) returns (r: Result<octets, ()>)
    requires cursor.Valid()
    modifies cursor`offset
    ensures cursor.Valid() && old(cursor.offset) <= cursor.offset
    ensures r.Err? <==> TakeTime(old(cursor.Rest())).Malformed?
    ensures r.Ok? ==> TakeTime(old(cursor.Rest())) == Parsed(r.value, cursor.Rest())
  {
    hide TakeLE, TakeClock, TakeMicros, ClockText, ToText, FractionSuffix;
    var length :- cursor.ReadLE(1);
    if length == 0 {
      return Ok(ZERO_TIME);
    }
    if length != 8 && length != 12 {
      return Err(());
    }
    var sign :- cursor.ReadLE(1);
    var days :- cursor.ReadLE(4);
    var clock :- ReadClock(cursor);
    var micros :- ReadMicros(cursor, length == 12);
    var (hour, minute, second) := clock;
    var hours := (days * 24 + hour) % 0x1_0000_0000;
    r := Ok(TimeOctets(Temporal.Time(sign != 0, hours, minute, second, micros)));
  }

  /** `parse_binary_value` */
  method ParseBinaryValue(fl: Floats, cursor: PacketCursor, f: Field) returns (r: Result<Value, ()>)
    requires cursor.Valid()
    modifies cursor`offset
    ensures cursor.Valid() && old(cursor.offset) <= cursor.offset
    ensures r.Err? <==> TakeValue(fl, old(cursor.Rest()), f).Malformed?
    ensures r.Ok? ==> TakeValue(fl, old(cursor.Rest()), f) == Parsed(r.value, cursor.Rest())
  {
    hide TakeLE, TakeDateTime, TakeTime, TakeLenencBytes, AsText;
    var width := IntegerWidth(f.columnType);
    if width > 0 {
      var n :- cursor.ReadLE(width);
      WidthBound(width);
      return Ok(Integer(if IsUnsigned(f) then n else Signed(n, width)));
    }
    if FloatWidth(f.columnType) > 0 {
      Pow256Values();
      var n :- cursor.ReadLE(FloatWidth(f.columnType));
      return Ok(Double(if f.columnType == FLOAT then fl.widen(n) else n));
    }
    if IsDate(f.columnType) || IsDateTime(f.columnType) {
      var text :- ParseBinaryDateTime(cursor, f.columnType);
      return Ok(Text(text));
    }
    if f.columnType == TIME {
      var text :- ParseBinaryTime(cursor);
      return Ok(Text(text));
    }
    if f.columnType == NULL_TYPE {
      return Ok(Null);
    }
    var data :- cursor.ReadLenencBytes();
    r := Ok(if data.None? then Null else if IsRaw(f) then Data(data.value) else Text(AsText(data.value)));
  }

  lemma TakeCellsStep(fl: Floats, s: bytes, bitmap: bytes, fields: seq<Field>, i: nat)
    requires i < |fields|
    ensures TakeCells(fl, s, bitmap, fields, i) ==
      match TakeCell(fl, s, bitmap, fields[i], i)
      case Malformed => Malformed
      case Parsed(v, rest) => Prepended([v], TakeCells(fl, rest, bitmap, fields, i + 1))
  {
    hide TakeCell;
  }

  lemma NoCellsLeft(fl: Floats, s: bytes, bitmap: bytes, fields: seq<Field>)
    ensures TakeCells(fl, s, bitmap, fields, |fields|) == Parsed([], s)
  {
  }

  /** `parse_binary_row` */
  method ParseBinaryRow(fl: Floats, payload: bytes, fields: seq<Field>) returns (r: Result<seq<Value>, ()>)
    ensures r.Err? <==> ParseRow(fl, payload, fields).Malformed?
    ensures r.Ok? ==> r.value == ParseRow(fl, payload, fields).value
  {
    hide TakeLE, TakeCells;
    var cursor := new PacketCursor(payload);
    var marker :- cursor.ReadLE(1);
    if marker != 0 {
      return Err(());
    }
    var nullBitmap :- cursor.ReadBuffer((|fields| + 7 + 2) / 8);
    assert ParseRow(fl, payload, fields) == TakeCells(fl, cursor.Rest(), nullBitmap, fields, 0);
    r := ParseCells(fl, cursor, nullBitmap, fields);
  }

  /** Its loop over the columns. */
  method ParseCells(fl: Floats, cursor: PacketCursor, nullBitmap: bytes, fields: seq<Field>) returns (r: Result<seq<Value>, ()>)
    requires cursor.Valid() && 8 * |nullBitmap| >= |fields| + 2
    modifies cursor`offset
    ensures var all := TakeCells(fl, old(cursor.Rest()), nullBitmap, fields, 0);
      (r.Err? <==> all.Malformed?) && (r.Ok? ==> r.value == all.value)
  {
    hide TakeValue, HasBit, TakeCells;
    var values: seq<Value> := [];
    ghost var all := TakeCells(fl, cursor.Rest(), nullBitmap, fields, 0);
    PrependedNothing(all);
    for i := 0 to |fields|
      invariant cursor.Valid()
      invariant all == Prepended(values, TakeCells(fl, cursor.Rest(), nullBitmap, fields, i))
    {
      TakeCellsStep(fl, cursor.Rest(), nullBitmap, fields, i);
      var v := Null;
      if !HasBit(nullBitmap, i + 2) {
        v :- ParseBinaryValue(fl, cursor, fields[i]);
      }
      PrependedTwice(values, v, TakeCells(fl, cursor.Rest(), nullBitmap, fields, i + 1));
      values := values + [v];
    }
    NoCellsLeft(fl, cursor.Rest(), nullBitmap, fields);
    PrependedAll(values, cursor.Rest());
    r := Ok(values);
  }
}
