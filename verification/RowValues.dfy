/** The column values of binlog row events. */
module RowValues {
  import opened Bytes
  import opened Bitmaps
  import opened ColumnTypes
  import opened Digits
  import opened Temporal
  import opened TimeText
  import Decimal

  /** FLOAT and DOUBLE values stay bit patterns. */
  datatype Value =
    | Null
    | Integer(number: int)
    | Unsigned(magnitude: nat)
    | Float(bits: bytes)
    | Text(text: string)
    | Data(data: bytes)
    | Stamp(stamp: Timestamp)
    | Moment(moment: DateTime)
    | Clock(clock: Time)

  // ---------------------------------------------------- older date and time

  /** `format_date_from_packed` */
  function PackedDate(value: nat): string {
    DateTimeText(DateTime(value / 512, value / 32 % 16, value % 32, 0, 0, 0, 0), true)
  }

  /** `format_time_from_seconds` */
  function SecondsText(total: int): string {
    var n := if total < 0 then -total else total;
    (if total < 0 then "-" else "") + ClockText(HoursText(n / 3600), n / 60 % 60, n % 60)
  }

  /** The decimal digits of an older DATETIME, two for each field. */
  function PackedDateTime(raw: nat): string {
    DateTimeText(
      DateTime(raw / 10000000000 % 0x1_0000, raw / 100000000 % 100, raw / 1000000 % 100,
               raw / 10000 % 100, raw / 100 % 100, raw % 100, 0),
      false)
  }

  // ---------------------------------------------------------- value readers

  function SignedWidth(columnType: byte): (width: nat)
    ensures width in {0, 1, 2, 3, 4, 8}
  {
    if columnType == TINY then 1
    else if columnType == SHORT then 2
    else if columnType == INT24 then 3
    else if columnType == LONG then 4
    else if columnType == LONGLONG then 8
    else 0
  }

  predicate IsBlob(columnType: byte) {
    columnType in {BLOB, TINY_BLOB, MEDIUM_BLOB, LONG_BLOB, JSON, GEOMETRY}
  }

  predicate IsText(columnType: byte) {
    columnType in {VARCHAR, STRING, VAR_STRING}
  }

  predicate IsTemporal(columnType: byte) {
    columnType in {TIMESTAMP2, DATETIME2, TIME2}
  }

  /** Bytes behind a length of the given width. */
  function TakePrefixed(s: bytes, width: nat): Parsed<bytes> {
    var (length, s1) :- TakeLE(s, width);
    TakeBytes(s1, length)
  }

  function TakeDecimal(s: bytes, metadata: u16): Parsed<string> {
    var precision, scale := metadata / 256, metadata % 256;
    if precision == 0 || scale > precision then Malformed
    else
      var (stored, rest) :- TakeBytes(s, Decimal.ByteCount(precision, scale));
      Parsed(Decimal.Decode(stored, precision, scale), rest)
  }

  /** The bytes of an ENUM or SET value: at least one and at most eight. */
  function EnumWidth(metadata: u16): (width: nat)
    ensures 1 <= width <= 8
  {
    var width := metadata % 256;
    if width == 0 then 1 else if width > 8 then 8 else width
  }

  function BitBytes(metadata: u16): nat {
    ByteLength(metadata / 256 * 8 + metadata % 256)
  }

  function BlobPrefix(metadata: u16): nat {
    if metadata == 0 then 1 else metadata
  }

  function TakeBits(s: bytes, width: nat): Parsed<Value> {
    if width <= 8 then
      var (n, rest) :- TakeBE(s, width);
      Parsed(Unsigned(n), rest)
    else
      var (data, rest) :- TakeBytes(s, width);
      Parsed(Data(data), rest)
  }

  function TakeTemporal(s: bytes, columnType: byte, decimals: nat): Parsed<Value> {
    if columnType == TIMESTAMP2 then
      var (stamp, rest) :- TakeTimestamp2(s, decimals);
      Parsed(Stamp(stamp), rest)
    else if columnType == DATETIME2 then
      var (moment, rest) :- TakeDateTime2(s, decimals);
      Parsed(Moment(moment), rest)
    else
      var (clock, rest) :- TakeTime2(s, decimals);
      Parsed(Clock(clock), rest)
  }

  /** The values of a fixed width. */
  function FixedWidth(columnType: byte): (width: nat)
    ensures width <= 8
  {
    if SignedWidth(columnType) > 0 then SignedWidth(columnType)
    else if columnType == YEAR then 1
    else if columnType in {DATE, NEWDATE, TIME} then 3
    else if columnType in {FLOAT, TIMESTAMP} then 4
    else if columnType in {DOUBLE, DATETIME} then 8
    else 0
  }

  function FixedValueOf(columnType: byte, n: nat): Value {
    if SignedWidth(columnType) > 0 then Integer(Signed(n, SignedWidth(columnType)))
    else if columnType == YEAR then Integer(if n == 0 then 0 else 1900 + n)
    else if columnType == DATE || columnType == NEWDATE then Text(PackedDate(n))
    else if columnType == TIME then Text(SecondsText(Signed(n, 3)))
    else if columnType == TIMESTAMP then Unsigned(n)
    else if columnType == DATETIME then Text(PackedDateTime(n))
    else Float(LittleEndian(n, FixedWidth(columnType)))
  }

  /** `read_binlog_row_value` */
  function TakeValue(s: bytes, columnType: byte, metadata: u16): Parsed<Value> {
    var width := FixedWidth(columnType);
    if width > 0 then
      var (n, rest) :- TakeLE(s, width);
      Parsed(FixedValueOf(columnType, n), rest)
    else if columnType == NEWDECIMAL then
      var (text, rest) :- TakeDecimal(s, metadata);
      Parsed(Text(text), rest)
    else if IsText(columnType) then
      var (data, rest) :- TakePrefixed(s, if metadata > 255 then 2 else 1);
      Parsed(Text(AsText(data)), rest)
    else if columnType == ENUM || columnType == SET then
      var (n, rest) :- TakeLE(s, EnumWidth(metadata));
      Parsed(Unsigned(n), rest)
    else if columnType == BIT then TakeBits(s, BitBytes(metadata))
    else if IsBlob(columnType) then
      if BlobPrefix(metadata) > 8 then Malformed
      else
        var (data, rest) :- TakePrefixed(s, BlobPrefix(metadata));
        Parsed(Data(data), rest)
    else if IsTemporal(columnType) then TakeTemporal(s, columnType, metadata % 256)
    else if columnType == NULL_TYPE then Parsed(Null, s)
    else Malformed
  }

  // ------------------------------------------------- a reader only goes on

  /** What is left of a byte string after something was read from its front. */
  predicate Suffix(rest: bytes, s: bytes) {
    |rest| <= |s| && s[|s| - |rest|..] == rest
  }

  lemma SuffixOfPrefixed(front: bytes, rest: bytes)
    ensures Suffix(rest, front + rest)
  {
  }

  lemma SuffixOfDrop(s: bytes, n: nat)
    requires n <= |s|
    ensures Suffix(s[n..], s)
  {
  }

  lemma SuffixTransitive(a: bytes, b: bytes, c: bytes)
    requires Suffix(a, b) && Suffix(b, c)
    ensures Suffix(a, c)
  {
    var i, j := |c| - |b|, |b| - |a|;
    assert c[i..][j..] == c[i + j..];
  }

  lemma TakeLESuffix(s: bytes, width: nat)
    requires TakeLE(s, width).Parsed?
    ensures Suffix(TakeLE(s, width).rest, s)
  {
    SuffixOfPrefixed(LittleEndian(TakeLE(s, width).value, width), TakeLE(s, width).rest);
  }

  lemma TakeBESuffix(s: bytes, width: nat)
    requires TakeBE(s, width).Parsed?
    ensures Suffix(TakeBE(s, width).rest, s)
  {
    SuffixOfDrop(s, width);
  }

  lemma TakeBytesSuffix(s: bytes, count: nat)
    requires TakeBytes(s, count).Parsed?
    ensures Suffix(TakeBytes(s, count).rest, s)
  {
    SuffixOfPrefixed(TakeBytes(s, count).value, TakeBytes(s, count).rest);
  }

  lemma TakePrefixedSuffix(s: bytes, width: nat)
    requires TakePrefixed(s, width).Parsed?
    ensures Suffix(TakePrefixed(s, width).rest, s)
  {
    hide TakeLE, TakeBytes, Suffix;
    var length := TakeLE(s, width);
    TakeLESuffix(s, width);
    TakeBytesSuffix(length.rest, length.value);
    SuffixTransitive(TakePrefixed(s, width).rest, length.rest, s);
  }

  lemma TakeFractionSuffix(s: bytes, decimals: nat)
    requires TakeFraction(s, decimals).Parsed?
    ensures Suffix(TakeFraction(s, decimals).rest, s)
  {
    hide TakeBE, ScaleUp;
    if FractionBytes(decimals) > 0 {
      TakeBESuffix(s, FractionBytes(decimals));
    }
  }

  lemma TakePackedTimeSuffix(s: bytes, decimals: nat)
    requires TakePackedTime(s, decimals).Parsed?
    ensures Suffix(TakePackedTime(s, decimals).rest, s)
  {
    hide TakeBE, Suffix, Recombine;
    if decimals >= 5 {
      TakeBESuffix(s, 6);
    } else {
      TakeBESuffix(s, 3);
      if decimals > 0 {
        var afterInt := TakeBE(s, 3).rest;
        TakeBESuffix(afterInt, if decimals <= 2 then 1 else 2);
        SuffixTransitive(TakePackedTime(s, decimals).rest, afterInt, s);
      }
    }
  }

  lemma TakeTemporalSuffix(s: bytes, columnType: byte, decimals: nat)
    requires TakeTemporal(s, columnType, decimals).Parsed?
    ensures Suffix(TakeTemporal(s, columnType, decimals).rest, s)
  {
    hide TakeBE, Suffix, TakeFraction, TakePackedTime, TimeOf, DateTimeOf;
    if columnType == TIMESTAMP2 || columnType == DATETIME2 {
      var width := if columnType == TIMESTAMP2 then 4 else 5;
      var first := TakeBE(s, width);
      TakeBESuffix(s, width);
      TakeFractionSuffix(first.rest, decimals);
      SuffixTransitive(TakeFraction(first.rest, decimals).rest, first.rest, s);
    } else {
      TakePackedTimeSuffix(s, decimals);
    }
  }

  lemma TakeValueSuffix(s: bytes, columnType: byte, metadata: u16)
    requires TakeValue(s, columnType, metadata).Parsed?
    ensures Suffix(TakeValue(s, columnType, metadata).rest, s)
  {
    hide TakeLE, TakeBE, TakeBytes, TakePrefixed, TakeTemporal, FixedValueOf, AsText;
    if FixedWidth(columnType) > 0 {
      TakeLESuffix(s, FixedWidth(columnType));
    } else if columnType == NEWDECIMAL {
      TakeBytesSuffix(s, Decimal.ByteCount(metadata / 256, metadata % 256));
    } else if IsText(columnType) {
      TakePrefixedSuffix(s, if metadata > 255 then 2 else 1);
    } else if columnType == ENUM || columnType == SET {
      TakeLESuffix(s, EnumWidth(metadata));
    } else if columnType == BIT {
      if BitBytes(metadata) <= 8 {
        TakeBESuffix(s, BitBytes(metadata));
      } else {
        TakeBytesSuffix(s, BitBytes(metadata));
      }
    } else if IsBlob(columnType) {
      TakePrefixedSuffix(s, BlobPrefix(metadata));
    } else if IsTemporal(columnType) {
      TakeTemporalSuffix(s, columnType, metadata % 256);
    }
  }

  // ------------------------------------------------------------ stored forms

  /** `form` is a stored form of `v`: wherever it stands, reading a value there gives
      `v` and stops behind the form. */
  ghost predicate Stores(form: bytes, columnType: byte, metadata: u16, v: Value) {
    forall rest: bytes :: TakeValue(form + rest, columnType, metadata) == Parsed(v, rest)
  }

  lemma StoresInteger(n: int, columnType: byte, metadata: u16)
    requires SignedWidth(columnType) > 0 && InRange(n, SignedWidth(columnType), false)
    ensures var width := SignedWidth(columnType);
      Stores(LittleEndian(n % Pow256(width), width), columnType, metadata, Integer(n))
  {
    hide TakeLE, LittleEndian, Pow256;
    var width := SignedWidth(columnType);
    WrapExact(n, width, false);
    forall rest: bytes
      ensures TakeValue(LittleEndian(n % Pow256(width), width) + rest, columnType, metadata) == Parsed(Integer(n), rest)
    {
      TakeLEInverse(n % Pow256(width), width, rest);
    }
  }

  /** A value of fixed width is stored by its little-endian bytes. */
  lemma StoresFixed(n: nat, columnType: byte, metadata: u16)
    requires FixedWidth(columnType) > 0 && n < Pow256(FixedWidth(columnType))
    ensures Stores(LittleEndian(n, FixedWidth(columnType)), columnType, metadata, FixedValueOf(columnType, n))
  {
    hide TakeLE, LittleEndian, Pow256, FixedValueOf;
    var width := FixedWidth(columnType);
    forall rest: bytes
      ensures TakeValue(LittleEndian(n, width) + rest, columnType, metadata) == Parsed(FixedValueOf(columnType, n), rest)
    {
      TakeLEInverse(n, width, rest);
    }
  }

  lemma DateFields(year: nat, month: nat, day: nat)
    requires year < 32768 && month < 16 && day < 32
    ensures var n := (year * 16 + month) * 32 + day;
      n < 0x100_0000 && n / 512 == year && n / 32 % 16 == month && n % 32 == day
  {
    var n := (year * 16 + month) * 32 + day;
    assert n / 32 == year * 16 + month;
    assert n / 512 == year;
  }

  /** A DATE packed into 24 bits stores the text of its day. */
  lemma {:induction false} StoresDate(year: nat, month: nat, day: nat, columnType: byte, metadata: u16)
    requires year < 32768 && month < 16 && day < 32 && (columnType == DATE || columnType == NEWDATE)
    ensures Stores(LittleEndian((year * 16 + month) * 32 + day, 3), columnType, metadata,
                   Text(DateTimeText(DateTime(year, month, day, 0, 0, 0, 0), true)))
  {
    hide DateTimeText, LittleEndian, Stores;
    DateFields(year, month, day);
    Pow256Values();
    StoresFixed((year * 16 + month) * 32 + day, columnType, metadata);
  }

  lemma QuotientIs(n: nat, unit: nat, high: nat, low: nat)
    requires unit > 0 && low < unit && n == high * unit + low
    ensures n / unit == high
  {
    var q, r := n / unit, n % unit;
    assert (q - high) * unit == low - r;
    NoMultiple(q - high, unit, low - r);
  }

  lemma NoMultiple(k: int, unit: int, difference: int)
    requires k * unit == difference && -unit < difference < unit
    ensures k == 0
  {
    if k >= 1 {
      Products(k, unit);
    } else if k <= -1 {
      Products(-k, unit);
    }
  }

  lemma Products(a: int, b: int)
    requires a >= 1 && b >= 0
    ensures a * b >= b
  {
  }

  /** The decimal digits of an older DATETIME. */
  function DateTimeDigits(d: DateTime): nat {
    ((((d.year * 100 + d.month) * 100 + d.day) * 100 + d.hour) * 100 + d.minute) * 100 + d.second
  }

  lemma DecimalFields(year: nat, month: nat, day: nat, hour: nat, minute: nat, second: nat)
    requires month < 100 && day < 100 && hour < 100 && minute < 100 && second < 100
    ensures var n := ((((year * 100 + month) * 100 + day) * 100 + hour) * 100 + minute) * 100 + second;
      && n / 10000000000 == year && n / 100000000 % 100 == month && n / 1000000 % 100 == day
      && n / 10000 % 100 == hour && n / 100 % 100 == minute && n % 100 == second
  {
    var n1 := year * 100 + month;
    var n2 := n1 * 100 + day;
    var n3 := n2 * 100 + hour;
    var n4 := n3 * 100 + minute;
    var n := n4 * 100 + second;
    QuotientIs(n, 100, n4, second);
    QuotientIs(n, 10000, n3, minute * 100 + second);
    QuotientIs(n, 1000000, n2, (hour * 100 + minute) * 100 + second);
    QuotientIs(n, 100000000, n1, ((day * 100 + hour) * 100 + minute) * 100 + second);
    QuotientIs(n, 10000000000, year, (((month * 100 + day) * 100 + hour) * 100 + minute) * 100 + second);
  }

  lemma DateTimeDigitsBound(d: DateTime)
    requires Canonical(d)
    ensures DateTimeDigits(d) < U64
  {
  }

  /** The text of a number whose decimal digits are these fields. */
  lemma DigitsShow(n: nat, d: DateTime)
    requires n / 10000000000 == d.year < 0x1_0000 && n / 100000000 % 100 == d.month && n / 1000000 % 100 == d.day
    requires n / 10000 % 100 == d.hour && n / 100 % 100 == d.minute && n % 100 == d.second && d.micros == 0
    ensures PackedDateTime(n) == DateTimeText(d, false)
  {
    hide DateTimeText;
    SmallModulo(d.year, 0x1_0000);
  }

  lemma DateTimeDigitFields(d: DateTime)
    requires Canonical(d) && d.micros == 0
    ensures PackedDateTime(DateTimeDigits(d)) == DateTimeText(d, false)
  {
    hide DateTimeText, PackedDateTime;
    DecimalFields(d.year, d.month, d.day, d.hour, d.minute, d.second);
    DigitsShow(DateTimeDigits(d), d);
  }

  /** An older DATETIME stores the text of its fields. */
  lemma StoresDateTime(d: DateTime, metadata: u16)
    requires Canonical(d) && d.micros == 0
    ensures Stores(LittleEndian(DateTimeDigits(d), 8), DATETIME, metadata, Text(DateTimeText(d, false)))
  {
    hide DateTimeText, LittleEndian, Stores, DateTimeDigits, PackedDateTime;
    DateTimeDigitFields(d);
    DateTimeDigitsBound(d);
    Pow256Values();
    StoresFixed(DateTimeDigits(d), DATETIME, metadata);
  }

  /** The text of an older TIME denotes the number of seconds it was stored as. */
  lemma SecondsDenoted(total: int)
    requires -0x80_0000 <= total < 0x80_0000
    ensures var t := ParseTime(SecondsText(total));
      && t.Ok? && (t.value.negative <==> total < 0) && t.value.micros == 0
      && t.value.minutes < 60 && t.value.seconds < 60
      && (t.value.hours * 60 + t.value.minutes) * 60 + t.value.seconds == if total < 0 then -total else total
  {
    hide ParseTime, ClockText, ValueOf, ToText, Fixed;
    var n := if total < 0 then -total else total;
    var t := Time(total < 0, n / 3600, n / 60 % 60, n % 60, 0);
    NoFraction();
    HoursDenoted(n / 3600);
    TimeRoundTrip(t, HoursText(n / 3600));
    assert SecondsText(total) == TimeTextWith(t, HoursText(n / 3600));
    assert n / 3600 == n / 60 / 60;
  }

  lemma HoursDenoted(hours: nat)
    ensures ValueOf(HoursText(hours)) == hours
  {
    if hours < 100 {
      Pow10Values();
      FixedValue(hours, 2);
    } else {
      ToTextValue(hours);
    }
  }

  /** ENUM and SET values, and bit fields of up to eight bytes, store their number. */
  lemma StoresNumber(n: nat, columnType: byte, metadata: u16)
    requires columnType == ENUM || columnType == SET || (columnType == BIT && BitBytes(metadata) <= 8)
    requires n < Pow256(if columnType == BIT then BitBytes(metadata) else EnumWidth(metadata))
    ensures Stores(if columnType == BIT then BigEndian(n, BitBytes(metadata)) else LittleEndian(n, EnumWidth(metadata)),
                   columnType, metadata, Unsigned(n))
  {
    hide TakeLE, TakeBE, LittleEndian, BigEndian, Pow256, EnumWidth, BitBytes;
    var form := if columnType == BIT then BigEndian(n, BitBytes(metadata)) else LittleEndian(n, EnumWidth(metadata));
    forall rest: bytes ensures TakeValue(form + rest, columnType, metadata) == Parsed(Unsigned(n), rest) {
      if columnType == BIT {
        TakeBEInverse(n, BitBytes(metadata), rest);
      } else {
        TakeLEInverse(n, EnumWidth(metadata), rest);
      }
    }
  }

  lemma TextTaken(s: bytes, columnType: byte, metadata: u16)
    requires IsText(columnType)
    ensures TakeValue(s, columnType, metadata) ==
      match TakePrefixed(s, if metadata > 255 then 2 else 1)
      case Malformed => Malformed
      case Parsed(data, rest) => Parsed(Text(AsText(data)), rest)
  {
    hide TakePrefixed, AsText;
  }

  lemma StoresText(s: bytes, columnType: byte, metadata: u16)
    requires IsText(columnType) && |s| < (if metadata > 255 then 0x1_0000 else 0x100)
    ensures Stores(LittleEndian(|s|, if metadata > 255 then 2 else 1) + s, columnType, metadata, Text(AsText(s)))
  {
    hide TakeValue, TakePrefixed, LittleEndian, AsText, IsText;
    var width := if metadata > 255 then 2 else 1;
    Pow256Values();
    forall rest: bytes
      ensures TakeValue(LittleEndian(|s|, width) + s + rest, columnType, metadata) == Parsed(Text(AsText(s)), rest)
    {
      PrefixedExact(s, width, rest);
      TextTaken(LittleEndian(|s|, width) + s + rest, columnType, metadata);
    }
  }

  lemma {:induction false} PrefixedExact(s: bytes, width: nat, rest: bytes)
    requires |s| < Pow256(width)
    ensures TakePrefixed(LittleEndian(|s|, width) + s + rest, width) == Parsed(s, rest)
  {
    hide TakeLE, LittleEndian, TakeBytes;
    Concat3(LittleEndian(|s|, width), s, rest);
    TakeLEInverse(|s|, width, s + rest);
    TakeBytesInverse(s, rest);
  }

  lemma {:induction false} StoresBlob(s: bytes, columnType: byte, metadata: u16)
    requires IsBlob(columnType) && BlobPrefix(metadata) <= 8 && |s| < Pow256(BlobPrefix(metadata))
    ensures Stores(LittleEndian(|s|, BlobPrefix(metadata)) + s, columnType, metadata, Data(s))
  {
    hide TakeLE, LittleEndian, TakeBytes;
    var width := BlobPrefix(metadata);
    forall rest: bytes
      ensures TakeValue(LittleEndian(|s|, width) + s + rest, columnType, metadata) == Parsed(Data(s), rest)
    {
      PrefixedExact(s, width, rest);
    }
  }

  /** A packed DECIMAL stores its sign and digits. */
  lemma StoresDecimal(negative: bool, intDigits: string, fracDigits: string)
    requires AllDigits(intDigits) && AllDigits(fracDigits) && 0 < |intDigits| + |fracDigits| < 256
    ensures Stores(Decimal.Pack(negative, intDigits, fracDigits), NEWDECIMAL,
                   (|intDigits| + |fracDigits|) * 256 + |fracDigits|,
                   Text((if negative then "-" else "") + Decimal.Shown(intDigits)
                        + (if fracDigits == "" then "" else "." + fracDigits)))
  {
    hide Decimal.Pack, Decimal.Decode, Decimal.Shown, TakeBytes, Decimal.ByteCount;
    var precision, scale := |intDigits| + |fracDigits|, |fracDigits|;
    var metadata := precision * 256 + scale;
    assert metadata / 256 == precision && metadata % 256 == scale;
    var form := Decimal.Pack(negative, intDigits, fracDigits);
    Decimal.DecimalExact(negative, intDigits, fracDigits);
    var text := Decimal.Decode(form, precision, scale);
    forall rest: bytes
      ensures TakeValue(form + rest, NEWDECIMAL, metadata) == Parsed(Text(text), rest)
    {
      TakeBytesInverse(form, rest);
    }
  }

  /** A stored TIME2 of any precision stores its time. */
  lemma StoresTime2(t: Time, decimals: nat)
    requires decimals <= 6 && t.Valid(decimals) && (t.negative ==> !t.Zero())
    ensures -(INT_OFFSET * FRACTION_BASE) <= t.Packed() < INT_OFFSET * FRACTION_BASE
    ensures Stores(StoredTime(t.Packed(), decimals), TIME2, decimals, Clock(t))
  {
    hide TakeTime2, StoredTime;
    PackedRange(t, decimals);
    var form := StoredTime(t.Packed(), decimals);
    forall rest: bytes
      ensures TakeValue(form + rest, TIME2, decimals) == Parsed(Clock(t), rest)
    {
      Time2Exact(t, decimals, rest);
    }
  }

  /** A DATETIME2 stores its date and time exactly when its precision is even or it
      has no fraction. */
  lemma StoresDateTime2(d: DateTime, decimals: nat)
    requires decimals <= 6 && d.Valid(decimals)
    ensures Stores(StoredDateTime(d, decimals), DATETIME2, decimals, Moment(d)) <==> decimals % 2 == 0 || d.micros == 0
  {
    hide TakeDateTime2, StoredDateTime;
    var form := StoredDateTime(d, decimals);
    forall rest: bytes
      ensures TakeValue(form + rest, DATETIME2, decimals) == Parsed(Moment(d), rest) <==> decimals % 2 == 0 || d.micros == 0
    {
      DateTime2Exact(d, decimals, rest);
    }
    assert form + [] == form;
    assert TakeValue(form + [], DATETIME2, decimals) == Parsed(Moment(d), []) <==> decimals % 2 == 0 || d.micros == 0;
  }

  // ------------------------------------------------------------- the reader

  /** `read_binlog_row_value` */
  method ReadValue(cursor: PacketCursor, columnType: byte, metadata: u16) returns (r: Result<Value, ()>)
    requires cursor.Valid()
    modifies cursor`offset
    ensures cursor.Valid() && old(cursor.offset) <= cursor.offset
    ensures r.Err? <==> TakeValue(old(cursor.Rest()), columnType, metadata).Malformed?
    ensures r.Ok? ==> TakeValue(old(cursor.Rest()), columnType, metadata) == Parsed(r.value, cursor.Rest())
  {
    hide TakeLE, TakeBE, TakeBytes, FixedValueOf, TakeTimestamp2, TakeDateTime2, TakeTime2, AsText,
      Decimal.Decode, Decimal.ByteCount, ByteLength;
    var width := FixedWidth(columnType);
    if width > 0 {
      var n :- cursor.ReadLE(width);
      return Ok(FixedValueOf(columnType, n));
    }
    if columnType == NEWDECIMAL {
      var text :- Decimal.ReadNewDecimal(cursor, metadata);
      return Ok(Text(text));
    }
    if IsText(columnType) {
      var length :- cursor.ReadLE(if metadata > 255 then 2 else 1);
      var data :- cursor.ReadBuffer(length);
      return Ok(Text(AsText(data)));
    }
    if columnType == ENUM || columnType == SET {
      var n :- cursor.ReadLE(EnumWidth(metadata));
      return Ok(Unsigned(n));
    }
    if columnType == BIT {
      r := ReadBits(cursor, BitBytes(metadata));
      return;
    }
    if IsBlob(columnType) {
      if BlobPrefix(metadata) > 8 {
        return Err(());
      }
      var length :- cursor.ReadLE(BlobPrefix(metadata));
      var data :- cursor.ReadBuffer(length);
      return Ok(Data(data));
    }
    if IsTemporal(columnType) {
      r := ReadTemporal(cursor, columnType, metadata % 256);
      return;
    }
    r := if columnType == NULL_TYPE then Ok(Null) else Err(());
  }

  method ReadBits(cursor: PacketCursor, width: nat) returns (r: Result<Value, ()>)
    requires cursor.Valid()
    modifies cursor`offset
    ensures cursor.Valid() && old(cursor.offset) <= cursor.offset
    ensures r.Err? <==> TakeBits(old(cursor.Rest()), width).Malformed?
    ensures r.Ok? ==> TakeBits(old(cursor.Rest()), width) == Parsed(r.value, cursor.Rest())
  {
    if width <= 8 {
      var n :- cursor.ReadBE(width);
      return Ok(Unsigned(n));
    }
    var data :- cursor.ReadBuffer(width);
    r := Ok(Data(data));
  }

  method ReadTemporal(cursor: PacketCursor, columnType: byte, decimals: nat) returns (r: Result<Value, ()>)
    requires cursor.Valid()
    modifies cursor`offset
    ensures cursor.Valid() && old(cursor.offset) <= cursor.offset
    ensures r.Err? <==> TakeTemporal(old(cursor.Rest()), columnType, decimals).Malformed?
    ensures r.Ok? ==> TakeTemporal(old(cursor.Rest()), columnType, decimals) == Parsed(r.value, cursor.Rest())
  {
    hide TakeTimestamp2, TakeDateTime2, TakeTime2;
    if columnType == TIMESTAMP2 {
      var stamp :- ReadTimestamp2(cursor, decimals);
      r := Ok(Stamp(stamp));
    } else if columnType == DATETIME2 {
      var moment :- ReadDateTime2(cursor, decimals);
      r := Ok(Moment(moment));
    } else {
      var clock :- ReadTime2(cursor, decimals);
      r := Ok(Clock(clock));
    }
  }
}
