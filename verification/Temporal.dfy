/** The temporal columns of row events: TIME2, DATETIME2, TIMESTAMP2 and the
    fractional seconds behind them. */
module Temporal {
  import opened Bytes

  // --------------------------------------------------- fractional seconds

  /** `fractional_second_storage_bytes` */
  function FractionBytes(decimals: nat): (width: nat)
    ensures width <= 3
  {
    if decimals == 0 then 0 else if decimals <= 2 then 1 else if decimals <= 4 then 2 else 3
  }

  /** The microseconds that one unit of the stored fraction stands for: digits are
      stored in pairs. */
  function FractionUnit(decimals: nat): (unit: nat)
    ensures unit >= 1
  {
    if decimals == 0 then 1000000 else if decimals <= 2 then 10000 else if decimals <= 4 then 100 else 1
  }

  /** Microseconds that a column with this precision can store. */
  predicate Storable(micros: nat, decimals: nat) {
    micros < 1000000 && micros % FractionUnit(decimals) == 0
  }

  function StoredFraction(micros: nat, decimals: nat): bytes {
    BigEndian(micros / FractionUnit(decimals), FractionBytes(decimals))
  }

  function ScaleUp(value: nat, steps: nat): nat
    decreases steps
  {
    if steps == 0 then value else ScaleUp(10 * value, steps - 1)
  }

  /** `read_temporal_fraction`, which scales by one power of ten for every missing
      decimal; precisions above 6 are refused. */
  function TakeFraction(s: bytes, decimals: nat): Parsed<nat> {
    if decimals > 6 then Malformed
    else if FractionBytes(decimals) == 0 then Parsed(0, s)
    else
      var (value, rest) :- TakeBE(s, FractionBytes(decimals));
      Parsed(ScaleUp(value, 6 - decimals), rest)
  }

  method ReadTemporalFraction(cursor: PacketCursor, decimals: nat) returns (r: Result<nat, ()>)
    requires cursor.Valid()
    modifies cursor`offset
    ensures cursor.Valid() && old(cursor.offset) <= cursor.offset
    ensures r.Err? <==> TakeFraction(old(cursor.Rest()), decimals).Malformed?
    ensures r.Ok? ==> TakeFraction(old(cursor.Rest()), decimals) == Parsed(r.value, cursor.Rest())
  {
    if decimals > 6 {
      return Err(());
    }
    if FractionBytes(decimals) == 0 {
      return Ok(0);
    }
    var value :- cursor.ReadBE(FractionBytes(decimals));
    var i := decimals;
    ghost var raw := value;
    while i < 6
      modifies {}
      invariant decimals <= i <= 6 && ScaleUp(raw, 6 - decimals) == ScaleUp(value, 6 - i)
    {
      value := value * 10;
      i := i + 1;
    }
    r := Ok(value);
  }

  lemma ScaleValues(value: nat)
    ensures ScaleUp(value, 0) == value && ScaleUp(value, 1) == 10 * value && ScaleUp(value, 2) == 100 * value
    ensures ScaleUp(value, 3) == 1000 * value && ScaleUp(value, 4) == 10000 * value && ScaleUp(value, 5) == 100000 * value
  {
    assert ScaleUp(value, 1) == ScaleUp(10 * value, 0);
    assert ScaleUp(value, 2) == ScaleUp(10 * value, 1) == ScaleUp(100 * value, 0);
    assert ScaleUp(value, 3) == ScaleUp(10 * value, 2) == ScaleUp(100 * value, 1) == ScaleUp(1000 * value, 0);
    assert ScaleUp(value, 4) == ScaleUp(10 * value, 3) == ScaleUp(100 * value, 2) == ScaleUp(1000 * value, 1) == ScaleUp(10000 * value, 0);
    assert ScaleUp(value, 5) == ScaleUp(10 * value, 4) == ScaleUp(100 * value, 3) == ScaleUp(1000 * value, 2)
        == ScaleUp(10000 * value, 1) == ScaleUp(100000 * value, 0);
  }

  lemma FractionFits(micros: nat, decimals: nat)
    requires 0 < decimals <= 6 && Storable(micros, decimals)
    ensures FractionBytes(decimals) > 0 && micros / FractionUnit(decimals) < Pow256(FractionBytes(decimals))
  {
    Pow256Values();
  }

  lemma ScaledBack(micros: nat, decimals: nat)
    requires 0 < decimals <= 6 && Storable(micros, decimals)
    ensures ScaleUp(micros / FractionUnit(decimals), 6 - decimals) == if decimals % 2 == 0 then micros else 10 * micros
  {
    hide ScaleUp;
    ScaleValues(micros / FractionUnit(decimals));
  }

  /** What the reader makes of a stored fraction: right for even precisions, ten
      times too much for odd ones, and so right exactly when the precision is even
      or the fraction is zero. */
  lemma FractionExact(micros: nat, decimals: nat, rest: bytes)
    requires decimals <= 6 && Storable(micros, decimals)
    ensures TakeFraction(StoredFraction(micros, decimals) + rest, decimals)
         == Parsed(if decimals % 2 == 0 then micros else 10 * micros, rest)
  {
    if decimals == 0 {
      assert micros == 0;
      assert StoredFraction(micros, decimals) + rest == rest;
    } else {
      var value := micros / FractionUnit(decimals);
      FractionFits(micros, decimals);
      ScaledBack(micros, decimals);
      hide BigEndian, TakeBE, ScaleUp, FractionUnit, FractionBytes, Storable;
      TakeBEInverse(value, FractionBytes(decimals), rest);
    }
  }

  // ------------------------------------------------------------------ TIME2

  datatype Time = Time(negative: bool, hours: nat, minutes: nat, seconds: nat, micros: nat) {
    predicate Valid(decimals: nat) {
      hours <= 1023 && minutes <= 59 && seconds <= 59 && Storable(micros, decimals)
    }

    predicate Zero() {
      hours == 0 && minutes == 0 && seconds == 0 && micros == 0
    }

    /** The hours, minutes and seconds packed into 22 bits. */
    function Clock(): nat {
      (hours * 64 + minutes) * 64 + seconds
    }

    /** The signed packed value: the clock above 24 bits of microseconds. */
    function Packed(): int {
      var magnitude := Clock() * FRACTION_BASE + micros;
      if negative then -magnitude else magnitude
    }
  }

  const FRACTION_BASE: nat := 0x100_0000
  const INT_OFFSET: nat := 0x80_0000
  const FULL_OFFSET: nat := 0x8000_0000_0000

  /** The remainder with the sign of the dividend. */
  function TruncatedFraction(packed: int): int {
    if packed >= 0 then packed % FRACTION_BASE else -((-packed) % FRACTION_BASE)
  }

  /** The stored form of a packed time: the integer part rounded down and biased,
      then the fraction in two's complement; with five or six decimals the whole
      value biased. */
  function StoredTime(packed: int, decimals: nat): bytes
    requires -(INT_OFFSET * FRACTION_BASE) <= packed < INT_OFFSET * FRACTION_BASE
  {
    if decimals >= 5 then BigEndian(packed + FULL_OFFSET, 6)
    else
      BigEndian(packed / FRACTION_BASE + INT_OFFSET, 3) +
      (if decimals == 0 then []
       else if decimals <= 2 then BigEndian(SignedQuotient(TruncatedFraction(packed), 10000) % 0x100, 1)
       else BigEndian(SignedQuotient(TruncatedFraction(packed), 100) % 0x1_0000, 2))
  }

  function SignedQuotient(n: int, d: nat): int
    requires d > 0
  {
    if n >= 0 then n / d else -((-n) / d)
  }

  /** `read_binlog_time2_packed` */
  function TakePackedTime(s: bytes, decimals: nat): Parsed<int> {
    if decimals > 6 then Malformed
    else if decimals >= 5 then
      var (value, rest) :- TakeBE(s, 6);
      Parsed(value - FULL_OFFSET, rest)
    else
      var (intPart, afterInt) :- TakeBE(s, 3);
      if decimals == 0 then Parsed((intPart - INT_OFFSET) * FRACTION_BASE, afterInt)
      else
        var width := if decimals <= 2 then 1 else 2;
        var (fraction, rest) :- TakeBE(afterInt, width);
        Parsed(Recombine(intPart - INT_OFFSET, fraction, width), rest)
  }

  /** A negative time with a fraction has its integer part one too low and its
      fraction in two's complement. */
  function Recombine(intPart: int, fraction: nat, width: nat): int {
    var base := if width == 1 then 0x100 else 0x1_0000;
    var unit := if width == 1 then 10000 else 100;
    if intPart < 0 && fraction != 0 then (intPart + 1) * FRACTION_BASE + (fraction - base) * unit
    else intPart * FRACTION_BASE + fraction * unit
  }

  /** The fields that `read_binlog_time2` cuts out of the packed value. */
  function TimeOf(packed: int): Time {
    var raw := if packed < 0 then -packed else packed;
    var hms := raw / FRACTION_BASE;
    Time(packed < 0, hms / 4096 % 1024, hms / 64 % 64, hms % 64, raw % FRACTION_BASE)
  }

  function TakeTime2(s: bytes, decimals: nat): Parsed<Time> {
    var (packed, rest) :- TakePackedTime(s, decimals);
    Parsed(TimeOf(packed), rest)
  }

  lemma PackedRange(t: Time, decimals: nat)
    requires t.Valid(decimals)
    ensures 0 <= t.Clock() < 0x40_0000
    ensures t.Clock() * FRACTION_BASE + t.micros < INT_OFFSET * FRACTION_BASE
  {
  }

  lemma TimeOfPacked(t: Time, decimals: nat)
    requires t.Valid(decimals)
    ensures TimeOf(t.Packed()) == if t.Zero() then t.(negative := false) else t
  {
    PackedRange(t, decimals);
    var raw := t.Clock() * FRACTION_BASE + t.micros;
    assert raw / FRACTION_BASE == t.Clock() && raw % FRACTION_BASE == t.micros;
    ClockFields(t.hours, t.minutes, t.seconds);
    assert raw == 0 <==> t.Zero();
  }

  lemma ClockFields(hours: nat, minutes: nat, seconds: nat)
    requires hours <= 1023 && minutes <= 59 && seconds <= 59
    ensures var hms := (hours * 64 + minutes) * 64 + seconds;
      hms / 4096 % 1024 == hours && hms / 64 % 64 == minutes && hms % 64 == seconds
  {
    var hms := (hours * 64 + minutes) * 64 + seconds;
    assert hms / 64 == hours * 64 + minutes;
    assert hms / 4096 == hours;
  }

  lemma FloorUnique(n: int, quotient: int, remainder: int)
    requires n == quotient * FRACTION_BASE + remainder && 0 <= remainder < FRACTION_BASE
    ensures n / FRACTION_BASE == quotient && n % FRACTION_BASE == remainder
  {
  }

  /** Floor division and its complement: what the biased parts of a value are. */
  lemma FloorParts(clock: int, micros: int, negative: bool)
    requires 0 <= clock && 0 <= micros < FRACTION_BASE
    ensures var packed := if negative then -(clock * FRACTION_BASE + micros) else clock * FRACTION_BASE + micros;
      && packed / FRACTION_BASE == (if !negative then clock else if micros == 0 then -clock else -clock - 1)
      && TruncatedFraction(packed) == (if negative then -micros else micros)
  {
    var magnitude := clock * FRACTION_BASE + micros;
    FloorUnique(magnitude, clock, micros);
    if negative && micros > 0 {
      FloorUnique(-magnitude, -clock - 1, FRACTION_BASE - micros);
    } else if negative {
      FloorUnique(-magnitude, -clock, 0);
    }
  }

  /** The stored fraction of one to four decimals: hundredths or ten-thousandths in
      two's complement. */
  lemma NarrowFraction(t: Time, decimals: nat, k: int)
    requires 1 <= decimals <= 4 && t.Valid(decimals)
    requires k == t.micros / FractionUnit(decimals)
    ensures var unit := FractionUnit(decimals);
      var base := if decimals <= 2 then 0x100 else 0x1_0000;
      && t.micros == k * unit && 0 <= k < base
      && SignedQuotient(TruncatedFraction(t.Packed()), unit) == if t.negative then -k else k
  {
    PackedRange(t, decimals);
    FloorParts(t.Clock(), t.micros, t.negative);
    var unit := FractionUnit(decimals);
    assert (k * unit) / unit == k;
  }

  lemma NarrowTime(t: Time, decimals: nat, rest: bytes)
    requires 1 <= decimals <= 4 && t.Valid(decimals)
    ensures TakePackedTime(StoredTime(t.Packed(), decimals) + rest, decimals) == Parsed(t.Packed(), rest)
  {
    hide BigEndian, Recombine, TruncatedFraction, SignedQuotient, TakeBE;
    PackedRange(t, decimals);
    var packed := t.Packed();
    var width := if decimals <= 2 then 1 else 2;
    var base := if width == 1 then 0x100 else 0x1_0000;
    var k: int := t.micros / FractionUnit(decimals);
    NarrowFraction(t, decimals, k);
    var fraction := (if t.negative then -k else k) % base;
    var intPart := packed / FRACTION_BASE + INT_OFFSET;
    assert 0 <= intPart < Pow256(3) && fraction < Pow256(width) by { Pow256Values(); }
    assert StoredTime(packed, decimals) == BigEndian(intPart, 3) + BigEndian(fraction, width);
    Concat3(BigEndian(intPart, 3), BigEndian(fraction, width), rest);
    TakeBEInverse(intPart, 3, BigEndian(fraction, width) + rest);
    TakeBEInverse(fraction, width, rest);
    Recombined(t, k, width);
  }

  lemma Recombined(t: Time, k: int, width: nat)
    requires width in {1, 2} && t.micros < 1000000 && 0 <= k
    requires t.micros == k * (if width == 1 then 10000 else 100)
    ensures var base := if width == 1 then 0x100 else 0x1_0000;
      var fraction := (if t.negative then -k else k) % base;
      Recombine(t.Packed() / FRACTION_BASE, fraction, width) == t.Packed()
  {
    FloorParts(t.Clock(), t.micros, t.negative);
    var base := if width == 1 then 0x100 else 0x1_0000;
    if t.negative && k > 0 {
      assert (-k) % base == base - k;
    }
  }

  lemma PackedTimeExact(t: Time, decimals: nat, rest: bytes)
    requires decimals <= 6 && t.Valid(decimals)
    ensures TakePackedTime(StoredTime(t.Packed(), decimals) + rest, decimals) == Parsed(t.Packed(), rest)
  {
    hide BigEndian, TakeBE, TruncatedFraction, SignedQuotient;
    PackedRange(t, decimals);
    var packed := t.Packed();
    if decimals >= 5 {
      assert packed + FULL_OFFSET < Pow256(6) by { Pow256Values(); }
      TakeBEInverse(packed + FULL_OFFSET, 6, rest);
    } else if decimals == 0 {
      FloorParts(t.Clock(), t.micros, t.negative);
      var intPart := packed / FRACTION_BASE + INT_OFFSET;
      assert intPart < Pow256(3) by { Pow256Values(); }
      assert BigEndian(intPart, 3) + [] == BigEndian(intPart, 3);
      TakeBEInverse(intPart, 3, rest);
    } else {
      NarrowTime(t, decimals, rest);
    }
  }

  /** Decoding a stored TIME2 gives the sign and every field back, for every
      precision; only a negative zero comes back positive. */
  lemma Time2Exact(t: Time, decimals: nat, rest: bytes)
    requires decimals <= 6 && t.Valid(decimals)
    ensures TakeTime2(StoredTime(t.Packed(), decimals) + rest, decimals)
         == Parsed(if t.Zero() then t.(negative := false) else t, rest)
  {
    PackedTimeExact(t, decimals, rest);
    TimeOfPacked(t, decimals);
    hide TakePackedTime, TimeOf, StoredTime;
  }

  method ReadTime2(cursor: PacketCursor, decimals: nat) returns (r: Result<Time, ()>)
    requires cursor.Valid()
    modifies cursor`offset
    ensures cursor.Valid() && old(cursor.offset) <= cursor.offset
    ensures r.Err? <==> TakeTime2(old(cursor.Rest()), decimals).Malformed?
    ensures r.Ok? ==> TakeTime2(old(cursor.Rest()), decimals) == Parsed(r.value, cursor.Rest())
  {
    if decimals > 6 {
      return Err(());
    }
    var packed: int;
    if decimals >= 5 {
      var value :- cursor.ReadBE(6);
      packed := value - FULL_OFFSET;
    } else {
      var value :- cursor.ReadBE(3);
      var intPart := value - INT_OFFSET;
      if decimals == 0 {
        packed := intPart * FRACTION_BASE;
      } else {
        var width := if decimals <= 2 then 1 else 2;
        var fraction :- cursor.ReadBE(width);
        packed := Recombine(intPart, fraction, width);
      }
    }
    r := Ok(TimeOf(packed));
  }

  // -------------------------------------------------------------- DATETIME2

  datatype DateTime = DateTime(year: nat, month: nat, day: nat, hour: nat, minute: nat, second: nat, micros: nat) {
    predicate Valid(decimals: nat) {
      && year <= 9999 && month <= 12 && day <= 31 && hour <= 23 && minute <= 59 && second <= 59
      && Storable(micros, decimals)
    }

    /** Year and month to base 13, the day, and the time of day. */
    function Packed(): nat {
      ((year * 13 + month) * 32 + day) * 131072 + (hour * 64 + minute) * 64 + second
    }
  }

  const DATE_OFFSET: nat := 0x80_0000_0000

  function StoredDateTime(d: DateTime, decimals: nat): bytes {
    BigEndian(d.Packed() + DATE_OFFSET, 5) + StoredFraction(d.micros, decimals)
  }

  /** The fields that `read_binlog_datetime2` cuts out; shifts of a negative value
      round down. */
  function DateTimeOf(packed: int, micros: nat): DateTime {
    var date, time := packed / 131072, packed % 131072;
    var yearMonth := date / 32;
    DateTime(Low16(TruncatedQuotient(yearMonth, 13)), Low8(TruncatedRemainder(yearMonth, 13)),
             date % 32, time / 4096 % 32, time / 64 % 64, time % 64, micros)
  }

  function TruncatedQuotient(n: int, d: nat): int
    requires d > 0
  {
    SignedQuotient(n, d)
  }

  function TruncatedRemainder(n: int, d: nat): int
    requires d > 0
  {
    n - d * SignedQuotient(n, d)
  }

  function Low16(n: int): nat {
    n % 0x1_0000
  }

  function Low8(n: int): nat {
    n % 0x100
  }

  /** `read_binlog_datetime2` */
  function TakeDateTime2(s: bytes, decimals: nat): Parsed<DateTime> {
    var (value, afterDate) :- TakeBE(s, 5);
    var (micros, rest) :- TakeFraction(afterDate, decimals);
    Parsed(DateTimeOf(value - DATE_OFFSET, micros), rest)
  }

  lemma TimeOfDay(hour: nat, minute: nat, second: nat)
    requires hour <= 23 && minute <= 59 && second <= 59
    ensures var time := (hour * 64 + minute) * 64 + second;
      && time < 131072
      && time / 4096 % 32 == hour && time / 64 % 64 == minute && time % 64 == second
  {
    var time := (hour * 64 + minute) * 64 + second;
    assert time / 64 == hour * 64 + minute;
    assert time / 4096 == hour;
  }

  lemma SplitTime(date: nat, time: nat)
    requires time < 131072
    ensures (date * 131072 + time) / 131072 == date && (date * 131072 + time) % 131072 == time
  {
  }

  lemma DateTimeFields(d: DateTime, decimals: nat, micros: nat)
    requires d.Valid(decimals)
    ensures d.Packed() < DATE_OFFSET
    ensures DateTimeOf(d.Packed(), micros) == d.(micros := micros)
  {
    hide TruncatedQuotient, TruncatedRemainder;
    var time := (d.hour * 64 + d.minute) * 64 + d.second;
    var date := (d.year * 13 + d.month) * 32 + d.day;
    TimeOfDay(d.hour, d.minute, d.second);
    SplitTime(date, time);
    assert d.Packed() == date * 131072 + time;
    YearMonth(d.year, d.month, d.day);
  }

  lemma YearMonth(year: nat, month: nat, day: nat)
    requires year <= 9999 && month <= 12 && day <= 31
    ensures var date := (year * 13 + month) * 32 + day;
      && date / 32 == year * 13 + month && date % 32 == day
      && TruncatedQuotient(date / 32, 13) == year && TruncatedRemainder(date / 32, 13) == month
  {
  }

  /** Within real bounds the packed date stays below the bias, every field comes
      back, and the microseconds come back exactly when the precision is even or
      they are zero. */
  lemma DateTime2Exact(d: DateTime, decimals: nat, rest: bytes)
    requires decimals <= 6 && d.Valid(decimals)
    ensures d.Packed() < DATE_OFFSET
    ensures var r := TakeDateTime2(StoredDateTime(d, decimals) + rest, decimals);
      && r.Parsed? && r.rest == rest
      && r.value.(micros := 0) == d.(micros := 0)
      && (r.value == d <==> decimals % 2 == 0 || d.micros == 0)
  {
    hide BigEndian, DateTimeOf, TakeFraction, StoredFraction, TakeBE;
    var micros := if decimals % 2 == 0 then d.micros else 10 * d.micros;
    DateTimeFields(d, decimals, micros);
    FractionExact(d.micros, decimals, rest);
    var value := d.Packed() + DATE_OFFSET;
    assert value < Pow256(5) by { Pow256Values(); }
    Concat3(BigEndian(value, 5), StoredFraction(d.micros, decimals), rest);
    TakeBEInverse(value, 5, StoredFraction(d.micros, decimals) + rest);
  }

  method ReadDateTime2(cursor: PacketCursor, decimals: nat) returns (r: Result<DateTime, ()>)
    requires cursor.Valid()
    modifies cursor`offset
    ensures cursor.Valid() && old(cursor.offset) <= cursor.offset
    ensures r.Err? <==> TakeDateTime2(old(cursor.Rest()), decimals).Malformed?
    ensures r.Ok? ==> TakeDateTime2(old(cursor.Rest()), decimals) == Parsed(r.value, cursor.Rest())
  {
    hide TakeFraction, DateTimeOf;
    var value :- cursor.ReadBE(5);
    var micros :- ReadTemporalFraction(cursor, decimals);
    r := Ok(DateTimeOf(value - DATE_OFFSET, micros));
  }

  // ------------------------------------------------------------- TIMESTAMP2

  datatype Timestamp = Timestamp(seconds: nat, micros: nat)

  /** `read_binlog_timestamp2` */
  function TakeTimestamp2(s: bytes, decimals: nat): Parsed<Timestamp> {
    var (seconds, afterSeconds) :- TakeBE(s, 4);
    var (micros, rest) :- TakeFraction(afterSeconds, decimals);
    Parsed(Timestamp(seconds, micros), rest)
  }

  lemma Timestamp2Exact(t: Timestamp, decimals: nat, rest: bytes)
    requires decimals <= 6 && t.seconds < 0x1_0000_0000 && Storable(t.micros, decimals)
    ensures var r := TakeTimestamp2(BigEndian(t.seconds, 4) + StoredFraction(t.micros, decimals) + rest, decimals);
      && r.Parsed? && r.rest == rest && r.value.seconds == t.seconds
      && (r.value == t <==> decimals % 2 == 0 || t.micros == 0)
  {
    FractionExact(t.micros, decimals, rest);
    assert t.seconds < Pow256(4) by { Pow256Values(); }
    hide BigEndian, TakeFraction, StoredFraction;
    Concat3(BigEndian(t.seconds, 4), StoredFraction(t.micros, decimals), rest);
    TakeBEInverse(t.seconds, 4, StoredFraction(t.micros, decimals) + rest);
  }

  method ReadTimestamp2(cursor: PacketCursor, decimals: nat) returns (r: Result<Timestamp, ()>)
    requires cursor.Valid()
    modifies cursor`offset
    ensures cursor.Valid() && old(cursor.offset) <= cursor.offset
    ensures r.Err? <==> TakeTimestamp2(old(cursor.Rest()), decimals).Malformed?
    ensures r.Ok? ==> TakeTimestamp2(old(cursor.Rest()), decimals) == Parsed(r.value, cursor.Rest())
  {
    hide TakeFraction;
    var seconds :- cursor.ReadBE(4);
    var micros :- ReadTemporalFraction(cursor, decimals);
    r := Ok(Timestamp(seconds, micros));
  }
}
