/** Timestamps in microseconds since 2000-01-01 and the calendar time they stand for. */
module Timestamp {
  import opened CArithmetic
  import opened Calendar

  const USECS_PER_DAY := 86400000000
  const USECS_PER_HOUR := 3600000000
  const USECS_PER_MINUTE := 60000000
  const USECS_PER_SEC := 1000000
  const EPOCH_JDATE := 2451545

  // ---------- the split into day and time of day ----------

  /** Day and time of day of a timestamp. */
  predicate Splits(t: int, date: int, time: int)
  {
    0 <= time < USECS_PER_DAY && date * USECS_PER_DAY + time == t
  }

  /** C's truncating division, then a correction when the remainder is negative. */
  method SplitTimestamp(t: int) returns (date: int, time: int)
    requires FitsInt64(t)
    ensures Splits(t, date, time) && FitsInt64(date)
  {
    time := t;
    date := CDiv(time, USECS_PER_DAY);
    if date != 0 {
      assert FitsInt64(date * USECS_PER_DAY) && FitsInt64(time - date * USECS_PER_DAY);
      time := time - date * USECS_PER_DAY;
    }
    if time < 0 {
      time := time + USECS_PER_DAY;
      date := date - 1;
    }
  }

  /** There is one split, and it keeps the order of timestamps lexicographically. */
  lemma SplitKeepsOrder(t: int, date: int, time: int, u: int, otherDate: int, otherTime: int)
    requires Splits(t, date, time) && Splits(u, otherDate, otherTime)
    ensures t < u <==> date < otherDate || (date == otherDate && time < otherTime)
    ensures t == u <==> date == otherDate && time == otherTime
  {
    if date < otherDate { assert (date + 1) * USECS_PER_DAY <= otherDate * USECS_PER_DAY; }
    if otherDate < date { assert (otherDate + 1) * USECS_PER_DAY <= date * USECS_PER_DAY; }
  }

  // ---------- the clock ----------

  datatype Clock = Clock(hour: int, minute: int, second: int, fraction: int)

  predicate OnClock(c: Clock)
  {
    0 <= c.hour <= 23 && 0 <= c.minute <= 59 && 0 <= c.second <= 59 && 0 <= c.fraction < USECS_PER_SEC
  }

  function Micros(c: Clock): int
  {
    ((c.hour * 60 + c.minute) * 60 + c.second) * USECS_PER_SEC + c.fraction
  }

  method ClockOf(time: int) returns (c: Clock)
    requires 0 <= time < USECS_PER_DAY
    ensures OnClock(c) && Micros(c) == time
  {
    var offset := time;
    var hour := offset / USECS_PER_HOUR;
    offset := offset - hour * USECS_PER_HOUR;
    var minute := offset / USECS_PER_MINUTE;
    offset := offset - minute * USECS_PER_MINUTE;
    var second := offset / USECS_PER_SEC;
    c := Clock(hour, minute, second, offset - second * USECS_PER_SEC);
  }

  /** The clock reads a different time of day at every microsecond. */
  lemma ClockIsExact(c: Clock, d: Clock)
    requires OnClock(c) && OnClock(d) && Micros(c) == Micros(d)
    ensures c == d
  {
    var x, y := (c.hour * 60 + c.minute) * 60 + c.second, (d.hour * 60 + d.minute) * 60 + d.second;
    assert x == y && c.fraction == d.fraction;
    assert c.hour * 60 + c.minute == d.hour * 60 + d.minute;
  }

  // ---------- encoding and decoding ----------

  datatype DateTime = DateTime(date: Date, clock: Clock)

  datatype Result<+T> = Ok(value: T) | OutOfRange

  /** What a timestamp stands for: counting days around 2000-01-01, and the clock. */
  ghost predicate StandsFor(t: int, dt: DateTime)
  {
    OnClock(dt.clock) &&
    exists n: nat :: NthDay(n) == dt.date && t == (n - EPOCH_JDATE) * USECS_PER_DAY + Micros(dt.clock)
  }

  lemma StandsForNumber(t: int, dt: DateTime)
    requires OnCalendar(dt.date) && OnClock(dt.clock)
    ensures StandsFor(t, dt) <==>
            Number(dt.date) >= 0 && t == (Number(dt.date) - EPOCH_JDATE) * USECS_PER_DAY + Micros(dt.clock)
  {
    if Number(dt.date) >= 0 { EveryDateIsCounted(dt.date); }
    if n: nat :| NthDay(n) == dt.date && t == (n - EPOCH_JDATE) * USECS_PER_DAY + Micros(dt.clock) { NumberOfNth(n); }
  }

  lemma MicrosInDay(c: Clock)
    requires OnClock(c)
    ensures 0 <= Micros(c) < USECS_PER_DAY
  {
  }

  /** The fields as the code holds them, in 32-bit integers. */
  predicate Fields(dt: DateTime)
  {
    FitsInt32(dt.date.year) && FitsInt32(dt.date.month) && FitsInt32(dt.date.day) && FitsInt32(dt.clock.hour) &&
    FitsInt32(dt.clock.minute) && FitsInt32(dt.clock.second) && FitsInt32(dt.clock.fraction)
  }

  lemma DecodedFits(d: Date, n: nat)
    requires d == NthDay(n) && n <= INT32_MAX
    ensures FitsInt32(d.year) && FitsInt32(d.month) && FitsInt32(d.day)
  {
    NumberOfNth(n);
    EveryDateIsCounted(d);
    NumberBoundsYear(d);
  }

  /** Decoding: every 64-bit timestamp from the first day of the calendar on, and no other. */
  method Decode(t: int) returns (r: Result<DateTime>)
    requires FitsInt64(t)
    ensures r.Ok? ==> StandsFor(t, r.value) && Fields(r.value)
    ensures r.OutOfRange? <==> t < -EPOCH_JDATE * USECS_PER_DAY
    ensures r.OutOfRange? <==> forall dt :: !StandsFor(t, dt)
  {
    if t < -EPOCH_JDATE * USECS_PER_DAY {
      forall dt | StandsFor(t, dt)
        ensures false
      {
        MicrosInDay(dt.clock);
      }
    }
    var date, time := SplitTimestamp(t);
    date := date + EPOCH_JDATE;
    if !(0 <= date <= INT32_MAX) { return OutOfRange; }
    var year, month, day := JulianToDate(date);
    var clock := ClockOf(time);
    DecodedFits(Date(year, month, day), date);
    return Ok(DateTime(Date(year, month, day), clock));
  }

  /** Hours, minutes and seconds are multiplied out in 32 bits, microseconds in 64. */
  function TimeOffset(c: Clock): int
  {
    Wrap32(Wrap32(Wrap32(Wrap32(c.hour * 60) + c.minute) * 60) + c.second) * USECS_PER_SEC + c.fraction
  }

  lemma OffsetIsMicros(c: Clock)
    requires OnClock(c)
    ensures TimeOffset(c) == Micros(c)
  {
  }

  function DayOffset(d: Date): int
  {
    Wrap32(Formula(d)) - EPOCH_JDATE
  }

  /** What the 64-bit checks let through: no overflow, and the sign of the day. */
  predicate Representable(date: int, time: int)
  {
    FitsInt64(date * USECS_PER_DAY) && FitsInt64(date * USECS_PER_DAY + time) &&
    (date * USECS_PER_DAY + time < 0 <==> date < 0)
  }

  predicate TimeBounded(time: int)
  {
    -0x1_0000_0000 * USECS_PER_SEC <= time <= 0x1_0000_0000 * USECS_PER_SEC
  }

  lemma OffsetBounded(c: Clock)
    requires FitsInt32(c.fraction)
    ensures TimeBounded(TimeOffset(c))
  {
  }

  /** The division undoes the product exactly when the product did not overflow. */
  lemma DivisionCheck(date: int, product: int)
    requires product == date * USECS_PER_DAY
    ensures CDiv(Wrap64(product), USECS_PER_DAY) == date <==> FitsInt64(product)
  {
    var k := TurnsOf64(product);
    var x := Wrap64(product);
    assert CDiv(x, USECS_PER_DAY) == date ==> -USECS_PER_DAY < x - product < USECS_PER_DAY;
  }

  /** Together with the sign test the checks catch every overflow. */
  lemma ChecksAreExact(date: int, time: int, product: int, t: int)
    requires FitsInt32(date + EPOCH_JDATE) && TimeBounded(time)
    requires product == date * USECS_PER_DAY && t == Wrap64(Wrap64(product) + time)
    ensures CDiv(Wrap64(t - time), USECS_PER_DAY) == date && !((t < 0 && date >= 0) || (t >= 0 && date < 0)) <==>
            Representable(date, time)
    ensures Representable(date, time) ==> t == product + time
  {
    WrapAdd64(product, time);
    WrapAdd64(product + time, -time);
    DivisionCheck(date, product);
    if FitsInt64(product) && !FitsInt64(product + time) {
      var k := TurnsOf64(product + time);
      assert product + time > 0 <==> date >= 0;
    }
  }

  /**
   Encoding any 32-bit fields: the checks reject every overflow, so a result is exact. For a date on the
   calendar and a time on the clock it is the timestamp that stands for them, and only dates outside the
   valid range are rejected.
   */
  method Encode(dt: DateTime) returns (r: Result<int>)
    requires Fields(dt)
    ensures r.Ok? ==> r.value == DayOffset(dt.date) * USECS_PER_DAY + TimeOffset(dt.clock) && FitsInt64(r.value)
    ensures r.Ok? <==> IsValidJulian(dt.date) && Representable(DayOffset(dt.date), TimeOffset(dt.clock))
    ensures OnCalendar(dt.date) && OnClock(dt.clock) ==>
              (r.Ok? <==> IsValidJulian(dt.date)) && (r.Ok? ==> StandsFor(r.value, dt))
  {
    if OnCalendar(dt.date) && OnClock(dt.clock) { OnCalendarFits(dt); }
    if !IsValidJulian(dt.date) { return OutOfRange; }
    var date := DateToJulian(dt.date.year, dt.date.month, dt.date.day);
    date := date - EPOCH_JDATE;
    OffsetBounded(dt.clock);
    r := Combine(date, TimeOffset(dt.clock));
  }

  /** Day and time of day in one 64-bit integer, and the two overflow checks. */
  method Combine(date: int, time: int) returns (r: Result<int>)
    requires FitsInt32(date + EPOCH_JDATE) && TimeBounded(time)
    ensures r.Ok? <==> Representable(date, time)
    ensures r.Ok? ==> r.value == date * USECS_PER_DAY + time
  {
    var t := Wrap64(Wrap64(date * USECS_PER_DAY) + time);
    ChecksAreExact(date, time, date * USECS_PER_DAY, t);
    if CDiv(Wrap64(t - time), USECS_PER_DAY) != date { return OutOfRange; }
    if (t < 0 && date >= 0) || (t >= 0 && date < 0) { return OutOfRange; }
    return Ok(t);
  }

  lemma OnCalendarFits(dt: DateTime)
    requires OnCalendar(dt.date) && OnClock(dt.clock) && FitsInt32(dt.date.year)
    ensures IsValidJulian(dt.date) ==> Representable(DayOffset(dt.date), TimeOffset(dt.clock))
    ensures IsValidJulian(dt.date) ==>
              StandsFor(DayOffset(dt.date) * USECS_PER_DAY + TimeOffset(dt.clock), dt)
  {
    if IsValidJulian(dt.date) {
      ValidIffNumberInRange(dt.date);
      FormulaOnCalendar(dt.date);
      EveryDateIsCounted(dt.date);
      OffsetIsMicros(dt.clock);
      MicrosInDay(dt.clock);
      StandsForNumber(DayOffset(dt.date) * USECS_PER_DAY + TimeOffset(dt.clock), dt);
    }
  }

  /** The day and the clock are the split of the timestamp. */
  lemma DaySplit(t: int, dt: DateTime) returns (n: nat)
    requires StandsFor(t, dt)
    ensures NthDay(n) == dt.date && n == Number(dt.date) && Splits(t, n - EPOCH_JDATE, Micros(dt.clock))
  {
    n :| NthDay(n) == dt.date && t == (n - EPOCH_JDATE) * USECS_PER_DAY + Micros(dt.clock);
    MicrosInDay(dt.clock);
    NumberOfNth(n);
  }

  /**
   The timestamp of a date and time, written out: microseconds since the start of 2000-01-01, which is day n0
   of the count. No other timestamp stands for it, and only clocks that exist are stood for.
   */
  lemma MicrosecondsSince2000(n0: nat, n: nat, hour: int, minute: int, second: int, fraction: int, t: int)
    requires NthDay(n0) == Date(2000, 1, 1)
    ensures StandsFor(t, DateTime(NthDay(n), Clock(hour, minute, second, fraction))) <==>
            && 0 <= hour < 24 && 0 <= minute < 60 && 0 <= second < 60 && 0 <= fraction < 1000000
            && t == (n - n0) * 86400000000 + hour * 3600000000 + minute * 60000000 + second * 1000000 + fraction
  {
    var clock := Clock(hour, minute, second, fraction);
    Anchors(n0);
    ClockWritten(clock);
    CountedDay(t, n, clock);
  }

  lemma ClockWritten(c: Clock)
    ensures OnClock(c) <==>
            0 <= c.hour < 24 && 0 <= c.minute < 60 && 0 <= c.second < 60 && 0 <= c.fraction < 1000000
    ensures Micros(c) == c.hour * 3600000000 + c.minute * 60000000 + c.second * 1000000 + c.fraction
  {
  }

  /** A counted day has one number, so it can be read off the timestamp. */
  lemma CountedDay(t: int, n: nat, clock: Clock)
    ensures StandsFor(t, DateTime(NthDay(n), clock)) <==>
            OnClock(clock) && t == (n - EPOCH_JDATE) * USECS_PER_DAY + Micros(clock)
  {
    if StandsFor(t, DateTime(NthDay(n), clock)) {
      var m := DaySplit(t, DateTime(NthDay(n), clock));
      NumberOfNth(n);
    }
  }

  /** Timestamp zero, and the last microsecond of the valid range. */
  lemma AnchorTimestamps()
    ensures StandsFor(0, DateTime(Date(2000, 1, 1), Clock(0, 0, 0, 0)))
    ensures StandsFor(252455615999999999, DateTime(Date(9999, 12, 31), Clock(23, 59, 59, 999999)))
  {
    Anchors(2451545);
    Anchors(MAX_DAY);
    MicrosecondsSince2000(2451545, 2451545, 0, 0, 0, 0, 0);
    MicrosecondsSince2000(2451545, MAX_DAY, 23, 59, 59, 999999, 252455615999999999);
  }

  /** A timestamp stands for one date and time, and a date and time has one timestamp. */
  lemma OneToOne(t: int, dt: DateTime, u: int, other: DateTime)
    requires StandsFor(t, dt) && StandsFor(u, other)
    ensures t == u <==> dt == other
  {
    var m := DaySplit(t, dt);
    var n := DaySplit(u, other);
    SplitKeepsOrder(t, m - EPOCH_JDATE, Micros(dt.clock), u, n - EPOCH_JDATE, Micros(other.clock));
    if t == u { ClockIsExact(dt.clock, other.clock); }
  }

  /** Timestamps are ordered as the dates and times they stand for. */
  lemma OrderOfTimestamps(t: int, dt: DateTime, u: int, other: DateTime)
    requires StandsFor(t, dt) && StandsFor(u, other)
    ensures t < u <==> Before(dt.date, other.date) || (dt.date == other.date && Micros(dt.clock) < Micros(other.clock))
  {
    var m := DaySplit(t, dt);
    var n := DaySplit(u, other);
    SplitKeepsOrder(t, m - EPOCH_JDATE, Micros(dt.clock), u, n - EPOCH_JDATE, Micros(other.clock));
    CountingKeepsOrder(m, n);
  }

  /** Decoding what was encoded gives the date and time back. */
  method EncodeThenDecode(dt: DateTime) returns (r: Result<DateTime>)
    requires OnCalendar(dt.date) && OnClock(dt.clock) && Fields(dt)
    ensures r == if IsValidJulian(dt.date) then Ok(dt) else OutOfRange
  {
    var encoded := Encode(dt);
    if encoded.OutOfRange? { return OutOfRange; }
    r := Decode(encoded.value);
    StandsForNumber(encoded.value, dt);
    MicrosInDay(dt.clock);
    OneToOne(encoded.value, dt, encoded.value, r.value);
  }

  /** Encoding what was decoded gives the timestamp back, unless it lies after the last valid day. */
  method DecodeThenEncode(t: int) returns (r: Result<int>)
    requires FitsInt64(t)
    ensures r == if -EPOCH_JDATE * USECS_PER_DAY <= t < (MAX_DAY + 1 - EPOCH_JDATE) * USECS_PER_DAY then Ok(t)
                 else OutOfRange
  {
    var decoded := Decode(t);
    if decoded.OutOfRange? { return OutOfRange; }
    var dt := decoded.value;
    r := Encode(dt);
    StandsForNumber(t, dt);
    MicrosInDay(dt.clock);
    ValidIffNumberInRange(dt.date);
    if r.Ok? { OneToOne(t, dt, r.value, dt); }
  }

  /** The validity check on stored values accepts exactly what decodes to a valid date. */
  method IsValidValue(t: int) returns (valid: bool)
    requires FitsInt64(t)
    ensures valid <==> exists dt :: StandsFor(t, dt) && IsValidJulian(dt.date)
  {
    var date, time := SplitTimestamp(t);
    date := date + EPOCH_JDATE;
    valid := 0 <= date <= MAX_DAY;
    if valid {
      var clock := ClockOf(time);
      ghost var dt := DateTime(NthDay(date), clock);
      NumberOfNth(date);
      ValidIffNumberInRange(dt.date);
      assert StandsFor(t, dt);
    }
    if dt :| StandsFor(t, dt) && IsValidJulian(dt.date) {
      var n := DaySplit(t, dt);
      SplitKeepsOrder(t, date - EPOCH_JDATE, time, t, n - EPOCH_JDATE, Micros(dt.clock));
      ValidIffNumberInRange(dt.date);
    }
  }
}
