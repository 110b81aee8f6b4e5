/**
 * The CountdownTimer component: `calculateTimeLeft` turns the milliseconds
 * between now and the target date into hours, minutes and seconds, and a
 * once-per-second interval overwrites the displayed `timeLeft` with a fresh
 * computation. Times are integer milliseconds; the clock read is a parameter.
 */
module CountdownTimer {
  import JsMath
  import Padding

  datatype TimeLeft = TimeLeft(hours: int, minutes: int, seconds: int)

  const ZERO := TimeLeft(0, 0, 0)

  const MS_PER_SECOND := 1000
  const MS_PER_MINUTE := 60_000
  const MS_PER_HOUR := 3_600_000
  const MS_PER_DAY := 86_400_000
  const SECONDS_PER_DAY := 86_400

  /** Each field within its clock range: hours of a day, minutes and seconds of an hour. */
  predicate InRange(t: TimeLeft)
  {
    0 <= t.hours < 24 && 0 <= t.minutes < 60 && 0 <= t.seconds < 60
  }

  /** The number of seconds the three fields stand for. */
  function TotalSeconds(t: TimeLeft): int
  {
    t.hours * 3600 + t.minutes * 60 + t.seconds
  }

  /** The integer decomposition of a positive number of milliseconds: hour of day, minute, second. */
  function Decompose(d: int): TimeLeft
  {
    TimeLeft((d / MS_PER_HOUR) % 24, (d / MS_PER_MINUTE) % 60, (d / MS_PER_SECOND) % 60)
  }

  /**
   * `calculateTimeLeft`, with JavaScript's floating-point `/`, `%` and
   * `Math.floor` taken on exact reals. For a positive difference it is the
   * integer decomposition of the whole seconds into hour of day, minute and
   * second; otherwise all zeros.
   */
  function CalculateTimeLeft(target: int, now: int): (t: TimeLeft)
    ensures InRange(t)
    ensures target - now <= 0 ==> t == ZERO
    ensures target - now > 0 ==> t == Decompose(target - now)
  {
    var difference := target - now;
    if difference > 0 then
      var d := difference as real;
      HoursField(difference);
      MinutesField(difference);
      SecondsField(difference);
      TimeLeft(JsMath.Floor(JsMath.Rem(d / (1000.0 * 60.0 * 60.0), 24.0)),
               JsMath.Floor(JsMath.Rem(d / 1000.0 / 60.0, 60.0)),
               JsMath.Floor(JsMath.Rem(d / 1000.0, 60.0)))
    else
      ZERO
  }

  /** `Math.floor((difference / (1000 * 60 * 60)) % 24)` is the integer hour of the day. */
  lemma HoursField(difference: nat)
    ensures JsMath.Floor(JsMath.Rem(difference as real / (1000.0 * 60.0 * 60.0), 24.0)) == (difference / MS_PER_HOUR) % 24
  {
    assert 1000.0 * 60.0 * 60.0 == MS_PER_HOUR as real;
    JsMath.FloorOfRem(difference, MS_PER_HOUR, 24);
  }

  /** `Math.floor((difference / 1000 / 60) % 60)` is the integer minute of the hour. */
  lemma MinutesField(difference: nat)
    ensures JsMath.Floor(JsMath.Rem(difference as real / 1000.0 / 60.0, 60.0)) == (difference / MS_PER_MINUTE) % 60
  {
    assert difference as real / 1000.0 / 60.0 == difference as real / MS_PER_MINUTE as real;
    JsMath.FloorOfRem(difference, MS_PER_MINUTE, 60);
  }

  /** `Math.floor((difference / 1000) % 60)` is the integer second of the minute. */
  lemma SecondsField(difference: nat)
    ensures JsMath.Floor(JsMath.Rem(difference as real / 1000.0, 60.0)) == (difference / MS_PER_SECOND) % 60
  {
    JsMath.FloorOfRem(difference, MS_PER_SECOND, 60);
  }

  /** The hour/minute/second split of a count of seconds is exact modulo one day. */
  lemma SplitSeconds(s: nat)
    ensures ((s / 3600) % 24) * 3600 + ((s / 60) % 60) * 60 + s % 60 == s % SECONDS_PER_DAY
  {
    var days, rest := s / SECONDS_PER_DAY, s % SECONDS_PER_DAY;
    assert s == days * SECONDS_PER_DAY + rest;
    var h := rest / 3600;
    var r1 := rest % 3600;
    var m := r1 / 60;
    var sec := r1 % 60;
    assert rest == h * 3600 + m * 60 + sec;
    assert s == (days * 24 + h) * 3600 + m * 60 + sec;
    assert s / 3600 == days * 24 + h;
    assert (s / 3600) % 24 == h;
    assert s == (days * 1440 + h * 60 + m) * 60 + sec;
    assert s / 60 == days * 1440 + h * 60 + m;
    assert (s / 60) % 60 == m;
    assert s % 60 == sec;
  }

  /** Dividing milliseconds by a larger unit in two steps or in one is the same. */
  lemma DivDiv(d: nat)
    ensures d / MS_PER_MINUTE == (d / MS_PER_SECOND) / 60
    ensures d / MS_PER_HOUR == (d / MS_PER_SECOND) / 3600
  {
    var s, ms := d / 1000, d % 1000;
    assert d == s * 1000 + ms;
    var m, ss := s / 60, s % 60;
    assert d == m * 60000 + (ss * 1000 + ms);
    var h, mm := s / 3600, s % 3600;
    assert d == h * 3600000 + (mm * 1000 + ms);
  }

  /**
   * For a positive difference the fields add up to the whole seconds left
   * modulo one day: whole days are dropped from the display.
   */
  lemma TotalIsSecondsOfDay(target: int, now: int)
    requires target - now > 0
    ensures TotalSeconds(CalculateTimeLeft(target, now)) == ((target - now) / MS_PER_SECOND) % SECONDS_PER_DAY
  {
    var d := target - now;
    DivDiv(d);
    SplitSeconds(d / MS_PER_SECOND);
  }

  /** A deadline one day later shows the same time left. */
  lemma WholeDaysDropped(target: int, now: int)
    requires target - now > 0
    ensures CalculateTimeLeft(target + MS_PER_DAY, now) == CalculateTimeLeft(target, now)
  {
    DecomposeDropsDays(target - now);
  }

  /** Adding one day changes none of the three fields. */
  lemma DecomposeDropsDays(d: nat)
    ensures Decompose(d + MS_PER_DAY) == Decompose(d)
  {
    HoursDropDays(d);
    MinutesDropDays(d);
    SecondsDropDays(d);
  }

  lemma HoursDropDays(d: nat)
    ensures ((d + MS_PER_DAY) / MS_PER_HOUR) % 24 == (d / MS_PER_HOUR) % 24
  {
    var q, r := d / MS_PER_HOUR, d % MS_PER_HOUR;
    assert d + MS_PER_DAY == (q + 24) * MS_PER_HOUR + r;
    assert (d + MS_PER_DAY) / MS_PER_HOUR == q + 24;
  }

  lemma MinutesDropDays(d: nat)
    ensures ((d + MS_PER_DAY) / MS_PER_MINUTE) % 60 == (d / MS_PER_MINUTE) % 60
  {
    var q, r := d / MS_PER_MINUTE, d % MS_PER_MINUTE;
    assert d + MS_PER_DAY == (q + 1440) * MS_PER_MINUTE + r;
    assert (d + MS_PER_DAY) / MS_PER_MINUTE == q + 1440;
  }

  lemma SecondsDropDays(d: nat)
    ensures ((d + MS_PER_DAY) / MS_PER_SECOND) % 60 == (d / MS_PER_SECOND) % 60
  {
    var q, r := d / MS_PER_SECOND, d % MS_PER_SECOND;
    assert d + MS_PER_DAY == (q + 86400) * MS_PER_SECOND + r;
    assert (d + MS_PER_DAY) / MS_PER_SECOND == q + 86400;
  }

  /** A deadline 25 hours away shows 01:00:00. */
  lemma TwentyFiveHoursShowsOne(now: int)
    ensures CalculateTimeLeft(now + 25 * MS_PER_HOUR, now) == TimeLeft(1, 0, 0)
  {
  }

  /** Under one day left, a later clock reading never shows more time left. */
  lemma LaterNowShowsNoMore(target: int, now1: int, now2: int)
    requires now1 <= now2
    requires target - now1 < MS_PER_DAY
    ensures TotalSeconds(CalculateTimeLeft(target, now2)) <= TotalSeconds(CalculateTimeLeft(target, now1))
  {
    var t1, t2 := CalculateTimeLeft(target, now1), CalculateTimeLeft(target, now2);
    if target - now2 > 0 {
      TotalIsSecondsOfDay(target, now1);
      TotalIsSecondsOfDay(target, now2);
      SecondsWithinDay(target - now2, target - now1);
    } else {
      assert t2 == ZERO;
      assert InRange(t1);
    }
  }

  /** Whole seconds grow with milliseconds, and under one day they are their own value modulo a day. */
  lemma SecondsWithinDay(d2: int, d1: int)
    requires 0 < d2 <= d1 < MS_PER_DAY
    ensures (d2 / MS_PER_SECOND) % SECONDS_PER_DAY <= (d1 / MS_PER_SECOND) % SECONDS_PER_DAY
  {
    var s1, s2 := d1 / MS_PER_SECOND, d2 / MS_PER_SECOND;
    assert s2 <= s1 < SECONDS_PER_DAY;
  }

  /**
   * One second later the seconds field drops by exactly one, unless it was at
   * zero: the value comes from the clock, so no drift builds up over ticks.
   */
  lemma OneSecondLater(target: int, now: int)
    requires target - now > MS_PER_SECOND
    requires ((target - now) / MS_PER_SECOND) % 60 != 0
    ensures CalculateTimeLeft(target, now + MS_PER_SECOND).seconds == CalculateTimeLeft(target, now).seconds - 1
  {
    SecondStep(target - now);
  }

  lemma SecondStep(d: int)
    requires d > MS_PER_SECOND && (d / MS_PER_SECOND) % 60 != 0
    ensures ((d - MS_PER_SECOND) / MS_PER_SECOND) % 60 == (d / MS_PER_SECOND) % 60 - 1
  {
    var s, ms := d / 1000, d % 1000;
    assert d - 1000 == (s - 1) * 1000 + ms;
    assert (d - 1000) / 1000 == s - 1;
    var k, r := s / 60, s % 60;
    assert s - 1 == k * 60 + (r - 1);
  }

  /** The three numerals on screen, each `String(value).padStart(2, '0')`. */
  function Display(t: TimeLeft): (r: seq<string>)
    requires InRange(t)
    ensures |r| == 3 && |r[0]| == 2 && |r[1]| == 2 && |r[2]| == 2
  {
    [Padding.TwoDigits(t.hours), Padding.TwoDigits(t.minutes), Padding.TwoDigits(t.seconds)]
  }

  /** Each displayed numeral reads back as its field. */
  lemma DisplayReadsBack(t: TimeLeft)
    requires InRange(t)
    ensures var r := Display(t);
      Padding.DecimalValue(r[0]) == t.hours && Padding.DecimalValue(r[1]) == t.minutes
      && Padding.DecimalValue(r[2]) == t.seconds
  {
    Padding.TwoDigitsRoundTrip(t.hours);
    Padding.TwoDigitsRoundTrip(t.minutes);
    Padding.TwoDigitsRoundTrip(t.seconds);
  }

  /**
   * The component's state: the `targetDate` prop and the `timeLeft` and
   * `prevSeconds` state variables.
   */
  class Countdown {
    var targetDate: int
    var timeLeft: TimeLeft
    var prevSeconds: int

    ghost predicate Valid()
      reads this
    {
      InRange(timeLeft) && 0 <= prevSeconds < 60
    }

    /** The first render: both state variables at their initial zeros. */
    constructor (targetDate: int)
      ensures Valid()
      ensures this.targetDate == targetDate && timeLeft == ZERO && prevSeconds == 0
    {
      this.targetDate := targetDate;
      timeLeft := ZERO;
      prevSeconds := 0;
    }

    /**
     * The effect body, run on mount and again whenever the target or the
     * seconds field changes: `setTimeLeft(calculateTimeLeft())`.
     */
    method RunEffect(now: int)
      requires Valid()
      modifies this
      ensures Valid()
      ensures targetDate == old(targetDate) && prevSeconds == old(prevSeconds)
      ensures timeLeft == CalculateTimeLeft(targetDate, now)
    {
      timeLeft := CalculateTimeLeft(targetDate, now);
    }

    /**
     * One interval callback: remember the seconds on screen, then show a fresh
     * computation. The new value depends only on the target and the clock,
     * never on the previous value.
     */
    method Tick(now: int)
      requires Valid()
      modifies this
      ensures Valid()
      ensures targetDate == old(targetDate)
      ensures prevSeconds == old(timeLeft.seconds)
      ensures timeLeft == CalculateTimeLeft(targetDate, now)
    {
      var newTime := CalculateTimeLeft(targetDate, now);
      prevSeconds := timeLeft.seconds;
      timeLeft := newTime;
    }

    /** A new `targetDate` prop: the effect re-runs for it. */
    method ChangeTarget(targetDate: int, now: int)
      requires Valid()
      modifies this
      ensures Valid()
      ensures this.targetDate == targetDate && prevSeconds == old(prevSeconds)
      ensures timeLeft == CalculateTimeLeft(targetDate, now)
    {
      this.targetDate := targetDate;
      RunEffect(now);
    }

    /** What the three time blocks show. */
    function Shown(): (r: seq<string>)
      reads this
      requires Valid()
      ensures |r| == 3 && forall i :: 0 <= i < 3 ==> |r[i]| == 2
    {
      Display(timeLeft)
    }
  }
}
