/**
 * The DropHero banner: a "daily drop" whose deadline is tonight at 23:59:59,
 * a countdown that an interval updates each second until the deadline
 * passes, and a product that falls back to a built-in mock.
 */
module DropHero {
  import opened Wrappers
  import opened Pricing
  import JsMath
  import CountdownTimer

  type TimeLeft = CountdownTimer.TimeLeft

  /** What the banner shows before the first tick. */
  const INITIAL_TIME_LEFT := CountdownTimer.TimeLeft(4, 32, 12)

  /**
   * The interval's split of a positive difference: the hour within the day,
   * the minute within the hour, the second within the minute, each computed
   * with `%`, `/` and `Math.floor` (taken on exact reals).
   */
  function Decompose(difference: int): (t: TimeLeft)
    requires difference > 0
    ensures t == CountdownTimer.TimeLeft(
      (difference % CountdownTimer.MS_PER_DAY) / CountdownTimer.MS_PER_HOUR,
      (difference % CountdownTimer.MS_PER_HOUR) / CountdownTimer.MS_PER_MINUTE,
      (difference % CountdownTimer.MS_PER_MINUTE) / CountdownTimer.MS_PER_SECOND)
    ensures CountdownTimer.InRange(t)
  {
    var d := difference as real;
    HourOfDay(difference);
    MinuteOfHour(difference);
    SecondOfMinute(difference);
    CountdownTimer.TimeLeft(
      JsMath.Floor(JsMath.Rem(d, 1000.0 * 60.0 * 60.0 * 24.0) / (1000.0 * 60.0 * 60.0)),
      JsMath.Floor(JsMath.Rem(d, 1000.0 * 60.0 * 60.0) / (1000.0 * 60.0)),
      JsMath.Floor(JsMath.Rem(d, 1000.0 * 60.0) / 1000.0))
  }

  /** `Math.floor((difference % (1000 * 60 * 60 * 24)) / (1000 * 60 * 60))` on integers. */
  lemma HourOfDay(difference: nat)
    ensures JsMath.Floor(JsMath.Rem(difference as real, 1000.0 * 60.0 * 60.0 * 24.0) / (1000.0 * 60.0 * 60.0))
         == (difference % CountdownTimer.MS_PER_DAY) / CountdownTimer.MS_PER_HOUR
  {
    JsMath.RemOfInts(difference, CountdownTimer.MS_PER_DAY);
    JsMath.FloorOfQuotient(difference % CountdownTimer.MS_PER_DAY, CountdownTimer.MS_PER_HOUR);
  }

  /** `Math.floor((difference % (1000 * 60 * 60)) / (1000 * 60))` on integers. */
  lemma MinuteOfHour(difference: nat)
    ensures JsMath.Floor(JsMath.Rem(difference as real, 1000.0 * 60.0 * 60.0) / (1000.0 * 60.0))
         == (difference % CountdownTimer.MS_PER_HOUR) / CountdownTimer.MS_PER_MINUTE
  {
    JsMath.RemOfInts(difference, CountdownTimer.MS_PER_HOUR);
    JsMath.FloorOfQuotient(difference % CountdownTimer.MS_PER_HOUR, CountdownTimer.MS_PER_MINUTE);
  }

  /** `Math.floor((difference % (1000 * 60)) / 1000)` on integers. */
  lemma SecondOfMinute(difference: nat)
    ensures JsMath.Floor(JsMath.Rem(difference as real, 1000.0 * 60.0) / 1000.0)
         == (difference % CountdownTimer.MS_PER_MINUTE) / CountdownTimer.MS_PER_SECOND
  {
    JsMath.RemOfInts(difference, CountdownTimer.MS_PER_MINUTE);
    JsMath.FloorOfQuotient(difference % CountdownTimer.MS_PER_MINUTE, CountdownTimer.MS_PER_SECOND);
  }

  /** For every positive difference the banner and the CountdownTimer component show the same time. */
  lemma AgreesWithCountdownTimer(target: int, now: int)
    requires target - now > 0
    ensures Decompose(target - now) == CountdownTimer.CalculateTimeLeft(target, now)
  {
    var d := target - now;
    SameHour(d);
    SameMinute(d);
    SameSecond(d);
  }

  /** `(d % day) / hour == (d / hour) % 24` */
  lemma SameHour(d: nat)
    ensures (d % CountdownTimer.MS_PER_DAY) / CountdownTimer.MS_PER_HOUR == (d / CountdownTimer.MS_PER_HOUR) % 24
  {
    var days, r := d / CountdownTimer.MS_PER_DAY, d % CountdownTimer.MS_PER_DAY;
    var h, rr := r / CountdownTimer.MS_PER_HOUR, r % CountdownTimer.MS_PER_HOUR;
    assert d == (days * 24 + h) * CountdownTimer.MS_PER_HOUR + rr;
    assert d / CountdownTimer.MS_PER_HOUR == days * 24 + h;
  }

  /** `(d % hour) / minute == (d / minute) % 60` */
  lemma SameMinute(d: nat)
    ensures (d % CountdownTimer.MS_PER_HOUR) / CountdownTimer.MS_PER_MINUTE == (d / CountdownTimer.MS_PER_MINUTE) % 60
  {
    var hours, r := d / CountdownTimer.MS_PER_HOUR, d % CountdownTimer.MS_PER_HOUR;
    var m, rr := r / CountdownTimer.MS_PER_MINUTE, r % CountdownTimer.MS_PER_MINUTE;
    assert d == (hours * 60 + m) * CountdownTimer.MS_PER_MINUTE + rr;
    assert d / CountdownTimer.MS_PER_MINUTE == hours * 60 + m;
  }

  /** `(d % minute) / second == (d / second) % 60` */
  lemma SameSecond(d: nat)
    ensures (d % CountdownTimer.MS_PER_MINUTE) / CountdownTimer.MS_PER_SECOND == (d / CountdownTimer.MS_PER_SECOND) % 60
  {
    var minutes, r := d / CountdownTimer.MS_PER_MINUTE, d % CountdownTimer.MS_PER_MINUTE;
    var s, rr := r / CountdownTimer.MS_PER_SECOND, r % CountdownTimer.MS_PER_SECOND;
    assert d == (minutes * 60 + s) * CountdownTimer.MS_PER_SECOND + rr;
    assert d / CountdownTimer.MS_PER_SECOND == minutes * 60 + s;
  }

  /**
   * The deadline: today's 23:59:59, or the same time tomorrow when the clock
   * has already passed it. `todayEnd` is today's 23:59:59 as a timestamp, so
   * `now` lies between that day's midnight and the end of its last second.
   */
  function ChooseDeadline(now: int, todayEnd: int): (deadline: int)
    requires todayEnd - 86_399_000 <= now < todayEnd + 1000
    ensures deadline == todayEnd || deadline == todayEnd + CountdownTimer.MS_PER_DAY
    ensures now <= deadline && deadline - now < CountdownTimer.MS_PER_DAY
    ensures deadline == todayEnd <==> now <= todayEnd
  {
    if now > todayEnd then todayEnd + CountdownTimer.MS_PER_DAY else todayEnd
  }

  /** The banner's state after mount: the chosen deadline, the shown time, and whether the interval still runs. */
  class Hero {
    const deadline: int
    var timeLeft: TimeLeft
    var running: bool

    ghost predicate Valid()
      reads this
    {
      CountdownTimer.InRange(timeLeft)
    }

    /** Mount: the hard-coded 04:32:12 is shown, the deadline is fixed and the interval starts. */
    constructor (now: int, todayEnd: int)
      requires todayEnd - 86_399_000 <= now < todayEnd + 1000
      ensures Valid()
      ensures deadline == ChooseDeadline(now, todayEnd)
      ensures timeLeft == INITIAL_TIME_LEFT && running
    {
      deadline := ChooseDeadline(now, todayEnd);
      timeLeft := INITIAL_TIME_LEFT;
      running := true;
    }

    /**
     * One interval callback. Once the deadline is reached the interval is
     * cancelled and the last shown time stays as it was (it is not zeroed);
     * a cancelled interval fires no more.
     */
    method Tick(now: int)
      requires Valid()
      modifies this
      ensures Valid()
      ensures !old(running) ==> !running && timeLeft == old(timeLeft)
      ensures old(running) && deadline - now <= 0 ==> !running && timeLeft == old(timeLeft)
      ensures old(running) && deadline - now > 0 ==> running && timeLeft == Decompose(deadline - now)
    {
      if !running {
        return;
      }
      var difference := deadline - now;
      if difference <= 0 {
        running := false;
        return;
      }
      timeLeft := Decompose(difference);
    }

    /** The three numerals, each `String(value).padStart(2, '0')`. */
    function Shown(): (r: seq<string>)
      reads this
      requires Valid()
      ensures |r| == 3 && forall i :: 0 <= i < 3 ==> |r[i]| == 2
    {
      CountdownTimer.Display(timeLeft)
    }
  }

  /** The fields of the product the banner reads. */
  datatype HeroProduct = HeroProduct(title: string, description: string, handle: string,
                                     price: Amount, compareAtPrice: Option<Amount>)

  const MOCK_PRODUCT := HeroProduct(
    "Replica Off-White x Jordan 1",
    "The ultimate sneaker collaboration. These verified authentic replicas bring you the Virgil Abloh design language at an accessible price point. Limited stock available.",
    "replica-off-white-virgil-abloh-jordan-1",
    Decimal(19000), Some(Decimal(150000)))

  /** What the banner shows of its product. */
  datatype HeroView = HeroView(title: string, link: string, showsOriginalPrice: bool, saveBadge: string)

  /** `product || MOCK_PRODUCT`, then the title, the link, the struck-through price and the badge. */
  function Render(product: Option<HeroProduct>): (v: HeroView)
    ensures product.None? ==> v.title == MOCK_PRODUCT.title
    ensures product.Some? ==> v.title == product.value.title
    ensures v.link == "/products/" + (if product.Some? then product.value.handle else MOCK_PRODUCT.handle)
    ensures v.showsOriginalPrice <==> (product.None? || product.value.compareAtPrice.Some?)
    ensures v.saveBadge == "SAVE 75%"
  {
    var active := product.GetOr(MOCK_PRODUCT);
    HeroView(active.title, "/products/" + active.handle, active.compareAtPrice.Some?, "SAVE 75%")
  }

  /** The badge is fixed text: two products with any prices show the same badge. */
  lemma SaveBadgeIgnoresPrices(p: Option<HeroProduct>, q: Option<HeroProduct>)
    ensures Render(p).saveBadge == Render(q).saveBadge
  {
  }

  /** The mock's own prices (190 against 1500) are 87% off, not the 75% the badge says. */
  lemma MockDiscountIsNotSeventyFive()
    ensures PercentOff(150000, 19000) == Finite(87)
  {
    var exact := (150000 - 19000) as real / 150000 as real * 100.0;
    assert 86.5 <= exact < 87.5;
  }
}
