/** `isOpenNow`, the "open now" indicator computed from the site configuration (opening and
    closing time, open weekdays, closed calendar dates). The clock is a parameter: today's weekday
    (0 = Sunday), today's date as `YYYY-MM-DD` and the minutes since midnight. */
module SiteHours {
  import opened JsValues

  /** The site configuration; a field that is not an array (or not present) is `None`. */
  datatype SiteConfig = SiteConfig(
    openTime: Option<string>,
    closeTime: Option<string>,
    openDays: Option<seq<int>>,
    closedDates: Option<seq<string>>)

  datatype Today = Today(weekday: int, date: string, minutes: int)

  /** One element taken from `time.split(':').map(Number)` by array destructuring: an element past
      the end of the array is `undefined`. */
  datatype Component = Missing | Present(n: Number)

  function ComponentAt(t: string, k: nat): Component {
    var parts := Split(t, ':');
    if k < |parts| then Present(StringToNumber(parts[k])) else Missing
  }

  /** `Number.isNaN(x)`: true only of the number NaN, so not of `undefined`. */
  predicate IsNaN(c: Component) {
    c == Present(NaN)
  }

  /** `h * 60 + m`: NaN as soon as an operand is NaN or `undefined`. */
  function Minutes(h: Component, m: Component): Number {
    if h.Present? && h.n.Int? && m.Present? && m.n.Int? then Int(h.n.i * 60 + m.n.i) else NaN
  }

  /** `a <= b` and `a < b` on numbers: false whenever NaN is involved. */
  predicate NumLe(a: Number, b: Number) { a.Int? && b.Int? && a.i <= b.i }

  predicate NumLt(a: Number, b: Number) { a.Int? && b.Int? && a.i < b.i }

  /** `!cfg.open_time`: missing or the empty string. */
  predicate Blank(t: Option<string>) { t.None? || t.value == "" }

  /** The calendar checks, in the source's order: a closed date, then a weekday that is not open. */
  predicate ClosedByCalendar(c: SiteConfig, today: Today) {
    (c.closedDates.Some? && today.date in c.closedDates.value)
    || (c.openDays.Some? && today.weekday !in c.openDays.value)
  }

  /** The minute window: `[open, close)` when `open <= close`, otherwise an overnight window. */
  predicate InWindow(openM: Number, closeM: Number, now: int)
    ensures openM.Int? && closeM.Int? && openM.i == closeM.i ==> !InWindow(openM, closeM, now)
    ensures openM.NaN? ==> (InWindow(openM, closeM, now) <==> NumLt(Int(now), closeM))
    ensures closeM.NaN? ==> (InWindow(openM, closeM, now) <==> NumLe(openM, Int(now)))
  {
    if NumLe(openM, closeM) then NumLe(openM, Int(now)) && NumLt(Int(now), closeM)
    else NumLe(openM, Int(now)) || NumLt(Int(now), closeM)
  }

  /** `isOpenNow(cfg)` as the source writes it. */
  function IsOpenNow(cfg: Option<SiteConfig>, today: Today): (open: bool)
    ensures open ==> cfg.Some? && !Blank(cfg.value.openTime) && !Blank(cfg.value.closeTime)
    ensures open && cfg.value.closedDates.Some? ==> today.date !in cfg.value.closedDates.value
    ensures open && cfg.value.openDays.Some? ==> today.weekday in cfg.value.openDays.value
    ensures cfg.Some? && cfg.value.openTime.Some? && cfg.value.closeTime.Some?
      && (IsNaN(ComponentAt(cfg.value.openTime.value, 0)) || IsNaN(ComponentAt(cfg.value.openTime.value, 1))
          || IsNaN(ComponentAt(cfg.value.closeTime.value, 0)) || IsNaN(ComponentAt(cfg.value.closeTime.value, 1)))
      ==> !open
  {
    if cfg.None? then false
    else
      var c := cfg.value;
      if ClosedByCalendar(c, today) then false
      else if Blank(c.openTime) || Blank(c.closeTime) then false
      else
        var oh, om := ComponentAt(c.openTime.value, 0), ComponentAt(c.openTime.value, 1);
        var ch, cm := ComponentAt(c.closeTime.value, 0), ComponentAt(c.closeTime.value, 1);
        if IsNaN(oh) || IsNaN(om) || IsNaN(ch) || IsNaN(cm) then false
        else InWindow(Minutes(oh, om), Minutes(ch, cm), today.minutes)
  }

  /** A time of day is well formed when it has an hour and a minute part, both numbers. */
  function ClockMinutes(t: string): (m: Option<int>)
    ensures m.Some? ==> ':' in t
  {
    var h, mm := ComponentAt(t, 0), ComponentAt(t, 1);
    if h.Present? && h.n.Int? && mm.Present? && mm.n.Int? then Some(h.n.i * 60 + mm.n.i) else None
  }

  /** `isOpenNow` as evidently intended: a time that is not well formed means closed. */
  function IsOpenNowIntended(cfg: Option<SiteConfig>, today: Today): (open: bool)
    ensures open ==> cfg.Some? && cfg.value.openTime.Some? && cfg.value.closeTime.Some?
    ensures open ==> ClockMinutes(cfg.value.openTime.value).Some? && ClockMinutes(cfg.value.closeTime.value).Some?
    ensures open && cfg.value.closedDates.Some? ==> today.date !in cfg.value.closedDates.value
    ensures open && cfg.value.openDays.Some? ==> today.weekday in cfg.value.openDays.value
    ensures cfg.Some? && cfg.value.openTime.Some? && cfg.value.closeTime.Some?
      && (IsNaN(ComponentAt(cfg.value.openTime.value, 0)) || IsNaN(ComponentAt(cfg.value.openTime.value, 1))
          || IsNaN(ComponentAt(cfg.value.closeTime.value, 0)) || IsNaN(ComponentAt(cfg.value.closeTime.value, 1)))
      ==> !open
  {
    if cfg.None? then false
    else
      var c := cfg.value;
      if ClosedByCalendar(c, today) then false
      else if Blank(c.openTime) || Blank(c.closeTime) then false
      else match (ClockMinutes(c.openTime.value), ClockMinutes(c.closeTime.value))
        case (Some(o), Some(cl)) => InWindow(Int(o), Int(cl), today.minutes)
        case _ => false
  }

  /** Both readings agree whenever each time has a `:`; they can differ only on a time without one. */
  lemma IntendedAgreesWithColon(cfg: Option<SiteConfig>, today: Today)
    requires cfg.Some? && cfg.value.openTime.Some? && cfg.value.closeTime.Some?
    requires ':' in cfg.value.openTime.value && ':' in cfg.value.closeTime.value
    ensures IsOpenNow(cfg, today) == IsOpenNowIntended(cfg, today)
  {
  }

  /** The two-branch window test is the same as comparing the minutes elapsed since opening,
      counted around midnight, with the length of the window. */
  lemma WindowIsElapsedBelowLength(o: int, c: int, t: int)
    requires 0 <= o < 1440 && 0 <= c < 1440 && 0 <= t < 1440
    ensures InWindow(Int(o), Int(c), t) <==> (t - o) % 1440 < (c - o) % 1440
  {
    if o <= c {
      assert (c - o) % 1440 == c - o;
    } else {
      assert (c - o) % 1440 == c - o + 1440;
    }
    if t >= o {
      assert (t - o) % 1440 == t - o;
    } else {
      assert (t - o) % 1440 == t - o + 1440;
    }
  }

  /** With well-formed times inside one day and no calendar closure, the shop is open exactly when
      the minutes elapsed since opening are fewer than the length of the opening window. */
  lemma OpenMeansElapsedBelowWindow(cfg: Option<SiteConfig>, today: Today, o: int, c: int)
    requires cfg.Some? && !ClosedByCalendar(cfg.value, today)
    requires cfg.value.openTime.Some? && ClockMinutes(cfg.value.openTime.value) == Some(o)
    requires cfg.value.closeTime.Some? && ClockMinutes(cfg.value.closeTime.value) == Some(c)
    requires 0 <= o < 1440 && 0 <= c < 1440 && 0 <= today.minutes < 1440
    ensures IsOpenNow(cfg, today) <==> (today.minutes - o) % 1440 < (c - o) % 1440
  {
    IntendedAgreesWithColon(cfg, today);
    assert IsOpenNowIntended(cfg, today) == InWindow(Int(o), Int(c), today.minutes);
    WindowIsElapsedBelowLength(o, c, today.minutes);
  }

  // ----- worked examples -----

  lemma NumberOfDigits(s: string)
    requires s != [] && AllDigits(s)
    ensures StringToNumber(s) == Int(DecimalValue(s))
  {
    TrimOfDigits(s);
    DigitsValueOfDigits(s);
  }

  /** The value of a two-digit numeral. */
  lemma TwoDigits(s: string)
    requires |s| == 2 && AllDigits(s)
    ensures DecimalValue(s) == DigitValue(s[0]) * 10 + DigitValue(s[1])
  {
    var first := s[..1];
    assert first[..0] == [] && first[0] == s[0];
    assert DecimalValue(first) == DigitValue(s[0]);
  }

  /** A time written `HH:MM` with digit strings. */
  lemma ClockOfDigits(h: string, m: string)
    requires h != [] && AllDigits(h) && m != [] && AllDigits(m)
    ensures ComponentAt(h + ":" + m, 0) == Present(Int(DecimalValue(h)))
    ensures ComponentAt(h + ":" + m, 1) == Present(Int(DecimalValue(m)))
  {
    SplitClock(h, m);
    NumberOfDigits(h);
    NumberOfDigits(m);
  }

  lemma SplitClock(h: string, m: string)
    requires ':' !in h && ':' !in m
    ensures Split(h + ":" + m, ':') == [h, m]
  {
    SplitAt(h, ':', m);
    assert h + ":" + m == h + [':'] + m;
  }

  lemma ClockMinutesOfDigits(h: string, m: string)
    requires h != [] && AllDigits(h) && m != [] && AllDigits(m)
    ensures ClockMinutes(h + ":" + m) == Some(DecimalValue(h) * 60 + DecimalValue(m))
  {
    ClockOfDigits(h, m);
  }

  /** A window that does not cross midnight: open from the opening minute up to, not including,
      the closing minute. */
  lemma DayWindow(cfg: Option<SiteConfig>, today: Today, o: int, c: int)
    requires cfg.Some? && !ClosedByCalendar(cfg.value, today)
    requires cfg.value.openTime.Some? && ClockMinutes(cfg.value.openTime.value) == Some(o)
    requires cfg.value.closeTime.Some? && ClockMinutes(cfg.value.closeTime.value) == Some(c)
    requires o <= c
    ensures IsOpenNow(cfg, today) <==> o <= today.minutes < c
  {
    IntendedAgreesWithColon(cfg, today);
  }

  /** A window that crosses midnight: open from the opening minute on, and before the closing
      minute. */
  lemma OvernightWindow(cfg: Option<SiteConfig>, today: Today, o: int, c: int)
    requires cfg.Some? && !ClosedByCalendar(cfg.value, today)
    requires cfg.value.openTime.Some? && ClockMinutes(cfg.value.openTime.value) == Some(o)
    requires cfg.value.closeTime.Some? && ClockMinutes(cfg.value.closeTime.value) == Some(c)
    requires c < o
    ensures IsOpenNow(cfg, today) <==> today.minutes >= o || today.minutes < c
  {
    IntendedAgreesWithColon(cfg, today);
  }

  /** The configuration 20:00-02:00 is open from 20:00 to midnight and from midnight to 02:00. */
  lemma OvernightExample(cfg: Option<SiteConfig>, today: Today)
    requires cfg == Some(SiteConfig(Some("20" + ":" + "00"), Some("02" + ":" + "00"), None, None))
    ensures IsOpenNow(cfg, today) <==> today.minutes >= 20 * 60 || today.minutes < 2 * 60
  {
    OvernightClocks();
    OvernightWindow(cfg, today, 1200, 120);
  }

  lemma OvernightClocks()
    ensures ClockMinutes("20" + ":" + "00") == Some(1200) && ClockMinutes("02" + ":" + "00") == Some(120)
  {
    OpeningClock();
    ClosingClock();
  }

  lemma OpeningClock()
    ensures ClockMinutes("20" + ":" + "00") == Some(1200)
  {
    TwoDigits("20");
    TwoDigits("00");
    ClockMinutesOfDigits("20", "00");
  }

  lemma ClosingClock()
    ensures ClockMinutes("02" + ":" + "00") == Some(120)
  {
    TwoDigits("02");
    TwoDigits("00");
    ClockMinutesOfDigits("02", "00");
  }

  /** An opening time without a `:` is not caught by the NaN check: its minutes are `undefined`,
      the opening minute becomes NaN, every comparison with it is false, and the overnight branch
      then reports the shop open from midnight until closing time, although it is not well formed. */
  lemma HourOnlyReadsAsOpen(cfg: Option<SiteConfig>, today: Today, c: int)
    requires cfg.Some? && !ClosedByCalendar(cfg.value, today)
    requires cfg.value.openTime.Some? && cfg.value.openTime.value != ""
    requires ':' !in cfg.value.openTime.value
    requires StringToNumber(cfg.value.openTime.value).Int?
    requires cfg.value.closeTime.Some? && ClockMinutes(cfg.value.closeTime.value) == Some(c)
    requires today.minutes < c
    ensures IsOpenNow(cfg, today)
    ensures ClockMinutes(cfg.value.openTime.value).None? && !IsOpenNowIntended(cfg, today)
  {
    var t := cfg.value.openTime.value;
    assert ComponentAt(t, 0) == Present(StringToNumber(t));
    assert ComponentAt(t, 1) == Missing;
  }

  /** The same gap on the closing side: a closing time without a `:` whose hour part is a number
      makes the closing minute NaN, and the overnight branch reports the shop open from opening
      time until midnight. */
  lemma HourOnlyCloseReadsAsOpen(cfg: Option<SiteConfig>, today: Today, o: int)
    requires cfg.Some? && !ClosedByCalendar(cfg.value, today)
    requires cfg.value.closeTime.Some? && cfg.value.closeTime.value != ""
    requires ':' !in cfg.value.closeTime.value
    requires StringToNumber(cfg.value.closeTime.value).Int?
    requires cfg.value.openTime.Some? && ClockMinutes(cfg.value.openTime.value) == Some(o)
    requires o <= today.minutes
    ensures IsOpenNow(cfg, today)
    ensures ClockMinutes(cfg.value.closeTime.value).None? && !IsOpenNowIntended(cfg, today)
  {
    var t := cfg.value.closeTime.value;
    assert ComponentAt(t, 0) == Present(StringToNumber(t));
    assert ComponentAt(t, 1) == Missing;
  }

  /** Opening at "08:00" and closing at "22": at 23:00 the source reports the shop open. */
  lemma HourOnlyCloseExample(cfg: Option<SiteConfig>, today: Today)
    requires cfg == Some(SiteConfig(Some("08" + ":" + "00"), Some("22"), None, None))
    requires today.minutes == 1380
    ensures IsOpenNow(cfg, today) && !IsOpenNowIntended(cfg, today)
  {
    TwoDigits("08");
    TwoDigits("22");
    TwoDigits("00");
    NumberOfDigits("22");
    ClockMinutesOfDigits("08", "00");
    HourOnlyCloseReadsAsOpen(cfg, today, 480);
  }

  /** Opening at "08" and closing at "22:00": at midnight the source reports the shop open. */
  lemma HourOnlyExample(cfg: Option<SiteConfig>, today: Today)
    requires cfg == Some(SiteConfig(Some("08"), Some("22" + ":" + "00"), None, None))
    requires today.minutes == 0
    ensures IsOpenNow(cfg, today) && !IsOpenNowIntended(cfg, today)
  {
    TwoDigits("08");
    TwoDigits("22");
    TwoDigits("00");
    NumberOfDigits("08");
    ClockMinutesOfDigits("22", "00");
    HourOnlyReadsAsOpen(cfg, today, 1320);
  }
}
