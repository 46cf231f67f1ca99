/** The leaf utilities of the board: clock-time parsing, the visible time
    window of the grid, the padded month view and the recurrence expander. */
module Utils {
  import opened Types
  import opened Calendar

  // ---------------------------------------------------------------- clock times

  predicate IsDigit(c: char) {
    '0' <= c <= '9'
  }

  function DigitValue(c: char): int
    requires IsDigit(c)
  {
    c as int - '0' as int
  }

  function DigitChar(n: int): (c: char)
    requires 0 <= n < 10
    ensures IsDigit(c) && DigitValue(c) == n
  {
    ('0' as int + n) as char
  }

  /** A zero-padded 24-hour `HH:mm` string, as the time inputs produce. */
  predicate IsClockTime(t: string) {
    |t| == 5 && IsDigit(t[0]) && IsDigit(t[1]) && t[2] == ':' && IsDigit(t[3]) && IsDigit(t[4])
  }

  function Hours(t: string): int
    requires IsClockTime(t)
  {
    DigitValue(t[0]) * 10 + DigitValue(t[1])
  }

  function Minutes(t: string): int
    requires IsClockTime(t)
  {
    DigitValue(t[3]) * 10 + DigitValue(t[4])
  }

  /** Minutes since midnight of an `HH:mm` string: the two fields split at the colon. */
  function TimeToMinutes(t: string): (m: int)
    requires IsClockTime(t)
    ensures 0 <= m <= 99 * 60 + 99
  {
    Hours(t) * 60 + Minutes(t)
  }

  /** The zero-padded `HH:mm` rendering of an hour and a minute. */
  function ClockTime(h: int, m: int): (t: string)
    requires 0 <= h < 100 && 0 <= m < 100
    ensures IsClockTime(t)
  {
    [DigitChar(h / 10), DigitChar(h % 10), ':', DigitChar(m / 10), DigitChar(m % 10)]
  }

  /** Parsing the rendering of HH and mm gives HH*60+mm. */
  lemma TimeToMinutesOfClockTime(h: int, m: int)
    requires 0 <= h < 100 && 0 <= m < 100
    ensures Hours(ClockTime(h, m)) == h && Minutes(ClockTime(h, m)) == m
    ensures TimeToMinutes(ClockTime(h, m)) == h * 60 + m
  {
  }

  /** Every well-formed time string is the rendering of its own fields, so
      `TimeToMinutes` reads exactly the HH and mm written in it. */
  lemma ClockTimeOfFields(t: string)
    requires IsClockTime(t)
    ensures ClockTime(Hours(t), Minutes(t)) == t
  {
    var h, m := Hours(t), Minutes(t);
    assert h / 10 == DigitValue(t[0]) && h % 10 == DigitValue(t[1]);
    assert m / 10 == DigitValue(t[3]) && m % 10 == DigitValue(t[4]);
  }

  // ---------------------------------------------------------------- timeline range

  const DefaultMin: int := 8 * 60
  const DefaultMax: int := 21 * 60

  /** `Math.floor(x / 60) * 60` for the non-negative minute counts a clock time has. */
  function FloorHour(x: int): (r: int)
    requires x >= 0
    ensures r % 60 == 0 && 0 <= r <= x < r + 60
  {
    x / 60 * 60
  }

  /** `Math.ceil(x / 60) * 60` for non-negative x. */
  function CeilHour(x: int): (r: int)
    requires x >= 0
    ensures r % 60 == 0 && x <= r < x + 60
  {
    if x % 60 == 0 then x else (x / 60 + 1) * 60
  }

  predicate TimesWellFormed(classes: seq<ScheduledClass>) {
    forall i :: 0 <= i < |classes| ==> IsClockTime(classes[i].startTime) && IsClockTime(classes[i].endTime)
  }

  function StartOf(c: ScheduledClass): int
    requires IsClockTime(c.startTime)
  {
    TimeToMinutes(c.startTime)
  }

  function EndOf(c: ScheduledClass): int
    requires IsClockTime(c.endTime)
  {
    TimeToMinutes(c.endTime)
  }

  /** The visible minute window: 08:00-21:00 widened, hour by hour, to hold
      every instance. `min` is the smaller of 480 and the earliest start
      rounded down to the hour; `max` the larger of 1260 and the latest end
      rounded up to the hour. */
  method GetTimelineRange(classes: seq<ScheduledClass>) returns (min: int, max: int)
    requires TimesWellFormed(classes)
    ensures min <= DefaultMin && max >= DefaultMax
    ensures min % 60 == 0 && max % 60 == 0
    ensures forall i :: 0 <= i < |classes| ==> min <= StartOf(classes[i]) && EndOf(classes[i]) <= max
    ensures min == DefaultMin || exists i :: 0 <= i < |classes| && min == FloorHour(StartOf(classes[i]))
    ensures max == DefaultMax || exists i :: 0 <= i < |classes| && max == CeilHour(EndOf(classes[i]))
    ensures classes == [] ==> min == DefaultMin && max == DefaultMax
  {
    min, max := DefaultMin, DefaultMax;
    var i := 0;
    while i < |classes|
      invariant 0 <= i <= |classes|
      invariant min <= DefaultMin && max >= DefaultMax
      invariant min % 60 == 0 && max % 60 == 0
      invariant forall j :: 0 <= j < i ==> min <= StartOf(classes[j]) && EndOf(classes[j]) <= max
      invariant min == DefaultMin || exists j :: 0 <= j < i && min == FloorHour(StartOf(classes[j]))
      invariant max == DefaultMax || exists j :: 0 <= j < i && max == CeilHour(EndOf(classes[j]))
    {
      var start := StartOf(classes[i]);
      var end := EndOf(classes[i]);
      if start < min {
        min := FloorHour(start);
      }
      if end > max {
        max := CeilHour(end);
      }
      i := i + 1;
    }
  }

  // ---------------------------------------------------------------- month view

  function MonthStart(base: CivilDate): Day
    requires IsValidDate(base)
  {
    DaysFromCivil(base.year, base.month, 1)
  }

  function MonthEnd(base: CivilDate): Day
    requires IsValidDate(base)
  {
    MonthStart(base) + DaysInMonth(base.year, base.month) - 1
  }

  /** Monday on or before `d` (weeks start on Monday). */
  function StartOfWeek(d: Day): (r: Day)
    ensures Weekday(r) == 1 && r <= d < r + 7
  {
    d - (Weekday(d) + 6) % 7
  }

  /** Sunday on or after `d`. */
  function EndOfWeek(d: Day): (r: Day)
    ensures Weekday(r) == 0 && d <= r < d + 7
  {
    d + (7 - Weekday(d)) % 7
  }

  /** A Monday-to-Sunday span covers whole weeks. */
  lemma WholeWeeks(a: Day, b: Day)
    requires a <= b && Weekday(a) == 1 && Weekday(b) == 0
    ensures (b - a + 1) % 7 == 0
  {
    DivisionUnique(b + 4, 7, (b + 4) / 7, 0);
    DivisionUnique(a + 4, 7, (a + 4) / 7, 1);
    DivisionUnique(b - a + 1, 7, (b + 4) / 7 - (a + 4) / 7, 0);
  }

  lemma DayOfMonth(y: int, m: int, k: int)
    requires 1 <= m <= 12
    ensures DaysFromCivil(y, m, k) == DaysFromCivil(y, m, 1) + k - 1
  {
  }

  /** The days of the month grid: from the Monday that opens the week of the
      first of the month to the Sunday that closes the week of its last day. */
  method GenerateMonthDays(base: CivilDate) returns (days: seq<Day>)
    requires IsValidDate(base)
    ensures |days| > 0 && |days| % 7 == 0
    ensures forall i :: 0 <= i < |days| ==> days[i] == days[0] + i
    ensures Weekday(days[0]) == 1 && Weekday(days[|days| - 1]) == 0
    ensures days[0] <= MonthStart(base) < days[0] + 7
    ensures days[|days| - 1] - 7 < MonthEnd(base) <= days[|days| - 1]
    ensures forall k :: 1 <= k <= DaysInMonth(base.year, base.month) ==> DaysFromCivil(base.year, base.month, k) in days
  {
    var start := StartOfWeek(MonthStart(base));
    var end := EndOfWeek(MonthEnd(base));
    days := [];
    var current := start;
    while current <= end
      invariant start <= current <= end + 1
      invariant |days| == current - start
      invariant forall i :: 0 <= i < |days| ==> days[i] == start + i
      decreases end - current
    {
      days := days + [current];
      current := current + 1;
    }
    WholeWeeks(start, end);
    forall k | 1 <= k <= DaysInMonth(base.year, base.month)
      ensures DaysFromCivil(base.year, base.month, k) in days
    {
      DayOfMonth(base.year, base.month, k);
      var i := DaysFromCivil(base.year, base.month, k) - start;
      assert days[i] == DaysFromCivil(base.year, base.month, k);
    }
  }

  // ---------------------------------------------------------------- recurrence

  /** The frequency rule: does the rule emit day `d`? The every-other parity is
      counted from the configuration's own start day. */
  predicate Accepts(cfg: RecurrenceConfig, d: Day) {
    match cfg.frequency
    case Daily => true
    case Weekly => cfg.daysOfWeek.Some? && Weekday(d) in cfg.daysOfWeek.value
    case EveryOther => (d - cfg.startDate) % 2 == 0
  }

  /** One emitted instance: every definition field copied, the rule's times. */
  function Occurrence(def: ClassDefinition, cfg: RecurrenceConfig, d: Day, id: InstanceId): ScheduledClass {
    ScheduledClass(def, id, d, cfg.startTime, cfg.endTime)
  }

  /** The instances the expander emits for the days `d`..`cfg.endDate`, numbered from `id`. */
  function ExpandFrom(def: ClassDefinition, cfg: RecurrenceConfig, d: Day, id: InstanceId): seq<ScheduledClass>
    decreases cfg.endDate + 1 - d
  {
    if d > cfg.endDate then []
    else if Accepts(cfg, d) then [Occurrence(def, cfg, d, id)] + ExpandFrom(def, cfg, d + 1, id + 1)
    else ExpandFrom(def, cfg, d + 1, id)
  }

  /** The whole expansion of a rule, numbering instances from `firstId`. */
  function Expand(def: ClassDefinition, cfg: RecurrenceConfig, firstId: InstanceId): seq<ScheduledClass> {
    ExpandFrom(def, cfg, cfg.startDate, firstId)
  }

  /** Walks every day from the start to the end day inclusive and emits one
      instance for each day the frequency rule accepts. Identifiers are drawn
      from a counter; `nextId` is the first one left unused. */
  method ApplyRecurrence(def: ClassDefinition, cfg: RecurrenceConfig, firstId: InstanceId)
    returns (instances: seq<ScheduledClass>, nextId: InstanceId)
    ensures instances == Expand(def, cfg, firstId)
    ensures nextId == firstId + |instances|
  {
    instances := [];
    nextId := firstId;
    var current := cfg.startDate;
    while current <= cfg.endDate
      invariant nextId == firstId + |instances|
      invariant instances + ExpandFrom(def, cfg, current, nextId) == Expand(def, cfg, firstId)
      decreases cfg.endDate + 1 - current
    {
      if Accepts(cfg, current) {
        instances := instances + [Occurrence(def, cfg, current, nextId)];
        nextId := nextId + 1;
      }
      current := current + 1;
    }
  }

  predicate DatesIncreasing(r: seq<ScheduledClass>) {
    forall i, j :: 0 <= i < j < |r| ==> r[i].date < r[j].date
  }

  /** Each instance lies in `lo`..`cfg.endDate`, is accepted by the rule, and is
      the occurrence of its day numbered `id` plus its position. */
  predicate NumberedOccurrences(r: seq<ScheduledClass>, def: ClassDefinition, cfg: RecurrenceConfig, lo: Day, id: InstanceId) {
    forall i :: 0 <= i < |r| ==>
      lo <= r[i].date <= cfg.endDate && Accepts(cfg, r[i].date) && r[i] == Occurrence(def, cfg, r[i].date, id + i)
  }

  /** Shape of a partial expansion: days strictly increasing inside the window,
      each accepted by the rule, identifiers consecutive. */
  lemma {:induction false} ExpandFromShape(def: ClassDefinition, cfg: RecurrenceConfig, d: Day, id: InstanceId)
    ensures NumberedOccurrences(ExpandFrom(def, cfg, d, id), def, cfg, d, id)
    ensures DatesIncreasing(ExpandFrom(def, cfg, d, id))
    decreases cfg.endDate + 1 - d
  {
    if d <= cfg.endDate {
      var r := ExpandFrom(def, cfg, d, id);
      if Accepts(cfg, d) {
        var t := ExpandFrom(def, cfg, d + 1, id + 1);
        ExpandFromShape(def, cfg, d + 1, id + 1);
        assert r == [Occurrence(def, cfg, d, id)] + t;
        forall i | 0 < i < |r|
          ensures d < r[i].date <= cfg.endDate && Accepts(cfg, r[i].date) && r[i] == Occurrence(def, cfg, r[i].date, id + i)
        {
          assert r[i] == t[i - 1];
        }
      } else {
        ExpandFromShape(def, cfg, d + 1, id);
      }
    }
  }

  /** Every day of the window that the rule accepts is emitted. */
  lemma {:induction false} ExpandFromComplete(def: ClassDefinition, cfg: RecurrenceConfig, d: Day, id: InstanceId, e: Day)
    requires d <= e <= cfg.endDate && Accepts(cfg, e)
    ensures exists i :: 0 <= i < |ExpandFrom(def, cfg, d, id)| && ExpandFrom(def, cfg, d, id)[i].date == e
    decreases e - d
  {
    var r := ExpandFrom(def, cfg, d, id);
    if d == e {
      assert r[0].date == e;
    } else {
      var next := if Accepts(cfg, d) then id + 1 else id;
      ExpandFromComplete(def, cfg, d + 1, next, e);
      var tail := ExpandFrom(def, cfg, d + 1, next);
      var i :| 0 <= i < |tail| && tail[i].date == e;
      if Accepts(cfg, d) {
        assert r[i + 1] == tail[i];
      } else {
        assert r[i] == tail[i];
      }
    }
  }

  /** The expander's contract: it emits a day if and only if the day lies in
      the inclusive window and the frequency rule accepts it; days come out
      strictly increasing (so at most one instance per day); every instance
      copies the definition and the rule's times and gets the next identifier
      of the counter; a reversed window gives nothing. */
  lemma ExpandSpec(def: ClassDefinition, cfg: RecurrenceConfig, firstId: InstanceId)
    ensures var r := Expand(def, cfg, firstId);
      && (forall i, j :: 0 <= i < j < |r| ==> r[i].date < r[j].date)
      && (forall i :: 0 <= i < |r| ==> r[i] == ScheduledClass(def, firstId + i, r[i].date, cfg.startTime, cfg.endTime))
      && (forall e :: (exists i :: 0 <= i < |r| && r[i].date == e) <==> cfg.startDate <= e <= cfg.endDate && Accepts(cfg, e))
      && (cfg.startDate > cfg.endDate ==> r == [])
  {
    var r := Expand(def, cfg, firstId);
    assert r == ExpandFrom(def, cfg, cfg.startDate, firstId);
    ExpandFromShape(def, cfg, cfg.startDate, firstId);
    forall e | cfg.startDate <= e <= cfg.endDate && Accepts(cfg, e)
      ensures exists i :: 0 <= i < |r| && r[i].date == e
    {
      ExpandFromComplete(def, cfg, cfg.startDate, firstId, e);
    }
  }

  lemma {:induction false} ExpandFromDailyCount(def: ClassDefinition, cfg: RecurrenceConfig, d: Day, id: InstanceId)
    requires cfg.frequency == Daily
    ensures |ExpandFrom(def, cfg, d, id)| == if d > cfg.endDate then 0 else cfg.endDate - d + 1
    decreases cfg.endDate + 1 - d
  {
    if d <= cfg.endDate {
      ExpandFromDailyCount(def, cfg, d + 1, id + 1);
    }
  }

  /** `daily` emits exactly endDate - startDate + 1 instances (none for a reversed window). */
  lemma ExpandDailyCount(def: ClassDefinition, cfg: RecurrenceConfig, firstId: InstanceId)
    requires cfg.frequency == Daily
    ensures |Expand(def, cfg, firstId)| == if cfg.startDate > cfg.endDate then 0 else cfg.endDate - cfg.startDate + 1
  {
    ExpandFromDailyCount(def, cfg, cfg.startDate, firstId);
  }

  /** `weekly` without a weekday list emits nothing. */
  lemma {:induction false} ExpandWeeklyWithoutDays(def: ClassDefinition, cfg: RecurrenceConfig, d: Day, id: InstanceId)
    requires cfg.frequency == Weekly && cfg.daysOfWeek.None?
    ensures ExpandFrom(def, cfg, d, id) == []
    decreases cfg.endDate + 1 - d
  {
    if d <= cfg.endDate {
      ExpandWeeklyWithoutDays(def, cfg, d + 1, id);
    }
  }

  /** `every_other` always emits its start day first, then every second day. */
  lemma ExpandEveryOtherStart(def: ClassDefinition, cfg: RecurrenceConfig, firstId: InstanceId)
    requires cfg.frequency == EveryOther && cfg.startDate <= cfg.endDate
    ensures |Expand(def, cfg, firstId)| > 0 && Expand(def, cfg, firstId)[0].date == cfg.startDate
    ensures forall i :: 0 <= i < |Expand(def, cfg, firstId)| ==> (Expand(def, cfg, firstId)[i].date - cfg.startDate) % 2 == 0
  {
    var r := Expand(def, cfg, firstId);
    ExpandFromShape(def, cfg, cfg.startDate, firstId);
    forall i | 0 <= i < |r|
      ensures (r[i].date - cfg.startDate) % 2 == 0
    {
      assert Accepts(cfg, r[i].date);
    }
  }
}
