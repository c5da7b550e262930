/**
 The night schedule of src/night_mode.rs.

 Every calendar date starts one night; the program looks only at yesterday, today and tomorrow.
 Dates are counted in days and instants in seconds since the Unix epoch.
*/
module NightMode {
  import opened Prelude
  import opened RuntimeTypes
  import opened Sorting

  const SECONDS_PER_DAY := 86400
  const FALLBACK_SECOND: nat := 7 * 3600
  const SOLAR_SCHEMA_VERSION := 1
  const SOLAR_DAY_COUNT := 17
  /** The calendar library's first and last representable seconds. */
  const MIN_TIMESTAMP := -377705023201
  const MAX_TIMESTAMP := 253402207200

  /** A time zone: the local date at an instant, and the instant of a local second of a date. */
  datatype Zone = Zone(day: int -> int, resolve: (int, nat) -> int) {
    /** An instant on an earlier local date precedes every second of date d; one on a later date
        does not. */
    predicate DateOrdered(t: int, d: int, s: nat) {
      (day(t) < d ==> t < resolve(d, s)) && (d < day(t) ==> resolve(d, s) <= t)
    }

    predicate MorningFollows(d: int, s: nat) {
      resolve(d, s) < resolve(d + 1, FALLBACK_SECOND)
    }

    /** From some instant on, instants and local times never contradict each other. */
    ghost predicate RegularFrom(since: int) {
      && (forall t, d, s {:trigger DateOrdered(t, d, s)} :: since <= t && 0 <= s < SECONDS_PER_DAY ==>
            DateOrdered(t, d, s))
      && (forall d, s {:trigger MorningFollows(d, s)} :: day(since) < d && 0 <= s < SECONDS_PER_DAY ==>
            MorningFollows(d, s))
    }

    /** The last irregular change, if any, is at least two dates past. */
    ghost predicate SettledSince(since: int, now: int) {
      since <= now && day(since) + 2 <= day(now) && RegularFrom(since)
    }
  }

  /** The nights of all integer dates under one zone, list of sunrises and starting second. */
  datatype Nights = Nights(zone: Zone, sunrises: seq<int>, startSecond: nat) {
    ghost predicate ValidFrom(since: int) {
      zone.RegularFrom(since) && startSecond < SECONDS_PER_DAY && Ascending(sunrises)
    }

    function Start(d: int): int {
      zone.resolve(d, startSecond)
    }

    /** Seven in the morning, of the same date if that is still ahead. */
    function Fallback(d: int): int {
      var sameDate := zone.resolve(d, FALLBACK_SECOND);
      if sameDate > Start(d) then sameDate else zone.resolve(d + 1, FALLBACK_SECOND)
    }

    function End(d: int): int {
      var sunrise := FirstAfter(sunrises, Start(d));
      if sunrise.Some? then sunrise.value else Fallback(d)
    }

    predicate Contains(d: int, t: int) {
      Start(d) <= t < End(d)
    }

    /** Night falls within the night of any date whatsoever. */
    ghost predicate NightAt(t: int) {
      exists d :: Contains(d, t)
    }

    ghost predicate NightStartsAt(t: int) {
      exists d :: Start(d) == t
    }
  }

  ghost predicate Ascending(s: seq<int>) {
    forall i, j :: 0 <= i < j < |s| ==> s[i] <= s[j]
  }

  /** The first listed instant later than t. */
  function FirstAfter(s: seq<int>, t: int): (r: Option<int>)
    ensures r.Some? ==> r.value in s && r.value > t
    ensures r.None? ==> forall x :: x in s ==> x <= t
  {
    if s == [] then None
    else if s[0] > t then Some(s[0])
    else
      assert s == [s[0]] + s[1..];
      FirstAfter(s[1..], t)
  }

  lemma {:induction false} FirstAfterIsLeast(s: seq<int>, t: int, x: int)
    requires Ascending(s) && x in s && x > t
    ensures FirstAfter(s, t).Some? && FirstAfter(s, t).value <= x
  {
    if s[0] <= t { FirstAfterIsLeast(s[1..], t, x); }
  }

  /** It is the least of those that are later. */
  lemma FirstAfterMeans(s: seq<int>, t: int, r: int)
    requires Ascending(s)
    ensures FirstAfter(s, t) == Some(r) <==> r in s && r > t && forall x :: x in s && x > t ==> r <= x
    ensures FirstAfter(s, t).None? <==> forall x :: x in s ==> x <= t
  {
    forall x | x in s && x > t ensures FirstAfter(s, t).Some? && FirstAfter(s, t).value <= x {
      FirstAfterIsLeast(s, t, x);
    }
  }

  // ----- order of the nights

  lemma ResolveByDate(z: Zone, since: int, d: int, s: nat, e: int, u: nat)
    requires z.RegularFrom(since) && z.day(since) < e
    requires d < e && s < SECONDS_PER_DAY && u < SECONDS_PER_DAY
    ensures since < z.resolve(e, u) && z.resolve(d, s) <= z.resolve(e, u)
  {
    var t := z.resolve(e, u);
    assert z.DateOrdered(since, e, u);
    assert z.DateOrdered(t, e, u);
    assert z.DateOrdered(t, d, s);
  }

  lemma StartsAscend(n: Nights, since: int, d: int, e: int)
    requires n.ValidFrom(since) && n.zone.day(since) < e && d <= e
    ensures n.Start(d) <= n.Start(e)
  {
    if d < e { ResolveByDate(n.zone, since, d, n.startSecond, e, n.startSecond); }
  }

  lemma NightIsNotEmpty(n: Nights, since: int, d: int)
    requires n.ValidFrom(since) && n.zone.day(since) < d
    ensures n.Start(d) < n.End(d)
    ensures n.Start(d) < n.Fallback(d) <= n.zone.resolve(d + 1, FALLBACK_SECOND)
  {
    assert n.zone.MorningFollows(d, n.startSecond);
    ResolveByDate(n.zone, since, d, FALLBACK_SECOND, d + 1, FALLBACK_SECOND);
  }

  lemma FallbacksAscend(n: Nights, since: int, d: int, e: int)
    requires n.ValidFrom(since) && n.zone.day(since) < e && d < e
    ensures n.Fallback(d) <= n.Fallback(e)
  {
    ResolveByDate(n.zone, since, d, FALLBACK_SECOND, e, FALLBACK_SECOND);
    if d + 1 < e { ResolveByDate(n.zone, since, d + 1, FALLBACK_SECOND, e, FALLBACK_SECOND); }
    ResolveByDate(n.zone, since, e, FALLBACK_SECOND, e + 1, FALLBACK_SECOND);
  }

  // ----- the window is enough

  /** A night that holds now but started before yesterday can only be one that no sunrise ended;
      yesterday's night then has the same end. */
  lemma WindowIsComplete(n: Nights, since: int, d: int, now: int)
    requires n.ValidFrom(since) && since <= now && n.zone.day(since) + 2 <= n.zone.day(now) && n.Contains(d, now)
    ensures var today := n.zone.day(now); d <= today && (n.Contains(today - 1, now) || n.Contains(today, now))
  {
    var today := n.zone.day(now);
    assert n.zone.DateOrdered(now, d, n.startSecond);
    if d < today - 1 {
      var yesterday := today - 1;
      StartsAscend(n, since, d, yesterday);
      assert n.zone.DateOrdered(now, d, FALLBACK_SECOND);
      assert n.zone.DateOrdered(now, d + 1, FALLBACK_SECOND);
      assert n.zone.DateOrdered(now, yesterday, n.startSecond);
      var sunrise := n.End(d);
      assert FirstAfter(n.sunrises, n.Start(d)) == Some(sunrise);
      FirstAfterIsLeast(n.sunrises, n.Start(yesterday), sunrise);
      FirstAfterIsLeast(n.sunrises, n.Start(d), n.End(yesterday));
    }
  }

  /** Nothing starts between now and the first start after now found in the window. */
  lemma NextStartIsInWindow(n: Nights, since: int, d: int, now: int)
    requires n.ValidFrom(since) && since <= now && n.zone.day(since) + 2 <= n.zone.day(now) && now < n.Start(d)
    ensures var today := n.zone.day(now);
            && n.Start(today - 1) <= now
            && now < n.Start(today + 1)
            && today <= d
            && (if now < n.Start(today) then n.Start(today) <= n.Start(d) else n.Start(today + 1) <= n.Start(d))
  {
    var today := n.zone.day(now);
    assert n.zone.DateOrdered(now, d, n.startSecond);
    assert n.zone.DateOrdered(now, today - 1, n.startSecond);
    assert n.zone.DateOrdered(now, today + 1, n.startSecond);
    StartsAscend(n, since, today, d);
    if today < d { StartsAscend(n, since, today + 1, d); }
  }

  /** By day, the period cannot change before the next start. */
  lemma DayLastsUntilNextStart(n: Nights, now: int, t: int, at: int)
    requires !n.NightAt(now) && now <= t < at
    requires forall d :: now < n.Start(d) ==> at <= n.Start(d)
    ensures !n.NightAt(t)
  {
    forall d ensures !n.Contains(d, t) {
      assert !n.Contains(d, now);
    }
  }

  /** When the night of a date not long past ends it is day, unless another night starts at that very second. */
  lemma NightEndsAtEnd(n: Nights, since: int, a: int)
    requires n.ValidFrom(since) && n.zone.day(since) < a
    ensures n.NightAt(n.End(a)) <==> n.NightStartsAt(n.End(a))
  {
    var at := n.End(a);
    NightIsNotEmpty(n, since, a);
    if n.NightStartsAt(at) {
      var d :| n.Start(d) == at;
      if d <= a { StartsAscend(n, since, d, a); }
      NightIsNotEmpty(n, since, d);
      assert n.Contains(d, at);
    }
    if n.NightAt(at) {
      var d :| n.Contains(d, at);
      if n.Start(d) < at { AnEndIsNotInside(n, since, a, d); }
      assert n.Start(d) == at;
    }
  }

  lemma AnEndIsNotInside(n: Nights, since: int, a: int, d: int)
    requires n.ValidFrom(since) && n.zone.day(since) < a && n.Start(d) < n.End(a)
    ensures n.End(d) <= n.End(a)
  {
    var at, sunrise := n.End(a), FirstAfter(n.sunrises, n.Start(a));
    if sunrise.Some? {
      FirstAfterIsLeast(n.sunrises, n.Start(d), at);
    } else if d <= a {
      StartsAscend(n, since, d, a);
      NightIsNotEmpty(n, since, a);
      if d < a { FallbacksAscend(n, since, d, a); }
    } else {
      StartsAscend(n, since, a, d);
      if a + 1 < d { ResolveByDate(n.zone, since, a + 1, FALLBACK_SECOND, d, n.startSecond); }
      ResolveByDate(n.zone, since, a, FALLBACK_SECOND, d, n.startSecond);
    }
  }

  // ----- zones that satisfy the assumptions

  function LocalDay(second: int): int {
    second / SECONDS_PER_DAY
  }

  /** What a clock with the given offsets reads. */
  function Clock(offset: int -> int, t: int): int {
    t + offset(t)
  }

  /** The first instant of a range at which the clock reads at least the local time, or its end. */
  function FirstReading(offset: int -> int, local: int, from: int, room: nat): int
    decreases room
  {
    if room == 0 || Clock(offset, from) >= local then from else FirstReading(offset, local, from + 1, room - 1)
  }

  /** The zone of a clock whose offsets stay within a bound, however often they change. A local time a change
      skips resolves to the change itself, and one it repeats to its first occurrence. */
  function ClockZone(offset: int -> int, bound: nat): Zone {
    Zone(
      t => LocalDay(Clock(offset, t)),
      (d: int, s: nat) => FirstReading(offset, d * SECONDS_PER_DAY + s, d * SECONDS_PER_DAY + s - bound, 2 * bound))
  }

  ghost predicate Bounded(offset: int -> int, bound: nat) {
    forall t :: 0 <= offset(t) + bound && offset(t) <= bound
  }

  lemma {:induction false} FirstReadingIsLeast(offset: int -> int, local: int, from: int, room: nat, t: int)
    ensures from <= FirstReading(offset, local, from, room) <= from + room
    ensures from <= t < FirstReading(offset, local, from, room) ==> Clock(offset, t) < local
    ensures FirstReading(offset, local, from, room) < from + room
            ==> Clock(offset, FirstReading(offset, local, from, room)) >= local
    decreases room
  {
    if room > 0 && Clock(offset, from) < local {
      FirstReadingIsLeast(offset, local, from + 1, room - 1, t);
    }
  }

  /** A local time resolves to the first instant at which the clock reads at least it. */
  lemma ResolvesToFirst(offset: int -> int, bound: nat, d: int, s: nat, t: int)
    requires Bounded(offset, bound)
    ensures var r, local := ClockZone(offset, bound).resolve(d, s), d * SECONDS_PER_DAY + s;
            Clock(offset, r) >= local && (t < r ==> Clock(offset, t) < local)
  {
    var local := d * SECONDS_PER_DAY + s;
    var r := FirstReading(offset, local, local - bound, 2 * bound);
    FirstReadingIsLeast(offset, local, local - bound, 2 * bound, t);
    assert 0 <= offset(r) + bound && offset(r) <= bound && 0 <= offset(t) + bound && offset(t) <= bound;
  }

  /** From the instant on the local date never goes back, nor to one already passed, and no change skips more
      than seven hours. */
  ghost predicate SteadyFrom(offset: int -> int, since: int) {
    && (forall t :: t <= since ==> LocalDay(Clock(offset, t)) <= LocalDay(Clock(offset, since)))
    && (forall t :: since < t ==> StepsForward(offset, t))
  }

  predicate StepsForward(offset: int -> int, t: int) {
    && LocalDay(Clock(offset, t - 1)) <= LocalDay(Clock(offset, t))
    && Clock(offset, t) - Clock(offset, t - 1) <= 1 + FALLBACK_SECOND
  }

  lemma {:induction false} DatesAscend(offset: int -> int, since: int, t: int, u: int)
    requires SteadyFrom(offset, since) && since <= u && t <= u
    ensures LocalDay(Clock(offset, t)) <= LocalDay(Clock(offset, u))
    decreases u - since
  {
    if t < u && since < u {
      DatesAscend(offset, since, t, u - 1);
      assert StepsForward(offset, u);
    }
  }

  lemma LocalDayBounds(second: int)
    ensures LocalDay(second) * SECONDS_PER_DAY <= second < LocalDay(second) * SECONDS_PER_DAY + SECONDS_PER_DAY
  {}

  lemma LaterDay(d: int, e: int)
    requires d < e
    ensures d * SECONDS_PER_DAY + SECONDS_PER_DAY <= e * SECONDS_PER_DAY
  {}

  lemma SteadyDateOrder(offset: int -> int, bound: nat, since: int, t: int, d: int, s: nat)
    requires Bounded(offset, bound) && SteadyFrom(offset, since) && since <= t && s < SECONDS_PER_DAY
    ensures ClockZone(offset, bound).DateOrdered(t, d, s)
  {
    var z := ClockZone(offset, bound);
    var r := z.resolve(d, s);
    ResolvesToFirst(offset, bound, d, s, t);
    LocalDayBounds(Clock(offset, t));
    LocalDayBounds(Clock(offset, r));
    if z.day(t) < d && r <= t {
      DatesAscend(offset, since, r, t);
      LaterDay(z.day(r), d);
    }
    if d < z.day(t) { LaterDay(d, z.day(t)); }
  }

  lemma SteadyMorning(offset: int -> int, bound: nat, since: int, d: int, s: nat)
    requires Bounded(offset, bound) && SteadyFrom(offset, since) && s < SECONDS_PER_DAY
    requires ClockZone(offset, bound).day(since) < d
    ensures ClockZone(offset, bound).MorningFollows(d, s)
  {
    var z := ClockZone(offset, bound);
    var morning := z.resolve(d + 1, FALLBACK_SECOND);
    SteadyDateOrder(offset, bound, since, since, d + 1, FALLBACK_SECOND);
    ResolvesToFirst(offset, bound, d + 1, FALLBACK_SECOND, since);
    assert StepsForward(offset, morning);
    ResolvesToFirst(offset, bound, d, s, morning - 1);
  }

  /** Every clock, with any number of changes of offset, satisfies the ordering assumptions from the instant on
      from which it is steady. */
  lemma SteadyClockIsRegular(offset: int -> int, bound: nat, since: int)
    requires Bounded(offset, bound) && SteadyFrom(offset, since)
    ensures ClockZone(offset, bound).RegularFrom(since)
  {
    var z := ClockZone(offset, bound);
    forall t, d, s | since <= t && 0 <= s < SECONDS_PER_DAY ensures z.DateOrdered(t, d, s) {
      SteadyDateOrder(offset, bound, since, t, d, s);
    }
    forall d, s | z.day(since) < d && 0 <= s < SECONDS_PER_DAY ensures z.MorningFollows(d, s) {
      SteadyMorning(offset, bound, since, d, s);
    }
  }

  /** A change of offset at one instant. */
  function OneTransition(before: int, after: int, at: int): int -> int {
    t => if t < at then before else after
  }

  /** Such a change is steady if it skips at most seven hours and does not carry the local date backwards; a fixed
      offset is the case before == after. */
  lemma OneTransitionIsRegular(before: int, after: int, at: int, bound: nat, since: int)
    requires 0 <= before + bound && before <= bound && 0 <= after + bound && after <= bound
    requires after - before <= FALLBACK_SECOND
    requires LocalDay(at - 1 + before) <= LocalDay(at + after)
    ensures ClockZone(OneTransition(before, after, at), bound).RegularFrom(since)
  {
    var offset := OneTransition(before, after, at);
    forall t | t <= since ensures LocalDay(Clock(offset, t)) <= LocalDay(Clock(offset, since)) {
      if t < at <= since {
        LaterClock(t + before, at - 1 + before);
        LaterClock(at + after, since + after);
      } else {
        LaterClock(Clock(offset, t), Clock(offset, since));
      }
    }
    forall t | since < t ensures StepsForward(offset, t) {
      if t != at { LaterClock(Clock(offset, t - 1), Clock(offset, t)); }
    }
    SteadyClockIsRegular(offset, bound, since);
  }

  lemma LaterClock(a: int, b: int)
    requires a <= b
    ensures LocalDay(a) <= LocalDay(b)
  {}

  // ----- the program

  datatype Period = Day | Night_

  datatype Transition = Transition(at: int, period: Period)

  datatype Facts = Facts(start: int, end: int)

  datatype SolarStatus =
    Disabled | Waiting | Upcoming(facts: Facts) | Active(facts: Facts) | FallbackNight(facts: Facts)

  datatype DisplayPolicy = DisplayPolicy(
    period: Period, brightnessPercent: nat, color: FrameColorMode, nextTransition: Option<Transition>,
    status: SolarStatus)

  function DayPolicy(settings: RadarSettings, next: Option<Transition>, status: SolarStatus): DisplayPolicy {
    DisplayPolicy(Day, settings.brightness.dayPercent, FullColor, next, status)
  }

  /** The rows of an acceptable schedule: distinct dates, each sunrise on its own local date. */
  ghost predicate AcceptableDays(days: seq<SolarDay>, zone: Zone) {
    && (forall i :: 0 <= i < |days| ==> AcceptableDay(days[i], zone))
    && (forall i, j :: 0 <= i < j < |days| ==> days[i].date != days[j].date)
  }

  /** One more row, accepted exactly when it is acceptable itself and its date is new. */
  lemma AcceptableDaysGrow(days: seq<SolarDay>, day: SolarDay, zone: Zone)
    requires AcceptableDays(days, zone)
    ensures AcceptableDays(days + [day], zone) <==> AcceptableDay(day, zone) && day.date !in Dates(days)
  {
    var all := days + [day];
    assert all[|days|] == day && all[..|days|] == days;
    if day.date in Dates(days) {
      var i :| 0 <= i < |days| && days[i].date == day.date;
      assert all[i].date == all[|days|].date;
    }
  }

  lemma AcceptableDaysMean(days: seq<SolarDay>, zone: Zone)
    ensures AcceptableDays(days, zone) <==>
              && (forall i, j :: 0 <= i < j < |days| ==> days[i].date != days[j].date)
              && forall i :: 0 <= i < |days| ==>
                   && days[i].date.Some?
                   && (days[i].sunrise.Some? ==>
                         && -377705023201 <= days[i].sunrise.value <= 253402207200
                         && zone.day(days[i].sunrise.value) == days[i].date.value)
  {
    if forall i :: 0 <= i < |days| ==>
         && days[i].date.Some?
         && (days[i].sunrise.Some? ==>
               && -377705023201 <= days[i].sunrise.value <= 253402207200
               && zone.day(days[i].sunrise.value) == days[i].date.value)
    {
      assert forall i :: 0 <= i < |days| ==> AcceptableDay(days[i], zone);
    }
  }

  function Dates(days: seq<SolarDay>): set<Option<int>> {
    set d | d in days :: d.date
  }

  lemma AcceptablePrefix(days: seq<SolarDay>, n: nat, zone: Zone)
    requires n <= |days|
    ensures AcceptableDays(days, zone) ==> AcceptableDays(days[..n], zone)
  {}

  predicate AcceptableDay(day: SolarDay, zone: Zone) {
    && day.date.Some?
    && (day.sunrise.Some? ==>
          MIN_TIMESTAMP <= day.sunrise.value <= MAX_TIMESTAMP && zone.day(day.sunrise.value) == day.date.value)
  }

  ghost predicate AcceptableSchedule(schedule: SolarSchedule, zones: string -> Option<Zone>) {
    && schedule.schemaVersion == SOLAR_SCHEMA_VERSION
    && |schedule.days| == SOLAR_DAY_COUNT
    && -90.0 <= schedule.latitude <= 90.0
    && -180.0 <= schedule.longitude <= 180.0
    && zones(schedule.timeZone).Some?
    && AcceptableDays(schedule.days, zones(schedule.timeZone).value)
  }

  /** The sunrises the rows list, in the order of the rows. */
  function Sunrises(days: seq<SolarDay>): (r: seq<int>)
    ensures forall x :: x in r <==> exists i :: 0 <= i < |days| && days[i].sunrise == Some(x)
  {
    if days == [] then []
    else
      var before, last := days[..|days| - 1], days[|days| - 1];
      assert days == before + [last];
      Sunrises(before) + (if last.sunrise.Some? then [last.sunrise.value] else [])
  }

  /** The rows that list an instant as their sunrise. */
  ghost function RowsListing(days: seq<SolarDay>, x: int): set<int> {
    set i | 0 <= i < |days| && days[i].sunrise == Some(x)
  }

  /** Every row's sunrise is listed once for that row. */
  lemma {:induction false} EverySunriseCounts(days: seq<SolarDay>, x: int)
    ensures multiset(Sunrises(days))[x] == |RowsListing(days, x)|
  {
    if days != [] {
      var n := |days| - 1;
      var before, last := days[..n], days[n];
      EverySunriseCounts(before, x);
      OneMoreRow(before, last, x);
      assert days == before + [last];
    }
  }

  lemma SunrisesGrow(days: seq<SolarDay>, last: SolarDay)
    ensures Sunrises([]) == []
    ensures Sunrises(days + [last])
         == Sunrises(days) + (if last.sunrise.Some? then [last.sunrise.value] else [])
    ensures Dates([]) == {} && Dates(days + [last]) == Dates(days) + {last.date}
  {
    assert (days + [last])[..|days|] == days;
  }

  lemma OneMoreRow(days: seq<SolarDay>, last: SolarDay, x: int)
    ensures |RowsListing(days + [last], x)| == |RowsListing(days, x)| + (if last.sunrise == Some(x) then 1 else 0)
  {
    assert RowsListing(days + [last], x)
        == RowsListing(days, x) + (if last.sunrise == Some(x) then {|days|} else {});
  }

  predicate AtMost(a: int, b: int) {
    a <= b
  }

  function Sorted(s: seq<int>): (r: seq<int>)
    ensures multiset(r) == multiset(s)
  {
    Sort(AtMost, s)
  }

  lemma SortedAscends(s: seq<int>)
    ensures Ascending(Sorted(s))
  {
    SortIsOrdered(AtMost, s);
    assert forall i, j :: 0 <= i < j < |Sorted(s)| ==> AtMost(Sorted(s)[i], Sorted(s)[j]);
  }

  method ValidatedSchedule(schedule: SolarSchedule, zones: string -> Option<Zone>)
    returns (r: Option<(Zone, seq<int>)>)
    ensures r.Some? <==> AcceptableSchedule(schedule, zones)
    ensures r.Some? <==>
              && schedule.schemaVersion == 1 && |schedule.days| == 17
              && -90.0 <= schedule.latitude <= 90.0 && -180.0 <= schedule.longitude <= 180.0
              && zones(schedule.timeZone).Some?
              && AcceptableDays(schedule.days, zones(schedule.timeZone).value)
    ensures r.Some? ==> r.value == (zones(schedule.timeZone).value, Sorted(Sunrises(schedule.days)))
  {
    if schedule.schemaVersion != SOLAR_SCHEMA_VERSION || |schedule.days| != SOLAR_DAY_COUNT
       || !(-90.0 <= schedule.latitude <= 90.0) || !(-180.0 <= schedule.longitude <= 180.0)
    {
      return None;
    }
    var lookup := zones(schedule.timeZone);
    if lookup.None? {
      return None;
    }
    var sunrises := CollectSunrises(schedule.days, lookup.value);
    if sunrises.None? {
      return None;
    }
    r := Some((lookup.value, Sorted(sunrises.value)));
  }

  method CollectSunrises(days: seq<SolarDay>, zone: Zone) returns (r: Option<seq<int>>)
    ensures r.Some? <==> AcceptableDays(days, zone)
    ensures r.Some? <==>
              && (forall i, j :: 0 <= i < j < |days| ==> days[i].date != days[j].date)
              && forall i :: 0 <= i < |days| ==>
                   && days[i].date.Some?
                   && (days[i].sunrise.Some? ==>
                         && -377705023201 <= days[i].sunrise.value <= 253402207200
                         && zone.day(days[i].sunrise.value) == days[i].date.value)
    ensures r.Some? ==> r.value == Sunrises(days)
    ensures r.Some? ==> forall x :: multiset(r.value)[x] == |RowsListing(days, x)|
  {
    assert AcceptableDays(days[..0], zone);
    hide AcceptableDay, AcceptableDays, Sunrises, RowsListing, Dates;
    SunrisesGrow([], SolarDay(None, None));
    var seen: set<Option<int>> := {};
    var sunrises: seq<int> := [];
    for i := 0 to |days|
      invariant AcceptableDays(days[..i], zone)
      invariant seen == Dates(days[..i])
      invariant sunrises == Sunrises(days[..i])
    {
      var day := days[i];
      assert days[..i + 1] == days[..i] + [day] && days[..i + 1][..i] == days[..i];
      AcceptableDaysGrow(days[..i], day, zone);
      AcceptablePrefix(days, i + 1, zone);
      SunrisesGrow(days[..i], day);
      if !AcceptableDay(day, zone) || day.date in seen {
        AcceptableDaysMean(days, zone);
        return None;
      }
      seen := seen + {day.date};
      if day.sunrise.Some? {
        sunrises := sunrises + [day.sunrise.value];
      }
    }
    assert days[..|days|] == days;
    AcceptableDaysMean(days, zone);
    forall x ensures multiset(sunrises)[x] == |RowsListing(days, x)| {
      EverySunriseCounts(days, x);
    }
    r := Some(sunrises);
  }

  function NightsOf(settings: RadarSettings, schedule: SolarSchedule, zone: Zone): Nights {
    Nights(zone, Sorted(Sunrises(schedule.days)),
        settings.brightness.night.startHour * 3600 + settings.brightness.night.startMinute * 60)
  }

  function FactsOf(n: Nights, d: int): Facts {
    Facts(n.Start(d), n.End(d))
  }

  predicate HasSunrise(n: Nights, d: int) {
    FirstAfter(n.sunrises, n.Start(d)).Some?
  }

  /** Night exactly when some night of all dates holds now, and a transition that comes at the first
      instant the period can change. */
  ghost predicate Correct(p: DisplayPolicy, settings: RadarSettings, n: Nights, now: int) {
    && p.nextTransition.Some?
    && var at := p.nextTransition.value.at;
    && now < at
    && (forall t :: now <= t < at ==> (n.NightAt(t) <==> n.NightAt(now)))
    && (if n.NightAt(now) then NightPolicyAt(p, settings, n, now, at) else DayPolicyAt(p, settings, n, now, at))
  }

  /** The latest date whose night holds now decides. */
  ghost predicate NightPolicyAt(p: DisplayPolicy, settings: RadarSettings, n: Nights, now: int, at: int) {
    && (n.NightAt(at) <==> n.NightStartsAt(at))
    && exists d :: n.Contains(d, now) && n.End(d) == at && (forall e :: d < e ==> !n.Contains(e, now))
                   && p == NightPolicyOf(settings, n, d)
  }

  function NightPolicyOf(settings: RadarSettings, n: Nights, d: int): DisplayPolicy {
    DisplayPolicy(Night_, settings.brightness.night.brightnessPercent,
                  if settings.brightness.night.redMode then RedOnly else FullColor,
                  Some(Transition(n.End(d), Day)),
                  if HasSunrise(n, d) then Active(FactsOf(n, d)) else FallbackNight(FactsOf(n, d)))
  }

  /** The first date whose night is still to start decides. */
  ghost predicate DayPolicyAt(p: DisplayPolicy, settings: RadarSettings, n: Nights, now: int, at: int) {
    && n.NightAt(at)
    && exists d :: now < n.Start(d) && n.Start(d) == at && (forall e :: e < d ==> n.Start(e) <= now)
                   && p == DayPolicyOf(settings, n, d)
  }

  function DayPolicyOf(settings: RadarSettings, n: Nights, d: int): DisplayPolicy {
    DayPolicy(settings, Some(Transition(n.Start(d), Night_)),
              if HasSunrise(n, d) then Upcoming(FactsOf(n, d)) else FallbackNight(FactsOf(n, d)))
  }

  /** What the window of yesterday, today and tomorrow says: the latest of its nights that holds now, failing that
      the first still to start, failing that to wait. */
  ghost predicate Windowed(p: DisplayPolicy, settings: RadarSettings, n: Nights, now: int) {
    var today := n.zone.day(now);
    || (exists d :: today - 1 <= d <= today + 1 && n.Contains(d, now)
                    && (forall e :: d < e <= today + 1 ==> !n.Contains(e, now)) && p == NightPolicyOf(settings, n, d))
    || (&& (forall d :: today - 1 <= d <= today + 1 ==> !n.Contains(d, now))
        && exists d :: today - 1 <= d <= today + 1 && now < n.Start(d)
                       && (forall e :: today - 1 <= e < d ==> n.Start(e) <= now) && p == DayPolicyOf(settings, n, d))
    || (&& (forall d :: today - 1 <= d <= today + 1 ==> !n.Contains(d, now) && n.Start(d) <= now)
        && p == DayPolicy(settings, None, Waiting))
  }

  /** Whatever the zone does, a night that is shown is the night of some date, and lasts until the end announced. */
  lemma ShownNightIsNight(p: DisplayPolicy, settings: RadarSettings, n: Nights, now: int)
    requires Windowed(p, settings, n, now) && p.period.Night_?
    ensures p.nextTransition.Some? && now < p.nextTransition.value.at
    ensures forall t :: now <= t < p.nextTransition.value.at ==> n.NightAt(t)
  {
    var d :| n.Contains(d, now) && p == NightPolicyOf(settings, n, d);
    hide Nights.End, FirstAfter;
    assert NightPolicyOf(settings, n, d).nextTransition == Some(Transition(n.End(d), Day));
    forall t | now <= t < n.End(d) ensures n.NightAt(t) {
      StillContains(n, d, now, t);
    }
  }

  lemma StillContains(n: Nights, d: int, now: int, t: int)
    requires n.Contains(d, now) && now <= t < n.End(d)
    ensures n.Contains(d, t)
  {}

  // ----- the policy, read off the rows

  /** The night of date d, read off the rows: it runs from the chosen time to the least listed sunrise later than
      that; with no later one, to seven in the morning, of the next date if seven has passed when it starts. */
  ghost predicate NightOfRows(f: Facts, sunrise: bool, night: NightModeSettings, days: seq<SolarDay>, zone: Zone,
                              d: int) {
    && f.start == zone.resolve(d, night.startHour * 3600 + night.startMinute * 60)
    && if sunrise then
         && f.start < f.end
         && (exists i :: 0 <= i < |days| && days[i].sunrise == Some(f.end))
         && (forall i :: 0 <= i < |days| && days[i].sunrise.Some? && f.start < days[i].sunrise.value
                         ==> f.end <= days[i].sunrise.value)
       else
         && (forall i :: 0 <= i < |days| && days[i].sunrise.Some? ==> days[i].sunrise.value <= f.start)
         && (if zone.resolve(d, 25200) > f.start then f.end == zone.resolve(d, 25200)
             else f.end == zone.resolve(d + 1, 25200))
  }

  /** Every date has exactly one such night, and it is the one the program works with. */
  lemma NightIsReadOff(settings: RadarSettings, schedule: SolarSchedule, zone: Zone, d: int, f: Facts, sunrise: bool)
    ensures NightOfRows(f, sunrise, settings.brightness.night, schedule.days, zone, d) <==>
              var n := NightsOf(settings, schedule, zone);
              f == FactsOf(n, d) && sunrise == HasSunrise(n, d)
  {
    var n, days := NightsOf(settings, schedule, zone), schedule.days;
    LeastListed(days, n.Start(d), f.end);
    NoneListed(days, n.Start(d));
    hide FirstAfter, Sorted, Sunrises;
  }

  lemma LeastListed(days: seq<SolarDay>, t: int, x: int)
    ensures FirstAfter(Sorted(Sunrises(days)), t) == Some(x) <==>
              && t < x
              && (exists i :: 0 <= i < |days| && days[i].sunrise == Some(x))
              && (forall i :: 0 <= i < |days| && days[i].sunrise.Some? && t < days[i].sunrise.value
                              ==> x <= days[i].sunrise.value)
  {
    SortedAscends(Sunrises(days));
    SortedLists(days);
    FirstAfterMeans(Sorted(Sunrises(days)), t, x);
    hide *;
  }

  lemma NoneListed(days: seq<SolarDay>, t: int)
    ensures FirstAfter(Sorted(Sunrises(days)), t).None? <==>
              forall i :: 0 <= i < |days| && days[i].sunrise.Some? ==> days[i].sunrise.value <= t
  {
    SortedAscends(Sunrises(days));
    SortedLists(days);
    FirstAfterMeans(Sorted(Sunrises(days)), t, t);
    hide *;
  }

  lemma SortedLists(days: seq<SolarDay>)
    ensures forall i :: 0 <= i < |days| && days[i].sunrise.Some? ==> days[i].sunrise.value in Sorted(Sunrises(days))
    ensures forall x :: x in Sorted(Sunrises(days)) <==> exists i :: 0 <= i < |days| && days[i].sunrise == Some(x)
  {
    var s := Sunrises(days);
    assert forall x :: x in Sorted(s) <==> x in multiset(Sorted(s));
    assert forall x :: x in s <==> x in multiset(s);
    hide Sorted;
    forall i | 0 <= i < |days| && days[i].sunrise.Some? ensures days[i].sunrise.value in Sorted(s) {
      assert days[i].sunrise == Some(days[i].sunrise.value);
    }
  }

  /** Whether night holds now by the rows of date d. */
  ghost predicate HeldByRows(settings: RadarSettings, days: seq<SolarDay>, zone: Zone, d: int, now: int) {
    exists f, sunrise :: NightOfRows(f, sunrise, settings.brightness.night, days, zone, d) && f.start <= now < f.end
  }

  ghost predicate NightShown(p: DisplayPolicy, settings: RadarSettings, days: seq<SolarDay>, zone: Zone, now: int,
                             d: int) {
    exists f, sunrise :: NightOfRows(f, sunrise, settings.brightness.night, days, zone, d) && f.start <= now < f.end
      && p == DisplayPolicy(Night_, settings.brightness.night.brightnessPercent,
                            if settings.brightness.night.redMode then RedOnly else FullColor,
                            Some(Transition(f.end, Day)), if sunrise then Active(f) else FallbackNight(f))
  }

  ghost predicate NightAwaited(p: DisplayPolicy, settings: RadarSettings, days: seq<SolarDay>, zone: Zone, now: int,
                               d: int) {
    exists f, sunrise :: NightOfRows(f, sunrise, settings.brightness.night, days, zone, d) && now < f.start
      && p == DisplayPolicy(Day, settings.brightness.dayPercent, FullColor,
                            Some(Transition(f.start, Night_)), if sunrise then Upcoming(f) else FallbackNight(f))
  }

  function StartOf(night: NightModeSettings, zone: Zone, d: int): int {
    zone.resolve(d, night.startHour * 3600 + night.startMinute * 60)
  }

  /** Of the nights of yesterday, today and tomorrow the last that holds now is shown; if none holds, the first that
      is still to start is awaited; if there is neither, the display waits. */
  ghost predicate ReadOff(p: DisplayPolicy, settings: RadarSettings, days: seq<SolarDay>, zone: Zone, now: int) {
    var today := zone.day(now);
    if exists d :: today - 1 <= d <= today + 1 && HeldByRows(settings, days, zone, d, now) then
      exists d :: today - 1 <= d <= today + 1 && NightShown(p, settings, days, zone, now, d)
        && forall e :: d < e <= today + 1 ==> !HeldByRows(settings, days, zone, e, now)
    else if exists d :: today - 1 <= d <= today + 1 && now < StartOf(settings.brightness.night, zone, d) then
      exists d :: today - 1 <= d <= today + 1 && NightAwaited(p, settings, days, zone, now, d)
        && forall e :: today - 1 <= e < d ==> StartOf(settings.brightness.night, zone, e) <= now
    else p == DisplayPolicy(Day, settings.brightness.dayPercent, FullColor, None, Waiting)
  }

  lemma HeldIsContained(settings: RadarSettings, schedule: SolarSchedule, zone: Zone, d: int, now: int)
    ensures HeldByRows(settings, schedule.days, zone, d, now) <==> NightsOf(settings, schedule, zone).Contains(d, now)
  {
    var n := NightsOf(settings, schedule, zone);
    forall f, sunrise ensures NightOfRows(f, sunrise, settings.brightness.night, schedule.days, zone, d) <==>
                                f == FactsOf(n, d) && sunrise == HasSunrise(n, d) {
      NightIsReadOff(settings, schedule, zone, d, f, sunrise);
    }
    hide NightOfRows;
    assert NightOfRows(FactsOf(n, d), HasSunrise(n, d), settings.brightness.night, schedule.days, zone, d);
  }

  /** What the window says is what the rows say. */
  lemma WindowReadsOff(p: DisplayPolicy, settings: RadarSettings, schedule: SolarSchedule, zone: Zone, now: int)
    requires Windowed(p, settings, NightsOf(settings, schedule, zone), now)
    ensures ReadOff(p, settings, schedule.days, zone, now)
  {
    var n, days := NightsOf(settings, schedule, zone), schedule.days;
    forall d ensures HeldByRows(settings, days, zone, d, now) <==> n.Contains(d, now) {
      HeldIsContained(settings, schedule, zone, d, now);
    }
    forall d ensures NightOfRows(FactsOf(n, d), HasSunrise(n, d), settings.brightness.night, days, zone, d) {
      NightIsReadOff(settings, schedule, zone, d, FactsOf(n, d), HasSunrise(n, d));
    }
    assert forall d :: StartOf(settings.brightness.night, zone, d) == n.Start(d);
    forall d | n.Contains(d, now) && p == NightPolicyOf(settings, n, d)
      ensures NightShown(p, settings, days, zone, now, d)
    {
      hide NightOfRows, HasSunrise, Nights.End;
    }
    forall d | now < n.Start(d) && p == DayPolicyOf(settings, n, d)
      ensures NightAwaited(p, settings, days, zone, now, d)
    {
      hide NightOfRows, HasSunrise, Nights.End;
    }
    hide NightOfRows, HeldByRows, NightShown, NightAwaited, StartOf, NightPolicyOf, DayPolicyOf, Nights.Contains,
      Nights.Start;
  }

  datatype Interval = Interval(facts: Facts, fallback: bool)

  function IntervalOf(n: Nights, d: int): Interval {
    Interval(FactsOf(n, d), !HasSunrise(n, d))
  }

  /** By day without night mode, and while there is no acceptable schedule for the place; otherwise as the rows say,
      and from two dates after the last irregular change of the clock as the nights of all dates say. */
  ghost predicate PolicyFor(policy: DisplayPolicy, settings: RadarSettings, schedule: Option<SolarSchedule>,
                            zones: string -> Option<Zone>, now: nat) {
    var night := settings.brightness.night;
    if !night.enabled then policy == DisplayPolicy(Day, settings.brightness.dayPercent, FullColor, None, Disabled)
    else if && settings.location.Some? && schedule.Some?
            && schedule.value.latitude == settings.location.value.latitude
            && schedule.value.longitude == settings.location.value.longitude
            && night.startHour <= 23 && night.startMinute <= 59
            && AcceptableSchedule(schedule.value, zones) && now <= 253402207200
    then
      && var zone := zones(schedule.value.timeZone).value;
      && ReadOff(policy, settings, schedule.value.days, zone, now)
      && var n := NightsOf(settings, schedule.value, zone);
      && Windowed(policy, settings, n, now)
      && (forall since :: zone.SettledSince(since, now) ==> Correct(policy, settings, n, now))
    else policy == DisplayPolicy(Day, settings.brightness.dayPercent, FullColor, None, Waiting)
  }

  /** What the display should do at `unixSeconds`. */
  method Display(settings: RadarSettings, schedule: Option<SolarSchedule>, zones: string -> Option<Zone>,
                 unixSeconds: nat)
    returns (policy: DisplayPolicy)
    ensures PolicyFor(policy, settings, schedule, zones, unixSeconds)
  {
    if !settings.brightness.night.enabled {
      return DayPolicy(settings, None, Disabled);
    }
    if settings.location.None? || schedule.None?
       || schedule.value.latitude != settings.location.value.latitude
       || schedule.value.longitude != settings.location.value.longitude
       || settings.brightness.night.startHour > 23 || settings.brightness.night.startMinute > 59
    {
      return DayPolicy(settings, None, Waiting);
    }
    var validated := ValidatedSchedule(schedule.value, zones);
    if validated.None? || unixSeconds > MAX_TIMESTAMP {
      return DayPolicy(settings, None, Waiting);
    }
    var n := NightsOf(settings, schedule.value, validated.value.0);
    SortedAscends(Sunrises(schedule.value.days));
    var today := n.zone.day(unixSeconds);
    var intervals := Window(n, today);
    policy := FromWindow(settings, n, today, unixSeconds, intervals);
    WindowReadsOff(policy, settings, schedule.value, n.zone, unixSeconds);
    forall since | n.zone.SettledSince(since, unixSeconds) ensures Correct(policy, settings, n, unixSeconds) {
      WindowIsCorrect(policy, settings, n, since, unixSeconds);
    }
  }

  /** The nights of yesterday, today and tomorrow. */
  method Window(n: Nights, today: int) returns (intervals: seq<Interval>)
    ensures |intervals| == 3
    ensures forall i :: 0 <= i < 3 ==> intervals[i] == IntervalOf(n, today - 1 + i)
  {
    intervals := [];
    for offset := -1 to 2
      invariant |intervals| == offset + 1
      invariant forall i :: 0 <= i < |intervals| ==> intervals[i] == IntervalOf(n, today - 1 + i)
    {
      var date := today + offset;
      var start := n.zone.resolve(date, n.startSecond);
      var sunrise := FirstAfter(n.sunrises, start);
      var end := if sunrise.Some? then sunrise.value else n.Fallback(date);
      intervals := intervals + [Interval(Facts(start, end), sunrise.None?)];
    }
  }

  /** The last interval that holds now decides; failing that, the first that starts later. */
  method FromWindow(settings: RadarSettings, n: Nights, today: int, now: int, intervals: seq<Interval>)
    returns (policy: DisplayPolicy)
    requires today == n.zone.day(now)
    requires |intervals| == 3 && forall i :: 0 <= i < 3 ==> intervals[i] == IntervalOf(n, today - 1 + i)
    ensures Windowed(policy, settings, n, now)
  {
    var i := 3;
    while i > 0
      invariant 0 <= i <= 3
      invariant forall d :: today - 1 + i <= d <= today + 1 ==> !n.Contains(d, now)
    {
      i := i - 1;
      var candidate := intervals[i];
      if candidate.facts.start <= now < candidate.facts.end {
        policy := DisplayPolicy(
          Night_, settings.brightness.night.brightnessPercent,
          if settings.brightness.night.redMode then RedOnly else FullColor,
          Some(Transition(candidate.facts.end, Day)),
          if candidate.fallback then FallbackNight(candidate.facts) else Active(candidate.facts));
        assert n.Contains(today - 1 + i, now) && policy == NightPolicyOf(settings, n, today - 1 + i);
        return;
      }
    }
    while i < 3
      invariant 0 <= i <= 3
      invariant forall d :: today - 1 <= d < today - 1 + i ==> n.Start(d) <= now
    {
      var candidate := intervals[i];
      if candidate.facts.start > now {
        policy := DayPolicy(settings, Some(Transition(candidate.facts.start, Night_)),
                            if candidate.fallback then FallbackNight(candidate.facts) else Upcoming(candidate.facts));
        assert now < n.Start(today - 1 + i) && policy == DayPolicyOf(settings, n, today - 1 + i);
        return;
      }
      i := i + 1;
    }
    return DayPolicy(settings, None, Waiting);
  }

  /** Two dates after the last irregular change the window says what the nights of all dates say. */
  lemma WindowIsCorrect(p: DisplayPolicy, settings: RadarSettings, n: Nights, since: int, now: int)
    requires n.ValidFrom(since) && since <= now && n.zone.day(since) + 2 <= n.zone.day(now)
    requires Windowed(p, settings, n, now)
    ensures Correct(p, settings, n, now)
  {
    var today := n.zone.day(now);
    if d :| today - 1 <= d <= today + 1 && n.Contains(d, now)
            && (forall e :: d < e <= today + 1 ==> !n.Contains(e, now)) && p == NightPolicyOf(settings, n, d)
    {
      NightLastsUntilEnd(n, since, d, now);
      forall e | d < e ensures !n.Contains(e, now) {
        assert e > today + 1 ==> n.zone.DateOrdered(now, e, n.startSecond);
      }
    } else {
      forall d ensures !n.Contains(d, now) {
        if n.Contains(d, now) { WindowIsComplete(n, since, d, now); }
      }
      assert n.zone.DateOrdered(now, today + 1, n.startSecond) && now < n.Start(today + 1);
      var d :| today - 1 <= d <= today + 1 && now < n.Start(d)
               && (forall e :: today - 1 <= e < d ==> n.Start(e) <= now) && p == DayPolicyOf(settings, n, d);
      FirstStartIsNext(n, since, d, now);
      forall e | e < d ensures n.Start(e) <= now {
        assert e < today ==> n.zone.DateOrdered(now, e, n.startSecond);
      }
    }
  }

  lemma NightLastsUntilEnd(n: Nights, since: int, d: int, now: int)
    requires n.ValidFrom(since) && n.zone.day(since) < d && n.Contains(d, now)
    ensures var at := n.End(d);
            now < at && (n.NightAt(at) <==> n.NightStartsAt(at)) && forall t :: now <= t < at ==> n.NightAt(t)
  {
    NightEndsAtEnd(n, since, d);
    forall t | now <= t < n.End(d) ensures n.NightAt(t) {
      assert n.Contains(d, t);
    }
  }

  /** The first start after now in the window is where the day ends. */
  lemma FirstStartIsNext(n: Nights, since: int, d: int, now: int)
    requires n.ValidFrom(since) && since <= now && n.zone.day(since) + 2 <= n.zone.day(now)
    requires !n.NightAt(now) && now < n.Start(d)
    requires var today := n.zone.day(now); d <= today + 1 && forall e :: today - 1 <= e < d ==> n.Start(e) <= now
    ensures var at := n.Start(d); n.NightAt(at) && forall t :: now <= t < at ==> !n.NightAt(t)
  {
    var today, at := n.zone.day(now), n.Start(d);
    NextStartIsInWindow(n, since, d, now);
    NightIsNotEmpty(n, since, d);
    assert n.Contains(d, at);
    assert d == today + 1 ==> n.Start(today) <= now;
    forall e | now < n.Start(e) ensures at <= n.Start(e) {
      NextStartIsInWindow(n, since, e, now);
    }
    forall t | now <= t < at ensures !n.NightAt(t) {
      DayLastsUntilNextStart(n, now, t, at);
    }
  }
}
