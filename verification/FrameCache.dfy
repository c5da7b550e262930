/**
 The display loop of src/app.rs: a frame is redrawn only when its render key changes. A frame stands for
 everything the rasterisers read to draw it, so equal frames have equal pixels whatever the rasterisers do.
*/
module FrameCache {
  import opened Prelude
  import opened RuntimeTypes
  import opened RuntimeModel
  import opened RuntimeWorkers
  import Backlight
  import NightMode

  const STALE_AFTER: nat := 30 * SECOND
  const ENVIRONMENT_STALE_AFTER: nat := 45 * 60 * SECOND
  /** The last second of the year 9999, where the calendar ends. */
  const LAST_SECOND: int := 253_402_300_799
  const FIRST_SECOND: int := -377_705_116_800
  /** An offset is at most 25:59:59 either way. */
  const LARGEST_OFFSET: int := 93_599

  datatype AppState = SetupRequired | WaitingForNetwork | Radar | Settings
  datatype Gesture = Tap | LongPress

  function SelectState(s: Snapshot, settingsOpen: bool): AppState {
    if s.settings.location.None? then SetupRequired
    else if settingsOpen then Settings
    else if s.hasSuccessfulFetch then Radar
    else WaitingForNetwork
  }

  // ----- how time enters a frame

  predicate IsStale(s: Snapshot, now: nat) {
    s.fetchedAt.Some? && SaturatingSub(now, s.fetchedAt.value) >= STALE_AFTER
  }

  /** The renderer's own test, which subtracts with a check instead of saturating. */
  predicate DrawnStale(fetchedAt: Option<nat>, now: nat) {
    fetchedAt.Some? && now >= fetchedAt.value && now - fetchedAt.value >= STALE_AFTER
  }

  predicate EnvironmentIsStale(reading: Option<EnvironmentReading>, now: nat) {
    reading.Some? && SaturatingSub(now, reading.value.fetchedAt) >= ENVIRONMENT_STALE_AFTER
  }

  datatype RenderKey = RenderKey(
    generation: nat, state: AppState, stale: bool, minute: Option<nat>, environmentStale: bool,
    colorMode: FrameColorMode)

  function KeyOf(s: Snapshot, settingsOpen: bool, now: nat, unix: nat, colorMode: FrameColorMode): RenderKey {
    var state := SelectState(s, settingsOpen);
    var footer := s.settings.footer;
    RenderKey(
      s.generation, state, IsStale(s, now),
      if state == Radar && (footer.showTime || footer.showDate) then Some(unix / 60) else None,
      state == Radar && footer.NeedsEnvironment() && EnvironmentIsStale(s.environment, now),
      colorMode)
  }

  // ----- what a frame is drawn from

  datatype EnvironmentItem =
    | NoReading | StaleReading | Condition(code: nat)
    | Temperature(celsius: real, unit: TemperatureUnit) | Humidity(percent: nat)

  /** Hour and minute, or the day counted from the epoch; none when there is no date to show. */
  datatype TemporalItem =
    | Time(at: Option<(int, int)>, format: ClockFormat, zone: TimeZone)
    | Date(day: Option<int>)

  datatype FooterContent = FooterContent(environment: seq<EnvironmentItem>, temporal: seq<TemporalItem>)

  /** display_date_time: seconds since the epoch on the clock shown. */
  function LocalSeconds(zone: TimeZone, reading: Option<EnvironmentReading>, unix: nat): Option<int> {
    if unix > LAST_SECOND then None
    else if zone == Zulu then Some(unix)
    else if reading.None? then None
    else
      var offset := reading.value.utcOffsetSeconds;
      if offset < -LARGEST_OFFSET || offset > LARGEST_OFFSET then None
      else if unix + offset < FIRST_SECOND || unix + offset > LAST_SECOND then None
      else Some(unix + offset)
  }

  function TimeOf(local: Option<int>): Option<(int, int)> {
    if local.None? then None else Some((local.value / 3600 % 24, local.value / 60 % 60))
  }

  function DayOf(local: Option<int>): Option<int> {
    if local.None? then None else Some(local.value / 86400)
  }

  function EnvironmentItems(footer: FooterSettings, reading: Option<EnvironmentReading>,
                            now: nat): seq<EnvironmentItem> {
    if (footer.showCondition || footer.showTemperature || footer.showHumidity) && reading.None? then [NoReading]
    else if reading.None? then []
    else
      (if footer.NeedsEnvironment() && EnvironmentIsStale(reading, now) then [StaleReading] else [])
      + (if footer.showCondition then [Condition(reading.value.weatherCode)] else [])
      + (if footer.showTemperature then [Temperature(reading.value.temperatureCelsius, footer.temperatureUnit)] else [])
      + (if footer.showHumidity then [Humidity(reading.value.humidityPercent)] else [])
  }

  function TemporalItems(footer: FooterSettings, reading: Option<EnvironmentReading>, unix: nat): seq<TemporalItem> {
    var local := LocalSeconds(footer.timeZone, reading, unix);
    (if footer.showTime then [Time(TimeOf(local), footer.clockFormat, footer.timeZone)] else [])
    + (if footer.showDate then [Date(DayOf(local))] else [])
  }

  function FooterContentOf(footer: FooterSettings, reading: Option<EnvironmentReading>, now: nat,
                           unix: nat): FooterContent {
    FooterContent(EnvironmentItems(footer, reading, now), TemporalItems(footer, reading, unix))
  }

  datatype BackgroundKey = BackgroundKey(
    latitude: real, longitude: real, rangeIndex: nat, units: Units, showRunways: bool, textScalePercent: nat)

  /** None when the settings cannot be drawn. */
  function BackgroundKeyOf(settings: RadarSettings): Option<BackgroundKey> {
    if settings.location.None? then None
    else
      var at := settings.location.value;
      if !(-90.0 <= at.latitude <= 90.0) || !(-180.0 <= at.longitude <= 180.0) then None
      else if settings.rangeIndex >= RANGE_PRESETS then None
      else Some(BackgroundKey(at.latitude, at.longitude, settings.rangeIndex, settings.units, settings.showRunways,
                              settings.radarTextScalePercent))
  }

  /** The nearby airports by position and range: the embedded data never changes. */
  type Nearby = (real, real, nat) -> seq<string>

  datatype Background = Background(key: BackgroundKey, airports: seq<string>)

  datatype Message = Setup | Waiting | Opened

  datatype Scene =
    | Page(localUrl: string, ipUrl: Option<string>, configured: bool, message: Message)
    | RadarScene(background: Background, footer: FooterContent, aircraft: seq<Aircraft>,
                 enrichment: map<AircraftKey, AircraftEnrichment>, settings: RadarSettings, stale: bool)

  datatype Frame = Frame(scene: Scene, colorMode: FrameColorMode)

  /** The scene drawn from scratch; none when drawing fails. */
  function Fresh(nearby: Nearby, s: Snapshot, settingsOpen: bool, now: nat, unix: nat): Option<Scene> {
    match SelectState(s, settingsOpen)
    case SetupRequired => Some(Page(s.localUrl, s.ipUrl, false, Setup))
    case WaitingForNetwork => Some(Page(s.localUrl, s.ipUrl, true, Waiting))
    case Settings => Some(Page(s.localUrl, s.ipUrl, true, Opened))
    case Radar =>
      match BackgroundKeyOf(s.settings)
      case None => None
      case Some(key) =>
        Some(RadarScene(
               Background(key, nearby(key.latitude, key.longitude, key.rangeIndex)),
               FooterContentOf(s.settings.footer, s.environment, now, unix),
               s.aircraft, s.enrichment, s.settings, DrawnStale(s.fetchedAt, now)))
  }

  /** The footer says what is switched on: a reading's parts, that it is too old, or that there is none. */
  lemma FooterShows(footer: FooterSettings, reading: Option<EnvironmentReading>, now: nat, item: EnvironmentItem)
    ensures var weather := footer.showCondition || footer.showTemperature || footer.showHumidity;
            item in EnvironmentItems(footer, reading, now) <==>
              match item
              case NoReading => weather && reading.None?
              case StaleReading =>
                && reading.Some? && now >= reading.value.fetchedAt + 2_700_000_000_000
                && (weather || ((footer.showTime || footer.showDate) && footer.timeZone.RadarLocal?))
              case Condition(code) => footer.showCondition && reading.Some? && reading.value.weatherCode == code
              case Temperature(celsius, unit) =>
                && footer.showTemperature && reading.Some? && reading.value.temperatureCelsius == celsius
                && footer.temperatureUnit == unit
              case Humidity(percent) => footer.showHumidity && reading.Some? && reading.value.humidityPercent == percent
  {}

  /** The clock: the time in Zulu, or shifted by the offset of the last reading; nothing without a reading, or
      outside the calendar. */
  lemma ClockShows(footer: FooterSettings, reading: Option<EnvironmentReading>, unix: nat)
    ensures var items := TemporalItems(footer, reading, unix);
            var known := || footer.timeZone.Zulu?
                         || (reading.Some? && -93_599 <= reading.value.utcOffsetSeconds <= 93_599);
            var local := if footer.timeZone.Zulu? || reading.None? then unix else unix + reading.value.utcOffsetSeconds;
            var shown := known && unix <= 253_402_300_799 && -377_705_116_800 <= local <= 253_402_300_799;
            && |items| == (if footer.showTime then 1 else 0) + (if footer.showDate then 1 else 0)
            && (footer.showTime ==>
                  items[0] == Time(if shown then Some((local % 86_400 / 3_600, local % 3_600 / 60)) else None,
                                   footer.clockFormat, footer.timeZone))
            && (footer.showDate ==> items[|items| - 1] == Date(if shown then Some(local / 86_400) else None))
  {
    var local := if footer.timeZone.Zulu? || reading.None? then unix else unix + reading.value.utcOffsetSeconds;
    HourAndMinute(local);
  }

  lemma HourAndMinute(local: int)
    ensures local / 3600 % 24 == local % 86_400 / 3_600 && local / 60 % 60 == local % 3_600 / 60
  {
    var days, hours := local / 86_400, local / 3_600;
    assert local == days * 86_400 + local % 86_400 && hours == days * 24 + local % 86_400 / 3_600;
    assert local == hours * 3_600 + local % 3_600 && local / 60 == hours * 60 + local % 3_600 / 60;
  }

  /** What is on the screen. */
  lemma StateIs(s: Snapshot, settingsOpen: bool)
    ensures var state := SelectState(s, settingsOpen);
            && (state.SetupRequired? <==> s.settings.location.None?)
            && (state.Settings? <==> s.settings.location.Some? && settingsOpen)
            && (state.Radar? <==> s.settings.location.Some? && !settingsOpen && s.hasSuccessfulFetch)
  {}

  /** The key has the minute and the age of the reading only where they are shown: a page is not drawn again for
      them, nor a radar without a clock or without anything from a reading. */
  lemma KeyIs(s: Snapshot, settingsOpen: bool, now: nat, unix: nat, colorMode: FrameColorMode)
    ensures var key, footer := KeyOf(s, settingsOpen, now, unix, colorMode), s.settings.footer;
            var radar, clock := SelectState(s, settingsOpen).Radar?, footer.showTime || footer.showDate;
            && key.generation == s.generation && key.state == SelectState(s, settingsOpen) && key.colorMode == colorMode
            && (key.stale <==> s.fetchedAt.Some? && now >= s.fetchedAt.value + 30_000_000_000)
            && (key.minute.Some? <==> radar && clock)
            && (key.minute.Some? ==> 60 * key.minute.value <= unix < 60 * key.minute.value + 60)
            && (key.environmentStale <==>
                  && radar && s.environment.Some? && now >= s.environment.value.fetchedAt + 2_700_000_000_000
                  && (|| footer.showCondition || footer.showTemperature || footer.showHumidity
                      || (clock && footer.timeZone.RadarLocal?)))
  {}

  /** A page shows the addresses and says why there is no radar; the radar shows everything the snapshot has, as stale
      once the report is thirty seconds old; it cannot be drawn off the map or at a range there is no preset for. */
  lemma SceneIs(nearby: Nearby, s: Snapshot, open: bool, now: nat, unix: nat)
    ensures var scene, state := Fresh(nearby, s, open, now, unix), SelectState(s, open);
            if state.Radar? then
              && var at := s.settings.location.value;
              && (scene.Some? <==> && -90.0 <= at.latitude <= 90.0 && -180.0 <= at.longitude <= 180.0
                                   && s.settings.rangeIndex < 4)
              && (scene.Some? ==>
                    && var key := BackgroundKey(at.latitude, at.longitude, s.settings.rangeIndex, s.settings.units,
                                                s.settings.showRunways, s.settings.radarTextScalePercent);
                    && scene.value.RadarScene?
                    && var airports := nearby(at.latitude, at.longitude, s.settings.rangeIndex);
                    && scene.value.background == Background(key, airports)
                    && scene.value.aircraft == s.aircraft && scene.value.enrichment == s.enrichment
                    && scene.value.settings == s.settings
                    && scene.value.footer == FooterContentOf(s.settings.footer, s.environment, now, unix)
                    && (scene.value.stale <==> s.fetchedAt.Some? && now >= s.fetchedAt.value + 30_000_000_000))
            else
              scene == Some(Page(s.localUrl, s.ipUrl, s.settings.location.Some?,
                                 if state.SetupRequired? then Setup else if state.Settings? then Opened else Waiting))
  {}

  // ----- when the key decides the frame

  /** The clock on the radar turns only when the minute in the key does. */
  predicate ClockInStep(s: Snapshot) {
    || !SelectState(s, false).Radar?
    || BackgroundKeyOf(s.settings).None?
    || !(s.settings.footer.showTime || s.settings.footer.showDate)
    || s.settings.footer.timeZone == Zulu
    || s.environment.None?
    || s.environment.value.utcOffsetSeconds % 60 == 0
    || s.environment.value.utcOffsetSeconds < -LARGEST_OFFSET
    || s.environment.value.utcOffsetSeconds > LARGEST_OFFSET
  }

  /** Two moments with the same key are drawn the same. */
  ghost predicate KeyDecidesFrame(nearby: Nearby, s: Snapshot) {
    forall open, now, unix, color, now', unix', color' ::
      KeyOf(s, open, now, unix, color) == KeyOf(s, open, now', unix', color') ==>
        Fresh(nearby, s, open, now, unix) == Fresh(nearby, s, open, now', unix')
  }

  lemma StaleTestsAgree(s: Snapshot, now: nat)
    ensures DrawnStale(s.fetchedAt, now) == IsStale(s, now)
  {}

  lemma WholeMinutes(local: int, local': int)
    requires local / 60 == local' / 60
    ensures local / 3600 % 24 == local' / 3600 % 24 && local / 60 % 60 == local' / 60 % 60
            && local / 86400 == local' / 86400
  {
    assert local / 3600 == local / 60 / 60 && local' / 3600 == local' / 60 / 60;
    assert local / 86400 == local / 3600 / 24 && local' / 86400 == local' / 3600 / 24;
  }

  lemma ShiftByWholeMinutes(unix: nat, unix': nat, offset: int)
    requires unix / 60 == unix' / 60 && offset % 60 == 0
    ensures (unix + offset) / 60 == (unix' + offset) / 60
  {
    var k := offset / 60;
    assert offset == 60 * k;
    assert (unix + offset) / 60 == unix / 60 + k && (unix' + offset) / 60 == unix' / 60 + k;
  }

  lemma SameMinuteSameBounds(a: int, b: int)
    requires a / 60 == b / 60
    ensures a > LAST_SECOND <==> b > LAST_SECOND
    ensures a < FIRST_SECOND <==> b < FIRST_SECOND
  {
    assert (LAST_SECOND + 1) % 60 == 0 && FIRST_SECOND % 60 == 0;
  }

  lemma SameMinuteSameClock(footer: FooterSettings, reading: Option<EnvironmentReading>, unix: nat, unix': nat)
    requires unix / 60 == unix' / 60
    requires footer.timeZone == Zulu || reading.None? || reading.value.utcOffsetSeconds % 60 == 0
             || reading.value.utcOffsetSeconds < -LARGEST_OFFSET || reading.value.utcOffsetSeconds > LARGEST_OFFSET
    ensures TemporalItems(footer, reading, unix) == TemporalItems(footer, reading, unix')
  {
    SameMinuteSameBounds(unix, unix');
    if footer.timeZone == Zulu {
      WholeMinutes(unix, unix');
    } else if reading.Some? {
      var offset := reading.value.utcOffsetSeconds;
      if offset % 60 == 0 {
        ShiftByWholeMinutes(unix, unix', offset);
        SameMinuteSameBounds(unix + offset, unix' + offset);
        WholeMinutes(unix + offset, unix' + offset);
      }
    }
  }

  lemma EqualKeysEqualFrames(nearby: Nearby, s: Snapshot, open: bool, now: nat, unix: nat, now': nat, unix': nat,
                             color: FrameColorMode)
    requires ClockInStep(s) && KeyOf(s, open, now, unix, color) == KeyOf(s, open, now', unix', color)
    ensures Fresh(nearby, s, open, now, unix) == Fresh(nearby, s, open, now', unix')
  {
    hide LocalSeconds, TimeOf, DayOf, EnvironmentIsStale, IsStale, DrawnStale, TemporalItems;
    StaleTestsAgree(s, now);
    StaleTestsAgree(s, now');
    if SelectState(s, open).Radar? && BackgroundKeyOf(s.settings).Some? {
      if s.settings.footer.showTime || s.settings.footer.showDate {
        SameMinuteSameClock(s.settings.footer, s.environment, unix, unix');
      } else {
        NoClock(s.settings.footer, s.environment, unix);
        NoClock(s.settings.footer, s.environment, unix');
      }
    }
  }

  lemma NoClock(footer: FooterSettings, reading: Option<EnvironmentReading>, unix: nat)
    requires !footer.showTime && !footer.showDate
    ensures TemporalItems(footer, reading, unix) == []
  {}

  /** Just before and at a local midnight the minute in the key is the same, and the clock is not. */
  lemma MidnightInsideMinute(footer: FooterSettings, reading: EnvironmentReading) returns (unix: nat)
    requires footer.timeZone == RadarLocal && (footer.showTime || footer.showDate)
    requires -LARGEST_OFFSET <= reading.utcOffsetSeconds <= LARGEST_OFFSET && reading.utcOffsetSeconds % 60 != 0
    ensures unix / 60 == (unix + 1) / 60
    ensures TemporalItems(footer, Some(reading), unix) != TemporalItems(footer, Some(reading), unix + 1)
  {
    var offset := reading.utcOffsetSeconds;
    unix := 259_200 - offset - 1;
    var k := offset / 60;
    assert (unix + 1) % 60 != 0 by {
      assert offset == 60 * k + offset % 60;
      assert unix + 1 == 60 * (4320 - k) - offset % 60;
    }
    assert LocalSeconds(RadarLocal, Some(reading), unix) == Some(259_199);
    assert LocalSeconds(RadarLocal, Some(reading), unix + 1) == Some(259_200);
    assert 259_199 / 86400 == 2 && 259_200 / 86400 == 3;
    assert 259_199 / 3600 % 24 == 23 && 259_200 / 3600 % 24 == 0;
    var before, after := TemporalItems(footer, Some(reading), unix), TemporalItems(footer, Some(reading), unix + 1);
    if footer.showTime {
      assert before[0].at == Some((23, 59)) && after[0].at == Some((0, 0));
    } else {
      assert before[0].day == Some(2) && after[0].day == Some(3);
    }
  }

  /** The key decides the frame exactly when the clock is in step: with an offset that is not a whole number of
      minutes, the cache shows a minute that has passed. */
  lemma KeyDecidesFrameExactly(nearby: Nearby, s: Snapshot)
    ensures KeyDecidesFrame(nearby, s) <==> ClockInStep(s)
  {
    hide KeyOf, Fresh;
    if ClockInStep(s) {
      forall open, now, unix, color, now', unix', color' |
        KeyOf(s, open, now, unix, color) == KeyOf(s, open, now', unix', color')
        ensures Fresh(nearby, s, open, now, unix) == Fresh(nearby, s, open, now', unix') {
        KeyHoldsColor(s, open, now, unix, color);
        KeyHoldsColor(s, open, now', unix', color');
        EqualKeysEqualFrames(nearby, s, open, now, unix, now', unix', color);
      }
    } else {
      var unix := MidnightInsideMinute(s.settings.footer, s.environment.value);
      OutOfStep(nearby, s, unix);
      assert KeyOf(s, false, 0, unix, FullColor) == KeyOf(s, false, 0, unix + 1, FullColor);
    }
  }

  lemma KeyHoldsColor(s: Snapshot, open: bool, now: nat, unix: nat, color: FrameColorMode)
    ensures KeyOf(s, open, now, unix, color).colorMode == color
  {}

  lemma OutOfStep(nearby: Nearby, s: Snapshot, unix: nat)
    requires SelectState(s, false).Radar? && BackgroundKeyOf(s.settings).Some?
    requires unix / 60 == (unix + 1) / 60
    requires TemporalItems(s.settings.footer, s.environment, unix)
             != TemporalItems(s.settings.footer, s.environment, unix + 1)
    ensures KeyOf(s, false, 0, unix, FullColor) == KeyOf(s, false, 0, unix + 1, FullColor)
    ensures Fresh(nearby, s, false, 0, unix) != Fresh(nearby, s, false, 0, unix + 1)
  {
    hide TemporalItems, EnvironmentItems, IsStale, EnvironmentIsStale, DrawnStale;
  }

  /** Once the generation has saturated the key no longer tells snapshots apart: every one has another with the
      same key and a different frame, one commit away if it can be drawn at all. */
  lemma SaturatedKeysCollide(nearby: Nearby, s: Snapshot, open: bool, now: nat, unix: nat, color: FrameColorMode)
    returns (other: Snapshot)
    requires s.generation == U64_MAX
    ensures KeyOf(s, open, now, unix, color) == KeyOf(other, open, now, unix, color)
    ensures Fresh(nearby, s, open, now, unix) != Fresh(nearby, other, open, now, unix)
    // On the radar what differs is the units of the background, which are drawn whatever is in the air.
    ensures var scene, drawn := Fresh(nearby, s, open, now, unix), Fresh(nearby, other, open, now, unix);
            scene.Some? && scene.value.RadarScene? ==>
              && drawn.Some? && drawn.value.RadarScene?
              && drawn.value.background.key.units != scene.value.background.key.units
    ensures Fresh(nearby, s, open, now, unix).Some? ==> exists c :: Accepts(s, c) && other == Next(s, c)
  {
    if !SelectState(s, open).Radar? {
      var c := Commit.SetUrls(s.localUrl + "/", s.ipUrl);
      other := Next(s, c);
      assert |other.localUrl| != |s.localUrl|;
    } else if BackgroundKeyOf(s.settings).Some? {
      var c := ReplaceSettings(s.settings.(units := OtherUnits(s.settings.units)));
      other := Next(s, c);
      OnlyUnits(s, c);
    } else {
      var at := Location(0.0, 0.0, "");
      other := s.(settings := s.settings.(location := Some(at), rangeIndex := 0));
      assert BackgroundKeyOf(other.settings).Some?;
    }
  }

  function OtherUnits(units: Units): Units {
    if units == Miles then Kilometres else Miles
  }

  /** A change of units keeps all that was fetched. */
  lemma OnlyUnits(s: Snapshot, c: Commit)
    requires c == ReplaceSettings(s.settings.(units := OtherUnits(s.settings.units)))
    ensures var other := Next(s, c);
            && other.settings == c.settings && other.fetchedAt == s.fetchedAt && other.environment == s.environment
            && other.hasSuccessfulFetch == s.hasSuccessfulFetch
            && (s.generation == U64_MAX ==> other.generation == U64_MAX)
  {}

  // ----- the display loop

  /** What the last drawn frame was drawn from. */
  datatype Drawn = Drawn(snapshot: Snapshot, settingsOpen: bool, now: nat, unix: nat)

  /** A gesture, with what the other threads commit before the app looks, before the service takes its guard, while
      it holds it, and before the app looks again; and how saving and notifying go. */
  datatype Touch = Touch(
    gesture: Gesture, others: seq<Commit>, before: seq<Commit>, during: seq<Commit>, after: seq<Commit>, save: Save,
    notifies: bool)
  {
    /** Settings are only replaced under the guard. */
    ghost predicate Possible() {
      forall k :: 0 <= k < |during| ==> !during[k].ReplaceSettings?
    }
  }

  /** What one gesture makes of the model and of whether the settings page is open. */
  function Touched(m: Snapshot, open: bool, touch: Touch): (Snapshot, bool) {
    var seen := Run(m, touch.others);
    var stays := open && seen.settings.location.Some?;
    var state := SelectState(seen, stays);
    if state == Radar && touch.gesture == Tap then
      var cycled := Cycled(Run(seen, touch.before), touch.save, touch.during);
      if touch.save.Saved? && touch.notifies then (Run(cycled, touch.after), false) else (cycled, stays)
    else if touch.gesture == LongPress then (seen, seen.settings.location.Some?)
    else (seen, stays && state != AppState.Settings)
  }

  function TouchedAll(m: Snapshot, open: bool, touches: seq<Touch>): (Snapshot, bool) {
    if touches == [] then (m, open)
    else
      var before := TouchedAll(m, open, touches[..|touches| - 1]);
      Touched(before.0, before.1, touches[|touches| - 1])
  }

  lemma SameGenerationSameSnapshot(history: seq<Snapshot>, a: Snapshot, b: Snapshot)
    requires Numbered(history) && a in history && b in history
    requires a.generation == b.generation < U64_MAX
    ensures a == b
  {
    var i :| 0 <= i < |history| && history[i] == a;
    var j :| 0 <= j < |history| && history[j] == b;
  }

  class PlaneRadarApp {
    const model: RuntimeModel
    const service: RuntimeSettingsService
    const backlight: Backlight.BacklightController
    const zones: string -> Option<NightMode.Zone>
    const nearby: Nearby
    var snapshot: Snapshot
    var settingsOpen: bool
    var visibleAirports: seq<string>
    var airportKey: Option<BackgroundKey>
    var background: Option<(BackgroundKey, Background)>
    var lastRenderKey: Option<RenderKey>
    var currentFrame: Option<Frame>
    ghost var drawn: Drawn
    /** How often the nearby airports were looked up, and backgrounds drawn. */
    ghost var lookups: nat
    ghost var backgrounds: nat

    /** The airport list and the background are those of their keys. */
    ghost predicate CachesHold()
      reads this
    {
      && (airportKey.Some? ==>
            visibleAirports == nearby(airportKey.value.latitude, airportKey.value.longitude,
                airportKey.value.rangeIndex))
      && (background.Some? ==>
            && var key := background.value.0;
               background.value.1 == Background(key, nearby(key.latitude, key.longitude, key.rangeIndex)))
    }

    /** The frame held is the one drawn for the key held, from a snapshot the model has had. */
    ghost predicate FrameHolds()
      reads this, model
    {
      lastRenderKey.Some? ==>
        && drawn.snapshot in model.history
        && lastRenderKey.value == KeyOf(drawn.snapshot, drawn.settingsOpen, drawn.now, drawn.unix,
           lastRenderKey.value.colorMode)
        && var scene := Fresh(nearby, drawn.snapshot, drawn.settingsOpen, drawn.now, drawn.unix);
           scene.Some? && currentFrame == Some(Frame(scene.value, lastRenderKey.value.colorMode))
    }

    ghost predicate Valid()
      reads this, model, backlight
    {
      && model.Valid() && service.model == model && backlight.Valid() && snapshot in model.history
      && (snapshot.settings.location.None? ==> !settingsOpen)
      && CachesHold() && FrameHolds()
    }

    constructor (model: RuntimeModel, service: RuntimeSettingsService, backlight: Backlight.BacklightController,
                 zones: string -> Option<NightMode.Zone>, nearby: Nearby)
      requires model.Valid() && service.model == model && backlight.Valid()
      ensures Valid() && this.model == model && this.service == service && this.backlight == backlight
      ensures this.zones == zones && this.nearby == nearby && lastRenderKey.None? && currentFrame.None?
      ensures visibleAirports == [] && airportKey.None? && background.None? && lookups == backgrounds == 0
    {
      this.model, this.service, this.backlight := model, service, backlight;
      this.zones, this.nearby := zones, nearby;
      snapshot := model.snapshot;
      settingsOpen := false;
      visibleAirports := [];
      airportKey := None;
      background := None;
      lastRenderKey := None;
      currentFrame := None;
      drawn := Drawn(model.snapshot, false, 0, 0);
      lookups, backgrounds := 0, 0;
    }

    /** The other threads commit, then the app takes the latest snapshot. */
    method RefreshSnapshot(others: seq<Commit>)
      requires Valid()
      modifies `snapshot, `settingsOpen, model
      ensures Valid() && snapshot == model.snapshot && model.snapshot == Run(old(model.snapshot), others)
      ensures settingsOpen == (old(settingsOpen) && snapshot.settings.location.Some?)
    {
      hide Coherent, Numbered, Run, KeyOf, Fresh;
      model.Interleave(others);
      snapshot := model.snapshot;
      assert snapshot == model.history[|model.history| - 1];
      if snapshot.settings.location.None? {
        settingsOpen := false;
      }
    }

    /** handle_gesture: a tap on the radar cycles the range of the settings then in force, a long press opens the
        settings page. When the service reports an error the page and the snapshot stay, although the settings
        may have been replaced. */
    method HandleGesture(touch: Touch)
      requires Valid() && touch.Possible()
      modifies `snapshot, `settingsOpen, model, service
      ensures Valid()
      ensures (model.snapshot, settingsOpen) == Touched(old(model.snapshot), old(settingsOpen), touch)
      ensures var seen := Run(old(model.snapshot), touch.others);
              var open := old(settingsOpen) && seen.settings.location.Some?;
              var state := SelectState(seen, open);
              var cycled := Cycled(Run(seen, touch.before), touch.save, touch.during);
              if state == Radar && touch.gesture == Tap then
                if touch.save.Saved? && touch.notifies then
                  !settingsOpen && model.snapshot == Run(cycled, touch.after) && snapshot == model.snapshot
                else settingsOpen == open && snapshot == seen && model.snapshot == cycled
              else
                && snapshot == seen && model.snapshot == seen
                && settingsOpen == (if touch.gesture == LongPress then seen.settings.location.Some?
                                    else open && state != AppState.Settings)
    {
      hide Coherent, Numbered, Run, KeyOf, Fresh, Cycled, Backlight.BacklightController.Valid;
      RefreshSnapshot(touch.others);
      var state := SelectState(snapshot, settingsOpen);
      if state == Radar && touch.gesture == Tap {
        model.Interleave(touch.before);
        var answer := service.CycleRange(touch.save, touch.during, touch.notifies);
        if answer != Done {
          return;
        }
        settingsOpen := false;
        RefreshSnapshot(touch.after);
      } else if state == AppState.Settings && touch.gesture == Tap {
        settingsOpen := false;
      } else if touch.gesture == LongPress && snapshot.settings.location.Some? {
        settingsOpen := true;
      }
    }

    method RefreshVisibleAirports(key: BackgroundKey)
      requires CachesHold()
      modifies `visibleAirports, `airportKey, `lookups
      ensures CachesHold() && airportKey == Some(key)
      ensures lookups == old(lookups) + (if old(airportKey) == Some(key) then 0 else 1)
    {
      if airportKey == Some(key) {
        return;
      }
      visibleAirports := nearby(key.latitude, key.longitude, key.rangeIndex);
      airportKey := Some(key);
      lookups := lookups + 1;
    }

    /** render_frame through both caches draws what drawing from scratch would; what was there is not drawn again. */
    method RenderFrame(now: nat, unix: nat) returns (scene: Option<Scene>)
      requires CachesHold()
      modifies `visibleAirports, `airportKey, `background, `lookups, `backgrounds
      ensures CachesHold() && scene == Fresh(nearby, snapshot, settingsOpen, now, unix)
      ensures var drawsRadar := SelectState(snapshot, settingsOpen).Radar?;
              var key := if drawsRadar then BackgroundKeyOf(snapshot.settings) else None;
              && lookups == old(lookups) + (if key.None? || old(airportKey) == key then 0 else 1)
              && (if key.None? || (old(background).Some? && old(background).value.0 == key.value)
                  then backgrounds == old(backgrounds) && background == old(background)
                  else backgrounds == old(backgrounds) + 1 && background.Some? && background.value.0 == key.value)
    {
      match SelectState(snapshot, settingsOpen) {
        case SetupRequired => scene := Some(Page(snapshot.localUrl, snapshot.ipUrl, false, Setup));
        case WaitingForNetwork => scene := Some(Page(snapshot.localUrl, snapshot.ipUrl, true, Waiting));
        case Settings => scene := Some(Page(snapshot.localUrl, snapshot.ipUrl, true, Opened));
        case Radar =>
          var key := BackgroundKeyOf(snapshot.settings);
          if key.None? {
            return None;
          }
          RefreshVisibleAirports(key.value);
          if background.None? || background.value.0 != key.value {
            background := Some((key.value, Background(key.value, visibleAirports)));
            backgrounds := backgrounds + 1;
          }
          scene := Some(RadarScene(
                          background.value.1,
                          FooterContentOf(snapshot.settings.footer, snapshot.environment, now, unix),
                          snapshot.aircraft, snapshot.enrichment, snapshot.settings,
                          DrawnStale(snapshot.fetchedAt, now)));
      }
    }

    /** The drawing part of step: redraw only when the key changed. Afterwards the frame held is the one a
        redraw would give, as long as the generation has not saturated and the clock is in step. */
    method Draw(now: nat, unix: nat, colorMode: FrameColorMode) returns (frame: Option<Frame>, failed: bool)
      requires Valid()
      modifies `visibleAirports, `airportKey, `background, `currentFrame, `lastRenderKey, `drawn, `lookups,
               `backgrounds
      ensures Valid()
      // A frame is handed out exactly when the key is another one and the drawing succeeds.
      ensures var changed := old(lastRenderKey) != Some(KeyOf(snapshot, settingsOpen, now, unix, colorMode));
              && (failed <==> changed && Fresh(nearby, snapshot, settingsOpen, now, unix).None?)
              && (frame.Some? <==> changed && !failed)
              && (!changed ==> lookups == old(lookups) && backgrounds == old(backgrounds))
      ensures frame.Some? ==> currentFrame == frame
      ensures frame.None? ==> currentFrame == old(currentFrame)
      ensures !failed ==> lastRenderKey == Some(KeyOf(snapshot, settingsOpen, now, unix, colorMode))
      ensures !failed && snapshot.generation < U64_MAX && ClockInStep(snapshot) ==>
                && var scene := Fresh(nearby, snapshot, settingsOpen, now, unix);
                   scene.Some? && currentFrame == Some(Frame(scene.value, colorMode))
    {
      hide Coherent, Numbered, Fresh, ClockInStep;
      frame := None;
      failed := false;
      var key := KeyOf(snapshot, settingsOpen, now, unix, colorMode);
      if lastRenderKey != Some(key) {
        hide KeyOf;
        var scene := RenderFrame(now, unix);
        if scene.None? {
          failed := true;
        } else {
          frame := Some(Frame(scene.value, colorMode));
          currentFrame := frame;
          lastRenderKey := Some(key);
          drawn := Drawn(snapshot, settingsOpen, now, unix);
          KeyHoldsColor(snapshot, settingsOpen, now, unix, colorMode);
        }
      } else if snapshot.generation < U64_MAX && ClockInStep(snapshot) {
        SameGenerationSameSnapshot(model.history, drawn.snapshot, snapshot);
        SameKeySameFrame(nearby, snapshot, drawn, settingsOpen, now, unix, colorMode);
      }
    }

    /** The policy for a snapshot is worked out and handed to the backlight; what it reports back goes to the
        model if it is news. */
    method ApplyPolicy(device: Backlight.Device, late: seq<Commit>, now: nat, unix: nat)
      returns (colorMode: FrameColorMode, ghost policy: NightMode.DisplayPolicy, ghost update: Backlight.Update)
      requires Valid() && device.maxLevel <= U32_MAX
      modifies `snapshot, `settingsOpen, model, backlight
      ensures Valid() && colorMode == update.colorMode == backlight.safeColor
      ensures NightMode.PolicyFor(policy, old(snapshot).settings, old(snapshot).solarSchedule, zones, unix)
      ensures backlight.requestedColor == Some(policy.color)
      ensures update.availability == Available ==>
                backlight.targetLevel == Some(Backlight.PercentToLevel(policy.brightnessPercent, device.maxLevel))
      ensures update.availability == old(snapshot).backlightAvailability ==>
                && model.snapshot == old(model.snapshot) && snapshot == old(snapshot)
                && settingsOpen == old(settingsOpen)
      ensures update.availability != old(snapshot).backlightAvailability ==>
                && model.snapshot == Run(Next(old(model.snapshot), RecordBacklight(update.availability)), late)
                && snapshot == model.snapshot
                && settingsOpen == (old(settingsOpen) && snapshot.settings.location.Some?)
    {
      hide Coherent, Numbered, Fresh, KeyOf, Run, NightMode.PolicyFor, Backlight.MovedTo, Backlight.PercentToLevel;
      var displayed := NightMode.Display(snapshot.settings, snapshot.solarSchedule, zones, unix);
      policy := displayed;
      var updated := backlight.UpdateNow(device, Backlight.Policy(displayed.brightnessPercent, displayed.color), now);
      update := updated;
      colorMode := updated.colorMode;
      if snapshot.backlightAvailability != updated.availability {
        var _ := model.RecordBacklightAvailability(updated.availability);
        RefreshSnapshot(late);
      }
    }

    /** step: gestures, the latest snapshot, the policy, the backlight, then the frame unless the app is to exit. */
    method Step(touches: seq<Touch>, quit: bool, stop: bool, others: seq<Commit>, late: seq<Commit>,
                device: Backlight.Device, now: nat, unix: nat)
      returns (frame: Option<Frame>, exit: bool, ghost seen: Snapshot, ghost policy: NightMode.DisplayPolicy,
               ghost update: Backlight.Update)
      requires Valid() && device.maxLevel <= U32_MAX
      requires forall k :: 0 <= k < |touches| ==> touches[k].Possible()
      modifies this, model, service, backlight
      ensures Valid()
      // Every gesture is handled before the snapshot is taken that decides the policy.
      ensures seen == Run(TouchedAll(old(model.snapshot), old(settingsOpen), touches).0, others)
      ensures NightMode.PolicyFor(policy, seen.settings, seen.solarSchedule, zones, unix)
      ensures backlight.requestedColor == Some(policy.color)
      // News of the backlight reaches the model before the frame is drawn.
      ensures model.snapshot == snapshot == if update.availability == seen.backlightAvailability then seen
                                            else Run(Next(seen, RecordBacklight(update.availability)), late)
      ensures settingsOpen == (&& TouchedAll(old(model.snapshot), old(settingsOpen), touches).1
                               && seen.settings.location.Some? && snapshot.settings.location.Some?)
      // A quit event or a stop request draws nothing.
      ensures quit || stop ==> exit && frame.None? && currentFrame == old(currentFrame)
      ensures exit && !quit && !stop ==> Fresh(nearby, snapshot, settingsOpen, now, unix).None?
      // Otherwise the frame held is the one a redraw would give, in the colour that is safe to show.
      ensures !exit && snapshot.generation < U64_MAX && ClockInStep(snapshot) ==>
                && var scene := Fresh(nearby, snapshot, settingsOpen, now, unix);
                   scene.Some? && currentFrame == Some(Frame(scene.value, backlight.safeColor))
      ensures frame.Some? ==> currentFrame == frame
      ensures !exit ==>
                (frame.Some? <==>
                   old(lastRenderKey) != Some(KeyOf(snapshot, settingsOpen, now, unix, backlight.safeColor)))
    {
      hide Coherent, Numbered, Fresh, KeyOf, ClockInStep, Run, Touched, Cycled, NightMode.PolicyFor,
           Backlight.BacklightController.Valid;
      exit := stop || quit;
      var i := 0;
      while i < |touches|
        invariant i <= |touches| && Valid() && currentFrame == old(currentFrame)
        invariant lastRenderKey == old(lastRenderKey)
        invariant (model.snapshot, settingsOpen) == TouchedAll(old(model.snapshot), old(settingsOpen), touches[..i])
      {
        HandleGesture(touches[i]);
        assert touches[..i + 1][..i] == touches[..i];
        i := i + 1;
      }
      assert touches[..i] == touches;
      RefreshSnapshot(others);
      seen := snapshot;
      var colorMode: FrameColorMode;
      colorMode, policy, update := ApplyPolicy(device, late, now, unix);
      frame := None;
      if !exit {
        frame, exit := Draw(now, unix, colorMode);
      }
    }
  }

  lemma SameKeySameFrame(nearby: Nearby, s: Snapshot, drawn: Drawn, open: bool, now: nat, unix: nat,
                         color: FrameColorMode)
    requires drawn.snapshot == s && ClockInStep(s)
    requires KeyOf(s, drawn.settingsOpen, drawn.now, drawn.unix, color) == KeyOf(s, open, now, unix, color)
    ensures Fresh(nearby, s, drawn.settingsOpen, drawn.now, drawn.unix) == Fresh(nearby, s, open, now, unix)
  {
    hide ClockInStep;
    if drawn.settingsOpen == open {
      EqualKeysEqualFrames(nearby, s, open, drawn.now, drawn.unix, now, unix, color);
    }
  }
}
