/** The values shared by the runtime model, its workers and the display loop (src/model.rs, src/adsb.rs). */
module RuntimeTypes {
  import opened Prelude

  const U64_MAX: nat := 0xFFFF_FFFF_FFFF_FFFF
  const U32_MAX: nat := 0xFFFF_FFFF
  /** Durations are counted in nanoseconds. */
  const SECOND: nat := 1_000_000_000
  const RANGE_PRESETS: nat := 4

  function SaturatingSub(a: nat, b: nat): nat {
    if a < b then 0 else a - b
  }

  datatype Units = Kilometres | Miles
  datatype TemperatureUnit = Celsius | Fahrenheit
  datatype TimeZone = RadarLocal | Zulu
  datatype ClockFormat = Twelve | TwentyFour

  datatype FooterSettings = FooterSettings(
    showCondition: bool, showTemperature: bool, showHumidity: bool, showTime: bool, showDate: bool,
    temperatureUnit: TemperatureUnit, timeZone: TimeZone, clockFormat: ClockFormat)
  {
    predicate NeedsEnvironment() {
      showCondition || showTemperature || showHumidity || ((showTime || showDate) && timeZone == RadarLocal)
    }
  }

  datatype NightModeSettings = NightModeSettings(
    enabled: bool, brightnessPercent: nat, startHour: nat, startMinute: nat, redMode: bool)

  datatype BrightnessSettings = BrightnessSettings(dayPercent: nat, night: NightModeSettings)

  datatype Location = Location(latitude: real, longitude: real, placeLabel: string)

  datatype RadarSettings = RadarSettings(
    location: Option<Location>, units: Units, showRunways: bool, rangeIndex: nat, showCallsign: bool, showRoute: bool,
    showExpandedModel: bool, radarTextScalePercent: nat, minimumAltitudeFeet: Option<int>,
    maximumAltitudeFeet: Option<int>, footer: FooterSettings, brightness: BrightnessSettings)
  {
    function Filter(): AltitudeFilter {
      AltitudeFilter(minimumAltitudeFeet, maximumAltitudeFeet)
    }

    function Needs(): EnrichmentNeeds {
      EnrichmentNeeds(showRoute, showExpandedModel)
    }
  }

  datatype AltitudeFilter = AltitudeFilter(minimumFeet: Option<int>, maximumFeet: Option<int>)
  {
    /** An active filter refuses an unknown altitude. */
    predicate Allows(altitude: Option<int>) {
      || (minimumFeet.None? && maximumFeet.None?)
      || (&& altitude.Some?
          && (minimumFeet.None? || altitude.value >= minimumFeet.value)
          && (maximumFeet.None? || altitude.value <= maximumFeet.value))
    }
  }

  datatype Aircraft = Aircraft(
    hex: string, flightCallsign: string, latitude: real, longitude: real, noseDegrees: real, trackDegrees: real,
    groundSpeedKnots: real, callsign: string, aircraftType: string, altitudeFeet: Option<int>, altitude: string)
  {
    function Key(): AircraftKey {
      AircraftKey(hex, flightCallsign)
    }
  }

  datatype AircraftKey = AircraftKey(hex: string, callsign: string)

  datatype EnrichmentNeeds = EnrichmentNeeds(route: bool, model: bool)
  datatype AircraftEnrichment = AircraftEnrichment(route: Option<string>, model: Option<string>)

  datatype EnvironmentReading = EnvironmentReading(
    temperatureCelsius: real, humidityPercent: nat, weatherCode: nat, utcOffsetSeconds: int, fetchedAt: nat)

  /** One row of the schedule; the date is counted in days, none when its text is not a canonical date. */
  datatype SolarDay = SolarDay(date: Option<int>, sunrise: Option<int>)
  datatype SolarSchedule = SolarSchedule(
    schemaVersion: int, latitude: real, longitude: real, timeZone: string, fetchedAtUnix: nat, days: seq<SolarDay>)
  datatype SolarFailure = SolarFailure(category: nat, at: nat)

  datatype FrameColorMode = FullColor | RedOnly

  datatype BacklightAvailability = Unknown | Available | Unavailable

  function FilterAircraft(aircraft: seq<Aircraft>, filter: AltitudeFilter): (r: seq<Aircraft>)
    ensures forall a :: a in r <==> a in aircraft && filter.Allows(a.altitudeFeet)
    ensures |r| <= |aircraft|
  {
    if aircraft == [] then []
    else
      (if filter.Allows(aircraft[0].altitudeFeet) then [aircraft[0]] else []) + FilterAircraft(aircraft[1..], filter)
  }

  /** Each bound that is set is kept, by a known altitude. */
  lemma AllowedIsWithin(filter: AltitudeFilter, altitude: Option<int>)
    ensures filter.Allows(altitude) <==>
              && (filter.minimumFeet.Some? ==> altitude.Some? && filter.minimumFeet.value <= altitude.value)
              && (filter.maximumFeet.Some? ==> altitude.Some? && altitude.value <= filter.maximumFeet.value)
  {}

  /** Each aircraft stays as often as it was there, or goes altogether. */
  lemma {:induction false} FilterCounts(aircraft: seq<Aircraft>, filter: AltitudeFilter, a: Aircraft)
    ensures multiset(FilterAircraft(aircraft, filter))[a]
         == if filter.Allows(a.altitudeFeet) then multiset(aircraft)[a] else 0
  {
    if aircraft != [] {
      FilterCounts(aircraft[1..], filter, a);
      assert aircraft == [aircraft[0]] + aircraft[1..];
    }
  }

  /** The elements of part, in order, among those of whole. */
  ghost predicate Subsequence<T(!new)>(part: seq<T>, whole: seq<T>) {
    || part == []
    || (&& whole != []
        && ((part[0] == whole[0] && Subsequence(part[1..], whole[1..])) || Subsequence(part, whole[1..])))
  }

  lemma {:induction false} SubsequenceOfSelf<T(!new)>(s: seq<T>)
    ensures Subsequence(s, s)
  {
    if s != [] {
      SubsequenceOfSelf(s[1..]);
    }
  }

  /** Filtering keeps order and adds nothing. */
  lemma {:induction false} FilteredSubsequence(part: seq<Aircraft>, whole: seq<Aircraft>, filter: AltitudeFilter)
    requires Subsequence(part, whole)
    ensures Subsequence(FilterAircraft(part, filter), whole)
    decreases |whole|
  {
    if part == [] || whole == [] {
    } else if part[0] == whole[0] && Subsequence(part[1..], whole[1..]) {
      FilteredSubsequence(part[1..], whole[1..], filter);
      var rest := FilterAircraft(part[1..], filter);
      if filter.Allows(part[0].altitudeFeet) {
        assert FilterAircraft(part, filter)[1..] == rest;
      } else {
        assert FilterAircraft(part, filter) == rest;
      }
    } else {
      FilteredSubsequence(part, whole[1..], filter);
    }
  }

  function DisplayedKeys(aircraft: seq<Aircraft>): set<AircraftKey> {
    set a | a in aircraft :: a.Key()
  }
}
