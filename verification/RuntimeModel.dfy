/**
 RuntimeModel in src/model.rs: the snapshot that concurrent fetchers commit to while settings are replaced
 underneath them. Every method runs under the write lock, so a run is a sequence of whole commits in any
 order; a commit whose request is no longer current is refused and changes nothing.
*/
module RuntimeModel {
  import opened Prelude
  import opened RuntimeTypes

  datatype Snapshot = Snapshot(
    settings: RadarSettings,
    aircraft: seq<Aircraft>,
    enrichment: map<AircraftKey, AircraftEnrichment>,
    environment: Option<EnvironmentReading>,
    environmentLastErrorAt: Option<nat>,
    solarSchedule: Option<SolarSchedule>,
    solarLastError: Option<SolarFailure>,
    backlightAvailability: BacklightAvailability,
    fetchedAt: Option<nat>,
    hasSuccessfulFetch: bool,
    lastErrorAt: Option<nat>,
    localUrl: string,
    ipUrl: Option<string>,
    generation: nat)

  /** A commit some thread attempts, with the request it was made for. */
  datatype Commit =
    | ReplaceSettings(settings: RadarSettings)
    | RecordSolarSchedule(location: Location, schedule: SolarSchedule)
    | RecordSolarFailure(location: Location, failure: SolarFailure)
    | RecordBacklight(availability: BacklightAvailability)
    | RecordAircraft(location: Location, rangeIndex: nat, filter: AltitudeFilter, aircraft: seq<Aircraft>, at: nat)
    | RecordAdsbError(location: Location, rangeIndex: nat, filter: AltitudeFilter, at: nat)
    | RecordEnrichment(location: Location, needs: EnrichmentNeeds, key: AircraftKey, enrichment: AircraftEnrichment)
    | RecordEnvironment(location: Location, reading: EnvironmentReading)
    | RecordEnvironmentError(location: Location, at: nat)
    | SetUrls(localUrl: string, ipUrl: Option<string>)

  function Initial(settings: RadarSettings, localUrl: string): Snapshot {
    Snapshot(settings, [], map[], None, None, None, None, Unknown, None, false, None, localUrl, None, 0)
  }

  // ----- when a commit is current

  predicate SameCoordinates(a: Location, b: Location) {
    a.latitude == b.latitude && a.longitude == b.longitude
  }

  predicate SameOptionalCoordinates(a: Option<Location>, b: Option<Location>) {
    a.Some? == b.Some? && (a.Some? ==> SameCoordinates(a.value, b.value))
  }

  predicate ScheduleMatches(schedule: SolarSchedule, location: Location) {
    schedule.latitude == location.latitude && schedule.longitude == location.longitude
  }

  predicate SolarRequestIsCurrent(s: Snapshot, expected: Location) {
    s.settings.brightness.night.enabled && s.settings.location.Some?
        && SameCoordinates(s.settings.location.value, expected)
  }

  predicate QueryIsCurrent(s: Snapshot, location: Location, rangeIndex: nat, filter: AltitudeFilter) {
    s.settings.location == Some(location) && s.settings.rangeIndex == rangeIndex && s.settings.Filter() == filter
  }

  predicate EnvironmentIsWanted(s: Snapshot, location: Location) {
    s.settings.location == Some(location) && s.settings.footer.NeedsEnvironment()
  }

  /** Whether the commit takes effect. Repeating what is already recorded does not. */
  predicate Accepts(s: Snapshot, c: Commit) {
    match c
    case ReplaceSettings(_) => true
    case SetUrls(_, _) => true
    case RecordSolarSchedule(location, schedule) =>
      && SolarRequestIsCurrent(s, location) && ScheduleMatches(schedule, location)
      && !(s.solarSchedule == Some(schedule) && s.solarLastError == None)
    case RecordSolarFailure(location, failure) =>
      SolarRequestIsCurrent(s, location) && s.solarLastError != Some(failure)
    case RecordBacklight(availability) => s.backlightAvailability != availability
    case RecordAircraft(location, rangeIndex, filter, _, _) => QueryIsCurrent(s, location, rangeIndex, filter)
    case RecordAdsbError(location, rangeIndex, filter, _) => QueryIsCurrent(s, location, rangeIndex, filter)
    case RecordEnrichment(location, needs, key, enrichment) =>
      && s.settings.location == Some(location) && s.settings.Needs() == needs
      && key in DisplayedKeys(s.aircraft) && !(key in s.enrichment && s.enrichment[key] == enrichment)
    case RecordEnvironment(location, _) => EnvironmentIsWanted(s, location)
    case RecordEnvironmentError(location, _) => EnvironmentIsWanted(s, location)
  }

  // ----- what an accepted commit does

  function Bumped(generation: nat): nat {
    if generation < U64_MAX then generation + 1 else generation
  }

  function RetainDisplayed(s: Snapshot): Snapshot {
    s.(enrichment := map k | k in s.enrichment && k in DisplayedKeys(s.aircraft) :: s.enrichment[k])
  }

  predicate QueryChanges(old': RadarSettings, new': RadarSettings) {
    old'.location != new'.location || old'.rangeIndex != new'.rangeIndex
  }

  predicate DropsSolar(old': RadarSettings, new': RadarSettings) {
    !SameOptionalCoordinates(old'.location, new'.location) || !new'.brightness.night.enabled || new'.location == None
  }

  function Resettled(s: Snapshot, settings: RadarSettings): Snapshot {
    var aircraft :=
      if QueryChanges(s.settings, settings) then []
      else if s.settings.Filter() != settings.Filter() then FilterAircraft(s.aircraft, settings.Filter())
      else s.aircraft;
    var moved := s.settings.location != settings.location;
    var dark := DropsSolar(s.settings, settings);
    RetainDisplayed(s.(
                    settings := settings,
                    aircraft := aircraft,
                    fetchedAt := if QueryChanges(s.settings, settings) then None else s.fetchedAt,
                    environment := if moved then None else s.environment,
                    environmentLastErrorAt := if moved then None else s.environmentLastErrorAt,
                    hasSuccessfulFetch := !moved && s.hasSuccessfulFetch,
                    solarSchedule := if dark then None else s.solarSchedule,
                    solarLastError := if dark then None else s.solarLastError))
  }

  /** The fields an accepted commit leaves, before the generation moves. */
  function Recorded(s: Snapshot, c: Commit): Snapshot {
    match c
    case ReplaceSettings(settings) => Resettled(s, settings)
    case SetUrls(localUrl, ipUrl) => s.(localUrl := localUrl, ipUrl := ipUrl)
    case RecordSolarSchedule(_, schedule) => s.(solarSchedule := Some(schedule), solarLastError := None)
    case RecordSolarFailure(_, failure) => s.(solarLastError := Some(failure))
    case RecordBacklight(availability) => s.(backlightAvailability := availability)
    case RecordAircraft(_, _, _, aircraft, at) =>
      RetainDisplayed(s.(aircraft := aircraft)).(fetchedAt := Some(at), hasSuccessfulFetch := true)
    case RecordAdsbError(_, _, _, at) => s.(lastErrorAt := Some(at))
    case RecordEnrichment(_, _, key, enrichment) => s.(enrichment := s.enrichment[key := enrichment])
    case RecordEnvironment(_, reading) => s.(environment := Some(reading), environmentLastErrorAt := None)
    case RecordEnvironmentError(_, at) => s.(environmentLastErrorAt := Some(at))
  }

  function Next(s: Snapshot, c: Commit): Snapshot {
    if Accepts(s, c) then Recorded(s, c).(generation := Bumped(s.generation)) else s
  }

  /** What new settings leave of the snapshot. Another place or range empties the display, another filter only drops
      what it refuses; the place decides about the reading and the flag, its coordinates and night mode about the
      schedule. */
  lemma SettingsReplaced(s: Snapshot, settings: RadarSettings)
    ensures var s' := Next(s, ReplaceSettings(settings));
            var moved := s.settings.location != settings.location;
            var asks := moved || s.settings.rangeIndex != settings.rangeIndex;
            var refilters := || s.settings.minimumAltitudeFeet != settings.minimumAltitudeFeet
                             || s.settings.maximumAltitudeFeet != settings.maximumAltitudeFeet;
            var dark := || !settings.brightness.night.enabled || settings.location.None? || s.settings.location.None?
                        || s.settings.location.value.latitude != settings.location.value.latitude
                        || s.settings.location.value.longitude != settings.location.value.longitude;
            && (asks ==> s'.aircraft == [])
            && (!asks && !refilters ==> s'.aircraft == s.aircraft)
            && (!asks && refilters ==>
                  && Subsequence(s'.aircraft, s.aircraft)
                  && forall a :: multiset(s'.aircraft)[a]
                                 == if settings.Filter().Allows(a.altitudeFeet) then multiset(s.aircraft)[a] else 0)
            && s' == s.(settings := settings, aircraft := s'.aircraft, enrichment := s'.enrichment,
                        generation := s'.generation,
                        fetchedAt := if asks then None else s.fetchedAt,
                        environment := if moved then None else s.environment,
                        environmentLastErrorAt := if moved then None else s.environmentLastErrorAt,
                        hasSuccessfulFetch := !moved && s.hasSuccessfulFetch,
                        solarSchedule := if dark then None else s.solarSchedule,
                        solarLastError := if dark then None else s.solarLastError)
    ensures var s' := Next(s, ReplaceSettings(settings));
            forall key ::
              && (key in s'.enrichment <==>
                    && key in s.enrichment
                    && exists a :: a in s'.aircraft && a.hex == key.hex && a.flightCallsign == key.callsign)
              && (key in s'.enrichment ==> s'.enrichment[key] == s.enrichment[key])
  {
    SubsequenceOfSelf(s.aircraft);
    FilteredSubsequence(s.aircraft, s.aircraft, settings.Filter());
    forall a ensures multiset(FilterAircraft(s.aircraft, settings.Filter()))[a]
                  == if settings.Filter().Allows(a.altitudeFeet) then multiset(s.aircraft)[a] else 0 {
      FilterCounts(s.aircraft, settings.Filter(), a);
    }
  }

  // ----- what the accepted commits put in force

  /** No settings accepted after the i-th commit moved the radar away. */
  ghost predicate LocationHeld(log: seq<Commit>, i: nat, location: Location) {
    forall j :: i < j < |log| && log[j].ReplaceSettings? ==> log[j].settings.location == Some(location)
  }

  ghost predicate RangeHeld(log: seq<Commit>, i: nat, rangeIndex: nat) {
    forall j :: i < j < |log| && log[j].ReplaceSettings? ==> log[j].settings.rangeIndex == rangeIndex
  }

  /** Night mode stayed on, and the radar stayed at coordinates, whatever the place is called. */
  ghost predicate SolarHeld(log: seq<Commit>, i: nat, location: Location) {
    forall j :: i < j < |log| && log[j].ReplaceSettings? ==>
                  && log[j].settings.brightness.night.enabled && log[j].settings.location.Some?
                  && log[j].settings.location.value.latitude == location.latitude
                  && log[j].settings.location.value.longitude == location.longitude
  }

  /** The latest report, with the radar at the place and range it was made for ever since. */
  ghost predicate ReportInForce(log: seq<Commit>, i: nat) {
    && i < |log| && log[i].RecordAircraft?
    && (forall j :: i < j < |log| ==> !log[j].RecordAircraft?)
    && LocationHeld(log, i, log[i].location) && RangeHeld(log, i, log[i].rangeIndex)
  }

  /** The altitude filter that applied before the j-th commit to a report made at i. */
  ghost function FilterBefore(log: seq<Commit>, i: nat, j: nat): AltitudeFilter
    requires i < j <= |log| && log[i].RecordAircraft?
  {
    if j == i + 1 then log[i].filter
    else if log[j - 1].ReplaceSettings? then
      AltitudeFilter(log[j - 1].settings.minimumAltitudeFeet, log[j - 1].settings.maximumAltitudeFeet)
    else FilterBefore(log, i, j - 1)
  }

  /** The j-th commit changes the filter to one that refuses the aircraft. */
  ghost predicate Refuses(log: seq<Commit>, i: nat, j: nat, a: Aircraft)
    requires i < j < |log| && log[i].RecordAircraft?
  {
    log[j].ReplaceSettings? && log[j].settings.Filter() != FilterBefore(log, i, j)
        && !log[j].settings.Filter().Allows(a.altitudeFeet)
  }

  /** No change of filter since the report refused it. */
  ghost predicate Survives(log: seq<Commit>, i: nat, a: Aircraft)
    requires i < |log| && log[i].RecordAircraft?
  {
    forall j :: i < j < |log| ==> !Refuses(log, i, j, a)
  }

  /** Someone under the key is still displayed. */
  ghost predicate KeyShown(log: seq<Commit>, key: AircraftKey) {
    exists i: nat, a :: ReportInForce(log, i) && a in log[i].aircraft && Survives(log, i, a)
                        && a.hex == key.hex && a.flightCallsign == key.callsign
  }

  ghost predicate FetchedSinceMoved(log: seq<Commit>, i: nat) {
    i < |log| && log[i].RecordAircraft? && LocationHeld(log, i, log[i].location)
  }

  /** The latest reading, with the radar at the place it was taken for ever since. */
  ghost predicate ReadingInForce(log: seq<Commit>, i: nat) {
    && i < |log| && log[i].RecordEnvironment?
    && (forall j :: i < j < |log| ==> !log[j].RecordEnvironment?)
    && LocationHeld(log, i, log[i].location)
  }

  /** A failure later than every reading and every other failure. */
  ghost predicate ReadingErrorInForce(log: seq<Commit>, i: nat) {
    && i < |log| && log[i].RecordEnvironmentError?
    && (forall j :: i < j < |log| ==> !log[j].RecordEnvironment? && !log[j].RecordEnvironmentError?)
    && LocationHeld(log, i, log[i].location)
  }

  ghost predicate ScheduleInForce(log: seq<Commit>, i: nat) {
    && i < |log| && log[i].RecordSolarSchedule?
    && (forall j :: i < j < |log| ==> !log[j].RecordSolarSchedule?)
    && SolarHeld(log, i, log[i].location)
  }

  ghost predicate SolarFailureInForce(log: seq<Commit>, i: nat) {
    && i < |log| && log[i].RecordSolarFailure?
    && (forall j :: i < j < |log| ==> !log[j].RecordSolarSchedule? && !log[j].RecordSolarFailure?)
    && SolarHeld(log, i, log[i].location)
  }

  /** The latest one for its key, which has been displayed ever since. */
  ghost predicate EnrichmentInForce(log: seq<Commit>, key: AircraftKey, i: nat) {
    && i < |log| && log[i].RecordEnrichment? && log[i].key == key
    && (forall j :: i < j < |log| && log[j].RecordEnrichment? ==> log[j].key != key)
    && forall n :: i < n <= |log| ==> KeyShown(log[..n], key)
  }

  // ----- the snapshot shows exactly that

  /** A report is shown while it is in force: all of it that no change of filter has refused, in its order. */
  ghost predicate ReportIsExact(s: Snapshot, log: seq<Commit>) {
    && (s.fetchedAt.Some? <==> exists i: nat :: ReportInForce(log, i))
    && (s.fetchedAt.None? ==> s.aircraft == [])
    && forall i: nat :: ReportInForce(log, i) ==> ShowsReport(s, log, i)
  }

  ghost predicate ShowsReport(s: Snapshot, log: seq<Commit>, i: nat)
    requires i < |log| && log[i].RecordAircraft?
  {
    && s.settings.location == Some(log[i].location) && s.settings.rangeIndex == log[i].rangeIndex
    && s.settings.Filter() == FilterBefore(log, i, |log|)
    && s.fetchedAt == Some(log[i].at)
    && Subsequence(s.aircraft, log[i].aircraft)
    && forall a :: multiset(s.aircraft)[a] == if Survives(log, i, a) then multiset(log[i].aircraft)[a] else 0
  }

  /** The flag says exactly whether a report was accepted since the radar last moved. */
  ghost predicate FlagIsExact(s: Snapshot, log: seq<Commit>) {
    && (s.hasSuccessfulFetch <==> exists i: nat :: FetchedSinceMoved(log, i))
    && forall i: nat :: FetchedSinceMoved(log, i) ==> s.settings.location == Some(log[i].location)
  }

  ghost predicate ReadingIsExact(s: Snapshot, log: seq<Commit>) {
    && (s.environment.Some? <==> exists i: nat :: ReadingInForce(log, i))
    && forall i: nat :: ReadingInForce(log, i) ==>
                          s.environment == Some(log[i].reading) && s.settings.location == Some(log[i].location)
  }

  ghost predicate ReadingErrorIsExact(s: Snapshot, log: seq<Commit>) {
    && (s.environmentLastErrorAt.Some? <==> exists i: nat :: ReadingErrorInForce(log, i))
    && forall i: nat :: ReadingErrorInForce(log, i) ==>
                          s.environmentLastErrorAt == Some(log[i].at) && s.settings.location == Some(log[i].location)
  }

  /** Night mode is on at the coordinates. */
  predicate NightAt(s: Snapshot, location: Location) {
    s.settings.brightness.night.enabled && s.settings.location.Some?
        && s.settings.location.value.latitude == location.latitude
        && s.settings.location.value.longitude == location.longitude
  }

  ghost predicate ScheduleIsExact(s: Snapshot, log: seq<Commit>) {
    && (s.solarSchedule.Some? <==> exists i: nat :: ScheduleInForce(log, i))
    && forall i: nat :: ScheduleInForce(log, i) ==>
                          s.solarSchedule == Some(log[i].schedule) && NightAt(s, log[i].location)
  }

  ghost predicate SolarFailureIsExact(s: Snapshot, log: seq<Commit>) {
    && (s.solarLastError.Some? <==> exists i: nat :: SolarFailureInForce(log, i))
    && forall i: nat :: SolarFailureInForce(log, i) ==>
                          s.solarLastError == Some(log[i].failure) && NightAt(s, log[i].location)
  }

  ghost predicate EnrichmentIsExact(s: Snapshot, log: seq<Commit>) {
    forall key :: EnrichmentOfKeyIsExact(s, log, key)
  }

  ghost predicate EnrichmentOfKeyIsExact(s: Snapshot, log: seq<Commit>, key: AircraftKey) {
    && (key in s.enrichment <==> exists i: nat :: EnrichmentInForce(log, key, i))
    && forall i: nat :: EnrichmentInForce(log, key, i) ==>
                          key in s.enrichment && s.enrichment[key] == log[i].enrichment
  }

  /** No later commit is of the same kind. */
  ghost predicate LastOf(log: seq<Commit>, i: nat)
    requires i < |log|
  {
    forall j :: i < j < |log| ==>
                  && (log[i].ReplaceSettings? ==> !log[j].ReplaceSettings?)
                  && (log[i].SetUrls? ==> !log[j].SetUrls?)
                  && (log[i].RecordBacklight? ==> !log[j].RecordBacklight?)
                  && (log[i].RecordAdsbError? ==> !log[j].RecordAdsbError?)
  }

  /** What nothing makes stale is what was recorded last. */
  ghost predicate LatestIsExact(s: Snapshot, log: seq<Commit>) {
    && (forall i :: 0 <= i < |log| && log[i].ReplaceSettings? && LastOf(log, i) ==> s.settings == log[i].settings)
    && (forall i :: 0 <= i < |log| && log[i].SetUrls? && LastOf(log, i) ==>
          s.localUrl == log[i].localUrl && s.ipUrl == log[i].ipUrl)
    && (forall i :: 0 <= i < |log| && log[i].RecordBacklight? && LastOf(log, i) ==>
          s.backlightAvailability == log[i].availability)
    && (forall i :: 0 <= i < |log| && log[i].RecordAdsbError? && LastOf(log, i) ==> s.lastErrorAt == Some(log[i].at))
    && ((forall j :: 0 <= j < |log| ==> !log[j].RecordBacklight?) ==> s.backlightAvailability.Unknown?)
    && ((forall j :: 0 <= j < |log| ==> !log[j].RecordAdsbError?) ==> s.lastErrorAt.None?)
  }

  ghost predicate Coherent(s: Snapshot, log: seq<Commit>) {
    && ReportIsExact(s, log) && FlagIsExact(s, log) && ReadingIsExact(s, log) && ReadingErrorIsExact(s, log)
    && ScheduleIsExact(s, log) && SolarFailureIsExact(s, log) && EnrichmentIsExact(s, log) && LatestIsExact(s, log)
    && s.generation == (if |log| < U64_MAX then |log| else U64_MAX)
  }

  // ----- one commit keeps it all

  lemma HeldStep(log: seq<Commit>, c: Commit, i: nat, location: Location)
    requires i < |log|
    ensures LocationHeld(log + [c], i, location)
       <==> LocationHeld(log, i, location) && (c.ReplaceSettings? ==> c.settings.location == Some(location))
  {
    assert forall j :: 0 <= j < |log| ==> (log + [c])[j] == log[j];
    assert (log + [c])[|log|] == c;
  }

  lemma RangeHeldStep(log: seq<Commit>, c: Commit, i: nat, rangeIndex: nat)
    requires i < |log|
    ensures RangeHeld(log + [c], i, rangeIndex)
       <==> RangeHeld(log, i, rangeIndex) && (c.ReplaceSettings? ==> c.settings.rangeIndex == rangeIndex)
  {
    assert forall j :: 0 <= j < |log| ==> (log + [c])[j] == log[j];
    assert (log + [c])[|log|] == c;
  }

  lemma SolarHeldStep(log: seq<Commit>, c: Commit, i: nat, location: Location)
    requires i < |log|
    ensures SolarHeld(log + [c], i, location) <==>
              && SolarHeld(log, i, location)
              && (c.ReplaceSettings? ==>
                    && c.settings.brightness.night.enabled && c.settings.location.Some?
                    && c.settings.location.value.latitude == location.latitude
                    && c.settings.location.value.longitude == location.longitude)
  {
    assert forall j :: 0 <= j < |log| ==> (log + [c])[j] == log[j];
    assert (log + [c])[|log|] == c;
  }

  lemma ReportForceStep(log: seq<Commit>, c: Commit, i: nat)
    ensures i < |log| ==>
              (ReportInForce(log + [c], i) <==>
                 && ReportInForce(log, i) && !c.RecordAircraft?
                 && (c.ReplaceSettings? ==>
                       c.settings.location == Some(log[i].location) && c.settings.rangeIndex == log[i].rangeIndex))
    ensures i == |log| ==> (ReportInForce(log + [c], i) <==> c.RecordAircraft?)
    ensures i > |log| ==> !ReportInForce(log + [c], i)
  {
    assert forall j :: 0 <= j < |log| ==> (log + [c])[j] == log[j];
    assert (log + [c])[|log|] == c;
    if i < |log| && log[i].RecordAircraft? {
      HeldStep(log, c, i, log[i].location);
      RangeHeldStep(log, c, i, log[i].rangeIndex);
    }
  }

  lemma {:induction false} FilterBeforeStep(log: seq<Commit>, c: Commit, i: nat, j: nat)
    requires i < j <= |log| && log[i].RecordAircraft?
    ensures FilterBefore(log + [c], i, j) == FilterBefore(log, i, j)
  {
    if j > i + 1 { FilterBeforeStep(log, c, i, j - 1); }
  }

  lemma SurvivesStep(log: seq<Commit>, c: Commit, i: nat, a: Aircraft)
    requires i < |log| && log[i].RecordAircraft?
    ensures Survives(log + [c], i, a) <==>
              && Survives(log, i, a)
              && (c.ReplaceSettings? && c.settings.Filter() != FilterBefore(log, i, |log|)
                  ==> c.settings.Filter().Allows(a.altitudeFeet))
  {
    var log' := log + [c];
    forall j | i < j < |log| ensures Refuses(log', i, j, a) <==> Refuses(log, i, j, a) {
      FilterBeforeStep(log, c, i, j);
    }
    FilterBeforeStep(log, c, i, |log|);
    assert Refuses(log', i, |log|, a) <==>
        c.ReplaceSettings? && c.settings.Filter() != FilterBefore(log, i, |log|)
        && !c.settings.Filter().Allows(a.altitudeFeet);
  }

  lemma FreshReport(s: Snapshot, log: seq<Commit>, c: Commit)
    requires c.RecordAircraft? && Accepts(s, c)
    ensures ShowsReport(Next(s, c), log + [c], |log|)
  {
    SubsequenceOfSelf(c.aircraft);
  }

  lemma KeptReport(s: Snapshot, log: seq<Commit>, c: Commit, i: nat)
    requires i < |log| && log[i].RecordAircraft? && ShowsReport(s, log, i)
    requires Accepts(s, c) && !c.RecordAircraft?
    requires c.ReplaceSettings? ==> !QueryChanges(s.settings, c.settings)
    ensures ShowsReport(Next(s, c), log + [c], i)
  {
    var s', log' := Next(s, c), log + [c];
    FilterBeforeStep(log, c, i, |log|);
    if c.ReplaceSettings? {
      FilteredSubsequence(s.aircraft, log[i].aircraft, c.settings.Filter());
      assert FilterBefore(log', i, |log'|) == c.settings.Filter();
    }
    forall a ensures multiset(s'.aircraft)[a] == if Survives(log', i, a) then multiset(log[i].aircraft)[a] else 0 {
      SurvivesStep(log, c, i, a);
      if c.ReplaceSettings? { FilterCounts(s.aircraft, c.settings.Filter(), a); }
    }
  }

  lemma ReportsStep(s: Snapshot, log: seq<Commit>, c: Commit)
    requires ReportIsExact(s, log) && Accepts(s, c)
    ensures ReportIsExact(Next(s, c), log + [c])
  {
    var s', log' := Next(s, c), log + [c];
    forall i: nat ensures ReportInForce(log', i) ==> ShowsReport(s', log', i) {
      ReportForceStep(log, c, i);
      if ReportInForce(log', i) {
        if i == |log| {
          FreshReport(s, log, c);
        } else {
          KeptReport(s, log, c, i);
        }
      }
    }
    if c.RecordAircraft? {
      ReportForceStep(log, c, |log|);
    } else if s'.fetchedAt.Some? {
      var i: nat :| ReportInForce(log, i);
      ReportForceStep(log, c, i);
    }
  }

  lemma FlagStep(s: Snapshot, log: seq<Commit>, c: Commit)
    requires FlagIsExact(s, log) && Accepts(s, c)
    ensures FlagIsExact(Next(s, c), log + [c])
  {
    hide LocationHeld;
    var s', log' := Next(s, c), log + [c];
    forall i | 0 <= i < |log|
      ensures FetchedSinceMoved(log', i)
         <==> FetchedSinceMoved(log, i) && (c.ReplaceSettings? ==> c.settings.location == Some(log[i].location))
    {
      if log[i].RecordAircraft? { HeldStep(log, c, i, log[i].location); }
    }
    if c.RecordAircraft? {
      NothingAfter(log', |log|, c.location);
      assert FetchedSinceMoved(log', |log|);
    }
    forall i: nat | FetchedSinceMoved(log', i)
      ensures s'.settings.location == Some(log'[i].location) && s'.hasSuccessfulFetch
    {
      if i < |log| { assert FetchedSinceMoved(log, i); }
    }
    if s'.hasSuccessfulFetch && !c.RecordAircraft? {
      var i: nat :| FetchedSinceMoved(log, i);
      assert FetchedSinceMoved(log', i);
    }
  }

  lemma NothingAfter(log: seq<Commit>, i: nat, location: Location)
    requires i == |log| - 1
    ensures LocationHeld(log, i, location)
  {}

  lemma ReadingForceStep(log: seq<Commit>, c: Commit, i: nat)
    ensures i < |log| ==>
              (ReadingInForce(log + [c], i) <==>
                 && ReadingInForce(log, i) && !c.RecordEnvironment?
                 && (c.ReplaceSettings? ==> c.settings.location == Some(log[i].location)))
    ensures i == |log| ==> (ReadingInForce(log + [c], i) <==> c.RecordEnvironment?)
    ensures i > |log| ==> !ReadingInForce(log + [c], i)
  {
    assert forall j :: 0 <= j < |log| ==> (log + [c])[j] == log[j];
    assert (log + [c])[|log|] == c;
    if i < |log| && log[i].RecordEnvironment? { HeldStep(log, c, i, log[i].location); }
  }

  lemma ReadingStep(s: Snapshot, log: seq<Commit>, c: Commit)
    requires ReadingIsExact(s, log) && Accepts(s, c)
    ensures ReadingIsExact(Next(s, c), log + [c])
  {
    var s', log' := Next(s, c), log + [c];
    forall i: nat ensures ReadingInForce(log', i) ==>
                            s'.environment == Some(log'[i].reading) && s'.settings.location == Some(log'[i].location) {
      ReadingForceStep(log, c, i);
    }
    ReadingForceStep(log, c, |log|);
    if s'.environment.Some? && !c.RecordEnvironment? {
      var i: nat :| ReadingInForce(log, i);
      ReadingForceStep(log, c, i);
    }
  }

  lemma ReadingErrorForceStep(log: seq<Commit>, c: Commit, i: nat)
    ensures i < |log| ==>
              (ReadingErrorInForce(log + [c], i) <==>
                 && ReadingErrorInForce(log, i) && !c.RecordEnvironment? && !c.RecordEnvironmentError?
                 && (c.ReplaceSettings? ==> c.settings.location == Some(log[i].location)))
    ensures i == |log| ==> (ReadingErrorInForce(log + [c], i) <==> c.RecordEnvironmentError?)
    ensures i > |log| ==> !ReadingErrorInForce(log + [c], i)
  {
    assert forall j :: 0 <= j < |log| ==> (log + [c])[j] == log[j];
    assert (log + [c])[|log|] == c;
    if i < |log| && log[i].RecordEnvironmentError? { HeldStep(log, c, i, log[i].location); }
  }

  lemma ReadingErrorStep(s: Snapshot, log: seq<Commit>, c: Commit)
    requires ReadingErrorIsExact(s, log) && Accepts(s, c)
    ensures ReadingErrorIsExact(Next(s, c), log + [c])
  {
    var s', log' := Next(s, c), log + [c];
    forall i: nat ensures ReadingErrorInForce(log', i) ==>
                            && s'.environmentLastErrorAt == Some(log'[i].at)
                            && s'.settings.location == Some(log'[i].location) {
      ReadingErrorForceStep(log, c, i);
    }
    ReadingErrorForceStep(log, c, |log|);
    if s'.environmentLastErrorAt.Some? && !c.RecordEnvironmentError? {
      var i: nat :| ReadingErrorInForce(log, i);
      ReadingErrorForceStep(log, c, i);
    }
  }

  ghost predicate StaysNightAt(c: Commit, location: Location) {
    c.ReplaceSettings? ==>
      && c.settings.brightness.night.enabled && c.settings.location.Some?
      && c.settings.location.value.latitude == location.latitude
      && c.settings.location.value.longitude == location.longitude
  }

  lemma ScheduleForceStep(log: seq<Commit>, c: Commit, i: nat)
    ensures i < |log| ==>
              (ScheduleInForce(log + [c], i) <==>
                 ScheduleInForce(log, i) && !c.RecordSolarSchedule? && StaysNightAt(c, log[i].location))
    ensures i == |log| ==> (ScheduleInForce(log + [c], i) <==> c.RecordSolarSchedule?)
    ensures i > |log| ==> !ScheduleInForce(log + [c], i)
  {
    assert forall j :: 0 <= j < |log| ==> (log + [c])[j] == log[j];
    assert (log + [c])[|log|] == c;
    if i < |log| && log[i].RecordSolarSchedule? { SolarHeldStep(log, c, i, log[i].location); }
  }

  lemma ScheduleStep(s: Snapshot, log: seq<Commit>, c: Commit)
    requires ScheduleIsExact(s, log) && Accepts(s, c)
    ensures ScheduleIsExact(Next(s, c), log + [c])
  {
    var s', log' := Next(s, c), log + [c];
    forall i: nat ensures ScheduleInForce(log', i) ==>
                            s'.solarSchedule == Some(log'[i].schedule) && NightAt(s', log'[i].location) {
      ScheduleForceStep(log, c, i);
    }
    ScheduleForceStep(log, c, |log|);
    if s'.solarSchedule.Some? && !c.RecordSolarSchedule? {
      var i: nat :| ScheduleInForce(log, i);
      ScheduleForceStep(log, c, i);
    }
  }

  lemma SolarFailureForceStep(log: seq<Commit>, c: Commit, i: nat)
    ensures i < |log| ==>
              (SolarFailureInForce(log + [c], i) <==>
                 && SolarFailureInForce(log, i) && !c.RecordSolarSchedule? && !c.RecordSolarFailure?
                 && StaysNightAt(c, log[i].location))
    ensures i == |log| ==> (SolarFailureInForce(log + [c], i) <==> c.RecordSolarFailure?)
    ensures i > |log| ==> !SolarFailureInForce(log + [c], i)
  {
    assert forall j :: 0 <= j < |log| ==> (log + [c])[j] == log[j];
    assert (log + [c])[|log|] == c;
    if i < |log| && log[i].RecordSolarFailure? { SolarHeldStep(log, c, i, log[i].location); }
  }

  lemma SolarFailureStep(s: Snapshot, log: seq<Commit>, c: Commit)
    requires SolarFailureIsExact(s, log) && Accepts(s, c)
    ensures SolarFailureIsExact(Next(s, c), log + [c])
  {
    var s', log' := Next(s, c), log + [c];
    forall i: nat ensures SolarFailureInForce(log', i) ==>
                            s'.solarLastError == Some(log'[i].failure) && NightAt(s', log'[i].location) {
      SolarFailureForceStep(log, c, i);
    }
    SolarFailureForceStep(log, c, |log|);
    if s'.solarLastError.Some? && !c.RecordSolarFailure? {
      var i: nat :| SolarFailureInForce(log, i);
      SolarFailureForceStep(log, c, i);
    }
  }

  /** The keys displayed are those of the report that is still shown. */
  lemma ShownKeys(s: Snapshot, log: seq<Commit>, key: AircraftKey)
    requires ReportIsExact(s, log)
    ensures key in DisplayedKeys(s.aircraft) <==> KeyShown(log, key)
  {
    hide Survives, Subsequence, FilterBefore;
    if key in DisplayedKeys(s.aircraft) {
      var a :| a in s.aircraft && a.Key() == key;
      var i: nat :| ReportInForce(log, i);
      assert ShowsReport(s, log, i);
      assert a in multiset(s.aircraft) && a in multiset(log[i].aircraft);
    }
    if KeyShown(log, key) {
      var i: nat, a :| ReportInForce(log, i) && a in log[i].aircraft && Survives(log, i, a)
                       && a.hex == key.hex && a.flightCallsign == key.callsign;
      assert ShowsReport(s, log, i);
      assert a in multiset(log[i].aircraft) && a in multiset(s.aircraft);
      assert a.Key() == key;
    }
  }

  lemma EnrichmentForceStep(log: seq<Commit>, c: Commit, key: AircraftKey, i: nat)
    ensures i < |log| ==>
              (EnrichmentInForce(log + [c], key, i) <==>
                 && EnrichmentInForce(log, key, i) && !(c.RecordEnrichment? && c.key == key)
                 && KeyShown(log + [c], key))
    ensures i == |log| ==>
              (EnrichmentInForce(log + [c], key, i) <==>
                 c.RecordEnrichment? && c.key == key && KeyShown(log + [c], key))
    ensures i > |log| ==> !EnrichmentInForce(log + [c], key, i)
  {
    hide KeyShown;
    var log' := log + [c];
    assert forall j :: 0 <= j < |log| ==> log'[j] == log[j];
    assert log'[|log|] == c;
    assert forall n :: 0 <= n <= |log| ==> log'[..n] == log[..n];
    assert log'[..|log'|] == log';
  }

  /** Only what is displayed is kept, and only the recorded key changes. */
  lemma EnrichmentAfter(s: Snapshot, c: Commit, key: AircraftKey)
    requires Accepts(s, c) && (key in s.enrichment ==> key in DisplayedKeys(s.aircraft))
    ensures var s' := Next(s, c);
            if c.RecordEnrichment? && c.key == key then
              key in DisplayedKeys(s'.aircraft) && key in s'.enrichment && s'.enrichment[key] == c.enrichment
            else
              && (key in s'.enrichment <==> key in s.enrichment && key in DisplayedKeys(s'.aircraft))
              && (key in s'.enrichment ==> s'.enrichment[key] == s.enrichment[key])
  {}

  lemma EnrichmentKeyStep(s: Snapshot, log: seq<Commit>, c: Commit, key: AircraftKey)
    requires ReportIsExact(s, log) && EnrichmentOfKeyIsExact(s, log, key) && Accepts(s, c)
    requires ReportIsExact(Next(s, c), log + [c])
    ensures EnrichmentOfKeyIsExact(Next(s, c), log + [c], key)
  {
    var s', log' := Next(s, c), log + [c];
    ShownKeys(s', log', key);
    ShownKeys(s, log, key);
    hide Accepts, Next, KeyShown, ReportIsExact;
    if key in s.enrichment {
      var i: nat :| EnrichmentInForce(log, key, i);
      assert log[..|log|] == log;
    }
    EnrichmentAfter(s, c, key);
    forall i: nat ensures EnrichmentInForce(log', key, i) ==>
                            key in s'.enrichment && s'.enrichment[key] == log'[i].enrichment {
      EnrichmentForceStep(log, c, key, i);
    }
    EnrichmentForceStep(log, c, key, |log|);
    if key in s.enrichment {
      var i: nat :| EnrichmentInForce(log, key, i);
      EnrichmentForceStep(log, c, key, i);
    }
  }

  lemma EnrichmentStep(s: Snapshot, log: seq<Commit>, c: Commit)
    requires ReportIsExact(s, log) && EnrichmentIsExact(s, log) && Accepts(s, c)
    ensures EnrichmentIsExact(Next(s, c), log + [c])
  {
    ReportsStep(s, log, c);
    forall key ensures EnrichmentOfKeyIsExact(Next(s, c), log + [c], key) {
      EnrichmentKeyStep(s, log, c, key);
    }
  }

  /** Which commits touch what no other makes stale. */
  lemma LatestAfter(s: Snapshot, c: Commit)
    requires Accepts(s, c)
    ensures var s' := Next(s, c);
            && s'.settings == (if c.ReplaceSettings? then c.settings else s.settings)
            && s'.localUrl == (if c.SetUrls? then c.localUrl else s.localUrl)
            && s'.ipUrl == (if c.SetUrls? then c.ipUrl else s.ipUrl)
            && s'.backlightAvailability == (if c.RecordBacklight? then c.availability else s.backlightAvailability)
            && s'.lastErrorAt == (if c.RecordAdsbError? then Some(c.at) else s.lastErrorAt)
  {}

  lemma LatestStep(s: Snapshot, log: seq<Commit>, c: Commit)
    requires LatestIsExact(s, log) && Accepts(s, c)
    ensures LatestIsExact(Next(s, c), log + [c])
  {
    LatestAfter(s, c);
    hide Next, Accepts;
    var log' := log + [c];
    assert forall j :: 0 <= j < |log| ==> log'[j] == log[j];
    assert log'[|log|] == c;
    forall i | 0 <= i < |log|
      ensures LastOf(log', i) <==>
                && LastOf(log, i)
                && !(log[i].ReplaceSettings? && c.ReplaceSettings?) && !(log[i].SetUrls? && c.SetUrls?)
                && !(log[i].RecordBacklight? && c.RecordBacklight?) && !(log[i].RecordAdsbError? && c.RecordAdsbError?)
    {}
    hide LastOf;
  }

  /** Every accepted commit keeps the snapshot coherent with what was accepted; a refused one changes nothing. */
  lemma CommitKeepsCoherence(s: Snapshot, log: seq<Commit>, c: Commit)
    requires Coherent(s, log)
    ensures Accepts(s, c) ==> Coherent(Next(s, c), log + [c])
    ensures !Accepts(s, c) ==> Next(s, c) == s
  {
    hide ReportIsExact, FlagIsExact, ReadingIsExact, ReadingErrorIsExact, ScheduleIsExact, SolarFailureIsExact,
         EnrichmentIsExact, LatestIsExact, Accepts, Recorded;
    if Accepts(s, c) {
      ReportsStep(s, log, c);
      FlagStep(s, log, c);
      ReadingStep(s, log, c);
      ReadingErrorStep(s, log, c);
      ScheduleStep(s, log, c);
      SolarFailureStep(s, log, c);
      EnrichmentStep(s, log, c);
      LatestStep(s, log, c);
    }
  }

  lemma InitialIsCoherent(settings: RadarSettings, localUrl: string)
    ensures Coherent(Initial(settings, localUrl), [])
  {}

  // ----- whole runs

  /** Commits in the order they take the lock; the requests behind them may be any number of settings old. */
  function Run(s: Snapshot, attempts: seq<Commit>): Snapshot {
    if attempts == [] then s else Next(Run(s, attempts[..|attempts| - 1]), attempts[|attempts| - 1])
  }

  function AcceptedOf(s: Snapshot, attempts: seq<Commit>): seq<Commit> {
    if attempts == [] then []
    else
      var before, c := attempts[..|attempts| - 1], attempts[|attempts| - 1];
      AcceptedOf(s, before) + (if Accepts(Run(s, before), c) then [c] else [])
  }

  lemma {:induction false} EveryRunIsCoherent(settings: RadarSettings, localUrl: string, attempts: seq<Commit>)
    ensures var s := Initial(settings, localUrl);
            Coherent(Run(s, attempts), AcceptedOf(s, attempts))
  {
    hide Coherent, Accepts, Next;
    var s := Initial(settings, localUrl);
    if attempts == [] {
      InitialIsCoherent(settings, localUrl);
    } else {
      var before, c := attempts[..|attempts| - 1], attempts[|attempts| - 1];
      EveryRunIsCoherent(settings, localUrl, before);
      CommitKeepsCoherence(Run(s, before), AcceptedOf(s, before), c);
      assert AcceptedOf(s, before) + [] == AcceptedOf(s, before);
    }
  }

  /** A fetch that only returns what its filter allows, as the parser ensures. */
  ghost predicate Filtered(c: Commit) {
    c.RecordAircraft? ==> forall a :: a in c.aircraft ==> c.filter.Allows(a.altitudeFeet)
  }

  lemma {:induction false} AcceptedWereAttempted(s: Snapshot, attempts: seq<Commit>)
    requires forall k :: 0 <= k < |attempts| ==> Filtered(attempts[k])
    ensures forall k :: 0 <= k < |AcceptedOf(s, attempts)| ==> Filtered(AcceptedOf(s, attempts)[k])
  {
    hide Filtered, Accepts;
    if attempts != [] {
      AcceptedWereAttempted(s, attempts[..|attempts| - 1]);
    }
  }

  lemma {:induction false} SurvivorsPass(log: seq<Commit>, i: nat, j: nat, a: Aircraft)
    requires i < j <= |log| && log[i].RecordAircraft?
    requires log[i].filter.Allows(a.altitudeFeet) && Survives(log, i, a)
    ensures FilterBefore(log, i, j).Allows(a.altitudeFeet)
  {
    if j > i + 1 {
      SurvivorsPass(log, i, j - 1, a);
      assert !Refuses(log, i, j - 1, a);
    }
  }

  /** Reports that pass their own filters are only ever shown as far as they pass the current one. */
  lemma ShownPasses(s: Snapshot, log: seq<Commit>)
    requires ReportIsExact(s, log) && forall k :: 0 <= k < |log| ==> Filtered(log[k])
    ensures forall a :: a in s.aircraft ==> s.settings.Filter().Allows(a.altitudeFeet)
  {
    hide Subsequence, FilterBefore, Survives, Refuses;
    forall a | a in s.aircraft ensures s.settings.Filter().Allows(a.altitudeFeet) {
      var i: nat :| ReportInForce(log, i);
      assert ShowsReport(s, log, i) && Filtered(log[i]);
      assert a in multiset(s.aircraft) && a in multiset(log[i].aircraft);
      SurvivorsPass(log, i, |log|, a);
    }
  }

  /** However commits and settings interleave, what is displayed passes the altitude filter now in force and
      the enrichment shown belongs to displayed aircraft. */
  lemma DisplayedAlwaysPassFilter(settings: RadarSettings, localUrl: string, attempts: seq<Commit>)
    requires forall k :: 0 <= k < |attempts| ==> Filtered(attempts[k])
    ensures var s := Run(Initial(settings, localUrl), attempts);
            && (forall a :: a in s.aircraft ==> s.settings.Filter().Allows(a.altitudeFeet))
            && s.enrichment.Keys <= DisplayedKeys(s.aircraft)
  {
    hide Run, AcceptedOf, Filtered, ReportIsExact, EnrichmentIsExact, LatestIsExact, FlagIsExact, ReadingIsExact,
         ReadingErrorIsExact, ScheduleIsExact, SolarFailureIsExact, DisplayedKeys, RadarSettings.Filter;
    var initial := Initial(settings, localUrl);
    var s, log := Run(initial, attempts), AcceptedOf(initial, attempts);
    EveryRunIsCoherent(settings, localUrl, attempts);
    AcceptedWereAttempted(initial, attempts);
    ShownPasses(s, log);
    EnrichedAreShown(s, log);
  }

  lemma EnrichedAreShown(s: Snapshot, log: seq<Commit>)
    requires ReportIsExact(s, log) && EnrichmentIsExact(s, log)
    ensures s.enrichment.Keys <= DisplayedKeys(s.aircraft)
  {
    hide ReportIsExact, KeyShown, DisplayedKeys;
    forall key | key in s.enrichment ensures key in DisplayedKeys(s.aircraft) {
      assert EnrichmentOfKeyIsExact(s, log, key);
      var i: nat :| EnrichmentInForce(log, key, i);
      assert log[..|log|] == log;
      ShownKeys(s, log, key);
    }
  }

  /** The generation moves exactly with accepted commits, until it saturates. */
  lemma GenerationMoves(s: Snapshot, c: Commit)
    requires s.generation <= U64_MAX
    ensures Next(s, c).generation == s.generation <==> !Accepts(s, c) || s.generation == U64_MAX
    ensures s.generation <= Next(s, c).generation <= U64_MAX
  {
    hide Accepts, Recorded;
  }

  /** Below saturation, two moments of a run with the same generation have the same snapshot. */
  lemma {:induction false} GenerationDeterminesSnapshot(s: Snapshot, attempts: seq<Commit>, i: nat, j: nat)
    requires i <= j <= |attempts| && s.generation <= U64_MAX
    ensures var a, b := Run(s, attempts[..i]), Run(s, attempts[..j]);
            && a.generation <= b.generation <= U64_MAX
            && (a.generation == b.generation < U64_MAX ==> a == b)
    decreases j
  {
    hide Accepts, Recorded;
    if i < j {
      GenerationDeterminesSnapshot(s, attempts, i, j - 1);
      assert attempts[..j][..j - 1] == attempts[..j - 1];
      GenerationMoves(Run(s, attempts[..j - 1]), attempts[j - 1]);
    } else if j > 0 {
      GenerationDeterminesSnapshot(s, attempts, j - 1, j - 1);
      assert attempts[..j][..j - 1] == attempts[..j - 1];
      GenerationMoves(Run(s, attempts[..j - 1]), attempts[j - 1]);
    }
  }

  // ----- the model itself

  /** The snapshots a model has had, numbered by generation until it saturates. */
  ghost predicate Numbered(history: seq<Snapshot>) {
    forall i :: 0 <= i < |history| ==> history[i].generation == (if i < U64_MAX then i else U64_MAX)
  }

  datatype Persisted = NotCurrent | PersistFailed | Unchanged | RecordedAt(generation: nat)

  class RuntimeModel {
    var snapshot: Snapshot
    ghost var log: seq<Commit>
    ghost var history: seq<Snapshot>

    ghost predicate Valid()
      reads this
    {
      && Coherent(snapshot, log)
      && |history| == |log| + 1 && history[|log|] == snapshot && Numbered(history)
    }

    constructor (settings: RadarSettings, localUrl: string)
      ensures Valid() && snapshot == Initial(settings, localUrl) && log == [] && history == [snapshot]
    {
      snapshot := Initial(settings, localUrl);
      log := [];
      history := [Initial(settings, localUrl)];
      new;
      InitialIsCoherent(settings, localUrl);
    }

    /** The commit took effect or was refused, and the answer says which. */
    twostate predicate Committed(c: Commit, new generation: Option<nat>)
      reads this
    {
      && snapshot == Next(old(snapshot), c)
      && (generation.Some? <==> Accepts(old(snapshot), c))
      && (generation.Some? ==> generation.value == snapshot.generation
                               && log == old(log) + [c] && history == old(history) + [snapshot])
      && (generation.None? ==> log == old(log) && history == old(history) && snapshot == old(snapshot))
      && snapshot.generation == (if generation.Some? && old(snapshot).generation < 0xFFFF_FFFF_FFFF_FFFF
                                 then old(snapshot).generation + 1 else old(snapshot).generation)
    }

    /** Enrichment is kept exactly for what is displayed. */
    twostate predicate EnrichmentRetained()
      reads this
    {
      forall key ::
        && (key in snapshot.enrichment <==>
              && key in old(snapshot).enrichment
              && exists a :: a in snapshot.aircraft && a.hex == key.hex && a.flightCallsign == key.callsign)
        && (key in snapshot.enrichment ==> snapshot.enrichment[key] == old(snapshot).enrichment[key])
    }

    /** bump, and the record of what was accepted. */
    method Bump(ghost before: Snapshot, ghost c: Commit) returns (generation: nat)
      requires Coherent(before, log) && Accepts(before, c)
      requires |history| == |log| + 1 && history[|log|] == before && Numbered(history)
      requires snapshot == Recorded(before, c)
      modifies this
      ensures Valid() && generation == snapshot.generation && snapshot == Next(before, c)
      ensures log == old(log) + [c] && history == old(history) + [snapshot]
    {
      hide Accepts, Recorded, ReportIsExact, FlagIsExact, ReadingIsExact, ReadingErrorIsExact, ScheduleIsExact,
           SolarFailureIsExact, EnrichmentIsExact, LatestIsExact;
      RecordedKeepsGeneration(before, c);
      CommitKeepsCoherence(before, log, c);
      if snapshot.generation < U64_MAX {
        snapshot := snapshot.(generation := snapshot.generation + 1);
      }
      log := log + [c];
      history := history + [snapshot];
      generation := snapshot.generation;
    }

    method RetainDisplayedEnrichment()
      modifies `snapshot
      ensures snapshot == RetainDisplayed(old(snapshot)) && EnrichmentRetained()
      ensures snapshot == old(snapshot).(enrichment := snapshot.enrichment)
    {
      var displayedKeys := DisplayedKeys(snapshot.aircraft);
      snapshot := snapshot.(enrichment :=
        map k | k in snapshot.enrichment && k in displayedKeys :: snapshot.enrichment[k]);
    }

    method ReplaceSettings(settings: RadarSettings) returns (generation: nat)
      requires Valid()
      modifies this
      ensures Valid() && Committed(Commit.ReplaceSettings(settings), Some(generation))
    {
      hide Coherent, Numbered;
      ghost var before := snapshot;
      var locationChanged := snapshot.settings.location != settings.location;
      var solarCoordinatesChanged := !SameOptionalCoordinates(snapshot.settings.location, settings.location);
      var queryChanged := locationChanged || snapshot.settings.rangeIndex != settings.rangeIndex;
      var oldFilter, newFilter := snapshot.settings.Filter(), settings.Filter();
      snapshot := snapshot.(settings := settings);
      if queryChanged {
        snapshot := snapshot.(aircraft := [], fetchedAt := None);
      } else if oldFilter != newFilter {
        snapshot := snapshot.(aircraft := FilterAircraft(snapshot.aircraft, newFilter));
      }
      RetainDisplayedEnrichment();
      if locationChanged {
        snapshot := snapshot.(environment := None, environmentLastErrorAt := None, hasSuccessfulFetch := false);
      }
      if solarCoordinatesChanged || !snapshot.settings.brightness.night.enabled || snapshot.settings.location.None? {
        snapshot := snapshot.(solarSchedule := None, solarLastError := None);
      }
      generation := Bump(before, Commit.ReplaceSettings(settings));
    }

    method RecordSolarScheduleIfCurrent(expected: Location, schedule: SolarSchedule) returns (generation: Option<nat>)
      requires Valid()
      modifies this
      ensures Valid() && Committed(RecordSolarSchedule(expected, schedule), generation)
      ensures generation.Some? <==>
                && NightAt(old(snapshot), expected)
                && schedule.latitude == expected.latitude && schedule.longitude == expected.longitude
                && (old(snapshot).solarSchedule != Some(schedule) || old(snapshot).solarLastError.Some?)
      ensures generation.Some? ==>
                snapshot == old(snapshot).(solarSchedule := Some(schedule), solarLastError := None,
                                           generation := generation.value)
    {
      hide Coherent, Numbered;
      if !SolarRequestIsCurrent(snapshot, expected) || !ScheduleMatches(schedule, expected) {
        return None;
      }
      if snapshot.solarSchedule == Some(schedule) && snapshot.solarLastError.None? {
        return None;
      }
      ghost var before := snapshot;
      snapshot := snapshot.(solarSchedule := Some(schedule), solarLastError := None);
      var bumped := Bump(before, RecordSolarSchedule(expected, schedule));
      generation := Some(bumped);
    }

    /** The schedule is written to disk, which may fail, under the same lock and only while it is current. */
    method PersistAndRecordSolarScheduleIfCurrent(expected: Location, schedule: SolarSchedule, persistSucceeds: bool)
      returns (outcome: Persisted, wrote: bool)
      requires Valid()
      modifies this
      ensures Valid()
      ensures wrote <==> && NightAt(old(snapshot), expected)
                         && schedule.latitude == expected.latitude && schedule.longitude == expected.longitude
      ensures outcome.NotCurrent? <==> !wrote
      ensures outcome.PersistFailed? <==> wrote && !persistSucceeds
      ensures outcome.NotCurrent? || outcome.PersistFailed? ==> unchanged(this)
      ensures outcome.Unchanged? ==> unchanged(this)
      ensures outcome.RecordedAt? ==>
                snapshot == old(snapshot).(solarSchedule := Some(schedule), solarLastError := None,
                                           generation := outcome.generation)
      ensures outcome.Unchanged? || outcome.RecordedAt? ==>
                && snapshot.solarSchedule == Some(schedule) && snapshot.solarLastError.None?
                && (outcome.Unchanged? <==>
                      old(snapshot).solarSchedule == Some(schedule) && old(snapshot).solarLastError.None?)
                && Committed(RecordSolarSchedule(expected, schedule),
                             if outcome.RecordedAt? then Some(outcome.generation) else None)
    {
      hide Coherent, Numbered;
      if !SolarRequestIsCurrent(snapshot, expected) || !ScheduleMatches(schedule, expected) {
        return NotCurrent, false;
      }
      wrote := true;
      if !persistSucceeds {
        return PersistFailed, true;
      }
      if snapshot.solarSchedule == Some(schedule) && snapshot.solarLastError.None? {
        return Unchanged, true;
      }
      ghost var before := snapshot;
      snapshot := snapshot.(solarSchedule := Some(schedule), solarLastError := None);
      var bumped := Bump(before, RecordSolarSchedule(expected, schedule));
      outcome := RecordedAt(bumped);
    }

    method RecordSolarFailureIfCurrent(expected: Location, failure: SolarFailure) returns (generation: Option<nat>)
      requires Valid()
      modifies this
      ensures Valid() && Committed(RecordSolarFailure(expected, failure), generation)
      ensures generation.Some? <==> NightAt(old(snapshot), expected) && old(snapshot).solarLastError != Some(failure)
      ensures generation.Some? ==>
                snapshot == old(snapshot).(solarLastError := Some(failure), generation := generation.value)
    {
      hide Coherent, Numbered;
      if !SolarRequestIsCurrent(snapshot, expected) || snapshot.solarLastError == Some(failure) {
        return None;
      }
      ghost var before := snapshot;
      snapshot := snapshot.(solarLastError := Some(failure));
      var bumped := Bump(before, RecordSolarFailure(expected, failure));
      generation := Some(bumped);
    }

    method RecordBacklightAvailability(availability: BacklightAvailability) returns (generation: Option<nat>)
      requires Valid()
      modifies this
      ensures Valid() && Committed(RecordBacklight(availability), generation)
      ensures generation.Some? <==> old(snapshot).backlightAvailability != availability
      ensures generation.Some? ==>
                snapshot == old(snapshot).(backlightAvailability := availability, generation := generation.value)
    {
      hide Coherent, Numbered;
      if snapshot.backlightAvailability == availability {
        return None;
      }
      ghost var before := snapshot;
      snapshot := snapshot.(backlightAvailability := availability);
      var bumped := Bump(before, RecordBacklight(availability));
      generation := Some(bumped);
    }

    method RecordAircraftIfQuery(location: Location, rangeIndex: nat, filter: AltitudeFilter, aircraft: seq<Aircraft>,
                                 at: nat)
      returns (generation: Option<nat>)
      requires Valid()
      modifies this
      ensures Valid() && Committed(RecordAircraft(location, rangeIndex, filter, aircraft, at), generation)
      ensures generation.Some? <==>
                var settings := old(snapshot).settings;
                && settings.location == Some(location) && settings.rangeIndex == rangeIndex
                && settings.minimumAltitudeFeet == filter.minimumFeet
                && settings.maximumAltitudeFeet == filter.maximumFeet
      // The whole report is displayed, and the enrichment of those displayed is kept.
      ensures generation.Some? ==>
                && snapshot == old(snapshot).(aircraft := aircraft, fetchedAt := Some(at), hasSuccessfulFetch := true,
                                              enrichment := snapshot.enrichment, generation := generation.value)
                && EnrichmentRetained()
    {
      hide Coherent, Numbered;
      if snapshot.settings.location != Some(location) || snapshot.settings.rangeIndex != rangeIndex
         || snapshot.settings.Filter() != filter {
        return None;
      }
      ghost var before := snapshot;
      snapshot := snapshot.(aircraft := aircraft);
      RetainDisplayedEnrichment();
      snapshot := snapshot.(fetchedAt := Some(at), hasSuccessfulFetch := true);
      var bumped := Bump(before, RecordAircraft(location, rangeIndex, filter, aircraft, at));
      generation := Some(bumped);
    }

    method RecordAdsbErrorIfQuery(location: Location, rangeIndex: nat, filter: AltitudeFilter, at: nat)
      returns (generation: Option<nat>)
      requires Valid()
      modifies this
      ensures Valid() && Committed(RecordAdsbError(location, rangeIndex, filter, at), generation)
      ensures generation.Some? <==>
                var settings := old(snapshot).settings;
                && settings.location == Some(location) && settings.rangeIndex == rangeIndex
                && settings.minimumAltitudeFeet == filter.minimumFeet
                && settings.maximumAltitudeFeet == filter.maximumFeet
      ensures generation.Some? ==>
                snapshot == old(snapshot).(lastErrorAt := Some(at), generation := generation.value)
    {
      hide Coherent, Numbered;
      if snapshot.settings.location != Some(location) || snapshot.settings.rangeIndex != rangeIndex
         || snapshot.settings.Filter() != filter {
        return None;
      }
      ghost var before := snapshot;
      snapshot := snapshot.(lastErrorAt := Some(at));
      var bumped := Bump(before, RecordAdsbError(location, rangeIndex, filter, at));
      generation := Some(bumped);
    }

    method RecordEnrichmentIfCurrent(location: Location, needs: EnrichmentNeeds, key: AircraftKey,
                                     enrichment: AircraftEnrichment)
      returns (generation: Option<nat>)
      requires Valid()
      modifies this
      ensures Valid() && Committed(RecordEnrichment(location, needs, key, enrichment), generation)
      ensures generation.Some? <==>
                var was := old(snapshot);
                && was.settings.location == Some(location)
                && was.settings.showRoute == needs.route && was.settings.showExpandedModel == needs.model
                && (exists a :: a in was.aircraft && a.hex == key.hex && a.flightCallsign == key.callsign)
                && (key in was.enrichment ==> was.enrichment[key] != enrichment)
      ensures generation.Some? ==>
                snapshot == old(snapshot).(enrichment := old(snapshot).enrichment[key := enrichment],
                                           generation := generation.value)
    {
      hide Coherent, Numbered;
      if snapshot.settings.location != Some(location) || snapshot.settings.Needs() != needs {
        return None;
      }
      if key !in DisplayedKeys(snapshot.aircraft)
         || (key in snapshot.enrichment && snapshot.enrichment[key] == enrichment) {
        return None;
      }
      ghost var before := snapshot;
      snapshot := snapshot.(enrichment := snapshot.enrichment[key := enrichment]);
      var bumped := Bump(before, RecordEnrichment(location, needs, key, enrichment));
      generation := Some(bumped);
    }

    method RecordEnvironmentIfCurrent(location: Location, reading: EnvironmentReading) returns (generation: Option<nat>)
      requires Valid()
      modifies this
      ensures Valid() && Committed(RecordEnvironment(location, reading), generation)
      ensures generation.Some? <==>
                var settings := old(snapshot).settings;
                && settings.location == Some(location)
                && (|| settings.footer.showCondition || settings.footer.showTemperature || settings.footer.showHumidity
                    || ((settings.footer.showTime || settings.footer.showDate) && settings.footer.timeZone.RadarLocal?))
      ensures generation.Some? ==>
                snapshot == old(snapshot).(environment := Some(reading), environmentLastErrorAt := None,
                                           generation := generation.value)
    {
      hide Coherent, Numbered;
      if snapshot.settings.location != Some(location) || !snapshot.settings.footer.NeedsEnvironment() {
        return None;
      }
      ghost var before := snapshot;
      snapshot := snapshot.(environment := Some(reading), environmentLastErrorAt := None);
      var bumped := Bump(before, RecordEnvironment(location, reading));
      generation := Some(bumped);
    }

    method RecordEnvironmentErrorIfCurrent(location: Location, at: nat) returns (generation: Option<nat>)
      requires Valid()
      modifies this
      ensures Valid() && Committed(RecordEnvironmentError(location, at), generation)
      ensures generation.Some? <==>
                var settings := old(snapshot).settings;
                && settings.location == Some(location)
                && (|| settings.footer.showCondition || settings.footer.showTemperature || settings.footer.showHumidity
                    || ((settings.footer.showTime || settings.footer.showDate) && settings.footer.timeZone.RadarLocal?))
      ensures generation.Some? ==>
                snapshot == old(snapshot).(environmentLastErrorAt := Some(at), generation := generation.value)
    {
      hide Coherent, Numbered;
      if snapshot.settings.location != Some(location) || !snapshot.settings.footer.NeedsEnvironment() {
        return None;
      }
      ghost var before := snapshot;
      snapshot := snapshot.(environmentLastErrorAt := Some(at));
      var bumped := Bump(before, RecordEnvironmentError(location, at));
      generation := Some(bumped);
    }

    method SetUrls(localUrl: string, ipUrl: Option<string>) returns (generation: nat)
      requires Valid()
      modifies this
      ensures Valid() && Committed(Commit.SetUrls(localUrl, ipUrl), Some(generation))
      ensures snapshot == old(snapshot).(localUrl := localUrl, ipUrl := ipUrl, generation := generation)
    {
      hide Coherent, Numbered;
      ghost var before := snapshot;
      snapshot := snapshot.(localUrl := localUrl, ipUrl := ipUrl);
      generation := Bump(before, Commit.SetUrls(localUrl, ipUrl));
    }

    /** Any one commit, by whichever thread holds the lock. */
    method Perform(c: Commit)
      requires Valid()
      modifies this
      ensures Valid() && snapshot == Next(old(snapshot), c)
      ensures old(history) <= history && (log == old(log) || log == old(log) + [c])
    {
      hide Coherent, Numbered, Next, Accepts;
      match c {
        case ReplaceSettings(settings) => var _ := ReplaceSettings(settings);
        case RecordSolarSchedule(location, schedule) => var _ := RecordSolarScheduleIfCurrent(location, schedule);
        case RecordSolarFailure(location, failure) => var _ := RecordSolarFailureIfCurrent(location, failure);
        case RecordBacklight(availability) => var _ := RecordBacklightAvailability(availability);
        case RecordAircraft(location, range, filter, aircraft, at) =>
          var _ := RecordAircraftIfQuery(location, range, filter, aircraft, at);
        case RecordAdsbError(location, range, filter, at) =>
          var _ := RecordAdsbErrorIfQuery(location, range, filter, at);
        case RecordEnrichment(location, needs, key, enrichment) =>
          var _ := RecordEnrichmentIfCurrent(location, needs, key, enrichment);
        case RecordEnvironment(location, reading) => var _ := RecordEnvironmentIfCurrent(location, reading);
        case RecordEnvironmentError(location, at) => var _ := RecordEnvironmentErrorIfCurrent(location, at);
        case SetUrls(localUrl, ipUrl) => var _ := SetUrls(localUrl, ipUrl);
      }
    }

    /** Everything other threads do while one of them works without the lock. */
    method Interleave(others: seq<Commit>)
      requires Valid()
      modifies this
      ensures Valid() && snapshot == Run(old(snapshot), others)
      ensures old(log) <= log && old(history) <= history
    {
      hide Coherent, Numbered, Next;
      var i := 0;
      while i < |others|
        invariant i <= |others| && Valid()
        invariant snapshot == Run(old(snapshot), others[..i])
        invariant old(log) <= log && old(history) <= history
      {
        Perform(others[i]);
        assert others[..i + 1][..i] == others[..i];
        i := i + 1;
      }
      assert others[..i] == others;
    }
  }

  lemma RecordedKeepsGeneration(s: Snapshot, c: Commit)
    ensures Recorded(s, c).generation == s.generation
  {}
}
