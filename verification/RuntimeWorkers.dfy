/**
 The actors around the runtime model: the ADS-B worker of src/runtime.rs with the parser it fetches through,
 and the settings service that saves, replaces and notifies under one mutex.
*/
module RuntimeWorkers {
  import opened Prelude
  import opened RuntimeTypes
  import opened RuntimeModel

  const MAX_AIRCRAFT: nat := 64

  // ----- parsing a response

  /** One element of the provider's list; a position is missing unless both coordinates are numbers. */
  datatype Record = NotAnObject | Report(position: bool, onGround: bool, aircraft: Aircraft)

  predicate Wanted(record: Record, showGround: bool, filter: AltitudeFilter) {
    && record.Report? && record.position && (showGround || !record.onGround)
    && filter.Allows(record.aircraft.altitudeFeet)
  }

  function WantedAircraft(records: seq<Record>, showGround: bool, filter: AltitudeFilter): (r: seq<Aircraft>)
    ensures forall a :: a in r ==> filter.Allows(a.altitudeFeet)
  {
    if records == [] then []
    else
      var last := records[|records| - 1];
      WantedAircraft(records[..|records| - 1], showGround, filter)
          + (if Wanted(last, showGround, filter) then [last.aircraft] else [])
  }

  lemma {:induction false} WantedGrows(records: seq<Record>, n: nat, showGround: bool, filter: AltitudeFilter)
    requires n <= |records|
    ensures WantedAircraft(records[..n], showGround, filter) <= WantedAircraft(records, showGround, filter)
  {
    hide Wanted;
    if n == |records| {
      assert records[..n] == records;
    } else {
      var before := records[..|records| - 1];
      WantedGrows(before, n, showGround, filter);
      assert before[..n] == records[..n];
    }
  }

  function Take<T>(s: seq<T>, n: nat): seq<T> {
    if |s| <= n then s else s[..n]
  }

  /** parse_aircraft: the first max wanted records, in order; `taken` says which they are. */
  method ParseAircraft(records: seq<Record>, max: nat, showGround: bool, filter: AltitudeFilter)
    returns (aircraft: seq<Aircraft>, ghost taken: seq<nat>)
    ensures aircraft == Take(WantedAircraft(records, showGround, filter), max)
    ensures |aircraft| <= max && forall a :: a in aircraft ==> filter.Allows(a.altitudeFeet)
    ensures |taken| == |aircraft| && forall k :: 0 <= k < |taken| ==>
                                                   taken[k] < |records| && records[taken[k]].Report?
                                                   && aircraft[k] == records[taken[k]].aircraft
    ensures forall k :: 0 < k < |taken| ==> taken[k - 1] < taken[k]
    // A record is passed over unless it has a position, is wanted on the ground and at its altitude, and comes in time.
    ensures forall i :: 0 <= i < |records| ==>
                          (i in taken <==>
                             && records[i].Report? && records[i].position && (showGround || !records[i].onGround)
                             && filter.Allows(records[i].aircraft.altitudeFeet)
                             && (|taken| < max || (max > 0 && i <= taken[max - 1])))
  {
    hide WantedAircraft, Wanted, Picked, Take;
    aircraft, taken := [], [];
    var i := 0;
    WantedStep(records, 0, showGround, filter);
    NothingPicked(records, showGround, filter);
    while i < |records|
      invariant i <= |records| && |aircraft| == |taken| <= max
      invariant aircraft == WantedAircraft(records[..i], showGround, filter)
      invariant Picked(records, i, aircraft, taken, showGround, filter)
    {
      if |aircraft| == max {
        break;
      }
      WantedStep(records, i + 1, showGround, filter);
      PickedStep(records, i, aircraft, taken, showGround, filter);
      WantedMeans(records[i], showGround, filter);
      var record := records[i];
      i := i + 1;
      if record.NotAnObject? || !record.position {
        continue;
      }
      if record.onGround && !showGround {
        continue;
      }
      if !filter.Allows(record.aircraft.altitudeFeet) {
        continue;
      }
      aircraft := aircraft + [record.aircraft];
      taken := taken + [i - 1];
    }
    PickedAreFirst(records, i, aircraft, taken, showGround, filter, max);
  }

  /** Of the first n records exactly the wanted ones were taken, in order. */
  ghost predicate Picked(records: seq<Record>, n: nat, aircraft: seq<Aircraft>, taken: seq<nat>, showGround: bool,
                         filter: AltitudeFilter) {
    && n <= |records| && |aircraft| == |taken|
    && (forall k :: 0 <= k < |taken| ==>
          taken[k] < n && records[taken[k]].Report? && aircraft[k] == records[taken[k]].aircraft)
    && (forall k, l :: 0 <= k < l < |taken| ==> taken[k] < taken[l])
    && forall i :: 0 <= i < n ==> (i in taken <==> Wanted(records[i], showGround, filter))
  }

  lemma WantedMeans(record: Record, showGround: bool, filter: AltitudeFilter)
    ensures Wanted(record, showGround, filter) <==>
              && record.Report? && record.position && (showGround || !record.onGround)
              && filter.Allows(record.aircraft.altitudeFeet)
  {}

  lemma NothingPicked(records: seq<Record>, showGround: bool, filter: AltitudeFilter)
    ensures Picked(records, 0, [], [], showGround, filter)
  {}

  lemma PickedStep(records: seq<Record>, n: nat, aircraft: seq<Aircraft>, taken: seq<nat>, showGround: bool,
                   filter: AltitudeFilter)
    requires n < |records| && Picked(records, n, aircraft, taken, showGround, filter)
    ensures !Wanted(records[n], showGround, filter) ==> Picked(records, n + 1, aircraft, taken, showGround, filter)
    ensures Wanted(records[n], showGround, filter) ==>
              Picked(records, n + 1, aircraft + [records[n].aircraft], taken + [n], showGround, filter)
  {
    assert n !in taken;
  }

  lemma PickedAreFirst(records: seq<Record>, n: nat, aircraft: seq<Aircraft>, taken: seq<nat>, showGround: bool,
                       filter: AltitudeFilter, max: nat)
    requires Picked(records, n, aircraft, taken, showGround, filter)
    requires |taken| <= max && (n == |records| || |taken| == max)
    requires aircraft == WantedAircraft(records[..n], showGround, filter)
    ensures aircraft == Take(WantedAircraft(records, showGround, filter), max)
    ensures forall a :: a in aircraft ==> filter.Allows(a.altitudeFeet)
    ensures forall k :: 0 <= k < |taken| ==>
                          && taken[k] < |records| && records[taken[k]].Report?
                          && aircraft[k] == records[taken[k]].aircraft
    ensures forall k :: 0 < k < |taken| ==> taken[k - 1] < taken[k]
    ensures forall i :: 0 <= i < |records| ==>
                          (i in taken <==>
                             && records[i].Report? && records[i].position && (showGround || !records[i].onGround)
                             && filter.Allows(records[i].aircraft.altitudeFeet)
                             && (|taken| < max || (max > 0 && i <= taken[max - 1])))
  {
    WantedGrows(records, n, showGround, filter);
    assert n == |records| ==> records[..n] == records;
    hide WantedAircraft;
    forall i | 0 <= i < |records| ensures Wanted(records[i], showGround, filter) <==>
      && records[i].Report? && records[i].position && (showGround || !records[i].onGround)
      && filter.Allows(records[i].aircraft.altitudeFeet)
    {
      WantedMeans(records[i], showGround, filter);
    }
  }

  lemma WantedStep(records: seq<Record>, n: nat, showGround: bool, filter: AltitudeFilter)
    requires n <= |records|
    ensures WantedAircraft(records[..0], showGround, filter) == []
    ensures n > 0 ==>
              WantedAircraft(records[..n], showGround, filter)
              == WantedAircraft(records[..n - 1], showGround, filter)
                 + (if Wanted(records[n - 1], showGround, filter) then [records[n - 1].aircraft] else [])
  {
    hide Wanted;
    if n > 0 { assert records[..n][..n - 1] == records[..n - 1]; }
  }

  // ----- the ADS-B worker

  /** What one turn of the worker meets: how it is stopped, what the others commit while it fetches without the
      lock, and what the provider answers. */
  datatype Turn = Turn(
    stopBefore: bool, startedAt: nat, others: seq<Commit>, response: Option<seq<Record>>, stopAfter: bool,
    recordedAt: nat,
    finishedAt: nat)

  datatype Went =
    | Stopped
    | Idle                          // no location yet
    | Outdated                      // the request was no longer current: go again at once
    | Reported(wait: nat)
    | Failed(wait: nat)

  function Power(n: nat): nat {
    if n == 0 then 1 else 2 * Power(n - 1)
  }

  /** Seconds until the next fetch. */
  function Interval(failures: nat): nat {
    if failures == 0 then 3
    else if failures == 1 then 3
    else if failures == 2 then 6
    else if failures == 3 then 12
    else if failures == 4 then 24
    else 30
  }

  /** Nanoseconds to wait: the interval, less what the turn has taken already. */
  function Wait(failures: nat, startedAt: nat, finishedAt: nat): nat {
    SaturatingSub(Interval(failures) * SECOND, SaturatingSub(finishedAt, startedAt))
  }

  /** The next fetch starts one interval after the last one did, or at once when that took longer. */
  lemma FetchesAreSpaced(failures: nat, startedAt: nat, finishedAt: nat)
    requires startedAt <= finishedAt
    ensures var due := startedAt + Interval(failures) * 1_000_000_000;
            finishedAt + Wait(failures, startedAt, finishedAt) == if due <= finishedAt then finishedAt else due
    ensures Interval(0) == 3
  {}

  lemma {:induction false} PowerGrows(n: nat)
    requires n >= 4
    ensures Power(n) >= 16
    decreases n
  {
    if n > 4 {
      PowerGrows(n - 1);
    } else {
      assert Power(4) == 2 * Power(3) && Power(3) == 2 * Power(2) && Power(2) == 2 * Power(1)
             && Power(1) == 2 * Power(0);
    }
  }

  /** The back-off doubles from three seconds and stops at thirty. */
  lemma BackoffIsCappedDoubling(failures: nat)
    requires failures > 0
    ensures Interval(failures) == (if 3 * Power(failures - 1) < 30 then 3 * Power(failures - 1) else 30)
  {
    if failures >= 5 {
      PowerGrows(failures - 1);
    } else {
      assert Power(0) == 1 && Power(1) == 2 && Power(2) == 4 && Power(3) == 8;
    }
  }

  /** How many of the latest outcomes were failures. */
  function TrailingFailures(outcomes: seq<bool>): nat {
    if outcomes == [] || outcomes[|outcomes| - 1] then 0 else 1 + TrailingFailures(outcomes[..|outcomes| - 1])
  }

  lemma TrailingStep(outcomes: seq<bool>, ok: bool)
    ensures TrailingFailures(outcomes + [ok]) == (if ok then 0 else 1 + TrailingFailures(outcomes))
  {
    assert (outcomes + [ok])[..|outcomes|] == outcomes;
  }

  ghost predicate Honest(log: seq<Commit>) {
    forall k :: 0 <= k < |log| ==> Filtered(log[k])
  }

  /** When every report accepted so far passed its own filter, everything displayed passes the current one. */
  lemma HonestDisplay(s: Snapshot, log: seq<Commit>)
    requires Coherent(s, log) && Honest(log)
    ensures forall a :: a in s.aircraft ==> s.settings.Filter().Allows(a.altitudeFeet)
  {
    hide ReportIsExact, Filtered;
    ShownPasses(s, log);
  }

  lemma ModelIsHonest(model: RuntimeModel)
    requires model.Valid() && Honest(model.log)
    ensures forall a :: a in model.snapshot.aircraft ==> model.snapshot.settings.Filter().Allows(a.altitudeFeet)
  {
    HonestDisplay(model.snapshot, model.log);
  }

  lemma {:induction false} SettingsAfter(s: Snapshot, others: seq<Commit>)
    requires forall k :: 0 <= k < |others| ==> !others[k].ReplaceSettings?
    ensures Run(s, others).settings == s.settings
  {
    hide Accepts;
    if others != [] {
      SettingsAfter(s, others[..|others| - 1]);
    }
  }

  /** Of the turns taken exactly those that reported or failed are counted and waited for, each as long as the run of
      failures that its own outcome ends asks for. */
  ghost predicate Logged(turns: seq<Turn>, was: seq<bool>, outcomes: seq<bool>, waits: seq<nat>, ended: seq<nat>,
                         wents: seq<Went>) {
    && |wents| <= |turns| && was <= outcomes && |waits| == |ended| == |outcomes| - |was|
    && (forall k, l :: 0 <= k < l < |ended| ==> ended[k] < ended[l])
    && (forall k :: 0 <= k < |wents| ==> (k in ended <==> wents[k].Reported? || wents[k].Failed?))
    && forall k :: 0 <= k < |ended| ==> LoggedAt(turns, was, outcomes, waits, ended, wents, k)
  }

  ghost predicate LoggedAt(turns: seq<Turn>, was: seq<bool>, outcomes: seq<bool>, waits: seq<nat>, ended: seq<nat>,
                           wents: seq<Went>, k: nat)
    requires k < |ended| == |waits| == |outcomes| - |was| && |wents| <= |turns|
  {
    && ended[k] < |wents|
    && outcomes[|was| + k] == wents[ended[k]].Reported?
    && waits[k] == Wait(TrailingFailures(outcomes[..|was| + k + 1]), turns[ended[k]].startedAt,
                        turns[ended[k]].finishedAt)
  }

  lemma NothingLogged(turns: seq<Turn>, was: seq<bool>)
    ensures Logged(turns, was, was, [], [], [])
  {}

  lemma LoggedStays(turns: seq<Turn>, was: seq<bool>, before: seq<bool>, waits: seq<nat>, ended: seq<nat>,
                    wents: seq<Went>, went: Went, ok: seq<bool>, wait: seq<nat>, end: seq<nat>)
    requires |wents| < |turns| && Logged(turns, was, before, waits, ended, wents) && |ok| == |wait| == |end|
    ensures forall k :: 0 <= k < |ended| ==>
                          LoggedAt(turns, was, before + ok, waits + wait, ended + end, wents + [went], k)
    ensures |wents| !in ended && forall k :: 0 <= k < |ended| ==> ended[k] < |wents|
  {
    hide Wait, TrailingFailures;
    forall k | 0 <= k < |ended|
      ensures ended[k] < |wents|
      ensures LoggedAt(turns, was, before + ok, waits + wait, ended + end, wents + [went], k)
    {
      assert LoggedAt(turns, was, before, waits, ended, wents, k);
      assert (before + ok)[..|was| + k + 1] == before[..|was| + k + 1];
    }
  }

  /** A turn nobody waits for leaves the log as it was. */
  lemma PassedOver(turns: seq<Turn>, was: seq<bool>, outcomes: seq<bool>, waits: seq<nat>, ended: seq<nat>,
                   wents: seq<Went>, went: Went)
    requires |wents| < |turns| && Logged(turns, was, outcomes, waits, ended, wents)
    requires !went.Reported? && !went.Failed?
    ensures Logged(turns, was, outcomes, waits, ended, wents + [went])
  {
    LoggedStays(turns, was, outcomes, waits, ended, wents, went, [], [], []);
    assert outcomes + [] == outcomes && waits + [] == waits && ended + [] == ended;
    hide LoggedAt;
  }

  lemma WaitedFor(turns: seq<Turn>, was: seq<bool>, outcomes: seq<bool>, waits: seq<nat>, ended: seq<nat>,
                  wents: seq<Went>, went: Went)
    requires |wents| < |turns| && Logged(turns, was, outcomes, waits, ended, wents)
    requires went.Reported? || went.Failed?
    requires went.wait == Wait(TrailingFailures(outcomes + [went.Reported?]), turns[|wents|].startedAt,
                               turns[|wents|].finishedAt)
    ensures Logged(turns, was, outcomes + [went.Reported?], waits + [went.wait], ended + [|wents|], wents + [went])
  {
    var after, waits', ended', wents' :=
      outcomes + [went.Reported?], waits + [went.wait], ended + [|wents|], wents + [went];
    LoggedStays(turns, was, outcomes, waits, ended, wents, went, [went.Reported?], [went.wait], [|wents|]);
    assert LoggedAt(turns, was, after, waits', ended', wents', |ended|) by {
      assert after[..|after|] == after;
    }
    hide LoggedAt;
    assert forall k :: 0 <= k < |wents'| ==> (k in ended' <==> k in ended || k == |wents|);
  }

  class AdsbWorker {
    const model: RuntimeModel
    var failures: nat
    ghost var outcomes: seq<bool>

    ghost predicate Valid()
      reads this
    {
      failures == (if TrailingFailures(outcomes) < U32_MAX then TrailingFailures(outcomes) else U32_MAX)
    }

    constructor (model: RuntimeModel)
      ensures Valid() && this.model == model && outcomes == []
    {
      this.model := model;
      failures := 0;
      outcomes := [];
    }

    method Count(ok: bool)
      requires Valid()
      modifies this
      ensures Valid() && outcomes == old(outcomes) + [ok]
    {
      TrailingStep(outcomes, ok);
      if ok {
        failures := 0;
      } else if failures < U32_MAX {
        failures := failures + 1;
      }
      outcomes := outcomes + [ok];
    }

    /** One turn of run: the fetch happens without the lock, so anything may be committed meanwhile. The result
        is committed exactly when the query is then still the one that was fetched. */
    method Pass(turn: Turn) returns (went: Went)
      requires Valid() && model.Valid() && Honest(model.log)
      requires Honest(turn.others)
      modifies this, model
      ensures Valid() && model.Valid() && Honest(model.log)
      ensures var before, after := old(model.snapshot), Run(old(model.snapshot), turn.others);
              var asked := before.settings;
              var fetched := !turn.stopBefore && asked.location.Some? && asked.rangeIndex < 4;
              var current := && after.settings.location == asked.location
                             && after.settings.rangeIndex == asked.rangeIndex
                             && after.settings.minimumAltitudeFeet == asked.minimumAltitudeFeet
                             && after.settings.maximumAltitudeFeet == asked.maximumAltitudeFeet;
              // Without a location the worker idles; a stop or a range there is no preset for ends it.
              && (went.Idle? <==> !turn.stopBefore && asked.location.None?)
              && (went.Stopped? <==> turn.stopBefore || (asked.location.Some? && (!fetched || turn.stopAfter)))
              && (went.Outdated? <==> fetched && !turn.stopAfter && !current)
              && (went.Reported? <==> fetched && !turn.stopAfter && current && turn.response.Some?)
              && (went.Failed? <==> fetched && !turn.stopAfter && current && turn.response.None?)
              && (went.Reported? || went.Failed? ==>
                    && outcomes == old(outcomes) + [went.Reported?]
                    && went.wait == Wait(TrailingFailures(outcomes), turn.startedAt, turn.finishedAt))
              && (!went.Reported? && !went.Failed? ==>
                    outcomes == old(outcomes) && model.snapshot == if fetched then after else before)
              // What was answered is displayed, what was not is noted.
              && (went.Reported? ==>
                    && var aircraft := Take(WantedAircraft(turn.response.value, false, asked.Filter()), 64);
                    && model.snapshot.aircraft == aircraft && model.snapshot.fetchedAt == Some(turn.recordedAt)
                    && model.snapshot == Next(after, RecordAircraft(
                         asked.location.value, asked.rangeIndex, asked.Filter(), aircraft, turn.recordedAt)))
              && (went.Failed? ==>
                    model.snapshot == after.(lastErrorAt := Some(turn.recordedAt),
                                             generation := model.snapshot.generation))
    {
      hide Coherent, Numbered, Next, Run, Filtered;
      if turn.stopBefore {
        return Stopped;
      }
      var snapshot := model.snapshot;
      if snapshot.settings.location.None? {
        return Idle;
      }
      var location := snapshot.settings.location.value;
      var rangeIndex, filter := snapshot.settings.rangeIndex, snapshot.settings.Filter();
      if rangeIndex >= RANGE_PRESETS {
        return Stopped;
      }
      Others(turn.others);
      if turn.stopAfter {
        return Stopped;
      }
      if turn.response.Some? {
        went := Report(location, rangeIndex, filter, turn);
      } else {
        went := Fail(location, rangeIndex, filter, turn);
      }
    }

    /** run: turn after turn until one stops it. At the end, as after every turn, what is displayed passes the
        filter in force, and each wait follows the run of failures up to the turn it ends. */
    method Work(turns: seq<Turn>) returns (waits: seq<nat>, ghost ended: seq<nat>, ghost wents: seq<Went>)
      requires Valid() && model.Valid() && Honest(model.log)
      requires forall k :: 0 <= k < |turns| ==> Honest(turns[k].others)
      modifies this, model
      ensures Valid() && model.Valid() && Honest(model.log)
      ensures forall a :: a in model.snapshot.aircraft ==> model.snapshot.settings.Filter().Allows(a.altitudeFeet)
      // Only a stop keeps a turn from being taken.
      ensures |wents| <= |turns| && (|wents| == |turns| || (wents != [] && wents[|wents| - 1].Stopped?))
      ensures forall k :: 0 <= k < |wents| - 1 ==> !wents[k].Stopped?
      ensures Logged(turns, old(outcomes), outcomes, waits, ended, wents)
    {
      hide *;
      waits, ended, wents := [], [], [];
      NothingLogged(turns, outcomes);
      var i := 0;
      var running := true;
      while i < |turns| && running
        invariant i <= |turns| && Valid() && model.Valid() && Honest(model.log)
        invariant |wents| == i && (running || (wents != [] && wents[i - 1].Stopped?))
        invariant forall k :: 0 <= k < i ==> wents[k].Stopped? ==> !running && k == i - 1
        invariant Logged(turns, old(outcomes), outcomes, waits, ended, wents)
      {
        ghost var before := outcomes;
        var went := Pass(turns[i]);
        if went.Reported? || went.Failed? {
          WaitedFor(turns, old(outcomes), before, waits, ended, wents, went);
        } else {
          PassedOver(turns, old(outcomes), before, waits, ended, wents, went);
        }
        wents := wents + [went];
        match went {
          case Stopped => running := false;
          case Idle =>
          case Outdated =>
          case Reported(wait) => waits, ended := waits + [wait], ended + [i];
          case Failed(wait) => waits, ended := waits + [wait], ended + [i];
        }
        i := i + 1;
      }
      ModelIsHonest(model);
    }

    method Others(others: seq<Commit>)
      requires model.Valid() && Honest(model.log) && Honest(others)
      modifies model
      ensures model.Valid() && Honest(model.log) && model.snapshot == Run(old(model.snapshot), others)
    {
      hide Coherent, Numbered, Next, Run, Filtered;
      ghost var start := model.snapshot;
      var i := 0;
      assert others[..0] == [];
      RunOfNothing(start);
      while i < |others|
        invariant i <= |others| && model.Valid() && Honest(model.log)
        invariant model.snapshot == Run(start, others[..i])
      {
        ghost var log := model.log;
        model.Perform(others[i]);
        RunStep(start, others, i);
        i := i + 1;
      }
      assert others[..i] == others;
    }

    method Report(location: Location, rangeIndex: nat, filter: AltitudeFilter, turn: Turn) returns (went: Went)
      requires turn.response.Some?
      requires Valid() && model.Valid() && Honest(model.log)
      modifies this, model
      ensures Valid() && model.Valid() && Honest(model.log)
      ensures went.Reported? || went.Outdated?
      ensures went.Reported? <==> QueryIsCurrent(old(model.snapshot), location, rangeIndex, filter)
      ensures went.Reported? ==>
                && model.snapshot.aircraft == Take(WantedAircraft(turn.response.value, false, filter), MAX_AIRCRAFT)
                && model.snapshot.fetchedAt == Some(turn.recordedAt)
      ensures model.snapshot == Next(old(model.snapshot), RecordAircraft(
                location, rangeIndex, filter,
                Take(WantedAircraft(turn.response.value, false, filter), MAX_AIRCRAFT), turn.recordedAt))
      ensures went.Outdated? ==> model.snapshot == old(model.snapshot) && outcomes == old(outcomes)
      ensures went.Reported? ==> outcomes == old(outcomes) + [true]
                                 && went.wait == Wait(TrailingFailures(outcomes), turn.startedAt, turn.finishedAt)
    {
      hide Coherent, Numbered, Recorded, WantedAircraft;
      var aircraft, _ := ParseAircraft(turn.response.value, MAX_AIRCRAFT, false, filter);
      var generation := model.RecordAircraftIfQuery(location, rangeIndex, filter, aircraft, turn.recordedAt);
      if generation.None? {
        return Outdated;
      }
      Count(true);
      TrailingStep(old(outcomes), true);
      went := Reported(Wait(failures, turn.startedAt, turn.finishedAt));
    }

    method Fail(location: Location, rangeIndex: nat, filter: AltitudeFilter, turn: Turn) returns (went: Went)
      requires Valid() && model.Valid() && Honest(model.log)
      modifies this, model
      ensures Valid() && model.Valid() && Honest(model.log)
      ensures went.Failed? || went.Outdated?
      ensures went.Failed? <==> QueryIsCurrent(old(model.snapshot), location, rangeIndex, filter)
      ensures went.Failed? ==>
                model.snapshot == old(model.snapshot).(lastErrorAt := Some(turn.recordedAt),
                                                       generation := model.snapshot.generation)
      ensures went.Outdated? ==> model.snapshot == old(model.snapshot) && outcomes == old(outcomes)
      ensures went.Failed? ==> outcomes == old(outcomes) + [false]
                               && went.wait == Wait(TrailingFailures(outcomes), turn.startedAt, turn.finishedAt)
    {
      hide Coherent, Numbered;
      var generation := model.RecordAdsbErrorIfQuery(location, rangeIndex, filter, turn.recordedAt);
      if generation.None? {
        return Outdated;
      }
      Count(false);
      went := Failed(Wait(failures, turn.startedAt, turn.finishedAt));
    }
  }

  lemma RunOfNothing(s: Snapshot)
    ensures Run(s, []) == s
  {}

  lemma RunStep(s: Snapshot, attempts: seq<Commit>, i: nat)
    requires i < |attempts|
    ensures Run(s, attempts[..i + 1]) == Next(Run(s, attempts[..i]), attempts[i])
  {
    assert attempts[..i + 1][..i] == attempts[..i];
  }

  // ----- the settings service

  /** A save may fail before or after the file was replaced. */
  datatype Save = Saved | FailedUnwritten | FailedWritten

  datatype Answer = Done | SettingsError | WorkerUnavailable

  /** The snapshot after the range was cycled, or was not, while others commit. */
  function Cycled(s: Snapshot, save: Save, others: seq<Commit>): Snapshot {
    if save.Saved? then
      Next(Run(s, others), ReplaceSettings(s.settings.(rangeIndex := (s.settings.rangeIndex + 1) % RANGE_PRESETS)))
    else Run(s, others)
  }

  class RuntimeSettingsService {
    const model: RuntimeModel
    var persisted: Option<RadarSettings>
    var notified: seq<RadarSettings>

    constructor (model: RuntimeModel)
      ensures this.model == model && persisted == None && notified == []
    {
      this.model := model;
      persisted := None;
      notified := [];
    }

    /** commit: save, then replace, then notify. Other threads may commit in between, but never settings. */
    method Commit(candidate: RadarSettings, save: Save, others: seq<Commit>, notifies: bool) returns (answer: Answer)
      requires model.Valid()
      requires forall k :: 0 <= k < |others| ==> !others[k].ReplaceSettings?
      modifies this, model
      ensures model.Valid() && old(model.history) <= model.history
      ensures answer.SettingsError? <==> !save.Saved?
      ensures answer.Done? <==> save.Saved? && notifies
      // A failed save leaves the running settings alone and tells nobody.
      ensures answer.SettingsError? ==> model.snapshot == Run(old(model.snapshot), others)
                                        && model.snapshot.settings == old(model.snapshot).settings
                                        && notified == old(notified)
      ensures save.FailedUnwritten? ==> persisted == old(persisted)
      // Otherwise the disk, the model and the workers agree, even when a worker was gone.
      ensures !answer.SettingsError? ==> && persisted == Some(candidate) && model.snapshot.settings == candidate
                                         && notified == old(notified) + [candidate]
                                         && model.snapshot == Next(Run(old(model.snapshot), others),
                                            ReplaceSettings(candidate))
    {
      hide Coherent, Numbered, Run;
      SettingsAfter(model.snapshot, others);
      if !save.FailedUnwritten? {
        persisted := Some(candidate);
      }
      model.Interleave(others);
      if !save.Saved? {
        return SettingsError;
      }
      var _ := model.ReplaceSettings(candidate);
      notified := notified + [candidate];
      answer := if notifies then Done else WorkerUnavailable;
    }

    /** cycle_range: reads the settings inside the same guard, so no other replacement can come between. */
    method CycleRange(save: Save, others: seq<Commit>, notifies: bool) returns (answer: Answer)
      requires model.Valid()
      requires forall k :: 0 <= k < |others| ==> !others[k].ReplaceSettings?
      modifies this, model
      ensures model.Valid() && old(model.history) <= model.history
      ensures answer.SettingsError? <==> !save.Saved?
      ensures answer.Done? <==> save.Saved? && notifies
      ensures model.snapshot == Cycled(old(model.snapshot), save, others)
      ensures var was := old(model.snapshot).settings;
              model.snapshot.settings
              == (if save.Saved? then was.(rangeIndex := (was.rangeIndex + 1) % RANGE_PRESETS) else was)
      ensures save.Saved? ==>
                && persisted == Some(model.snapshot.settings)
                && notified == old(notified) + [model.snapshot.settings]
    {
      hide Coherent, Numbered, Run, Next;
      var settings := model.snapshot.settings;
      var candidate := settings.(rangeIndex := (settings.rangeIndex + 1) % RANGE_PRESETS);
      answer := Commit(candidate, save, others, notifies);
    }
  }
}
