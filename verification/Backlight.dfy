/**
 The backlight controller of src/backlight.rs: two-second ramps in integer arithmetic, the colour the screen
 may safely show while the brightness moves, and the limit on failure reports.
*/
module Backlight {
  import opened Prelude
  import opened RuntimeTypes

  /** Nanoseconds. */
  const RAMP_DURATION: nat := 2 * SECOND
  const FAILURE_REPORT_INTERVAL: nat := 30 * SECOND

  // ----- levels and percentages

  function PercentToLevel(percent: nat, maxLevel: nat): nat {
    var rounded := (percent * maxLevel + 50) / 100;
    if rounded > U32_MAX then U32_MAX else rounded
  }

  function EffectivePercent(level: nat, maxLevel: nat): nat
    requires maxLevel > 0
  {
    var rounded := (level * 100 + maxLevel / 2) / maxLevel;
    if rounded > 100 then 100 else rounded
  }

  lemma ProductsGrow(a: int, b: int, c: nat)
    requires a <= b
    ensures a * c <= b * c && c * a <= c * b
  {
    assert (b - a) * c >= 0;
  }

  lemma QuotientBounds(n: int, d: int)
    requires d > 0
    ensures n / d * d <= n < n / d * d + d
  {}

  lemma NextMultiple(q: int, d: int)
    ensures (q + 1) * d == q * d + d
  {}

  lemma QuotientIs(n: int, d: int, q: int)
    requires d > 0 && q * d <= n < q * d + d
    ensures n / d == q
  {
    var r := n / d;
    QuotientBounds(n, d);
    NextMultiple(q, d);
    NextMultiple(r, d);
    if r + 1 <= q { ProductsGrow(r + 1, q, d); }
    if q + 1 <= r { ProductsGrow(q + 1, r, d); }
  }

  /** No intermediate value leaves u64, and a percentage gives a level of the device. */
  lemma LevelsFit(percent: nat, level: nat, maxLevel: nat)
    requires percent <= 255 && level <= U32_MAX && maxLevel <= U32_MAX
    ensures percent * maxLevel + 50 <= U64_MAX && level * 100 + maxLevel / 2 <= U64_MAX
    ensures percent <= 100 ==> PercentToLevel(percent, maxLevel) <= maxLevel
    ensures PercentToLevel(0, maxLevel) == 0 && PercentToLevel(100, maxLevel) == maxLevel
  {
    ProductsGrow(percent, 255, maxLevel);
    if percent <= 100 { ProductsGrow(percent, 100, maxLevel); }
  }

  /** The level is the one nearest to the percentage, the higher of two equally near, and never beyond u32. */
  lemma LevelIsNearest(percent: nat, maxLevel: nat)
    requires percent <= 255 && maxLevel <= U32_MAX
    ensures var level := PercentToLevel(percent, maxLevel);
            && (percent * maxLevel - 50 < level * 100 || level == 0xFFFF_FFFF)
            && level * 100 <= percent * maxLevel + 50
    ensures percent <= 100 ==>
              var exact := percent * maxLevel;
              exact - 50 < PercentToLevel(percent, maxLevel) * 100 <= exact + 50
  {
    if percent <= 100 { ProductsGrow(percent, 100, maxLevel); }
  }

  /** The percentage shown for a level is the nearest one. */
  lemma PercentIsNearest(level: nat, maxLevel: nat)
    requires level <= maxLevel && 0 < maxLevel
    ensures var percent := EffectivePercent(level, maxLevel);
            percent <= 100 && 0 - maxLevel <= 2 * (percent * maxLevel - level * 100) <= maxLevel
  {
    var half := maxLevel / 2;
    var q := (level * 100 + half) / maxLevel;
    QuotientBounds(level * 100 + half, maxLevel);
    ProductsGrow(level, maxLevel, 100);
    if q > 100 { ProductsGrow(101, q, maxLevel); }
  }

  /** With at least a hundred levels the percentage comes back. */
  lemma PercentRoundTrip(percent: nat, maxLevel: nat)
    requires percent <= 100 && 100 <= maxLevel <= U32_MAX
    ensures EffectivePercent(PercentToLevel(percent, maxLevel), maxLevel) == percent
  {
    LevelsFit(percent, 0, maxLevel);
    var level := PercentToLevel(percent, maxLevel);
    var product := percent * maxLevel;
    assert product - 50 < level * 100 <= product + 50;
    var half := maxLevel / 2;
    assert product <= level * 100 + half < product + maxLevel;
    QuotientIs(level * 100 + half, maxLevel, percent);
  }

  /** Two neighbouring percentages share a level when there are fewer levels than steps. */
  lemma {:induction false} SharedLevel(maxLevel: nat, n: nat) returns (percent: nat)
    requires 0 < n <= 100 && maxLevel <= U32_MAX && PercentToLevel(n, maxLevel) < n
    ensures percent < n && PercentToLevel(percent, maxLevel) == PercentToLevel(percent + 1, maxLevel)
    decreases n
  {
    LevelsGrow(n - 1, maxLevel);
    if PercentToLevel(n - 1, maxLevel) == PercentToLevel(n, maxLevel) {
      percent := n - 1;
    } else {
      LevelsFit(0, 0, maxLevel);
      percent := SharedLevel(maxLevel, n - 1);
    }
  }

  lemma LevelsGrow(percent: nat, maxLevel: nat)
    ensures PercentToLevel(percent, maxLevel) <= PercentToLevel(percent + 1, maxLevel)
  {
    assert (percent + 1) * maxLevel == percent * maxLevel + maxLevel;
  }

  ghost predicate ComesBack(percent: nat, maxLevel: nat)
    requires maxLevel > 0
  {
    EffectivePercent(PercentToLevel(percent, maxLevel), maxLevel) == percent
  }

  /** Every percentage survives the round trip exactly when the device has a hundred levels or more. */
  lemma RoundTripExactly(maxLevel: nat)
    requires 0 < maxLevel <= U32_MAX
    ensures (forall percent: nat :: percent <= 100 ==> ComesBack(percent, maxLevel)) <==> maxLevel >= 100
  {
    hide PercentToLevel, EffectivePercent;
    if maxLevel >= 100 {
      forall percent: nat | percent <= 100 ensures ComesBack(percent, maxLevel) {
        PercentRoundTrip(percent, maxLevel);
      }
    } else {
      LevelsFit(100, 0, maxLevel);
      var percent := SharedLevel(maxLevel, 100);
      assert !(ComesBack(percent, maxLevel) && ComesBack(percent + 1, maxLevel));
    }
  }

  // ----- ramps

  datatype LinearRamp = LinearRamp(startLevel: nat, targetLevel: nat, startedAt: nat)
  {
    function Elapsed(now: nat): nat {
      var elapsed := if now < startedAt then 0 else now - startedAt;
      if elapsed < RAMP_DURATION then elapsed else RAMP_DURATION
    }

    function Difference(): nat {
      if targetLevel >= startLevel then targetLevel - startLevel else startLevel - targetLevel
    }

    function Adjustment(now: nat): nat {
      (Difference() * Elapsed(now) + RAMP_DURATION / 2) / RAMP_DURATION
    }

    function LevelAt(now: nat): int {
      if targetLevel >= startLevel then startLevel + Adjustment(now) else startLevel - Adjustment(now)
    }

    predicate IsComplete(now: nat) {
      now >= startedAt && now - startedAt >= RAMP_DURATION
    }
  }

  lemma QuotientsGrow(a: nat, b: nat, d: nat)
    requires a <= b && d > 0
    ensures a / d <= b / d
  {
    QuotientBounds(a, d);
    QuotientBounds(b, d);
    NextMultiple(b / d, d);
    if b / d + 1 <= a / d { ProductsGrow(b / d + 1, a / d, d); }
  }

  /** The adjustment never exceeds the difference, and the product behind it fits u64. */
  lemma AdjustmentFits(ramp: LinearRamp, now: nat)
    requires ramp.startLevel <= U32_MAX && ramp.targetLevel <= U32_MAX
    ensures ramp.Adjustment(now) <= ramp.Difference()
    ensures ramp.Difference() * ramp.Elapsed(now) + RAMP_DURATION / 2 <= U64_MAX
    ensures ramp.Elapsed(now) == 0 ==> ramp.Adjustment(now) == 0
    ensures ramp.Elapsed(now) == RAMP_DURATION ==> ramp.Adjustment(now) == ramp.Difference()
  {
    var d, e := ramp.Difference(), ramp.Elapsed(now);
    ProductsGrow(e, RAMP_DURATION, d);
    ProductsGrow(d, U32_MAX, RAMP_DURATION);
    QuotientsGrow(d * e + RAMP_DURATION / 2, d * RAMP_DURATION + RAMP_DURATION / 2, RAMP_DURATION);
    QuotientIs(d * RAMP_DURATION + RAMP_DURATION / 2, RAMP_DURATION, d);
  }

  /** A ramp starts at its start, ends at its target two seconds later, and never leaves the way between. */
  lemma RampStaysBetween(ramp: LinearRamp, now: nat)
    requires ramp.startLevel <= U32_MAX && ramp.targetLevel <= U32_MAX
    ensures || ramp.startLevel <= ramp.LevelAt(now) <= ramp.targetLevel
            || ramp.targetLevel <= ramp.LevelAt(now) <= ramp.startLevel
    ensures 0 <= ramp.LevelAt(now) <= U32_MAX
    ensures now <= ramp.startedAt ==> ramp.LevelAt(now) == ramp.startLevel
    ensures ramp.IsComplete(now) ==> ramp.LevelAt(now) == ramp.targetLevel
  {
    AdjustmentFits(ramp, now);
  }

  /** The level moves in a straight line for two seconds: rounded to the nearest, it is the start plus that part of
      the way that has elapsed. */
  lemma RampIsLinear(ramp: LinearRamp, now: nat)
    requires ramp.startLevel <= U32_MAX && ramp.targetLevel <= U32_MAX
    ensures var elapsed := if now <= ramp.startedAt then 0
                           else if now - ramp.startedAt >= 2_000_000_000 then 2_000_000_000 else now - ramp.startedAt;
            var error := (ramp.LevelAt(now) - ramp.startLevel) * 2_000_000_000
                         - (ramp.targetLevel - ramp.startLevel) * elapsed;
            -1_000_000_000 <= error <= 1_000_000_000
    ensures ramp.IsComplete(now) <==> now >= ramp.startedAt + 2_000_000_000
  {
    QuotientBounds(ramp.Difference() * ramp.Elapsed(now) + RAMP_DURATION / 2, RAMP_DURATION);
    assert (ramp.startLevel - ramp.targetLevel) * ramp.Elapsed(now)
        == -((ramp.targetLevel - ramp.startLevel) * ramp.Elapsed(now));
  }

  /** Later is never further from the target. */
  lemma RampIsMonotonic(ramp: LinearRamp, now: nat, later: nat)
    requires ramp.startLevel <= U32_MAX && ramp.targetLevel <= U32_MAX && now <= later
    ensures || ramp.LevelAt(now) <= ramp.LevelAt(later) <= ramp.targetLevel
            || ramp.targetLevel <= ramp.LevelAt(later) <= ramp.LevelAt(now)
  {
    RampStaysBetween(ramp, now);
    RampStaysBetween(ramp, later);
    ProductsGrow(ramp.Elapsed(now), ramp.Elapsed(later), ramp.Difference());
    QuotientsGrow(ramp.Difference() * ramp.Elapsed(now) + RAMP_DURATION / 2,
                  ramp.Difference() * ramp.Elapsed(later) + RAMP_DURATION / 2, RAMP_DURATION);
  }

  // ----- the controller

  /** What the device answers during one update. */
  datatype Device = Device(available: bool, maxLevel: nat, read: Option<nat>, writes: bool)

  datatype Policy = Policy(brightnessPercent: nat, colorMode: FrameColorMode)

  datatype Update = Update(availability: BacklightAvailability, brightness: Option<(nat, nat)>,
                           colorMode: FrameColorMode, report: bool)

  function Interpolated(ramp: Option<LinearRamp>, known: Option<nat>, now: nat): Option<int> {
    if ramp.Some? then Some(ramp.value.LevelAt(now)) else if known.Some? then Some(known.value) else None
  }

  ghost predicate FarApart(reports: seq<nat>) {
    forall i :: 0 <= i < |reports| - 1 ==> reports[i + 1] >= reports[i] + FAILURE_REPORT_INTERVAL
  }

  /** The level last known, the one aimed at, and the ramp on its way there. */
  datatype Levels = Levels(known: Option<nat>, target: Option<nat>, ramp: Option<LinearRamp>)
  {
    /** The level aimed at is not the one shown, and nothing is on its way. */
    predicate Stuck() {
      ramp.None? && target.Some? && known != target
    }

    predicate Hold() {
      && (known.Some? ==> known.value <= U32_MAX)
      && (target.Some? ==> known.Some? && target.value <= U32_MAX)
      && (ramp.Some? ==>
            && target == Some(ramp.value.targetLevel)
            && ramp.value.startLevel <= U32_MAX && ramp.value.startLevel != ramp.value.targetLevel)
    }
  }

  /** How a tick goes from a level known before towards a target. The level due now is the ramp's, failing a ramp the
      one before; a new target starts a ramp there, or none if that is the target already, and then nothing is
      written. Otherwise the level due is written if it is another one, and a ramp that is over is dropped once the
      device has taken it. */
  predicate MovedTo(was: Levels, after: Levels, before: nat, target: nat, writes: bool, now: nat, taken: bool) {
    var due := if was.ramp.Some? then was.ramp.value.LevelAt(now) else before;
    var retargets := was.target != Some(target);
    var moves := due != before && !(retargets && due == target);
    && due >= 0
    && after.target == Some(target)
    && (taken <==> writes || !moves)
    && after.known == Some(if moves && writes then due else before)
    && after.ramp == (if retargets then (if due == target then None else Some(LinearRamp(due, target, now)))
                   else if taken && was.ramp.Some? && now >= was.ramp.value.startedAt + 2_000_000_000 then None
                   else was.ramp)
  }

  /** A tick that succeeds reaches its target in the end, unless a new target is met in passing by a level that is
      never written. */
  lemma StuckOnlyInPassing(was: Levels, after: Levels, before: nat, target: nat, writes: bool, now: nat)
    requires was.Hold() && (was.known == None || was.known == Some(before))
    requires MovedTo(was, after, before, target, writes, now, true)
    ensures after.Stuck() <==> if was.target == Some(target) then was.Stuck()
                            else was.ramp.Some? && was.ramp.value.LevelAt(now) == target != before
  {
    CompleteRamp(was.ramp, now);
  }

  class BacklightController {
    var knownLevel: Option<nat>
    var targetLevel: Option<nat>
    var ramp: Option<LinearRamp>
    var requestedColor: Option<FrameColorMode>
    var safeColor: FrameColorMode
    var redAfterRamp: bool
    var lastFailureReport: Option<nat>
    ghost var reports: seq<nat>

    /** Full colour is shown against a request for red exactly while red waits for the ramp. */
    ghost predicate ColorHolds()
      reads `requestedColor, `safeColor, `redAfterRamp
    {
      && (requestedColor.None? ==> safeColor == FullColor && !redAfterRamp)
      && (requestedColor == Some(FullColor) ==> safeColor == FullColor)
      && (redAfterRamp <==> safeColor == FullColor && requestedColor == Some(RedOnly))
    }

    function State(): Levels
      reads `knownLevel, `targetLevel, `ramp
    {
      Levels(knownLevel, targetLevel, ramp)
    }

    ghost predicate LevelsHold()
      reads `knownLevel, `targetLevel, `ramp
    {
      State().Hold()
    }

    ghost predicate ReportsHold()
      reads `lastFailureReport, `reports
    {
      FarApart(reports) &&
      (if reports == [] then lastFailureReport.None? else lastFailureReport == Some(reports[|reports| - 1]))
    }

    ghost predicate Valid()
      reads this
    {
      ColorHolds() && LevelsHold() && ReportsHold()
    }

    constructor ()
      ensures Valid() && !State().Stuck() && requestedColor.None? && knownLevel.None?
    {
      knownLevel := None;
      targetLevel := None;
      ramp := None;
      requestedColor := None;
      safeColor := FullColor;
      redAfterRamp := false;
      lastFailureReport := None;
      reports := [];
    }

    method ApplyColorRequest(requested: FrameColorMode, firstPolicy: bool)
      requires ColorHolds() && firstPolicy == requestedColor.None?
      modifies `requestedColor, `safeColor, `redAfterRamp
      ensures ColorHolds() && requestedColor == Some(requested)
      ensures requested == FullColor ==> safeColor == FullColor
      ensures firstPolicy ==> safeColor == requested
      ensures requested == RedOnly && !firstPolicy ==> safeColor == old(safeColor)
    {
      assert requestedColor.None? || requestedColor.value.FullColor? || requestedColor.value.RedOnly?;
      if firstPolicy {
        safeColor := requested;
        redAfterRamp := false;
      } else if requested == FullColor {
        safeColor := FullColor;
        redAfterRamp := false;
      } else if requestedColor != Some(RedOnly) {
        redAfterRamp := true;
      }
      requestedColor := Some(requested);
    }

    /** failed_update: red is shown at once, and at most one report is asked for in thirty seconds. */
    method FailedUpdate(device: Device, requested: FrameColorMode, now: nat) returns (update: Update)
      requires Valid() && requestedColor == Some(requested)
      modifies `safeColor, `redAfterRamp, `lastFailureReport, `reports
      ensures Valid() && !redAfterRamp && safeColor == requested
      ensures update.availability == Unavailable && update.colorMode == safeColor && update.brightness == Shown(device)
      ensures update.report <==>
                old(lastFailureReport).None? || now >= old(lastFailureReport).value + 30_000_000_000
      ensures reports == if update.report then old(reports) + [now] else old(reports)
    {
      if requested == RedOnly {
        safeColor := RedOnly;
        redAfterRamp := false;
      }
      var report := lastFailureReport.None?
      || (now >= lastFailureReport.value && now - lastFailureReport.value >= FAILURE_REPORT_INTERVAL);
      if report {
        lastFailureReport := Some(now);
        reports := reports + [now];
      }
      update := Update(Unavailable, Shown(device), safeColor, report);
    }

    function Shown(device: Device): (shown: Option<(nat, nat)>)
      reads this
      ensures shown.Some? <==> knownLevel.Some? && device.maxLevel > 0
      ensures shown.Some? ==> shown.value == (knownLevel.value, EffectivePercent(knownLevel.value, device.maxLevel))
    {
      if knownLevel.Some? && device.maxLevel > 0 then
        Some((knownLevel.value, EffectivePercent(knownLevel.value, device.maxLevel)))
      else None
    }

    /** A new target starts a ramp from the level interpolated now. */
    method Retarget(target: nat, now: nat)
      requires LevelsHold() && knownLevel.Some? && target <= U32_MAX
      modifies `targetLevel, `ramp
      ensures LevelsHold() && targetLevel == Some(target)
      ensures targetLevel == old(targetLevel) ==> ramp == old(ramp)
      ensures targetLevel != old(targetLevel) ==>
                var start := Interpolated(old(ramp), knownLevel, now).value;
                start >= 0 && ramp == if start != target then Some(LinearRamp(start, target, now)) else None
    {
      if targetLevel != Some(target) {
        if ramp.Some? { RampStaysBetween(ramp.value, now); }
        var startLevel := if ramp.Some? then ramp.value.LevelAt(now) else knownLevel.value;
        targetLevel := Some(target);
        ramp := if startLevel != target then Some(LinearRamp(startLevel, target, now)) else None;
      }
    }

    /** Writes the level due now; a ramp ends with the write of its target. */
    method Advance(device: Device, now: nat) returns (written: bool)
      requires LevelsHold() && knownLevel.Some?
      modifies `knownLevel, `ramp
      ensures LevelsHold()
      ensures written <==> device.writes || Interpolated(old(ramp), old(knownLevel), now) == Some(old(knownLevel).value)
      ensures !written ==> unchanged(this)
      ensures written ==>
                && knownLevel.Some? && Interpolated(old(ramp), old(knownLevel), now) == Some(knownLevel.value)
                && ramp == if old(ramp).Some? && old(ramp).value.IsComplete(now) then None else old(ramp)
    {
      if ramp.Some? { RampStaysBetween(ramp.value, now); }
      var desiredLevel := if ramp.Some? then ramp.value.LevelAt(now) else knownLevel.value;
      var rampComplete := ramp.Some? && ramp.value.IsComplete(now);
      if knownLevel != Some(desiredLevel) {
        if !device.writes {
          return false;
        }
        knownLevel := Some(desiredLevel);
      }
      if rampComplete {
        ramp := None;
      }
      return true;
    }

    /** One tick. */
    method UpdateNow(device: Device, policy: Policy, now: nat) returns (update: Update)
      requires Valid() && device.maxLevel <= U32_MAX
      modifies this
      ensures Valid() && requestedColor == Some(policy.colorMode) && update.colorMode == safeColor
      // Red waits only while a ramp runs on an available device that showed full colour before.
      ensures safeColor == FullColor <==>
                || policy.colorMode == FullColor
                || (&& old(requestedColor).Some? && old(safeColor) == FullColor
                    && update.availability == Available && ramp.Some?)
      ensures update.availability == Available || update.availability == Unavailable
      ensures update.report <==>
                && update.availability == Unavailable
                && (old(lastFailureReport).None? || now >= old(lastFailureReport).value + 30_000_000_000)
      ensures reports == if update.report then old(reports) + [now] else old(reports)
      ensures update.brightness == Shown(device)
      ensures update.availability == Available ==>
                targetLevel == Some(PercentToLevel(policy.brightnessPercent, device.maxLevel))
      // A device that cannot be used leaves levels and ramp as they are.
      ensures var usable := && device.available && device.maxLevel > 0
                            && (old(knownLevel).Some? || (device.read.Some? && device.read.value <= device.maxLevel));
              if !usable then
                && update.availability == Unavailable && knownLevel == old(knownLevel)
                && targetLevel == old(targetLevel) && ramp == old(ramp)
              else
                && var before := if old(knownLevel).Some? then old(knownLevel).value else device.read.value;
                && var target := PercentToLevel(policy.brightnessPercent, device.maxLevel);
                && MovedTo(old(State()), State(), before, target, device.writes, now, update.availability == Available)
    {
      hide PercentToLevel, EffectivePercent, LinearRamp.LevelAt, FarApart;
      var firstPolicy := requestedColor.None?;
      ApplyColorRequest(policy.colorMode, firstPolicy);
      if !device.available || device.maxLevel == 0 {
        update := FailedUpdate(device, policy.colorMode, now);
        return;
      }
      if knownLevel.None? {
        if device.read.None? || device.read.value > device.maxLevel {
          update := FailedUpdate(device, policy.colorMode, now);
          return;
        }
        knownLevel := Some(device.read.value);
      }
      update := Move(device, policy, now, firstPolicy);
    }

    method Move(device: Device, policy: Policy, now: nat, firstPolicy: bool) returns (update: Update)
      requires Valid() && knownLevel.Some? && device.available && 0 < device.maxLevel <= U32_MAX
      requires requestedColor == Some(policy.colorMode) && (firstPolicy ==> safeColor == policy.colorMode)
      modifies this
      ensures Valid() && requestedColor == Some(policy.colorMode) && update.colorMode == safeColor
      ensures safeColor == FullColor <==>
                || policy.colorMode == FullColor
                || (old(safeColor) == FullColor && update.availability == Available && ramp.Some?)
      ensures update.availability == Available || update.availability == Unavailable
      ensures update.report <==>
                && update.availability == Unavailable
                && (old(lastFailureReport).None? || now >= old(lastFailureReport).value + 30_000_000_000)
      ensures reports == if update.report then old(reports) + [now] else old(reports)
      ensures update.brightness == Shown(device)
      ensures var target := PercentToLevel(policy.brightnessPercent, device.maxLevel);
              MovedTo(old(State()), State(), old(knownLevel).value, target, device.writes, now,
                      update.availability == Available)
    {
      hide PercentToLevel, EffectivePercent, MovedTo;
      LevelInRange(policy.brightnessPercent, device.maxLevel);
      var written := AimAndAdvance(device, policy, PercentToLevel(policy.brightnessPercent, device.maxLevel), now,
                                   firstPolicy);
      if !written {
        update := FailedUpdate(device, policy.colorMode, now);
        return;
      }
      RevealRed();
      update := Update(Available, Shown(device), safeColor, false);
    }

    method AimAndAdvance(device: Device, policy: Policy, target: nat, now: nat, firstPolicy: bool)
      returns (written: bool)
      requires LevelsHold() && ColorHolds() && knownLevel.Some? && target <= U32_MAX
      requires requestedColor == Some(policy.colorMode) && (firstPolicy ==> safeColor == policy.colorMode)
      modifies `knownLevel, `targetLevel, `ramp, `redAfterRamp
      ensures LevelsHold() && ColorHolds() && redAfterRamp == old(redAfterRamp)
      ensures MovedTo(old(State()), State(), old(knownLevel).value, target, device.writes, now, written)
    {
      hide LinearRamp.LevelAt;
      DueIsLevel(ramp, now);
      Aim(policy, target, now, firstPolicy);
      FreshRamp(ramp, now);
      CompleteRamp(ramp, now);
      written := Advance(device, now);
    }

    method Aim(policy: Policy, target: nat, now: nat, firstPolicy: bool)
      requires LevelsHold() && ColorHolds() && knownLevel.Some? && target <= U32_MAX
      requires requestedColor == Some(policy.colorMode) && (firstPolicy ==> safeColor == policy.colorMode)
      modifies `targetLevel, `ramp, `redAfterRamp
      ensures LevelsHold() && ColorHolds() && targetLevel == Some(target) && redAfterRamp == old(redAfterRamp)
      ensures targetLevel == old(targetLevel) ==> ramp == old(ramp)
      ensures targetLevel != old(targetLevel) ==>
                var start := Interpolated(old(ramp), knownLevel, now).value;
                start >= 0 && ramp == if start != target then Some(LinearRamp(start, target, now)) else None
    {
      var retargets := targetLevel != Some(target);
      Retarget(target, now);
      if retargets && safeColor == FullColor && policy.colorMode == RedOnly && !firstPolicy {
        redAfterRamp := true;
      }
    }

    method RevealRed()
      requires ColorHolds()
      modifies `safeColor, `redAfterRamp
      ensures ColorHolds()
      ensures redAfterRamp == (old(redAfterRamp) && ramp.Some?)
      ensures safeColor == if old(redAfterRamp) && ramp.None? then RedOnly else old(safeColor)
    {
      if redAfterRamp && ramp.None? {
        safeColor := RedOnly;
        redAfterRamp := false;
      }
    }
  }

  /** A dimming that falls on the level interpolated at that moment: half brightness asked for half way up. The
      ramp is dropped, and the level of the tick before stays. */
  method TargetMetInPassing() returns (controller: BacklightController)
    ensures fresh(controller) && controller.Valid() && controller.State().Stuck()
    ensures controller.targetLevel == Some(50) && controller.knownLevel == Some(0)
  {
    controller := new BacklightController();
    var device := Device(true, 100, Some(0), true);
    var first := controller.UpdateNow(device, Policy(100, FullColor), 0);
    assert controller.State() == Levels(Some(0), Some(100), Some(LinearRamp(0, 100, 0)));
    var second := controller.UpdateNow(device, Policy(50, FullColor), SECOND);
  }

  /** Any number of ticks holding one policy on a device that answers. The ramp under way is not disturbed, and
      once a tick falls two seconds after its start the level aimed at is shown, in the colour asked for. */
  method Hold(controller: BacklightController, devices: seq<Device>, policy: Policy, times: seq<nat>)
    returns (answered: bool)
    requires controller.Valid() && !controller.State().Stuck() && |devices| == |times| > 0
    requires forall i :: 0 <= i < |devices| ==>
                           && devices[i].maxLevel <= U32_MAX
                           && controller.targetLevel ==
                              Some(PercentToLevel(policy.brightnessPercent, devices[i].maxLevel))
    modifies controller
    ensures controller.Valid()
    ensures (forall i :: 0 <= i < |devices| ==> devices[i].available && devices[i].maxLevel > 0 && devices[i].writes)
            ==> answered
    ensures answered && (old(controller.ramp).None?
              || exists i :: 0 <= i < |times| && old(controller.ramp).value.IsComplete(times[i])) ==>
              && controller.targetLevel == old(controller.targetLevel)
              && controller.knownLevel == controller.targetLevel
              && controller.ramp.None? && controller.safeColor == policy.colorMode
    ensures answered && !(old(controller.ramp).None?
              || exists i :: 0 <= i < |times| && old(controller.ramp).value.IsComplete(times[i])) ==>
              controller.ramp == old(controller.ramp)
  {
    hide PercentToLevel, EffectivePercent, LinearRamp.LevelAt;
    ghost var started := controller.ramp;
    assert devices[0].maxLevel <= U32_MAX;
    var i := 0;
    answered := true;
    while i < |times|
      invariant i <= |times| && controller.Valid()
      invariant (forall k :: 0 <= k < i ==> devices[k].available && devices[k].maxLevel > 0 && devices[k].writes)
                ==> answered
      invariant answered ==> controller.targetLevel == old(controller.targetLevel) && !controller.State().Stuck()
      invariant answered && started.None? ==> controller.ramp.None?
      invariant answered && started.Some? ==>
          controller.ramp == if exists k :: 0 <= k < i && started.value.IsComplete(times[k]) then None else started
      invariant answered && i > 0 && controller.ramp.None? ==> controller.safeColor == policy.colorMode
    {
      if answered {
        ghost var was := controller.State();
        var update := controller.UpdateNow(devices[i], policy, times[i]);
        answered := update.availability == Available;
        if answered {
          StuckOnlyInPassing(was, controller.State(), was.known.value, was.target.value, devices[i].writes, times[i]);
        }
      }
      i := i + 1;
    }
  }

  lemma LevelInRange(percent: nat, maxLevel: nat)
    ensures PercentToLevel(percent, maxLevel) <= U32_MAX
  {}

  lemma DueIsLevel(ramp: Option<LinearRamp>, now: nat)
    requires ramp.Some? ==> ramp.value.startLevel <= U32_MAX && ramp.value.targetLevel <= U32_MAX
    ensures ramp.Some? ==> ramp.value.LevelAt(now) >= 0
  {
    if ramp.Some? { RampStaysBetween(ramp.value, now); }
  }

  lemma FreshRamp(ramp: Option<LinearRamp>, now: nat)
    requires ramp.Some? ==> ramp.value.startLevel <= U32_MAX && ramp.value.targetLevel <= U32_MAX
    ensures ramp.Some? && ramp.value.startedAt == now ==>
              ramp.value.LevelAt(now) == ramp.value.startLevel && !ramp.value.IsComplete(now)
  {
    if ramp.Some? { RampStaysBetween(ramp.value, now); }
  }

  lemma CompleteRamp(ramp: Option<LinearRamp>, now: nat)
    requires ramp.Some? ==> ramp.value.startLevel <= U32_MAX && ramp.value.targetLevel <= U32_MAX
    ensures ramp.Some? && ramp.value.IsComplete(now) ==> ramp.value.LevelAt(now) == ramp.value.targetLevel
  {
    if ramp.Some? { RampStaysBetween(ramp.value, now); }
  }
}
