/**
 The resumable installer of crates/planeradarctl/src/install.rs.

 A run walks twelve phases and keeps two durable records: one on the Mac, one on the target, the
 target's written first.  Any backend call may fail and any write may be lost before or after it
 takes effect; a crash leaves the records as a failure of the next call or write would.
*/
module Installer {
  import opened Prelude

  datatype Phase =
    | Discovered
    | PreflightPassed
    | ApplicationAcquired
    | DriverReady
    | TrybootStaged
    | TrybootVerified
    | DriverAccepted
    | ApplicationInstalled
    | HostnameChanged
    | FinalRebooted
    | FinalVerified
    | Complete

  const ALL: seq<Phase> := [
    Discovered, PreflightPassed, ApplicationAcquired, DriverReady, TrybootStaged, TrybootVerified,
    DriverAccepted, ApplicationInstalled, HostnameChanged, FinalRebooted, FinalVerified, Complete
  ]

  function Rank(p: Phase): (r: nat)
    ensures r < 12
  {
    match p
    case Discovered => 0
    case PreflightPassed => 1
    case ApplicationAcquired => 2
    case DriverReady => 3
    case TrybootStaged => 4
    case TrybootVerified => 5
    case DriverAccepted => 6
    case ApplicationInstalled => 7
    case HostnameChanged => 8
    case FinalRebooted => 9
    case FinalVerified => 10
    case Complete => 11
  }

  predicate AtLeast(p: Phase, q: Phase) {
    Rank(p) >= Rank(q)
  }

  lemma PhaseAt(k: nat)
    requires k < 12
    ensures |ALL| == 12 && Rank(ALL[k]) == k
  {}

  lemma RankDetermines(p: Phase)
    ensures |ALL| == 12 && ALL[Rank(p)] == p
  {}

  datatype TargetIdentity = TargetIdentity(hostKey: string, model: string, serial: string)

  datatype ArtifactIdentity = ArtifactIdentity(version: string, sourceCommit: string, sha256: string)

  datatype OwnedFile = OwnedFile(targetPath: string, sha256: string)

  datatype Request = Request(target: TargetIdentity, application: ArtifactIdentity, driver: ArtifactIdentity)

  datatype MacState = MacState(
    target: TargetIdentity, phase: Phase, application: Option<ArtifactIdentity>, driver: Option<ArtifactIdentity>)

  datatype TargetState = TargetState(
    model: string, serial: string, application: Option<ArtifactIdentity>, driver: Option<ArtifactIdentity>,
    ownedFiles: seq<OwnedFile>, lastVerified: Phase)

  // ----- what a legal record is

  predicate PhaseArtifacts(phase: Phase, application: Option<ArtifactIdentity>, driver: Option<ArtifactIdentity>) {
    && (AtLeast(phase, ApplicationAcquired) <==> application.Some?)
    && (AtLeast(phase, DriverReady) <==> driver.Some?)
  }

  predicate LegalMac(m: MacState) {
    PhaseArtifacts(m.phase, m.application, m.driver)
  }

  /** The target's own validator. */
  predicate LegalTarget(t: TargetState) {
    && PhaseArtifacts(t.lastVerified, t.application, t.driver)
    && (AtLeast(t.lastVerified, ApplicationInstalled) <==> t.ownedFiles != [])
  }

  // ----- comparing the records

  function StateAtPhase(state: MacState, phase: Phase, request: Request): MacState {
    MacState(
      state.target, phase,
      if AtLeast(phase, ApplicationAcquired) then Some(request.application) else None,
      if AtLeast(phase, DriverReady) then Some(request.driver) else None)
  }

  predicate TargetMatchesMac(mac: MacState, target: TargetState) {
    && target.model == mac.target.model && target.serial == mac.target.serial
    && target.lastVerified == mac.phase
    && target.application == mac.application
    && target.driver == mac.driver
  }

  predicate RecordsAgree(mac: MacState, target: TargetState, request: Request) {
    && mac.target == request.target
    && TargetMatchesMac(mac, target)
    && (mac.application.Some? ==> mac.application.value == request.application)
    && (mac.driver.Some? ==> mac.driver.value == request.driver)
  }

  predicate TargetIsReconcilableAhead(mac: MacState, target: TargetState, request: Request) {
    && Rank(target.lastVerified) > Rank(mac.phase)
    && AtLeast(target.lastVerified, ApplicationAcquired)
    && target.model == mac.target.model && target.serial == mac.target.serial
    && target.application == Some(request.application)
    && target.driver == (if AtLeast(target.lastVerified, DriverReady) then Some(request.driver) else None)
  }

  // ----- the pairs of records a request can leave behind

  datatype Pair = Pair(mac: Option<MacState>, target: Option<TargetState>)

  function MacAt(request: Request, phase: Phase): (m: MacState)
    ensures LegalMac(m)
  {
    StateAtPhase(MacState(request.target, phase, None, None), phase, request)
  }

  function TargetAt(request: Request, phase: Phase, files: seq<OwnedFile>): TargetState {
    var m := MacAt(request, phase);
    TargetState(m.target.model, m.target.serial, m.application, m.driver, files, phase)
  }

  lemma TargetAtHolds(request: Request, phase: Phase, files: seq<OwnedFile>)
    ensures TargetAt(request, phase, files).ownedFiles == files
  {}

  /** A target record this request could have written. */
  predicate OwnTarget(t: TargetState, request: Request) {
    AtLeast(t.lastVerified, ApplicationAcquired) && LegalTarget(t)
        && t == TargetAt(request, t.lastVerified, t.ownedFiles)
  }

  /** The pairs of uninterrupted and interrupted forward progress: nothing yet, the Mac alone before
      the target is written to, equal phases, or the target exactly one phase ahead. */
  predicate Forward(p: Pair, request: Request) {
    && (p.mac.Some? ==> p.mac.value == MacAt(request, p.mac.value.phase))
    && (p.target.Some? ==> OwnTarget(p.target.value, request))
    && match (p.mac, p.target) {
         case (None, None) => true
         case (Some(m), None) => Rank(m.phase) <= Rank(PreflightPassed)
         case (Some(m), Some(t)) => Rank(m.phase) <= Rank(t.lastVerified) <= Rank(m.phase) + 1
         case _ => false
       }
  }

  /** What repair after drift adds: before the target is written to again, its record may be any
      number of phases ahead. */
  predicate Resumable(p: Pair, request: Request) {
    Forward(p, request)
    || (&& p.mac.Some? && p.mac.value == MacAt(request, p.mac.value.phase)
        && Rank(p.mac.value.phase) <= Rank(PreflightPassed)
        && p.target.Some? && OwnTarget(p.target.value, request))
  }

  /** What a crash inside a repair leaves: the target lowered, the Mac not yet. */
  predicate Lagging(p: Pair, request: Request) {
    && p.mac.Some? && p.mac.value == MacAt(request, p.mac.value.phase)
    && p.target.Some? && OwnTarget(p.target.value, request)
    && Rank(p.target.value.lastVerified) < Rank(p.mac.value.phase)
  }

  /** The pairs a run does not refuse outright. */
  predicate Accepts(p: Pair, request: Request) {
    match (p.mac, p.target)
    case (None, None) => true
    case (Some(m), None) => Rank(m.phase) <= Rank(PreflightPassed)
    case (Some(m), Some(t)) => RecordsAgree(m, t, request) || TargetIsReconcilableAhead(m, t, request)
    case _ => false
  }

  /** Among the pairs a request leaves behind, exactly the lagging ones are refused. */
  lemma OnlyLaggingIsRefused(p: Pair, request: Request)
    requires Resumable(p, request) || Lagging(p, request)
    ensures Accepts(p, request) <==> !Lagging(p, request)
    ensures Resumable(p, request) <==> !Lagging(p, request)
  {}

  /** From ApplicationAcquired on, both writes of a phase are forward progress. */
  lemma LateStepIsForward(request: Request, k: nat, files: seq<OwnedFile>)
    requires 2 <= k < 12 && FilesFit(files, ALL[k])
    ensures var t := Some(TargetAt(request, ALL[k], files));
            Forward(Pair(Some(MacAt(request, ALL[k - 1])), t), request)
                && Forward(Pair(Some(MacAt(request, ALL[k])), t), request)
  {
    PhaseAt(k);
    PhaseAt(k - 1);
  }

  /** Before that only the Mac record is written, and the target may be anywhere ahead. */
  lemma EarlyStepIsResumable(request: Request, k: nat, p: Pair)
    requires k < 2 && Resumable(p, request) && (k > 0 ==> p.mac == Some(MacAt(request, ALL[k - 1])))
    ensures var next := Pair(Some(MacAt(request, ALL[k])), p.target);
            Resumable(next, request) && (Forward(p, request) && (k == 0 ==> p.mac.None?) ==> Forward(next, request))
  {
    PhaseAt(k);
  }

  /** Files are first recorded by the phase that installs them. */
  lemma FilesStayFitting(k: nat, files: seq<OwnedFile>, installed: Option<seq<OwnedFile>>)
    requires k < 12 && (if k == 0 then files == [] else FilesFit(files, ALL[k - 1]))
    requires installed.Some? <==> ALL[k] == ApplicationInstalled
    requires installed.Some? ==> installed.value != []
    ensures FilesFit(if installed.Some? then installed.value else files, ALL[k])
  {
    PhaseAt(k);
    if k > 0 { PhaseAt(k - 1); }
  }

  /** Repairing drift after DriverReady passes through a lagging pair: should the run die between the
      two writes, every later run of the same request is refused. */
  lemma RepairPassesThroughLagging(request: Request, recorded: Phase, drifted: Phase, files: seq<OwnedFile>)
    requires Rank(DriverReady) <= Rank(drifted) <= Rank(recorded) && FilesFit(files, ALL[Rank(drifted) - 1])
    ensures var p := Pair(Some(MacAt(request, recorded)), Some(TargetAt(request, ALL[Rank(drifted) - 1], files)));
            Lagging(p, request) && !Accepts(p, request)
  {
    PhaseAt(Rank(drifted) - 1);
  }

  // ----- the environment

  datatype BackendFailure =
    | SshLost
    | MacProcessInterrupted
    | TrybootTimedOut
    | TrybootVerificationFailed
    | FinalServiceFailed
    | OperationFailed

  datatype WriteOutcome = Written | LostBefore | LostAfter

  /** What install_application reports; `wellFormed` is the verdict of the two report validators. */
  datatype Installation = Installation(wellFormed: bool, revision: string, sha256: string, ownedFiles: seq<OwnedFile>)

  /** The environment's answer to one call. */
  datatype Reply = Reply(
    failure: Option<BackendFailure>, identity: TargetIdentity, application: ArtifactIdentity, driver: ArtifactIdentity,
    installed: Installation, drifted: bool, write: WriteOutcome)

  /** An answer that lets the installer go on. */
  predicate Good(r: Reply, request: Request) {
    && r.failure.None? && r.identity == request.target
    && r.application == request.application && r.driver == request.driver
    && r.installed.wellFormed && r.installed.ownedFiles != []
    && r.installed.revision == request.application.sourceCommit && r.installed.sha256 == request.application.sha256
    && !r.drifted && r.write == Written
  }

  datatype Reason = Backend(failure: BackendFailure) | PostconditionFailed(phase: Phase)

  datatype Error =
    | StateDisagreement
    | DiscoveredIdentityMismatch
    | ArtifactIdentityMismatch(phase: Phase)
    | InvalidTargetInstallResult
    | StateError

  datatype Outcome =
    | Completed
    | AlreadyComplete
    | Interrupted(phase: Phase, reason: Reason)
    | Failed(error: Error)

  datatype Verification = Confirmed | Drifted | Unverified(failure: BackendFailure)

  datatype Performed =
    | Performed(state: MacState, ownedFiles: Option<seq<OwnedFile>>)
    | Stopped(failure: BackendFailure)
    | Refused(error: Error)

  /** The owned files recorded with a phase: some exactly once the application is installed. */
  predicate FilesFit(files: seq<OwnedFile>, phase: Phase) {
    files != [] <==> AtLeast(phase, ApplicationInstalled)
  }

  /** A pair the records may hold: resumable, or lagging after a repair; while no verification has
      ever found drift, a pair of plain forward progress. */
  predicate AllowedPair(p: Pair, request: Request, undrifted: bool) {
    (Resumable(p, request) || Lagging(p, request)) && (undrifted ==> Forward(p, request))
  }

  ghost predicate AllAllowed(h: seq<Pair>, request: Request, undrifted: bool) {
    h == [] || (AllAllowed(h[..|h| - 1], request, undrifted) && AllowedPair(h[|h| - 1], request, undrifted))
  }

  lemma {:induction false} AllowedAfterDrift(h: seq<Pair>, request: Request, undrifted: bool)
    requires AllAllowed(h, request, undrifted)
    ensures AllAllowed(h, request, false)
  {
    if h != [] { AllowedAfterDrift(h[..|h| - 1], request, undrifted); }
  }

  /** Every pair in such a history is allowed. */
  lemma {:induction false} EveryPairAllowed(h: seq<Pair>, request: Request, undrifted: bool, i: nat)
    requires AllAllowed(h, request, undrifted) && i < |h|
    ensures AllowedPair(h[i], request, undrifted)
  {
    if i < |h| - 1 { EveryPairAllowed(h[..|h| - 1], request, undrifted, i); }
  }

  /** How many phases the last confirmations run through, in order from the first. */
  ghost function Streak(verified: seq<Phase>): nat {
    if verified == [] then 0
    else ExtendStreak(Streak(verified[..|verified| - 1]), verified[|verified| - 1])
  }

  ghost function ExtendStreak(streak: nat, phase: Phase): nat {
    if Rank(phase) == streak then streak + 1 else if Rank(phase) == 0 then 1 else 0
  }

  /** A streak of k is what it says: the last k confirmations are the first k phases in order. */
  lemma {:induction false} StreakMeans(verified: seq<Phase>)
    ensures var k := Streak(verified); k <= 12 && k <= |verified| && verified[|verified| - k..] == ALL[..k]
  {
    if verified != [] {
      var last, rest := verified[|verified| - 1], verified[..|verified| - 1];
      StreakMeans(rest);
      var k := Streak(verified);
      assert k > 1 ==> verified[|verified| - k..] == rest[|rest| - (k - 1)..] + [last];
      assert k > 1 ==> ALL[..k] == ALL[..k - 1] + [last];
    }
  }

  // ----- what is called, in which order, and what an answer means

  /** A call to the backend or to one of the two stores. A phase just performed, or recorded by the target only, is
      checked; a phase the Mac has recorded is checked again. */
  datatype Call =
    | LoadMac
    | LoadTarget
    | Perform(phase: Phase)
    | Check(phase: Phase)
    | Recheck(phase: Phase)
    | WriteTarget(phase: Phase)
    | ReadTarget
    | WriteMac(phase: Phase)
    | Report(phase: Phase)

  /** What the phase was to produce is what was asked for. */
  predicate Matches(phase: Phase, a: Reply, request: Request) {
    match phase
    case Discovered => a.identity == request.target
    case ApplicationAcquired => a.application == request.application
    case DriverReady => a.driver == request.driver
    case ApplicationInstalled =>
      && a.installed.wellFormed && a.installed.ownedFiles != []
      && a.installed.revision == request.application.sourceCommit
      && a.installed.sha256 == request.application.sha256
    case _ => true
  }

  /** The answer lets a run go on; drift of a recorded phase leads to a repair. */
  predicate Passes(c: Call, a: Reply, request: Request) {
    match c
    case Perform(phase) => a.failure.None? && Matches(phase, a, request)
    case Check(_) => a.failure.None? && !a.drifted
    case WriteTarget(_) => a.write == Written
    case WriteMac(_) => a.write == Written
    case _ => a.failure.None?
  }

  /** The answer is the reason for ending so. */
  predicate Explains(r: Outcome, c: Call, a: Reply, request: Request) {
    match r
    case Interrupted(_, Backend(failure)) =>
      (c.Perform? || c.Check? || c.Recheck? || c.Report?) && a.failure == Some(failure)
    case Interrupted(_, PostconditionFailed(phase)) => c == Check(phase) && a.failure.None? && a.drifted
    case Failed(StateDisagreement) => c.Check? && a.failure.None? && a.drifted
    case Failed(StateError) =>
      if c.WriteTarget? || c.WriteMac? then a.write != Written
      else (c.LoadMac? || c.LoadTarget? || c.ReadTarget?) && a.failure.Some?
    case Failed(DiscoveredIdentityMismatch) =>
      c == Perform(Discovered) && a.failure.None? && a.identity != request.target
    case Failed(InvalidTargetInstallResult) =>
      && c == Perform(ApplicationInstalled) && a.failure.None?
      && (!a.installed.wellFormed || a.installed.ownedFiles == [])
    case Failed(ArtifactIdentityMismatch(phase)) =>
      && c == Perform(phase) && a.failure.None?
      && (|| (phase == ApplicationAcquired && a.application != request.application)
          || (phase == DriverReady && a.driver != request.driver)
          || (&& phase == ApplicationInstalled && a.installed.wellFormed && a.installed.ownedFiles != []
              && (a.installed.revision != request.application.sourceCommit
                  || a.installed.sha256 != request.application.sha256)))
    case _ => false
  }

  lemma GoodPasses(c: Call, a: Reply, request: Request)
    requires Good(a, request)
    ensures Passes(c, a, request)
  {}

  /** Recording the k-th phase: on the target, read back, from the third phase on, then on the Mac. */
  function PersistCalls(k: nat): seq<Call>
    requires k < 12
  {
    if k < 2 then [WriteMac(ALL[k])] else [WriteTarget(ALL[k]), ReadTarget, WriteMac(ALL[k])]
  }

  function PhaseCalls(k: nat): seq<Call>
    requires k < 12
  {
    [Perform(ALL[k]), Check(ALL[k])] + (PersistCalls(k) + [Report(ALL[k])])
  }

  function CallsFrom(k: nat): seq<Call>
    requires k <= 12
    decreases 12 - k
  {
    if k == 12 then [] else PhaseCalls(k) + CallsFrom(k + 1)
  }

  function Rechecks(n: nat): (calls: seq<Call>)
    requires n <= 12
    ensures |calls| == n && forall i :: 0 <= i < n ==> calls[i] == Recheck(ALL[i])
  {
    seq(n, i requires 0 <= i < n => Recheck(ALL[i]))
  }

  function Checks(from: nat, to: nat): (calls: seq<Call>)
    requires from <= to <= 12
    ensures |calls| == to - from && forall i :: 0 <= i < to - from ==> calls[i] == Check(ALL[from + i])
  {
    seq(to - from, i requires 0 <= i < to - from => Check(ALL[from + i]))
  }

  /** With the phases up to the m-th recorded: all are checked again, up to one that has drifted; both records are
      then lowered below that one, and the rest is done anew. */
  function ResumeCalls(m: nat, drifted: Option<nat>): seq<Call>
    requires m < 12 && (drifted.Some? ==> drifted.value <= m)
  {
    match drifted
    case None => Rechecks(m + 1) + CallsFrom(m + 1)
    case Some(d) => Rechecks(d + 1) + ((if d == 0 then [] else PersistCalls(d - 1)) + CallsFrom(d))
  }

  /** A target that is ahead is caught up with first. */
  function CatchUpCalls(m: nat, reached: nat): seq<Call>
    requires m <= reached < 12
  {
    if reached == m then [] else Checks(m + 1, reached + 1) + [WriteMac(ALL[reached])]
  }

  function Recorded(p: Pair): (m: nat)
    requires p.mac.Some?
    ensures Rank(p.mac.value.phase) <= m < 12
  {
    var m := Rank(p.mac.value.phase);
    if p.target.Some? && Rank(p.target.value.lastVerified) > m then Rank(p.target.value.lastVerified) else m
  }

  function ProceedCalls(p: Pair, drifted: Option<nat>): seq<Call>
    requires drifted.Some? ==> p.mac.Some? && drifted.value <= Recorded(p)
  {
    if p.mac.None? then CallsFrom(0)
    else CatchUpCalls(Rank(p.mac.value.phase), Recorded(p)) + ResumeCalls(Recorded(p), drifted)
  }

  /** All the calls of a run that meets no fault, given the records and the first recorded phase found drifted. */
  function RunCalls(p: Pair, drifted: Option<nat>): seq<Call>
    requires drifted.Some? ==> p.mac.Some? && drifted.value <= Recorded(p)
  {
    [LoadMac, LoadTarget] + ProceedCalls(p, drifted)
  }

  /** A good answer is no reason to stop. */
  lemma NoExcuse(r: Outcome, c: Call, a: Reply, request: Request)
    requires Good(a, request)
    ensures !Explains(r, c, a, request)
  {}

  class Installer {
    const request: Request
    const reply: nat -> Reply
    var tick: nat
    var mac: Option<MacState>
    var target: Option<TargetState>
    /** Phases confirmed since the current run began, in order. */
    ghost var verified: seq<Phase>
    /** How many verifications have ever found drift. */
    ghost var drifts: nat
    /** Every pair of records that was ever durable, the current one last. */
    ghost var history: seq<Pair>
    /** Every call ever made; the i-th was answered by reply(i). */
    ghost var calls: seq<Call>
    /** The phases ever performed with an answer that matched the request. */
    ghost var performed: set<Phase>

    function Records(): Pair
      reads this
    {
      Pair(mac, target)
    }

    ghost predicate Allowed(p: Pair)
      reads this`drifts
    {
      AllowedPair(p, request, drifts == 0)
    }

    ghost predicate WasPerformed(phase: Phase)
      reads this`calls
    {
      exists i: nat :: i < |calls| && calls[i] == Perform(phase) && Passes(calls[i], reply(i), request)
    }

    ghost predicate WasInstalled(files: seq<OwnedFile>)
      reads this`calls
    {
      exists i: nat :: && i < |calls| && calls[i] == Perform(ApplicationInstalled)
                       && Passes(calls[i], reply(i), request) && reply(i).installed.ownedFiles == files
    }

    ghost predicate Covered(phase: Phase)
      reads this`performed
    {
      forall p :: Rank(p) <= Rank(phase) ==> p in performed
    }

    /** Nothing is recorded that was not performed with an answer that matched the request. */
    ghost predicate Backed()
      reads this
    {
      && |calls| == tick
      && (forall p :: p in performed ==> WasPerformed(p))
      && (mac.Some? ==> Covered(mac.value.phase))
      && (target.Some? ==> Covered(target.value.lastVerified))
      && (target.Some? && target.value.ownedFiles != [] ==> WasInstalled(target.value.ownedFiles))
    }

    ghost predicate Valid()
      reads this
    {
      && |history| > 0 && history[|history| - 1] == Records()
      && Allowed(Records())
      && AllAllowed(history, request, drifts == 0)
      && Backed()
    }

    ghost predicate GoodFrom(start: nat) {
      forall i :: start <= i ==> Good(reply(i), request)
    }

    /** Each call from the given one on was answered so that the run could go on. */
    ghost predicate AllPassed(made: seq<Call>, from: nat) {
      forall i :: from <= i < |made| ==> Passes(made[i], reply(i), request)
    }

    /** The calls of the plan were made, all of them unless the run stopped, and then the last answer is why. */
    ghost predicate Went(was: seq<Call>, made: seq<Call>, plan: seq<Call>, stop: Option<Outcome>) {
      && was <= made <= was + plan
      && (stop.None? ==> made == was + plan && AllPassed(made, |was|))
      && (stop.Some? ==> && |was| < |made| && AllPassed(made[..|made| - 1], |was|)
                         && Explains(stop.value, made[|made| - 1], reply(|made| - 1), request))
    }

    lemma WentOn(was: seq<Call>, between: seq<Call>, made: seq<Call>, first: seq<Call>, plan: seq<Call>,
                 stop: Option<Outcome>)
      requires Went(was, between, first, None) && Went(between, made, plan, stop)
      ensures Went(was, made, first + plan, stop)
    {
      hide Passes, Explains;
      assert was + (first + plan) == between + plan;
      forall i | |was| <= i < |between| ensures Passes(made[i], reply(i), request) {
        assert made[i] == between[i];
      }
    }

    lemma StoppedEarly(was: seq<Call>, made: seq<Call>, first: seq<Call>, plan: seq<Call>, stop: Outcome)
      requires Went(was, made, first, Some(stop))
      ensures Went(was, made, first + plan, Some(stop))
    {
      hide Passes, Explains;
      assert was + (first + plan) == (was + first) + plan;
    }

    lemma WentNowhere(was: seq<Call>)
      ensures Went(was, was, [], None)
    {}

    lemma GoodNeverStops(was: seq<Call>, made: seq<Call>, plan: seq<Call>, stop: Option<Outcome>)
      requires Went(was, made, plan, stop) && GoodFrom(|was|)
      ensures stop.None?
    {
      if stop.Some? {
        assert Good(reply(|made| - 1), request);
        NoExcuse(stop.value, made[|made| - 1], reply(|made| - 1), request);
      }
    }

    constructor (request: Request, reply: nat -> Reply)
      ensures Valid() && this.request == request && this.reply == reply && drifts == 0 && tick == 0
      ensures Records() == Pair(None, None) && history == [Pair(None, None)] && calls == [] && performed == {}
    {
      this.request, this.reply, tick, drifts, calls, performed := request, reply, 0, 0, [], {};
      mac, target, verified, history := None, None, [], [Pair(None, None)];
      new;
      assert history[..0] == [] && AllAllowed([], request, true);
    }

    /** One call and its answer. */
    method Ask(ghost call: Call) returns (r: Reply)
      requires Valid()
      modifies this`tick, this`calls
      ensures Valid() && tick == old(tick) + 1 && r == reply(|old(calls)|) && calls == old(calls) + [call]
    {
      hide AllowedPair, AllAllowed, Passes;
      r := reply(tick);
      tick := tick + 1;
      calls := calls + [call];
      ghost var was := calls[..|calls| - 1];
      forall p | p in performed ensures WasPerformed(p) {
        var i: nat :| i < |was| && was[i] == Perform(p) && Passes(was[i], reply(i), request);
        assert calls[i] == Perform(p) && Passes(calls[i], reply(i), request);
      }
      if target.Some? && target.value.ownedFiles != [] {
        InstalledEarlier(was, target.value.ownedFiles);
      }
    }

    lemma InstalledEarlier(was: seq<Call>, files: seq<OwnedFile>)
      requires was <= calls
      requires exists i: nat :: && i < |was| && was[i] == Perform(ApplicationInstalled)
                                && Passes(was[i], reply(i), request) && reply(i).installed.ownedFiles == files
      ensures WasInstalled(files)
    {
      hide Passes;
      var i: nat :| && i < |was| && was[i] == Perform(ApplicationInstalled)
                    && Passes(was[i], reply(i), request) && reply(i).installed.ownedFiles == files;
      assert calls[i] == Perform(ApplicationInstalled) && Passes(calls[i], reply(i), request);
    }

    method VerifyPhase(phase: Phase, ghost recorded: bool) returns (v: Verification)
      requires Valid()
      modifies this`tick, this`calls, this`verified, this`drifts
      ensures Valid() && tick == old(tick) + 1
      ensures calls == old(calls) + [if recorded then Recheck(phase) else Check(phase)]
      ensures var a := reply(|old(calls)|);
              v == if a.failure.Some? then Unverified(a.failure.value) else if a.drifted then Drifted else Confirmed
      ensures v == Confirmed ==> verified == old(verified) + [phase] && drifts == old(drifts)
                                 && Streak(verified) == ExtendStreak(old(Streak(verified)), phase)
      ensures v == Drifted ==> verified == old(verified) && drifts == old(drifts) + 1
      ensures v.Unverified? ==> verified == old(verified) && drifts == old(drifts)
    {
      var r := Ask(if recorded then Recheck(phase) else Check(phase));
      if r.failure.Some? {
        v := Unverified(r.failure.value);
      } else if r.drifted {
        v := Drifted;
        AllowedAfterDrift(history, request, drifts == 0);
        drifts := drifts + 1;
      } else {
        v := Confirmed;
        assert (verified + [phase])[..|verified|] == verified;
        verified := verified + [phase];
      }
    }

    /** Makes the target record durable.  Only records the target's validator accepts get here. */
    method SaveTarget(t: TargetState) returns (ok: bool)
      requires Valid() && OwnTarget(t, request) && Allowed(Pair(mac, Some(t)))
      requires Covered(t.lastVerified) && (t.ownedFiles != [] ==> WasInstalled(t.ownedFiles))
      modifies this`tick, this`calls, this`target, this`history
      ensures Valid() && tick == old(tick) + 1 && calls == old(calls) + [WriteTarget(t.lastVerified)]
      ensures old(history) <= history
      ensures target == if reply(|old(calls)|).write == LostBefore then old(target) else Some(t)
      ensures ok <==> reply(|old(calls)|).write == Written
    {
      hide AllowedPair, Passes;
      ghost var was := calls;
      var r := Ask(WriteTarget(t.lastVerified));
      if r.write != LostBefore {
        if t.ownedFiles != [] { InstalledEarlier(was, t.ownedFiles); }
        target := Some(t);
        assert (history + [Records()])[..|history|] == history;
        history := history + [Records()];
      }
      ok := r.write == Written;
    }

    /** Makes the Mac record durable. */
    method SaveMac(m: MacState) returns (ok: bool)
      requires Valid() && m == MacAt(request, m.phase) && Allowed(Pair(Some(m), target)) && Covered(m.phase)
      modifies this`tick, this`calls, this`mac, this`history
      ensures Valid() && tick == old(tick) + 1 && calls == old(calls) + [WriteMac(m.phase)]
      ensures old(history) <= history
      ensures mac == if reply(|old(calls)|).write == LostBefore then old(mac) else Some(m)
      ensures ok <==> reply(|old(calls)|).write == Written
    {
      hide AllowedPair, Passes;
      var r := Ask(WriteMac(m.phase));
      if r.write != LostBefore {
        mac := Some(m);
        assert (history + [Records()])[..|history|] == history;
        history := history + [Records()];
      }
      ok := r.write == Written;
    }

    /** What an error of the stores makes of the run. */
    function Ended(error: Option<Error>): Option<Outcome> {
      if error.None? then None else Some(Failed(error.value))
    }

    /** persist: the target record first, read back, then the Mac record. */
    method Persist(state: MacState, files: seq<OwnedFile>) returns (error: Option<Error>)
      requires Valid() && state == MacAt(request, state.phase) && FilesFit(files, state.phase)
      requires Covered(state.phase) && (files != [] ==> WasInstalled(files))
      requires AtLeast(state.phase, ApplicationAcquired) ==>
                 Allowed(Pair(mac, Some(TargetAt(request, state.phase, files))))
                 && Allowed(Pair(Some(state), Some(TargetAt(request, state.phase, files))))
      requires !AtLeast(state.phase, ApplicationAcquired) ==> Allowed(Pair(Some(state), target))
      modifies this`tick, this`calls, this`mac, this`target, this`history
      ensures Valid() && old(calls) <= calls && old(history) <= history
      ensures Went(old(calls), calls, PersistCalls(Rank(state.phase)), Ended(error))
      ensures error.None? ==> mac == Some(state)
                              && target == (if AtLeast(state.phase, ApplicationAcquired)
                                            then Some(TargetAt(request, state.phase, files)) else old(target))
      ensures error.Some? ==> error.value == StateError
      // What a failure leaves: either record as it was, or the target's alone, or both but for the answer.
      ensures mac == old(mac) || mac == Some(state)
      ensures target == old(target)
              || (AtLeast(state.phase, ApplicationAcquired) && target == Some(TargetAt(request, state.phase, files)))
      ensures mac != old(mac) && AtLeast(state.phase, ApplicationAcquired)
              ==> target == Some(TargetAt(request, state.phase, files))
      ensures AtLeast(state.phase, ApplicationAcquired) && reply(|old(calls)|).write == LostAfter ==>
                error.Some? && mac == old(mac) && target == Some(TargetAt(request, state.phase, files))
    {
      hide AllowedPair, AllAllowed, Backed, Passes, Explains, Went;
      RankDetermines(state.phase);
      ghost var plan: seq<Call> := [];
      WentNowhere(calls);
      if AtLeast(state.phase, ApplicationAcquired) {
        error := RecordOnTarget(state, files);
        WentOn(old(calls), old(calls), calls, plan, [WriteTarget(state.phase), ReadTarget], Ended(error));
        plan := plan + [WriteTarget(state.phase), ReadTarget];
        if error.Some? {
          StoppedEarly(old(calls), calls, plan, [WriteMac(state.phase)], Failed(error.value));
          assert plan + [WriteMac(state.phase)] == PersistCalls(Rank(state.phase));
          return;
        }
      }
      assert plan + [WriteMac(state.phase)] == PersistCalls(Rank(state.phase));
      ghost var between := calls;
      error := RecordOnMac(state);
      WentOn(old(calls), between, calls, plan, [WriteMac(state.phase)], Ended(error));
    }

    method RecordOnMac(m: MacState) returns (error: Option<Error>)
      requires Valid() && m == MacAt(request, m.phase) && Allowed(Pair(Some(m), target)) && Covered(m.phase)
      modifies this`tick, this`calls, this`mac, this`history
      ensures Valid() && old(calls) <= calls && old(history) <= history
      ensures Went(old(calls), calls, [WriteMac(m.phase)], Ended(error))
      ensures error.Some? ==> error.value == StateError
      ensures mac == old(mac) || mac == Some(m)
      ensures error.None? ==> mac == Some(m)
    {
      hide AllowedPair, AllAllowed, Backed, Covered, Went, Passes, Explains;
      var saved := SaveMac(m);
      error := if saved then None else Some(StateError);
      WriteDecides(WriteMac(m.phase), reply(|old(calls)|), saved);
      OneCall(old(calls), WriteMac(m.phase), Ended(error));
    }

    /** A write lets the run go on if it is reported done, and ends it otherwise. */
    lemma WriteDecides(c: Call, a: Reply, ok: bool)
      requires (c.WriteTarget? || c.WriteMac?) && (ok <==> a.write == Written)
      ensures if ok then Passes(c, a, request) else Explains(Failed(StateError), c, a, request)
    {}

    /** The target's record, and the look at what it holds then. */
    method RecordOnTarget(state: MacState, files: seq<OwnedFile>) returns (error: Option<Error>)
      requires Valid() && state == MacAt(request, state.phase) && FilesFit(files, state.phase)
      requires Covered(state.phase) && (files != [] ==> WasInstalled(files))
      requires AtLeast(state.phase, ApplicationAcquired)
      requires Allowed(Pair(mac, Some(TargetAt(request, state.phase, files))))
      modifies this`tick, this`calls, this`target, this`history
      ensures Valid() && old(calls) <= calls && old(history) <= history
      ensures Went(old(calls), calls, [WriteTarget(state.phase), ReadTarget], Ended(error))
      ensures error.Some? ==> error.value == StateError
      ensures target == old(target) || target == Some(TargetAt(request, state.phase, files))
      ensures error.None? || reply(|old(calls)|).write == LostAfter ==>
                target == Some(TargetAt(request, state.phase, files))
      ensures reply(|old(calls)|).write == LostAfter ==> error.Some?
    {
      hide AllowedPair, AllAllowed, Backed, Passes, Explains, Went;
      var record := TargetState(
          state.target.model, state.target.serial, state.application, state.driver, files, state.phase);
      var written := SaveTarget(record);
      WriteDecides(WriteTarget(state.phase), reply(|old(calls)|), written);
      if !written {
        OneCall(old(calls), WriteTarget(state.phase), Some(Failed(StateError)));
        StoppedEarly(old(calls), calls, [WriteTarget(state.phase)], [ReadTarget], Failed(StateError));
        assert [WriteTarget(state.phase)] + [ReadTarget] == [WriteTarget(state.phase), ReadTarget];
        return Some(StateError);
      }
      OneCall(old(calls), WriteTarget(state.phase), None);
      ghost var between := calls;
      var load := Ask(ReadTarget);
      error := if load.failure.Some? then Some(StateError) else None;
      LoadDecides(ReadTarget, load);
      OneCall(between, ReadTarget, Ended(error));
      WentOn(old(calls), between, calls, [WriteTarget(state.phase)], [ReadTarget], Ended(error));
      assert [WriteTarget(state.phase)] + [ReadTarget] == [WriteTarget(state.phase), ReadTarget];
      if error.None? && (target.None? || !TargetMatchesMac(state, target.value) || target.value.ownedFiles != files) {
        return Some(StateDisagreement);
      }
    }

    lemma LoadDecides(c: Call, a: Reply)
      requires c.LoadMac? || c.LoadTarget? || c.ReadTarget?
      ensures if a.failure.None? then Passes(c, a, request) else Explains(Failed(StateError), c, a, request)
    {}

    /** The phase was just performed with the answer it should have had. */
    ghost method MarkPerformed(phase: Phase)
      requires Valid() && |calls| > 0 && calls[|calls| - 1] == Perform(phase)
      requires Passes(Perform(phase), reply(|calls| - 1), request)
      modifies this`performed
      ensures Valid() && performed == old(performed) + {phase} && WasPerformed(phase)
      ensures phase == ApplicationInstalled ==> WasInstalled(reply(|calls| - 1).installed.ownedFiles)
    {
      hide AllowedPair, AllAllowed, Passes;
      assert calls[|calls| - 1] == Perform(phase);
      performed := performed + {phase};
    }

    /** perform_phase: one backend operation, its answer checked against the request. An answer is taken exactly when
        it is what was asked for. */
    method PerformPhase(phase: Phase, state: Option<MacState>) returns (p: Performed)
      requires Valid()
      requires state.None? ==> phase == Discovered
      requires state.Some? ==> Rank(phase) > 0 && state.value == MacAt(request, ALL[Rank(phase) - 1])
      modifies this`tick, this`calls, this`performed
      ensures Valid() && tick == old(tick) + 1 && calls == old(calls) + [Perform(phase)]
      ensures performed == old(performed) + if p.Performed? then {phase} else {}
      ensures p.Performed? && p.ownedFiles.Some? ==> WasInstalled(p.ownedFiles.value)
      ensures var a := reply(|old(calls)|);
              && (p.Performed? ==> Passes(Perform(phase), a, request))
              && (p.Refused? ==> Explains(Failed(p.error), Perform(phase), a, request))
      ensures var a := reply(|old(calls)|);
              && (p.Performed? ==> Passes(Perform(phase), a, request))
              && (p.Refused? ==> Explains(Failed(p.error), Perform(phase), a, request))
      ensures var a := reply(|old(calls)|);
              && (p.Performed? ==> Passes(Perform(phase), a, request))
              && (p.Refused? ==> Explains(Failed(p.error), Perform(phase), a, request))
      ensures var a := reply(|old(calls)|);
              && (p.Performed? ==> Passes(Perform(phase), a, request))
              && (p.Refused? ==> Explains(Failed(p.error), Perform(phase), a, request))
      ensures var a := reply(|old(calls)|);
              && (p.Performed? ==> Passes(Perform(phase), a, request))
              && (p.Refused? ==> Explains(Failed(p.error), Perform(phase), a, request))
      ensures var a := reply(|old(calls)|);
              && (p.Performed? ==> Passes(Perform(phase), a, request))
              && (p.Refused? ==> Explains(Failed(p.error), Perform(phase), a, request))
      ensures var a := reply(|old(calls)|);
              && (p.Performed? ==> Passes(Perform(phase), a, request))
              && (p.Refused? ==> Explains(Failed(p.error), Perform(phase), a, request))
      ensures var a, next := reply(|old(calls)|), MacAt(request, phase);
              if a.failure.Some? then p == Stopped(a.failure.value)
              else match phase {
                case Discovered =>
                  p == if a.identity == request.target then Performed(next, None)
                       else Refused(DiscoveredIdentityMismatch)
                case ApplicationAcquired =>
                  p == if a.application == request.application then Performed(next, None)
                       else Refused(ArtifactIdentityMismatch(phase))
                case DriverReady =>
                  p == if a.driver == request.driver then Performed(next, None)
                       else Refused(ArtifactIdentityMismatch(phase))
                case ApplicationInstalled =>
                  p == if !a.installed.wellFormed || a.installed.ownedFiles == []
                       then Refused(InvalidTargetInstallResult)
                       else if a.installed.revision == request.application.sourceCommit
                               && a.installed.sha256 == request.application.sha256
                       then Performed(next, Some(a.installed.ownedFiles))
                       else Refused(ArtifactIdentityMismatch(phase))
                case _ => p == Performed(next, None)
              }
    {
      hide AllowedPair, AllAllowed, Backed, Covered, WasPerformed, WasInstalled;
      var next := if state.Some? then state.value else MacState(request.target, Discovered, None, None);
      var files: Option<seq<OwnedFile>> := None;
      var r := Ask(Perform(phase));
      if r.failure.Some? { return Stopped(r.failure.value); }
      match phase {
        case Discovered =>
          if r.identity != request.target { return Refused(DiscoveredIdentityMismatch); }
          next := next.(target := r.identity);
        case ApplicationAcquired =>
          if r.application != request.application { return Refused(ArtifactIdentityMismatch(phase)); }
          next := next.(application := Some(r.application));
        case DriverReady =>
          if r.driver != request.driver { return Refused(ArtifactIdentityMismatch(phase)); }
          next := next.(driver := Some(r.driver));
        case ApplicationInstalled =>
          if !r.installed.wellFormed || r.installed.ownedFiles == [] { return Refused(InvalidTargetInstallResult); }
          if r.installed.revision != request.application.sourceCommit
            || r.installed.sha256 != request.application.sha256 {
            return Refused(ArtifactIdentityMismatch(phase));
          }
          files := Some(r.installed.ownedFiles);
        case _ =>
      }
      MarkPerformed(phase);
      p := Performed(next.(phase := phase), files);
    }

    /** Where run_from_phase may be entered: the phases before `start` are confirmed and recorded. */
    ghost predicate ReadyFor(start: nat, state: Option<MacState>, files: seq<OwnedFile>)
      reads this
    {
      && start <= 12
      && (state.None? <==> start == 0)
      && !Lagging(Records(), request)
      && (start == 0 ==> files == [])
      && (files != [] ==> WasInstalled(files))
      && (start > 0 ==>
            && state.value == MacAt(request, ALL[start - 1]) && mac == state
            && FilesFit(files, ALL[start - 1]))
      && (start > Rank(ApplicationAcquired) ==> target == Some(TargetAt(request, ALL[start - 1], files)))
      && (start == 0 && mac.Some? ==> drifts > 0)
    }

    /** Both records at Complete and in agreement, and the run's last confirmations are all twelve
        phases in increasing order. */
    ghost predicate EndsComplete()
      reads this
    {
      && Streak(verified) == 12
      && mac == Some(MacAt(request, Complete))
      && target.Some? && target.value == TargetAt(request, Complete, target.value.ownedFiles)
      && target.value.ownedFiles != []
    }

    /** The phase an interruption reports is the one the Mac will resume from. */
    ghost predicate ReportsProgress(r: Outcome)
      reads this
    {
      r.Interrupted? ==> r.phase == Discovered || (mac.Some? && mac.value.phase == r.phase)
    }

    method RunFromPhase(state0: Option<MacState>, files0: seq<OwnedFile>, start: nat) returns (r: Outcome)
      requires Valid() && ReadyFor(start, state0, files0) && (start > 0 ==> Streak(verified) == start)
      modifies this
      ensures Valid() && old(history) <= history && old(calls) <= calls && drifts >= old(drifts)
      ensures Went(old(calls), calls, CallsFrom(start), if r == Completed then None else Some(r))
      ensures r != AlreadyComplete && r != Failed(StateDisagreement)
      ensures r == Completed ==> EndsComplete()
      ensures ReportsProgress(r)
      ensures !Lagging(Records(), request)
    {
      assert start <= 12;
      hide Lagging, AllowedPair, AllAllowed, MacAt, TargetAt, Good, Went, Backed, PhaseCalls, Passes, Explains,
           WasInstalled, Streak, FilesFit, EndsComplete, Rank, CallsFrom, ReadyFor, Covered;
      var state, files := state0, files0;
      ghost var plan: seq<Call> := [];
      WentNowhere(calls);
      NothingAfterComplete();
      for k := start to 12
        invariant Valid() && old(history) <= history && old(calls) <= calls && drifts >= old(drifts)
        invariant ReadyFor(k, state, files) && (k > 0 ==> Streak(verified) == k)
        invariant plan + CallsFrom(k) == CallsFrom(start) && Went(old(calls), calls, plan, None)
      {
        var stop: Option<Outcome>;
        ghost var between := calls;
        stop, state, files := Advance(ALL[k], k, state, files);
        WentOn(old(calls), between, calls, plan, PhaseCalls(k), stop);
        CallsGoOn(plan, k);
        plan := plan + PhaseCalls(k);
        if stop.Some? {
          StoppedEarly(old(calls), calls, plan, CallsFrom(k + 1), stop.value);
          return stop.value;
        }
      }
      ReadyAtTheEnd(state, files);
      NotLagging(12, state, files);
      assert plan + [] == plan;
      r := Completed;
    }

    lemma CallsGoOn(plan: seq<Call>, k: nat)
      requires k < 12
      ensures plan + CallsFrom(k) == plan + PhaseCalls(k) + CallsFrom(k + 1)
    {
      hide PhaseCalls;
      Associate(plan, PhaseCalls(k), CallsFrom(k + 1));
    }

    lemma NothingAfterComplete()
      ensures CallsFrom(12) == []
    {}

    lemma NotLagging(start: nat, state: Option<MacState>, files: seq<OwnedFile>)
      requires ReadyFor(start, state, files)
      ensures !Lagging(Records(), request)
    {}

    lemma ReadyAtTheEnd(state: Option<MacState>, files: seq<OwnedFile>)
      requires ReadyFor(12, state, files) && Streak(verified) == 12
      ensures EndsComplete()
    {
      hide Lagging, Streak;
      RankDetermines(Complete);
      TargetAtHolds(request, Complete, files);
    }

    /** Persists the k-th phase once it is verified, then reports it. */
    method Record(k: nat, state: Option<MacState>, files: seq<OwnedFile>, next: MacState, nextFiles: seq<OwnedFile>)
      returns (stop: Option<Outcome>)
      requires k < 12 && Valid() && ReadyFor(k, state, files)
      requires next == MacAt(request, ALL[k]) && FilesFit(nextFiles, ALL[k])
      requires Covered(ALL[k]) && (nextFiles != [] ==> WasInstalled(nextFiles))
      modifies this`tick, this`calls, this`mac, this`target, this`history
      ensures Valid() && old(calls) <= calls && old(history) <= history
      ensures Went(old(calls), calls, PersistCalls(k) + [Report(ALL[k])], stop)
      ensures !Lagging(Records(), request)
      ensures stop.None? ==> ReadyFor(k + 1, Some(next), nextFiles)
      ensures stop.Some? ==>
                && (stop.value.Interrupted? || stop.value == Failed(StateError))
                && ReportsProgress(stop.value)
    {
      hide PersistCalls, Went, Backed, AllAllowed, Passes, Explains, WasInstalled;
      PhaseAt(k);
      if k < 2 {
        EarlyStepIsResumable(request, k, Records());
      } else {
        LateStepIsForward(request, k, nextFiles);
      }
      var error := Persist(next, nextFiles);
      if error.Some? {
        StoppedEarly(old(calls), calls, PersistCalls(k), [Report(ALL[k])], Failed(error.value));
        return Some(Failed(error.value));
      }
      ghost var between := calls;
      var status := Ask(Report(ALL[k]));
      ReportDecides(ALL[k], status);
      stop := if status.failure.Some? then Some(Interrupted(next.phase, Backend(status.failure.value))) else None;
      OneCall(between, Report(ALL[k]), stop);
      WentOn(old(calls), between, calls, PersistCalls(k), [Report(ALL[k])], stop);
      if nextFiles != [] { StillInstalled(nextFiles); }
    }

    lemma ReportDecides(phase: Phase, a: Reply)
      ensures if a.failure.None? then Passes(Report(phase), a, request)
              else Explains(Interrupted(phase, Backend(a.failure.value)), Report(phase), a, request)
    {}

    twostate lemma StillInstalled(files: seq<OwnedFile>)
      requires old(WasInstalled(files)) && old(calls) <= calls
      ensures WasInstalled(files)
    {
      InstalledEarlier(old(calls), files);
    }

    /** One more call, and the run goes on or stops by its answer. */
    lemma OneCall(was: seq<Call>, call: Call, stop: Option<Outcome>)
      requires stop.None? ==> Passes(call, reply(|was|), request)
      requires stop.Some? ==> Explains(stop.value, call, reply(|was|), request)
      ensures Went(was, was + [call], [call], stop)
    {
      hide Passes, Explains;
      assert (was + [call])[..|was|] == was;
    }

    /** Performs and verifies one phase; nothing durable changes yet. */
    method PerformVerified(phase: Phase, k: nat, state: Option<MacState>, files: seq<OwnedFile>)
      returns (stop: Option<Outcome>, next: MacState, nextFiles: seq<OwnedFile>)
      requires k < 12 && phase == ALL[k]
      requires Valid() && ReadyFor(k, state, files) && (k > 0 ==> Streak(verified) == k)
      modifies this`tick, this`calls, this`performed, this`verified, this`drifts
      ensures Valid() && old(calls) <= calls && drifts >= old(drifts)
      ensures Went(old(calls), calls, [Perform(phase), Check(phase)], stop)
      ensures !Lagging(Records(), request)
      ensures stop.None? ==> next == MacAt(request, phase) && FilesFit(nextFiles, phase)
                             && Covered(phase) && (nextFiles != [] ==> WasInstalled(nextFiles))
                             && Streak(verified) == k + 1 && drifts == old(drifts)
      ensures stop.Some? ==> (stop.value.Interrupted? || stop.value.Failed?)
                             && stop.value != Failed(StateDisagreement) && ReportsProgress(stop.value)
    {
      hide AllowedPair, AllAllowed, Went, WasInstalled, WasPerformed, Passes, Explains, Backed, Covered, TargetAt,
           FilesFit, Lagging, Streak;
      next, nextFiles := MacAt(request, phase), files;
      var durable := if state.Some? then state.value.phase else Discovered;
      PhaseAt(k);
      var done := PerformPhase(phase, state);
      label Performed:
      stop := if done.Stopped? then Some(Interrupted(durable, Backend(done.failure)))
              else if done.Refused? then Some(Failed(done.error)) else None;
      FailureDecides(Perform(phase), durable, reply(|old(calls)|));
      OneCall(old(calls), Perform(phase), stop);
      assert [Perform(phase)] + [Check(phase)] == [Perform(phase), Check(phase)];
      if stop.Some? {
        StoppedEarly(old(calls), calls, [Perform(phase)], [Check(phase)], stop.value);
        return;
      }
      ghost var between := calls;
      stop := CheckPhase(phase, durable);
      WentOn(old(calls), between, calls, [Perform(phase)], [Check(phase)], stop);
      if stop.Some? { return; }
      NowCovered(k, state);
      FilesStayFitting(k, files, done.ownedFiles);
      next := done.state;
      if done.ownedFiles.Some? {
        nextFiles := done.ownedFiles.value;
        StillInstalled@Performed(nextFiles);
      } else if nextFiles != [] {
        StillInstalled(nextFiles);
      }
    }

    /** The phase just performed is verified. */
    method CheckPhase(phase: Phase, durable: Phase) returns (stop: Option<Outcome>)
      requires Valid()
      modifies this`tick, this`calls, this`verified, this`drifts
      ensures Valid() && |calls| == |old(calls)| + 1 && old(calls) <= calls && drifts >= old(drifts)
      ensures Went(old(calls), calls, [Check(phase)], stop)
      ensures stop.None? ==> Streak(verified) == ExtendStreak(old(Streak(verified)), phase) && drifts == old(drifts)
      ensures stop.Some? ==> stop.value.Interrupted? && stop.value.phase == durable
    {
      hide AllowedPair, AllAllowed, Went, Passes, Explains, Backed, Streak;
      var v := VerifyPhase(phase, false);
      stop := if v.Drifted? then Some(Interrupted(durable, PostconditionFailed(phase)))
              else if v.Unverified? then Some(Interrupted(durable, Backend(v.failure))) else None;
      CheckDecides(phase, durable, reply(|old(calls)|));
      OneCall(old(calls), Check(phase), stop);
    }

    lemma FailureDecides(c: Call, durable: Phase, a: Reply)
      requires c.Perform? || c.Check? || c.Recheck?
      ensures a.failure.Some? ==> Explains(Interrupted(durable, Backend(a.failure.value)), c, a, request)
    {}

    lemma CheckDecides(phase: Phase, durable: Phase, a: Reply)
      ensures if a.failure.Some? then Explains(Interrupted(durable, Backend(a.failure.value)), Check(phase), a, request)
              else if a.drifted
              then && Explains(Interrupted(durable, PostconditionFailed(phase)), Check(phase), a, request)
                   && Explains(Failed(StateDisagreement), Check(phase), a, request)
              else Passes(Check(phase), a, request)
    {}

    lemma NowCovered(k: nat, state: Option<MacState>)
      requires k < 12 && ALL[k] in performed && Backed()
      requires k > 0 ==> state.Some? && state.value == MacAt(request, ALL[k - 1]) && mac == state
      ensures Covered(ALL[k])
    {
      PhaseAt(k);
      if k > 0 { PhaseAt(k - 1); }
      forall p | Rank(p) <= Rank(ALL[k]) ensures p in performed {
        RankDetermines(p);
      }
    }

    /** One phase: perform, verify, record on both sides, report. */
    method Advance(phase: Phase, k: nat, state: Option<MacState>, files: seq<OwnedFile>)
      returns (stop: Option<Outcome>, next: Option<MacState>, nextFiles: seq<OwnedFile>)
      requires k < 12 && phase == ALL[k]
      requires Valid() && ReadyFor(k, state, files) && (k > 0 ==> Streak(verified) == k)
      modifies this
      ensures Valid() && old(history) <= history && old(calls) <= calls && drifts >= old(drifts)
      ensures Went(old(calls), calls, PhaseCalls(k), stop)
      ensures !Lagging(Records(), request)
      ensures stop.None? ==> ReadyFor(k + 1, next, nextFiles) && Streak(verified) == k + 1
      ensures stop.Some? ==> (stop.value.Interrupted? || stop.value.Failed?)
                             && stop.value != Failed(StateDisagreement) && ReportsProgress(stop.value)
    {
      hide AllowedPair, AllAllowed, Went, WasInstalled, WasPerformed, Passes, Explains, PersistCalls, MacAt, TargetAt,
           Covered, Lagging;
      var state': MacState;
      next := state;
      stop, state', nextFiles := PerformVerified(phase, k, state, files);
      ghost var first, second := [Perform(phase), Check(phase)], PersistCalls(k) + [Report(phase)];
      if stop.Some? {
        StoppedEarly(old(calls), calls, first, second, stop.value);
        return;
      }
      ghost var between := calls;
      if files != [] { StillInstalled(files); }
      stop := Record(k, state, files, state', nextFiles);
      WentOn(old(calls), between, calls, first, second, stop);
      next := Some(state');
    }

    /** run: resume from whatever the records say, and drive the installation to its end. */
    method Run() returns (r: Outcome, ghost drifted: Option<nat>)
      requires Valid()
      modifies this
      ensures Valid() && old(history) <= history && old(calls) <= calls
      // A lagging pair is refused, and stays: every later run is refused as well.
      ensures Lagging(old(Records()), request) ==>
                && Records() == old(Records()) && (r == Failed(StateDisagreement) || r == Failed(StateError))
                && calls <= old(calls) + [LoadMac, LoadTarget]
      // Nothing else is refused, unless a verification finds drift during this very run.
      ensures r == Failed(StateDisagreement) ==> Lagging(old(Records()), request) || drifts > old(drifts)
      // Otherwise the calls are made in order, each only once the one before was answered as it should be; a run
      // ends with success when all were, and with the reason the last answer gives when one was not.
      ensures drifted.Some? ==> old(mac).Some? && drifted.value <= Recorded(old(Records()))
      ensures !Lagging(old(Records()), request) ==>
                Went(old(calls), calls, RunCalls(old(Records()), drifted), Stop(r))
      // Success means every phase was just confirmed, in order, and both records say so.
      ensures r == Completed || r == AlreadyComplete ==> EndsComplete()
      // Every phase was performed with an answer that matched the request, here or in an earlier run, and the files
      // recorded are those of an installation of the revision and the digest asked for.
      ensures r == Completed || r == AlreadyComplete ==>
                && (forall phase :: WasPerformed(phase))
                && exists i: nat :: && i < |calls| && calls[i] == Perform(ApplicationInstalled)
                                    && reply(i).installed.ownedFiles == target.value.ownedFiles
                                    && reply(i).installed.revision == request.application.sourceCommit
                                    && reply(i).installed.sha256 == request.application.sha256
      ensures ReportsProgress(r)
      // A lagging pair comes about only in the run that finds drift and whose repair is cut short.
      ensures Lagging(Records(), request) && !Lagging(old(Records()), request)
              ==> r == Failed(StateError) && drifts > old(drifts)
      // A run without faults completes from every pair that is not lagging.
      ensures GoodFrom(|old(calls)|) && !Lagging(old(Records()), request) ==> r == Completed || r == AlreadyComplete
    {
      OnlyLaggingIsRefused(Records(), request);
      hide AllowedPair, AllAllowed, Went, WasInstalled, WasPerformed, Passes, Explains, CallsFrom, ResumeCalls,
           CatchUpCalls, Covered;
      verified := [];
      drifted := None;
      ghost var loads := [LoadMac, LoadTarget];
      var error := LoadRecords();
      if error.Some? {
        StoppedEarly(old(calls), calls, loads, ProceedCalls(Records(), None), Failed(error.value));
        return Failed(error.value), None;
      }
      if !Accepts(Records(), request) {
        return Failed(StateDisagreement), None;
      }
      ghost var between := calls;
      r, drifted := Proceed();
      WentOn(old(calls), between, calls, loads, ProceedCalls(old(Records()), drifted), Stop(r));
      if r == Completed || r == AlreadyComplete { CompleteIsBacked(); }
      if GoodFrom(|old(calls)|) { GoodNeverStops(old(calls), calls, RunCalls(old(Records()), drifted), Stop(r)); }
    }

    /** Both records are read, the Mac's first. */
    method LoadRecords() returns (error: Option<Error>)
      requires Valid()
      modifies this`tick, this`calls
      ensures Valid() && old(calls) <= calls <= old(calls) + [LoadMac, LoadTarget]
      ensures Went(old(calls), calls, [LoadMac, LoadTarget], Ended(error))
      ensures error.Some? ==> error.value == StateError
    {
      hide AllAllowed, Went, Passes, Explains, Backed;
      var load := Ask(LoadMac);
      LoadDecides(LoadMac, load);
      assert [LoadMac] + [LoadTarget] == [LoadMac, LoadTarget];
      if load.failure.Some? || (mac.Some? && mac.value.target != request.target) {
        OneCall(old(calls), LoadMac, Some(Failed(StateError)));
        StoppedEarly(old(calls), calls, [LoadMac], [LoadTarget], Failed(StateError));
        return Some(StateError);
      }
      OneCall(old(calls), LoadMac, None);
      ghost var between := calls;
      load := Ask(LoadTarget);
      error := if load.failure.Some? then Some(StateError) else None;
      LoadDecides(LoadTarget, load);
      OneCall(between, LoadTarget, Ended(error));
      WentOn(old(calls), between, calls, [LoadMac], [LoadTarget], Ended(error));
    }

    ghost function Stop(r: Outcome): Option<Outcome> {
      if r == Completed || r == AlreadyComplete then None else Some(r)
    }

    lemma CompleteIsBacked()
      requires Backed() && EndsComplete()
      ensures forall phase :: WasPerformed(phase)
      ensures exists i: nat :: && i < |calls| && calls[i] == Perform(ApplicationInstalled)
                               && reply(i).installed.ownedFiles == target.value.ownedFiles
                               && reply(i).installed.revision == request.application.sourceCommit
                               && reply(i).installed.sha256 == request.application.sha256
    {
      assert forall p: Phase :: Rank(p) <= Rank(Complete);
    }

    /** The three ways on from a pair that is not refused. */
    method Proceed() returns (r: Outcome, ghost drifted: Option<nat>)
      requires Valid() && Resumable(Records(), request) && Accepts(Records(), request)
      modifies this
      ensures Valid() && old(history) <= history && old(calls) <= calls
      ensures drifted.Some? ==> old(mac).Some? && drifted.value <= Recorded(old(Records()))
      ensures Went(old(calls), calls, ProceedCalls(old(Records()), drifted), Stop(r))
      ensures r == Failed(StateDisagreement) ==> drifts > old(drifts)
      ensures r == Completed || r == AlreadyComplete ==> EndsComplete()
      ensures ReportsProgress(r)
      ensures Lagging(Records(), request) ==> r == Failed(StateError) && drifts > old(drifts)
    {
      hide AllAllowed, Went, WasInstalled, WasPerformed, Passes, Explains, CallsFrom, ResumeCalls;
      drifted := None;
      if mac.None? {
        r := RunFromPhase(None, [], 0);
        return;
      }
      WentNowhere(calls);
      ghost var m, reached := Rank(mac.value.phase), Recorded(Records());
      if target.Some? && !RecordsAgree(mac.value, target.value, request) {
        var stop := Reconcile();
        if stop.Some? {
          StoppedEarly(old(calls), calls, CatchUpCalls(m, reached), ResumeCalls(reached, None), stop.value);
          return stop.value, None;
        }
      }
      ghost var between := calls;
      r, drifted := Resume();
      WentOn(old(calls), between, calls, CatchUpCalls(m, reached), ResumeCalls(reached, drifted), Stop(r));
    }

    /** The target is ahead: verify the phases the Mac has not recorded, then let it catch up. */
    method Reconcile() returns (stop: Option<Outcome>)
      requires Valid() && mac.Some? && target.Some? && TargetIsReconcilableAhead(mac.value, target.value, request)
      requires Resumable(Records(), request)
      modifies this
      ensures Valid() && old(history) <= history && old(calls) <= calls
      ensures Went(old(calls), calls,
                   CatchUpCalls(Rank(old(mac).value.phase), Rank(old(target).value.lastVerified)), stop)
      ensures stop.None? ==> mac.Some? && target == old(target) && TargetMatchesMac(mac.value, target.value)
                             && Resumable(Records(), request) && drifts == old(drifts)
      ensures stop.Some? ==> ReportsProgress(stop.value) && (stop.value.Interrupted? || stop.value.Failed?)
      ensures stop == Some(Failed(StateDisagreement)) ==> drifts > old(drifts)
      ensures !Lagging(Records(), request) && drifts >= old(drifts)
    {
      hide AllAllowed, Went, WasInstalled, WasPerformed, Passes, Explains, Backed, Covered, Streak, MacAt, TargetAt,
           Forward, TargetIsReconcilableAhead, TargetMatchesMac, StateAtPhase, Resumable, Lagging, OwnTarget, Rank,
           Checks, ExtendStreak, AllowedPair;
      var reached := target.value.lastVerified;
      var candidate := StateAtPhase(mac.value, reached, request);
      ghost var from, last := Rank(mac.value.phase) + 1, [WriteMac(reached)];
      RankDetermines(reached);
      RecordedIsCovered();
      CaughtUp(Records());
      stop := CheckUnrecorded(reached);
      ghost var checks := Checks(from, Rank(reached) + 1);
      if stop.Some? {
        StoppedEarly(old(calls), calls, checks, last, stop.value);
        return;
      }
      ghost var between := calls;
      var error := RecordOnMac(candidate);
      stop := Ended(error);
      WentOn(old(calls), between, calls, checks, last, stop);
    }

    method CheckNext(phase: Phase, ghost was: seq<Call>, ghost plan: seq<Call>) returns (stop: Option<Outcome>)
      requires Valid() && mac.Some? && Went(was, calls, plan, None)
      modifies this`tick, this`calls, this`verified, this`drifts
      ensures Valid() && old(calls) <= calls && drifts >= old(drifts)
      ensures Went(was, calls, plan + [Check(phase)], stop)
      ensures stop.None? ==> drifts == old(drifts)
      ensures stop.Some? ==> stop.value.Failed? || stop.value.Interrupted?
      ensures stop.Some? ==> ReportsProgress(stop.value)
      ensures stop == Some(Failed(StateDisagreement)) ==> drifts > old(drifts)
    {
      hide AllowedPair, AllAllowed, Went, Passes, Explains, Backed, Streak;
      var v := VerifyPhase(phase, false);
      stop := if v.Drifted? then Some(Failed(StateDisagreement))
              else if v.Unverified? then Some(Interrupted(mac.value.phase, Backend(v.failure))) else None;
      CheckDecides(phase, mac.value.phase, reply(|old(calls)|));
      OneCall(old(calls), Check(phase), stop);
      WentOn(was, old(calls), calls, plan, [Check(phase)], stop);
    }

    /** The phases after the Mac's, up to the one reached. */
    method CheckUnrecorded(reached: Phase) returns (stop: Option<Outcome>)
      requires Valid() && mac.Some? && Rank(mac.value.phase) < Rank(reached)
      modifies this`tick, this`calls, this`verified, this`drifts
      ensures Valid() && old(calls) <= calls && drifts >= old(drifts)
      ensures Went(old(calls), calls, Checks(Rank(mac.value.phase) + 1, Rank(reached) + 1), stop)
      ensures stop.None? ==> drifts == old(drifts)
      ensures stop.Some? ==> ReportsProgress(stop.value) && (stop.value.Interrupted? || stop.value.Failed?)
      ensures stop == Some(Failed(StateDisagreement)) ==> drifts > old(drifts)
    {
      hide AllowedPair, AllAllowed, Went, Passes, Explains, Backed, Streak, Rank, Checks;
      ghost var from, all := Rank(mac.value.phase) + 1, Checks(Rank(mac.value.phase) + 1, Rank(reached) + 1);
      WentNowhere(calls);
      assert Checks(from, from) == [];
      for k := Rank(mac.value.phase) + 1 to Rank(reached) + 1
        invariant Valid() && old(calls) <= calls && drifts == old(drifts)
        invariant Went(old(calls), calls, Checks(from, k), None)
      {
        stop := CheckNext(ALL[k], old(calls), Checks(from, k));
        assert Checks(from, k) + [Check(ALL[k])] == Checks(from, k + 1);
        if stop.Some? {
          StoppedEarly(old(calls), calls, Checks(from, k + 1), Checks(k + 1, Rank(reached) + 1), stop.value);
          assert Checks(from, k + 1) + Checks(k + 1, Rank(reached) + 1) == all;
          return;
        }
      }
      stop := None;
    }

    /** The Mac's record at the phase the target has reached. */
    lemma CaughtUp(p: Pair)
      requires p.mac.Some? && p.target.Some? && Resumable(p, request)
      requires TargetIsReconcilableAhead(p.mac.value, p.target.value, request)
      ensures var candidate := StateAtPhase(p.mac.value, p.target.value.lastVerified, request);
              var next := Pair(Some(candidate), p.target);
              && candidate.phase == p.target.value.lastVerified && candidate == MacAt(request, candidate.phase)
              && TargetMatchesMac(candidate, p.target.value)
              && Resumable(next, request) && !Lagging(next, request) && !Lagging(p, request)
              && (forall undrifted :: AllowedPair(next, request, undrifted))
              && Rank(p.mac.value.phase) < Rank(candidate.phase)
    {}

    lemma RecordedIsCovered()
      requires Backed()
      ensures mac.Some? ==> Covered(mac.value.phase)
      ensures target.Some? ==> Covered(target.value.lastVerified)
      ensures target.Some? && target.value.ownedFiles != [] ==> WasInstalled(target.value.ownedFiles)
    {}

    /** The first recorded phase that no longer verifies. */
    method FirstDrift() returns (stop: Option<Outcome>, drifted: Option<nat>)
      requires Valid() && mac.Some?
      modifies this`tick, this`calls, this`verified, this`drifts
      ensures Valid() && old(calls) <= calls && drifts >= old(drifts)
      ensures stop.Some? ==> stop.value.Interrupted? && ReportsProgress(stop.value) && drifted.None?
      ensures stop.None? && drifted.None? ==> Streak(verified) == Rank(mac.value.phase) + 1 && drifts == old(drifts)
      ensures drifted.Some? ==>
                drifted.value <= Rank(mac.value.phase) && drifts > old(drifts)
                    && (drifted.value > 0 ==> Streak(verified) == drifted.value)
      ensures var n := (if drifted.Some? then drifted.value else Rank(mac.value.phase)) + 1;
              Went(old(calls), calls, Rechecks(n), stop)
      ensures forall i: nat :: |old(calls)| <= i < |calls| - 1 ==> !reply(i).drifted
      ensures stop.None? ==> (drifted.Some? <==> reply(|calls| - 1).drifted)
    {
      hide AllowedPair, AllAllowed, Went, WasInstalled, WasPerformed, Passes, Explains, Backed, Rank, Rechecks, Streak;
      WentNowhere(calls);
      assert Rechecks(0) == [];
      for k := 0 to Rank(mac.value.phase) + 1
        invariant Valid() && old(calls) <= calls && drifts == old(drifts)
        invariant k > 0 ==> Streak(verified) == k
        invariant Went(old(calls), calls, Rechecks(k), None) && |calls| == |old(calls)| + k
        invariant forall i: nat :: |old(calls)| <= i < |calls| ==> !reply(i).drifted
      {
        PhaseAt(k);
        var ended, v := RecheckNext(ALL[k], old(calls), Rechecks(k));
        assert Rechecks(k) + [Recheck(ALL[k])] == Rechecks(k + 1);
        if v.Drifted? { return None, Some(k); }
        if ended.Some? {
          var all := Rank(mac.value.phase) + 1;
          ghost var left := Rechecks(all)[k + 1..];
          StoppedEarly(old(calls), calls, Rechecks(k + 1), left, ended.value);
          assert Rechecks(k + 1) + left == Rechecks(all);
          return ended, None;
        }
      }
      return None, None;
    }

    method RecheckNext(phase: Phase, ghost was: seq<Call>, ghost plan: seq<Call>)
      returns (stop: Option<Outcome>, v: Verification)
      requires Valid() && mac.Some? && Went(was, calls, plan, None)
      modifies this`tick, this`calls, this`verified, this`drifts
      ensures Valid() && old(calls) <= calls && |calls| == |old(calls)| + 1
      ensures Went(was, calls, plan + [Recheck(phase)], stop)
      ensures stop == if v.Unverified? then Some(Interrupted(mac.value.phase, Backend(v.failure))) else None
      ensures stop.None? ==> (v.Drifted? <==> reply(|old(calls)|).drifted)
      ensures v == Confirmed ==> Streak(verified) == ExtendStreak(old(Streak(verified)), phase) && drifts == old(drifts)
      ensures v == Drifted ==> verified == old(verified) && drifts == old(drifts) + 1
      ensures v.Unverified? ==> drifts == old(drifts)
    {
      hide AllowedPair, AllAllowed, Went, Passes, Explains, Backed, Streak;
      v := VerifyPhase(phase, true);
      stop := if v.Unverified? then Some(Interrupted(mac.value.phase, Backend(v.failure))) else None;
      RecheckDecides(phase, mac.value.phase, reply(|old(calls)|));
      OneCall(old(calls), Recheck(phase), stop);
      WentOn(was, old(calls), calls, plan, [Recheck(phase)], stop);
    }

    lemma RecheckDecides(phase: Phase, durable: Phase, a: Reply)
      ensures if a.failure.Some?
              then Explains(Interrupted(durable, Backend(a.failure.value)), Recheck(phase), a, request)
              else Passes(Recheck(phase), a, request)
    {}

    /** Lowers both records to the phase before the drifted one, the target's first. */
    method Repair(drifted: nat, recorded: seq<OwnedFile>)
      returns (error: Option<Error>, state: MacState, files: seq<OwnedFile>)
      requires Valid() && mac.Some? && Resumable(Records(), request) && drifts > 0
      requires target.Some? ==> TargetMatchesMac(mac.value, target.value)
      requires recorded == if target.Some? then target.value.ownedFiles else []
      requires 0 < drifted <= Rank(mac.value.phase)
      modifies this`tick, this`calls, this`mac, this`target, this`history
      ensures Valid() && old(calls) <= calls && old(history) <= history
      ensures Went(old(calls), calls, PersistCalls(drifted - 1), Ended(error))
      ensures error.Some? ==> error.value == StateError
      ensures error.None? ==> ReadyFor(drifted, Some(state), files)
      // A pair every later run refuses is left exactly when the target's write took effect and the Mac's did not,
      // as when the machine stops in between.
      ensures Lagging(Records(), request) <==> error.Some? && target != old(target) && mac == old(mac)
      ensures drifted > Rank(ApplicationAcquired) && reply(|old(calls)|).write == LostAfter ==>
                Lagging(Records(), request)
    {
      hide AllAllowed, Went, WasInstalled, WasPerformed, Passes, Explains, Backed, PersistCalls;
      PhaseAt(drifted - 1);
      var previous := ALL[drifted - 1];
      state := StateAtPhase(mac.value, previous, request);
      files := if Rank(previous) < Rank(ApplicationInstalled) then [] else recorded;
      RecordedIsCovered();
      error := Persist(state, files);
      if files != [] { StillInstalled(files); }
    }

    /** Re-verifies the recorded phases and continues after the last one that still holds. */
    method Resume() returns (r: Outcome, ghost found: Option<nat>)
      requires Valid() && mac.Some? && Resumable(Records(), request)
      requires target.Some? ==> TargetMatchesMac(mac.value, target.value)
      modifies this
      ensures Valid() && old(history) <= history && old(calls) <= calls
      ensures found.Some? ==> found.value <= Rank(old(mac).value.phase)
      ensures Went(old(calls), calls, ResumeCalls(Rank(old(mac).value.phase), found), Stop(r))
      ensures r != Failed(StateDisagreement)
      ensures r == Completed || r == AlreadyComplete ==> EndsComplete()
      ensures ReportsProgress(r)
      ensures Lagging(Records(), request) ==> r == Failed(StateError) && drifts > old(drifts)
    {
      hide AllowedPair, AllAllowed, Good, StateAtPhase, Went, WasInstalled, WasPerformed, Passes, Explains, CallsFrom,
           PersistCalls, Backed, Covered, Streak, MacAt;
      var files := if target.Some? then target.value.ownedFiles else [];
      ghost var m := Rank(mac.value.phase);
      var stop, drifted := FirstDrift();
      found := drifted;
      ghost var checks := Rechecks((if drifted.Some? then drifted.value else m) + 1);
      if stop.Some? {
        StoppedEarly(old(calls), calls, checks, CallsFrom(m + 1), stop.value);
        return stop.value, found;
      }
      ghost var between := calls;
      if drifted.Some? {
        if drifted.value == 0 {
          r := RunFromPhase(None, [], 0);
          WentOn(old(calls), between, calls, checks, CallsFrom(0), Stop(r));
          assert [] + CallsFrom(0) == CallsFrom(0);
          return;
        }
        r := RepairAndGoOn(drifted.value, files);
        WentOn(old(calls), between, calls, checks, PersistCalls(drifted.value - 1) + CallsFrom(drifted.value), Stop(r));
      } else if mac.value.phase == Complete {
        r := AlreadyComplete;
        assert CallsFrom(12) == [] && checks + [] == checks by { NothingAfterComplete(); }
      } else {
        r := GoOn(files);
        WentOn(old(calls), between, calls, checks, CallsFrom(m + 1), Stop(r));
      }
    }

    /** Nothing has drifted, and something is left to do. */
    method GoOn(files: seq<OwnedFile>) returns (r: Outcome)
      requires Valid() && mac.Some? && mac.value.phase != Complete && Resumable(Records(), request)
      requires target.Some? ==> TargetMatchesMac(mac.value, target.value)
      requires files == if target.Some? then target.value.ownedFiles else []
      requires Streak(verified) == Rank(mac.value.phase) + 1
      modifies this
      ensures Valid() && old(history) <= history && old(calls) <= calls && drifts >= old(drifts)
      ensures Went(old(calls), calls, CallsFrom(Rank(old(mac).value.phase) + 1), Stop(r))
      ensures r != Failed(StateDisagreement)
      ensures r == Completed || r == AlreadyComplete ==> EndsComplete()
      ensures ReportsProgress(r)
      ensures !Lagging(Records(), request)
    {
      RankDetermines(mac.value.phase);
      RecordedIsCovered();
      hide AllowedPair, AllAllowed, Good, Went, WasInstalled, Backed, Covered, Streak, CallsFrom;
      r := RunFromPhase(mac, files, Rank(mac.value.phase) + 1);
    }

    method RepairAndGoOn(drifted: nat, recorded: seq<OwnedFile>) returns (r: Outcome)
      requires Valid() && mac.Some? && Resumable(Records(), request) && drifts > 0
      requires target.Some? ==> TargetMatchesMac(mac.value, target.value)
      requires recorded == if target.Some? then target.value.ownedFiles else []
      requires 0 < drifted <= Rank(mac.value.phase) && Streak(verified) == drifted
      modifies this
      ensures Valid() && old(history) <= history && old(calls) <= calls && drifts >= old(drifts)
      ensures Went(old(calls), calls, PersistCalls(drifted - 1) + CallsFrom(drifted), Stop(r))
      ensures r != Failed(StateDisagreement)
      ensures r == Completed || r == AlreadyComplete ==> EndsComplete()
      ensures ReportsProgress(r)
      ensures Lagging(Records(), request) ==> r == Failed(StateError)
    {
      hide AllowedPair, AllAllowed, Good, Went, Passes, Explains, CallsFrom, PersistCalls, Backed, Streak, Lagging;
      var error, state, files := Repair(drifted, recorded);
      ghost var repair, left := PersistCalls(drifted - 1), CallsFrom(drifted);
      if error.Some? {
        StoppedEarly(old(calls), calls, repair, left, Failed(error.value));
        return Failed(error.value);
      }
      ghost var between := calls;
      r := RunFromPhase(Some(state), files, drifted);
      WentOn(old(calls), between, calls, repair, left, Stop(r));
    }

    /** Any number of failing runs, then one more.  Unless drift was found along the way, the last run
        completes as soon as it meets no fault itself, and it is never refused. */
    method RunRepeatedly(failedRuns: nat) returns (last: Outcome, ghost lastCall: nat)
      requires Valid()
      modifies this
      ensures Valid() && old(history) <= history && old(calls) <= calls
      ensures drifts == 0 ==> forall p :: p in history ==> Forward(p, request)
      ensures drifts == 0 ==> last != Failed(StateDisagreement)
      ensures drifts == 0 && GoodFrom(lastCall) ==> (last == Completed || last == AlreadyComplete) && EndsComplete()
    {
      for run := 0 to failedRuns
        invariant Valid() && old(history) <= history && old(calls) <= calls
      {
        var _, _ := Run();
      }
      lastCall := |calls|;
      ghost var drifted;
      last, drifted := Run();
      forall p | p in history && drifts == 0 ensures Forward(p, request) {
        var i :| 0 <= i < |history| && history[i] == p;
        EveryPairAllowed(history, request, true, i);
      }
    }
  }
}
