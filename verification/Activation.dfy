/**
 activate_application_release in src/install.rs: switching the installed release over a file system of paths
 and contents. Every durable write or removal is one step, and the machine may stop between any two.
*/
module Activation {
  import opened Prelude
  import opened Ownership

  type Files = map<Path, string>

  /** The digest, the exact texts of the marker, REVISION and SHA256 files, and whether the settings belong to root,
      as every other file does, or to the service, to whose account an installation hands their directory. */
  datatype Host = Host(digest: string -> string, markerText: string, revisionText: string -> string,
                       checksumText: string -> string, rootOwnsSettings: bool)

  /** What the lifecycle record says about the switch under way. */
  datatype Transaction = Transaction(priorOwned: seq<InstalledFile>, prior: Identity, candidate: Identity)

  // ----- the manifest against the files

  predicate Listed(owned: seq<InstalledFile>, path: Path) {
    path in PathsOf(owned)
  }

  function EntryProblem(h: Host, files: Files, owned: seq<InstalledFile>, i: nat): Option<Error>
    requires i <= |owned|
    decreases |owned| - i
  {
    if i == |owned| then None
    else
      var f := owned[i];
      if Listed(owned[..i], f.path) || !Allowed(f.path) then Some(InvalidOwnershipManifest)
      else if f.path in files && f.path.Marker? && f.sha256 != h.digest(h.markerText) then
        Some(InvalidOwnershipManifest)
      else if f.path in files && !f.path.Settings? && h.digest(files[f.path]) != f.sha256 then
        Some(OwnedPathDrift(f.path))
      else EntryProblem(h, files, owned, i + 1)
  }

  /** The settings and the marker that proves they are ours come and go together. */
  function MarkerProblem(h: Host, files: Files, owned: seq<InstalledFile>): Option<Error> {
    if !Listed(owned, Marker) then None
    else if Marker in files && Settings in files then
      if files[Marker] != h.markerText then Some(OwnedPathDrift(Marker)) else None
    else if Marker !in files && Settings !in files then None
    else Some(SettingsNotOwned)
  }

  /** Where the marker is listed, one of the two without the other is not ours, and another text is drift. */
  lemma MarkerMeans(h: Host, files: Files, owned: seq<InstalledFile>)
    ensures var problem := MarkerProblem(h, files, owned);
            && (problem == Some(SettingsNotOwned) <==>
                  Listed(owned, Marker) && (Marker in files) != (Settings in files))
            && (problem == Some(OwnedPathDrift(Marker)) <==>
                  && Listed(owned, Marker) && Marker in files && Settings in files && files[Marker] != h.markerText)
            && (problem == None || problem == Some(SettingsNotOwned) || problem == Some(OwnedPathDrift(Marker)))
  {
    hide Listed;
  }

  /** verify_owned_manifest: the first thing wrong, if any. A listed file may be missing. */
  function ManifestProblem(h: Host, files: Files, owned: seq<InstalledFile>): Option<Error> {
    if owned == [] || |owned| > MAX_OWNED_FILES then Some(InvalidOwnershipManifest)
    else if Listed(owned, Settings) != Listed(owned, Marker) then Some(InvalidOwnershipManifest)
    else if MarkerProblem(h, files, owned).Some? then MarkerProblem(h, files, owned)
    else EntryProblem(h, files, owned, 0)
  }

  predicate EntryHolds(h: Host, files: Files, f: InstalledFile) {
    f.path in files ==>
      && (f.path.Marker? ==> f.sha256 == h.digest(h.markerText))
      && (!f.path.Settings? ==> h.digest(files[f.path]) == f.sha256)
  }

  /** Everything listed that exists is as listed, except that the settings may have been edited. */
  ghost predicate ManifestHolds(h: Host, files: Files, owned: seq<InstalledFile>) {
    && ValidOwnership(owned)
    && (Listed(owned, Settings) <==> Listed(owned, Marker))
    && MarkerProblem(h, files, owned).None?
    && forall f :: f in owned ==> EntryHolds(h, files, f)
  }

  lemma {:induction false} EntriesHold(h: Host, files: Files, owned: seq<InstalledFile>, i: nat)
    requires i <= |owned|
    ensures EntryProblem(h, files, owned, i).None? <==>
            forall k :: i <= k < |owned| ==>
                          && !Listed(owned[..k], owned[k].path) && Allowed(owned[k].path)
                          && EntryHolds(h, files, owned[k])
    decreases |owned| - i
  {
    hide Listed;
    if i < |owned| {
      EntriesHold(h, files, owned, i + 1);
    }
  }

  /** What is reported is the first entry that is wrong: as an invalid manifest when its path is listed before or not
      allowed or the marker is listed with another digest, and otherwise as drift of that path. */
  lemma {:induction false} FirstEntryIsReported(h: Host, files: Files, owned: seq<InstalledFile>, i: nat)
    returns (k: nat)
    requires i <= |owned| && EntryProblem(h, files, owned, i).Some?
    ensures i <= k < |owned|
    ensures forall j :: i <= j < k ==>
                          && !Listed(owned[..j], owned[j].path) && Allowed(owned[j].path)
                          && EntryHolds(h, files, owned[j])
    ensures var f := owned[k];
            var misplaced := || Listed(owned[..k], f.path) || !Allowed(f.path)
                             || (f.path.Marker? && f.path in files && f.sha256 != h.digest(h.markerText));
            && (misplaced ==> EntryProblem(h, files, owned, i) == Some(InvalidOwnershipManifest))
            && (!misplaced ==>
                  && EntryProblem(h, files, owned, i) == Some(OwnedPathDrift(f.path))
                  && f.path in files && h.digest(files[f.path]) != f.sha256 && !f.path.Settings?)
    decreases |owned| - i
  {
    hide Listed, Allowed;
    k := i;
    var f := owned[i];
    if && !Listed(owned[..i], f.path) && Allowed(f.path) && EntryHolds(h, files, f) {
      k := FirstEntryIsReported(h, files, owned, i + 1);
    }
  }

  lemma ListedMeansMember(owned: seq<InstalledFile>, path: Path)
    ensures Listed(owned, path) <==> exists i :: 0 <= i < |owned| && owned[i].path == path
  {
    if Listed(owned, path) {
      var i :| 0 <= i < |owned| && PathsOf(owned)[i] == path;
      assert owned[i].path == path;
    }
    if i :| 0 <= i < |owned| && owned[i].path == path {
      assert PathsOf(owned)[i] == path;
    }
  }

  lemma DistinctIsUnlisted(owned: seq<InstalledFile>)
    ensures DistinctPaths(owned) <==> forall k :: 0 <= k < |owned| ==> !Listed(owned[..k], owned[k].path)
  {
    hide Listed;
    forall k | 0 <= k < |owned|
      ensures Listed(owned[..k], owned[k].path) <==> exists i :: 0 <= i < k && owned[i].path == owned[k].path
    {
      ListedMeansMember(owned[..k], owned[k].path);
      assert forall i :: 0 <= i < k ==> owned[..k][i] == owned[i];
    }
  }

  /** The verifier finds no problem exactly when the manifest holds. */
  lemma NoProblemExactly(h: Host, files: Files, owned: seq<InstalledFile>)
    ensures ManifestProblem(h, files, owned).None? <==> ManifestHolds(h, files, owned)
  {
    hide Listed, DistinctPaths, MarkerProblem, EntryHolds, EntryProblem;
    EntriesHold(h, files, owned, 0);
    DistinctIsUnlisted(owned);
    assert forall k :: 0 <= k < |owned| ==> owned[k] in owned;
  }

  method VerifyOwnedManifest(h: Host, files: Files, owned: seq<InstalledFile>) returns (problem: Option<Error>)
    ensures problem.None? <==> ManifestHolds(h, files, owned)
    ensures problem == ManifestProblem(h, files, owned)
  {
    hide Listed, EntryProblem, ManifestHolds;
    NoProblemExactly(h, files, owned);
    if |owned| == 0 || |owned| > MAX_OWNED_FILES {
      return Some(InvalidOwnershipManifest);
    }
    if Listed(owned, Settings) != Listed(owned, Marker) {
      return Some(InvalidOwnershipManifest);
    }
    if MarkerProblem(h, files, owned).Some? {
      return MarkerProblem(h, files, owned);
    }
    problem := CheckEntries(h, files, owned);
  }

  method CheckEntries(h: Host, files: Files, owned: seq<InstalledFile>) returns (problem: Option<Error>)
    ensures problem == EntryProblem(h, files, owned, 0)
  {
    hide Listed;
    var index := 0;
    while index < |owned|
      invariant index <= |owned| && EntryProblem(h, files, owned, index) == EntryProblem(h, files, owned, 0)
    {
      var f := owned[index];
      if Listed(owned[..index], f.path) || !Allowed(f.path) {
        return Some(InvalidOwnershipManifest);
      }
      if f.path in files {
        if f.path.Marker? && f.sha256 != h.digest(h.markerText) {
          return Some(InvalidOwnershipManifest);
        }
        if h.digest(files[f.path]) != f.sha256 && !f.path.Settings? {
          return Some(OwnedPathDrift(f.path));
        }
      }
      index := index + 1;
    }
    return None;
  }

  // ----- proving an interrupted switch

  predicate RootOwns(h: Host, path: Path) {
    path.Settings? ==> h.rootOwnsSettings
  }

  /** interrupted_candidate_digest */
  function CandidateDigest(h: Host, path: Path, candidate: Identity): Option<string> {
    if path.Binary? then Some(candidate.sha256)
    else if path.Revision? then Some(h.digest(h.revisionText(candidate.revision)))
    else if path.Checksum? then Some(h.digest(h.checksumText(candidate.sha256)))
    else None
  }

  /** The proof wants a file of root's with the content of either release, of the settings as well. */
  predicate PriorOrCandidate(h: Host, files: Files, f: InstalledFile, candidate: Identity) {
    && f.path in files
    && RootOwns(h, f.path)
    && (h.digest(files[f.path]) == f.sha256 || CandidateDigest(h, f.path, candidate) == Some(h.digest(files[f.path])))
  }

  /** transaction_proves_interrupted_application_switch */
  predicate ProvesInterrupted(h: Host, files: Files, current: seq<InstalledFile>, identity: Identity,
                              transaction: Option<Transaction>) {
    && transaction.Some?
    && transaction.value.priorOwned == current
    && (identity == transaction.value.prior || identity == transaction.value.candidate)
    && forall f :: f in current ==> PriorOrCandidate(h, files, f, transaction.value.candidate)
  }

  /** verify_application_switch_precondition */
  function PreconditionProblem(h: Host, files: Files, current: seq<InstalledFile>, identity: Identity,
                               transaction: Option<Transaction>): Option<Error> {
    var problem := ManifestProblem(h, files, current);
    if problem.Some? && problem.value.OwnedPathDrift?
      && ProvesInterrupted(h, files, current, identity, transaction) then None
    else problem
  }

  /** Drift is tolerated only for a switch on record from this very manifest, by one that goes on to the candidate or
      back to the prior release, and only while every listed file is there, root's, and with the content listed or, for
      the three a switch rewrites, the candidate's. */
  lemma DriftIsTolerated(h: Host, files: Files, current: seq<InstalledFile>, identity: Identity,
                         transaction: Option<Transaction>)
    ensures PreconditionProblem(h, files, current, identity, transaction).None? <==>
              || ManifestHolds(h, files, current)
              || (&& ManifestProblem(h, files, current).Some?
                  && ManifestProblem(h, files, current).value.OwnedPathDrift?
                  && transaction.Some? && transaction.value.priorOwned == current
                  && (identity == transaction.value.prior || identity == transaction.value.candidate)
                  && forall f :: f in current ==>
                       && f.path in files && (f.path == Settings ==> h.rootOwnsSettings)
                       && var digest, candidate := h.digest(files[f.path]), transaction.value.candidate;
                          || digest == f.sha256
                          || (f.path == Binary && digest == candidate.sha256)
                          || (f.path == Revision && digest == h.digest(h.revisionText(candidate.revision)))
                          || (f.path == Checksum && digest == h.digest(h.checksumText(candidate.sha256))))
  {
    NoProblemExactly(h, files, current);
    hide ManifestProblem, ManifestHolds;
  }

  // ----- the steps of an activation

  datatype Step = Write(path: Path, content: string) | Remove(path: Path)

  function ApplyStep(files: Files, step: Step): Files {
    match step
    case Write(path, content) => files[path := content]
    case Remove(path) => files - {path}
  }

  function ApplyAll(files: Files, steps: seq<Step>): Files {
    if steps == [] then files else ApplyStep(ApplyAll(files, steps[..|steps| - 1]), steps[|steps| - 1])
  }

  function Writes(h: Host, identity: Identity, artifact: string): (steps: seq<Step>)
    ensures |steps| == 4 && forall i :: 0 <= i < 4 ==> steps[i].Write?
  {
    [Write(Selected(identity), artifact),
     Write(Binary, artifact),
     Write(Revision, h.revisionText(identity.revision)),
     Write(Checksum, h.checksumText(identity.sha256))]
  }

  function OwnedAfter(h: Host, current: seq<InstalledFile>, identity: Identity): seq<InstalledFile> {
    Prospective(current, identity, h.digest(h.revisionText(identity.revision)),
        h.digest(h.checksumText(identity.sha256)))
  }

  predicate Retires(owned: seq<InstalledFile>, f: InstalledFile) {
    IsRelease(f) && !Listed(owned, f.path)
  }

  /** One removal for each release the new manifest no longer lists. */
  function Removals(owned: seq<InstalledFile>, current: seq<InstalledFile>): (steps: seq<Step>)
    ensures |steps| <= |current| && forall i :: 0 <= i < |steps| ==> steps[i].Remove?
  {
    if current == [] then []
    else
      var last := current[|current| - 1];
      Removals(owned, current[..|current| - 1]) + (if Retires(owned, last) then [Remove(last.path)] else [])
  }

  function Steps(h: Host, current: seq<InstalledFile>, identity: Identity, artifact: string): seq<Step> {
    Writes(h, identity, artifact) + Removals(OwnedAfter(h, current, identity), current)
  }

  lemma ApplyNext(files: Files, steps: seq<Step>, k: nat)
    requires k < |steps|
    ensures ApplyAll(files, steps[..k + 1]) == ApplyStep(ApplyAll(files, steps[..k]), steps[k])
  {
    assert steps[..k + 1][..k] == steps[..k];
  }

  lemma {:induction false} RemovalsAre(owned: seq<InstalledFile>, current: seq<InstalledFile>, path: Path)
    ensures Remove(path) in Removals(owned, current)
            <==> exists f :: f in current && f.path == path && Retires(owned, f)
  {
    hide Retires;
    if current != [] {
      var init, last := current[..|current| - 1], current[|current| - 1];
      RemovalsAre(owned, init, path);
      assert forall f :: f in current <==> f in init || f == last;
    }
  }

  datatype Outcome = Activated(owned: seq<InstalledFile>) | Refused(error: Error) | Stopped

  /** Wherever the precondition is met, a listed file other than the fixed ones and the settings is missing or
      as listed. */
  lemma AcceptedAreIntact(h: Host, files: Files, current: seq<InstalledFile>, identity: Identity,
                          transaction: Option<Transaction>, f: InstalledFile)
    requires PreconditionProblem(h, files, current, identity, transaction).None?
    requires f in current && !Fixed(f.path) && !f.path.Settings? && f.path in files
    ensures h.digest(files[f.path]) == f.sha256
  {
    hide ManifestProblem, MarkerProblem, Listed, DistinctPaths;
    NoProblemExactly(h, files, current);
    if ManifestProblem(h, files, current).Some? {
      assert PriorOrCandidate(h, files, f, transaction.value.candidate);
    } else {
      assert EntryHolds(h, files, f);
    }
  }

  class Target {
    const h: Host
    var files: Files
    /** Durable steps left before the machine stops. */
    var power: nat

    constructor (h: Host, files: Files, power: nat)
      ensures this.h == h && this.files == files && this.power == power
    {
      this.h := h;
      this.files := files;
      this.power := power;
    }

    method Perform(step: Step) returns (alive: bool)
      modifies this
      ensures alive <==> old(power) > 0
      ensures alive ==> files == ApplyStep(old(files), step) && power == old(power) - 1
      ensures !alive ==> files == old(files) && power == 0
    {
      if power == 0 {
        return false;
      }
      files := match step case Write(path, content) => files[path := content] case Remove(path) => files - {path};
      power := power - 1;
      return true;
    }

    /** A prefix of the steps has been taken. */
    ghost predicate Reached(start: Files, budget: nat, steps: seq<Step>, k: nat)
      reads this
    {
      k <= |steps| && k <= budget && power == budget - k && files == ApplyAll(start, steps[..k])
    }

    method WriteRelease(identity: Identity, artifact: string, ghost start: Files, ghost budget: nat,
                        ghost steps: seq<Step>)
      returns (alive: bool)
      requires Reached(start, budget, steps, 0) && |steps| >= 4 && steps[..4] == Writes(h, identity, artifact)
      modifies this
      ensures alive ==> Reached(start, budget, steps, 4)
      ensures !alive ==> budget < 4 && Reached(start, budget, steps, budget)
    {
      hide ApplyAll, ApplyStep, Writes;
      var writes := Writes(h, identity, artifact);
      var i := 0;
      alive := true;
      while i < 4
        invariant i <= 4 && alive && Reached(start, budget, steps, i)
      {
        assert steps[i] == steps[..4][i];
        ApplyNext(start, steps, i);
        alive := Perform(writes[i]);
        if !alive {
          return;
        }
        i := i + 1;
      }
    }

    /** The retirement loop: an intact retired release is removed, a missing one skipped. */
    method RetireReleases(current: seq<InstalledFile>, owned: seq<InstalledFile>, ghost start: Files,
                          ghost budget: nat, ghost steps: seq<Step>)
      returns (alive: bool)
      requires Reached(start, budget, steps, 4) && |steps| >= 4 && steps[4..] == Removals(owned, current)
      requires forall f :: f in current && Retires(owned, f) && f.path in files ==> h.digest(files[f.path]) == f.sha256
      modifies this
      ensures alive ==> Reached(start, budget, steps, |steps|)
      ensures !alive ==> budget < |steps| && Reached(start, budget, steps, budget)
    {
      hide ApplyAll, Retires;
      var i := 0;
      alive := true;
      ghost var k := 4;
      while i < |current|
        invariant i <= |current| && alive
        invariant k == 4 + |Removals(owned, current[..i])| && Reached(start, budget, steps, k)
        invariant forall f :: f in current && Retires(owned, f) && f.path in files ==>
                              h.digest(files[f.path]) == f.sha256
      {
        assert current[..i + 1][..i] == current[..i];
        RemovalsPrefix(owned, current, i + 1);
        if Retires(owned, current[i]) {
          var path := current[i].path;
          // The check before the removal: a retired release has not drifted.
          assert path in files ==> h.digest(files[path]) == current[i].sha256;
          assert steps[k] == steps[4..][k - 4] == Remove(path);
          ApplyNext(start, steps, k);
          alive := Perform(Remove(path));
          if !alive {
            return;
          }
          k := k + 1;
        }
        i := i + 1;
      }
      assert current[..i] == current;
    }

    /** activate_application_release. A refusal comes before the first write; a stop leaves a prefix of the
        steps; otherwise all of them were taken. */
    method Activate(artifact: string, identity: Identity, current: seq<InstalledFile>, transaction: Option<Transaction>)
      returns (outcome: Outcome)
      modifies this
      ensures var steps := Steps(h, current, identity, artifact);
              var owned := OwnedAfter(h, current, identity);
              var problem := PreconditionProblem(h, old(files), current, identity, transaction);
              && (outcome.Refused? <==>
                    problem.Some? || h.digest(artifact) != identity.sha256 || !ValidShape(owned))
              && (outcome.Refused? ==>
                    && files == old(files) && power == old(power)
                    && outcome.error == if problem.Some? then problem.value
                                        else if h.digest(artifact) != identity.sha256 then ChecksumMismatch
                                        else InvalidOwnershipManifest)
              && (outcome.Activated? ==>
                    outcome.owned == owned && files == ApplyAll(old(files), steps) && old(power) >= |steps|)
              && (outcome.Stopped? ==>
                    old(power) < |steps| && files == ApplyAll(old(files), steps[..old(power)]))
    {
      hide ManifestProblem, ProvesInterrupted, Prospective, ValidShape, Removals, ApplyAll, Listed, Writes;
      var problem := VerifyOwnedManifest(h, files, current);
      if problem.Some?
        && !(problem.value.OwnedPathDrift? && ProvesInterrupted(h, files, current, identity, transaction)) {
        return Refused(problem.value);
      }
      if h.digest(artifact) != identity.sha256 {
        return Refused(ChecksumMismatch);
      }
      var prospective := ProspectiveApplicationOwnership(
        current, identity, h.digest(h.revisionText(identity.revision)), h.digest(h.checksumText(identity.sha256)));
      if prospective.None? {
        return Refused(InvalidOwnershipManifest);
      }
      var owned := prospective.value;
      ghost var start, budget := files, power;
      ghost var steps := Steps(h, current, identity, artifact);
      assert steps[..0] == [] && steps[..|steps|] == steps;
      assert steps[..4] == Writes(h, identity, artifact) && steps[4..] == Removals(owned, current);
      ApplyNone(start);
      var alive := WriteRelease(identity, artifact, start, budget, steps);
      if !alive {
        return Stopped;
      }
      RetiredAreIntact(h, start, current, identity, artifact, transaction);
      alive := RetireReleases(current, owned, start, budget, steps);
      if !alive {
        return Stopped;
      }
      outcome := Activated(owned);
    }
  }

  lemma ApplyNone(files: Files)
    ensures ApplyAll(files, []) == files
  {}

  lemma {:induction false} RemovalsPrefix(owned: seq<InstalledFile>, current: seq<InstalledFile>, i: nat)
    requires i <= |current|
    ensures Removals(owned, current[..i]) <= Removals(owned, current)
    decreases |current|
  {
    hide Retires;
    if i == |current| {
      assert current[..i] == current;
    } else {
      var init := current[..|current| - 1];
      RemovalsPrefix(owned, init, i);
      assert init[..i] == current[..i];
    }
  }

  lemma WritesKeep(h: Host, files: Files, identity: Identity, artifact: string, path: Path)
    requires path != Selected(identity) && !Fixed(path)
    ensures var after := ApplyAll(files, Writes(h, identity, artifact));
            (path in after <==> path in files) && (path in files ==> after[path] == files[path])
  {
    ApplyWrites(h, files, identity, artifact);
  }

  lemma ApplyWrites(h: Host, files: Files, identity: Identity, artifact: string)
    ensures ApplyAll(files, Writes(h, identity, artifact))
         == files[Selected(identity) := artifact][Binary := artifact][Revision := h.revisionText(identity.revision)]
            [Checksum := h.checksumText(identity.sha256)]
  {
    var w := Writes(h, identity, artifact);
    assert w[..4] == w && w[..0] == [];
    ApplyNext(files, w, 0);
    ApplyNext(files, w, 1);
    ApplyNext(files, w, 2);
    ApplyNext(files, w, 3);
  }

  lemma RetiredAreIntact(h: Host, files: Files, current: seq<InstalledFile>, identity: Identity, artifact: string,
                         transaction: Option<Transaction>)
    requires PreconditionProblem(h, files, current, identity, transaction).None?
    ensures var steps, owned := Steps(h, current, identity, artifact), OwnedAfter(h, current, identity);
            var after := ApplyAll(files, steps[..4]);
            forall f :: f in current && Retires(owned, f) && f.path in after ==> h.digest(after[f.path]) == f.sha256
  {
    hide PreconditionProblem, Prospective, Removals, ApplyAll, Listed, Writes;
    var steps, owned := Steps(h, current, identity, artifact), OwnedAfter(h, current, identity);
    assert steps[..4] == Writes(h, identity, artifact);
    var after := ApplyAll(files, steps[..4]);
    SelectedIsListed(h, current, identity);
    forall f | f in current && Retires(owned, f) && f.path in after ensures h.digest(after[f.path]) == f.sha256 {
      WritesKeep(h, files, identity, artifact, f.path);
      AcceptedAreIntact(h, files, current, identity, transaction, f);
    }
  }

  lemma SelectedIsListed(h: Host, current: seq<InstalledFile>, identity: Identity)
    ensures Listed(OwnedAfter(h, current, identity), Selected(identity))
  {
    var owned := OwnedAfter(h, current, identity);
    assert owned[|owned| - 1].path == Selected(identity);
    ListedMeansMember(owned, Selected(identity));
  }
}
