/**
 What an activation promises: exactly when the files match the manifest it returns, exactly which crashes leave
 something the next attempt accepts, and that however often it was interrupted the last attempt ends where a single
 one would have.
*/
module ActivationLaws {
  import opened Prelude
  import opened Ownership
  import opened Activation

  // ----- what the steps do to each path

  lemma {:induction false} ApplyAppend(files: Files, a: seq<Step>, b: seq<Step>)
    ensures ApplyAll(files, a + b) == ApplyAll(ApplyAll(files, a), b)
  {
    if b == [] {
      assert a + b == a;
    } else {
      ApplyAppend(files, a, b[..|b| - 1]);
      assert (a + b)[..|a + b| - 1] == a + b[..|b| - 1];
    }
  }

  lemma {:induction false} ApplyRemovals(files: Files, removals: seq<Step>, path: Path)
    requires forall i :: 0 <= i < |removals| ==> removals[i].Remove?
    ensures var after := ApplyAll(files, removals);
            && (path in after <==> path in files && Remove(path) !in removals)
            && (path in after ==> after[path] == files[path])
  {
    if removals != [] {
      var init, last := removals[..|removals| - 1], removals[|removals| - 1];
      ApplyRemovals(files, init, path);
      assert Remove(path) in removals <==> Remove(path) in init || last == Remove(path);
    }
  }

  /** What the four writes leave at a path. */
  function Written(h: Host, identity: Identity, artifact: string, path: Path): Option<string> {
    if path == Selected(identity) || path == Binary then Some(artifact)
    else if path == Revision then Some(h.revisionText(identity.revision))
    else if path == Checksum then Some(h.checksumText(identity.sha256))
    else None
  }

  lemma WrittenAt(h: Host, files: Files, identity: Identity, artifact: string, path: Path)
    ensures var after, written := ApplyAll(files, Writes(h, identity, artifact)), Written(h, identity, artifact, path);
            && (path in after <==> written.Some? || path in files)
            && (path in after ==> after[path] == if written.Some? then written.value else files[path])
  {
    hide Writes, ApplyAll;
    ApplyWrites(h, files, identity, artifact);
  }

  /** After k steps, at least the four writes among them. */
  lemma FilesAfter(h: Host, files: Files, current: seq<InstalledFile>, identity: Identity, artifact: string, k: nat,
                   path: Path)
    requires 4 <= k <= |Steps(h, current, identity, artifact)|
    ensures var steps := Steps(h, current, identity, artifact);
            var after, written := ApplyAll(files, steps[..k]), Written(h, identity, artifact, path);
            && (path in after <==> (written.Some? || path in files) && Remove(path) !in steps[4..k])
            && (path in after ==> after[path] == if written.Some? then written.value else files[path])
  {
    hide ApplyAll, Writes, Removals, Written, OwnedAfter;
    var steps := Steps(h, current, identity, artifact);
    var writes := Writes(h, identity, artifact);
    assert steps[4..] == Removals(OwnedAfter(h, current, identity), current);
    assert steps[..k] == writes + steps[4..k];
    ApplyAppend(files, writes, steps[4..k]);
    WrittenAt(h, files, identity, artifact, path);
    assert forall i :: 0 <= i < k - 4 ==> steps[4..k][i] == steps[4..][i];
    ApplyRemovals(ApplyAll(files, writes), steps[4..k], path);
  }

  /** The first k steps include the write of the path. */
  predicate WrittenBy(identity: Identity, k: nat, path: Path) {
    (path == Selected(identity) && k > 0) || (path.Binary? && k > 1) || (path.Revision? && k > 2)
        || (path.Checksum? && k > 3)
  }

  lemma FirstWrites(h: Host, files: Files, identity: Identity, artifact: string, k: nat, path: Path)
    requires k <= 4
    ensures var after := ApplyAll(files, Writes(h, identity, artifact)[..k]);
            && (path in after <==> WrittenBy(identity, k, path) || path in files)
            && (path in after ==>
                  after[path] == if WrittenBy(identity, k, path)
                                 then Written(h, identity, artifact, path).value else files[path])
    decreases k
  {
    var writes := Writes(h, identity, artifact);
    if k == 0 {
      assert writes[..0] == [];
    } else {
      FirstWrites(h, files, identity, artifact, k - 1, path);
      ApplyNext(files, writes, k - 1);
      hide ApplyAll;
    }
  }

  lemma RemovedAreUnlisted(h: Host, current: seq<InstalledFile>, identity: Identity, artifact: string, path: Path)
    ensures var steps, owned := Steps(h, current, identity, artifact), OwnedAfter(h, current, identity);
            Remove(path) in steps[4..] <==> InReleases(path) && !Listed(owned, path) && Listed(current, path)
  {
    hide Writes, Removals, OwnedAfter, Listed;
    var steps, owned := Steps(h, current, identity, artifact), OwnedAfter(h, current, identity);
    assert steps[4..] == Removals(owned, current);
    RemovalsAre(owned, current, path);
    ListedMeansMember(current, path);
    if Listed(current, path) {
      var i :| 0 <= i < |current| && current[i].path == path;
      assert current[i] in current;
    }
  }

  // ----- a completed activation

  predicate Touched(current: seq<InstalledFile>, identity: Identity, path: Path) {
    Fixed(path) || path == Selected(identity) || (InReleases(path) && Listed(current, path))
  }

  lemma FixedAndSelectedAreWritten(h: Host, identity: Identity, artifact: string, path: Path)
    ensures Written(h, identity, artifact, path).Some? <==> Fixed(path) || path == Selected(identity)
  {}

  /** What is at a path after any number of steps. */
  lemma FilesAtStep(h: Host, files: Files, current: seq<InstalledFile>, identity: Identity, artifact: string, k: nat,
                    path: Path)
    requires k <= |Steps(h, current, identity, artifact)|
    ensures var steps := Steps(h, current, identity, artifact);
            var after := ApplyAll(files, steps[..k]);
            var written, removed := WrittenBy(identity, k, path), Remove(path) in steps[..k];
            && (path in after <==> (written || path in files) && !removed)
            && (path in after ==>
                  after[path] == if written then Written(h, identity, artifact, path).value else files[path])
            && (written ==> Written(h, identity, artifact, path).Some?)
            && (removed ==> !WrittenBy(identity, 4, path) && InReleases(path) && Listed(current, path) && k > 4)
  {
    hide ApplyAll, Writes, Removals, OwnedAfter, Listed;
    var steps := Steps(h, current, identity, artifact);
    var writes := Writes(h, identity, artifact);
    if k <= 4 {
      assert steps[..k] == writes[..k];
      FirstWrites(h, files, identity, artifact, k, path);
      assert forall i :: 0 <= i < k ==> writes[..k][i] == writes[i];
    } else {
      FilesAfter(h, files, current, identity, artifact, k, path);
      RemovedAreUnlisted(h, current, identity, artifact, path);
      SelectedIsListed(h, current, identity);
      assert steps[..k] == writes + steps[4..k];
      assert forall i :: 0 <= i < k - 4 ==> steps[4..k][i] == steps[4..][i];
      assert Remove(path) in steps[..k] <==> Remove(path) in steps[4..k];
    }
  }

  /** An entry of the new manifest holds once all steps are taken. */
  lemma EntryHoldsAfter(h: Host, files: Files, current: seq<InstalledFile>, identity: Identity, artifact: string,
                        transaction: Option<Transaction>, f: InstalledFile)
    requires PreconditionProblem(h, files, current, identity, transaction).None?
             && h.digest(artifact) == identity.sha256
    requires f in OwnedAfter(h, current, identity) && MarkerProblem(h, files, current).None?
    ensures EntryHolds(h, ApplyAll(files, Steps(h, current, identity, artifact)), f)
  {
    hide ApplyAll, Steps, Listed, Prospective, PreconditionProblem;
    var steps := Steps(h, current, identity, artifact);
    var revisionSha := h.digest(h.revisionText(identity.revision));
    var checksumSha := h.digest(h.checksumText(identity.sha256));
    ProspectiveMembers(current, identity, revisionSha, checksumSha, f);
    StepsAreEnough(h, current, identity, artifact);
    FilesAtStep(h, files, current, identity, artifact, |steps|, f.path);
    assert steps[..|steps|] == steps;
    if f in current && !Fixed(f.path) && f.path != Selected(identity) && f.path in files && !f.path.Settings? {
      AcceptedAreIntact(h, files, current, identity, transaction, f);
      MemberIsListed(current, f);
    }
  }

  lemma StepsAreEnough(h: Host, current: seq<InstalledFile>, identity: Identity, artifact: string)
    ensures |Steps(h, current, identity, artifact)| >= 4
  {}

  lemma MemberIsListed(owned: seq<InstalledFile>, f: InstalledFile)
    requires f in owned
    ensures Listed(owned, f.path)
  {
    var i :| 0 <= i < |owned| && owned[i] == f;
    ListedMeansMember(owned, f.path);
  }

  lemma OthersListed(a: seq<InstalledFile>, b: seq<InstalledFile>, path: Path)
    requires Others(a) == Others(b) && !InReleases(path) && !Fixed(path)
    ensures Listed(a, path) == Listed(b, path)
  {
    ListedMeansMember(a, path);
    ListedMeansMember(b, path);
    PickMembers(a, IsOther);
    PickMembers(b, IsOther);
    hide Pick, Listed;
    if Listed(a, path) {
      var i :| 0 <= i < |a| && a[i].path == path;
      assert a[i] in Others(a);
    }
    if Listed(b, path) {
      var i :| 0 <= i < |b| && b[i].path == path;
      assert b[i] in Others(b);
    }
  }

  /** The written files exist, the retired releases are gone, and nothing else was touched. */
  ghost predicate TouchedOnly(h: Host, files: Files, current: seq<InstalledFile>, identity: Identity,
                              artifact: string, path: Path) {
    var after, owned := ApplyAll(files, Steps(h, current, identity, artifact)), OwnedAfter(h, current, identity);
    && (Fixed(path) || path == Selected(identity) ==> path in after)
    && (InReleases(path) && Listed(current, path) && !Listed(owned, path) ==> path !in after)
    && (!Touched(current, identity, path)
       ==> (path in after <==> path in files) && (path in after ==> after[path] == files[path]))
  }

  /** Whatever start the precondition accepts, going on or going back, the files an activation leaves are those of
      the manifest it returns; the exceptions are a marker whose text was not ours before and a path that is not
      allowed and stays listed, which the proof of an interrupted switch both lets through. */
  lemma CompletionMatchesManifest(h: Host, files: Files, current: seq<InstalledFile>, identity: Identity,
                                  artifact: string, transaction: Option<Transaction>)
    requires PreconditionProblem(h, files, current, identity, transaction).None?
             && h.digest(artifact) == identity.sha256
    requires ValidShape(OwnedAfter(h, current, identity))
    ensures var after := ApplyAll(files, Steps(h, current, identity, artifact));
            var owned := OwnedAfter(h, current, identity);
            && (ManifestProblem(h, after, owned).None? <==>
                  && MarkerProblem(h, files, current).None?
                  && forall f :: f in current ==> Allowed(f.path) || Retires(owned, f))
            && forall path: Path :: TouchedOnly(h, files, current, identity, artifact, path)
  {
    hide ApplyAll, Steps, Listed, Prospective, DistinctPaths, ManifestProblem, EntryHolds, Touched, ProvesInterrupted;
    var steps, owned := Steps(h, current, identity, artifact), OwnedAfter(h, current, identity);
    var after := ApplyAll(files, steps);
    var revisionSha := h.digest(h.revisionText(identity.revision));
    var checksumSha := h.digest(h.checksumText(identity.sha256));
    forall path: Path ensures TouchedOnly(h, files, current, identity, artifact, path) {
      PathAfter(h, files, current, identity, artifact, path);
    }
    SelectionMovesToBack(current, identity, revisionSha, checksumSha);
    OthersListed(owned, current, Settings);
    OthersListed(owned, current, Marker);
    SettingsUntouched(current, identity);
    assert TouchedOnly(h, files, current, identity, artifact, Settings)
           && TouchedOnly(h, files, current, identity, artifact, Marker);
    NoProblemExactly(h, after, owned);
    PairingHeld(h, files, current, identity, transaction);
    AllowedAfter(h, current, identity);
    assert forall i :: 0 <= i < |owned| ==> owned[i] in owned;
    if MarkerProblem(h, files, current).None? {
      forall f | f in owned ensures EntryHolds(h, after, f) {
        EntryHoldsAfter(h, files, current, identity, artifact, transaction, f);
      }
    }
  }

  /** The new manifest lists allowed paths exactly when the old one does, but for what is retired. */
  lemma AllowedAfter(h: Host, current: seq<InstalledFile>, identity: Identity)
    ensures var owned := OwnedAfter(h, current, identity);
            (forall f :: f in owned ==> Allowed(f.path)) <==>
            (forall f :: f in current ==> Allowed(f.path) || Retires(owned, f))
  {
    hide Prospective, Listed, Pick;
    var owned := OwnedAfter(h, current, identity);
    var revisionSha := h.digest(h.revisionText(identity.revision));
    var checksumSha := h.digest(h.checksumText(identity.sha256));
    SelectionMovesToBack(current, identity, revisionSha, checksumSha);
    PickMembers(current, IsOther);
    PickMembers(owned, IsOther);
    forall f | f in current && !Allowed(f.path) ensures f in owned || Listed(owned, f.path) || Retires(owned, f) {
      if !InReleases(f.path) {
        assert f in Others(current);
      }
    }
    forall f | f in owned && !Allowed(f.path) ensures f in current && !Retires(owned, f) {
      ProspectiveMembers(current, identity, revisionSha, checksumSha, f);
      MemberIsListed(owned, f);
    }
    forall path | Listed(owned, path) ensures exists f :: f in owned && f.path == path {
      ListedMeansMember(owned, path);
      var i :| 0 <= i < |owned| && owned[i].path == path;
      assert owned[i] in owned;
    }
  }

  /** An accepted manifest lists the settings and their marker together or not at all. */
  lemma PairingHeld(h: Host, files: Files, current: seq<InstalledFile>, identity: Identity,
                    transaction: Option<Transaction>)
    requires PreconditionProblem(h, files, current, identity, transaction).None?
    ensures Listed(current, Settings) == Listed(current, Marker)
  {
    hide Listed, EntryProblem, MarkerProblem, ProvesInterrupted;
  }

  lemma SettingsUntouched(current: seq<InstalledFile>, identity: Identity)
    ensures !Touched(current, identity, Settings) && !Touched(current, identity, Marker)
  {}

  lemma PathAfter(h: Host, files: Files, current: seq<InstalledFile>, identity: Identity, artifact: string, path: Path)
    ensures TouchedOnly(h, files, current, identity, artifact, path)
  {
    hide ApplyAll, Steps, Listed, Prospective;
    var steps := Steps(h, current, identity, artifact);
    StepsAreEnough(h, current, identity, artifact);
    FilesAfter(h, files, current, identity, artifact, |steps|, path);
    RemovedAreUnlisted(h, current, identity, artifact, path);
    SelectedIsListed(h, current, identity);
    FixedAndSelectedAreWritten(h, identity, artifact, path);
    assert steps[..|steps|] == steps && steps[4..|steps|] == steps[4..];
  }

  // ----- which files the precondition accepts

  /** The manifest is in order but for the contents of the files it lists. */
  ghost predicate Structured(h: Host, files: Files, owned: seq<InstalledFile>) {
    && ValidOwnership(owned)
    && (Listed(owned, Settings) <==> Listed(owned, Marker))
    && MarkerProblem(h, files, owned).None?
    && forall f :: f in owned && f.path.Marker? && f.path in files ==> f.sha256 == h.digest(h.markerText)
  }

  /** Then all that can be wrong is drift. */
  lemma {:induction false} OnlyDrift(h: Host, files: Files, owned: seq<InstalledFile>, i: nat)
    requires i <= |owned| && Structured(h, files, owned)
    ensures EntryProblem(h, files, owned, i).Some? ==> EntryProblem(h, files, owned, i).value.OwnedPathDrift?
    decreases |owned| - i
  {
    hide Listed, DistinctPaths, MarkerProblem;
    if i < |owned| {
      OnlyDrift(h, files, owned, i + 1);
      DistinctIsUnlisted(owned);
      assert owned[i] in owned;
    }
  }

  /** With the switch recorded, such files are accepted exactly when every listed file is as listed or missing, or
      when every one is there with the content of the prior or of the candidate release. */
  lemma AcceptedExactly(h: Host, files: Files, current: seq<InstalledFile>, transaction: Transaction,
                        identity: Identity)
    requires Structured(h, files, current)
    requires transaction.priorOwned == current && (identity == transaction.candidate || identity == transaction.prior)
    ensures PreconditionProblem(h, files, current, identity, Some(transaction)).None?
       <==> || (forall f :: f in current ==> EntryHolds(h, files, f))
            || (forall f :: f in current ==> PriorOrCandidate(h, files, f, transaction.candidate))
  {
    hide Listed, EntryProblem, MarkerProblem, EntryHolds, PriorOrCandidate, DistinctPaths;
    OnlyDrift(h, files, current, 0);
    NoProblemExactly(h, files, current);
  }

  // ----- crashes

  /** Every listed file the first k steps write is listed as they write it. */
  ghost predicate WrittenAsListed(h: Host, current: seq<InstalledFile>, candidate: Identity, artifact: string, k: nat) {
    forall f :: f in current && WrittenBy(candidate, k, f.path) ==>
                  Written(h, candidate, artifact, f.path).Some?
                  && f.sha256 == h.digest(Written(h, candidate, artifact, f.path).value)
  }

  /** Nothing was removed yet, and each listed file is one the first k steps wrote, or is there as listed and root's. */
  ghost predicate Evident(h: Host, start: Files, current: seq<InstalledFile>, candidate: Identity, k: nat) {
    && k <= 4
    && forall f :: f in current ==>
                     if WrittenBy(candidate, k, f.path) then Fixed(f.path) || f.sha256 == candidate.sha256
                     else f.path in start && RootOwns(h, f.path) && h.digest(start[f.path]) == f.sha256
  }

  lemma EntryAtStep(h: Host, start: Files, current: seq<InstalledFile>, candidate: Identity, artifact: string, k: nat,
                    f: InstalledFile)
    requires EntryHolds(h, start, f) && h.digest(artifact) == candidate.sha256
    requires k <= |Steps(h, current, candidate, artifact)|
    ensures var files := ApplyAll(start, Steps(h, current, candidate, artifact)[..k]);
            && (EntryHolds(h, files, f) <==>
                (WrittenBy(candidate, k, f.path) ==>
                   f.sha256 == h.digest(Written(h, candidate, artifact, f.path).value)))
            && (k <= 4 ==>
                  (PriorOrCandidate(h, files, f, candidate) <==>
                   if WrittenBy(candidate, k, f.path) then Fixed(f.path) || f.sha256 == candidate.sha256
                   else f.path in start && RootOwns(h, f.path) && h.digest(start[f.path]) == f.sha256))
  {
    hide Steps, ApplyAll, Listed;
    FilesAtStep(h, start, current, candidate, artifact, k, f.path);
  }

  lemma StepsKeepStructure(h: Host, start: Files, current: seq<InstalledFile>, identity: Identity, artifact: string,
                           k: nat)
    requires ManifestHolds(h, start, current) && k <= |Steps(h, current, identity, artifact)|
    ensures Structured(h, ApplyAll(start, Steps(h, current, identity, artifact)[..k]), current)
  {
    hide Steps, ApplyAll, Listed, DistinctPaths;
    FilesAtStep(h, start, current, identity, artifact, k, Marker);
    FilesAtStep(h, start, current, identity, artifact, k, Settings);
    assert forall f :: f in current ==> EntryHolds(h, start, f);
  }

  /** The first removal takes a listed file away, and with it the proof of an interrupted switch. */
  lemma RemovalDefeatsProof(h: Host, start: Files, current: seq<InstalledFile>, transaction: Transaction,
                            identity: Identity, artifact: string, k: nat)
    requires 4 < k <= |Steps(h, current, transaction.candidate, artifact)|
    ensures var files := ApplyAll(start, Steps(h, current, transaction.candidate, artifact)[..k]);
            && (exists f :: f in current && !PriorOrCandidate(h, files, f, transaction.candidate))
            && !ProvesInterrupted(h, files, current, identity, Some(transaction))
  {
    hide ApplyAll, Listed, OwnedAfter;
    var steps := Steps(h, current, transaction.candidate, artifact);
    var owned := OwnedAfter(h, current, transaction.candidate);
    assert steps[4] == Removals(owned, current)[0];
    var path := steps[4].path;
    assert steps[4] in Removals(owned, current);
    RemovalsAre(owned, current, path);
    var f :| f in current && f.path == path && Retires(owned, f);
    assert steps[..k][4] == Remove(path);
    FilesAtStep(h, start, current, transaction.candidate, artifact, k, path);
    assert !PriorOrCandidate(h, ApplyAll(start, steps[..k]), f, transaction.candidate);
  }

  /** Exactly which crashes the next attempt recovers from, with the switch recorded: those after which every
      listed file written so far is listed as written, and those before the first removal that left every listed
      file written, or as listed and root's. In particular a listed file that was missing already, which the
      precondition tolerates, is a reason for refusal until it is written. */
  lemma CrashIsAcceptedExactly(h: Host, start: Files, current: seq<InstalledFile>, transaction: Transaction,
                               identity: Identity, artifact: string, k: nat)
    requires ManifestHolds(h, start, current) && h.digest(artifact) == transaction.candidate.sha256
    requires transaction.priorOwned == current && (identity == transaction.candidate || identity == transaction.prior)
    requires k <= |Steps(h, current, transaction.candidate, artifact)|
    ensures PreconditionProblem(h, ApplyAll(start, Steps(h, current, transaction.candidate, artifact)[..k]), current,
            identity, Some(transaction)).None?
       <==> || WrittenAsListed(h, current, transaction.candidate, artifact, k)
            || Evident(h, start, current, transaction.candidate, k)
  {
    hide ApplyAll, Listed, Steps, DistinctPaths, MarkerProblem, EntryHolds, PriorOrCandidate, PreconditionProblem,
         WrittenBy;
    var candidate := transaction.candidate;
    var files := ApplyAll(start, Steps(h, current, candidate, artifact)[..k]);
    StepsKeepStructure(h, start, current, candidate, artifact, k);
    AcceptedExactly(h, files, current, transaction, identity);
    forall f | f in current
      ensures WrittenBy(candidate, k, f.path) ==> Written(h, candidate, artifact, f.path).Some?
      ensures EntryHolds(h, files, f) <==>
              (WrittenBy(candidate, k, f.path) ==> f.sha256 == h.digest(Written(h, candidate, artifact, f.path).value))
      ensures k <= 4 ==>
                (PriorOrCandidate(h, files, f, candidate) <==>
                 if WrittenBy(candidate, k, f.path) then Fixed(f.path) || f.sha256 == candidate.sha256
                 else f.path in start && RootOwns(h, f.path) && h.digest(start[f.path]) == f.sha256)
    {
      EntryAtStep(h, start, current, candidate, artifact, k, f);
      FilesAtStep(h, start, current, candidate, artifact, k, f.path);
    }
    if k > 4 {
      RemovalDefeatsProof(h, start, current, transaction, identity, artifact, k);
    }
  }

  /** All that is listed belongs to root: the settings are not listed, or not handed to the service. */
  ghost predicate RootOwnsAll(h: Host, current: seq<InstalledFile>) {
    forall f :: f in current ==> RootOwns(h, f.path)
  }

  /** With every listed file there and unedited, a crash before the first removal is evidence enough exactly when
      all of them belong to root. */
  lemma CompleteStartIsEvident(h: Host, start: Files, current: seq<InstalledFile>, candidate: Identity, k: nat)
    requires k <= 4
    requires forall f :: f in current ==> f.path in start && h.digest(start[f.path]) == f.sha256
    requires forall f :: f in current && f.path.Release? ==> f.sha256 == f.path.digest
    ensures Evident(h, start, current, candidate, k) <==> RootOwnsAll(h, current)
  {
    assert !WrittenBy(candidate, k, Settings);
    if Evident(h, start, current, candidate, k) {
      forall f | f in current ensures RootOwns(h, f.path) {}
    }
  }

  /** On an installation whose listed settings belong to the service no switch can be proved interrupted: the next
      attempt is accepted exactly when every listed file written so far is listed as written. */
  lemma ServiceSettingsDefeatProof(h: Host, start: Files, current: seq<InstalledFile>, transaction: Transaction,
                                   identity: Identity, artifact: string, k: nat)
    requires ManifestHolds(h, start, current) && h.digest(artifact) == transaction.candidate.sha256
    requires transaction.priorOwned == current && (identity == transaction.candidate || identity == transaction.prior)
    requires k <= |Steps(h, current, transaction.candidate, artifact)| && !RootOwnsAll(h, current)
    ensures PreconditionProblem(h, ApplyAll(start, Steps(h, current, transaction.candidate, artifact)[..k]), current,
            identity, Some(transaction)).None?
       <==> WrittenAsListed(h, current, transaction.candidate, artifact, k)
  {
    hide ManifestHolds, Steps, ApplyAll, PreconditionProblem, WrittenAsListed;
    CrashIsAcceptedExactly(h, start, current, transaction, identity, artifact, k);
    var f :| f in current && !RootOwns(h, f.path);
    assert !WrittenBy(transaction.candidate, k, f.path);
  }

  /** What an installation leaves, with digests written as the texts themselves: six files, the settings handed to
      the service. */
  function Installation(): (Host, seq<InstalledFile>, Files) {
    (Host(s => s, "m", s => s, s => s, false),
     [InstalledFile(Binary, "a"), InstalledFile(Revision, "q"), InstalledFile(Checksum, "a"),
      InstalledFile(Service, "u"), InstalledFile(Settings, "s"), InstalledFile(Marker, "m")],
     map[Binary := "a", Revision := "q", Checksum := "a", Service := "u", Settings := "s", Marker := "m"])
  }

  lemma InstallationHolds()
    ensures var (h, current, start) := Installation();
            ManifestHolds(h, start, current) && !RootOwnsAll(h, current)
  {
    var (h, current, start) := Installation();
    assert current[4] in current;
    assert Listed(current, Settings) && Listed(current, Marker) by {
      assert PathsOf(current)[4] == Settings && PathsOf(current)[5] == Marker;
    }
    hide Listed, PathsOf;
    assert MarkerProblem(h, start, current).None?;
    assert ValidOwnership(current) by { hide MarkerProblem; }
    hide ValidOwnership, MarkerProblem;
  }

  lemma InstallationIsChanged()
    ensures var (h, current, start) := Installation();
            !WrittenAsListed(h, current, Identity("2", "r", "b"), "b", 2)
  {
    var (h, current, start) := Installation();
    assert current[0] in current && WrittenBy(Identity("2", "r", "b"), 2, Binary);
  }

  /** Complete and unedited, such an installation accepts a switch. Stopped after the new binary is written, the
      switch is neither gone on with nor taken back. */
  lemma OrdinaryInstallationExample(back: bool)
    ensures var (h, current, start) := Installation();
            var prior, candidate := Identity("1", "q", "a"), Identity("2", "r", "b");
            var transaction := Transaction(current, prior, candidate);
            && 2 <= |Steps(h, current, candidate, "b")|
            && PreconditionProblem(h, start, current, candidate, Some(transaction)).None?
            && PreconditionProblem(h, ApplyAll(start, Steps(h, current, candidate, "b")[..2]), current,
                                   if back then prior else candidate, Some(transaction)).Some?
  {
    var (h, current, start) := Installation();
    var prior, candidate := Identity("1", "q", "a"), Identity("2", "r", "b");
    var transaction := Transaction(current, prior, candidate);
    assert h.digest("b") == "b";
    hide *;
    InstallationHolds();
    InstallationIsChanged();
    NoProblemExactly(h, start, current);
    AcceptedAsItStands(h, start, current, candidate, Some(transaction));
    StepsAreEnough(h, current, candidate, "b");
    ServiceSettingsDefeatProof(h, start, current, transaction, if back then prior else candidate, "b", 2);
  }

  lemma AcceptedAsItStands(h: Host, files: Files, current: seq<InstalledFile>, identity: Identity,
                           transaction: Option<Transaction>)
    requires ManifestProblem(h, files, current).None?
    ensures PreconditionProblem(h, files, current, identity, transaction).None?
  {}

  /** What the first attempt tolerates, a listed file that is missing or settings that were edited, makes the next
      one refuse, once a crash has left some other listed file with a content of the candidate's. */
  lemma TolerationIsNotRepeated(h: Host, start: Files, current: seq<InstalledFile>, transaction: Transaction,
                                artifact: string, k: nat, changed: InstalledFile, odd: InstalledFile)
    requires ManifestHolds(h, start, current) && h.digest(artifact) == transaction.candidate.sha256
    requires transaction.priorOwned == current && k <= |Steps(h, current, transaction.candidate, artifact)|
    requires changed in current && WrittenBy(transaction.candidate, k, changed.path)
    requires Written(h, transaction.candidate, artifact, changed.path).Some? ==>
               changed.sha256 != h.digest(Written(h, transaction.candidate, artifact, changed.path).value)
    requires odd in current && !WrittenBy(transaction.candidate, k, odd.path)
    requires odd.path in start ==> h.digest(start[odd.path]) != odd.sha256
    ensures var files := ApplyAll(start, Steps(h, current, transaction.candidate, artifact)[..k]);
            && PreconditionProblem(h, start, current, transaction.candidate, Some(transaction)).None?
            && PreconditionProblem(h, files, current, transaction.candidate, Some(transaction)).Some?
  {
    hide ManifestHolds, Steps, ApplyAll, ManifestProblem, ProvesInterrupted, WrittenBy, Written;
    NoProblemExactly(h, start, current);
    CrashIsAcceptedExactly(h, start, current, transaction, transaction.candidate, artifact, k);
    assert !WrittenAsListed(h, current, transaction.candidate, artifact, k);
    assert !Evident(h, start, current, transaction.candidate, k);
  }

  /** The service file is listed but missing, which the first attempt tolerates. Stopped after the new binary is
      written, it leaves files no later attempt accepts. */
  lemma MissingFileExample()
    ensures var h := Host(s => s, "m", s => s, s => s, true);
            var current := [InstalledFile(Binary, "a"), InstalledFile(Service, "s")];
            var start: Files := map[Binary := "a"];
            var prior, candidate := Identity("1", "r", "a"), Identity("2", "r", "b");
            var transaction := Transaction(current, prior, candidate);
            && 2 <= |Steps(h, current, candidate, "b")|
            && PreconditionProblem(h, start, current, candidate, Some(transaction)).None?
            && PreconditionProblem(h, ApplyAll(start, Steps(h, current, candidate, "b")[..2]), current, candidate,
               Some(transaction)).Some?
  {
    var h := Host(s => s, "m", s => s, s => s, true);
    var binary, service := InstalledFile(Binary, "a"), InstalledFile(Service, "s");
    var current := [binary, service];
    var start: Files := map[Binary := "a"];
    var candidate := Identity("2", "r", "b");
    var transaction := Transaction(current, Identity("1", "r", "a"), candidate);
    hide Steps, ApplyAll, PreconditionProblem;
    assert ManifestHolds(h, start, current) by {
      assert PathsOf(current) == [Binary, Service];
    }
    assert WrittenBy(candidate, 2, Binary) && Written(h, candidate, "b", Binary) == Some("b");
    assert !WrittenBy(candidate, 2, Service);
    hide *;
    StepsAreEnough(h, current, candidate, "b");
    assert current[0] == binary && current[1] == service;
    TolerationIsNotRepeated(h, start, current, transaction, "b", 2, binary, service);
  }

  /** The same with the service file there and the settings edited. */
  lemma EditedSettingsExample()
    ensures var h := Host(s => s, "m", s => s, s => s, true);
            var current := [InstalledFile(Binary, "a"), InstalledFile(Settings, "s"), InstalledFile(Marker, "m")];
            var start: Files := map[Binary := "a", Settings := "edited", Marker := "m"];
            var prior, candidate := Identity("1", "r", "a"), Identity("2", "r", "b");
            var transaction := Transaction(current, prior, candidate);
            && 2 <= |Steps(h, current, candidate, "b")|
            && PreconditionProblem(h, start, current, candidate, Some(transaction)).None?
            && PreconditionProblem(h, ApplyAll(start, Steps(h, current, candidate, "b")[..2]), current, candidate,
               Some(transaction)).Some?
  {
    var h := Host(s => s, "m", s => s, s => s, true);
    var binary, settings := InstalledFile(Binary, "a"), InstalledFile(Settings, "s");
    var marker := InstalledFile(Marker, "m");
    var current := [binary, settings, marker];
    var start: Files := map[Binary := "a", Settings := "edited", Marker := "m"];
    var candidate := Identity("2", "r", "b");
    var transaction := Transaction(current, Identity("1", "r", "a"), candidate);
    hide Steps, ApplyAll, PreconditionProblem;
    assert ManifestHolds(h, start, current) by {
      assert PathsOf(current) == [Binary, Settings, Marker];
      assert current[1] == settings && current[2] == marker;
    }
    assert WrittenBy(candidate, 2, Binary) && Written(h, candidate, "b", Binary) == Some("b");
    assert !WrittenBy(candidate, 2, Settings);
    hide *;
    StepsAreEnough(h, current, candidate, "b");
    assert current[0] == binary && current[1] == settings;
    TolerationIsNotRepeated(h, start, current, transaction, "b", 2, binary, settings);
  }

  /** A marker with another text, listed by that text's digest, passes the proof of an interrupted switch exactly
      when root owns the settings, and then the manifest does not hold after the attempt either. */
  lemma ForeignMarkerPasses(h: Host, files: Files, current: seq<InstalledFile>, transaction: Transaction,
                            artifact: string)
    requires 0 < |current| <= MAX_OWNED_FILES && Listed(current, Settings) && Listed(current, Marker)
    requires forall f :: f in current ==> f.path in files && h.digest(files[f.path]) == f.sha256
    requires Marker in files && Settings in files && files[Marker] != h.markerText
    requires transaction.priorOwned == current && h.digest(artifact) == transaction.candidate.sha256
    ensures var candidate := transaction.candidate;
            && (PreconditionProblem(h, files, current, candidate, Some(transaction)).None? <==> h.rootOwnsSettings)
            && (h.rootOwnsSettings ==>
                  ManifestProblem(h, ApplyAll(files, Steps(h, current, candidate, artifact)),
                                  OwnedAfter(h, current, candidate)).Some?)
  {
    hide Steps, ApplyAll, OwnedAfter, EntryProblem, ValidShape, Listed;
    var candidate := transaction.candidate;
    var after, owned := ApplyAll(files, Steps(h, current, candidate, artifact)), OwnedAfter(h, current, candidate);
    NoProblemExactly(h, after, owned);
    ListedMeansMember(current, Settings);
    var i :| 0 <= i < |current| && current[i].path == Settings;
    assert current[i] in current;
    if h.rootOwnsSettings && ValidShape(owned) {
      CompletionMatchesManifest(h, files, current, candidate, artifact, Some(transaction));
    }
  }

  lemma ForeignMarkerExample()
    ensures var h := Host(s => s, "m", s => s, s => s, true);
            var current := [InstalledFile(Settings, "s"), InstalledFile(Marker, "o")];
            var start: Files := map[Settings := "s", Marker := "o"];
            var transaction := Transaction(current, Identity("1", "r", "a"), Identity("2", "r", "b"));
            && PreconditionProblem(h, start, current, transaction.candidate, Some(transaction)).None?
            && ManifestProblem(h, ApplyAll(start, Steps(h, current, transaction.candidate, "b")),
               OwnedAfter(h, current, transaction.candidate)).Some?
  {
    var h := Host(s => s, "m", s => s, s => s, true);
    var current := [InstalledFile(Settings, "s"), InstalledFile(Marker, "o")];
    var start: Files := map[Settings := "s", Marker := "o"];
    var transaction := Transaction(current, Identity("1", "r", "a"), Identity("2", "r", "b"));
    assert PathsOf(current) == [Settings, Marker];
    hide Steps, ApplyAll, OwnedAfter, ManifestProblem, PreconditionProblem;
    ForeignMarkerPasses(h, start, current, transaction, "b");
  }

  /** The verifier stops at a binary that already has the candidate's content, the proof lets it pass, and the
      manifest returned still lists a path that is not allowed. */
  lemma ForeignPathExample()
    ensures var h := Host(s => s, "m", s => s, s => s, true);
            var current := [InstalledFile(Binary, "a"), InstalledFile(Foreign("f"), "x")];
            var start: Files := map[Binary := "b", Foreign("f") := "x"];
            var transaction := Transaction(current, Identity("1", "r", "a"), Identity("2", "r", "b"));
            var owned := OwnedAfter(h, current, transaction.candidate);
            && PreconditionProblem(h, start, current, transaction.candidate, Some(transaction)).None?
            && ValidShape(owned)
            && ManifestProblem(h, ApplyAll(start, Steps(h, current, transaction.candidate, "b")), owned).Some?
  {
    var h := Host(s => s, "m", s => s, s => s, true);
    var current := [InstalledFile(Binary, "a"), InstalledFile(Foreign("f"), "x")];
    var start: Files := map[Binary := "b", Foreign("f") := "x"];
    var transaction := Transaction(current, Identity("1", "r", "a"), Identity("2", "r", "b"));
    var owned := OwnedAfter(h, current, transaction.candidate);
    hide Steps, ApplyAll;
    assert PathsOf(current) == [Binary, Foreign("f")];
    assert EntryProblem(h, start, current, 0) == Some(OwnedPathDrift(Binary));
    assert ProvesInterrupted(h, start, current, transaction.candidate, Some(transaction));
    assert PreconditionProblem(h, start, current, transaction.candidate, Some(transaction)).None?;
    assert current[1] in current && !Allowed(current[1].path) && !Retires(owned, current[1]);
    hide ManifestProblem, PreconditionProblem, ProvesInterrupted, Prospective, Retires, Listed;
    ProspectiveIsValid(current, transaction.candidate, "r", "b");
    ProspectiveIsShort(current, transaction.candidate, "r", "b");
    CompletionMatchesManifest(h, start, current, transaction.candidate, "b", Some(transaction));
  }

  // ----- recovery

  predicate StepPath(steps: seq<Step>, path: Path) {
    exists i :: 0 <= i < |steps| && steps[i].path == path
  }

  /** The steps decide every path they touch, whatever was there. */
  lemma {:induction false} StepsForget(a: Files, b: Files, steps: seq<Step>, path: Path)
    requires StepPath(steps, path) || ((path in a <==> path in b) && (path in a ==> a[path] == b[path]))
    ensures var x, y := ApplyAll(a, steps), ApplyAll(b, steps);
            (path in x <==> path in y) && (path in x ==> x[path] == y[path])
  {
    if steps != [] {
      var init, last := steps[..|steps| - 1], steps[|steps| - 1];
      if last.path != path {
        if StepPath(steps, path) {
          var i :| 0 <= i < |steps| && steps[i].path == path;
          assert init[i].path == path;
        }
        StepsForget(a, b, init, path);
      }
    }
  }

  lemma {:induction false} UntouchedByPrefix(files: Files, steps: seq<Step>, k: nat, path: Path)
    requires k <= |steps| && !StepPath(steps, path)
    ensures var after := ApplyAll(files, steps[..k]);
            (path in after <==> path in files) && (path in after ==> after[path] == files[path])
  {
    if k > 0 {
      UntouchedByPrefix(files, steps, k - 1, path);
      ApplyNext(files, steps, k - 1);
      assert steps[k - 1].path != path;
    }
  }

  /** Starting over after a crash ends where an uninterrupted attempt would have. */
  lemma RestartConverges(files: Files, steps: seq<Step>, k: nat)
    requires k <= |steps|
    ensures ApplyAll(ApplyAll(files, steps[..k]), steps) == ApplyAll(files, steps)
  {
    hide ApplyAll, StepPath;
    var crashed := ApplyAll(files, steps[..k]);
    var x, y := ApplyAll(crashed, steps), ApplyAll(files, steps);
    forall path: Path ensures (path in x <==> path in y) && (path in x ==> x[path] == y[path]) {
      if !StepPath(steps, path) { UntouchedByPrefix(files, steps, k, path); }
      StepsForget(crashed, files, steps, path);
    }
    assert x.Keys == y.Keys;
    assert x == y;
  }

  function Max(a: nat, b: nat): nat {
    if a < b then b else a
  }

  /** A second attempt that stops adds nothing but what lies beyond the first. */
  lemma TwoCrashesAreOne(h: Host, start: Files, current: seq<InstalledFile>, identity: Identity, artifact: string,
                         a: nat, b: nat)
    requires a <= |Steps(h, current, identity, artifact)| && b <= |Steps(h, current, identity, artifact)|
    ensures var steps := Steps(h, current, identity, artifact);
            ApplyAll(ApplyAll(start, steps[..a]), steps[..b]) == ApplyAll(start, steps[..Max(a, b)])
  {
    hide ApplyAll, Steps, Listed;
    var steps := Steps(h, current, identity, artifact);
    var first := ApplyAll(start, steps[..a]);
    var x, y := ApplyAll(first, steps[..b]), ApplyAll(start, steps[..Max(a, b)]);
    assert forall step :: step in steps[..Max(a, b)] <==> step in steps[..a] || step in steps[..b] by {
      PrefixMembers(steps, a, b);
    }
    forall path: Path ensures (path in x <==> path in y) && (path in x ==> x[path] == y[path]) {
      FilesAtStep(h, start, current, identity, artifact, a, path);
      FilesAtStep(h, first, current, identity, artifact, b, path);
      FilesAtStep(h, start, current, identity, artifact, Max(a, b), path);
    }
    assert x.Keys == y.Keys;
    assert x == y;
  }

  lemma PrefixMembers(steps: seq<Step>, a: nat, b: nat)
    requires a <= |steps| && b <= |steps|
    ensures forall step :: step in steps[..Max(a, b)] <==> step in steps[..a] || step in steps[..b]
  {
    assert a <= b ==> steps[..b][..a] == steps[..a];
    assert b <= a ==> steps[..a][..b] == steps[..b];
  }

  /** The files after attempts that stopped at the given steps. */
  function AfterCrashes(files: Files, steps: seq<Step>, crashes: seq<nat>): Files
    requires forall i :: 0 <= i < |crashes| ==> crashes[i] <= |steps|
  {
    if crashes == [] then files
    else ApplyAll(AfterCrashes(files, steps, crashes[..|crashes| - 1]), steps[..crashes[|crashes| - 1]])
  }

  function Furthest(crashes: seq<nat>): (k: nat)
    ensures crashes != [] ==> k in crashes
    ensures crashes == [] ==> k == 0
  {
    if crashes == [] then 0
    else
      var before, last := Furthest(crashes[..|crashes| - 1]), crashes[|crashes| - 1];
      assert last in crashes;
      Max(before, last)
  }

  /** Any number of crashes comes to one, at the furthest step reached: the next attempt is accepted exactly when
      it would be after that one, and the attempt that completes leaves the files of a single attempt. */
  lemma {:induction false} CrashesAreRecovered(h: Host, start: Files, current: seq<InstalledFile>,
                                               transaction: Transaction, artifact: string, crashes: seq<nat>)
    requires ManifestHolds(h, start, current) && h.digest(artifact) == transaction.candidate.sha256
    requires transaction.priorOwned == current
    requires forall i :: 0 <= i < |crashes| ==> crashes[i] <= |Steps(h, current, transaction.candidate, artifact)|
    ensures var steps, k := Steps(h, current, transaction.candidate, artifact), Furthest(crashes);
            var files := AfterCrashes(start, steps, crashes);
            && k <= |steps| && files == ApplyAll(start, steps[..k])
            && (PreconditionProblem(h, files, current, transaction.candidate, Some(transaction)).None? <==>
                || WrittenAsListed(h, current, transaction.candidate, artifact, k)
                || Evident(h, start, current, transaction.candidate, k))
            && ApplyAll(files, steps) == ApplyAll(start, steps)
  {
    hide ApplyAll, Steps, ManifestHolds, PreconditionProblem, WrittenAsListed, Evident;
    var steps, k := Steps(h, current, transaction.candidate, artifact), Furthest(crashes);
    if crashes == [] {
      assert steps[..0] == [];
      ApplyNone(start);
    } else {
      var n := |crashes| - 1;
      CrashesAreRecovered(h, start, current, transaction, artifact, crashes[..n]);
      TwoCrashesAreOne(h, start, current, transaction.candidate, artifact, Furthest(crashes[..n]), crashes[n]);
    }
    CrashIsAcceptedExactly(h, start, current, transaction, transaction.candidate, artifact, k);
    RestartConverges(start, steps, k);
  }

  // ----- going forward and back

  /** Each path is as at the start, or as the candidate or the prior release writes it. */
  ghost predicate PartWay(h: Host, start: Files, files: Files, transaction: Transaction, prior: string,
                          candidate: string) {
    forall path: Path :: PathPartWay(h, start, files, transaction, prior, candidate, path)
  }

  predicate PathPartWay(h: Host, start: Files, files: Files, transaction: Transaction, prior: string,
                        candidate: string, path: Path) {
    || (path in files && Written(h, transaction.candidate, candidate, path) == Some(files[path]))
    || (path in files && Written(h, transaction.prior, prior, path) == Some(files[path]))
    || ((path in files <==> path in start) && (path in files ==> files[path] == start[path]))
  }

  /** The manifest lists the prior release as it is written, and any release by the digest in its path. */
  ghost predicate RecordsPrior(h: Host, current: seq<InstalledFile>, transaction: Transaction, prior: string) {
    && (forall f :: f in current && f.path.Release? ==> f.sha256 == f.path.digest)
    && (forall f :: f in current && Fixed(f.path) ==>
                      Written(h, transaction.prior, prior, f.path).Some?
                      && f.sha256 == h.digest(Written(h, transaction.prior, prior, f.path).value))
  }

  lemma PartWayEntry(h: Host, start: Files, files: Files, current: seq<InstalledFile>, transaction: Transaction,
                     prior: string, candidate: string, f: InstalledFile)
    requires EntryHolds(h, start, f) && RecordsPrior(h, current, transaction, prior) && f in current
    requires h.digest(candidate) == transaction.candidate.sha256 && h.digest(prior) == transaction.prior.sha256
    requires PathPartWay(h, start, files, transaction, prior, candidate, f.path)
    ensures PriorOrCandidate(h, files, f, transaction.candidate) <==>
            f.path in files && (f.path.Settings? ==> h.rootOwnsSettings && h.digest(files[f.path]) == f.sha256)
  {}

  lemma PartWayKeepsStructure(h: Host, start: Files, files: Files, current: seq<InstalledFile>,
                              transaction: Transaction, prior: string, candidate: string)
    requires ManifestHolds(h, start, current) && PartWay(h, start, files, transaction, prior, candidate)
    ensures Structured(h, files, current)
  {
    hide Listed, DistinctPaths;
    assert PathPartWay(h, start, files, transaction, prior, candidate, Marker);
    assert PathPartWay(h, start, files, transaction, prior, candidate, Settings);
    assert forall f :: f in current ==> EntryHolds(h, start, f);
  }

  /** Whatever attempts to go on and to go back have left, the next one, either way, is accepted exactly when no
      listed file has drifted, or none is missing and listed settings are root's and unedited. */
  lemma PartWayIsAcceptedExactly(h: Host, start: Files, files: Files, current: seq<InstalledFile>,
                                 transaction: Transaction, identity: Identity, prior: string, candidate: string)
    requires ManifestHolds(h, start, current) && RecordsPrior(h, current, transaction, prior)
    requires h.digest(candidate) == transaction.candidate.sha256 && h.digest(prior) == transaction.prior.sha256
    requires transaction.priorOwned == current && (identity == transaction.candidate || identity == transaction.prior)
    requires PartWay(h, start, files, transaction, prior, candidate)
    ensures PreconditionProblem(h, files, current, identity, Some(transaction)).None?
       <==> || (forall f :: f in current ==> EntryHolds(h, files, f))
            || (forall f :: f in current ==>
                  f.path in files && (f.path.Settings? ==> h.rootOwnsSettings && h.digest(files[f.path]) == f.sha256))
  {
    hide Listed, DistinctPaths, MarkerProblem, EntryHolds, PriorOrCandidate, PreconditionProblem, PathPartWay,
         RecordsPrior, Structured;
    PartWayKeepsStructure(h, start, files, current, transaction, prior, candidate);
    AcceptedExactly(h, files, current, transaction, identity);
    forall f | f in current
      ensures PriorOrCandidate(h, files, f, transaction.candidate) <==>
              f.path in files && (f.path.Settings? ==> h.rootOwnsSettings && h.digest(files[f.path]) == f.sha256) {
      PartWayEntry(h, start, files, current, transaction, prior, candidate, f);
    }
  }

  /** An attempt that stopped before any removal: going back or going on. */
  datatype Attempt = Attempt(back: bool, stop: nat)

  function AfterAttempts(h: Host, start: Files, transaction: Transaction, prior: string, candidate: string,
                         attempts: seq<Attempt>): Files
    requires forall i :: 0 <= i < |attempts| ==> attempts[i].stop <= 4
  {
    if attempts == [] then start
    else
      var last := attempts[|attempts| - 1];
      var writes := if last.back then Writes(h, transaction.prior, prior)
                    else Writes(h, transaction.candidate, candidate);
      ApplyAll(AfterAttempts(h, start, transaction, prior, candidate, attempts[..|attempts| - 1]), writes[..last.stop])
  }

  lemma {:induction false} AttemptsStayPartWay(h: Host, start: Files, transaction: Transaction, prior: string,
                                               candidate: string, attempts: seq<Attempt>)
    requires forall i :: 0 <= i < |attempts| ==> attempts[i].stop <= 4
    ensures PartWay(h, start, AfterAttempts(h, start, transaction, prior, candidate, attempts), transaction, prior,
            candidate)
  {
    hide ApplyAll, Writes, Written;
    if attempts != [] {
      var last := attempts[|attempts| - 1];
      var before := AfterAttempts(h, start, transaction, prior, candidate, attempts[..|attempts| - 1]);
      var after := AfterAttempts(h, start, transaction, prior, candidate, attempts);
      var identity := if last.back then transaction.prior else transaction.candidate;
      var artifact := if last.back then prior else candidate;
      AttemptsStayPartWay(h, start, transaction, prior, candidate, attempts[..|attempts| - 1]);
      forall path: Path ensures PathPartWay(h, start, after, transaction, prior, candidate, path) {
        assert PathPartWay(h, start, before, transaction, prior, candidate, path);
        FirstWrites(h, before, identity, artifact, last.stop, path);
        WrittenBySome(h, identity, artifact, last.stop, path);
      }
    }
  }

  lemma WrittenBySome(h: Host, identity: Identity, artifact: string, k: nat, path: Path)
    ensures WrittenBy(identity, k, path) ==> Written(h, identity, artifact, path).Some?
  {}

  /** From files that are all there and unedited, any number of attempts on and back that stop before a removal
      leaves the next one accepted, either way, exactly when all listed files are root's or none of them has drifted;
      if it is accepted and completes, its files are those of the manifest it returns. */
  lemma AttemptsAreRecovered(h: Host, start: Files, current: seq<InstalledFile>, transaction: Transaction,
                             prior: string, candidate: string, attempts: seq<Attempt>, back: bool)
    requires ManifestHolds(h, start, current) && RecordsPrior(h, current, transaction, prior)
    requires forall f :: f in current ==> f.path in start && h.digest(start[f.path]) == f.sha256
    requires h.digest(candidate) == transaction.candidate.sha256 && h.digest(prior) == transaction.prior.sha256
    requires transaction.priorOwned == current
    requires forall i :: 0 <= i < |attempts| ==> attempts[i].stop <= 4
    ensures var files := AfterAttempts(h, start, transaction, prior, candidate, attempts);
            var identity := if back then transaction.prior else transaction.candidate;
            var artifact := if back then prior else candidate;
            var accepted := PreconditionProblem(h, files, current, identity, Some(transaction)).None?;
            && (accepted <==> RootOwnsAll(h, current) || forall f :: f in current ==> EntryHolds(h, files, f))
            && (accepted && ValidShape(OwnedAfter(h, current, identity)) ==>
                  ManifestProblem(h, ApplyAll(files, Steps(h, current, identity, artifact)),
                                  OwnedAfter(h, current, identity)).None?)
  {
    hide Listed, DistinctPaths, EntryHolds, ManifestProblem, PreconditionProblem, RecordsPrior, ApplyAll, Steps,
         Prospective, Retires;
    var files := AfterAttempts(h, start, transaction, prior, candidate, attempts);
    var identity := if back then transaction.prior else transaction.candidate;
    var artifact := if back then prior else candidate;
    AttemptsStayPartWay(h, start, transaction, prior, candidate, attempts);
    forall f | f in current ensures f.path in files && (f.path.Settings? ==> h.digest(files[f.path]) == f.sha256) {
      assert PathPartWay(h, start, files, transaction, prior, candidate, f.path);
    }
    PartWayIsAcceptedExactly(h, start, files, current, transaction, identity, prior, candidate);
    if && PreconditionProblem(h, files, current, identity, Some(transaction)).None?
       && ValidShape(OwnedAfter(h, current, identity)) {
      PartWayKeepsStructure(h, start, files, current, transaction, prior, candidate);
      assert forall f :: f in current ==> Allowed(f.path);
      CompletionMatchesManifest(h, files, current, identity, artifact, Some(transaction));
    }
  }

  /** The new manifest records for the selected release the digest its path carries. */
  lemma ReleaseEntriesCarryDigest(current: seq<InstalledFile>, identity: Identity, revisionSha: string,
                                  checksumSha: string)
    requires forall f :: f in current && f.path.Release? ==> f.sha256 == f.path.digest
    ensures forall f :: f in Prospective(current, identity, revisionSha, checksumSha) && f.path.Release? ==>
                          f.sha256 == f.path.digest
  {
    hide Prospective;
    forall f | f in Prospective(current, identity, revisionSha, checksumSha) && f.path.Release?
      ensures f.sha256 == f.path.digest {
      ProspectiveMembers(current, identity, revisionSha, checksumSha, f);
    }
  }
}
