/**
 The stable-release publication protocol of scripts/stable_release.py.

 One run drives a (release, remote tag, local tag) triple through a backend whose every call may
 fail.  What the backend answers to its n-th call is `plan(n)`, so a statement about a Backend
 built with an arbitrary plan is a statement about every run and every ambiguous outcome.
*/
module StableRelease {
  import opened Prelude

  /** What a lookup of the release ID finds.  `Altered` passes neither the draft nor the published
      validation; `live` says whether it is nevertheless public. */
  datatype Release = Draft | Published | Altered(live: bool) | Absent

  datatype Tag = NoTag | Canonical | Foreign

  datatype World = World(release: Release, remote: Tag, local: Tag)

  /** How a call that changes something ends: done and returned, done but raised, or never done. */
  datatype Outcome = Done | DoneButRaised | NotDone

  /** The backend's answer to one call. `alters` makes a publication come out changed. */
  datatype Reply = Reply(outcome: Outcome, readRaises: bool, alters: bool)

  datatype Action = EnsureLocalTag | PushTag | PublishRelease | DeleteRelease | DeleteRemoteTag | DiscardLocalTag

  /** The world after an action takes effect, or None when the action is refused outright. */
  function Effect(a: Action, w: World, alters: bool): Option<World> {
    match a
    case EnsureLocalTag => if w.local == Foreign then None else Some(w.(local := Canonical))
    case PushTag => if w.local != Canonical || w.remote == Foreign then None else Some(w.(remote := Canonical))
    case PublishRelease =>
      (match w.release
       case Draft => Some(w.(release := if alters then Altered(true) else Published))
       case Published => Some(w)
       case Altered(_) => Some(w.(release := Altered(true)))
       case Absent => None)
    case DeleteRelease => if w.release == Absent then None else Some(w.(release := Absent))
    case DeleteRemoteTag => if w.remote == Canonical then Some(w.(remote := NoTag)) else None
    case DiscardLocalTag => if w.local == Foreign then None else Some(w.(local := NoTag))
  }

  /** Whether anything public carries the release. */
  predicate Live(r: Release) {
    r == Published || r == Altered(true)
  }

  /** A public release is always reachable through the canonical tag. */
  predicate Safe(w: World) {
    Live(w.release) ==> w.remote == Canonical
  }

  /** The step discipline: publish only under the canonical tag, drop the tag only when nothing is
      public, never touch a foreign tag. */
  predicate Lawful(w: World, v: World) {
    && (Live(v.release) && !Live(w.release) ==> w.release == Draft || w.release == Altered(false))
    && (Live(v.release) && !Live(w.release) ==> w.remote == Canonical && v.remote == Canonical)
    && (w.remote == Canonical && v.remote != Canonical
       ==> v.remote == NoTag && !Live(w.release) && v.release == w.release)
    && (w.remote == Foreign ==> v.remote == Foreign)
    && (w.local == Foreign ==> v.local == Foreign)
  }

  ghost predicate AllLawful(h: seq<World>) {
    forall i {:trigger h[i]} :: 0 <= i < |h| - 1 ==> Lawful(h[i], h[i + 1])
  }

  /** Every world a lawful history passes through is safe as soon as its first one is. */
  lemma {:induction false} LawfulHistoryIsSafe(h: seq<World>, i: nat)
    requires i < |h| && Safe(h[0]) && AllLawful(h)
    ensures Safe(h[i])
  {
    if i > 0 {
      LawfulHistoryIsSafe(h, i - 1);
      assert Lawful(h[i - 1], h[i - 1 + 1]);
    }
  }

  /** No world any backend has ever passed through breaks the publication rule. */
  lemma {:induction false} NoUnsafeWorldEver(b: Backend)
    requires b.Valid() && Safe(b.history[0])
    ensures forall w :: w in b.history && w.release in {Published, Altered(true)} ==> w.remote == Canonical
  {
    forall i | 0 <= i < |b.history|
      ensures Safe(b.history[i])
    {
      LawfulHistoryIsSafe(b.history, i);
    }
  }

  /** A state from which a run may continue: a draft, tagged or not, or the finished publication. */
  predicate Resumable(w: World) {
    || (w.release == Draft && w.remote != Foreign)
    || (w.release == Published && w.remote == Canonical)
  }

  datatype Cleanup = TagsRemoved | LocalTagLeft | ForeignTagKept

  /** The distinct ways a run raises, one per message. */
  datatype Failure =
    | ReadRaised
    | AssetsDiffer
    | NotResumable
    | LocalTagRefused
    | AmbiguousAfterPush
    | PushNotPublished(localRemoved: bool)
    | TagDiffersAfterPush
    | AmbiguousCompensation
    | ReleaseDrifted
    | TaggedDraftRetryable
    | TagDrifted
    | AmbiguousAfterCleanup
    | RetryableDraft(localRemoved: bool)
    | DriftedAfterCompensation
    | ReleaseMayRemain
    | RemovedTagAmbiguous
    | RemovedTagRemains
    | Rejected(cleanup: Cleanup)

  datatype Result = Accepted | Raised(failure: Failure)

  /** A change asked for, and whether the call raised. */
  datatype Attempt = Attempt(action: Action, raised: bool)

  /** What each message claims about the world it leaves behind and about the change attempted last. */
  predicate Truthful(f: Failure, w: World, last: Attempt) {
    match f
    case LocalTagRefused => last == Attempt(EnsureLocalTag, true)
    case AmbiguousAfterPush => last.action == PushTag
    case PushNotPublished(gone) =>
      w.release == Draft && w.remote == NoTag && (gone ==> w.local == NoTag) && last == Attempt(DiscardLocalTag, !gone)
    case TaggedDraftRetryable => w.release == Draft && w.remote == Canonical && last.action == DeleteRemoteTag
    case AmbiguousCompensation => w.release == Draft && last.action == DeleteRemoteTag
    case AmbiguousAfterCleanup => w.release == Draft && w.remote == NoTag && last.action == DiscardLocalTag
    case RetryableDraft(gone) =>
      w.release == Draft && w.remote == NoTag && (gone ==> w.local == NoTag) && last == Attempt(DiscardLocalTag, !gone)
    case ReleaseMayRemain => last.action == DeleteRelease
    case RemovedTagAmbiguous => w.release == Absent && last.action in {DeleteRelease, DeleteRemoteTag}
    case RemovedTagRemains => w.release == Absent && w.remote == Canonical && last.action == DeleteRemoteTag
    case Rejected(TagsRemoved) =>
      w.release == Absent && w.remote == NoTag && w.local == NoTag && last == Attempt(DiscardLocalTag, false)
    case Rejected(LocalTagLeft) => w.release == Absent && w.remote == NoTag && last == Attempt(DiscardLocalTag, true)
    case Rejected(ForeignTagKept) => w.release == Absent && w.remote == Foreign && last.action == DiscardLocalTag
    // Drift is somebody else's doing; without a third party these are never reported.
    case TagDiffersAfterPush => false
    case ReleaseDrifted => false
    case TagDrifted => false
    case DriftedAfterCompensation => false
    case _ => true
  }

  /** The messages of a run that removes the release it found. */
  predicate OfRejection(f: Failure) {
    f.ReleaseMayRemain? || f.RemovedTagAmbiguous? || f.RemovedTagRemains? || f.Rejected?
  }

  /** Those raised before anything is changed. */
  predicate OfRefusal(f: Failure) {
    f.ReadRaised? || f.AssetsDiffer? || f.NotResumable?
  }

  /** What a caller must know before it may attempt an action. */
  predicate Permitted(a: Action, w: World) {
    match a
    case PublishRelease => w.release != Absent ==> w.remote == Canonical
    case DeleteRemoteTag => !Live(w.release)
    case _ => true
  }

  /** The failures that report a state actually reached, rather than one that could not be read. */
  predicate Observed(f: Failure) {
    f.ReleaseMayRemain? || f.RemovedTagRemains? || f.TaggedDraftRetryable? || f.Rejected? || f.PushNotPublished?
        || f.RetryableDraft?
  }

  const CLEAN := Reply(Done, false, false)

  class Backend {
    const plan: nat -> Reply
    var world: World
    var calls: nat
    /** Every world since construction, the current one last. */
    ghost var history: seq<World>
    /** Every change asked for, in order. */
    ghost var attempts: seq<Attempt>

    ghost predicate Valid()
      reads this
    {
      |history| > 0 && history[|history| - 1] == world && AllLawful(history)
    }

    /** Reads raise nowhere. */
    ghost predicate Reliable() {
      forall i :: !plan(i).readRaises
    }

    /** No publication comes out altered. */
    ghost predicate Faithful() {
      forall i :: !plan(i).alters
    }

    ghost predicate CleanFrom(start: nat) {
      forall i :: start <= i ==> plan(i) == CLEAN
    }

    /** What the run says of the latest change is true. */
    ghost predicate Tells(f: Failure)
      reads this
    {
      OfRefusal(f) || (attempts != [] && Truthful(f, world, attempts[|attempts| - 1]))
    }

    ghost predicate Raises(call: int) {
      0 <= call && plan(call).readRaises
    }

    constructor (plan: nat -> Reply, world: World)
      ensures Valid() && this.plan == plan && this.world == world && calls == 0 && history == [world]
      ensures attempts == []
    {
      this.plan, this.world, this.calls, this.history := plan, world, 0, [world];
      this.attempts := [];
    }

    /** commit_timestamp: only whether it raised matters. */
    method CommitTimestamp() returns (raised: bool)
      modifies this`calls
      ensures calls == old(calls) + 1 && raised == plan(old(calls)).readRaises
    {
      raised := plan(calls).readRaises;
      calls := calls + 1;
    }

    /** A lookup of the remote tag; None stands for a raised exception. */
    method RemoteTag() returns (r: Option<Tag>)
      modifies this`calls
      ensures calls == old(calls) + 1
      ensures r == if plan(old(calls)).readRaises then None else Some(world.remote)
    {
      r := if plan(calls).readRaises then None else Some(world.remote);
      calls := calls + 1;
    }

    /** get_release: a missing release raises like any other failed request. */
    method GetRelease() returns (r: Option<Release>)
      modifies this`calls
      ensures calls == old(calls) + 1
      ensures r == if plan(old(calls)).readRaises || world.release == Absent then None else Some(world.release)
    {
      r := if plan(calls).readRaises || world.release == Absent then None else Some(world.release);
      calls := calls + 1;
    }

    /** get_release_optional: a missing release is an answer. */
    method GetReleaseOptional() returns (r: Option<Release>)
      modifies this`calls
      ensures calls == old(calls) + 1
      ensures r == if plan(old(calls)).readRaises then None else Some(world.release)
    {
      r := if plan(calls).readRaises then None else Some(world.release);
      calls := calls + 1;
    }

    /** Attempts one change and reports whether the call raised. */
    method Do(a: Action) returns (raised: bool)
      requires Valid() && Permitted(a, world)
      modifies this
      ensures Valid() && calls == old(calls) + 1 && history == old(history) + [world]
      ensures attempts == old(attempts) + [Attempt(a, raised)]
      ensures var reply := plan(old(calls)); var effect := Effect(a, old(world), reply.alters);
              && world == (if effect.Some? && reply.outcome != NotDone then effect.value else old(world))
              && raised == (effect.None? || reply.outcome != Done)
    {
      var reply := plan(calls);
      var effect := Effect(a, world, reply.alters);
      if effect.Some? && reply.outcome != NotDone {
        world := effect.value;
      }
      raised := effect.None? || reply.outcome != Done;
      calls := calls + 1;
      assert Lawful(old(world), world);
      history := history + [world];
      attempts := attempts + [Attempt(a, raised)];
    }
  }

  /** Deletes the release, up to three times, until a lookup proves it gone. */
  method RemoveRelease(b: Backend) returns (proven: bool)
    requires b.Valid()
    modifies b
    ensures b.Valid() && old(b.history) <= b.history && old(b.calls) <= b.calls
    ensures b.world == old(b.world) || b.world == old(b.world).(release := Absent)
    ensures proven ==> b.world.release == Absent
    ensures b.CleanFrom(old(b.calls)) ==> proven
    // Each deletion is followed by a lookup; the first that finds the release gone ends it, or the third.
    ensures var n := |b.attempts| - |old(b.attempts)|;
            && 1 <= n <= 3 && b.calls == old(b.calls) + 2 * n && (!proven ==> n == 3)
            && b.attempts[..|old(b.attempts)|] == old(b.attempts)
            && (forall k :: |old(b.attempts)| <= k < |b.attempts| ==> b.attempts[k].action == DeleteRelease)
            && (proven <==> b.world.release == Absent && !b.Raises(b.calls - 1))
            && (b.CleanFrom(old(b.calls)) ==> n == 1)
  {
    var attempts := 0;
    proven := false;
    while attempts < 3 && !proven
      invariant b.Valid() && old(b.history) <= b.history && old(b.calls) <= b.calls
      invariant b.world == old(b.world) || b.world == old(b.world).(release := Absent)
      invariant proven ==> b.world.release == Absent
      invariant b.CleanFrom(old(b.calls)) && attempts > 0 ==> proven
      invariant attempts <= 3 && (attempts == 0 ==> !proven) && b.calls == old(b.calls) + 2 * attempts
      invariant b.CleanFrom(old(b.calls)) ==> attempts <= 1
      invariant |b.attempts| == |old(b.attempts)| + attempts && b.attempts[..|old(b.attempts)|] == old(b.attempts)
      invariant forall k :: |old(b.attempts)| <= k < |b.attempts| ==> b.attempts[k].action == DeleteRelease
      invariant attempts > 0 ==> (proven <==> b.world.release == Absent && !b.Raises(b.calls - 1))
      decreases 3 - attempts
    {
      var _ := b.Do(DeleteRelease);
      var remaining := b.GetReleaseOptional();
      proven := remaining == Some(Absent);
      attempts := attempts + 1;
    }
  }

  /** Deletes the remote tag if it is the exact one; answers with the tag last read. */
  method RemoveExactTag(b: Backend) returns (tag: Option<Tag>)
    requires b.Valid() && b.world.release == Absent
    modifies b
    ensures b.Valid() && old(b.history) <= b.history && old(b.calls) <= b.calls
    ensures b.world == old(b.world) || (old(b.world.remote) == Canonical && b.world == old(b.world).(remote := NoTag))
    ensures tag.Some? ==> tag.value == b.world.remote
    ensures b.Reliable() ==> tag.Some?
    ensures b.CleanFrom(old(b.calls)) ==> tag.Some? && tag.value != Canonical
    ensures b.CleanFrom(old(b.calls)) ==>
              b.world.remote == if old(b.world.remote) == Canonical then NoTag else old(b.world.remote)
    // Nothing is attempted unless the exact tag was seen, and then its deletion is followed by another look.
    ensures if b.Raises(old(b.calls)) || old(b.world.remote) != Canonical
            then b.attempts == old(b.attempts) && b.calls == old(b.calls) + 1
            else |b.attempts| == |old(b.attempts)| + 1 && b.attempts[|old(b.attempts)|].action == DeleteRemoteTag
                 && b.attempts[..|old(b.attempts)|] == old(b.attempts) && b.calls == old(b.calls) + 3
    ensures tag.None? <==> b.Raises(b.calls - 1)
  {
    tag := b.RemoteTag();
    if tag == Some(Canonical) {
      var _ := b.Do(DeleteRemoteTag);
      tag := b.RemoteTag();
    }
  }

  /** Removes a rejected release and then, once its absence is observed, the exact tag. */
  method CompensateRejectedPublication(b: Backend) returns (f: Failure)
    requires b.Valid()
    modifies b
    ensures b.Valid() && old(b.history) <= b.history && old(b.calls) <= b.calls
    ensures OfRejection(f) && b.Tells(f)
    ensures f == RemovedTagAmbiguous ==> b.Raises(b.calls - 1)
    ensures b.world.release == old(b.world.release) || b.world.release == Absent
    ensures b.world.remote == old(b.world.remote) || (old(b.world.remote) == Canonical && b.world.remote == NoTag)
    ensures old(b.world.local) != Foreign ==> b.world.local != Foreign
    ensures b.Reliable() ==> Observed(f)
    // Without faults everything of ours goes, and the message says what was somebody else's.
    ensures b.CleanFrom(old(b.calls)) ==>
              && f == Rejected(if old(b.world.remote) == Foreign then ForeignTagKept
                               else if old(b.world.local) == Foreign then LocalTagLeft else TagsRemoved)
              && b.world == World(Absent, if old(b.world.remote) == Foreign then Foreign else NoTag,
                                  if old(b.world.local) == Foreign then Foreign else NoTag)
  {
    hide Backend.Valid, AllLawful, Effect;
    var proven := RemoveRelease(b);
    if !proven {
      return ReleaseMayRemain;
    }
    var tag := RemoveExactTag(b);
    if tag.None? {
      return RemovedTagAmbiguous;
    }
    if tag.value == Canonical {
      return RemovedTagRemains;
    }
    f := ReportRejection(b, tag.value);
  }

  /** The release is gone and the remote tag is not ours: drop the local tag and say what is left. */
  method ReportRejection(b: Backend, tag: Tag) returns (f: Failure)
    requires b.Valid() && b.world.release == Absent && tag == b.world.remote != Canonical
    modifies b
    ensures b.Valid() && old(b.history) <= b.history && old(b.calls) <= b.calls
    ensures f.Rejected? && b.Tells(f)
    ensures b.world == old(b.world).(local := b.world.local)
    ensures old(b.world.local) != Foreign ==> b.world.local != Foreign
    ensures b.CleanFrom(old(b.calls)) ==>
              && f.cleanup == (if tag == Foreign then ForeignTagKept
                               else if old(b.world.local) == Foreign then LocalTagLeft else TagsRemoved)
              && b.world.local == if old(b.world.local) == Foreign then Foreign else NoTag
  {
    var localRaised := b.Do(DiscardLocalTag);
    if tag == NoTag {
      return Rejected(if localRaised then LocalTagLeft else TagsRemoved);
    }
    return Rejected(ForeignTagKept);
  }

  /** What a fresh look asks for: the run ends, what was published is taken down or back, or there is more to do. */
  datatype Verdict = End(result: Result) | TakeDown | TakeBack | GoOn

  /** After a push: another tag is left alone. */
  method JudgePush(remote: Tag) returns (verdict: Verdict)
    ensures verdict == TakeBack <==> remote == NoTag
    ensures verdict == End(Raised(TagDiffersAfterPush)) <==> remote == Foreign
    ensures verdict == GoOn <==> remote == Canonical
  {
    if remote == NoTag { return TakeBack; }
    if remote != Canonical { return End(Raised(TagDiffersAfterPush)); }
    return GoOn;
  }

  /** After a publication. A release found under another tag, or found altered, is taken down, whoever did it. */
  method JudgePublication(release: Release, remote: Tag) returns (verdict: Verdict)
    requires release != Absent
    ensures verdict == TakeDown <==> remote in {NoTag, Foreign} || release in {Altered(true), Altered(false)}
    ensures verdict == End(Accepted) <==> remote == Canonical && release == Published
    ensures verdict == TakeBack <==> remote == Canonical && release == Draft
  {
    if remote != Canonical || release.Altered? { return TakeDown; }
    if release == Published { return End(Accepted); }
    return TakeBack;
  }

  /** After the tag was deleted: the publication that came through after all is accepted, and drift is not touched. */
  method JudgeTakenBack(release: Release, remote: Tag) returns (verdict: Verdict)
    ensures verdict == End(Accepted) <==> remote == Canonical && release == Published
    ensures verdict == End(Raised(ReleaseDrifted)) <==>
              release in {Altered(true), Altered(false), Absent} || (release == Published && remote != Canonical)
    ensures verdict == End(Raised(TaggedDraftRetryable)) <==> remote == Canonical && release == Draft
    ensures verdict == End(Raised(TagDrifted)) <==> remote == Foreign && release == Draft
    ensures verdict == GoOn <==> remote == NoTag && release == Draft
  {
    if remote == Canonical && release == Published { return End(Accepted); }
    if release != Draft { return End(Raised(ReleaseDrifted)); }
    if remote == Canonical { return End(Raised(TaggedDraftRetryable)); }
    if remote != NoTag { return End(Raised(TagDrifted)); }
    return GoOn;
  }

  /** After the local tag was dropped too. */
  method JudgeCleanedUp(release: Release, remote: Tag, cleanupRaised: bool) returns (r: Result)
    ensures r == Accepted <==> remote == Canonical && release == Published
    ensures remote == NoTag && release == Draft ==> r == Raised(RetryableDraft(!cleanupRaised))
    ensures r == Raised(DriftedAfterCompensation) <==>
              && !(remote == Canonical && release == Published)
              && !(remote == NoTag && release == Draft)
  {
    if remote == Canonical && release == Published { return Accepted; }
    if remote == NoTag && release == Draft { return Raised(RetryableDraft(!cleanupRaised)); }
    return Raised(DriftedAfterCompensation);
  }

  /** One publication run against a verified draft; `assetsMatch` is the outcome of comparing the
      downloaded bytes with the release inventory. */
  method PublishVerifiedDraft(b: Backend, assetsMatch: bool) returns (r: Result)
    requires b.Valid()
    modifies b
    ensures b.Valid() && old(b.history) <= b.history && old(b.calls) <= b.calls
    ensures r.Accepted? ==> b.world.release == Published && b.world.remote == Canonical
    ensures r.Raised? ==> b.Tells(r.failure)
    ensures old(b.world.release) == Published ==> b.history == old(b.history)
    // Which of the refusals, and when what was found is taken down instead.
    ensures var c := old(b.calls);
            var read := !b.Raises(c) && !b.Raises(c + 1) && !b.Raises(c + 2);
            && (r == Raised(ReadRaised) <==> !read || old(b.world.release) == Absent)
            && (read && old(b.world.release).Altered? <==> r.Raised? && OfRejection(r.failure) && read
                                                           && old(b.world.release) != Draft)
            && (r == Raised(AssetsDiffer) <==> read && !assetsMatch && old(b.world.release) in {Draft, Published})
            && (r == Raised(NotResumable) <==>
                  && read && assetsMatch
                  && (|| (old(b.world.release) == Draft && old(b.world.remote) == Foreign)
                      || (old(b.world.release) == Published && old(b.world.remote) != Canonical)))
    ensures r.Raised? && OfRefusal(r.failure) ==> b.attempts == old(b.attempts) && b.world == old(b.world)
    ensures b.Reliable() && assetsMatch ==>
              (r.Accepted? <==> b.world.release == Published && b.world.remote == Canonical)
    ensures b.Reliable() && r.Raised? && assetsMatch ==>
              Observed(r.failure) || b.world == old(b.world).(local := b.world.local)
    ensures b.Reliable() && b.Faithful() && Resumable(old(b.world)) ==> Resumable(b.world)
    ensures old(b.world.local) != Foreign ==> b.world.local != Foreign
    ensures b.CleanFrom(old(b.calls)) ==>
              (r.Accepted? <==> assetsMatch && Resumable(old(b.world))
                                && (old(b.world.local) != Foreign || old(b.world.release) == Published))
    // Without faults a draft ends published under its tag, and an altered release is gone with all of ours.
    ensures b.CleanFrom(old(b.calls)) && r.Accepted? ==>
              b.world == if old(b.world.release) == Published then old(b.world)
                         else World(Published, Canonical, Canonical)
    ensures b.CleanFrom(old(b.calls)) && old(b.world.release).Altered?
            && old(b.world.remote) != Foreign && old(b.world.local) != Foreign ==>
              r == Raised(Rejected(TagsRemoved)) && b.world == World(Absent, NoTag, NoTag)
  {
    hide AllLawful;
    var timestampRaised := b.CommitTimestamp();
    if timestampRaised { return Raised(ReadRaised); }
    var remote := b.RemoteTag();
    if remote.None? { return Raised(ReadRaised); }
    var release := b.GetRelease();
    if release.None? { return Raised(ReadRaised); }
    if release.value.Altered? {
      var f := CompensateRejectedPublication(b);
      return Raised(f);
    }
    if !assetsMatch { return Raised(AssetsDiffer); }
    if remote.value == Canonical && release.value == Published { return Accepted; }
    if remote.value == Foreign || release.value == Published { return Raised(NotResumable); }
    r := PublishDraft(b, remote.value == NoTag);
  }

  /** The draft and its tag are as they must be: tag it if it is not tagged yet, then publish. */
  method PublishDraft(b: Backend, pushRequired: bool) returns (r: Result)
    requires b.Valid() && b.world.release == Draft && b.world.remote == if pushRequired then NoTag else Canonical
    modifies b
    ensures b.Valid() && old(b.history) <= b.history && old(b.calls) <= b.calls
    ensures r.Accepted? ==> b.world.release == Published && b.world.remote == Canonical
    ensures r.Raised? ==> b.Tells(r.failure) && !OfRefusal(r.failure)
    ensures b.Reliable() ==> (r.Accepted? <==> b.world.release == Published && b.world.remote == Canonical)
    ensures b.Reliable() && r.Raised? ==> Observed(r.failure) || b.world == old(b.world).(local := b.world.local)
    ensures b.Reliable() && b.Faithful() ==> Resumable(b.world)
    ensures old(b.world.local) != Foreign ==> b.world.local != Foreign
    ensures r == Raised(LocalTagRefused) <==> old(b.world.local) == Foreign || b.plan(old(b.calls)).outcome != Done
    ensures b.CleanFrom(old(b.calls)) ==> (r.Accepted? <==> old(b.world.local) != Foreign)
    ensures b.CleanFrom(old(b.calls)) && r.Accepted? ==> b.world == World(Published, Canonical, Canonical)
  {
    hide AllLawful;
    var localRaised := b.Do(EnsureLocalTag);
    if localRaised { return Raised(LocalTagRefused); }
    if pushRequired {
      var early := PushExactTag(b);
      if early.Some? { return Raised(early.value); }
    }
    r := PublishUnderTag(b);
  }

  /** Publishes a tagged draft and decides from fresh reads what happened. */
  method PublishUnderTag(b: Backend) returns (r: Result)
    requires b.Valid() && b.world == World(Draft, Canonical, Canonical)
    modifies b
    ensures b.Valid() && old(b.history) <= b.history && old(b.calls) <= b.calls
    ensures r.Accepted? ==> b.world.release == Published && b.world.remote == Canonical
    ensures r.Raised? ==> b.Tells(r.failure) && !OfRefusal(r.failure) && r.failure != LocalTagRefused
    ensures b.Reliable() ==> (r.Accepted? <==> b.world.release == Published)
    // Both rereads succeed: published is accepted, an altered release removed, a draft taken back; else removed.
    ensures var c := old(b.calls);
            var release := Effect(PublishRelease, old(b.world), b.plan(c).alters).value.release;
            var published := if b.plan(c).outcome == NotDone then Draft else release;
            var read := !b.Raises(c + 1) && !b.Raises(c + 2);
            && (r.Accepted? <==> read && published == Published)
            && (r.Raised? && OfRejection(r.failure) <==> !read || published.Altered?)
    ensures b.Reliable() && r.Raised? ==> Observed(r.failure)
    ensures b.Reliable() && b.Faithful() ==> Resumable(b.world)
    ensures b.world.local != Foreign
    ensures b.CleanFrom(old(b.calls)) ==> r.Accepted? && b.world == World(Published, Canonical, Canonical)
  {
    var _ := b.Do(PublishRelease);
    var release := b.GetRelease();
    var remote: Option<Tag> := None;
    if release.Some? {
      remote := b.RemoteTag();
    }
    var verdict := TakeDown;
    if remote.Some? {
      verdict := JudgePublication(release.value, remote.value);
    }
    if verdict == TakeDown {
      var f := CompensateRejectedPublication(b);
      return Raised(f);
    }
    if verdict == TakeBack {
      r := CompensateUnpublished(b);
    } else {
      r := verdict.result;
    }
  }

  /** Pushes the local tag and decides from a fresh read whether it arrived. */
  method PushExactTag(b: Backend) returns (failure: Option<Failure>)
    requires b.Valid() && b.world.release == Draft && b.world.remote == NoTag && b.world.local == Canonical
    modifies b
    ensures b.Valid() && old(b.history) <= b.history && old(b.calls) <= b.calls
    ensures b.world.release == Draft && b.world.remote != Foreign && b.world.local != Foreign
    ensures failure.Some? ==> b.Tells(failure.value) && !OfRefusal(failure.value) && !OfRejection(failure.value)
    ensures failure.None? ==> b.world == old(b.world).(remote := Canonical)
    ensures failure == Some(AmbiguousAfterPush) <==> b.Raises(old(b.calls) + 1)
    ensures !b.Raises(old(b.calls) + 1) ==>
              && (failure.None? <==> b.plan(old(b.calls)).outcome != NotDone)
              && (failure.Some? ==> failure.value.PushNotPublished?)
    ensures b.Reliable() && failure.Some? ==> failure.value.PushNotPublished?
    ensures b.CleanFrom(old(b.calls)) ==> failure.None?
  {
    var _ := b.Do(PushTag);
    var remote := b.RemoteTag();
    if remote.None? { return Some(AmbiguousAfterPush); }
    var verdict := JudgePush(remote.value);
    if verdict == TakeBack {
      var raised := b.Do(DiscardLocalTag);
      return Some(PushNotPublished(!raised));
    }
    if verdict != GoOn { return Some(TagDiffersAfterPush); }
    return None;
  }

  /** The release and the remote tag as they are now, or nothing when either could not be read. */
  method LookAgain(b: Backend) returns (seen: Option<(Release, Tag)>)
    modifies b`calls
    ensures b.calls == old(b.calls) + if b.Raises(old(b.calls)) then 1 else 2
    ensures seen == if b.Raises(old(b.calls)) || b.Raises(old(b.calls) + 1) || b.world.release == Absent then None
                    else Some((b.world.release, b.world.remote))
  {
    var tag := b.RemoteTag();
    if tag.None? { return None; }
    var release := b.GetRelease();
    if release.None? { return None; }
    seen := Some((release.value, tag.value));
  }

  /** The release stayed a draft: take the pushed tag back and report the exact state reached. */
  method CompensateUnpublished(b: Backend) returns (r: Result)
    requires b.Valid() && b.world.release == Draft && b.world.remote == Canonical && b.world.local == Canonical
    modifies b
    ensures b.Valid() && old(b.history) <= b.history && old(b.calls) <= b.calls
    ensures b.world.release == Draft && b.world.remote != Foreign && b.world.local != Foreign
    ensures r.Raised? && b.Tells(r.failure) && !OfRefusal(r.failure) && !OfRejection(r.failure)
    ensures r.failure != LocalTagRefused
    ensures b.Reliable() ==> Observed(r.failure)
    // Two looks after the deletion, and two more after the local cleanup.
    ensures var c := old(b.calls);
            if b.Raises(c + 1) || b.Raises(c + 2) then r.failure == AmbiguousCompensation
            else if b.plan(c).outcome == NotDone then r.failure == TaggedDraftRetryable
            else if b.Raises(c + 4) || b.Raises(c + 5) then r.failure == AmbiguousAfterCleanup
            else r.failure == RetryableDraft(b.plan(c + 3).outcome == Done)
    ensures b.CleanFrom(old(b.calls)) ==> r.failure == RetryableDraft(true)
  {
    hide AllLawful;
    var _ := b.Do(DeleteRemoteTag);
    var seen := LookAgain(b);
    if seen.None? { return Raised(AmbiguousCompensation); }
    var verdict := JudgeTakenBack(seen.value.0, seen.value.1);
    if verdict.End? { return verdict.result; }
    r := CleanUpLocally(b);
  }

  /** The pushed tag is taken back: drop the local one and look once more. */
  method CleanUpLocally(b: Backend) returns (r: Result)
    requires b.Valid() && b.world == World(Draft, NoTag, Canonical)
    modifies b
    ensures b.Valid() && old(b.history) <= b.history && old(b.calls) <= b.calls
    ensures b.world.release == Draft && b.world.remote == NoTag && b.world.local != Foreign
    ensures r.Raised? && b.Tells(r.failure)
    ensures var c := old(b.calls);
            r.failure == if b.Raises(c + 1) || b.Raises(c + 2) then AmbiguousAfterCleanup
                         else RetryableDraft(b.plan(c).outcome == Done)
  {
    var cleanupRaised := b.Do(DiscardLocalTag);
    var seen := LookAgain(b);
    if seen.None? { return Raised(AmbiguousAfterCleanup); }
    r := JudgeCleanedUp(seen.value.0, seen.value.1, cleanupRaised);
  }

  /** confirm_published: accepts exactly the finished publication. */
  method ConfirmPublished(b: Backend) returns (confirmed: bool)
    requires b.Valid()
    modifies b`calls
    ensures confirmed ==> b.world.release == Published && b.world.remote == Canonical
    ensures b.Reliable() ==> (confirmed <==> b.world.release == Published && b.world.remote == Canonical)
  {
    var remote := b.RemoteTag();
    if remote != Some(Canonical) { return false; }
    var release := b.GetRelease();
    confirmed := release == Some(Published);
  }

  /** Any number of runs with unreliable changes, whether or not their assets matched, then one more: the last one
      publishes as soon as it meets no fault itself, however the earlier ones ended. */
  method PublishWithRetries(b: Backend, failedRuns: seq<bool>) returns (last: Result, ghost lastCall: nat)
    requires b.Valid() && b.Reliable() && b.Faithful()
    requires Resumable(b.world) && b.world.local != Foreign
    modifies b
    ensures b.Valid() && old(b.history) <= b.history
    ensures Resumable(b.world)
    ensures b.CleanFrom(lastCall) ==> last.Accepted? && b.world.release == Published && b.world.remote == Canonical
  {
    for run := 0 to |failedRuns|
      invariant b.Valid() && old(b.history) <= b.history
      invariant Resumable(b.world) && b.world.local != Foreign
    {
      var _ := PublishVerifiedDraft(b, failedRuns[run]);
    }
    lastCall := b.calls;
    last := PublishVerifiedDraft(b, true);
  }
}
