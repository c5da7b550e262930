/**
 The ownership manifest of src/install.rs and how an activation changes it: the three fixed entries are
 replaced, the selected release moves to the back, and at most three releases stay.
*/
module Ownership {
  import opened Prelude

  const MAX_ACCEPTED_APPLICATION_RELEASES: nat := 3
  const MAX_OWNED_FILES: nat := 64

  /** The six paths with a name of their own, the path of a release, one below the releases directory that is not
      of that shape, and any other well-shaped path. */
  datatype Path =
    | Binary | Revision | Checksum | Service | Settings | Marker
    | Release(version: string, digest: string)
    | Stray(name: string)
    | Foreign(name: string)

  datatype InstalledFile = InstalledFile(path: Path, sha256: string)

  datatype Identity = Identity(version: string, revision: string, sha256: string)

  datatype Error = InvalidOwnershipManifest | OwnedPathDrift(path: Path) | SettingsNotOwned | ChecksumMismatch

  predicate Fixed(path: Path) {
    path.Binary? || path.Revision? || path.Checksum?
  }

  ghost predicate DistinctPaths(files: seq<InstalledFile>) {
    forall i, j :: 0 <= i < j < |files| ==> files[i].path != files[j].path
  }

  predicate InReleases(path: Path) {
    path.Release? || path.Stray?
  }

  /** allowed_owned_path */
  predicate Allowed(path: Path) {
    !path.Stray? && !path.Foreign?
  }

  /** validate_application_ownership: it does not ask whether the paths are allowed. */
  ghost predicate ValidShape(files: seq<InstalledFile>) {
    0 < |files| <= MAX_OWNED_FILES && DistinctPaths(files)
  }

  /** What verify_owned_manifest asks of the manifest itself. */
  ghost predicate ValidOwnership(files: seq<InstalledFile>) {
    ValidShape(files) && forall i :: 0 <= i < |files| ==> Allowed(files[i].path)
  }

  // ----- the entries by kind

  function Pick(files: seq<InstalledFile>, keep: InstalledFile -> bool): seq<InstalledFile> {
    if files == [] then []
    else if keep(files[0]) then [files[0]] + Pick(files[1..], keep)
    else Pick(files[1..], keep)
  }

  predicate IsRelease(f: InstalledFile) {
    InReleases(f.path)
  }

  /** An entry an activation neither replaces nor retires. */
  predicate IsOther(f: InstalledFile) {
    !InReleases(f.path) && !Fixed(f.path)
  }

  function Releases(files: seq<InstalledFile>): seq<InstalledFile> {
    Pick(files, IsRelease)
  }

  function Others(files: seq<InstalledFile>): seq<InstalledFile> {
    Pick(files, IsOther)
  }

  /** What stays before any eviction: neither a fixed entry nor the selected release. */
  function Retained(files: seq<InstalledFile>, selected: Path): seq<InstalledFile> {
    Pick(files, Unselected(selected))
  }

  function Unselected(selected: Path): InstalledFile -> bool {
    (f: InstalledFile) => !Fixed(f.path) && f.path != selected
  }

  /** Without the first n release entries. */
  function Evict(files: seq<InstalledFile>, n: nat): seq<InstalledFile> {
    if files == [] then []
    else if IsRelease(files[0]) && n > 0 then Evict(files[1..], n - 1)
    else [files[0]] + Evict(files[1..], n)
  }

  function Selected(identity: Identity): Path {
    Release(identity.version, identity.sha256)
  }

  function Evictions(files: seq<InstalledFile>): nat {
    if |Releases(files)| < MAX_ACCEPTED_APPLICATION_RELEASES then 0
    else |Releases(files)| + 1 - MAX_ACCEPTED_APPLICATION_RELEASES
  }

  /** prospective_application_ownership: the manifest an activation will leave. */
  function Prospective(current: seq<InstalledFile>, identity: Identity, revisionSha: string,
                       checksumSha: string): seq<InstalledFile> {
    var retained := Retained(current, Selected(identity));
    [InstalledFile(Binary, identity.sha256), InstalledFile(Revision, revisionSha), InstalledFile(Checksum, checksumSha)]
    + Evict(retained, Evictions(retained))
    + [InstalledFile(Selected(identity), identity.sha256)]
  }

  // ----- picking

  lemma PickCons(f: InstalledFile, rest: seq<InstalledFile>, keep: InstalledFile -> bool)
    ensures Pick([f] + rest, keep) == (if keep(f) then [f] else []) + Pick(rest, keep)
  {
    assert ([f] + rest)[1..] == rest;
  }

  lemma HeadAndTail(files: seq<InstalledFile>)
    requires files != []
    ensures [files[0]] + files[1..] == files
  {}

  lemma {:induction false} PickAppend(a: seq<InstalledFile>, b: seq<InstalledFile>, keep: InstalledFile -> bool)
    ensures Pick(a + b, keep) == Pick(a, keep) + Pick(b, keep)
  {
    if a == [] {
      assert a + b == b;
    } else {
      PickAppend(a[1..], b, keep);
      PickCons(a[0], a[1..], keep);
      PickCons(a[0], a[1..] + b, keep);
      HeadAndTail(a);
      Associate([a[0]], a[1..], b);
      hide Pick;
      Associate(if keep(a[0]) then [a[0]] else [], Pick(a[1..], keep), Pick(b, keep));
    }
  }

  lemma PickSnoc(files: seq<InstalledFile>, n: nat, keep: InstalledFile -> bool)
    requires n < |files|
    ensures Pick(files[..n + 1], keep) == Pick(files[..n], keep) + (if keep(files[n]) then [files[n]] else [])
  {
    assert files[..n + 1] == files[..n] + [files[n]];
    PickAppend(files[..n], [files[n]], keep);
    PickCons(files[n], [], keep);
    assert [files[n]] + [] == [files[n]];
  }

  lemma {:induction false} PickMembers(files: seq<InstalledFile>, keep: InstalledFile -> bool)
    ensures forall f :: f in Pick(files, keep) <==> f in files && keep(f)
  {
    if files != [] {
      PickMembers(files[1..], keep);
      assert forall f :: f in files <==> f == files[0] || f in files[1..];
    }
  }

  /** Whatever lies below the releases directory is counted, and retired, like a release. */
  lemma ReleasesAre(files: seq<InstalledFile>)
    ensures forall f :: f in Releases(files) <==> f in files && (f.path.Release? || f.path.Stray?)
  {
    PickMembers(files, IsRelease);
    hide Pick;
  }

  // ----- the eviction loop

  function FirstRelease(files: seq<InstalledFile>): (i: nat)
    requires Releases(files) != []
    ensures i < |files| && IsRelease(files[i])
  {
    if IsRelease(files[0]) then 0 else 1 + FirstRelease(files[1..])
  }

  lemma RemoveLater(files: seq<InstalledFile>, i: nat)
    requires files != [] && i < |files[1..]|
    ensures files[..i + 1] + files[i + 2..] == [files[0]] + (files[1..][..i] + files[1..][i + 1..])
  {}

  lemma {:induction false} RemovingFirst(files: seq<InstalledFile>)
    requires Releases(files) != []
    ensures var i := FirstRelease(files);
            files[..i] + files[i + 1..] == Evict(files, 1)
  {
    if IsRelease(files[0]) {
      EvictNone(files[1..]);
      assert files[..0] + files[1..] == files[1..];
    } else {
      RemovingFirst(files[1..]);
      RemoveLater(files, FirstRelease(files[1..]));
    }
  }

  lemma {:induction false} EvictNone(files: seq<InstalledFile>)
    ensures Evict(files, 0) == files
  {
    if files != [] {
      EvictNone(files[1..]);
      HeadAndTail(files);
    }
  }

  lemma EvictCons(f: InstalledFile, rest: seq<InstalledFile>, n: nat)
    ensures Evict([f] + rest, n) == if IsRelease(f) && n > 0 then Evict(rest, n - 1) else [f] + Evict(rest, n)
  {
    assert ([f] + rest)[1..] == rest;
  }

  lemma {:induction false} EvictOneMore(files: seq<InstalledFile>, n: nat)
    ensures Evict(Evict(files, n), 1) == Evict(files, n + 1)
  {
    if files == [] {
    } else if IsRelease(files[0]) && n > 0 {
      EvictOneMore(files[1..], n - 1);
    } else {
      EvictOneMore(files[1..], n);
      EvictCons(files[0], Evict(files[1..], n), 1);
      if IsRelease(files[0]) {
        EvictNone(files[1..]);
      }
    }
  }

  lemma {:induction false} OthersIgnoreEviction(files: seq<InstalledFile>, n: nat)
    ensures Others(Evict(files, n)) == Others(files)
  {
    if files != [] {
      if IsRelease(files[0]) && n > 0 {
        OthersIgnoreEviction(files[1..], n - 1);
      } else {
        OthersIgnoreEviction(files[1..], n);
        PickCons(files[0], Evict(files[1..], n), IsOther);
      }
    }
  }

  lemma DropCons(f: InstalledFile, rest: seq<InstalledFile>, n: nat)
    requires 0 < n <= |rest| + 1
    ensures ([f] + rest)[n..] == rest[n - 1..]
  {}

  /** Eviction takes releases from the front. */
  lemma {:induction false} EvictTakesOldest(files: seq<InstalledFile>, n: nat)
    requires n <= |Releases(files)|
    ensures Releases(Evict(files, n)) == Releases(files)[n..]
  {
    if n == 0 {
      EvictNone(files);
    } else if IsRelease(files[0]) {
      EvictTakesOldest(files[1..], n - 1);
      DropCons(files[0], Releases(files[1..]), n);
    } else {
      EvictTakesOldest(files[1..], n);
      PickCons(files[0], Evict(files[1..], n), IsRelease);
    }
  }

  method RetainUnselected(current: seq<InstalledFile>, selected: Path) returns (retained: seq<InstalledFile>)
    ensures retained == Retained(current, selected)
  {
    hide Pick;
    ghost var keep := Unselected(selected);
    retained := [];
    var i := 0;
    PickNothing(current, keep);
    while i < |current|
      invariant i <= |current| && retained == Pick(current[..i], keep)
    {
      PickSnoc(current, i, keep);
      if !Fixed(current[i].path) && current[i].path != selected {
        retained := retained + [current[i]];
      }
      i := i + 1;
    }
    assert current[..i] == current;
  }

  lemma PickNothing(files: seq<InstalledFile>, keep: InstalledFile -> bool)
    ensures Pick(files[..0], keep) == []
  {}

  /** The indexes of the release entries, in order. */
  method ReleaseIndexes(files: seq<InstalledFile>) returns (indexes: seq<nat>)
    ensures |indexes| == |Releases(files)|
    ensures indexes != [] ==> Releases(files) != [] && indexes[0] == FirstRelease(files)
  {
    hide Pick, FirstRelease;
    indexes := [];
    var i := 0;
    PickNothing(files, IsRelease);
    while i < |files|
      invariant i <= |files| && |indexes| == |Releases(files[..i])|
      invariant indexes == [] ==> forall k :: 0 <= k < i ==> !IsRelease(files[k])
      invariant indexes != [] ==> indexes[0] < i && IsRelease(files[indexes[0]])
                                  && forall k :: 0 <= k < indexes[0] ==> !IsRelease(files[k])
    {
      PickSnoc(files, i, IsRelease);
      if IsRelease(files[i]) {
        indexes := indexes + [i];
      }
      i := i + 1;
    }
    assert files[..i] == files;
    if indexes != [] {
      FirstIsLeast(files, indexes[0]);
    }
  }

  lemma {:induction false} FirstIsLeast(files: seq<InstalledFile>, i: nat)
    requires i < |files| && IsRelease(files[i]) && (forall k :: 0 <= k < i ==> !IsRelease(files[k]))
    ensures Releases(files) != [] && FirstRelease(files) == i
  {
    if i > 0 {
      assert forall k :: 0 <= k < i - 1 ==> files[1..][k] == files[k + 1];
      FirstIsLeast(files[1..], i - 1);
    }
  }

  /** The loop drops the oldest release until there is room for one more. */
  method EvictOldest(files: seq<InstalledFile>) returns (retained: seq<InstalledFile>)
    ensures retained == Evict(files, Evictions(files))
  {
    hide Releases, FirstRelease, Evict;
    retained := files;
    ghost var dropped := 0;
    EvictNone(files);
    var releaseIndexes := ReleaseIndexes(retained);
    while |releaseIndexes| >= MAX_ACCEPTED_APPLICATION_RELEASES
      invariant retained == Evict(files, dropped) && dropped <= Evictions(files)
      invariant |Releases(retained)| == |Releases(files)| - dropped && |releaseIndexes| == |Releases(retained)|
      invariant releaseIndexes != [] ==> Releases(retained) != [] && releaseIndexes[0] == FirstRelease(retained)
      decreases |releaseIndexes|
    {
      var i := releaseIndexes[0];
      RemovingFirst(retained);
      EvictTakesOldest(retained, 1);
      EvictOneMore(files, dropped);
      retained := retained[..i] + retained[i + 1..];
      dropped := dropped + 1;
      releaseIndexes := ReleaseIndexes(retained);
    }
  }

  method ProspectiveApplicationOwnership(current: seq<InstalledFile>, identity: Identity, revisionSha: string,
                                         checksumSha: string)
    returns (owned: Option<seq<InstalledFile>>)
    ensures owned.Some? <==> ValidShape(Prospective(current, identity, revisionSha, checksumSha))
    ensures owned.Some? ==> owned.value == Prospective(current, identity, revisionSha, checksumSha)
  {
    var retained := RetainUnselected(current, Selected(identity));
    retained := EvictOldest(retained);
    retained := retained + [InstalledFile(Selected(identity), identity.sha256)];
    retained := [InstalledFile(Binary, identity.sha256), InstalledFile(Revision, revisionSha),
                 InstalledFile(Checksum, checksumSha)]
                + retained;
    assert retained == Prospective(current, identity, revisionSha, checksumSha);
    var valid := CheckOwnership(retained);
    owned := if valid then Some(retained) else None;
  }

  method CheckOwnership(files: seq<InstalledFile>) returns (valid: bool)
    ensures valid <==> ValidShape(files)
    ensures valid <==>
              1 <= |files| <= 64 && forall i, j :: 0 <= i < j < |files| ==> files[i].path != files[j].path
  {
    if |files| == 0 || |files| > MAX_OWNED_FILES {
      return false;
    }
    var index := 0;
    while index < |files|
      invariant index <= |files| && DistinctPaths(files[..index])
    {
      var prior := 0;
      while prior < index
        invariant prior <= index && forall k :: 0 <= k < prior ==> files[k].path != files[index].path
      {
        if files[prior].path == files[index].path {
          return false;
        }
        prior := prior + 1;
      }
      index := index + 1;
    }
    assert files[..index] == files;
    return true;
  }

  // ----- what an activation does to the history

  function PathsOf(files: seq<InstalledFile>): (r: seq<Path>)
    ensures |r| == |files| && forall i :: 0 <= i < |r| ==> r[i] == files[i].path
  {
    seq(|files|, i requires 0 <= i < |files| => files[i].path)
  }

  /** The releases a manifest lists, oldest first. */
  function History(files: seq<InstalledFile>): seq<Path> {
    PathsOf(Releases(files))
  }

  function Without(history: seq<Path>, p: Path): seq<Path> {
    if history == [] then []
    else if history[0] == p then Without(history[1..], p)
    else [history[0]] + Without(history[1..], p)
  }

  function Recent(history: seq<Path>, n: nat): seq<Path> {
    if |history| <= n then history else history[|history| - n..]
  }

  /** The distinct elements by their last use. */
  function LastUses(uses: seq<Path>): seq<Path> {
    if uses == [] then []
    else if uses[0] in uses[1..] then LastUses(uses[1..])
    else [uses[0]] + LastUses(uses[1..])
  }

  lemma {:induction false} RetainedOthers(files: seq<InstalledFile>, selected: Path)
    requires selected.Release?
    ensures Others(Retained(files, selected)) == Others(files)
  {
    if files != [] {
      RetainedOthers(files[1..], selected);
      var keep := Unselected(selected);
      if keep(files[0]) { PickCons(files[0], Pick(files[1..], keep), IsOther); }
    }
  }

  lemma PathsCons(f: InstalledFile, rest: seq<InstalledFile>)
    ensures PathsOf([f] + rest) == [f.path] + PathsOf(rest)
  {}

  lemma WithoutCons(q: Path, rest: seq<Path>, p: Path)
    ensures Without([q] + rest, p) == (if q == p then [] else [q]) + Without(rest, p)
  {
    assert ([q] + rest)[1..] == rest;
  }

  lemma {:induction false} RetainedHistory(files: seq<InstalledFile>, selected: Path)
    requires selected.Release?
    ensures History(Retained(files, selected)) == Without(History(files), selected)
  {
    if files != [] {
      RetainedHistory(files[1..], selected);
      var f, rest := files[0], files[1..];
      var keep := Unselected(selected);
      if keep(f) { PickCons(f, Pick(rest, keep), IsRelease); }
      if IsRelease(f) {
        PathsCons(f, Releases(rest));
        PathsCons(f, Releases(Retained(rest, selected)));
        WithoutCons(f.path, History(rest), selected);
      }
    }
  }

  lemma PathsAppend(a: seq<InstalledFile>, b: seq<InstalledFile>)
    ensures PathsOf(a + b) == PathsOf(a) + PathsOf(b)
  {}

  lemma PathsDrop(files: seq<InstalledFile>, n: nat)
    requires n <= |files|
    ensures PathsOf(files[n..]) == PathsOf(files)[n..]
  {}

  lemma FixedEntries(head: seq<InstalledFile>, rest: seq<InstalledFile>)
    requires |head| == 3 && forall i :: 0 <= i < 3 ==> Fixed(head[i].path)
    ensures Releases(head + rest) == Releases(rest) && Others(head + rest) == Others(rest)
  {
    assert head + rest == [head[0]] + ([head[1]] + ([head[2]] + rest));
    PickCons(head[2], rest, IsRelease);
    PickCons(head[1], [head[2]] + rest, IsRelease);
    PickCons(head[0], [head[1]] + ([head[2]] + rest), IsRelease);
    PickCons(head[2], rest, IsOther);
    PickCons(head[1], [head[2]] + rest, IsOther);
    PickCons(head[0], [head[1]] + ([head[2]] + rest), IsOther);
  }

  lemma ReleaseEntry(f: InstalledFile, rest: seq<InstalledFile>)
    requires IsRelease(f)
    ensures Releases(rest + [f]) == Releases(rest) + [f] && Others(rest + [f]) == Others(rest)
  {
    PickAppend(rest, [f], IsRelease);
    PickAppend(rest, [f], IsOther);
    PickCons(f, [], IsRelease);
    PickCons(f, [], IsOther);
    assert [f] + [] == [f];
  }

  /** Selecting a release moves it to the back of the history, which keeps its last three, and leaves every
      other owned entry where it was. */
  lemma SelectionMovesToBack(current: seq<InstalledFile>, identity: Identity, revisionSha: string, checksumSha: string)
    ensures var owned := Prospective(current, identity, revisionSha, checksumSha);
            && History(owned) == Recent(Without(History(current), Selected(identity)), 2) + [Selected(identity)]
            && Others(owned) == Others(current)
  {
    hide Evict, Retained, Pick, Without;
    var selected := Selected(identity);
    var retained := Retained(current, selected);
    var n := Evictions(retained);
    var kept, last := Evict(retained, n), InstalledFile(selected, identity.sha256);
    RetainedHistory(current, selected);
    RetainedOthers(current, selected);
    EvictTakesOldest(retained, n);
    OthersIgnoreEviction(retained, n);
    PathsDrop(Releases(retained), n);
    ReleaseEntry(last, kept);
    PathsAppend(Releases(kept), [last]);
    var head := [InstalledFile(Binary, identity.sha256), InstalledFile(Revision, revisionSha),
        InstalledFile(Checksum, checksumSha)];
    FixedEntries(head, kept + [last]);
    Associate(head, kept, [last]);
  }

  // ----- whole sequences of activations

  lemma {:induction false} WithoutAppend(a: seq<Path>, b: seq<Path>, p: Path)
    ensures Without(a + b, p) == Without(a, p) + Without(b, p)
  {
    if a == [] {
      assert a + b == b;
    } else {
      WithoutAppend(a[1..], b, p);
      assert a == [a[0]] + a[1..] && a + b == [a[0]] + (a[1..] + b);
      WithoutCons(a[0], a[1..], p);
      WithoutCons(a[0], a[1..] + b, p);
      hide Without;
      Associate(if a[0] == p then [] else [a[0]], Without(a[1..], p), Without(b, p));
    }
  }

  ghost predicate DistinctHistory(s: seq<Path>) {
    s == [] || (s[0] !in s[1..] && DistinctHistory(s[1..]))
  }

  lemma {:induction false} WithoutShrinks(s: seq<Path>, p: Path)
    requires DistinctHistory(s)
    ensures |Without(s, p)| == |s| - (if p in s then 1 else 0)
  {
    if s != [] {
      WithoutShrinks(s[1..], p);
    }
  }

  lemma {:induction false} DistinctParts(s: seq<Path>, n: nat)
    requires DistinctHistory(s) && n <= |s|
    ensures DistinctHistory(s[n..])
    ensures forall p :: p in s[n..] ==> p !in s[..n]
  {
    if n > 0 {
      DistinctParts(s[1..], n - 1);
      assert s[1..][n - 1..] == s[n..];
      assert forall p :: p in s[..n] ==> p == s[0] || p in s[1..][..n - 1];
      assert forall p :: p in s[n..] ==> p in s[1..];
    }
  }

  lemma TakeDrop(a: seq<Path>, b: seq<Path>, n: nat)
    requires n <= |b|
    ensures Recent(a + b, n) == Recent(b, n)
  {}

  /** Forgetting all but three before moving one to the back loses nothing that would be kept. */
  lemma RecentIsEnough(history: seq<Path>, p: Path)
    requires DistinctHistory(history)
    ensures Recent(Without(Recent(history, 3), p), 2) == Recent(Without(history, p), 2)
  {
    if |history| > 3 {
      var n := |history| - 3;
      var old', recent := history[..n], history[n..];
      assert history == old' + recent;
      DistinctParts(history, n);
      WithoutAppend(old', recent, p);
      WithoutShrinks(recent, p);
      TakeDrop(Without(old', p), Without(recent, p), 2);
    }
  }

  lemma {:induction false} LastUsesMembers(uses: seq<Path>)
    ensures forall p :: p in LastUses(uses) <==> p in uses
    ensures DistinctHistory(LastUses(uses))
  {
    if uses != [] {
      LastUsesMembers(uses[1..]);
      assert forall p :: p in uses <==> p == uses[0] || p in uses[1..];
      assert uses[0] !in uses[1..] ==> ([uses[0]] + LastUses(uses[1..]))[1..] == LastUses(uses[1..]);
    }
  }

  /** A further use moves to the back. */
  lemma {:induction false} LastUsesSnoc(uses: seq<Path>, p: Path)
    ensures LastUses(uses + [p]) == Without(LastUses(uses), p) + [p]
  {
    if uses == [] {
      assert uses + [p] == [p] && [p][1..] == [];
    } else {
      var q, rest := uses[0], uses[1..];
      assert (uses + [p])[0] == q && (uses + [p])[1..] == rest + [p];
      LastUsesSnoc(rest, p);
      if q !in rest {
        WithoutCons(q, LastUses(rest), p);
        Associate([q], Without(LastUses(rest), p), [p]);
      }
    }
  }

  lemma {:induction false} LastUsesOfDistinct(history: seq<Path>)
    requires DistinctHistory(history)
    ensures LastUses(history) == history
  {
    if history != [] {
      LastUsesOfDistinct(history[1..]);
      assert [history[0]] + history[1..] == history;
    }
  }

  /** A completed activation, with the digests of the two text files it writes. */
  datatype Activation = Activation(identity: Identity, revisionSha: string, checksumSha: string)

  function Activated(current: seq<InstalledFile>, activations: seq<Activation>): seq<InstalledFile> {
    if activations == [] then current
    else
      var a := activations[|activations| - 1];
      Prospective(Activated(current, activations[..|activations| - 1]), a.identity, a.revisionSha, a.checksumSha)
  }

  function Selections(activations: seq<Activation>): seq<Path> {
    seq(|activations|, i requires 0 <= i < |activations| => Selected(activations[i].identity))
  }

  /** After any number of activations the manifest lists the last three distinct releases by last use, and
      everything else it owned is where it was. */
  lemma {:induction false} HistoryIsLastThreeUses(current: seq<InstalledFile>, activations: seq<Activation>)
    requires DistinctHistory(History(current)) && |activations| > 0
    ensures var owned := Activated(current, activations);
            && History(owned) == Recent(LastUses(History(current) + Selections(activations)), 3)
            && Others(owned) == Others(current)
  {
    hide Prospective, Without, LastUses, Recent, Releases, Others;
    var n := |activations| - 1;
    var before, a := activations[..n], activations[n];
    var p := Selected(a.identity);
    var uses := History(current) + Selections(before);
    assert History(current) + Selections(activations) == uses + [p];
    SelectionMovesToBack(Activated(current, before), a.identity, a.revisionSha, a.checksumSha);
    LastUsesSnoc(uses, p);
    LastUsesMembers(uses);
    if n == 0 {
      assert uses == History(current);
      LastUsesOfDistinct(uses);
    } else {
      HistoryIsLastThreeUses(current, before);
      RecentIsEnough(LastUses(uses), p);
    }
    RecentSnoc(Without(LastUses(uses), p), p);
  }

  lemma RecentSnoc(history: seq<Path>, p: Path)
    ensures Recent(history + [p], 3) == Recent(history, 2) + [p]
  {}

  // ----- the manifest stays valid

  lemma DistinctCons(f: InstalledFile, rest: seq<InstalledFile>)
    ensures DistinctPaths([f] + rest) <==> DistinctPaths(rest) && forall g :: g in rest ==> g.path != f.path
  {
    var files := [f] + rest;
    if DistinctPaths(files) {
      forall i, j | 0 <= i < j < |rest| ensures rest[i].path != rest[j].path {
        assert files[i + 1].path != files[j + 1].path;
      }
      forall g | g in rest ensures g.path != f.path {
        var i :| 0 <= i < |rest| && rest[i] == g;
        assert files[0].path != files[i + 1].path;
      }
    }
  }

  lemma {:induction false} PickStaysDistinct(files: seq<InstalledFile>, keep: InstalledFile -> bool)
    requires DistinctPaths(files)
    ensures DistinctPaths(Pick(files, keep))
  {
    hide DistinctPaths;
    if files == [] {
      assert Pick(files, keep) == files;
    } else {
      HeadAndTail(files);
      DistinctCons(files[0], files[1..]);
      PickStaysDistinct(files[1..], keep);
      PickMembers(files[1..], keep);
      DistinctCons(files[0], Pick(files[1..], keep));
    }
  }

  lemma {:induction false} EvictStaysDistinct(files: seq<InstalledFile>, n: nat)
    requires DistinctPaths(files)
    ensures DistinctPaths(Evict(files, n)) && forall f :: f in Evict(files, n) ==> f in files
  {
    hide DistinctPaths;
    if files == [] {
      assert Evict(files, n) == files;
    } else {
      HeadAndTail(files);
      DistinctCons(files[0], files[1..]);
      if IsRelease(files[0]) && n > 0 {
        EvictStaysDistinct(files[1..], n - 1);
      } else {
        EvictStaysDistinct(files[1..], n);
        DistinctCons(files[0], Evict(files[1..], n));
      }
    }
  }

  lemma {:induction false} EvictAddsNothing(files: seq<InstalledFile>, n: nat)
    ensures forall f :: f in Evict(files, n) ==> f in files
  {
    if files != [] {
      HeadAndTail(files);
      EvictAddsNothing(files[1..], if IsRelease(files[0]) && n > 0 then n - 1 else n);
    }
  }

  lemma DistinctSnoc(rest: seq<InstalledFile>, f: InstalledFile)
    requires DistinctPaths(rest) && forall g :: g in rest ==> g.path != f.path
    ensures DistinctPaths(rest + [f])
  {
    assert forall i :: 0 <= i < |rest| ==> rest[i] in rest;
  }

  function FixedEntriesOf(identity: Identity, revisionSha: string, checksumSha: string): seq<InstalledFile> {
    [InstalledFile(Binary, identity.sha256), InstalledFile(Revision, revisionSha), InstalledFile(Checksum, checksumSha)]
  }

  /** What an activation keeps of a manifest is as distinct as the manifest was. */
  lemma ProspectiveIsDistinct(current: seq<InstalledFile>, identity: Identity, revisionSha: string, checksumSha: string)
    requires DistinctPaths(current)
    ensures DistinctPaths(Prospective(current, identity, revisionSha, checksumSha))
  {
    hide DistinctPaths, Evict, Pick;
    var selected := Selected(identity);
    var retained := Retained(current, selected);
    var n := Evictions(retained);
    var kept, last := Evict(retained, n), InstalledFile(selected, identity.sha256);
    PickStaysDistinct(current, Unselected(selected));
    PickMembers(current, Unselected(selected));
    EvictStaysDistinct(retained, n);
    DistinctSnoc(kept, last);
    var a, b, c := InstalledFile(Binary, identity.sha256), InstalledFile(Revision, revisionSha),
        InstalledFile(Checksum, checksumSha);
    var tail := kept + [last];
    DistinctCons(c, tail);
    DistinctCons(b, [c] + tail);
    DistinctCons(a, [b] + ([c] + tail));
    assert Prospective(current, identity, revisionSha, checksumSha) == [a] + ([b] + ([c] + tail));
  }

  /** Every entry the activation leaves is a fixed one, the selected release, or was there before. */
  lemma ProspectiveMembers(current: seq<InstalledFile>, identity: Identity, revisionSha: string, checksumSha: string,
                           f: InstalledFile)
    requires f in Prospective(current, identity, revisionSha, checksumSha)
    ensures f in FixedEntriesOf(identity, revisionSha, checksumSha)
            || f == InstalledFile(Selected(identity), identity.sha256)
            || (f in current && !Fixed(f.path) && f.path != Selected(identity))
  {
    hide Evict, Pick;
    var retained := Retained(current, Selected(identity));
    PickMembers(current, Unselected(Selected(identity)));
    EvictAddsNothing(retained, Evictions(retained));
  }

  /** From a manifest without repetitions only the limit on its size can be in the way, and an allowed one stays
      allowed. */
  lemma ProspectiveIsValid(current: seq<InstalledFile>, identity: Identity, revisionSha: string, checksumSha: string)
    requires DistinctPaths(current)
    ensures var owned := Prospective(current, identity, revisionSha, checksumSha);
            && (ValidShape(owned) <==> |owned| <= MAX_OWNED_FILES)
            && ((forall f :: f in current ==> Allowed(f.path)) ==> (forall f :: f in owned ==> Allowed(f.path)))
  {
    hide DistinctPaths, Prospective;
    var owned := Prospective(current, identity, revisionSha, checksumSha);
    ProspectiveIsDistinct(current, identity, revisionSha, checksumSha);
    if forall f :: f in current ==> Allowed(f.path) {
      forall f | f in owned ensures Allowed(f.path) {
        ProspectiveMembers(current, identity, revisionSha, checksumSha, f);
      }
    }
    assert |owned| > 0 by { ProspectiveIsNotEmpty(current, identity, revisionSha, checksumSha); }
  }

  /** An activation adds at most the four entries it writes. */
  lemma ProspectiveIsShort(current: seq<InstalledFile>, identity: Identity, revisionSha: string, checksumSha: string)
    ensures |Prospective(current, identity, revisionSha, checksumSha)| <= |current| + 4
  {
    var retained := Retained(current, Selected(identity));
    PickIsShort(current, Unselected(Selected(identity)));
    EvictIsShort(retained, Evictions(retained));
  }

  lemma {:induction false} PickIsShort(files: seq<InstalledFile>, keep: InstalledFile -> bool)
    ensures |Pick(files, keep)| <= |files|
  {
    if files != [] {
      PickIsShort(files[1..], keep);
    }
  }

  lemma {:induction false} EvictIsShort(files: seq<InstalledFile>, n: nat)
    ensures |Evict(files, n)| <= |files|
  {
    if files != [] {
      EvictIsShort(files[1..], if IsRelease(files[0]) && n > 0 then n - 1 else n);
    }
  }

  lemma ProspectiveIsNotEmpty(current: seq<InstalledFile>, identity: Identity, revisionSha: string, checksumSha: string)
    ensures |Prospective(current, identity, revisionSha, checksumSha)| > 0
  {}
}
