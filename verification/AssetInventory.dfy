/**
 The release asset inventory of scripts/stable_release.py: validation, canonical order and the
 serialised text whose SHA-256 is the durable fingerprint.
*/
module AssetInventory {
  import opened Prelude
  import opened Sorting

  datatype Asset = Asset(id: int, name: string, size: int, digest: string)

  const REQUIRED_ASSETS: set<string> := {
    "SHA256SUMS",
    "SBOM.spdx.json",
    "install.sh",
    "planeradar-aarch64-linux-gnu.tar.zst",
    "planeradarctl-aarch64-apple-darwin.tar.zst",
    "planeradarctl-x86_64-apple-darwin.tar.zst",
    "release-manifest.json"
  }
  const MAX_ASSET_SIZE := 512 * 1024 * 1024
  const MAX_TOTAL_SIZE := 1024 * 1024 * 1024

  /** sha256: followed by exactly 64 lower-case hexadecimal digits. */
  predicate WellFormedDigest(d: string) {
    |d| == 71 && d[..7] == "sha256:" && forall i :: 7 <= i < |d| ==> LowerHexDigit(d[i])
  }

  predicate WellFormed(a: Asset, required: set<string>) {
    && a.id > 0
    && a.name in required
    && 0 < a.size <= MAX_ASSET_SIZE
    && WellFormedDigest(a.digest)
  }

  function TotalSize(assets: seq<Asset>): int {
    if assets == [] then 0 else TotalSize(assets[..|assets| - 1]) + assets[|assets| - 1].size
  }

  function Names(assets: seq<Asset>): set<string> {
    set a | a in assets :: a.name
  }

  ghost predicate DistinctNames(assets: seq<Asset>) {
    forall i, j :: 0 <= i < j < |assets| ==> assets[i].name != assets[j].name
  }

  /** What an acceptable inventory is, whatever order the entries arrive in. */
  ghost predicate Acceptable(assets: seq<Asset>, required: set<string>) {
    && (forall a :: a in assets ==> WellFormed(a, required))
    && DistinctNames(assets)
    && Names(assets) == required
    && TotalSize(assets) <= MAX_TOTAL_SIZE
  }

  lemma WellFormedMeans(a: Asset, required: set<string>)
    ensures WellFormed(a, required) <==>
              && a.id > 0 && a.name in required && 0 < a.size <= 536_870_912
              && |a.digest| == 71 && a.digest[..7] == "sha256:"
              && forall i :: 7 <= i < 71 ==> '0' <= a.digest[i] <= '9' || 'a' <= a.digest[i] <= 'f'
  {
    var d := a.digest;
    assert forall i :: 7 <= i < |d| ==> (LowerHexDigit(d[i]) <==> '0' <= d[i] <= '9' || 'a' <= d[i] <= 'f');
  }

  lemma AcceptableMeans(assets: seq<Asset>, required: set<string>)
    ensures Acceptable(assets, required) <==>
              && (forall a :: a in assets ==> WellFormed(a, required))
              && (forall i, j :: 0 <= i < j < |assets| ==> assets[i].name != assets[j].name)
              && (forall n :: n in required ==> exists a :: a in assets && a.name == n)
              && TotalSize(assets) <= 1_073_741_824
  {
    assert Names(assets) == required <==>
        (forall n :: n in required ==> n in Names(assets)) && forall a :: a in assets ==> a.name in required;
    assert forall a: Asset :: WellFormed(a, required) ==> a.name in required;
    hide WellFormed;
  }

  // ----- canonical order

  /** Python's ordering of strings. */
  predicate NameLeq(a: string, b: string) {
    a == [] || (b != [] && (a[0] < b[0] || (a[0] == b[0] && NameLeq(a[1..], b[1..]))))
  }

  /** The first character that differs decides, and a name comes before those it begins. */
  lemma NameLeqDecides(a: string, b: string)
    ensures NameLeq(a, b) <==> a <= b || exists k: nat :: DiffersFirstAt(a, b, k) && a[k] < b[k]
  {
    var k := FirstDifference(a, b);
    if !(a <= b) && !(b <= a) {
      assert forall l: nat :: DiffersFirstAt(a, b, l) ==> l == k;
    }
  }

  predicate DiffersFirstAt(a: string, b: string, k: nat) {
    k < |a| && k < |b| && a[..k] == b[..k] && a[k] != b[k]
  }

  lemma {:induction false} FirstDifference(a: string, b: string) returns (k: nat)
    ensures a <= b ==> NameLeq(a, b)
    ensures b <= a && a != b ==> !NameLeq(a, b)
    ensures !(a <= b) && !(b <= a) ==> DiffersFirstAt(a, b, k) && (NameLeq(a, b) <==> a[k] < b[k])
  {
    k := 0;
    if a != [] && b != [] && a[0] == b[0] {
      k := FirstDifference(a[1..], b[1..]);
      assert a == [a[0]] + a[1..] && b == [b[0]] + b[1..];
      if DiffersFirstAt(a[1..], b[1..], k) {
        assert a[..k + 1] == [a[0]] + a[1..][..k] && b[..k + 1] == [b[0]] + b[1..][..k];
      }
      k := k + 1;
    }
  }

  lemma {:induction false} NameLeqTotal(a: string, b: string)
    ensures NameLeq(a, b) || NameLeq(b, a)
  {
    if a != [] && b != [] { NameLeqTotal(a[1..], b[1..]); }
  }

  lemma {:induction false} NameLeqAntisymmetric(a: string, b: string)
    requires NameLeq(a, b) && NameLeq(b, a)
    ensures a == b
  {
    if a != [] {
      NameLeqAntisymmetric(a[1..], b[1..]);
      assert a == [a[0]] + a[1..] && b == [b[0]] + b[1..];
    }
  }

  lemma {:induction false} NameLeqTransitive(a: string, b: string, c: string)
    requires NameLeq(a, b) && NameLeq(b, c)
    ensures NameLeq(a, c)
  {
    if a != [] && a[0] == b[0] && b[0] == c[0] { NameLeqTransitive(a[1..], b[1..], c[1..]); }
  }

  predicate ByName(a: Asset, b: Asset) {
    NameLeq(a.name, b.name)
  }

  lemma ByNameIsTotal()
    ensures TotalOrder(ByName)
  {
    forall a: Asset, b: Asset ensures ByName(a, b) || ByName(b, a) { NameLeqTotal(a.name, b.name); }
    forall a: Asset, b: Asset, c: Asset | ByName(a, b) && ByName(b, c) ensures ByName(a, c) {
      NameLeqTransitive(a.name, b.name, c.name);
    }
  }

  ghost predicate OrderedByName(assets: seq<Asset>) {
    Ordered(ByName, assets)
  }

  function SortByName(assets: seq<Asset>): (r: seq<Asset>)
    ensures multiset(r) == multiset(assets)
  {
    Sort(ByName, assets)
  }

  lemma SortIsByName(assets: seq<Asset>)
    ensures OrderedByName(SortByName(assets))
  {
    ByNameIsTotal();
    SortIsOrdered(ByName, assets);
  }

  lemma HeadsAgree(a: seq<Asset>, b: seq<Asset>)
    requires OrderedByName(a) && OrderedByName(b) && DistinctNames(a) && a != []
    requires multiset(a) == multiset(b)
    ensures b != [] && a[0] == b[0]
  {
    assert |multiset(a)| == |multiset(b)|;
    assert a[0] in multiset(b) && b[0] in multiset(a);
    NameLeqTotal(a[0].name, a[0].name);
    NameLeqAntisymmetric(a[0].name, b[0].name);
  }

  /** An ordered list without repeated names is determined by its contents. */
  lemma {:induction false} OrderedIsUnique(a: seq<Asset>, b: seq<Asset>)
    requires OrderedByName(a) && OrderedByName(b) && DistinctNames(a)
    requires multiset(a) == multiset(b)
    ensures a == b
  {
    if a == [] {
      assert |multiset(b)| == 0;
    } else {
      HeadsAgree(a, b);
      TailsAgree(a, b);
      OrderedIsUnique(a[1..], b[1..]);
      assert a == [a[0]] + a[1..] && b == [b[0]] + b[1..];
    }
  }

  lemma TailsAgree(a: seq<Asset>, b: seq<Asset>)
    requires a != [] && b != [] && a[0] == b[0] && multiset(a) == multiset(b)
    ensures multiset(a[1..]) == multiset(b[1..])
  {
    assert a == [a[0]] + a[1..] && b == [b[0]] + b[1..];
    assert multiset(a[1..]) == multiset(a) - multiset{a[0]};
    assert multiset(b[1..]) == multiset(b) - multiset{b[0]};
  }

  // ----- validation

  /** A list every entry of which has passed the checks so far. */
  ghost predicate Checked(assets: seq<Asset>, required: set<string>) {
    && DistinctNames(assets)
    && TotalSize(assets) <= MAX_TOTAL_SIZE
    && forall a :: a in assets ==> WellFormed(a, required)
  }

  /** Collects the entries one by one; None stands for an entry that is not a well-typed object. */
  method Inventory(raw: seq<Option<Asset>>, required: set<string>) returns (r: Option<seq<Asset>>)
    ensures r.Some? <==> (forall x :: x in raw ==> x.Some?) && Acceptable(Values(raw), required)
    ensures r.Some? ==> OrderedByName(r.value) && multiset(r.value) == multiset(Values(raw))
  {
    var inventory: seq<Asset> := [];
    var names: set<string> := {};
    var total := 0;
    for i := 0 to |raw|
      invariant forall x :: x in raw[..i] ==> x.Some?
      invariant inventory == Values(raw[..i]) && Checked(inventory, required)
      invariant names == Names(inventory) && total == TotalSize(inventory)
    {
      assert raw[..i + 1][..i] == raw[..i] && raw[i] in raw;
      if raw[i].None? {
        return None;
      }
      var asset := raw[i].value;
      if !WellFormed(asset, required) || asset.name in names || total + asset.size > MAX_TOTAL_SIZE {
        RejectedPrefix(raw, i, required);
        return None;
      }
      AcceptedEntry(inventory, asset, required);
      total := total + asset.size;
      names := names + {asset.name};
      inventory := inventory + [asset];
    }
    assert raw[..|raw|] == raw;
    if names != required {
      return None;
    }
    SortIsByName(inventory);
    r := Some(SortByName(inventory));
  }

  lemma AcceptedEntry(seen: seq<Asset>, asset: Asset, required: set<string>)
    requires Checked(seen, required) && WellFormed(asset, required)
    requires asset.name !in Names(seen) && TotalSize(seen) + asset.size <= MAX_TOTAL_SIZE
    ensures Checked(seen + [asset], required)
    ensures Names(seen + [asset]) == Names(seen) + {asset.name}
    ensures TotalSize(seen + [asset]) == TotalSize(seen) + asset.size
  {
    assert (seen + [asset])[..|seen|] == seen;
  }

  /** The well-typed entries in order. */
  function Values(raw: seq<Option<Asset>>): (r: seq<Asset>) {
    if raw == [] then []
    else Values(raw[..|raw| - 1]) + (if raw[|raw| - 1].Some? then [raw[|raw| - 1].value] else [])
  }

  lemma {:induction false} ValuesPrefix(raw: seq<Option<Asset>>, n: nat)
    requires n <= |raw|
    ensures Values(raw[..n]) <= Values(raw)
    decreases |raw| - n
  {
    if n == |raw| {
      assert raw[..n] == raw;
    } else {
      ValuesPrefix(raw, n + 1);
      assert raw[..n + 1][..n] == raw[..n];
    }
  }

  lemma {:induction false} SizesArePositive(assets: seq<Asset>, n: nat)
    requires n <= |assets| && forall a :: a in assets ==> a.size > 0
    ensures TotalSize(assets[..n]) <= TotalSize(assets)
    decreases |assets| - n
  {
    if n == |assets| {
      assert assets[..n] == assets;
    } else {
      SizesArePositive(assets, n + 1);
      assert assets[..n + 1][..n] == assets[..n];
    }
  }

  /** Every part of an acceptable list passes the checks. */
  lemma AcceptablePrefix(all: seq<Asset>, n: nat, required: set<string>)
    requires n <= |all| && Acceptable(all, required)
    ensures Checked(all[..n], required)
  {
    SizesArePositive(all, n);
  }

  lemma CheckedLast(seen: seq<Asset>, asset: Asset, required: set<string>)
    requires Checked(seen + [asset], required)
    ensures WellFormed(asset, required) && asset.name !in Names(seen) && TotalSize(seen) + asset.size <= MAX_TOTAL_SIZE
  {
    var all := seen + [asset];
    assert all[..|seen|] == seen && all[|seen|] == asset;
    forall i | 0 <= i < |seen| ensures seen[i].name != asset.name {
      assert all[i].name != all[|seen|].name;
    }
  }

  /** What one bad entry rules out for the whole list. */
  lemma RejectedPrefix(raw: seq<Option<Asset>>, i: nat, required: set<string>)
    requires i < |raw| && raw[i].Some?
    requires var seen := Values(raw[..i]); var asset := raw[i].value;
             !WellFormed(asset, required) || asset.name in Names(seen) || TotalSize(seen) + asset.size > MAX_TOTAL_SIZE
    ensures !Acceptable(Values(raw), required)
  {
    if Acceptable(Values(raw), required) {
      var n := EntryPosition(raw, i);
      AcceptablePrefix(Values(raw), n + 1, required);
      CheckedLast(Values(raw[..i]), raw[i].value, required);
    }
  }

  lemma EntryPosition(raw: seq<Option<Asset>>, i: nat) returns (n: nat)
    requires i < |raw| && raw[i].Some?
    ensures n < |Values(raw)| && Values(raw)[..n + 1] == Values(raw[..i]) + [raw[i].value]
  {
    n := |Values(raw[..i])|;
    ValuesPrefix(raw, i + 1);
    assert raw[..i + 1][..i] == raw[..i];
  }

  // ----- serialised form

  function Digit(d: nat): (c: char)
    requires d < 10
    ensures '0' <= c <= '9' && c as int == '0' as int + d
  {
    '0' + d as char
  }

  function Decimal(n: nat): (r: string)
    ensures |r| > 0 && forall c :: c in r ==> '0' <= c <= '9'
  {
    if n < 10 then [Digit(n)] else Decimal(n / 10) + [Digit(n % 10)]
  }

  /** What makes the rows readable back: separators never occur inside a field. */
  predicate Separable(a: Asset) {
    a.id >= 0 && a.size >= 0 && Plain(a.name) && '\n' !in a.digest
  }

  function Row(a: Asset): (r: string)
    requires Separable(a)
    ensures |r| > 0
  {
    Decimal(a.id) + "\t" + (a.name + "\t" + (Decimal(a.size) + "\t" + (a.digest + "\n")))
  }

  /** The text the fingerprint hashes. */
  function Serialized(inventory: seq<Asset>): string
    requires forall a :: a in inventory ==> Separable(a)
  {
    if inventory == [] then "" else Row(inventory[0]) + Serialized(inventory[1..])
  }

  lemma {:induction false} DecimalInjective(m: nat, n: nat)
    requires Decimal(m) == Decimal(n)
    ensures m == n
  {
    var a, b := Decimal(m), Decimal(n);
    assert m >= 10 ==> |a| > 1 && a[..|a| - 1] == Decimal(m / 10) && a[|a| - 1] == Digit(m % 10);
    assert n >= 10 ==> |b| > 1 && b[..|b| - 1] == Decimal(n / 10) && b[|b| - 1] == Digit(n % 10);
    assert m < 10 ==> a[0] == Digit(m);
    assert n < 10 ==> b[0] == Digit(n);
    if m >= 10 && n >= 10 {
      DecimalInjective(m / 10, n / 10);
    }
  }

  /** Text up to the first separator is determined by the whole. */
  lemma {:induction false} FieldUnique(a: string, x: string, b: string, y: string, separator: char)
    requires separator !in a && separator !in b
    requires a + [separator] + x == b + [separator] + y
    ensures a == b && x == y
  {
    var s, t := a + [separator] + x, b + [separator] + y;
    assert s[0] == t[0];
    if a == [] || b == [] {
      assert a == [] && b == [];
      assert x == s[1..] && y == t[1..];
    } else {
      assert s[1..] == a[1..] + [separator] + x && t[1..] == b[1..] + [separator] + y;
      FieldUnique(a[1..], x, b[1..], y, separator);
      assert a == [a[0]] + a[1..] && b == [b[0]] + b[1..];
    }
  }

  lemma RowUnique(a: Asset, x: string, b: Asset, y: string)
    requires Separable(a) && Separable(b)
    requires Row(a) + x == Row(b) + y
    ensures a == b && x == y
  {
    var a3, b3 := a.digest + "\n" + x, b.digest + "\n" + y;
    var a2, b2 := Decimal(a.size) + "\t" + a3, Decimal(b.size) + "\t" + b3;
    var a1, b1 := a.name + "\t" + a2, b.name + "\t" + b2;
    assert Row(a) + x == Decimal(a.id) + "\t" + a1;
    assert Row(b) + y == Decimal(b.id) + "\t" + b1;
    FieldUnique(Decimal(a.id), a1, Decimal(b.id), b1, '\t');
    FieldUnique(a.name, a2, b.name, b2, '\t');
    FieldUnique(Decimal(a.size), a3, Decimal(b.size), b3, '\t');
    FieldUnique(a.digest, x, b.digest, y, '\n');
    DecimalInjective(a.id, b.id);
    DecimalInjective(a.size, b.size);
  }

  /** The hashed text loses nothing: equal texts come from equal inventories. */
  lemma {:induction false} SerializedInjective(a: seq<Asset>, b: seq<Asset>)
    requires (forall x :: x in a ==> Separable(x)) && (forall x :: x in b ==> Separable(x))
    requires Serialized(a) == Serialized(b)
    ensures a == b
  {
    if a != [] && b != [] {
      RowUnique(a[0], Serialized(a[1..]), b[0], Serialized(b[1..]));
      SerializedInjective(a[1..], b[1..]);
      assert a == [a[0]] + a[1..] && b == [b[0]] + b[1..];
    }
  }

  /** The fingerprinted text identifies the set of assets: two accepted inventories share it exactly
      when they list the same assets, in whatever order the service reported them. */
  lemma FingerprintTextIsCanonical(a: seq<Asset>, b: seq<Asset>, required: set<string>)
    requires Acceptable(a, required) && Acceptable(b, required)
    requires forall n :: n in required ==> Plain(n)
    ensures forall x :: x in SortByName(a) ==> Separable(x)
    ensures forall x :: x in SortByName(b) ==> Separable(x)
    ensures Serialized(SortByName(a)) == Serialized(SortByName(b)) <==> multiset(a) == multiset(b)
  {
    SortedRowsAreSeparable(a, required);
    SortedRowsAreSeparable(b, required);
    SortIsByName(a);
    SortIsByName(b);
    if multiset(a) == multiset(b) {
      SortKeepsNamesDistinct(a);
      OrderedIsUnique(SortByName(a), SortByName(b));
    } else if Serialized(SortByName(a)) == Serialized(SortByName(b)) {
      SerializedInjective(SortByName(a), SortByName(b));
    }
  }

  lemma RequiredNamesArePlain()
    ensures forall n :: n in REQUIRED_ASSETS ==> Plain(n)
  {
    ShortNamesArePlain();
    ApplicationNameIsPlain();
    ArmControllerNameIsPlain();
    IntelControllerNameIsPlain();
  }

  predicate Plain(name: string) {
    '\t' !in name
  }

  lemma ShortNamesArePlain()
    ensures Plain("SHA256SUMS") && Plain("SBOM.spdx.json") && Plain("install.sh") && Plain("release-manifest.json")
  {}

  lemma ApplicationNameIsPlain()
    ensures Plain("planeradar-aarch64-linux-gnu.tar.zst")
  {}

  lemma ArmControllerNameIsPlain()
    ensures Plain("planeradarctl-aarch64-apple-darwin.tar.zst")
  {}

  lemma IntelControllerNameIsPlain()
    ensures Plain("planeradarctl-x86_64-apple-darwin.tar.zst")
  {}

  lemma DigestIsOneLine(digest: string)
    requires WellFormedDigest(digest)
    ensures '\n' !in digest
  {
    var prefix := "sha256:";
    forall i | 0 <= i < |digest| ensures digest[i] != '\n' {
      assert i < 7 ==> digest[i] == prefix[i];
    }
  }

  lemma SortedRowsAreSeparable(assets: seq<Asset>, required: set<string>)
    requires Acceptable(assets, required) && forall n :: n in required ==> Plain(n)
    ensures forall x :: x in SortByName(assets) ==> Separable(x)
  {
    forall x | x in SortByName(assets) ensures Separable(x) {
      assert x in multiset(SortByName(assets));
      assert x in assets && WellFormed(x, required);
      DigestIsOneLine(x.digest);
    }
  }

  lemma {:induction false} SortKeepsNamesDistinct(a: seq<Asset>)
    requires DistinctNames(a)
    ensures DistinctNames(SortByName(a)) && Names(SortByName(a)) == Names(a)
  {
    if a != [] {
      SortKeepsNamesDistinct(a[1..]);
      FirstNameIsNew(a);
      InsertKeepsNamesDistinct(a[0], SortByName(a[1..]));
    }
  }

  lemma FirstNameIsNew(a: seq<Asset>)
    requires DistinctNames(a) && a != []
    ensures a[0].name !in Names(a[1..])
    ensures Names(a) == {a[0].name} + Names(a[1..])
  {
    assert a == [a[0]] + a[1..];
  }

  lemma {:induction false} InsertKeepsNamesDistinct(a: Asset, sorted: seq<Asset>)
    requires DistinctNames(sorted) && a.name !in Names(sorted)
    ensures DistinctNames(Insert(ByName, a, sorted)) && Names(Insert(ByName, a, sorted)) == Names(sorted) + {a.name}
  {
    if sorted != [] {
      FirstNameIsNew(sorted);
      InsertKeepsNamesDistinct(a, sorted[1..]);
    }
  }
}
