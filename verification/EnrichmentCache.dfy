/**
 The enrichment cache of src/flight_data.rs: two maps sharing one access counter, entries that expire,
 eviction of the entry with the lowest serial, and renumbering when the 64-bit counter runs out.
 Durations are in nanoseconds.
*/
module EnrichmentCache {
  import opened Prelude
  import opened Recency
  import opened RuntimeTypes

  const DURATION_MAX := U64_MAX * SECOND + 999_999_999
  const SUCCESS_TTL := 6 * 60 * 60 * SECOND
  const MISSING_TTL := 10 * 60 * SECOND
  const MODE_S_HEX_LENGTH := 6
  const FLIGHT_CALLSIGN_LENGTH := 8

  datatype CacheEntry<T> = CacheEntry(value: Option<T>, expiresAt: nat, accessSerial: nat)

  datatype LookupValue<T> = NotRequested | Found(value: T) | Missing

  datatype FlightLookup<R> = FlightLookup(route: LookupValue<R>, model: LookupValue<string>)

  datatype Resolution = Resolution(enrichment: AircraftEnrichment, pending: EnrichmentNeeds)

  // ----- keys

  predicate Alphanumeric(c: char) {
    '0' <= c <= '9' || 'a' <= c <= 'z' || 'A' <= c <= 'Z'
  }

  function Uppercase(c: char): char {
    if 'a' <= c <= 'z' then 'A' + (c - 'a') else c
  }

  /** The first `limit` characters that pass, in upper case. */
  function Normalized(identifier: string, keep: char -> bool, limit: nat): string {
    if identifier == [] || limit == 0 then ""
    else if keep(identifier[0]) then [Uppercase(identifier[0])] + Normalized(identifier[1..], keep, limit - 1)
    else Normalized(identifier[1..], keep, limit)
  }

  function HexKey(a: Aircraft): string {
    Normalized(a.hex, HexDigit, MODE_S_HEX_LENGTH)
  }

  function CallsignKey(a: Aircraft): string {
    Normalized(a.flightCallsign, Alphanumeric, FLIGHT_CALLSIGN_LENGTH)
  }

  /** One more character is added, in upper case, exactly if it passes and there is room. */
  lemma {:induction false} NormalizedGrows(identifier: string, c: char, keep: char -> bool, limit: nat)
    ensures Normalized("", keep, limit) == ""
    ensures var key := Normalized(identifier, keep, limit);
            && |key| <= limit
            && Normalized(identifier + [c], keep, limit)
               == if keep(c) && |key| < limit then key + [if 'a' <= c <= 'z' then (c as int - 32) as char else c]
                  else key
  {
    if identifier == [] {
      assert [c][1..] == [];
    } else if limit > 0 {
      assert (identifier + [c])[1..] == identifier[1..] + [c];
      NormalizedGrows(identifier[1..], c, keep, if keep(identifier[0]) then limit - 1 else limit);
    }
  }

  /** An aircraft is looked up under six hexadecimal digits, and its flight under eight letters or digits. */
  lemma KeysAre(a: Aircraft)
    ensures HexKey(a) == Normalized(a.hex, c => '0' <= c <= '9' || 'a' <= c <= 'f' || 'A' <= c <= 'F', 6)
    ensures CallsignKey(a)
         == Normalized(a.flightCallsign, c => '0' <= c <= '9' || 'a' <= c <= 'z' || 'A' <= c <= 'Z', 8)
  {
    SameKept(a.hex, HexDigit, c => '0' <= c <= '9' || 'a' <= c <= 'f' || 'A' <= c <= 'F', 6);
    SameKept(a.flightCallsign, Alphanumeric, c => '0' <= c <= '9' || 'a' <= c <= 'z' || 'A' <= c <= 'Z', 8);
  }

  lemma {:induction false} SameKept(identifier: string, keep: char -> bool, keep': char -> bool, limit: nat)
    requires forall c :: keep(c) <==> keep'(c)
    ensures Normalized(identifier, keep, limit) == Normalized(identifier, keep', limit)
  {
    if identifier != [] && limit > 0 {
      SameKept(identifier[1..], keep, keep', if keep(identifier[0]) then limit - 1 else limit);
    }
  }

  // ----- serial numbers against recency

  /** Serials ascend along the order, all below the bound. */
  ghost predicate Below<T>(order: seq<string>, m: map<string, CacheEntry<T>>, bound: nat) {
    order == []
    || var last := order[|order| - 1];
       last in m && m[last].accessSerial < bound && Below(order[..|order| - 1], m, m[last].accessSerial)
  }

  ghost function Forget<T>(m: map<string, CacheEntry<T>>): map<string, Entry<T>> {
    map k | k in m :: Entry(m[k].value, m[k].expiresAt)
  }

  /** The map holds the abstract cache: the same entries, their serials in order of use. */
  ghost predicate Refines<T>(m: map<string, CacheEntry<T>>, c: Cache<T>, bound: nat) {
    c.Valid() && c.entries == Forget(m) && Below(c.order, m, bound)
  }

  lemma {:induction false} BelowFrame<T>(order: seq<string>, m: map<string, CacheEntry<T>>,
                                         n: map<string, CacheEntry<T>>, bound: nat, higher: nat)
    requires Below(order, m, bound) && bound <= higher
    requires forall k :: k in Elements(order) && k in m ==> k in n && n[k].accessSerial == m[k].accessSerial
    ensures Below(order, n, higher)
  {
    if order != [] {
      var last := order[|order| - 1];
      BelowFrame(order[..|order| - 1], m, n, m[last].accessSerial, m[last].accessSerial);
    }
  }

  lemma RefinesWithin<T>(m: map<string, CacheEntry<T>>, c: Cache<T>, bound: nat, higher: nat)
    requires Refines(m, c, bound) && bound <= higher
    ensures Refines(m, c, higher)
  {
    BelowFrame(c.order, m, m, bound, higher);
  }

  lemma RefinesMeans<T>(m: map<string, CacheEntry<T>>, c: Cache<T>, bound: nat)
    requires Refines(m, c, bound)
    ensures c.Valid() && |m| == |c.order|
    ensures forall k :: k in m <==> k in c.entries
    ensures forall k :: k in m ==> c.entries[k] == Entry(m[k].value, m[k].expiresAt)
  {
    ElementsCount(c.order);
    assert m.Keys == Forget(m).Keys;
    assert |m| == |m.Keys|;
  }

  lemma {:induction false} DroppingStaysBelow<T>(order: seq<string>, gone: set<string>, m: map<string, CacheEntry<T>>,
                                                 bound: nat)
    requires Below(order, m, bound)
    ensures Below(Dropping(order, gone), m, bound)
  {
    if order != [] {
      var init, last := order[..|order| - 1], order[|order| - 1];
      DroppingStaysBelow(init, gone, m, m[last].accessSerial);
      if last in gone {
        BelowFrame(Dropping(init, gone), m, m, m[last].accessSerial, bound);
      } else {
        assert (Dropping(init, gone) + [last])[..|Dropping(init, gone)|] == Dropping(init, gone);
      }
    }
  }

  lemma {:induction false} FirstIsLeast<T>(order: seq<string>, m: map<string, CacheEntry<T>>, bound: nat, k: string)
    requires Below(order, m, bound) && k in Elements(order) && NoDuplicates(order)
    ensures order[0] in m && k in m && m[k].accessSerial < bound
    ensures k != order[0] ==> m[order[0]].accessSerial < m[k].accessSerial
  {
    var init, last := order[..|order| - 1], order[|order| - 1];
    if k in Elements(init) {
      FirstIsLeast(init, m, m[last].accessSerial, k);
    } else if init != [] {
      FirstFacts(init);
      FirstIsLeast(init, m, m[last].accessSerial, init[0]);
    }
  }

  lemma {:induction false} DropFirstStaysBelow<T>(order: seq<string>, m: map<string, CacheEntry<T>>, bound: nat)
    requires order != [] && Below(order, m, bound)
    ensures Below(order[1..], m, bound)
  {
    if |order| > 1 {
      var init, last := order[..|order| - 1], order[|order| - 1];
      DropFirstStaysBelow(init, m, m[last].accessSerial);
      assert order[1..][..|order| - 2] == init[1..];
    }
  }

  /** The first key of the order is the one min_by_key picks. */
  method LeastRecentKey<T>(m: map<string, CacheEntry<T>>, ghost c: Cache<T>, ghost bound: nat) returns (least: string)
    requires Refines(m, c, bound) && c.order != []
    ensures least == c.order[0] && least in m
  {
    FirstFacts(c.order);
    assert c.order[0] in m.Keys;
    least :| least in m;
    var rest := m.Keys - {least};
    while rest != {}
      invariant rest <= m.Keys && least in m && least !in rest
      invariant forall k :: k in m.Keys - rest ==> m[least].accessSerial <= m[k].accessSerial
      decreases |rest|
    {
      var k :| k in rest;
      if m[k].accessSerial < m[least].accessSerial {
        least := k;
      }
      rest := rest - {k};
    }
    FirstIsLeast(c.order, m, bound, least);
  }

  /** evict_lru: removing lowest serials one by one trims the recency order. */
  method EvictLru<T>(m: map<string, CacheEntry<T>>, capacity: nat, ghost c: Cache<T>, ghost bound: nat)
    returns (r: map<string, CacheEntry<T>>)
    requires Refines(m, c, bound)
    ensures Refines(r, Trim(c, capacity), bound)
  {
    hide Refines;
    r := m;
    ghost var d := c;
    RefinesMeans(m, c, bound);
    while |r| > capacity
      invariant Refines(r, d, bound) && Trim(d, capacity) == Trim(c, capacity) && |r| == |d.order|
      decreases |r|
    {
      var k := LeastRecentKey(r, d, bound);
      EvictFirst(r, d, bound);
      r := r - {k};
      d := Cache(d.order[1..], d.entries - {d.order[0]});
      RefinesMeans(r, d, bound);
    }
  }

  lemma EvictFirst<T>(m: map<string, CacheEntry<T>>, c: Cache<T>, bound: nat)
    requires Refines(m, c, bound) && c.order != []
    ensures Refines(m - {c.order[0]}, Cache(c.order[1..], c.entries - {c.order[0]}), bound)
  {
    FirstFacts(c.order);
    DropFirstStaysBelow(c.order, m, bound);
    BelowFrame(c.order[1..], m, m - {c.order[0]}, bound, bound);
  }

  // ----- renumbering

  /** The keys, lowest serial first: the order of use. */
  method OldestFirst<T>(m: map<string, CacheEntry<T>>, ghost c: Cache<T>, ghost bound: nat) returns (keys: seq<string>)
    requires Refines(m, c, bound)
    ensures keys == c.order
  {
    hide Refines;
    keys := [];
    var rest := m;
    ghost var d := c;
    RefinesMeans(m, c, bound);
    while |rest| > 0
      invariant Refines(rest, d, bound) && keys + d.order == c.order && |rest| == |d.order|
      decreases |rest|
    {
      var k := LeastRecentKey(rest, d, bound);
      EvictFirst(rest, d, bound);
      keys := keys + [k];
      rest := rest - {k};
      d := Cache(d.order[1..], d.entries - {d.order[0]});
      RefinesMeans(rest, d, bound);
    }
  }

  /** rebase_access_serials: serials become 1, 2, 3 and so on, which changes nothing about the order of use. */
  method RebaseAccessSerials<T>(m: map<string, CacheEntry<T>>, ghost c: Cache<T>, ghost bound: nat)
    returns (r: map<string, CacheEntry<T>>, highest: nat)
    requires Refines(m, c, bound)
    ensures Refines(r, c, highest + 1) && highest == |m|
  {
    var keys := OldestFirst(m, c, bound);
    r, highest := m, 0;
    RefinesMeans(m, c, bound);
    assert Below(keys[..0], m, 1);
    hide Below, Forget, Elements, NoDuplicates;
    for index := 0 to |keys|
      invariant r.Keys == m.Keys && Forget(r) == Forget(m)
      invariant highest == index && Below(keys[..index], r, index + 1)
    {
      var k := keys[index];
      PrefixFacts(keys, index);
      assert k in m.Keys;
      NextSerial(keys, index, r);
      r := r[k := r[k].(accessSerial := index + 1)];
      highest := index + 1;
    }
    assert keys[..|keys|] == keys;
  }

  /** One more key gets the next serial. */
  lemma NextSerial<T>(keys: seq<string>, index: nat, m: map<string, CacheEntry<T>>)
    requires index < |keys| && NoDuplicates(keys) && keys[index] in m && Below(keys[..index], m, index + 1)
    ensures var k := keys[index];
            var r := m[k := m[k].(accessSerial := index + 1)];
            Below(keys[..index + 1], r, index + 2) && Forget(r) == Forget(m)
  {
    var k := keys[index];
    var r := m[k := m[k].(accessSerial := index + 1)];
    PrefixFacts(keys, index);
    BelowFrame(keys[..index], m, r, index + 1, index + 1);
    assert keys[..index + 1][..index] == keys[..index];
  }

  lemma {:induction false} PrefixFacts(keys: seq<string>, n: nat)
    requires n < |keys| && NoDuplicates(keys)
    ensures keys[n] !in Elements(keys[..n]) && keys[n] in Elements(keys)
  {
    var init := keys[..|keys| - 1];
    if n < |keys| - 1 {
      PrefixFacts(init, n);
      assert init[..n] == keys[..n];
    }
  }

  // ----- the cache

  function SaturatingAdd(now: nat, ttl: nat): nat {
    if now + ttl <= DURATION_MAX then now + ttl else DURATION_MAX
  }

  /** What a lookup result is cached as; None when nothing was asked for. */
  function CacheValue<T>(v: LookupValue<T>): Option<(Option<T>, nat)> {
    match v
    case NotRequested => None
    case Found(x) => Some((Some(x), SUCCESS_TTL))
    case Missing => Some((None, MISSING_TTL))
  }

  /** What one lookup does to the history of one of the two maps. */
  function LookupOp<T>(asked: bool, key: string, now: nat): Op<T> {
    if asked then Lookup(key, now) else Purge(now)
  }

  /** What recording a result does to it. */
  function RecordOp<T>(asked: bool, key: string, v: LookupValue<T>, now: nat): Op<T> {
    if asked && CacheValue(v).Some?
    then Record(key, Entry(CacheValue(v).value.0, SaturatingAdd(now, CacheValue(v).value.1)), now)
    else Purge(now)
  }

  /** A clock stops at the largest duration. */
  lemma ExpiryIs(now: nat, ttl: nat)
    ensures var e := SaturatingAdd(now, ttl);
            if now + ttl <= 0xFFFF_FFFF_FFFF_FFFF * 1_000_000_000 + 999_999_999 then e == now + ttl
            else e == 0xFFFF_FFFF_FFFF_FFFF * 1_000_000_000 + 999_999_999
  {}

  /** Operations that do not record the key again keep its latest record until the first of them at its expiry. */
  lemma {:induction false} LatestLasts<T>(ops: seq<Op<T>>, between: seq<Op<T>>, key: string, e: Entry<T>)
    requires Latest(ops, key) == Some(e)
    requires forall k :: 0 <= k < |between| ==> !(between[k].Record? && between[k].key == key)
    ensures Latest(ops + between, key)
         == if forall k :: 0 <= k < |between| ==> between[k].now < e.expiresAt then Some(e) else None
  {
    if between == [] {
      assert ops + between == ops;
    } else {
      var n := |between| - 1;
      LatestLasts(ops, between[..n], key, e);
      assert (ops + between)[..|ops| + n] == ops + between[..n];
      assert (ops + between)[|ops| + n] == between[n];
    }
  }

  /** A result recorded and asked for again comes back exactly until its time is up: what was found for six hours,
      that there is nothing for ten minutes; it must not be recorded anew or pushed out in between. */
  lemma RecordedComesBack<T>(ops: seq<Op<T>>, key: string, v: LookupValue<T>, now: nat, between: seq<Op<T>>, later: nat,
                             capacity: nat)
    requires !v.NotRequested?
    requires forall k :: 0 <= k < |between| ==> !(between[k].Record? && between[k].key == key)
    requires InUse(ops + [RecordOp(true, key, v, now)] + (between + [Lookup(key, later)]), key, capacity)
    ensures var kept := Run(ops + [RecordOp(true, key, v, now)] + (between + [Lookup(key, later)]), capacity).entries;
            var until := SaturatingAdd(now, if v.Found? then 21_600_000_000_000 else 600_000_000_000);
            && (key in kept <==> later < until && forall k :: 0 <= k < |between| ==> between[k].now < until)
            && (key in kept ==> kept[key] == Entry(if v.Found? then Some(v.value) else None, until))
  {
    hide InUse, Run;
    var until := SaturatingAdd(now, if v.Found? then 21_600_000_000_000 else 600_000_000_000);
    var e := Entry(if v.Found? then Some(v.value) else None, until);
    var recorded, since := ops + [RecordOp(true, key, v, now)], between + [Lookup(key, later)];
    assert Latest(recorded, key) == Some(e);
    LatestLasts(recorded, since, key, e);
    assert (forall k :: 0 <= k < |since| ==> since[k].now < until) <==>
        later < until && forall k :: 0 <= k < |between| ==> between[k].now < until by {
      assert since[|between|] == Lookup(key, later);
      assert forall k :: 0 <= k < |between| ==> since[k] == between[k];
    }
    if key in Run(recorded + since, capacity).entries { HitIsLatestRecord(recorded + since, capacity, key); }
    if Latest(recorded + since, key).Some? { InUseIsRetained(recorded + since, key, capacity); }
  }

  /** What was found is recorded for six hours, that there is nothing for ten minutes; without a result only what has
      expired goes. */
  lemma RecordOpIs<T>(asked: bool, key: string, v: LookupValue<T>, now: nat)
    ensures RecordOp(asked, key, v, now)
         == if asked && v.Found? then Record(key, Entry(Some(v.value), SaturatingAdd(now, 21_600_000_000_000)), now)
            else if asked && v.Missing? then Record(key, Entry(None, SaturatingAdd(now, 600_000_000_000)), now)
            else Purge(now)
  {}

  lemma RunExtended<T>(ops: seq<Op<T>>, op: Op<T>, capacity: nat)
    ensures Run(ops + [op], capacity) == Apply(Run(ops, capacity), op, capacity)
  {
    assert (ops + [op])[..|ops|] == ops;
  }

  function Unexpired<T>(m: map<string, CacheEntry<T>>, now: nat): map<string, CacheEntry<T>> {
    map k | k in m && now < m[k].expiresAt :: m[k]
  }

  lemma UnexpiredRefines<T>(m: map<string, CacheEntry<T>>, c: Cache<T>, bound: nat, now: nat)
    requires Refines(m, c, bound)
    ensures Refines(Unexpired(m, now), Expire(c, now), bound) && |Expire(c, now).order| <= |c.order|
  {
    ExpireFacts(c, now);
    DroppingStaysBelow(c.order, Expired(c, now), m, bound);
    BelowFrame(Expire(c, now).order, m, Unexpired(m, now), bound, bound);
    ForgetUnexpired(m, c, now);
  }

  lemma ForgetUnexpired<T>(m: map<string, CacheEntry<T>>, c: Cache<T>, now: nat)
    requires c.entries == Forget(m)
    ensures Forget(Unexpired(m, now)) == c.entries - Expired(c, now)
  {}

  /** Giving a key the next serial makes it the most recent one. */
  lemma StampedRefines<T>(m: map<string, CacheEntry<T>>, c: Cache<T>, key: string, e: CacheEntry<T>)
    requires Refines(m, c, e.accessSerial)
    ensures Refines(m[key := e], Put(c, key, Entry(e.value, e.expiresAt)), e.accessSerial + 1)
  {
    PutFacts(c, key, Entry(e.value, e.expiresAt));
    StampedBelow(m, c.order, key, e);
    assert Forget(m[key := e]) == Forget(m)[key := Entry(e.value, e.expiresAt)];
  }

  lemma StampedBelow<T>(m: map<string, CacheEntry<T>>, order: seq<string>, key: string, e: CacheEntry<T>)
    requires Below(order, m, e.accessSerial)
    ensures Below(Dropping(order, {key}) + [key], m[key := e], e.accessSerial + 1)
  {
    var kept := Dropping(order, {key});
    DroppingFacts(order, {key});
    DroppingStaysBelow(order, {key}, m, e.accessSerial);
    BelowFrame(kept, m, m[key := e], e.accessSerial, e.accessSerial);
    assert (kept + [key])[..|kept|] == kept;
  }

  /** Stamping a key with its own entry only moves it. */
  lemma RestampedRefines<T>(m: map<string, CacheEntry<T>>, c: Cache<T>, key: string, serial: nat)
    requires Refines(m, c, serial) && key in m
    ensures Refines(m[key := m[key].(accessSerial := serial)], Touch(c, key), serial + 1)
  {
    var e := m[key].(accessSerial := serial);
    StampedRefines(m, c, key, e);
    RefinesMeans(m, c, serial);
    assert c.entries[key := Entry(e.value, e.expiresAt)] == c.entries;
  }

  /** Stores an entry under a fresh serial and evicts down to capacity. */
  method Store<T>(m: map<string, CacheEntry<T>>, key: string, e: CacheEntry<T>, capacity: nat, ghost c: Cache<T>)
    returns (r: map<string, CacheEntry<T>>)
    requires Refines(m, c, e.accessSerial)
    ensures var d := Trim(Put(c, key, Entry(e.value, e.expiresAt)), capacity);
            Refines(r, d, e.accessSerial + 1) && |d.order| <= capacity
  {
    ghost var put := Put(c, key, Entry(e.value, e.expiresAt));
    StampedRefines(m, c, key, e);
    RefinesMeans(m[key := e], put, e.accessSerial + 1);
    r := EvictLru(m[key := e], capacity, put, e.accessSerial + 1);
    TrimFacts(put, capacity);
  }

  class EnrichmentCache<R> {
    const capacity: nat
    /** Whether a cached route is plausible for where the aircraft is now, and its label if so. */
    const labelFor: (R, Aircraft) -> Option<string>
    var routeEntries: map<string, CacheEntry<R>>
    var modelEntries: map<string, CacheEntry<string>>
    var accessSerial: nat
    /** The abstract caches, and the operations that led to them. */
    ghost var routes: Cache<R>
    ghost var models: Cache<string>
    ghost var routeOps: seq<Op<R>>
    ghost var modelOps: seq<Op<string>>

    /** Both maps hold their abstract cache, within capacity, under the shared counter. */
    ghost predicate Consistent()
      reads this
    {
      && capacity < U64_MAX && accessSerial <= U64_MAX
      && Refines(routeEntries, routes, accessSerial + 1) && |routes.order| <= capacity
      && Refines(modelEntries, models, accessSerial + 1) && |models.order| <= capacity
    }

    ghost predicate Valid()
      reads this
    {
      && Consistent()
      && routes == Run(routeOps, capacity)
      && models == Run(modelOps, capacity)
    }

    constructor (capacity: nat, labelFor: (R, Aircraft) -> Option<string>)
      requires capacity < U64_MAX
      ensures Valid() && this.capacity == capacity && this.labelFor == labelFor && routeOps == [] && modelOps == []
    {
      this.capacity, this.labelFor := capacity, labelFor;
      routeEntries, modelEntries, accessSerial := map[], map[], 0;
      routes, models, routeOps, modelOps := Cache([], map[]), Cache([], map[]), [], [];
    }

    method RemoveExpired(now: nat)
      requires Consistent()
      modifies this`routeEntries, this`modelEntries, this`routes, this`models
      ensures Consistent() && routes == Expire(old(routes), now) && models == Expire(old(models), now)
    {
      hide Refines, Expire, Unexpired;
      UnexpiredRefines(routeEntries, routes, accessSerial + 1, now);
      UnexpiredRefines(modelEntries, models, accessSerial + 1, now);
      routeEntries := Unexpired(routeEntries, now);
      modelEntries := Unexpired(modelEntries, now);
      routes, models := Expire(routes, now), Expire(models, now);
    }

    /** A serial above every serial in use.  Running out of numbers renumbers both maps, which leaves
        the order of use, and with it the next key to evict, as it was. */
    method NextAccessSerial() returns (serial: nat)
      requires Consistent()
      modifies this`routeEntries, this`modelEntries, this`accessSerial
      ensures Consistent() && serial == accessSerial
      ensures Refines(routeEntries, routes, serial) && Refines(modelEntries, models, serial)
      ensures if old(accessSerial) < 0xFFFF_FFFF_FFFF_FFFF then
                serial == old(accessSerial) + 1 && unchanged(`routeEntries) && unchanged(`modelEntries)
              else serial <= capacity + 1
    {
      if accessSerial == U64_MAX {
        Renumber();
      }
      accessSerial := accessSerial + 1;
      serial := accessSerial;
      RefinesWithin(routeEntries, routes, serial, serial + 1);
      RefinesWithin(modelEntries, models, serial, serial + 1);
    }

    method Renumber()
      requires Consistent()
      modifies this`routeEntries, this`modelEntries, this`accessSerial
      ensures Consistent() && accessSerial <= capacity
    {
      hide Refines;
      assert |routeEntries| <= capacity && |modelEntries| <= capacity by {
        RefinesMeans(routeEntries, routes, accessSerial + 1);
        RefinesMeans(modelEntries, models, accessSerial + 1);
      }
      var highestRoute, highestModel;
      routeEntries, highestRoute := RebaseAccessSerials(routeEntries, routes, accessSerial + 1);
      modelEntries, highestModel := RebaseAccessSerials(modelEntries, models, accessSerial + 1);
      accessSerial := if highestRoute >= highestModel then highestRoute else highestModel;
      RefinesWithin(routeEntries, routes, highestRoute + 1, accessSerial + 1);
      RefinesWithin(modelEntries, models, highestModel + 1, accessSerial + 1);
    }

    /** resolve: a hit is the latest unexpired record for the aircraft's key and becomes the most recent
        one. */
    method Resolve(aircraft: Aircraft, needs: EnrichmentNeeds, now: nat) returns (r: Resolution)
      requires Valid()
      modifies this
      ensures Valid()
      ensures routeOps == old(routeOps) + [if needs.route then Lookup(CallsignKey(aircraft), now) else Purge(now)]
      ensures modelOps == old(modelOps) + [if needs.model then Lookup(HexKey(aircraft), now) else Purge(now)]
      ensures r.pending.route <==> needs.route && CallsignKey(aircraft) !in Run(routeOps, capacity).entries
      ensures r.pending.model <==> needs.model && HexKey(aircraft) !in Run(modelOps, capacity).entries
      ensures if needs.route && !r.pending.route
              then RouteIsLatest(r.enrichment.route, routeOps, aircraft)
              else r.enrichment.route == None
      ensures if needs.model && !r.pending.model
              then ModelIsLatest(r.enrichment.model, modelOps, aircraft)
              else r.enrichment.model == None
    {
      hide Refines, Expire, Touch, Put, Trim, Run, Latest;
      RunExtended(routeOps, LookupOp(needs.route, CallsignKey(aircraft), now), capacity);
      RunExtended(modelOps, LookupOp(needs.model, HexKey(aircraft), now), capacity);
      routeOps := routeOps + [LookupOp(needs.route, CallsignKey(aircraft), now)];
      modelOps := modelOps + [LookupOp(needs.model, HexKey(aircraft), now)];
      RemoveExpired(now);
      var route, model: Option<string> := None, None;
      var pendingRoute, pendingModel := false, false;
      if needs.route {
        pendingRoute, route := ResolveRoute(aircraft);
        if !pendingRoute { HitIsLatestRecord(routeOps, capacity, CallsignKey(aircraft)); }
      }
      if needs.model {
        pendingModel, model := ResolveModel(aircraft);
        if !pendingModel { HitIsLatestRecord(modelOps, capacity, HexKey(aircraft)); }
      }
      r := Resolution(AircraftEnrichment(route, model), EnrichmentNeeds(pendingRoute, pendingModel));
    }

    ghost predicate RouteIsLatest(shown: Option<string>, ops: seq<Op<R>>, aircraft: Aircraft) {
      var latest := Latest(ops, CallsignKey(aircraft));
      latest.Some? && shown == (if latest.value.value.Some? then labelFor(latest.value.value.value, aircraft) else None)
    }

    ghost predicate ModelIsLatest(shown: Option<string>, ops: seq<Op<string>>, aircraft: Aircraft) {
      var latest := Latest(ops, HexKey(aircraft));
      latest.Some? && shown == latest.value.value
    }

    method ResolveRoute(aircraft: Aircraft) returns (pending: bool, text: Option<string>)
      requires Consistent()
      modifies this`routeEntries, this`modelEntries, this`accessSerial, this`routes
      ensures Consistent() && routes == Touch(old(routes), CallsignKey(aircraft))
      ensures pending <==> CallsignKey(aircraft) !in routes.entries
      ensures text == (if pending || routes.entries[CallsignKey(aircraft)].value.None? then None
                       else labelFor(routes.entries[CallsignKey(aircraft)].value.value, aircraft))
    {
      hide Refines, Dropping;
      var key := CallsignKey(aircraft);
      var serial := NextAccessSerial();
      RefinesMeans(routeEntries, routes, serial);
      TouchFacts(routes, key);
      pending := key !in routeEntries;
      text := None;
      if !pending {
        RestampedRefines(routeEntries, routes, key, serial);
        var entry := routeEntries[key].(accessSerial := serial);
        routeEntries := routeEntries[key := entry];
        routes := Touch(routes, key);
        if entry.value.Some? {
          text := labelFor(entry.value.value, aircraft);
        }
      }
    }

    method ResolveModel(aircraft: Aircraft) returns (pending: bool, model: Option<string>)
      requires Consistent()
      modifies this`routeEntries, this`modelEntries, this`accessSerial, this`models
      ensures Consistent() && models == Touch(old(models), HexKey(aircraft))
      ensures pending <==> HexKey(aircraft) !in models.entries
      ensures model == if pending then None else models.entries[HexKey(aircraft)].value
    {
      hide Refines, Dropping;
      var key := HexKey(aircraft);
      var serial := NextAccessSerial();
      RefinesMeans(modelEntries, models, serial);
      TouchFacts(models, key);
      pending := key !in modelEntries;
      model := None;
      if !pending {
        RestampedRefines(modelEntries, models, key, serial);
        var entry := modelEntries[key].(accessSerial := serial);
        modelEntries := modelEntries[key := entry];
        models := Touch(models, key);
        model := entry.value;
      }
    }

    /** record: stores what was asked for and found out, then evicts down to capacity. */
    method RecordLookup(aircraft: Aircraft, requested: EnrichmentNeeds, lookup: FlightLookup<R>, now: nat)
      requires Valid()
      modifies this
      ensures Valid()
      ensures routeOps == old(routeOps) + [RecordOp(requested.route, CallsignKey(aircraft), lookup.route, now)]
      ensures modelOps == old(modelOps) + [RecordOp(requested.model, HexKey(aircraft), lookup.model, now)]
    {
      hide Refines, Expire, Touch, Put, Trim, Run, Latest;
      RunExtended(routeOps, RecordOp(requested.route, CallsignKey(aircraft), lookup.route, now), capacity);
      RunExtended(modelOps, RecordOp(requested.model, HexKey(aircraft), lookup.model, now), capacity);
      routeOps := routeOps + [RecordOp(requested.route, CallsignKey(aircraft), lookup.route, now)];
      modelOps := modelOps + [RecordOp(requested.model, HexKey(aircraft), lookup.model, now)];
      RemoveExpired(now);
      if requested.route {
        RecordRoute(CallsignKey(aircraft), lookup.route, now);
      }
      if requested.model {
        RecordModel(HexKey(aircraft), lookup.model, now);
      }
    }

    method RecordRoute(key: string, route: LookupValue<R>, now: nat)
      requires Consistent()
      modifies this`routeEntries, this`modelEntries, this`accessSerial, this`routes
      ensures Consistent()
      ensures routes == if route.NotRequested? then old(routes)
                        else var (value, ttl) := CacheValue(route).value;
                             Trim(Put(old(routes), key, Entry(value, SaturatingAdd(now, ttl))), capacity)
    {
      hide Refines, Put, Trim;
      var entry := CacheValue(route);
      if entry.Some? {
        var (value, ttl) := entry.value;
        var serial := NextAccessSerial();
        routeEntries := Store(routeEntries, key, CacheEntry(value, SaturatingAdd(now, ttl), serial), capacity, routes);
        routes := Trim(Put(routes, key, Entry(value, SaturatingAdd(now, ttl))), capacity);
      }
    }

    method RecordModel(key: string, model: LookupValue<string>, now: nat)
      requires Consistent()
      modifies this`routeEntries, this`modelEntries, this`accessSerial, this`models
      ensures Consistent()
      ensures models == if model.NotRequested? then old(models)
                        else var (value, ttl) := CacheValue(model).value;
                             Trim(Put(old(models), key, Entry(value, SaturatingAdd(now, ttl))), capacity)
    {
      hide Refines, Put, Trim;
      var entry := CacheValue(model);
      if entry.Some? {
        var (value, ttl) := entry.value;
        var serial := NextAccessSerial();
        modelEntries := Store(modelEntries, key, CacheEntry(value, SaturatingAdd(now, ttl), serial), capacity, models);
        models := Trim(Put(models, key, Entry(value, SaturatingAdd(now, ttl))), capacity);
      }
    }
  }
}
