/**
 The abstract cache that src/flight_data.rs implements with serial numbers: keys in order of use, the
 least recently used first, and an entry with an expiry for each.  What a user of the cache may rely
 on is proved here, over whole histories of operations.
*/
module Recency {
  import opened Prelude

  datatype Entry<T> = Entry(value: Option<T>, expiresAt: nat)

  datatype Cache<T> = Cache(order: seq<string>, entries: map<string, Entry<T>>) {
    /** Every key has one place in the order. */
    ghost predicate Valid() {
      NoDuplicates(order) && Elements(order) == entries.Keys
    }
  }

  ghost function Elements(order: seq<string>): set<string> {
    if order == [] then {} else Elements(order[..|order| - 1]) + {order[|order| - 1]}
  }

  ghost predicate NoDuplicates(order: seq<string>) {
    order == [] || (NoDuplicates(order[..|order| - 1]) && order[|order| - 1] !in Elements(order[..|order| - 1]))
  }

  /** The order with some keys taken out. */
  function Dropping(order: seq<string>, gone: set<string>): seq<string> {
    if order == [] then []
    else
      var kept, last := Dropping(order[..|order| - 1], gone), order[|order| - 1];
      if last in gone then kept else kept + [last]
  }

  function Expired<T>(c: Cache<T>, now: nat): set<string> {
    set k | k in c.entries && c.entries[k].expiresAt <= now
  }

  function Expire<T>(c: Cache<T>, now: nat): Cache<T> {
    Cache(Dropping(c.order, Expired(c, now)), c.entries - Expired(c, now))
  }

  /** A lookup makes the key it hits the most recent one. */
  function Touch<T>(c: Cache<T>, key: string): Cache<T> {
    if key in c.entries then Cache(Dropping(c.order, {key}) + [key], c.entries) else c
  }

  function Put<T>(c: Cache<T>, key: string, entry: Entry<T>): Cache<T> {
    Cache(Dropping(c.order, {key}) + [key], c.entries[key := entry])
  }

  /** Evicts least recently used keys until at most `capacity` remain. */
  ghost function Trim<T>(c: Cache<T>, capacity: nat): Cache<T>
    decreases |c.order|
  {
    if |c.order| <= capacity then c else Trim(Cache(c.order[1..], c.entries - {c.order[0]}), capacity)
  }

  // ----- histories

  datatype Op<T> = Lookup(key: string, now: nat) | Record(key: string, entry: Entry<T>, now: nat) | Purge(now: nat) {
    function Used(): set<string> {
      match this
      case Lookup(key, _) => {key}
      case Record(key, _, _) => {key}
      case Purge(_) => {}
    }
  }

  ghost function Apply<T>(c: Cache<T>, op: Op<T>, capacity: nat): Cache<T> {
    match op
    case Lookup(key, now) => Touch(Expire(c, now), key)
    case Record(key, entry, now) => Trim(Put(Expire(c, now), key, entry), capacity)
    case Purge(now) => Expire(c, now)
  }

  ghost function Run<T>(ops: seq<Op<T>>, capacity: nat): Cache<T> {
    if ops == [] then Cache([], map[]) else Apply(Run(ops[..|ops| - 1], capacity), ops[|ops| - 1], capacity)
  }

  /** The latest record for a key, or None once a later operation came at or after its expiry. */
  ghost function Latest<T>(ops: seq<Op<T>>, key: string): Option<Entry<T>> {
    if ops == [] then None
    else
      var op := ops[|ops| - 1];
      if op.Record? && op.key == key then Some(op.entry)
      else
        var before := Latest(ops[..|ops| - 1], key);
        if before.Some? && op.now < before.value.expiresAt then before else None
  }

  /** The keys used since the given key was last used. */
  ghost function UsedSince<T>(ops: seq<Op<T>>, key: string): set<string> {
    if ops == [] then {}
    else
      var used := ops[|ops| - 1].Used();
      if key in used then {} else UsedSince(ops[..|ops| - 1], key) + used
  }

  /** At no moment since the key's latest record had as many other keys been used as the cache holds,
      counting from the key's own last use. */
  ghost predicate InUse<T>(ops: seq<Op<T>>, key: string, capacity: nat) {
    && ops != []
    && |UsedSince(ops, key)| < capacity
    && var op := ops[|ops| - 1];
    ((op.Record? && op.key == key) || InUse(ops[..|ops| - 1], key, capacity))
  }

  // ----- orders

  lemma AppendFacts(order: seq<string>, key: string)
    ensures Elements(order + [key]) == Elements(order) + {key}
    ensures NoDuplicates(order + [key]) <==> NoDuplicates(order) && key !in Elements(order)
  {
    assert (order + [key])[..|order|] == order;
  }

  lemma {:induction false} DroppingFacts(order: seq<string>, gone: set<string>)
    ensures Elements(Dropping(order, gone)) == Elements(order) - gone
    ensures NoDuplicates(order) ==> NoDuplicates(Dropping(order, gone))
    ensures |Dropping(order, gone)| <= |order|
  {
    if order != [] {
      DroppingFacts(order[..|order| - 1], gone);
      AppendFacts(Dropping(order[..|order| - 1], gone), order[|order| - 1]);
    }
  }

  lemma {:induction false} FirstFacts(order: seq<string>)
    requires order != [] && NoDuplicates(order)
    ensures order[0] in Elements(order)
    ensures NoDuplicates(order[1..]) && Elements(order[1..]) == Elements(order) - {order[0]}
  {
    if |order| == 1 {
      assert order[1..] == [] && order[..0] == [];
    } else {
      var last := order[|order| - 1];
      FirstFacts(order[..|order| - 1]);
      assert order[1..][..|order| - 2] == order[..|order| - 1][1..];
      assert order[1..] == order[..|order| - 1][1..] + [last];
      AppendFacts(order[..|order| - 1][1..], last);
    }
  }

  lemma {:induction false} ElementsCount(order: seq<string>)
    requires NoDuplicates(order)
    ensures |Elements(order)| == |order|
  {
    if order != [] { ElementsCount(order[..|order| - 1]); }
  }

  lemma {:induction false} SubsetCount(a: set<string>, b: set<string>)
    requires a <= b
    ensures |a| <= |b|
  {
    if a != {} {
      var x :| x in a;
      SubsetCount(a - {x}, b - {x});
    }
  }

  // ----- one operation

  lemma ExpireFacts<T>(c: Cache<T>, now: nat)
    requires c.Valid()
    ensures Expire(c, now).Valid() && |Expire(c, now).order| <= |c.order|
  {
    DroppingFacts(c.order, Expired(c, now));
  }

  lemma TouchFacts<T>(c: Cache<T>, key: string)
    requires c.Valid()
    ensures Touch(c, key).Valid() && |Touch(c, key).order| == |c.order| && Touch(c, key).entries == c.entries
  {
    DroppingFacts(c.order, {key});
    AppendFacts(Dropping(c.order, {key}), key);
    ElementsCount(c.order);
    ElementsCount(Touch(c, key).order);
  }

  lemma PutFacts<T>(c: Cache<T>, key: string, entry: Entry<T>)
    requires c.Valid()
    ensures Put(c, key, entry).Valid()
  {
    DroppingFacts(c.order, {key});
    AppendFacts(Dropping(c.order, {key}), key);
  }

  lemma {:induction false} TrimFacts<T>(c: Cache<T>, capacity: nat)
    requires c.Valid()
    ensures var d := Trim(c, capacity);
            d.Valid() && |d.order| <= capacity
            && forall k :: k in d.entries ==> k in c.entries && d.entries[k] == c.entries[k]
    decreases |c.order|
  {
    if |c.order| > capacity {
      FirstFacts(c.order);
      TrimFacts(Cache(c.order[1..], c.entries - {c.order[0]}), capacity);
    }
  }

  /** Every history leaves a valid cache of at most `capacity` keys. */
  lemma {:induction false} RunStaysBounded<T>(ops: seq<Op<T>>, capacity: nat)
    ensures Run(ops, capacity).Valid() && |Run(ops, capacity).order| <= capacity
  {
    if ops != [] {
      var c, op := Run(ops[..|ops| - 1], capacity), ops[|ops| - 1];
      RunStaysBounded(ops[..|ops| - 1], capacity);
      ExpireFacts(c, op.now);
      match op
      case Lookup(key, now) => TouchFacts(Expire(c, now), key);
      case Record(key, entry, now) =>
        PutFacts(Expire(c, now), key, entry);
        TrimFacts(Put(Expire(c, now), key, entry), capacity);
      case Purge(now) =>
    }
  }

  /** A hit is never stale: what the cache holds for a key is the latest record for it, and no operation
      since came at or after its expiry. */
  lemma {:induction false} HitIsLatestRecord<T>(ops: seq<Op<T>>, capacity: nat, key: string)
    requires key in Run(ops, capacity).entries
    ensures Latest(ops, key) == Some(Run(ops, capacity).entries[key])
  {
    var before, op := ops[..|ops| - 1], ops[|ops| - 1];
    var c := Run(before, capacity);
    RunStaysBounded(before, capacity);
    ExpireFacts(c, op.now);
    if op.Record? {
      PutFacts(Expire(c, op.now), op.key, op.entry);
      TrimFacts(Put(Expire(c, op.now), op.key, op.entry), capacity);
    }
    if !(op.Record? && op.key == key) {
      HitIsLatestRecord(before, capacity, key);
    }
  }

  // ----- retention

  /** The keys more recent than the given one. */
  function After(order: seq<string>, key: string): seq<string> {
    if order == [] || order[|order| - 1] == key then []
    else After(order[..|order| - 1], key) + [order[|order| - 1]]
  }

  lemma AfterAppend(order: seq<string>, last: string, key: string)
    ensures After(order + [last], key) == if last == key then [] else After(order, key) + [last]
  {
    assert (order + [last])[..|order|] == order;
  }

  lemma {:induction false} DroppingKeepsAfter(order: seq<string>, gone: set<string>, key: string)
    requires key !in gone
    ensures Elements(After(Dropping(order, gone), key)) <= Elements(After(order, key))
  {
    if order != [] {
      var init, last := order[..|order| - 1], order[|order| - 1];
      assert order == init + [last];
      AfterAppend(Dropping(init, gone), last, key);
      if last != key {
        DroppingKeepsAfter(init, gone, key);
        AppendFacts(After(Dropping(init, gone), key), last);
        AppendFacts(After(init, key), last);
      }
    }
  }

  lemma {:induction false} AfterFacts(order: seq<string>, key: string)
    requires NoDuplicates(order) && key in Elements(order)
    ensures NoDuplicates(After(order, key)) && |After(order, key)| < |order|
    ensures Elements(After(order, key)) <= Elements(order) - {key}
    ensures order[0] == key ==> |After(order, key)| == |order| - 1
  {
    var init, last := order[..|order| - 1], order[|order| - 1];
    if init != [] { FirstFacts(init); }
    if last != key {
      AfterFacts(init, key);
      AppendFacts(After(init, key), last);
    }
  }

  lemma {:induction false} AfterDropFirst(order: seq<string>, key: string)
    requires order != [] && order[0] != key
    ensures After(order[1..], key) == After(order, key)[(if |After(order, key)| == |order| then 1 else 0)..]
    ensures |After(order, key)| <= |order|
  {
    var init, last := order[..|order| - 1], order[|order| - 1];
    if |order| == 1 {
      assert order[1..] == [] && init == [];
    } else if last != key {
      AfterDropFirst(init, key);
      assert order[1..] == init[1..] + [last];
      AfterAppend(init[1..], last, key);
    } else {
      assert order[1..][|order| - 2] == key;
    }
  }

  /** Trimming spares a key with fewer than `capacity` keys after it, and those keys. */
  lemma {:induction false} TrimSpares<T>(c: Cache<T>, capacity: nat, key: string)
    requires c.Valid() && key in c.entries && |After(c.order, key)| < capacity
    ensures key in Trim(c, capacity).entries && Trim(c, capacity).entries[key] == c.entries[key]
    ensures After(Trim(c, capacity).order, key) == After(c.order, key)
    decreases |c.order|
  {
    if |c.order| > capacity {
      AfterFacts(c.order, key);
      FirstFacts(c.order);
      AfterDropFirst(c.order, key);
      TrimSpares(Cache(c.order[1..], c.entries - {c.order[0]}), capacity, key);
    }
  }

  /** A key in use is retained: its latest record is in the cache until it expires, and only keys used
      since its own last use are more recent. */
  lemma {:induction false} InUseIsRetained<T>(ops: seq<Op<T>>, key: string, capacity: nat)
    requires Latest(ops, key).Some? && InUse(ops, key, capacity)
    ensures key in Run(ops, capacity).entries && Latest(ops, key) == Some(Run(ops, capacity).entries[key])
    ensures Elements(After(Run(ops, capacity).order, key)) <= UsedSince(ops, key)
  {
    var before, op := ops[..|ops| - 1], ops[|ops| - 1];
    var c := Run(before, capacity);
    RunStaysBounded(before, capacity);
    if op.Record? && op.key == key {
      OwnRecordStays(c, op.now, key, op.entry, capacity);
    } else {
      InUseIsRetained(before, key, capacity);
      PurgeSpares(c, op.now, key);
      match op
      case Purge(now) =>
      case Lookup(other, now) => LookupSpares(Expire(c, now), other, key);
      case Record(other, entry, now) => RecordSpares(Expire(c, now), other, entry, capacity, key, UsedSince(ops, key));
    }
  }

  lemma OwnRecordStays<T>(c: Cache<T>, now: nat, key: string, entry: Entry<T>, capacity: nat)
    requires c.Valid() && capacity > 0
    ensures var d := Trim(Put(Expire(c, now), key, entry), capacity);
            key in d.entries && d.entries[key] == entry && After(d.order, key) == []
  {
    ExpireFacts(c, now);
    PutFacts(Expire(c, now), key, entry);
    AfterAppend(Dropping(Expire(c, now).order, {key}), key, key);
    TrimSpares(Put(Expire(c, now), key, entry), capacity, key);
  }

  lemma PurgeSpares<T>(c: Cache<T>, now: nat, key: string)
    requires c.Valid() && key in c.entries && now < c.entries[key].expiresAt
    ensures var d := Expire(c, now);
            d.Valid() && key in d.entries && d.entries[key] == c.entries[key]
            && Elements(After(d.order, key)) <= Elements(After(c.order, key))
  {
    ExpireFacts(c, now);
    DroppingKeepsAfter(c.order, Expired(c, now), key);
  }

  lemma LookupSpares<T>(c: Cache<T>, other: string, key: string)
    requires c.Valid() && key in c.entries
    ensures Elements(After(Touch(c, other).order, key))
            <= (if other == key then {} else Elements(After(c.order, key)) + {other})
  {
    AfterAppend(Dropping(c.order, {other}), other, key);
    if other != key {
      DroppingKeepsAfter(c.order, {other}, key);
      AppendFacts(After(Dropping(c.order, {other}), key), other);
    }
  }

  lemma RecordSpares<T>(c: Cache<T>, other: string, entry: Entry<T>, capacity: nat, key: string, used: set<string>)
    requires c.Valid() && key in c.entries && other != key
    requires Elements(After(c.order, key)) + {other} <= used && |used| < capacity
    ensures var d := Trim(Put(c, other, entry), capacity);
            key in d.entries && d.entries[key] == c.entries[key] && Elements(After(d.order, key)) <= used
  {
    var put := Put(c, other, entry);
    PutFacts(c, other, entry);
    AfterAppend(Dropping(c.order, {other}), other, key);
    DroppingKeepsAfter(c.order, {other}, key);
    AppendFacts(After(Dropping(c.order, {other}), key), other);
    AfterFacts(put.order, key);
    ElementsCount(After(put.order, key));
    SubsetCount(Elements(After(put.order, key)), used);
    TrimSpares(put, capacity, key);
  }
}
