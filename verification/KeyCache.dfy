/** The data-key cache in front of the key management service (KMS).
    Key ids stand for their UTF-8 bytes. What KMS decrypts is a function that may give
    nothing; what it encrypts is a parameter of the wrap. The cache is a JavaScript Map: a
    table with the insertion order of its keys, where setting a key that is present keeps
    its place. */
module KeyCache {
  import opened Prelude

  type Bytes = seq<nat>

  const CACHE_TTL_MS := 5 * 60 * 1000
  const MAX_CACHE_SIZE := 1000

  datatype Kms = Kms(keys: map<Bytes, string>, activeKeyId: Bytes,
                     decrypt: (string, Bytes) -> Option<Bytes>, digest: Bytes -> string)

  datatype Entry = Entry(key: Bytes, expiresAt: int)

  datatype Cache = Cache(order: seq<string>, table: map<string, Entry>)

  const EMPTY := Cache([], map[])

  /** The key id and the wrapped key are hashed one after the other, with nothing between. */
  function CacheKey(kms: Kms, keyId: Bytes, wrappedKey: Bytes): string {
    kms.digest(keyId + wrappedKey)
  }

  // ---- The Map ----

  function Without(order: seq<string>, x: string): seq<string> {
    if order == [] then []
    else if order[0] == x then Without(order[1..], x)
    else [order[0]] + Without(order[1..], x)
  }

  function Delete(c: Cache, x: string): Cache {
    Cache(Without(c.order, x), c.table - {x})
  }

  function Set(c: Cache, x: string, e: Entry): Cache {
    Cache(if x in c.table then c.order else c.order + [x], c.table[x := e])
  }

  /** The order lists each key of the table once. */
  ghost predicate WellFormed(c: Cache) {
    && (forall x :: x in c.order <==> x in c.table)
    && (forall i, j :: 0 <= i < j < |c.order| ==> c.order[i] != c.order[j])
  }

  lemma {:induction false} WithoutDropsOne(order: seq<string>, x: string)
    requires forall i, j :: 0 <= i < j < |order| ==> order[i] != order[j]
    ensures forall y :: y in Without(order, x) <==> y in order && y != x
    ensures forall i, j :: 0 <= i < j < |Without(order, x)| ==> Without(order, x)[i] != Without(order, x)[j]
    ensures |Without(order, x)| == |order| - if x in order then 1 else 0
  {
    if order != [] {
      var first, rest := order[0], order[1..];
      WithoutDropsOne(rest, x);
      assert order == [first] + rest;
      assert first !in rest;
    }
  }

  lemma DeleteIsWellFormed(c: Cache, x: string)
    requires WellFormed(c)
    ensures WellFormed(Delete(c, x)) && |Delete(c, x).order| == |c.order| - if x in c.table then 1 else 0
  {
    WithoutDropsOne(c.order, x);
  }

  // ---- Looking up and storing ----

  /** What a lookup answers. */
  function Cached(kms: Kms, c: Cache, keyId: Bytes, wrappedKey: Bytes, now: int): Option<Bytes> {
    var x := CacheKey(kms, keyId, wrappedKey);
    if x !in c.table || now > c.table[x].expiresAt then None else Some(c.table[x].key)
  }

  /** What a lookup leaves: an expired entry it meets is deleted. */
  function AfterLookup(kms: Kms, c: Cache, keyId: Bytes, wrappedKey: Bytes, now: int): Cache {
    var x := CacheKey(kms, keyId, wrappedKey);
    if x in c.table && now > c.table[x].expiresAt then Delete(c, x) else c
  }

  function Evict(c: Cache): Cache {
    if |c.order| >= MAX_CACHE_SIZE then Delete(c, c.order[0]) else c
  }

  /** Store, after making room: the oldest entry goes even when the key is present already. */
  function Stored(kms: Kms, c: Cache, keyId: Bytes, wrappedKey: Bytes, plaintextKey: Bytes, now: int): Cache {
    Set(Evict(c), CacheKey(kms, keyId, wrappedKey), Entry(plaintextKey, now + CACHE_TTL_MS))
  }

  lemma {:induction false} WithoutAbsent(order: seq<string>, x: string)
    requires x !in order
    ensures Without(order, x) == order
  {
    if order != [] {
      WithoutAbsent(order[1..], x);
    }
  }

  lemma EvictDropsOldest(c: Cache)
    requires WellFormed(c) && |c.order| >= MAX_CACHE_SIZE
    ensures Evict(c).order == c.order[1..]
    ensures forall x :: x in Evict(c).table <==> x in c.order[1..]
  {
    var first, rest := c.order[0], c.order[1..];
    assert first !in rest;
    assert Without(c.order, first) == Without(rest, first);
    WithoutAbsent(rest, first);
    assert c.order == [first] + rest;
  }

  /** Eviction is by age, not by use: a hit moves nothing, and storing into a full cache
      drops the entry stored longest ago and appends the new one. A key that is present
      already costs an older entry its place all the same. */
  lemma EvictionIsByAge(kms: Kms, c: Cache, keyId: Bytes, wrappedKey: Bytes, plaintextKey: Bytes, now: int)
    requires WellFormed(c)
    ensures Cached(kms, c, keyId, wrappedKey, now).Some? ==> AfterLookup(kms, c, keyId, wrappedKey, now) == c
    ensures |c.order| >= MAX_CACHE_SIZE ==>
      Stored(kms, c, keyId, wrappedKey, plaintextKey, now).order
      == c.order[1..] + if CacheKey(kms, keyId, wrappedKey) in c.order[1..] then [] else [CacheKey(kms, keyId, wrappedKey)]
  {
    if |c.order| >= MAX_CACHE_SIZE {
      EvictDropsOldest(c);
      assert CacheKey(kms, keyId, wrappedKey) in Evict(c).table <==> CacheKey(kms, keyId, wrappedKey) in c.order[1..];
    }
  }

  datatype Answer = Plain(key: Bytes) | UnknownKeyId | NoPlaintext

  /** What asking KMS every time would answer. */
  function Uncached(kms: Kms, keyId: Bytes, wrappedKey: Bytes): Answer {
    if keyId !in kms.keys then UnknownKeyId
    else
      match kms.decrypt(kms.keys[keyId], wrappedKey)
      case Some(key) => Plain(key)
      case None => NoPlaintext
  }

  // ---- Runs ----

  /** The points at which calls touch the cache. An unwrap is a `Looked`, and on a miss a
      `Fetched` any time later, when KMS has answered: the calls may overlap at will. */
  datatype Event =
    | Wrapped(wrappedKey: Bytes, plaintextKey: Bytes, now: int)
    | Looked(keyId: Bytes, wrappedKey: Bytes, now: int)
    | Fetched(keyId: Bytes, wrappedKey: Bytes, now: int)

  /** KMS decrypts what it encrypted. */
  predicate Genuine(kms: Kms, e: Event) {
    e.Wrapped? ==> Uncached(kms, kms.activeKeyId, e.wrappedKey) == Plain(e.plaintextKey)
  }

  function Step(kms: Kms, c: Cache, e: Event): Cache {
    match e
    case Wrapped(wrappedKey, plaintextKey, now) => Stored(kms, c, kms.activeKeyId, wrappedKey, plaintextKey, now)
    case Looked(keyId, wrappedKey, now) =>
      if keyId !in kms.keys then c else AfterLookup(kms, c, keyId, wrappedKey, now)
    case Fetched(keyId, wrappedKey, now) =>
      var answer := Uncached(kms, keyId, wrappedKey);
      if answer.Plain? then Stored(kms, c, keyId, wrappedKey, answer.key, now) else c
  }

  function Run(kms: Kms, events: seq<Event>): Cache {
    if events == [] then EMPTY
    else Step(kms, Run(kms, events[..|events| - 1]), events[|events| - 1])
  }

  ghost predicate AllGenuine(kms: Kms, events: seq<Event>) {
    forall i :: 0 <= i < |events| ==> Genuine(kms, events[i])
  }

  /** Event `e` put `key` under (keyId, wrappedKey) at time `e.now`. */
  predicate Stores(kms: Kms, e: Event, keyId: Bytes, wrappedKey: Bytes, key: Bytes) {
    && !e.Looked? && wrappedKey == e.wrappedKey
    && keyId == (if e.Wrapped? then kms.activeKeyId else e.keyId)
    && Uncached(kms, keyId, wrappedKey) == Plain(key)
  }

  /** Some event of the run accounts for the entry and its expiry. */
  ghost predicate Backed(kms: Kms, events: seq<Event>, x: string, entry: Entry) {
    exists i, keyId :: 0 <= i < |events| && BackedBy(kms, events[i], keyId, x, entry)
  }

  predicate BackedBy(kms: Kms, e: Event, keyId: Bytes, x: string, entry: Entry) {
    && Stores(kms, e, keyId, e.wrappedKey, entry.key)
    && x == CacheKey(kms, keyId, e.wrappedKey) && entry.expiresAt == e.now + CACHE_TTL_MS
  }

  ghost predicate AllBacked(kms: Kms, events: seq<Event>, c: Cache) {
    forall x :: x in c.table ==> Backed(kms, events, x, c.table[x])
  }

  /** The order lists each key once, and there are at most as many as allowed. */
  ghost predicate Tidy(c: Cache) {
    WellFormed(c) && |c.order| <= MAX_CACHE_SIZE
  }

  lemma StoringKeepsTidy(kms: Kms, c: Cache, keyId: Bytes, wrappedKey: Bytes, plaintextKey: Bytes, now: int)
    requires Tidy(c)
    ensures var c' := Stored(kms, c, keyId, wrappedKey, plaintextKey, now);
            Tidy(c') && |c'.table| <= MAX_CACHE_SIZE
  {
    if |c.order| >= MAX_CACHE_SIZE {
      assert c.order[0] in c.order;
      DeleteIsWellFormed(c, c.order[0]);
    }
    SizeIsOrder(Stored(kms, c, keyId, wrappedKey, plaintextKey, now));
  }

  /** Every lookup made at `now` or later gets the same answer from both. */
  ghost predicate SameFrom(kms: Kms, c: Cache, c': Cache, now: int) {
    forall keyId: Bytes, wrappedKey: Bytes, t: int ::
      t >= now ==> Cached(kms, c', keyId, wrappedKey, t) == Cached(kms, c, keyId, wrappedKey, t)
  }

  lemma LookupLeavesLaterAnswers(kms: Kms, c: Cache, keyId: Bytes, wrappedKey: Bytes, now: int)
    ensures SameFrom(kms, c, AfterLookup(kms, c, keyId, wrappedKey, now), now)
  {
  }

  lemma StepKeepsForm(kms: Kms, c: Cache, e: Event)
    requires Tidy(c)
    ensures Tidy(Step(kms, c, e))
  {
    if e.Looked? {
      DeleteIsWellFormed(c, CacheKey(kms, e.keyId, e.wrappedKey));
    } else if e.Wrapped? {
      StoringKeepsTidy(kms, c, kms.activeKeyId, e.wrappedKey, e.plaintextKey, e.now);
    } else if Uncached(kms, e.keyId, e.wrappedKey).Plain? {
      StoringKeepsTidy(kms, c, e.keyId, e.wrappedKey, Uncached(kms, e.keyId, e.wrappedKey).key, e.now);
    }
  }

  /** Over every run the cache lists each key once and never exceeds its maximum. */
  lemma {:induction false} CacheStaysBounded(kms: Kms, events: seq<Event>)
    ensures Tidy(Run(kms, events)) && |Run(kms, events).table| <= MAX_CACHE_SIZE
  {
    if events != [] {
      var before := events[..|events| - 1];
      CacheStaysBounded(kms, before);
      StepKeepsForm(kms, Run(kms, before), events[|events| - 1]);
    }
    SizeIsOrder(Run(kms, events));
  }

  lemma SizeIsOrder(c: Cache)
    requires WellFormed(c)
    ensures |c.table| == |c.order|
  {
    assert |c.table| == |c.table.Keys|;
    assert c.table.Keys == set x | x in c.order;
    DistinctCount(c.order);
  }

  lemma {:induction false} DistinctCount(order: seq<string>)
    requires forall i, j :: 0 <= i < j < |order| ==> order[i] != order[j]
    ensures |set x | x in order| == |order|
  {
    if order == [] {
      assert (set x | x in order) == {};
    } else {
      var rest := order[1..];
      DistinctCount(rest);
      assert order == [order[0]] + rest;
      assert (set x | x in order) == {order[0]} + set x | x in rest;
      assert order[0] !in rest;
    }
  }

  lemma StepStaysBacked(kms: Kms, events: seq<Event>, c: Cache, e: Event)
    requires AllBacked(kms, events, c) && Genuine(kms, e)
    ensures AllBacked(kms, events + [e], Step(kms, c, e))
  {
    var all, next := events + [e], Step(kms, c, e);
    forall x | x in next.table ensures Backed(kms, all, x, next.table[x]) {
      if x in c.table && next.table[x] == c.table[x] {
        var i, keyId :| 0 <= i < |events| && BackedBy(kms, events[i], keyId, x, c.table[x]);
        assert BackedBy(kms, all[i], keyId, x, next.table[x]);
      } else {
        var keyId := if e.Wrapped? then kms.activeKeyId else e.keyId;
        assert BackedBy(kms, all[|events|], keyId, x, next.table[x]);
      }
    }
  }

  /** Over every run each entry goes back to a wrap or a KMS answer, one lifetime before it expires. */
  lemma {:induction false} RunStaysBacked(kms: Kms, events: seq<Event>)
    requires AllGenuine(kms, events)
    ensures AllBacked(kms, events, Run(kms, events))
  {
    if events != [] {
      var before, last := events[..|events| - 1], events[|events| - 1];
      RunStaysBacked(kms, before);
      StepStaysBacked(kms, before, Run(kms, before), last);
      assert events == before + [last];
    }
  }

  // ---- When cache keys collide ----

  ghost predicate Collisionless(digest: Bytes -> string) {
    forall x: Bytes, y: Bytes :: digest(x) == digest(y) ==> x == y
  }

  /** No configured key id begins another. */
  predicate PrefixFree(ids: set<Bytes>) {
    forall a, b :: a in ids && b in ids && a <= b ==> a == b
  }

  /** Under a collisionless hash, two configured pairs with one cache key are the same pair. */
  lemma CacheKeyIsInjective(kms: Kms, a: Bytes, v: Bytes, b: Bytes, w: Bytes)
    requires Collisionless(kms.digest) && PrefixFree(kms.keys.Keys)
    requires a in kms.keys && b in kms.keys && CacheKey(kms, a, v) == CacheKey(kms, b, w)
    ensures a == b && v == w
  {
    var s := a + v;
    assert s == b + w;
    assert a == s[..|a|] && b == s[..|b|];
    assert a <= b || b <= a;
    assert v == s[|a|..] && w == s[|b|..];
  }

  /** The lookup's answer is right: nothing, or what KMS would say, taken from an event of
      this run for the same key no longer than a lifetime ago. */
  ghost predicate AnswerIsRight(kms: Kms, events: seq<Event>, keyId: Bytes, wrappedKey: Bytes, now: int) {
    var answer := Cached(kms, Run(kms, events), keyId, wrappedKey, now);
    answer.Some? ==>
      && Uncached(kms, keyId, wrappedKey) == Plain(answer.value)
      && exists i :: 0 <= i < |events| && Stores(kms, events[i], keyId, wrappedKey, answer.value)
                     && now <= events[i].now + CACHE_TTL_MS
  }

  /** The cache is transparent and serves nothing expired, over every run, whatever the
      times and however the calls overlap, when no key id begins another. */
  lemma CacheIsTransparent(kms: Kms, events: seq<Event>, keyId: Bytes, wrappedKey: Bytes, now: int)
    requires AllGenuine(kms, events) && keyId in kms.keys
    requires Collisionless(kms.digest) && PrefixFree(kms.keys.Keys)
    ensures AnswerIsRight(kms, events, keyId, wrappedKey, now)
  {
    RunStaysBacked(kms, events);
    var c, x := Run(kms, events), CacheKey(kms, keyId, wrappedKey);
    if x in c.table {
      var i, other :| 0 <= i < |events| && BackedBy(kms, events[i], other, x, c.table[x]);
      CacheKeyIsInjective(kms, keyId, wrappedKey, other, events[i].wrappedKey);
      assert Stores(kms, events[i], keyId, wrappedKey, c.table[x].key);
    }
  }

  /** When one key id begins another, the missing bytes can be taken for the start of the
      wrapped key: the second key's lookup is answered with the first one's plaintext. */
  lemma PrefixedIdsAnswerWrongly(keys: map<Bytes, string>, digest: Bytes -> string, a: Bytes, b: Bytes, w: Bytes, now: int)
    requires a in keys && b in keys && a < b
    ensures var kms := Kms(keys, a, (name, ciphertext) => Some(ciphertext), digest);
            var events := [Fetched(a, b[|a|..] + w, now)];
            AllGenuine(kms, events) && !AnswerIsRight(kms, events, b, w, now)
  {
    var kms := Kms(keys, a, (name, ciphertext) => Some(ciphertext), digest);
    var extra := b[|a|..];
    var e := Fetched(a, extra + w, now);
    assert a + (extra + w) == b + w;
    assert [e][..0] == [];
    assert Run(kms, [e]) == Step(kms, EMPTY, e);
    assert Cached(kms, Run(kms, [e]), b, w, now) == Some(extra + w);
    assert |extra + w| > |w|;
  }

  /** Exactly when: whatever KMS holds, every lookup of every run is right, if and only if no
      configured key id begins another. */
  lemma TransparentExactlyWhenPrefixFree(keys: map<Bytes, string>, digest: Bytes -> string)
    requires Collisionless(digest)
    ensures PrefixFree(keys.Keys) <==>
            forall kms: Kms, events: seq<Event>, keyId: Bytes, w: Bytes, now: int ::
              kms.keys == keys && kms.digest == digest && AllGenuine(kms, events) && keyId in keys
              ==> AnswerIsRight(kms, events, keyId, w, now)
  {
    if PrefixFree(keys.Keys) {
      forall kms: Kms, events: seq<Event>, keyId: Bytes, w: Bytes, now: int
        | kms.keys == keys && kms.digest == digest && AllGenuine(kms, events) && keyId in keys
        ensures AnswerIsRight(kms, events, keyId, w, now)
      {
        CacheIsTransparent(kms, events, keyId, w, now);
      }
    } else {
      var a, b :| a in keys && b in keys && a <= b && a != b;
      PrefixedIdsAnswerWrongly(keys, digest, a, b, [], 0);
    }
  }

  // ---- The service ----

  class CloudKmsKeyManager {
    const kms: Kms
    var unwrappedKeyCache: Cache
    ghost var history: seq<Event>

    /** The cache is the outcome of the calls so far, each of them genuine. */
    ghost predicate Valid() reads this {
      && kms.activeKeyId in kms.keys
      && AllGenuine(kms, history) && unwrappedKeyCache == Run(kms, history)
    }

    constructor (kms: Kms)
      requires kms.activeKeyId in kms.keys
      ensures Valid() && this.kms == kms && unwrappedKeyCache == EMPTY
    {
      this.kms := kms;
      unwrappedKeyCache := EMPTY;
      history := [];
    }

    /** An answer is an entry that has not expired, right whenever cache keys are. Deleting
        the expired entry shows in no lookup of any key from now on. */
    method GetCachedUnwrappedKey(wrappedKey: Bytes, keyId: Bytes, now: int) returns (key: Option<Bytes>)
      modifies `unwrappedKeyCache
      ensures key == Cached(kms, old(unwrappedKeyCache), keyId, wrappedKey, now)
      ensures unwrappedKeyCache == AfterLookup(kms, old(unwrappedKeyCache), keyId, wrappedKey, now)
      ensures key.Some? ==> unwrappedKeyCache == old(unwrappedKeyCache)
      ensures key.None? ==> CacheKey(kms, keyId, wrappedKey) !in unwrappedKeyCache.table
      ensures forall x :: x != CacheKey(kms, keyId, wrappedKey) ==>
        && (x in unwrappedKeyCache.table <==> x in old(unwrappedKeyCache.table))
        && (x in unwrappedKeyCache.table ==> unwrappedKeyCache.table[x] == old(unwrappedKeyCache.table[x]))
      ensures key.Some? ==>
        exists x :: x in unwrappedKeyCache.table && unwrappedKeyCache.table[x].key == key.value && now <= unwrappedKeyCache.table[x].expiresAt
      ensures SameFrom(kms, old(unwrappedKeyCache), unwrappedKeyCache, now)
      ensures old(Valid()) && keyId in kms.keys && Collisionless(kms.digest) && PrefixFree(kms.keys.Keys) && key.Some? ==>
        Uncached(kms, keyId, wrappedKey) == Plain(key.value)
    {
      LookupLeavesLaterAnswers(kms, unwrappedKeyCache, keyId, wrappedKey, now);
      if Valid() && keyId in kms.keys && Collisionless(kms.digest) && PrefixFree(kms.keys.Keys) {
        CacheIsTransparent(kms, history, keyId, wrappedKey, now);
      }
      var cacheKey := CacheKey(kms, keyId, wrappedKey);
      if cacheKey !in unwrappedKeyCache.table {
        return None;
      }
      var entry := unwrappedKeyCache.table[cacheKey];
      if now > entry.expiresAt {
        unwrappedKeyCache := Delete(unwrappedKeyCache, cacheKey);
        return None;
      }
      return Some(entry.key);
    }

    /** The key is then answered for exactly its lifetime, every other entry is as it was or
        gone, and the cache keeps its form and its bound. */
    method CacheUnwrappedKey(wrappedKey: Bytes, keyId: Bytes, plaintextKey: Bytes, now: int)
      modifies `unwrappedKeyCache
      ensures unwrappedKeyCache == Stored(kms, old(unwrappedKeyCache), keyId, wrappedKey, plaintextKey, now)
      ensures forall t :: Cached(kms, unwrappedKeyCache, keyId, wrappedKey, t)
                       == if t <= now + CACHE_TTL_MS then Some(plaintextKey) else None
      ensures forall x :: x in unwrappedKeyCache.table && x != CacheKey(kms, keyId, wrappedKey) ==>
        x in old(unwrappedKeyCache.table) && unwrappedKeyCache.table[x] == old(unwrappedKeyCache.table[x])
      ensures old(Tidy(unwrappedKeyCache)) ==> Tidy(unwrappedKeyCache) && |unwrappedKeyCache.table| <= MAX_CACHE_SIZE
    {
      if Tidy(unwrappedKeyCache) {
        StoringKeepsTidy(kms, unwrappedKeyCache, keyId, wrappedKey, plaintextKey, now);
      }
      if |unwrappedKeyCache.order| >= MAX_CACHE_SIZE {
        unwrappedKeyCache := Delete(unwrappedKeyCache, unwrappedKeyCache.order[0]);
      }
      unwrappedKeyCache := Set(unwrappedKeyCache, CacheKey(kms, keyId, wrappedKey), Entry(plaintextKey, now + CACHE_TTL_MS));
    }

    /** `reply` is the ciphertext KMS returned, if any. */
    method WrapDataKey(plaintextKey: Bytes, reply: Option<Bytes>, now: int) returns (wrapped: Option<(Bytes, Bytes)>)
      requires Valid()
      requires reply.Some? ==> Uncached(kms, kms.activeKeyId, reply.value) == Plain(plaintextKey)
      modifies this
      ensures Valid()
      ensures reply.None? ==> wrapped == None && unwrappedKeyCache == old(unwrappedKeyCache)
      ensures reply.Some? ==> wrapped == Some((reply.value, kms.activeKeyId))
                              && Cached(kms, unwrappedKeyCache, kms.activeKeyId, reply.value, now) == Some(plaintextKey)
    {
      if reply.None? {
        return None;
      }
      HistoryGrows(kms, history, Wrapped(reply.value, plaintextKey, now));
      CacheUnwrappedKey(reply.value, kms.activeKeyId, plaintextKey, now);
      history := history + [Wrapped(reply.value, plaintextKey, now)];
      wrapped := Some((reply.value, kms.activeKeyId));
    }

    /** `now` is the time of the lookup, `later` the time KMS answered. */
    method UnwrapDataKey(wrappedKey: Bytes, keyId: Bytes, now: int, later: int) returns (answer: Answer)
      requires Valid()
      modifies this
      ensures Valid()
      ensures var cached := Cached(kms, old(unwrappedKeyCache), keyId, wrappedKey, now);
              answer == if keyId in kms.keys && cached.Some? then Plain(cached.value) else Uncached(kms, keyId, wrappedKey)
      ensures Collisionless(kms.digest) && PrefixFree(kms.keys.Keys) ==> answer == Uncached(kms, keyId, wrappedKey)
      ensures answer.Plain? ==>
        var hit := Cached(kms, old(unwrappedKeyCache), keyId, wrappedKey, now).Some?;
        Cached(kms, unwrappedKeyCache, keyId, wrappedKey, if hit then now else later) == Some(answer.key)
      ensures |unwrappedKeyCache.table| <= MAX_CACHE_SIZE
    {
      if keyId !in kms.keys {
        CacheStaysBounded(kms, history);
        return UnknownKeyId;
      }
      HistoryGrows(kms, history, Looked(keyId, wrappedKey, now));
      var cachedKey := GetCachedUnwrappedKey(wrappedKey, keyId, now);
      history := history + [Looked(keyId, wrappedKey, now)];
      if cachedKey.Some? {
        CacheStaysBounded(kms, history);
        return Plain(cachedKey.value);
      }
      answer := FetchDataKey(wrappedKey, keyId, later);
    }

    /** The rest of an unwrap that missed: ask KMS, and cache its answer. */
    method FetchDataKey(wrappedKey: Bytes, keyId: Bytes, later: int) returns (answer: Answer)
      requires Valid() && keyId in kms.keys
      modifies this
      ensures Valid()
      ensures answer == Uncached(kms, keyId, wrappedKey)
      ensures answer.Plain? ==> Cached(kms, unwrappedKeyCache, keyId, wrappedKey, later) == Some(answer.key)
      ensures !answer.Plain? ==> unwrappedKeyCache == old(unwrappedKeyCache)
      ensures |unwrappedKeyCache.table| <= MAX_CACHE_SIZE
    {
      CacheStaysBounded(kms, history);
      var plaintext := kms.decrypt(kms.keys[keyId], wrappedKey);
      if plaintext.None? {
        return NoPlaintext;
      }
      HistoryGrows(kms, history, Fetched(keyId, wrappedKey, later));
      CacheUnwrappedKey(wrappedKey, keyId, plaintext.value, later);
      history := history + [Fetched(keyId, wrappedKey, later)];
      answer := Plain(plaintext.value);
    }
  }

  lemma HistoryGrows(kms: Kms, events: seq<Event>, e: Event)
    requires AllGenuine(kms, events) && Genuine(kms, e)
    ensures AllGenuine(kms, events + [e])
    ensures Run(kms, events + [e]) == Step(kms, Run(kms, events), e)
  {
    assert (events + [e])[..|events|] == events;
  }
}
