/** The bounded cache of cache.go: a map from key to item plus a recency
    list (most recently used first), with per-entry expiry and
    least-recently-used eviction. Time is the integer `now` supplied by the
    caller, in the same unit as the time-to-live. */
module LruCache {
  import opened Sequences

  /** A stored value and the instant it expires at (CacheItem). */
  datatype Item = Item(value: string, expiry: int)

  /** The cache's state as a value: `eviction` is the recency list, front
      (index 0) most recently used, and `items` maps each key to its item. */
  datatype Store = Store(eviction: seq<string>, items: map<string, Item>)

  /** What a Get hands back: the new state, the value and whether it was found. */
  datatype Lookup = Lookup(store: Store, value: string, found: bool)

  /** The map and the recency list describe the same keys, each listed once. */
  ghost predicate Consistent(s: Store) {
    && Distinct(s.eviction)
    && forall k :: k in s.eviction <==> k in s.items
  }

  function Max(a: int, b: int): int {
    if a < b then b else a
  }

  /** time.Now().After(expiry): the item is expired only strictly after its
      expiry instant. */
  predicate Expired(it: Item, now: int) {
    now > it.expiry
  }

  /** An item is still live at its expiry instant, and once expired it stays
      expired at every later time. */
  lemma ExpiryIsStrict(it: Item, now: int)
    ensures !Expired(it, it.expiry)
    ensures Expired(it, now) ==> forall later :: later >= now ==> Expired(it, later)
  {
  }

  /** The keys a sweep at `now` removes. */
  function ExpiredKeys(s: Store, now: int): set<string> {
    set k | k in s.items && Expired(s.items[k], now)
  }

  /** A consistent store has as many list entries as map entries. */
  lemma ConsistentSize(s: Store)
    requires Consistent(s)
    ensures |s.eviction| == |s.items|
  {
    DistinctCardinality(s.eviction);
    assert (set x | x in s.eviction) == s.items.Keys;
  }

  /** evictLRU: drop the back of the recency list and its map entry; an empty
      list is left alone. */
  function AfterEvictLru(s: Store): (t: Store)
    ensures s.eviction == [] ==> t == s
    ensures s.eviction != [] ==>
      var back := s.eviction[|s.eviction| - 1];
      && t.eviction == s.eviction[..|s.eviction| - 1]
      && forall k :: k in t.items <==> k in s.items && k != back
    ensures forall k :: k in t.items ==> k in s.items && t.items[k] == s.items[k]
    ensures Consistent(s) ==> Consistent(t)
  {
    if s.eviction == [] then s
    else
      var n := |s.eviction|;
      var t := Store(s.eviction[..n - 1], s.items - {s.eviction[n - 1]});
      assert Consistent(s) ==> forall k :: k in s.items && k != s.eviction[n - 1] ==> k in t.eviction by {
        if Consistent(s) {
          forall k | k in s.items && k != s.eviction[n - 1] ensures k in t.eviction {
            var i :| 0 <= i < n && s.eviction[i] == k;
            assert i < n - 1 && t.eviction[i] == k;
          }
        }
      }
      t
  }

  /** Cache.Set: drop any old entry for `key`, evict the back when the list is
      at capacity, then put the new entry at the front. */
  function AfterSet(s: Store, capacity: int, key: string, value: string, expiry: int): (t: Store)
    ensures t.eviction != [] && t.eviction[0] == key
    ensures key in t.items && t.items[key] == Item(value, expiry)
    ensures forall k :: k in t.items && k != key ==> k in s.items && t.items[k] == s.items[k]
    ensures Consistent(s) ==> Consistent(t)
  {
    var unlinked := if key in s.items then Store(Without(s.eviction, {key}), s.items - {key}) else s;
    var room := if |unlinked.eviction| >= capacity then AfterEvictLru(unlinked) else unlinked;
    Store([key] + room.eviction, room.items[key := Item(value, expiry)])
  }

  /** Cache.Get: a missing or expired key is reported as ("", false), an
      expired one also removed; a live one is moved to the front. */
  function AfterGet(s: Store, key: string, now: int): (r: Lookup)
    ensures r.found <==> key in s.items && !Expired(s.items[key], now)
    ensures r.found ==> && r.value == s.items[key].value
                        && r.store.items == s.items
                        && r.store.eviction != [] && r.store.eviction[0] == key
    ensures !r.found ==> r.value == "" && r.store.items == s.items - {key}
    ensures key !in s.items ==> r.store == s
    ensures Consistent(s) ==> Consistent(r.store) && |r.store.eviction| <= |s.eviction|
  {
    if key !in s.items || Expired(s.items[key], now) then
      var store := if key in s.items then Store(Without(s.eviction, {key}), s.items - {key}) else s;
      Lookup(store, "", false)
    else
      assert Consistent(s) ==> |Without(s.eviction, {key})| == |s.eviction| - 1 by {
        if Consistent(s) { WithoutOneLength(s.eviction, key); }
      }
      Lookup(Store([key] + Without(s.eviction, {key}), s.items), s.items[key].value, true)
  }

  /** evictExpiredItems: remove every expired entry, keep the others. */
  function AfterSweep(s: Store, now: int): (t: Store)
    ensures forall k :: k in t.items <==> k in s.items && !Expired(s.items[k], now)
    ensures forall k :: k in t.items ==> t.items[k] == s.items[k]
    ensures |t.eviction| <= |s.eviction|
    ensures Consistent(s) ==> Consistent(t)
  {
    Store(Without(s.eviction, ExpiredKeys(s, now)),
          map k | k in s.items && !Expired(s.items[k], now) :: s.items[k])
  }

  /** Part way through a sweep of `s`: the keys still `pending` are untouched,
      the expired keys already visited are `removed`, and `t` is `s` without
      them. */
  ghost predicate SweepProgress(s: Store, now: int, pending: set<string>, removed: set<string>, t: Store) {
    && pending <= s.items.Keys
    && removed == ExpiredKeys(s, now) - pending
    && (forall k :: k in t.items <==> k in s.items && (k in pending || k !in ExpiredKeys(s, now)))
    && (forall k :: k in t.items ==> t.items[k] == s.items[k])
    && t.eviction == Without(s.eviction, removed)
  }

  /** Visiting one pending key keeps the sweep on track. */
  lemma SweepStep(s: Store, now: int, pending: set<string>, removed: set<string>, t: Store, key: string)
    requires SweepProgress(s, now, pending, removed, t) && key in pending
    ensures key in t.items
    ensures Expired(t.items[key], now) ==>
      SweepProgress(s, now, pending - {key}, removed + {key}, Store(Without(t.eviction, {key}), t.items - {key}))
    ensures !Expired(t.items[key], now) ==>
      SweepProgress(s, now, pending - {key}, removed, t)
  {
    var dead := ExpiredKeys(s, now);
    if Expired(t.items[key], now) {
      assert key in dead;
      WithoutTwice(s.eviction, removed, {key});
      var t' := Store(Without(t.eviction, {key}), t.items - {key});
      assert removed + {key} == dead - (pending - {key});
      assert forall k :: k in t'.items <==> k in s.items && (k in pending - {key} || k !in dead);
    } else {
      assert key !in dead;
      assert removed == dead - (pending - {key});
    }
  }

  /** Once nothing is pending, the sweep has reached AfterSweep. */
  lemma SweepResult(s: Store, now: int, removed: set<string>, t: Store)
    requires SweepProgress(s, now, {}, removed, t)
    ensures t == AfterSweep(s, now)
  {
    assert removed == ExpiredKeys(s, now);
    assert t.items == AfterSweep(s, now).items;
  }

  /** Starting from a consistent store within the bound, a Set never leaves
      more than max(capacity, 1) entries. */
  lemma SetBoundsSize(s: Store, capacity: int, key: string, value: string, expiry: int)
    requires Consistent(s) && |s.eviction| <= Max(capacity, 1)
    ensures var t := AfterSet(s, capacity, key, value, expiry);
            |t.eviction| == |t.items| <= Max(capacity, 1)
  {
    var t := AfterSet(s, capacity, key, value, expiry);
    ConsistentSize(t);
    if key in s.items {
      WithoutOneLength(s.eviction, key);
    }
  }

  /** Setting a new key when the list is at capacity evicts exactly the least
      recently used key and no other. */
  lemma SetEvictsBack(s: Store, capacity: int, key: string, value: string, expiry: int)
    requires Consistent(s) && key !in s.items
    requires |s.eviction| >= capacity && s.eviction != []
    ensures var t := AfterSet(s, capacity, key, value, expiry);
            var back := s.eviction[|s.eviction| - 1];
            && t.eviction == [key] + s.eviction[..|s.eviction| - 1]
            && t.items.Keys == s.items.Keys - {back} + {key}
  {
  }

  /** Setting a new key below capacity evicts nothing. */
  lemma SetBelowCapacityKeepsAll(s: Store, capacity: int, key: string, value: string, expiry: int)
    requires key !in s.items && |s.eviction| < capacity
    ensures var t := AfterSet(s, capacity, key, value, expiry);
            && t.eviction == [key] + s.eviction
            && t.items == s.items[key := Item(value, expiry)]
  {
  }

  /** Setting a key that is already present (within the bound) replaces its
      item and moves it to the front: the key is never counted twice and no
      other key is evicted or reordered. */
  lemma SetRefreshEvictsNothing(s: Store, capacity: int, key: string, value: string, expiry: int, a: string, b: string)
    requires Consistent(s) && key in s.items && |s.eviction| <= Max(capacity, 1)
    requires a != key && b != key
    ensures var t := AfterSet(s, capacity, key, value, expiry);
            && t.items == s.items[key := Item(value, expiry)]
            && |t.eviction| == |s.eviction|
            && (Precedes(t.eviction, a, b) <==> Precedes(s.eviction, a, b))
  {
    var w := Without(s.eviction, {key});
    var u := Store(w, s.items - {key});
    assert |w| == |s.eviction| - 1 by {
      WithoutOneLength(s.eviction, key);
    }
    var room := if |w| >= capacity then AfterEvictLru(u) else u;
    assert room == u by {
      if |w| >= capacity {
        assert w == [];
      }
    }
    var t := AfterSet(s, capacity, key, value, expiry);
    assert t == Store([key] + w, u.items[key := Item(value, expiry)]);
    assert t.items == s.items[key := Item(value, expiry)];
    assert Precedes(t.eviction, a, b) <==> Precedes(w, a, b) by {
      assert t.eviction[1..] == w;
    }
    WithoutKeepsOrder(s.eviction, {key}, a, b);
  }

  /** A Get, hit or miss, never changes the relative order of the other keys. */
  lemma GetKeepsOthersOrder(s: Store, key: string, now: int, a: string, b: string)
    requires a != key && b != key
    ensures Precedes(AfterGet(s, key, now).store.eviction, a, b) <==> Precedes(s.eviction, a, b)
  {
    WithoutKeepsOrder(s.eviction, {key}, a, b);
    var r := AfterGet(s, key, now);
    if r.found {
      assert r.store.eviction[1..] == Without(s.eviction, {key});
    }
  }

  /** A sweep keeps the relative order of the keys it keeps. */
  lemma SweepKeepsOrder(s: Store, now: int, a: string, b: string)
    requires a in s.items && !Expired(s.items[a], now)
    requires b in s.items && !Expired(s.items[b], now)
    ensures Precedes(AfterSweep(s, now).eviction, a, b) <==> Precedes(s.eviction, a, b)
  {
    WithoutKeepsOrder(s.eviction, ExpiredKeys(s, now), a, b);
  }

  /** The store of cache.go: the recency list and the map are updated in place. */
  class Cache {
    var eviction: seq<string>
    var items: map<string, Item>
    const capacity: int

    function Abs(): Store
      reads this
    {
      Store(eviction, items)
    }

    /** The map/list bijection and the size bound every operation keeps. */
    ghost predicate Valid()
      reads this
    {
      Consistent(Abs()) && |eviction| <= Max(capacity, 1)
    }

    /** NewCache */
    constructor (capacity: int)
      ensures Valid() && this.capacity == capacity
      ensures Abs() == Store([], map[])
    {
      eviction := [];
      items := map[];
      this.capacity := capacity;
    }

    method Set(key: string, value: string, ttl: int, now: int)
      requires Valid()
      modifies this
      ensures Valid()
      ensures Abs() == AfterSet(old(Abs()), capacity, key, value, now + ttl)
    {
      if key in items {
        eviction := Without(eviction, {key});
        items := items - {key};
      }
      if |eviction| >= capacity {
        EvictLru();
      }
      eviction := [key] + eviction;
      items := items[key := Item(value, now + ttl)];
      SetBoundsSize(old(Abs()), capacity, key, value, now + ttl);
    }

    method Get(key: string, now: int) returns (value: string, found: bool)
      requires Valid()
      modifies this
      ensures Valid()
      ensures var r := AfterGet(old(Abs()), key, now);
              Abs() == r.store && value == r.value && found == r.found
    {
      if key !in items || now > items[key].expiry {
        if key in items {
          eviction := Without(eviction, {key});
          items := items - {key};
        }
        return "", false;
      }
      value := items[key].value;
      WithoutOneLength(eviction, key);
      eviction := [key] + Without(eviction, {key});
      found := true;
    }

    /** evictExpiredItems: visits every key of the map once, in no particular
        order, removing the expired ones from the map and the list. */
    method EvictExpiredItems(now: int)
      requires Valid()
      modifies this
      ensures Valid()
      ensures Abs() == AfterSweep(old(Abs()), now)
    {
      ghost var start := Abs();
      var pending := items.Keys;
      ghost var removed: set<string> := {};
      WithoutAbsent(eviction, removed);
      while pending != {}
        invariant SweepProgress(start, now, pending, removed, Store(eviction, items))
        decreases pending
      {
        var key :| key in pending;
        SweepStep(start, now, pending, removed, Store(eviction, items), key);
        if now > items[key].expiry {
          eviction, items, removed := Without(eviction, {key}), items - {key}, removed + {key};
        }
        pending := pending - {key};
      }
      SweepResult(start, now, removed, Store(eviction, items));
      assert Abs() == AfterSweep(start, now);
    }

    /** An internal step of Set; it keeps the invariant on its own as well. */
    method EvictLru()
      modifies this
      ensures Abs() == AfterEvictLru(old(Abs()))
      ensures old(Valid()) ==> Valid()
    {
      if eviction != [] {
        var back := eviction[|eviction| - 1];
        eviction := eviction[..|eviction| - 1];
        items := items - {back};
      }
    }
  }
}
