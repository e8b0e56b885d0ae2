/**
  `attrCache` of pkg/gcs/fs/attrcache.go.  Every reading of the shared clock is
  a parameter, and every random draw is an arbitrary position of the slice.
 */
module AttrCache {
  import opened Wrappers
  import opened CacheModel

  /** The invariant of a cache between two calls. */
  ghost predicate Consistent(c: Cache, last: map<Key, Stamp>, ttl: int, maxEntries: int) {
    && CacheModel.Valid(c)
    && |c.entries| <= Max(1, maxEntries)
    && Remembers(last, c.entries, ttl)
  }

  lemma PutConsistent(c: Cache, last: map<Key, Stamp>, ttl: int, maxEntries: int, key: Key, value: Value, now: int)
    requires Consistent(c, last, ttl, maxEntries) && |c.keys| < Max(1, maxEntries)
    ensures var c' := Put(c, key, Entry(value, now + Lifetime(ttl, value)));
            Consistent(c', last[key := Stamp(value, now)], ttl, maxEntries)
  {
    var e := Entry(value, now + Lifetime(ttl, value));
    PutKeepsValid(c, key, e);
    ValidSize(Put(c, key, e));
    WritingRemembers(last, c.entries, ttl, key, value, now);
  }

  class AttrCache {
    var entries: map<Key, Entry>
    var keys: seq<Key>
    var keyIndex: map<Key, nat>
    const ttl: int
    const negTTL: int
    const maxEntries: int
    var hits: nat
    var misses: nat
    ghost var last: map<Key, Stamp>  // the unbounded last-write map

    ghost function State(): Cache
      reads this`entries, this`keys, this`keyIndex
    {
      Cache(entries, keys, keyIndex)
    }

    ghost predicate Valid()
      reads this
    {
      negTTL == NegTtl(ttl) && Consistent(State(), last, ttl, maxEntries)
    }

    constructor (ttl: int, maxEntries: int)
      ensures Valid()
      ensures this.ttl == ttl && this.maxEntries == maxEntries
      ensures entries == map[] && last == map[] && hits == misses == 0
    {
      this.entries, this.keys, this.keyIndex := map[], [], map[];
      this.ttl := ttl;
      var neg := ttl / NEG_TTL_DIVISOR;
      if neg < MIN_NEG_TTL {
        neg := MIN_NEG_TTL;
      }
      this.negTTL := neg;
      this.maxEntries := maxEntries;
      this.hits, this.misses, this.last := 0, 0, map[];
    }

    /**
      A hit is the latest value written on `key`, read no later than its
      lifetime after that write; a miss removes at most `key`, and only when it
      had expired at the second clock reading.
     */
    method Get(key: Key, now: int, recheck: int) returns (r: Option<Value>)
      requires Valid()
      modifies this`entries, this`keys, this`keyIndex, this`hits, this`misses
      ensures Valid()
      ensures r.Some? <==> key in old(entries) && now <= old(entries)[key].expiresAt
      ensures r.Some? ==>
                && key in last && r.value == last[key].value
                && now <= last[key].writtenAt + Lifetime(ttl, r.value)
      ensures r.Some? ==> State() == old(State()) && r.value == old(entries)[key].value
      ensures r.None? ==> entries == old(entries) - if ExpiredAt(old(State()), now, key) && ExpiredAt(old(State()), recheck, key) then {key} else {}
      ensures hits + misses == old(hits + misses) + 1
      ensures hits == old(hits) + if r.Some? then 1 else 0
    {
      hide CacheModel.Valid;
      if key !in entries {
        misses := misses + 1;
        return None;
      }
      var entry := entries[key];
      if now > entry.expiresAt {
        if key in entries && recheck > entries[key].expiresAt {
          DropKey(key);
        }
        misses := misses + 1;
        return None;
      }
      hits := hits + 1;
      return Some(entry.value);
    }

    /** The deletion on the expiry path of `get`. */
    method DropKey(key: Key)
      requires Valid() && key in entries
      modifies this`entries, this`keys, this`keyIndex
      ensures Valid()
      ensures entries == old(entries) - {key}
    {
      hide Indexed, Remembers;
      ForgettingRemembers(last, entries, ttl, {key});
      MinusSize(entries, {key});
      entries := entries - {key};
      RemoveKey(key);
    }

    /** Swap-remove through the reverse index; a key that is not indexed is left alone. */
    method RemoveKey(key: Key)
      requires Indexed(keys, keyIndex)
      modifies this`keys, this`keyIndex
      ensures Indexed(keys, keyIndex)
      ensures keyIndex.Keys == old(keyIndex).Keys - {key}
      ensures key in old(keyIndex) ==>
                && keys == UnindexedKeys(old(keys), old(keyIndex)[key])
                && keyIndex == UnindexedMap(old(keys), old(keyIndex), old(keyIndex)[key])
    {
      if key !in keyIndex {
        return;
      }
      var idx := keyIndex[key];
      UnindexKeepsInverse(keys, keyIndex, idx);
      hide Indexed;
      var end := |keys| - 1;
      if idx != end {
        keys := keys[idx := keys[end]];
        keyIndex := keyIndex[keys[idx] := idx];
      }
      keys := keys[..end];
      keyIndex := keyIndex - {key};
    }

    /** `evictIfNeeded`: the sampling loop, for arbitrary draws. */
    method EvictIfNeeded(now: int) returns (ghost draws: seq<nat>)
      requires CacheModel.Valid(State())
      modifies this`entries, this`keys, this`keyIndex
      ensures old(|entries|) >= maxEntries ==> FullRound(old(State()), now, draws)
      ensures State() == Evict(old(State()), maxEntries, now, draws)
    {
      hide Indexed, Drawable, SweepAll, SampleStep, RemoveAt;
      draws := [];
      if |entries| < maxEntries {
        return;
      }
      ghost var c := State();
      var n := |keys|;
      var samples := if EVICT_SAMPLE_SIZE <= n then EVICT_SAMPLE_SIZE else n;
      var evicted := false;
      var oldestIdx := -1;
      var oldestExpiry := 0;
      ghost var w := StartSweep(c);
      NoDraws(c, now);
      for i := 0 to samples
        invariant Drawable(c, now, draws) && |draws| == i && w == SweepAll(c, now, draws)
        invariant Tracks(w, evicted, oldestIdx, oldestExpiry) && oldestIdx >= -1
        invariant n == |keys| && (i < samples ==> 0 < n)
      {
        var idx :| 0 <= idx < n;
        SweepInRange(c, now, draws);
        DrawOne(c, now, draws, idx);
        draws := draws + [idx];
        evicted, oldestIdx, oldestExpiry := Sample(now, idx, evicted, oldestIdx, oldestExpiry, w);
        w := SampleStep(w, now, idx);
        n := |keys|;
        if evicted && n == 0 {
          return;
        }
      }
      SweepInRange(c, now, draws);
      if !evicted && oldestIdx >= 0 && n > 0 {
        Take(keys[oldestIdx], oldestIdx, n - 1);
      }
    }

    /** The local variables of `EvictIfNeeded` are those of the sweep `w`. */
    ghost predicate Tracks(w: Sweep, evicted: bool, oldestIdx: int, oldestExpiry: int)
      reads this
    {
      && w.cache == State()
      && w.evicted == evicted
      && w.oldest == (if oldestIdx < 0 then None else Some(oldestIdx))
      && w.oldestExpiry == oldestExpiry
    }

    /** One turn of the sampling loop. */
    method Sample(now: int, idx: nat, evicted0: bool, oldestIdx0: int, oldestExpiry0: int, ghost w: Sweep)
      returns (evicted: bool, oldestIdx: int, oldestExpiry: int)
      requires CacheModel.Valid(State()) && idx < |keys| && oldestIdx0 >= -1
      requires Tracks(w, evicted0, oldestIdx0, oldestExpiry0)
      modifies this`entries, this`keys, this`keyIndex
      ensures Tracks(SampleStep(w, now, idx), evicted, oldestIdx, oldestExpiry) && oldestIdx >= -1
      ensures !evicted ==> |keys| == old(|keys|)
    {
      evicted, oldestIdx, oldestExpiry := evicted0, oldestIdx0, oldestExpiry0;
      var k := keys[idx];
      if k in entries {
        var e := entries[k];
        if now > e.expiresAt {
          Take(k, idx, |keys| - 1);
          evicted := true;
        } else if oldestIdx == -1 || e.expiresAt < oldestExpiry {
          oldestIdx := idx;
          oldestExpiry := e.expiresAt;
        }
      }
    }

    /** The deletion written out twice inside `evictIfNeeded`. */
    method Take(k: Key, idx: nat, end: nat)
      requires CacheModel.Valid(State()) && idx < |keys| && k == keys[idx] && end == |keys| - 1
      modifies this`entries, this`keys, this`keyIndex
      ensures State() == RemoveAt(old(State()), idx)
    {
      entries := entries - {k};
      keyIndex := keyIndex - {k};
      if idx != end {
        keys := keys[idx := keys[end]];
        keyIndex := keyIndex[keys[idx] := idx];
      }
      keys := keys[..end];
    }

    /** `set`: evict if full, index a new key, store with the positive lifetime. */
    method Set(key: Key, attrs: Attrs, evictNow: int, now: int) returns (ghost gone: set<Key>)
      requires Valid()
      modifies this`entries, this`keys, this`keyIndex, this`last
      ensures Valid() && |entries| <= Max(1, maxEntries)
      ensures last == old(last)[key := Stamp(Found(attrs), now)]
      ensures gone <= old(entries).Keys && LossOk(old(|entries|), maxEntries, gone)
      ensures entries == (old(entries) - gone)[key := Entry(Found(attrs), now + ttl)]
    {
      gone := Store(key, Found(attrs), evictNow, now, ttl);
    }

    /** `setNotFound`: the same with the sentinel and the negative lifetime. */
    method SetNotFound(key: Key, evictNow: int, now: int) returns (ghost gone: set<Key>)
      requires Valid()
      modifies this`entries, this`keys, this`keyIndex, this`last
      ensures Valid() && |entries| <= Max(1, maxEntries)
      ensures last == old(last)[key := Stamp(NotFound, now)]
      ensures gone <= old(entries).Keys && LossOk(old(|entries|), maxEntries, gone)
      ensures entries == (old(entries) - gone)[key := Entry(NotFound, now + negTTL)]
    {
      gone := Store(key, NotFound, evictNow, now, negTTL);
    }

    /** The common body of the two writers. */
    method Store(key: Key, value: Value, evictNow: int, now: int, life: int) returns (ghost gone: set<Key>)
      requires Valid() && life == Lifetime(ttl, value)
      modifies this`entries, this`keys, this`keyIndex, this`last
      ensures Valid()
      ensures last == old(last)[key := Stamp(value, now)]
      ensures gone <= old(entries).Keys && LossOk(old(|entries|), maxEntries, gone)
      ensures entries == (old(entries) - gone)[key := Entry(value, now + life)]
    {
      hide Consistent, LossOk, Lifetime, Max, NegTtl;
      gone := MakeRoom(evictNow);
      Insert(key, value, now, life);
    }

    /** What the writers use of an eviction: entries are only lost, and there is room for one more. */
    method MakeRoom(now: int) returns (ghost gone: set<Key>)
      requires Valid()
      modifies this`entries, this`keys, this`keyIndex
      ensures Valid() && |keys| < Max(1, maxEntries)
      ensures entries == old(entries) - gone
      ensures gone <= old(entries).Keys && LossOk(old(|entries|), maxEntries, gone)
    {
      ghost var c := State();
      ValidSize(c);
      ghost var draws := EvictIfNeeded(now);
      gone := EvictOk(c, maxEntries, now, draws);
      ForgettingRemembers(last, c.entries, ttl, gone);
      ValidSize(State());
    }

    /** Index a new key at the end of the slice, then store. */
    method Insert(key: Key, value: Value, now: int, life: int)
      requires Valid() && |keys| < Max(1, maxEntries) && life == Lifetime(ttl, value)
      modifies this`entries, this`keys, this`keyIndex, this`last
      ensures Valid()
      ensures last == old(last)[key := Stamp(value, now)]
      ensures entries == old(entries)[key := Entry(value, now + life)]
    {
      hide Consistent, Lifetime, NegTtl;
      PutConsistent(State(), last, ttl, maxEntries, key, value, now);
      if key !in entries {
        keyIndex := keyIndex[key := |keys|];
        keys := keys + [key];
      }
      entries := entries[key := Entry(value, now + life)];
      last := last[key := Stamp(value, now)];
    }
  }
}
