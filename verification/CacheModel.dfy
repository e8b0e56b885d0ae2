/**
  The attribute cache of pkg/gcs/fs/attrcache.go as a value: the entry map, the
  dense key slice and the reverse index, with the index surgery, the sampling
  sweep and the insertion written as functions.  The clock readings and the
  random draws are inputs.
 */
module CacheModel {
  import opened Wrappers

  type Key = string

  /** The part of `storage.ObjectAttrs` that the filesystem looks at. */
  datatype Attrs = Attrs(name: string, prefix: string, size: int, updated: int)

  /** What an entry holds; `NotFound` is the sentinel of a negative entry. */
  datatype Value = NotFound | Found(attrs: Attrs)

  datatype Entry = Entry(value: Value, expiresAt: int)

  datatype Cache = Cache(entries: map<Key, Entry>, keys: seq<Key>, keyIndex: map<Key, nat>)

  const EVICT_SAMPLE_SIZE: nat := 20
  const NEG_TTL_DIVISOR: int := 10
  const MIN_NEG_TTL: int := 1_000_000_000

  function NegTtl(ttl: int): (neg: int) {
    if ttl / NEG_TTL_DIVISOR < MIN_NEG_TTL then MIN_NEG_TTL else ttl / NEG_TTL_DIVISOR
  }

  /** The lifetime a write gives to an entry holding `v`. */
  function Lifetime(ttl: int, v: Value): int {
    if v.NotFound? then NegTtl(ttl) else ttl
  }

  /** "Negative entries expire faster" holds exactly from one second upwards. */
  lemma NegativeTtlShorter(ttl: int)
    ensures NegTtl(ttl) <= ttl <==> ttl >= 1_000_000_000
    ensures NegTtl(ttl) == Max(ttl / 10, 1_000_000_000)
  {
  }

  // ---------------------------------------------------------------- index

  /** `keyIndex` is the exact inverse of `keys`. */
  ghost predicate Indexed(keys: seq<Key>, keyIndex: map<Key, nat>) {
    && (forall i :: 0 <= i < |keys| ==> keys[i] in keyIndex && keyIndex[keys[i]] == i)
    && (forall k :: k in keyIndex ==> keyIndex[k] < |keys| && keys[keyIndex[k]] == k)
  }

  ghost predicate Valid(c: Cache) {
    && Indexed(c.keys, c.keyIndex)
    && c.entries.Keys == c.keyIndex.Keys
  }

  /** Swap-remove of position `idx`: the last key takes its place. */
  function UnindexedKeys(keys: seq<Key>, idx: nat): seq<Key>
    requires idx < |keys|
  {
    keys[idx := keys[|keys| - 1]][..|keys| - 1]
  }

  function UnindexedMap(keys: seq<Key>, keyIndex: map<Key, nat>, idx: nat): map<Key, nat>
    requires idx < |keys|
  {
    keyIndex[keys[|keys| - 1] := idx] - {keys[idx]}
  }

  lemma UnindexKeepsInverse(keys: seq<Key>, keyIndex: map<Key, nat>, idx: nat)
    requires Indexed(keys, keyIndex) && idx < |keys|
    ensures Indexed(UnindexedKeys(keys, idx), UnindexedMap(keys, keyIndex, idx))
    ensures UnindexedMap(keys, keyIndex, idx).Keys == keyIndex.Keys - {keys[idx]}
  {
    var ks, ki := UnindexedKeys(keys, idx), UnindexedMap(keys, keyIndex, idx);
    forall i | 0 <= i < |ks|
      ensures ks[i] in ki && ki[ks[i]] == i
    {
      assert ks[i] == if i == idx then keys[|keys| - 1] else keys[i];
    }
    forall k | k in ki
      ensures ki[k] < |ks| && ks[ki[k]] == k
    {
      assert k in keyIndex && keys[keyIndex[k]] == k;
    }
  }

  function RemoveAt(c: Cache, idx: nat): Cache
    requires idx < |c.keys|
  {
    Cache(c.entries - {c.keys[idx]}, UnindexedKeys(c.keys, idx), UnindexedMap(c.keys, c.keyIndex, idx))
  }

  lemma RemoveAtKeepsValid(c: Cache, idx: nat)
    requires Valid(c) && idx < |c.keys|
    ensures Valid(RemoveAt(c, idx))
    ensures |RemoveAt(c, idx).keys| == |c.keys| - 1
  {
    UnindexKeepsInverse(c.keys, c.keyIndex, idx);
  }

  /** An inverse index has as many keys as the slice. */
  lemma {:induction false} IndexedSize(keys: seq<Key>, keyIndex: map<Key, nat>)
    requires Indexed(keys, keyIndex)
    ensures |keyIndex.Keys| == |keys|
    decreases |keys|
  {
    if |keys| == 0 {
      assert keyIndex.Keys == {};
    } else {
      var last := |keys| - 1;
      UnindexKeepsInverse(keys, keyIndex, last);
      IndexedSize(UnindexedKeys(keys, last), UnindexedMap(keys, keyIndex, last));
      assert keyIndex.Keys == UnindexedMap(keys, keyIndex, last).Keys + {keys[last]};
    }
  }

  /** Map, slice and index have the same size, and the slice repeats no key. */
  lemma ValidSize(c: Cache)
    requires Valid(c)
    ensures |c.entries| == |c.keys| == |c.keyIndex|
    ensures forall i, j :: 0 <= i < j < |c.keys| ==> c.keys[i] != c.keys[j]
  {
    IndexedSize(c.keys, c.keyIndex);
    assert |c.entries| == |c.entries.Keys| && |c.keyIndex| == |c.keyIndex.Keys|;
  }

  /** Insert or overwrite `key`; a new key goes to the end of the slice. */
  function Put(c: Cache, key: Key, e: Entry): Cache {
    if key in c.entries then c.(entries := c.entries[key := e])
    else Cache(c.entries[key := e], c.keys + [key], c.keyIndex[key := |c.keys|])
  }

  lemma PutKeepsValid(c: Cache, key: Key, e: Entry)
    requires Valid(c)
    ensures Valid(Put(c, key, e))
    ensures Put(c, key, e).entries == c.entries[key := e]
    ensures |Put(c, key, e).keys| == |c.keys| + if key in c.entries then 0 else 1
  {
  }

  // ----------------------------------------------------- the last-write map

  /** One write, as an unbounded map that never forgets would remember it. */
  datatype Stamp = Stamp(value: Value, writtenAt: int)

  /** Every entry held is the latest write on its key, with that write's lifetime. */
  ghost predicate Remembers(last: map<Key, Stamp>, entries: map<Key, Entry>, ttl: int) {
    forall k :: k in entries ==>
      && k in last
      && entries[k] == Entry(last[k].value, last[k].writtenAt + Lifetime(ttl, last[k].value))
  }

  lemma ForgettingRemembers(last: map<Key, Stamp>, entries: map<Key, Entry>, ttl: int, gone: set<Key>)
    requires Remembers(last, entries, ttl)
    ensures Remembers(last, entries - gone, ttl)
  {
  }

  lemma WritingRemembers(last: map<Key, Stamp>, entries: map<Key, Entry>, ttl: int, key: Key, value: Value, now: int)
    requires Remembers(last, entries, ttl)
    ensures Remembers(last[key := Stamp(value, now)], entries[key := Entry(value, now + Lifetime(ttl, value))], ttl)
  {
  }

  // ------------------------------------------------------------- eviction

  /** The local variables of one eviction round, and the keys it has looked at. */
  datatype Sweep = Sweep(cache: Cache, evicted: bool, oldest: Option<nat>, oldestExpiry: int,
                         sampled: set<Key>)

  function StartSweep(c: Cache): Sweep {
    Sweep(c, false, None, 0, {})
  }

  /** The sweep has emptied the cache and returned from inside the loop. */
  predicate Emptied(w: Sweep) {
    w.evicted && |w.cache.keys| == 0
  }

  predicate ExpiredAt(c: Cache, now: int, k: Key) {
    k in c.entries && now > c.entries[k].expiresAt
  }

  function SampleStep(w: Sweep, now: int, idx: nat): Sweep
    requires idx < |w.cache.keys|
  {
    var k := w.cache.keys[idx];
    var seen := w.(sampled := w.sampled + {k});
    if k !in w.cache.entries then seen
    else
      var expiry := w.cache.entries[k].expiresAt;
      if now > expiry then seen.(cache := RemoveAt(w.cache, idx), evicted := true)
      else if w.oldest.None? || expiry < w.oldestExpiry then seen.(oldest := Some(idx), oldestExpiry := expiry)
      else seen
  }

  /** Each draw is below the current length of the shrinking slice. */
  ghost predicate Drawable(c: Cache, now: int, draws: seq<nat>)
    decreases |draws|, 0
  {
    draws == [] ||
    (var before := draws[..|draws| - 1];
     && Drawable(c, now, before)
     && draws[|draws| - 1] < |SweepAll(c, now, before).cache.keys|)
  }

  ghost function SweepAll(c: Cache, now: int, draws: seq<nat>): Sweep
    requires Drawable(c, now, draws)
    decreases |draws|, 1
  {
    if draws == [] then StartSweep(c)
    else SampleStep(SweepAll(c, now, draws[..|draws| - 1]), now, draws[|draws| - 1])
  }

  function Samples(c: Cache): nat {
    if EVICT_SAMPLE_SIZE <= |c.keys| then EVICT_SAMPLE_SIZE else |c.keys|
  }

  /** The draws of a round that ran to its end: all of them, or up to the early return. */
  ghost predicate FullRound(c: Cache, now: int, draws: seq<nat>) {
    && Drawable(c, now, draws)
    && |draws| <= Samples(c)
    && (|draws| == Samples(c) || Emptied(SweepAll(c, now, draws)))
  }

  function FinishSweep(w: Sweep): Cache {
    if !w.evicted && w.oldest.Some? && w.oldest.value < |w.cache.keys| then RemoveAt(w.cache, w.oldest.value)
    else w.cache
  }

  ghost function Evict(c: Cache, maxEntries: int, now: int, draws: seq<nat>): Cache
    requires |c.entries| >= maxEntries ==> FullRound(c, now, draws)
  {
    if |c.entries| < maxEntries then c else FinishSweep(SweepAll(c, now, draws))
  }

  ghost function ExpiredAmong(c: Cache, now: int, s: set<Key>): set<Key> {
    set k | k in s && ExpiredAt(c, now, k)
  }

  /** `k` is among `s` and nothing in `s` expires before it. */
  ghost predicate NearestExpiry(c: Cache, s: set<Key>, k: Key) {
    && k in s && k in c.entries
    && forall o :: o in s && o in c.entries ==> c.entries[k].expiresAt <= c.entries[o].expiresAt
  }

  /** What every point of a sweep over `c` satisfies. */
  ghost predicate SweepOk(c: Cache, now: int, w: Sweep) {
    && Valid(w.cache)
    && w.sampled <= c.entries.Keys
    && w.cache.entries == c.entries - ExpiredAmong(c, now, w.sampled)
    && (w.evicted <==> ExpiredAmong(c, now, w.sampled) != {})
    && (!w.evicted ==> w.cache == c && (w.oldest.None? <==> w.sampled == {}))
    && (!w.evicted && w.oldest.Some? ==>
          && w.oldest.value < |c.keys|
          && NearestExpiry(c, w.sampled, c.keys[w.oldest.value])
          && w.oldestExpiry == c.entries[c.keys[w.oldest.value]].expiresAt)
  }

  lemma SampleExpired(c: Cache, now: int, w: Sweep, idx: nat)
    requires SweepOk(c, now, w) && idx < |w.cache.keys|
    requires ExpiredAt(c, now, w.cache.keys[idx])
    ensures SweepOk(c, now, SampleStep(w, now, idx))
  {
    var k := w.cache.keys[idx];
    var w' := SampleStep(w, now, idx);
    assert k in w.cache.entries;
    RemoveAtKeepsValid(w.cache, idx);
    assert ExpiredAmong(c, now, w'.sampled) == ExpiredAmong(c, now, w.sampled) + {k};
    assert w'.cache.entries == c.entries - ExpiredAmong(c, now, w'.sampled);
  }

  lemma SampleLive(c: Cache, now: int, w: Sweep, idx: nat)
    requires SweepOk(c, now, w) && idx < |w.cache.keys|
    requires w.cache.keys[idx] in c.entries && !ExpiredAt(c, now, w.cache.keys[idx])
    ensures SweepOk(c, now, SampleStep(w, now, idx))
  {
    var k := w.cache.keys[idx];
    var w' := SampleStep(w, now, idx);
    assert k in w.cache.entries && w.cache.entries[k] == c.entries[k];
    assert ExpiredAmong(c, now, w'.sampled) == ExpiredAmong(c, now, w.sampled);
  }

  lemma SampleStepOk(c: Cache, now: int, w: Sweep, idx: nat)
    requires SweepOk(c, now, w) && idx < |w.cache.keys|
    ensures SweepOk(c, now, SampleStep(w, now, idx))
    ensures |SampleStep(w, now, idx).sampled| <= |w.sampled| + 1
  {
    assert w.cache.keys[idx] in w.cache.entries;
    if ExpiredAt(c, now, w.cache.keys[idx]) {
      SampleExpired(c, now, w, idx);
    } else {
      SampleLive(c, now, w, idx);
    }
  }

  lemma {:induction false} SweepAllOk(c: Cache, now: int, draws: seq<nat>)
    requires Valid(c) && Drawable(c, now, draws)
    ensures SweepOk(c, now, SweepAll(c, now, draws))
    ensures |SweepAll(c, now, draws).sampled| <= |draws|
    ensures draws != [] ==> SweepAll(c, now, draws).sampled != {}
    decreases |draws|
  {
    if draws == [] {
      assert ExpiredAmong(c, now, {}) == {};
      assert c.entries - {} == c.entries;
    } else {
      var before := draws[..|draws| - 1];
      SweepAllOk(c, now, before);
      SampleStepOk(c, now, SweepAll(c, now, before), draws[|draws| - 1]);
    }
  }

  /** The keys that the draws point at while nothing has been removed. */
  ghost function Drawn(c: Cache, draws: seq<nat>): set<Key> {
    set i | 0 <= i < |draws| && draws[i] < |c.keys| :: c.keys[draws[i]]
  }

  lemma LastDraw(c: Cache, now: int, draws: seq<nat>, before: seq<nat>, idx: nat)
    requires draws == before + [idx] && Drawable(c, now, draws)
    ensures Drawable(c, now, before) && idx < |SweepAll(c, now, before).cache.keys|
    ensures SweepAll(c, now, draws) == SampleStep(SweepAll(c, now, before), now, idx)
  {
    assert draws[..|draws| - 1] == before;
  }

  lemma QuietSample(c: Cache, now: int, w: Sweep, idx: nat)
    requires SweepOk(c, now, w) && idx < |w.cache.keys| && !SampleStep(w, now, idx).evicted
    ensures !w.evicted && w.cache == c
    ensures SampleStep(w, now, idx).sampled == w.sampled + {c.keys[idx]}
  {
    hide Valid, ExpiredAmong, NearestExpiry, RemoveAt;
  }

  /** Until something is evicted the sample is what was drawn. */
  lemma {:induction false} SampledIsDrawn(c: Cache, now: int, draws: seq<nat>)
    requires Valid(c) && Drawable(c, now, draws) && !SweepAll(c, now, draws).evicted
    ensures SweepAll(c, now, draws).sampled == Drawn(c, draws)
    decreases |draws|
  {
    hide SweepAll, Drawable, SweepOk, Valid, SampleStep;
    if draws == [] {
      NoDraws(c, now);
    } else {
      var before, idx := draws[..|draws| - 1], draws[|draws| - 1];
      assert draws == before + [idx];
      LastDraw(c, now, draws, before, idx);
      SweepAllOk(c, now, before);
      QuietSample(c, now, SweepAll(c, now, before), idx);
      SampledIsDrawn(c, now, before);
      hide Drawn;
      DrawnMore(c, before, idx);
    }
  }

  lemma DrawnMore(c: Cache, draws: seq<nat>, idx: nat)
    requires idx < |c.keys|
    ensures Drawn(c, draws + [idx]) == Drawn(c, draws) + {c.keys[idx]}
  {
    var more := draws + [idx];
    assert more[|draws|] == idx;
    assert forall i :: 0 <= i < |draws| ==> more[i] == draws[i];
  }

  lemma NoDraws(c: Cache, now: int)
    ensures Drawable(c, now, []) && SweepAll(c, now, []) == StartSweep(c)
  {
  }

  /** Extending a sweep by one draw. */
  lemma DrawOne(c: Cache, now: int, draws: seq<nat>, idx: nat)
    requires Drawable(c, now, draws)
    requires idx < |SweepAll(c, now, draws).cache.keys|
    ensures Drawable(c, now, draws + [idx])
    ensures SweepAll(c, now, draws + [idx]) == SampleStep(SweepAll(c, now, draws), now, idx)
  {
    var more := draws + [idx];
    assert more[..|more| - 1] == draws;
  }

  /** The remembered position is in range when no eviction has moved the keys. */
  lemma SweepInRange(c: Cache, now: int, draws: seq<nat>)
    requires Valid(c) && Drawable(c, now, draws)
    ensures var w := SweepAll(c, now, draws);
            && Valid(w.cache)
            && (!w.evicted && w.oldest.Some? ==> w.oldest.value < |w.cache.keys|)
  {
    SweepAllOk(c, now, draws);
  }

  /**
    One eviction round on a full, non-empty cache, for every sequence of draws:
    it removes exactly the sampled entries that had expired at its one clock
    reading or, if there were none, exactly one entry of minimal expiry among the
    min(20, n) that were drawn.
    Never fewer than one entry goes, and never more than min(20, n).
   */
  lemma EvictRound(c: Cache, maxEntries: int, now: int, draws: seq<nat>) returns (sampled: set<Key>, gone: set<Key>)
    requires Valid(c) && |c.entries| >= maxEntries && c.keys != []
    requires FullRound(c, now, draws)
    ensures Valid(Evict(c, maxEntries, now, draws))
    ensures Evict(c, maxEntries, now, draws).entries == c.entries - gone
    ensures gone <= sampled <= c.entries.Keys
    ensures 1 <= |gone| <= Min(20, |c.keys|)
    ensures ExpiredAmong(c, now, sampled) != {} ==> gone == ExpiredAmong(c, now, sampled)
    ensures ExpiredAmong(c, now, sampled) == {} ==> exists k :: gone == {k} && NearestExpiry(c, sampled, k)
    ensures ExpiredAmong(c, now, sampled) == {} ==> |draws| == Min(20, |c.keys|) && sampled == Drawn(c, draws)
    ensures |Evict(c, maxEntries, now, draws).entries| == |c.entries| - |gone|
  {
    SweepAllOk(c, now, draws);
    var w := SweepAll(c, now, draws);
    sampled := w.sampled;
    if w.evicted {
      gone := ExpiredAmong(c, now, sampled);
    } else {
      SampledIsDrawn(c, now, draws);
      gone := FinishLive(c, now, w);
    }
    assert Evict(c, maxEntries, now, draws) == FinishSweep(w);
    Bounded(gone, sampled);
    MinusSize(c.entries, gone);
  }

  /** The end of a round that met no expired entry. */
  lemma FinishLive(c: Cache, now: int, w: Sweep) returns (gone: set<Key>)
    requires SweepOk(c, now, w) && !w.evicted && w.sampled != {}
    ensures Valid(FinishSweep(w))
    ensures FinishSweep(w).entries == c.entries - gone
    ensures gone <= w.sampled
    ensures exists k :: gone == {k} && NearestExpiry(c, w.sampled, k)
  {
    var k := c.keys[w.oldest.value];
    RemoveAtKeepsValid(c, w.oldest.value);
    gone := {k};
    assert NearestExpiry(c, w.sampled, k);
  }

  lemma MinusSize<K, V>(m: map<K, V>, gone: set<K>)
    requires gone <= m.Keys
    ensures |m - gone| == |m| - |gone|
  {
    assert (m - gone).Keys == m.Keys - gone;
    assert |m.Keys - gone| == |m.Keys| - |gone|;
    assert |(m - gone).Keys| == |m - gone|;
  }

  lemma Bounded<T>(a: set<T>, b: set<T>)
    requires a <= b
    ensures |a| <= |b|
  {
    assert b == a + (b - a);
  }

  /** How much one write may cost a cache of `n` entries: nothing below capacity, otherwise 1 to min(20, n) entries. */
  ghost predicate LossOk(n: nat, maxEntries: int, gone: set<Key>) {
    if n < maxEntries || n == 0 then gone == {} else 1 <= |gone| <= Min(20, n)
  }

  lemma EvictNothing(c: Cache, maxEntries: int, now: int, draws: seq<nat>)
    requires |c.entries| >= maxEntries ==> FullRound(c, now, draws)
    requires |c.entries| < maxEntries || c.keys == []
    ensures Evict(c, maxEntries, now, draws) == c
  {
  }

  /** What any call of `evictIfNeeded` does: nothing below capacity, one round otherwise. */
  lemma EvictOk(c: Cache, maxEntries: int, now: int, draws: seq<nat>) returns (gone: set<Key>)
    requires Valid(c)
    requires |c.entries| >= maxEntries ==> FullRound(c, now, draws)
    ensures Valid(Evict(c, maxEntries, now, draws))
    ensures Evict(c, maxEntries, now, draws).entries == c.entries - gone
    ensures gone <= c.entries.Keys && LossOk(|c.entries|, maxEntries, gone)
    ensures |c.keys| <= Max(1, maxEntries) ==> |Evict(c, maxEntries, now, draws).keys| < Max(1, maxEntries)
  {
    hide Indexed, NearestExpiry, ExpiredAmong, FullRound, Evict;
    ValidSize(c);
    if |c.entries| < maxEntries || c.keys == [] {
      EvictNothing(c, maxEntries, now, draws);
      gone := {};
      assert c.entries - gone == c.entries;
    } else {
      var sampled;
      sampled, gone := EvictRound(c, maxEntries, now, draws);
      ValidSize(Evict(c, maxEntries, now, draws));
    }
  }

  /** The critical section shared by `set` and `setNotFound`. */
  ghost function Write(c: Cache, maxEntries: int, now: int, draws: seq<nat>, key: Key, e: Entry): Cache
    requires |c.entries| >= maxEntries ==> FullRound(c, now, draws)
  {
    Put(Evict(c, maxEntries, now, draws), key, e)
  }

  /**
    For every `maxEntries` (zero and negative values included) and every choice
    of samples a write keeps the index, keeps the size within capacity, holds
    the key just written and loses nothing below capacity, otherwise 1 to
    min(20, n) entries.
   */
  lemma WriteOk(c: Cache, maxEntries: int, now: int, draws: seq<nat>, key: Key, e: Entry) returns (gone: set<Key>)
    requires Valid(c)
    requires |c.entries| >= maxEntries ==> FullRound(c, now, draws)
    ensures gone <= c.entries.Keys && LossOk(|c.entries|, maxEntries, gone)
    ensures var c' := Write(c, maxEntries, now, draws, key, e);
            && Valid(c')
            && c'.entries == (c.entries - gone)[key := e]
            && (|c.entries| <= Max(1, maxEntries) ==> |c'.entries| <= Max(1, maxEntries))
  {
    gone := EvictOk(c, maxEntries, now, draws);
    var kept := Evict(c, maxEntries, now, draws);
    PutKeepsValid(kept, key, e);
    ValidSize(c);
    ValidSize(Put(kept, key, e));
  }
}
