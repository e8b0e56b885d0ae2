/**
  Concurrent `get`, `set` and `setNotFound` on one cache (pkg/gcs/fs/attrcache.go)
  as an interleaving of atomic steps: a step is a whole read-locked section, one
  load of the shared clock, one eviction round or one map or index update under
  the write lock, one counter increment, or a move of time.  The ticker publishes wall-clock
  readings that are never ahead of real time and at most `lag` behind it.
 */
module CacheConcurrency {
  import opened Wrappers
  import opened CacheModel

  type Tid = nat

  datatype Params = Params(ttl: int, maxEntries: int, lag: nat)

  /** Where a goroutine is. `at` and `checked` number the steps that read the map and the clock. */
  datatype PC =
    | Idle
    | GetRead(key: Key, entry: Option<Entry>, at: nat)
    | GetExpired(key: Key, at: nat, checked: nat)
    | GetLocked(key: Key)
    | GetDelete(key: Key)
    | GetUnindex(key: Key)
    | GetUnlock
    | GetMiss
    | GetHit(key: Key, value: Value, at: nat, checked: nat)
    | SetEvict(key: Key, value: Value)
    | SetIndex(key: Key, value: Value)
    | SetStamp(key: Key, value: Value)
    | SetStore(key: Key, value: Value, reading: int)
    | SetUnlock

  datatype State = State(
    cache: Cache, lock: Option<Tid>, clock: int, wall: int,
    hits: nat, misses: nat, started: nat, pcs: map<Tid, PC>, steps: nat)

  datatype Event =
    | Elapse(wall: int)
    | Tick(reading: int)
    | Begin(t: Tid, key: Key)
    | Check(t: Tid)
    | Acquire(t: Tid)
    | Recheck(t: Tid)
    | Delete(t: Tid)
    | Unindex(t: Tid)
    | Release(t: Tid)
    | Count(t: Tid)
    | BeginWrite(t: Tid, key: Key, value: Value)
    | EvictStep(t: Tid, draws: seq<nat>)
    | IndexStep(t: Tid)
    | StampStep(t: Tid)
    | StoreStep(t: Tid)

  predicate Critical(pc: PC) {
    pc.GetLocked? || pc.GetDelete? || pc.GetUnindex? || pc.GetUnlock? ||
    pc.SetEvict? || pc.SetIndex? || pc.SetStamp? || pc.SetStore? || pc.SetUnlock?
  }

  /** Inside `get`, with the hit or miss not yet counted. */
  predicate Uncounted(pc: PC) {
    pc.GetRead? || pc.GetExpired? || pc.GetLocked? || pc.GetDelete? || pc.GetUnindex? ||
    pc.GetUnlock? || pc.GetMiss? || pc.GetHit?
  }

  function Peek(c: Cache, key: Key): Option<Entry> {
    if key in c.entries then Some(c.entries[key]) else None
  }

  ghost predicate Enabled(p: Params, s: State, ev: Event) {
    match ev
    case Elapse(wall) => s.wall <= wall <= s.clock + p.lag
    case Tick(reading) => s.clock <= reading <= s.wall
    case Begin(t, _) => t in s.pcs && s.pcs[t].Idle? && s.lock.None?
    case Check(t) => t in s.pcs && s.pcs[t].GetRead?
    case Acquire(t) => t in s.pcs && s.pcs[t].GetExpired? && s.lock.None?
    case Recheck(t) => t in s.pcs && s.pcs[t].GetLocked?
    case Delete(t) => t in s.pcs && s.pcs[t].GetDelete?
    case Unindex(t) => t in s.pcs && s.pcs[t].GetUnindex?
    case Release(t) => t in s.pcs && (s.pcs[t].GetUnlock? || s.pcs[t].SetUnlock?)
    case Count(t) => t in s.pcs && (s.pcs[t].GetMiss? || s.pcs[t].GetHit?)
    case BeginWrite(t, _, _) => t in s.pcs && s.pcs[t].Idle? && s.lock.None?
    case EvictStep(t, draws) =>
      && t in s.pcs && s.pcs[t].SetEvict?
      && (|s.cache.entries| >= p.maxEntries ==> FullRound(s.cache, s.clock, draws))
    case IndexStep(t) => t in s.pcs && s.pcs[t].SetIndex?
    case StampStep(t) => t in s.pcs && s.pcs[t].SetStamp?
    case StoreStep(t) => t in s.pcs && s.pcs[t].SetStore?
  }

  /** `removeKey` on the index alone. */
  function WithoutKey(c: Cache, key: Key): Cache {
    if key in c.keyIndex && c.keyIndex[key] < |c.keys| then
      c.(keys := UnindexedKeys(c.keys, c.keyIndex[key]),
         keyIndex := UnindexedMap(c.keys, c.keyIndex, c.keyIndex[key]))
    else c
  }

  /** The append that `set` makes before it stores. */
  function WithKey(c: Cache, key: Key): Cache {
    if key in c.entries then c else c.(keys := c.keys + [key], keyIndex := c.keyIndex[key := |c.keys|])
  }

  ghost function Apply(p: Params, s: State, ev: Event): State
    requires Enabled(p, s, ev)
  {
    var n := s.(steps := s.steps + 1);
    match ev
    case Elapse(wall) => n.(wall := wall)
    case Tick(reading) => n.(clock := reading)
    case Begin(t, key) =>
      n.(pcs := s.pcs[t := GetRead(key, Peek(s.cache, key), s.steps)], started := s.started + 1)
    case Check(t) =>
      var pc := s.pcs[t];
      n.(pcs := s.pcs[t :=
        if pc.entry.None? then GetMiss
        else if s.clock > pc.entry.value.expiresAt then GetExpired(pc.key, pc.at, s.steps)
        else GetHit(pc.key, pc.entry.value.value, pc.at, s.steps)])
    case Acquire(t) => n.(pcs := s.pcs[t := GetLocked(s.pcs[t].key)], lock := Some(t))
    case Recheck(t) =>
      var key := s.pcs[t].key;
      n.(pcs := s.pcs[t := if ExpiredAt(s.cache, s.clock, key) then GetDelete(key) else GetUnlock])
    case Delete(t) =>
      var key := s.pcs[t].key;
      n.(pcs := s.pcs[t := GetUnindex(key)], cache := s.cache.(entries := s.cache.entries - {key}))
    case Unindex(t) =>
      n.(pcs := s.pcs[t := GetUnlock], cache := WithoutKey(s.cache, s.pcs[t].key))
    case Release(t) =>
      n.(pcs := s.pcs[t := if s.pcs[t].GetUnlock? then GetMiss else Idle], lock := None)
    case Count(t) =>
      if s.pcs[t].GetHit? then n.(pcs := s.pcs[t := Idle], hits := s.hits + 1)
      else n.(pcs := s.pcs[t := Idle], misses := s.misses + 1)
    case BeginWrite(t, key, value) => n.(pcs := s.pcs[t := SetEvict(key, value)], lock := Some(t))
    case EvictStep(t, draws) =>
      n.(pcs := s.pcs[t := SetIndex(s.pcs[t].key, s.pcs[t].value)],
         cache := Evict(s.cache, p.maxEntries, s.clock, draws))
    case IndexStep(t) =>
      n.(pcs := s.pcs[t := SetStamp(s.pcs[t].key, s.pcs[t].value)], cache := WithKey(s.cache, s.pcs[t].key))
    case StampStep(t) =>
      n.(pcs := s.pcs[t := SetStore(s.pcs[t].key, s.pcs[t].value, s.clock)])
    case StoreStep(t) =>
      var SetStore(key, value, reading) := s.pcs[t];
      n.(pcs := s.pcs[t := SetUnlock],
         cache := s.cache.(entries := s.cache.entries[key := Entry(value, reading + Lifetime(p.ttl, value))]))
  }

  // ------------------------------------------------------- state invariant

  /** The write lock is held by exactly the goroutine that is inside a critical section. */
  ghost predicate LockOk(s: State) {
    && (s.lock.Some? ==> s.lock.value in s.pcs)
    && forall t :: t in s.pcs ==> (Critical(s.pcs[t]) <==> s.lock == Some(t))
  }

  function Holder(s: State): PC {
    if s.lock.Some? && s.lock.value in s.pcs then s.pcs[s.lock.value] else Idle
  }

  /** Map and index agree, up to the one update the lock holder is half way through. */
  ghost predicate CacheOk(p: Params, s: State) {
    && Indexed(s.cache.keys, s.cache.keyIndex)
    && |s.cache.keys| <= Max(1, p.maxEntries)
    && match Holder(s)
       case GetUnindex(k) => k in s.cache.keyIndex && s.cache.entries.Keys == s.cache.keyIndex.Keys - {k}
       case SetStamp(k, _) => s.cache.keyIndex.Keys == s.cache.entries.Keys + {k}
       case SetStore(k, _, _) => s.cache.keyIndex.Keys == s.cache.entries.Keys + {k}
       case GetDelete(k) => Valid(s.cache) && ExpiredAt(s.cache, s.clock, k)
       case SetIndex(_, _) => Valid(s.cache) && |s.cache.keys| < Max(1, p.maxEntries)
       case _ => Valid(s.cache)
  }

  ghost predicate TimeOk(p: Params, s: State) {
    s.wall - p.lag <= s.clock <= s.wall
  }

  ghost function Pending(pcs: map<Tid, PC>): set<Tid> {
    set t | t in pcs && Uncounted(pcs[t])
  }

  /** Every get that has started is counted exactly once or still on its way. */
  ghost predicate CountOk(s: State) {
    s.started == s.hits + s.misses + |Pending(s.pcs)|
  }

  ghost predicate Inv(p: Params, s: State) {
    LockOk(s) && CacheOk(p, s) && TimeOk(p, s) && CountOk(s)
  }

  function Init(threads: set<Tid>, start: int): State {
    State(Cache(map[], [], map[]), None, start, start, 0, 0, 0, map t | t in threads :: Idle, 0)
  }

  lemma InitInv(p: Params, threads: set<Tid>, start: int)
    ensures Inv(p, Init(threads, start))
  {
    assert Pending(Init(threads, start).pcs) == {};
  }

  lemma LockStep(p: Params, s: State, ev: Event)
    requires Enabled(p, s, ev) && LockOk(s)
    ensures LockOk(Apply(p, s, ev))
  {
    hide Evict, WithKey, WithoutKey, FullRound;
  }

  /** A thread in a critical section is the lock holder. */
  lemma HolderIs(s: State, t: Tid)
    requires LockOk(s) && t in s.pcs && Critical(s.pcs[t])
    ensures s.lock == Some(t) && Holder(s) == s.pcs[t]
  {
  }

  lemma EvictCacheStep(p: Params, s: State, t: Tid, draws: seq<nat>)
    requires Enabled(p, s, EvictStep(t, draws)) && LockOk(s) && CacheOk(p, s)
    ensures CacheOk(p, Apply(p, s, EvictStep(t, draws)))
  {
    hide FullRound, Evict, Indexed;
    HolderIs(s, t);
    var _ := EvictOk(s.cache, p.maxEntries, s.clock, draws);
  }

  lemma UnindexCacheStep(p: Params, s: State, t: Tid)
    requires Enabled(p, s, Unindex(t)) && LockOk(s) && CacheOk(p, s)
    ensures CacheOk(p, Apply(p, s, Unindex(t)))
  {
    HolderIs(s, t);
    var c := s.cache;
    var k := s.pcs[t].key;
    UnindexKeepsInverse(c.keys, c.keyIndex, c.keyIndex[k]);
    hide Indexed, UnindexedMap;
  }

  lemma IndexCacheStep(p: Params, s: State, t: Tid)
    requires Enabled(p, s, IndexStep(t)) && LockOk(s) && CacheOk(p, s)
    ensures CacheOk(p, Apply(p, s, IndexStep(t)))
  {
    HolderIs(s, t);
  }

  /** Steps of the lock holder that leave the index alone. */
  lemma HolderCacheStep(p: Params, s: State, ev: Event)
    requires Enabled(p, s, ev) && LockOk(s) && CacheOk(p, s)
    requires ev.Recheck? || ev.Delete? || ev.StampStep? || ev.StoreStep? || ev.Release?
    ensures CacheOk(p, Apply(p, s, ev))
  {
    hide Indexed, FullRound, Evict, WithKey, WithoutKey, Lifetime;
    HolderIs(s, ev.t);
  }

  /** Steps that leave the cache alone. */
  lemma QuietCacheStep(p: Params, s: State, ev: Event)
    requires Enabled(p, s, ev) && LockOk(s) && CacheOk(p, s)
    requires !ev.EvictStep? && !ev.Unindex? && !ev.IndexStep?
    requires !ev.Recheck? && !ev.Delete? && !ev.StampStep? && !ev.StoreStep? && !ev.Release?
    ensures CacheOk(p, Apply(p, s, ev))
  {
    hide Indexed, FullRound, Evict, WithKey, WithoutKey, Lifetime;
  }

  lemma CacheStep(p: Params, s: State, ev: Event)
    requires Enabled(p, s, ev) && LockOk(s) && CacheOk(p, s)
    ensures CacheOk(p, Apply(p, s, ev))
  {
    hide Enabled, LockOk, CacheOk, Apply;
    match ev
    case EvictStep(t, draws) => EvictCacheStep(p, s, t, draws);
    case Unindex(t) => UnindexCacheStep(p, s, t);
    case IndexStep(t) => IndexCacheStep(p, s, t);
    case _ =>
      if ev.Recheck? || ev.Delete? || ev.StampStep? || ev.StoreStep? || ev.Release? {
        HolderCacheStep(p, s, ev);
      } else {
        QuietCacheStep(p, s, ev);
      }
  }

  /** No step except a store adds an entry or changes one. */
  lemma EntriesStep(p: Params, s: State, ev: Event)
    requires Enabled(p, s, ev) && LockOk(s) && CacheOk(p, s) && !ev.StoreStep?
    ensures var s' := Apply(p, s, ev);
            forall k :: k in s'.cache.entries ==> k in s.cache.entries && s'.cache.entries[k] == s.cache.entries[k]
  {
    hide Evict, FullRound, Indexed;
    if ev.EvictStep? {
      HolderIs(s, ev.t);
      var _ := EvictOk(s.cache, p.maxEntries, s.clock, ev.draws);
    }
  }

  lemma TimeStep(p: Params, s: State, ev: Event)
    requires Enabled(p, s, ev) && TimeOk(p, s)
    ensures TimeOk(p, Apply(p, s, ev)) && s.clock <= Apply(p, s, ev).clock && s.wall <= Apply(p, s, ev).wall
  {
    hide Evict, FullRound, WithKey, WithoutKey, ExpiredAt, Lifetime;
  }

  /** Moving one thread changes the pending set at that thread only. */
  lemma PendingMove(pcs: map<Tid, PC>, t: Tid, pc: PC)
    requires t in pcs
    ensures |Pending(pcs[t := pc])| ==
            |Pending(pcs)| + (if Uncounted(pc) then 1 else 0) - (if Uncounted(pcs[t]) then 1 else 0)
  {
    assert Pending(pcs[t := pc]) == if Uncounted(pc) then Pending(pcs) + {t} else Pending(pcs) - {t};
  }

  lemma CountStep(p: Params, s: State, ev: Event)
    requires Enabled(p, s, ev) && CountOk(s)
    ensures CountOk(Apply(p, s, ev))
  {
    hide Evict, WithKey, WithoutKey, FullRound, Pending;
    var s' := Apply(p, s, ev);
    if !ev.Elapse? && !ev.Tick? {
      assert s'.pcs == s.pcs[ev.t := s'.pcs[ev.t]];
      PendingMove(s.pcs, ev.t, s'.pcs[ev.t]);
    }
  }

  lemma StepsStep(p: Params, s: State, ev: Event)
    requires Enabled(p, s, ev)
    ensures Apply(p, s, ev).steps == s.steps + 1
  {
    hide Evict, WithKey, WithoutKey, FullRound;
  }

  // ------------------------------------------------------------------ runs

  ghost predicate Run(p: Params, run: seq<State>, evs: seq<Event>) {
    && |run| == |evs| + 1
    && (exists threads: set<Tid>, start: int :: run[0] == Init(threads, start))
    && forall i :: 0 <= i < |evs| ==> Enabled(p, run[i], evs[i]) && run[i + 1] == Apply(p, run[i], evs[i])
  }

  /** The invariant holds after every step of every interleaving. */
  lemma {:induction false} RunInv(p: Params, run: seq<State>, evs: seq<Event>, i: nat)
    requires Run(p, run, evs) && i < |run|
    ensures Inv(p, run[i]) && run[i].steps == i
    decreases i
  {
    if i == 0 {
      var threads: set<Tid>, start: int :| run[0] == Init(threads, start);
      InitInv(p, threads, start);
    } else {
      RunInv(p, run, evs, i - 1);
      var s, ev := run[i - 1], evs[i - 1];
      hide Apply, LockOk, CacheOk, TimeOk, CountOk, Enabled;
      LockStep(p, s, ev);
      CacheStep(p, s, ev);
      TimeStep(p, s, ev);
      CountStep(p, s, ev);
      StepsStep(p, s, ev);
    }
  }

  // --------------------------------------------- what the events alone say

  /** The get that `t` began last before step `i`: its key and its map read. */
  function LastGet(evs: seq<Event>, i: nat, t: Tid): (g: Option<(Key, nat)>)
    requires i <= |evs|
    ensures g.Some? ==> g.value.1 < i && evs[g.value.1] == Begin(t, g.value.0)
  {
    if i == 0 then None
    else if evs[i - 1].Begin? && evs[i - 1].t == t then
      Some((evs[i - 1].key, i - 1))
    else LastGet(evs, i - 1, t)
  }

  /** The key and value of the write that `t` began last before step `i`. */
  function LastBegun(evs: seq<Event>, i: nat, t: Tid): Option<(Key, Value)>
    requires i <= |evs|
  {
    if i == 0 then None
    else if evs[i - 1].BeginWrite? && evs[i - 1].t == t then Some((evs[i - 1].key, evs[i - 1].value))
    else LastBegun(evs, i - 1, t)
  }

  /** The last step before `i` at which the writer `t` loaded the clock. */
  function LastLoad(evs: seq<Event>, i: nat, t: Tid): (j: Option<nat>)
    requires i <= |evs|
    ensures j.Some? ==> j.value < i && evs[j.value] == StampStep(t)
  {
    if i == 0 then None
    else if evs[i - 1] == StampStep(t) then Some(i - 1)
    else LastLoad(evs, i - 1, t)
  }

  /** A write that reached the map: its value, when it loaded the clock and when it landed. */
  datatype Landing = Landing(value: Value, loaded: nat, landed: nat)

  /** The last write on `key` that landed before step `i`. */
  function LastWrite(evs: seq<Event>, i: nat, key: Key): (w: Option<Landing>)
    requires i <= |evs|
    ensures w.Some? ==> w.value.loaded < w.value.landed < i
  {
    if i == 0 then None
    else if evs[i - 1].StoreStep? then
      var begun, load := LastBegun(evs, i - 1, evs[i - 1].t), LastLoad(evs, i - 1, evs[i - 1].t);
      if begun.Some? && begun.value.0 == key && load.Some? then Some(Landing(begun.value.1, load.value, i - 1))
      else LastWrite(evs, i - 1, key)
    else LastWrite(evs, i - 1, key)
  }

  // ------------------------------------------------- what a thread remembers

  /** What the place of thread `t` says about the run so far. */
  ghost predicate Recorded(run: seq<State>, evs: seq<Event>, i: nat, t: Tid, pc: PC)
    requires i < |run| == |evs| + 1
  {
    match pc
    case GetRead(key, entry, at) =>
      && LastGet(evs, i, t) == Some((key, at)) && at < i
      && run[at].lock.None? && entry == Peek(run[at].cache, key)
    case GetExpired(key, at, checked) =>
      && LastGet(evs, i, t) == Some((key, at)) && at < checked < i && evs[checked] == Check(t)
      && run[at].lock.None? && key in run[at].cache.entries
      && run[checked].clock > run[at].cache.entries[key].expiresAt
    case GetHit(key, value, at, checked) =>
      && LastGet(evs, i, t) == Some((key, at)) && at < checked < i && evs[checked] == Check(t)
      && run[at].lock.None? && key in run[at].cache.entries
      && run[at].cache.entries[key].value == value
      && run[checked].clock <= run[at].cache.entries[key].expiresAt
    case SetStore(key, value, reading) =>
      && LastBegun(evs, i, t) == Some((key, value))
      && LastLoad(evs, i, t).Some? && run[LastLoad(evs, i, t).value].clock == reading
    case _ =>
      && (pc.GetLocked? || pc.GetDelete? || pc.GetUnindex? ==>
            LastGet(evs, i, t).Some? && LastGet(evs, i, t).value.0 == pc.key)
      && (pc.SetEvict? || pc.SetIndex? || pc.SetStamp? ==> LastBegun(evs, i, t) == Some((pc.key, pc.value)))
  }

  /** A step of another thread, or of time, leaves the thread and its history alone. */
  lemma OthersStep(p: Params, s: State, evs: seq<Event>, i: nat, t: Tid)
    requires i < |evs| && Enabled(p, s, evs[i]) && t in s.pcs
    requires evs[i].Elapse? || evs[i].Tick? || evs[i].t != t
    ensures var s' := Apply(p, s, evs[i]);
            t in s'.pcs && s'.pcs[t] == s.pcs[t]
    ensures LastGet(evs, i + 1, t) == LastGet(evs, i, t)
    ensures LastBegun(evs, i + 1, t) == LastBegun(evs, i, t)
    ensures LastLoad(evs, i + 1, t) == LastLoad(evs, i, t)
  {
    hide Evict, WithKey, WithoutKey, FullRound, ExpiredAt, Lifetime;
  }

  /** The part of `t`'s history that its own step `i` extends. */
  lemma OwnHistory(evs: seq<Event>, i: nat, t: Tid)
    requires i < |evs|
    ensures !evs[i].Begin? ==> LastGet(evs, i + 1, t) == LastGet(evs, i, t)
    ensures evs[i].Begin? && evs[i].t == t ==> LastGet(evs, i + 1, t) == Some((evs[i].key, i))
    ensures !evs[i].BeginWrite? ==> LastBegun(evs, i + 1, t) == LastBegun(evs, i, t)
    ensures evs[i].BeginWrite? && evs[i].t == t ==> LastBegun(evs, i + 1, t) == Some((evs[i].key, evs[i].value))
    ensures evs[i] == StampStep(t) ==> LastLoad(evs, i + 1, t) == Some(i)
  {
  }

  predicate GetEvent(ev: Event) {
    ev.Begin? || ev.Check? || ev.Acquire? || ev.Recheck? || ev.Delete? || ev.Unindex? || ev.Release? || ev.Count?
  }

  lemma GetRecorded(p: Params, run: seq<State>, evs: seq<Event>, i: nat, t: Tid)
    requires i < |evs| == |run| - 1 && GetEvent(evs[i]) && evs[i].t == t
    requires Enabled(p, run[i], evs[i]) && run[i + 1] == Apply(p, run[i], evs[i]) && run[i].steps == i
    requires Recorded(run, evs, i, t, run[i].pcs[t])
    ensures t in run[i + 1].pcs && Recorded(run, evs, i + 1, t, run[i + 1].pcs[t])
  {
    hide Evict, WithKey, WithoutKey, FullRound, ExpiredAt, Lifetime, LastGet, LastBegun, LastLoad;
    OwnHistory(evs, i, t);
  }

  lemma WriteRecorded(p: Params, run: seq<State>, evs: seq<Event>, i: nat, t: Tid)
    requires i < |evs| == |run| - 1 && !GetEvent(evs[i]) && !evs[i].Elapse? && !evs[i].Tick? && evs[i].t == t
    requires Enabled(p, run[i], evs[i]) && run[i + 1] == Apply(p, run[i], evs[i]) && run[i].steps == i
    requires Recorded(run, evs, i, t, run[i].pcs[t])
    ensures t in run[i + 1].pcs && Recorded(run, evs, i + 1, t, run[i + 1].pcs[t])
  {
    hide Evict, WithKey, WithoutKey, FullRound, ExpiredAt, Lifetime, LastGet, LastBegun, LastLoad;
    OwnHistory(evs, i, t);
  }

  lemma OthersRecorded(run: seq<State>, evs: seq<Event>, i: nat, t: Tid, pc: PC)
    requires i < |evs| == |run| - 1 && Recorded(run, evs, i, t, pc)
    requires LastGet(evs, i + 1, t) == LastGet(evs, i, t)
    requires LastBegun(evs, i + 1, t) == LastBegun(evs, i, t)
    requires LastLoad(evs, i + 1, t) == LastLoad(evs, i, t)
    ensures Recorded(run, evs, i + 1, t, pc)
  {
    hide LastGet, LastBegun, LastLoad;
  }

  lemma RecordedStep(p: Params, run: seq<State>, evs: seq<Event>, i: nat, t: Tid)
    requires Run(p, run, evs) && i < |evs| && run[i].steps == i
    requires t in run[i].pcs && Recorded(run, evs, i, t, run[i].pcs[t])
    ensures t in run[i + 1].pcs && Recorded(run, evs, i + 1, t, run[i + 1].pcs[t])
  {
    hide Apply, Enabled, Recorded, LastGet, LastBegun, LastLoad;
    assert Enabled(p, run[i], evs[i]) && run[i + 1] == Apply(p, run[i], evs[i]);
    if evs[i].Elapse? || evs[i].Tick? || evs[i].t != t {
      OthersStep(p, run[i], evs, i, t);
      OthersRecorded(run, evs, i, t, run[i].pcs[t]);
    } else if GetEvent(evs[i]) {
      GetRecorded(p, run, evs, i, t);
    } else {
      WriteRecorded(p, run, evs, i, t);
    }
  }

  lemma {:induction false} RunRecorded(p: Params, run: seq<State>, evs: seq<Event>, i: nat, t: Tid)
    requires Run(p, run, evs) && i < |run| && t in run[i].pcs
    ensures Recorded(run, evs, i, t, run[i].pcs[t])
    decreases i
  {
    if i == 0 {
      assert run[0].pcs[t] == Idle;
    } else {
      var j := i - 1;
      assert t in run[j].pcs by {
        hide Evict, WithKey, WithoutKey, FullRound;
        assert run[j + 1] == Apply(p, run[j], evs[j]);
      }
      RunInv(p, run, evs, j);
      RunRecorded(p, run, evs, j, t);
      RecordedStep(p, run, evs, j, t);
    }
  }

  /** The published clock and real time never go back: the ticker only stores readings. */
  lemma {:induction false} ClockMonotone(p: Params, run: seq<State>, evs: seq<Event>, i: nat, j: nat)
    requires Run(p, run, evs) && i <= j < |run|
    ensures run[i].clock <= run[j].clock && run[i].wall <= run[j].wall
    decreases j
  {
    hide Apply, Enabled, LockOk, CacheOk, CountOk;
    if i < j {
      var k := j - 1;
      ClockMonotone(p, run, evs, i, k);
      RunInv(p, run, evs, k);
      assert Enabled(p, run[k], evs[k]) && run[k + 1] == Apply(p, run[k], evs[k]);
      TimeStep(p, run[k], evs[k]);
    }
  }

  /** Every entry held is the last write that landed on its key, with that write's clock load and lifetime. */
  ghost predicate HistoryOk(p: Params, run: seq<State>, evs: seq<Event>, i: nat)
    requires i < |run| == |evs| + 1
  {
    forall key :: key in run[i].cache.entries ==>
      var w := LastWrite(evs, i, key);
      && w.Some?
      && run[i].cache.entries[key] == Entry(w.value.value, run[w.value.loaded].clock + Lifetime(p.ttl, w.value.value))
  }

  /** A store writes one entry, with the value and the clock reading its writer holds. */
  lemma StoreEffect(p: Params, s: State, t: Tid)
    requires Enabled(p, s, StoreStep(t))
    ensures t in s.pcs && s.pcs[t].SetStore?
    ensures var SetStore(key, value, reading) := s.pcs[t];
            Apply(p, s, StoreStep(t)).cache.entries == s.cache.entries[key := Entry(value, reading + Lifetime(p.ttl, value))]
  {
  }

  lemma HistoryStore(p: Params, run: seq<State>, evs: seq<Event>, i: nat)
    requires Run(p, run, evs) && i < |evs| && evs[i].StoreStep? && HistoryOk(p, run, evs, i)
    ensures HistoryOk(p, run, evs, i + 1)
  {
    hide Apply, Enabled, Lifetime, LastBegun, LastLoad;
    assert Enabled(p, run[i], evs[i]) && run[i + 1] == Apply(p, run[i], evs[i]);
    StoreEffect(p, run[i], evs[i].t);
    RunRecorded(p, run, evs, i, evs[i].t);
    hide Run;
  }

  lemma HistoryStep(p: Params, run: seq<State>, evs: seq<Event>, i: nat)
    requires Run(p, run, evs) && i < |evs| && HistoryOk(p, run, evs, i)
    ensures HistoryOk(p, run, evs, i + 1)
  {
    if evs[i].StoreStep? {
      HistoryStore(p, run, evs, i);
    } else {
      RunInv(p, run, evs, i);
      hide Apply, Enabled, Lifetime, LockOk, CacheOk;
      EntriesStep(p, run[i], evs[i]);
    }
  }

  /** In every interleaving, at every step, the cache is part of the unbounded last-write map. */
  lemma {:induction false} HistoryTheorem(p: Params, run: seq<State>, evs: seq<Event>, i: nat)
    requires Run(p, run, evs) && i < |run|
    ensures HistoryOk(p, run, evs, i)
    decreases i
  {
    if i > 0 {
      HistoryTheorem(p, run, evs, i - 1);
      HistoryStep(p, run, evs, i - 1);
    }
  }

  /**
    The exact verdict of a get: it is decided by the map as it was at the get's own
    read, between critical sections, and by the clock at the check.
   */
  lemma VerdictTheorem(p: Params, run: seq<State>, evs: seq<Event>, i: nat)
    requires Run(p, run, evs) && i < |evs| && evs[i].Check?
    ensures LastGet(evs, i, evs[i].t).Some? && evs[i].t in run[i + 1].pcs
    ensures var (key, at) := LastGet(evs, i, evs[i].t).value;
            var held, verdict := run[at].cache, run[i + 1].pcs[evs[i].t];
            && at < i && run[at].lock.None? && Valid(held)
            && (key !in held.entries ==> verdict == GetMiss)
            && (key in held.entries && run[i].clock <= held.entries[key].expiresAt ==>
                  verdict == GetHit(key, held.entries[key].value, at, i))
            && (key in held.entries && run[i].clock > held.entries[key].expiresAt ==>
                  verdict == GetExpired(key, at, i))
  {
    assert Enabled(p, run[i], evs[i]) && run[i + 1] == Apply(p, run[i], evs[i]);
    RunRecorded(p, run, evs, i, evs[i].t);
    RunInv(p, run, evs, i);
    RunInv(p, run, evs, run[i].pcs[evs[i].t].at);
  }

  /** A recheck leads to a deletion exactly if the map then holds an entry that is expired then. */
  lemma RecheckTheorem(p: Params, run: seq<State>, evs: seq<Event>, i: nat)
    requires Run(p, run, evs) && i < |evs| && evs[i].Recheck?
    ensures LastGet(evs, i, evs[i].t).Some? && evs[i].t in run[i + 1].pcs
    ensures var key, now, next := LastGet(evs, i, evs[i].t).value.0, run[i].cache.entries, run[i + 1].pcs[evs[i].t];
            && (key in now && run[i].clock > now[key].expiresAt ==> next == GetDelete(key))
            && (key !in now || run[i].clock <= now[key].expiresAt ==> next == GetUnlock)
  {
    assert Enabled(p, run[i], evs[i]) && run[i + 1] == Apply(p, run[i], evs[i]);
    RunRecorded(p, run, evs, i, evs[i].t);
  }

  /** How many of the first `i` steps count a hit, or count a miss. */
  ghost function Counted(run: seq<State>, evs: seq<Event>, i: nat, hit: bool): nat
    requires i <= |evs| < |run|
  {
    if i == 0 then 0
    else
      var (s, ev) := (run[i - 1], evs[i - 1]);
      Counted(run, evs, i - 1, hit) +
      if ev.Count? && ev.t in s.pcs && s.pcs[ev.t].GetHit? == hit then 1 else 0
  }

  ghost function Begun(evs: seq<Event>, i: nat): nat
    requires i <= |evs|
  {
    if i == 0 then 0 else Begun(evs, i - 1) + if evs[i - 1].Begin? then 1 else 0
  }

  /** The counters are the numbers of counted hits and counted misses, and of gets begun. */
  lemma {:induction false} CounterTheorem(p: Params, run: seq<State>, evs: seq<Event>, i: nat)
    requires Run(p, run, evs) && i < |run|
    ensures run[i].hits == Counted(run, evs, i, true)
    ensures run[i].misses == Counted(run, evs, i, false)
    ensures run[i].started == Begun(evs, i)
    decreases i
  {
    hide Evict, WithKey, WithoutKey, FullRound, ExpiredAt, Lifetime;
    if i > 0 {
      CounterTheorem(p, run, evs, i - 1);
      assert Enabled(p, run[i - 1], evs[i - 1]) && run[i] == Apply(p, run[i - 1], evs[i - 1]);
    }
  }

  /**
    A hit in any interleaving: the value was in the map and live when the map was
    read, it was then the last write that had landed on the key, and by the clock it
    was served within its lifetime, in real time within its lifetime plus the clock's
    lag, counted from the write's load of the clock and so also from its landing.
   */
  lemma HitTheorem(p: Params, run: seq<State>, evs: seq<Event>, i: nat, t: Tid)
    requires Run(p, run, evs) && i < |run| && t in run[i].pcs && run[i].pcs[t].GetHit?
    ensures var GetHit(key, value, at, checked) := run[i].pcs[t];
            && LastGet(evs, i, t) == Some((key, at)) && at < checked < i && evs[checked] == Check(t)
            && key in run[at].cache.entries && run[at].cache.entries[key].value == value
            && run[at].clock <= run[at].cache.entries[key].expiresAt
            && LastWrite(evs, at, key).Some? && LastWrite(evs, at, key).value.value == value
            && var w := LastWrite(evs, at, key).value;
               && run[checked].clock <= run[w.loaded].clock + Lifetime(p.ttl, value)
               && run[checked].wall <= run[w.loaded].wall + Lifetime(p.ttl, value) + p.lag
               && run[w.loaded].wall <= run[w.landed].wall
  {
    RunRecorded(p, run, evs, i, t);
    var GetHit(key, value, at, checked) := run[i].pcs[t];
    HistoryTheorem(p, run, evs, at);
    var w := LastWrite(evs, at, key).value;
    ClockMonotone(p, run, evs, at, checked);
    ClockMonotone(p, run, evs, w.loaded, w.landed);
    RunInv(p, run, evs, w.loaded);
    RunInv(p, run, evs, checked);
    hide Run, LockOk, CacheOk, CountOk, Lifetime;
  }

  /**
    A get that finds its entry expired: since the write loaded the clock, more than
    the lifetime minus the lag has passed.
   */
  lemma ExpiryTheorem(p: Params, run: seq<State>, evs: seq<Event>, i: nat, t: Tid)
    requires Run(p, run, evs) && i < |run| && t in run[i].pcs && run[i].pcs[t].GetExpired?
    ensures var GetExpired(key, at, checked) := run[i].pcs[t];
            && LastGet(evs, i, t) == Some((key, at)) && at < checked < i && evs[checked] == Check(t)
            && LastWrite(evs, at, key).Some?
            && var w := LastWrite(evs, at, key).value;
               && run[checked].clock > run[w.loaded].clock + Lifetime(p.ttl, w.value)
               && run[checked].wall > run[w.loaded].wall + Lifetime(p.ttl, w.value) - p.lag
  {
    RunRecorded(p, run, evs, i, t);
    var GetExpired(key, at, checked) := run[i].pcs[t];
    HistoryTheorem(p, run, evs, at);
    RunInv(p, run, evs, LastWrite(evs, at, key).value.loaded);
    RunInv(p, run, evs, checked);
    hide Run, LockOk, CacheOk, CountOk, Lifetime;
  }

  lemma Extend(p: Params, run: seq<State>, evs: seq<Event>, ev: Event, s: State) returns (run': seq<State>, evs': seq<Event>)
    requires Run(p, run, evs) && Enabled(p, run[|evs|], ev) && s == Apply(p, run[|evs|], ev)
    ensures Run(p, run', evs') && run' == run + [s] && evs' == evs + [ev]
  {
    run', evs' := run + [s], evs + [ev];
    hide Apply, Enabled;
    assert run'[0] == run[0];
  }

  /** Two goroutines at time 0, with number 0 somewhere in a `set` on an empty cache. */
  function Writing(pc: PC, indexed: bool, steps: nat): State {
    State(if indexed then Cache(map[], ["k"], map["k" := 0]) else Cache(map[], [], map[]),
          if pc.Idle? then None else Some(0), 0, 0, 0, 0, 0, map[0 := pc, 1 := Idle], steps)
  }

  /** It has just loaded the clock. */
  function Loaded(v: Value): State {
    Writing(SetStore("k", v, 0), true, 4)
  }

  lemma WriterStarts(p: Params, v: Value)
    ensures Init({0, 1}, 0) == Writing(Idle, false, 0)
    ensures var s, ev := Writing(Idle, false, 0), BeginWrite(0, "k", v);
            Enabled(p, s, ev) && Apply(p, s, ev) == Writing(SetEvict("k", v), false, 1)
  {
    assert Init({0, 1}, 0).pcs == map[0 := Idle, 1 := Idle];
  }

  lemma WriterHasRoom(p: Params, v: Value)
    requires p.maxEntries > 0
    ensures var s, ev := Writing(SetEvict("k", v), false, 1), EvictStep(0, []);
            Enabled(p, s, ev) && Apply(p, s, ev) == Writing(SetIndex("k", v), false, 2)
  {
    hide SweepAll, FinishSweep, FullRound;
  }

  lemma WriterStamps(p: Params, v: Value)
    ensures var s, ev := Writing(SetIndex("k", v), false, 2), IndexStep(0);
            Enabled(p, s, ev) && Apply(p, s, ev) == Writing(SetStamp("k", v), true, 3)
    ensures var s, ev := Writing(SetStamp("k", v), true, 3), StampStep(0);
            Enabled(p, s, ev) && Apply(p, s, ev) == Loaded(v)
  {
  }

  lemma WriterLoads(p: Params, v: Value) returns (run: seq<State>, evs: seq<Event>)
    requires p.maxEntries > 0
    ensures Run(p, run, evs) && |evs| == 4 && run[4] == Loaded(v)
  {
    WriterStarts(p, v);
    WriterHasRoom(p, v);
    WriterStamps(p, v);
    hide Apply, Enabled, Writing, Init, Loaded;
    run, evs := [Writing(Idle, false, 0)], [];
    assert Run(p, run, evs);
    hide Run;
    run, evs := Extend(p, run, evs, BeginWrite(0, "k", v), Writing(SetEvict("k", v), false, 1));
    run, evs := Extend(p, run, evs, EvictStep(0, []), Writing(SetIndex("k", v), false, 2));
    run, evs := Extend(p, run, evs, IndexStep(0), Writing(SetStamp("k", v), true, 3));
    run, evs := Extend(p, run, evs, StampStep(0), Loaded(v));
  }

  /** Time goes on from 0 to 3 while nobody else moves. */
  lemma HoldUp(p: Params, v: Value, run: seq<State>, evs: seq<Event>) returns (run': seq<State>, evs': seq<Event>)
    requires p.lag == 1 && Run(p, run, evs) && |evs| == 4 && run[4] == Loaded(v)
    ensures Run(p, run', evs') && |evs'| == 10 && run'[10] == Loaded(v).(clock := 3, wall := 3, steps := 10)
  {
    run', evs' := run, evs;
    for i := 0 to 3
      invariant Run(p, run', evs') && |evs'| == 4 + 2 * i
      invariant run'[4 + 2 * i] == Loaded(v).(clock := i, wall := i, steps := 4 + 2 * i)
    {
      var s := run'[4 + 2 * i];
      run', evs' := Extend(p, run', evs', Elapse(i + 1), s.(wall := i + 1, steps := s.steps + 1));
      run', evs' := Extend(p, run', evs', Tick(i + 1), s.(clock := i + 1, wall := i + 1, steps := s.steps + 2));
    }
  }

  /** The entry is in the map, by a write that loaded the clock at 0 and landed at 3. */
  function Landed(v: Value): State {
    State(Cache(map["k" := Entry(v, 2)], ["k"], map["k" := 0]), None, 3, 3, 0, 0, 0, map[0 := Idle, 1 := Idle], 12)
  }

  /** The write lands at time 3. */
  lemma Lands(p: Params, v: Value, run: seq<State>, evs: seq<Event>) returns (run': seq<State>, evs': seq<Event>)
    requires Run(p, run, evs) && |evs| == 10 && Lifetime(p.ttl, v) == 2
    requires run[10] == Loaded(v).(clock := 3, wall := 3, steps := 10)
    ensures Run(p, run', evs') && |evs'| == 12 && run'[10] == run[10] && run'[12] == Landed(v)
    ensures evs'[10] == StoreStep(0) && evs'[11] == Release(0)
  {
    var s10 := run[10];
    var s11 := s10.(pcs := s10.pcs[0 := SetUnlock], cache := s10.cache.(entries := map["k" := Entry(v, 2)]), steps := 11);
    run', evs' := Extend(p, run, evs, StoreStep(0), s11);
    run', evs' := Extend(p, run', evs', Release(0), Landed(v));
  }

  /** The other goroutine reads it at once. */
  lemma IsRead(p: Params, v: Value, run: seq<State>, evs: seq<Event>) returns (run': seq<State>, evs': seq<Event>)
    requires Run(p, run, evs) && |evs| == 12 && run[12] == Landed(v)
    ensures Run(p, run', evs') && |evs'| == 14 && run <= run' && evs <= evs' && run'[13].wall == 3
    ensures 1 in run'[14].pcs && run'[14].pcs[1] == GetExpired("k", 12, 13)
  {
    var s12 := Landed(v);
    var s13 := s12.(pcs := s12.pcs[1 := GetRead("k", Some(Entry(v, 2)), 12)], started := 1, steps := 13);
    run', evs' := Extend(p, run, evs, Begin(1, "k"), s13);
    var s14 := s13.(pcs := s13.pcs[1 := GetExpired("k", 12, 13)], steps := 14);
    run', evs' := Extend(p, run', evs', Check(1), s14);
  }

  lemma LandedAt(p: Params, v: Value, run: seq<State>, evs: seq<Event>)
    requires Run(p, run, evs) && |evs| == 14 && evs[10] == StoreStep(0) && evs[11] == Release(0)
    requires 0 in run[10].pcs && run[10].pcs[0] == SetStore("k", v, 0)
    ensures LastWrite(evs, 12, "k").Some? && LastWrite(evs, 12, "k").value.value == v
    ensures LastWrite(evs, 12, "k").value.landed == 10
  {
    RunRecorded(p, run, evs, 10, 0);
    assert LastWrite(evs, 12, "k") == LastWrite(evs, 11, "k");
  }

  /**
    The bound cannot be counted from the landing instead: a writer that is held up
    between its clock load and its map write stores an entry that is expired on
    arrival, here with a lifetime of 2 and a lag of 1.
   */
  lemma ExpiredOnArrival(x: Attrs) returns (p: Params, run: seq<State>, evs: seq<Event>)
    ensures Run(p, run, evs) && |evs| == 14 && 1 in run[14].pcs && run[14].pcs[1] == GetExpired("k", 12, 13)
    ensures LastWrite(evs, 12, "k").Some? && LastWrite(evs, 12, "k").value.value == Found(x)
    ensures run[13].wall <= run[LastWrite(evs, 12, "k").value.landed].wall + Lifetime(p.ttl, Found(x)) - p.lag
  {
    hide Run;
    p := Params(2, 10, 1);
    run, evs := WriterLoads(p, Found(x));
    run, evs := HoldUp(p, Found(x), run, evs);
    run, evs := Lands(p, Found(x), run, evs);
    run, evs := IsRead(p, Found(x), run, evs);
    LandedAt(p, Found(x), run, evs);
  }

  /**
    The expiry path of `get` deletes one entry, and that entry is expired at the
    moment of the deletion whatever other threads did since the first check.
   */
  lemma DeletionTheorem(p: Params, run: seq<State>, evs: seq<Event>, i: nat)
    requires Run(p, run, evs) && i < |evs| && evs[i].Delete?
    ensures LastGet(evs, i, evs[i].t).Some?
    ensures var key := LastGet(evs, i, evs[i].t).value.0;
            && key in run[i].cache.entries && run[i].clock > run[i].cache.entries[key].expiresAt
            && run[i + 1].cache.entries == run[i].cache.entries - {key}
            && LastWrite(evs, i, key).Some?
            && var w := LastWrite(evs, i, key).value;
               run[i].wall > run[w.loaded].wall + Lifetime(p.ttl, w.value) - p.lag
  {
    var t := evs[i].t;
    assert Enabled(p, run[i], evs[i]) && run[i + 1] == Apply(p, run[i], evs[i]);
    RunInv(p, run, evs, i);
    HolderIs(run[i], t);
    RunRecorded(p, run, evs, i, t);
    HistoryTheorem(p, run, evs, i);
    RunInv(p, run, evs, LastWrite(evs, i, run[i].pcs[t].key).value.loaded);
    hide Run, LockOk, CountOk, Lifetime;
  }

  lemma KeptStep(p: Params, s: State, ev: Event, key: Key)
    requires Enabled(p, s, ev) && key in s.cache.entries && !ev.Delete?
    requires ev.EvictStep? ==> |s.cache.entries| < p.maxEntries
    ensures key in Apply(p, s, ev).cache.entries
  {
    hide FullRound, SweepAll, FinishSweep;
  }

  /** An entry that is live never disappears except to make room in a full cache. */
  lemma LossTheorem(p: Params, run: seq<State>, evs: seq<Event>, i: nat, key: Key)
    requires Run(p, run, evs) && i < |evs|
    requires key in run[i].cache.entries && key !in run[i + 1].cache.entries
    ensures ExpiredAt(run[i].cache, run[i].clock, key) ||
            (evs[i].EvictStep? && |run[i].cache.entries| >= p.maxEntries)
  {
    hide Apply, Enabled;
    assert Enabled(p, run[i], evs[i]) && run[i + 1] == Apply(p, run[i], evs[i]);
    if evs[i].Delete? {
      DeletionTheorem(p, run, evs, i);
    } else if !(evs[i].EvictStep? && |run[i].cache.entries| >= p.maxEntries) {
      KeptStep(p, run[i], evs[i], key);
    }
  }

  /**
    Whenever the write lock is free the index mirrors the map, the size is within
    capacity and the map is part of the last-write map; and once no get is under
    way every started get has been counted exactly once.
   */
  lemma UnlockedTheorem(p: Params, run: seq<State>, evs: seq<Event>, i: nat)
    requires Run(p, run, evs) && i < |run| && run[i].lock.None?
    ensures Valid(run[i].cache) && |run[i].cache.entries| <= Max(1, p.maxEntries)
    ensures forall k :: k in run[i].cache.entries ==>
              var w := LastWrite(evs, i, k);
              w.Some? && run[i].cache.entries[k].value == w.value.value
    ensures (forall t :: t in run[i].pcs ==> !Uncounted(run[i].pcs[t])) ==> run[i].hits + run[i].misses == run[i].started
  {
    RunInv(p, run, evs, i);
    HistoryTheorem(p, run, evs, i);
    ValidSize(run[i].cache);
    if forall t :: t in run[i].pcs ==> !Uncounted(run[i].pcs[t]) {
      assert Pending(run[i].pcs) == {};
    }
  }

  /** No two threads are ever inside a critical section together. */
  lemma ExclusionTheorem(p: Params, run: seq<State>, evs: seq<Event>, i: nat, t: Tid, u: Tid)
    requires Run(p, run, evs) && i < |run| && t in run[i].pcs && u in run[i].pcs
    requires Critical(run[i].pcs[t]) && Critical(run[i].pcs[u])
    ensures t == u
  {
    RunInv(p, run, evs, i);
  }
}
