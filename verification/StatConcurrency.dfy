/**
  Concurrent `Stat` calls on one view over one cache (pkg/gcs/fs/gcsfs.go): each
  call reads the cache and asks GCS at one moment and stores its answer at a later
  one, with any steps of other goroutines in between.
 */
module StatConcurrency {
  import opened CacheModel
  import opened Paths
  import opened StatModel

  type Tid = nat

  /** An answer that a goroutine has yet to store, and the step at which it was given. */
  datatype Unstored = Unstored(path: string, value: Value, at: nat)

  datatype State = State(entries: Entries, pending: map<Tid, Unstored>, steps: nat)

  /**
    `Ask` and `Missed` are the first halves of `Stat` and of a `Read` that finds no
    object; `Save` is a cache write, after which the goroutine may write the same
    answer once more, as `Stat` does after an empty listing.
   */
  datatype Event =
    | Ask(t: Tid, path: string, now: int, a: AttrsReply, p: ProbeReply)
    | Missed(t: Tid, path: string)
    | Save(t: Tid, stored: int, gone: set<Key>, again: bool)
    | Forget(gone: set<Key>)

  predicate Enabled(s: State, ev: Event) {
    match ev
    case Ask(t, _, _, _, _) => t !in s.pending
    case Missed(t, _) => t !in s.pending
    case Save(t, _, _, _) => t in s.pending
    case Forget(_) => true
  }

  /** The sequential call with the same cache read and the same replies. */
  function AsCall(ev: Event): Call {
    match ev
    case Ask(_, path, now, a, p) => Stat(path, now, a, p, 0, {})
    case Missed(_, path) => ReadMiss(path, 0, {})
    case Save(_, _, gone, _) => Lose(gone)
    case Forget(gone) => Lose(gone)
  }

  /** The answer of an `Ask` or a `Missed`, decided at that step. */
  function Answer(ttl: int, prefix: string, entries: Entries, ev: Event): Outcome {
    Step(ttl, prefix, entries, AsCall(ev)).0
  }

  function Next(ttl: int, prefix: string, s: State, ev: Event): State
    requires Enabled(s, ev)
  {
    var n := s.(steps := s.steps + 1);
    match ev
    case Ask(t, path, now, _, _) =>
      var out := Answer(ttl, prefix, s.entries, ev);
      if (Hits(s.entries, FullPath(prefix, path), now) && out.Info?) || Remembered(out).None? then n
      else n.(pending := s.pending[t := Unstored(path, Remembered(out).value, s.steps)])
    case Missed(t, path) => n.(pending := s.pending[t := Unstored(path, NotFound, s.steps)])
    case Save(t, stored, gone, again) =>
      var u := s.pending[t];
      n.(entries := Store(ttl, s.entries, gone, FullPath(prefix, u.path), u.value, stored),
         pending := if again then s.pending else s.pending - {t})
    case Forget(gone) => n.(entries := s.entries - gone)
  }

  /**
    With nothing in between, the two halves are one sequential `Stat`: the same answer
    and the same entries.  The second half is owed exactly after a miss or a negative
    hit that did not end in a backend error.
   */
  lemma HalvesMakeStat(ttl: int, prefix: string, s: State, ask: Event, stored: int, gone: set<Key>)
    requires ask.Ask? && Enabled(s, ask)
    ensures var (out, after) := Step(ttl, prefix, s.entries, Stat(ask.path, ask.now, ask.a, ask.p, stored, gone));
            var asked, key := Next(ttl, prefix, s, ask), FullPath(prefix, ask.path);
            && Answer(ttl, prefix, s.entries, ask) == out && asked.entries == s.entries
            && (ask.t in asked.pending <==>
                  out != Backend && !(Hits(s.entries, key, ask.now) && s.entries[key].value.Found?))
            && (ask.t !in asked.pending ==> asked.pending == s.pending && (after == s.entries || after == s.entries - gone))
            && (ask.t in asked.pending ==>
                  var saved := Next(ttl, prefix, asked, Save(ask.t, stored, gone, false));
                  saved.entries == after && saved.pending == s.pending)
  {
    hide FullPath, HasExt;
    var asked := Next(ttl, prefix, s, ask);
    if ask.t in asked.pending {
      assert asked.pending - {ask.t} == s.pending;
    }
  }

  /** The two halves of a `Read` that finds no object. */
  lemma HalvesMakeReadMiss(ttl: int, prefix: string, s: State, t: Tid, path: string, stored: int, gone: set<Key>)
    requires t !in s.pending
    ensures var missed := Next(ttl, prefix, s, Missed(t, path));
            && t in missed.pending
            && var saved := Next(ttl, prefix, missed, Save(t, stored, gone, false));
               && saved.entries == Step(ttl, prefix, s.entries, ReadMiss(path, stored, gone)).1
               && saved.pending == s.pending
  {
    assert Next(ttl, prefix, s, Missed(t, path)).pending - {t} == s.pending;
  }

  /** The cache is truthful, and so is every answer on its way into it. */
  ghost predicate Truthful(objects: Objects, prefix: string, s: State) {
    && Sound(objects, prefix, s.entries)
    && forall t :: t in s.pending ==>
         ValidPath(s.pending[t].path) && FromCache(s.pending[t].value) == Lookup(objects, prefix, s.pending[t].path)
  }

  ghost predicate Harmless(objects: Objects, prefix: string, s: State, ev: Event) {
    HonestCall(objects, prefix, AsCall(ev)) && !Poisons(objects, prefix, s.entries, AsCall(ev))
  }

  lemma NextTruthful(objects: Objects, ttl: int, prefix: string, s: State, ev: Event)
    requires CleanPrefix(prefix) && Enabled(s, ev) && Truthful(objects, prefix, s) && Harmless(objects, prefix, s, ev)
    ensures Truthful(objects, prefix, Next(ttl, prefix, s, ev))
    ensures ev.Ask? ==>
              || Answer(ttl, prefix, s.entries, ev) == Lookup(objects, prefix, ev.path)
              || (Answer(ttl, prefix, s.entries, ev) == Backend && ev.a.AttrsFailed?)
  {
    hide FullPath, ValidPath, CleanPrefix, Lookup;
    if ev.Ask? {
      StepAgrees(objects, ttl, prefix, s.entries, AsCall(ev));
    } else if ev.Save? {
      var u := s.pending[ev.t];
      StoreSound(objects, ttl, prefix, s.entries, ev.gone, u.path, u.value, ev.stored);
    }
  }

  ghost predicate Run(ttl: int, prefix: string, states: seq<State>, evs: seq<Event>) {
    && |states| == |evs| + 1 && states[0] == State(map[], map[], 0)
    && forall i :: 0 <= i < |evs| ==> Enabled(states[i], evs[i]) && states[i + 1] == Next(ttl, prefix, states[i], evs[i])
  }

  /**
    In every interleaving of `Stat` calls on an unchanging bucket, with any clock,
    expiry and eviction, and no poisonous call so far: every answer is what the
    bucket's contents say, or the reported failure of the first request.
   */
  lemma {:induction false} InterleavedStatAgrees(objects: Objects, ttl: int, prefix: string, states: seq<State>, evs: seq<Event>, i: nat)
    requires CleanPrefix(prefix) && Run(ttl, prefix, states, evs) && i <= |evs|
    requires forall j :: 0 <= j < |evs| && j <= i ==> Harmless(objects, prefix, states[j], evs[j])
    ensures Truthful(objects, prefix, states[i])
    ensures i < |evs| && evs[i].Ask? ==>
              || Answer(ttl, prefix, states[i].entries, evs[i]) == Lookup(objects, prefix, evs[i].path)
              || (Answer(ttl, prefix, states[i].entries, evs[i]) == Backend && evs[i].a.AttrsFailed?)
    decreases i
  {
    if i > 0 {
      InterleavedStatAgrees(objects, ttl, prefix, states, evs, i - 1);
      hide Truthful, Harmless, Enabled, Next, Answer, Lookup, CleanPrefix;
      assert states[i - 1 + 1] == Next(ttl, prefix, states[i - 1], evs[i - 1]);
      NextTruthful(objects, ttl, prefix, states[i - 1], evs[i - 1]);
    }
    if i < |evs| {
      hide Truthful, Harmless, Enabled, Next, Answer, Lookup, CleanPrefix;
      assert states[i + 1] == Next(ttl, prefix, states[i], evs[i]);
      NextTruthful(objects, ttl, prefix, states[i], evs[i]);
    }
  }
}
