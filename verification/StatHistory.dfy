/**
  What a cached `Stat` still guarantees when the bucket changes over time
  (pkg/gcs/fs/gcsfs.go, pkg/gcs/fs/attrcache.go), in every interleaving of calls:
  how old a positive answer can be, and what a negative one rests on.
 */
module StatHistory {
  import opened Wrappers
  import opened CacheModel
  import opened Paths
  import opened StatModel
  import opened StatConcurrency

  /** An interleaved run on one view from an empty cache; the replies of GCS are unrelated to each other. */
  datatype Trace = Trace(ttl: int, prefix: string, states: seq<State>, evs: seq<Event>)

  ghost predicate Valid(tr: Trace) {
    && StatConcurrency.Run(tr.ttl, tr.prefix, tr.states, tr.evs) && CleanPrefix(tr.prefix)
    && forall i :: 0 <= i < |tr.evs| && Asks(tr, i) ==> ValidPath(tr.evs[i].path)
  }

  /** Step `i` is the first half of a `Stat` or of a `Read` that finds no object. */
  predicate Asks(tr: Trace, i: nat)
    requires i < |tr.evs|
  {
    tr.evs[i].Ask? || tr.evs[i].Missed?
  }

  function Answered(tr: Trace, i: nat): Outcome
    requires i < |tr.evs| && i < |tr.states|
  {
    Answer(tr.ttl, tr.prefix, tr.states[i].entries, tr.evs[i])
  }

  /** Step `i` was answered from a live entry. */
  predicate HitAt(tr: Trace, i: nat)
    requires i < |tr.evs| && i < |tr.states|
  {
    tr.evs[i].Ask? && Hits(tr.states[i].entries, FullPath(tr.prefix, tr.evs[i].path), tr.evs[i].now)
  }

  /** Step `j` stores the answer `Saved(tr, j)` on `key`. */
  predicate SavesOn(tr: Trace, j: nat, key: Key)
    requires j < |tr.evs| && j < |tr.states|
  {
    && tr.evs[j].Save? && tr.evs[j].t in tr.states[j].pending
    && key == FullPath(tr.prefix, tr.states[j].pending[tr.evs[j].t].path)
  }

  function Saved(tr: Trace, j: nat): Unstored
    requires j < |tr.evs| && j < |tr.states| && tr.evs[j].Save? && tr.evs[j].t in tr.states[j].pending
  {
    tr.states[j].pending[tr.evs[j].t]
  }

  /** `j` is the latest step before `i` that stored on `key`. */
  ghost predicate LatestSave(tr: Trace, j: nat, i: nat, key: Key)
    requires i <= |tr.evs| && |tr.states| == |tr.evs| + 1
  {
    && j < i && SavesOn(tr, j, key)
    && forall m :: j < m < i ==> !SavesOn(tr, m, key)
  }

  /** Whatever waits to be stored was answered, on its path and worth storing, at the step it names. */
  lemma {:induction false} Asked(tr: Trace, i: nat, t: Tid)
    requires Valid(tr) && i <= |tr.evs| && t in tr.states[i].pending
    ensures tr.states[i].steps == i
    ensures var u := tr.states[i].pending[t];
            && u.at < i && Asks(tr, u.at) && tr.evs[u.at].path == u.path
            && Remembered(Answered(tr, u.at)) == Some(u.value)
            && !(HitAt(tr, u.at) && u.value.Found?)
    decreases i
  {
    hide FullPath, CleanPrefix, ValidPath, Uncached, Lifetime;
    var k := i - 1;
    Counted(tr, k);
    assert Enabled(tr.states[k], tr.evs[k]) && tr.states[k + 1] == Next(tr.ttl, tr.prefix, tr.states[k], tr.evs[k]);
    if t in tr.states[k].pending && tr.states[k].pending[t] == tr.states[i].pending[t] {
      Asked(tr, k, t);
    }
  }

  lemma {:induction false} Counted(tr: Trace, i: nat)
    requires Valid(tr) && i <= |tr.evs|
    ensures tr.states[i].steps == i
    decreases i
  {
    if i > 0 {
      Counted(tr, i - 1);
      assert tr.states[i - 1 + 1] == Next(tr.ttl, tr.prefix, tr.states[i - 1], tr.evs[i - 1]);
    }
  }

  /** Every entry comes from the latest step that stored on its key. */
  lemma {:induction false} Origin(tr: Trace, i: nat, key: Key) returns (j: nat)
    requires Valid(tr) && i <= |tr.evs| && key in tr.states[i].entries
    ensures LatestSave(tr, j, i, key)
    ensures var v := Saved(tr, j).value;
            tr.states[i].entries[key] == Entry(v, tr.evs[j].stored + Lifetime(tr.ttl, v))
    decreases i
  {
    hide FullPath, Lifetime, CleanPrefix, ValidPath, Uncached;
    var k := i - 1;
    assert Enabled(tr.states[k], tr.evs[k]) && tr.states[k + 1] == Next(tr.ttl, tr.prefix, tr.states[k], tr.evs[k]);
    if SavesOn(tr, k, key) {
      j := k;
    } else {
      j := Origin(tr, k, key);
    }
  }

  /** A hit is the answer given to the same name at an earlier step `q`, stored last on the key at a step `j`, within its lifetime. */
  lemma HitOrigin(tr: Trace, i: nat) returns (j: nat, q: nat)
    requires Valid(tr) && i < |tr.evs| && HitAt(tr, i)
    ensures LatestSave(tr, j, i, FullPath(tr.prefix, tr.evs[i].path))
    ensures q == Saved(tr, j).at && q < j && Asks(tr, q) && tr.evs[q].path == tr.evs[i].path
    ensures Answered(tr, q) == Answered(tr, i) && !(HitAt(tr, q) && Answered(tr, q).Info?)
    ensures tr.evs[i].now <= tr.evs[j].stored + if Answered(tr, i).NotExist? then NegTtl(tr.ttl) else tr.ttl
    ensures !Answered(tr, i).Backend?
  {
    j := Origin(tr, i, FullPath(tr.prefix, tr.evs[i].path));
    Asked(tr, j, tr.evs[j].t);
    q := Saved(tr, j).at;
    KeysDistinct(tr.prefix, tr.evs[i].path, tr.evs[q].path);
    hide FullPath, ValidPath, CleanPrefix, Uncached, NegTtl;
  }

  /**
    A positive hit is an answer that GCS itself gave to an earlier `Stat` of the
    same name, stored at most `ttl` before the hit, with nothing stored on the key
    since.
   */
  lemma PositiveHit(tr: Trace, i: nat) returns (j: nat, q: nat)
    requires Valid(tr) && i < |tr.evs| && HitAt(tr, i) && Answered(tr, i).Info?
    ensures LatestSave(tr, j, i, FullPath(tr.prefix, tr.evs[i].path))
    ensures q == Saved(tr, j).at && q < j && tr.evs[q].Ask? && tr.evs[q].path == tr.evs[i].path && !HitAt(tr, q)
    ensures Answered(tr, i) == Uncached(OpenName(tr.evs[q].path), tr.evs[q].a, tr.evs[q].p)
    ensures tr.evs[i].now <= tr.evs[j].stored + tr.ttl
  {
    j, q := HitOrigin(tr, i);
  }

  /**
    A not-found answer that either came from GCS itself or renews an earlier
    not-found answer to the same name, the last one stored, at most `negTTL`
    before, and so on back to one that did come from GCS.
   */
  ghost predicate Chained(tr: Trace, i: nat)
    requires i < |tr.evs| && |tr.states| == |tr.evs| + 1
    decreases i
  {
    && Asks(tr, i) && Answered(tr, i) == NotExist
    && (!HitAt(tr, i) ||
        exists j: nat, q: nat | q < j < i ::
          && LatestSave(tr, j, i, FullPath(tr.prefix, tr.evs[i].path)) && q == Saved(tr, j).at
          && Asks(tr, q) && tr.evs[q].path == tr.evs[i].path
          && tr.evs[i].now <= tr.evs[j].stored + NegTtl(tr.ttl)
          && Chained(tr, q))
  }

  /** A negative answer guarantees such an unbroken chain, and each hit extends it. */
  lemma {:induction false} NegativeChain(tr: Trace, i: nat)
    requires Valid(tr) && i < |tr.evs| && Asks(tr, i) && Answered(tr, i) == NotExist
    ensures Chained(tr, i)
    decreases i
  {
    if HitAt(tr, i) {
      var j, q := HitOrigin(tr, i);
      NegativeChain(tr, q);
    }
  }

  /**
    "Stored last" is not "answered last".  A goroutine that is slow to store puts
    an old positive answer over a newer not-found, for every name.
   */
  lemma SlowAnswerWins(ttl: int, prefix: string, path: string, x: Attrs) returns (tr: Trace)
    requires CleanPrefix(prefix) && ValidPath(path) && path != "." && ttl >= 0
    ensures Valid(tr) && tr.ttl == ttl && tr.prefix == prefix && |tr.evs| == 5
    ensures tr.evs[0] == Ask(0, path, 0, AttrsOk(x), ProbeDone) && Answered(tr, 0) == Info(x)
    ensures tr.evs[1] == Ask(1, path, 0, ObjectMissing, ProbeDone) && Answered(tr, 1) == NotExist
    ensures tr.evs[4] == Ask(2, path, 0, ObjectMissing, ProbeDone) && Answered(tr, 4) == Info(x)
  {
    var key := FullPath(prefix, path);
    ValidName(path);
    var found, missing := Unstored(path, Found(x), 0), Unstored(path, NotFound, 1);
    var entry := Entry(Found(x), ttl);
    var s0 := State(map[], map[], 0);
    var s1 := State(map[], map[0 := found], 1);
    var s2 := State(map[], map[0 := found, 1 := missing], 2);
    var s3 := State(map[key := Entry(NotFound, NegTtl(ttl))], map[0 := found], 3);
    var s4 := State(map[key := entry], map[], 4);
    var s5 := State(map[key := entry], map[], 5);
    var evs := [Ask(0, path, 0, AttrsOk(x), ProbeDone), Ask(1, path, 0, ObjectMissing, ProbeDone),
                Save(1, 0, {}, false), Save(0, 0, {}, false), Ask(2, path, 0, ObjectMissing, ProbeDone)];
    tr := Trace(ttl, prefix, [s0, s1, s2, s3, s4, s5], evs);
    hide FullPath, ValidPath, CleanPrefix, NegTtl, HasExt;
    assert Next(ttl, prefix, s0, evs[0]) == s1;
    assert Next(ttl, prefix, s1, evs[1]) == s2;
    assert Next(ttl, prefix, s2, evs[2]) == s3;
    assert Next(ttl, prefix, s3, evs[3]) == s4;
    assert Next(ttl, prefix, s4, evs[4]) == s5;
  }

  /**
    No age bound follows from the chain.  Whatever GCS would answer by now: once a
    name was not found, calls that follow each other within `negTTL` keep
    answering not found for ever, because every negative hit renews its entry.
   */
  lemma {:induction false} NegativeHitsRenew(ttl: int, prefix: string, states: seq<Entries>, calls: seq<Call>,
                                             outs: seq<Outcome>, path: string, i: nat)
    requires StatModel.Run(ttl, prefix, states, calls, outs) && i < |calls|
    requires forall k :: 0 <= k < |calls| ==> calls[k].Stat? && calls[k].path == path
    requires outs[0] == NotExist
    requires forall k :: 0 < k < |calls| ==> calls[k].now <= calls[k - 1].stored + NegTtl(ttl)
    ensures outs[i] == NotExist
    ensures states[i + 1][FullPath(prefix, path)] == Entry(NotFound, calls[i].stored + NegTtl(ttl))
    decreases i
  {
    hide FullPath, Uncached;
    assert Step(ttl, prefix, states[i], calls[i]) == (outs[i], states[i + 1]);
    if i > 0 {
      NegativeHitsRenew(ttl, prefix, states, calls, outs, path, i - 1);
    }
  }
}
