/**
  `gcsFile.Stat` of pkg/gcs/fs/gcsfs.go: a multi-probe lookup behind the attribute
  cache, as a step on the cache's entries.  What the bucket answers, the clock
  readings and the entries lost to eviction are inputs.
 */
module StatModel {
  import opened Wrappers
  import opened CacheModel
  import opened Paths

  /** The answer of `Object.Attrs`. */
  datatype AttrsReply = AttrsOk(attrs: Attrs) | ObjectMissing | BucketMissing | AttrsFailed

  /** The answer of the directory probe: a first entry, no entries, or an error. */
  datatype ProbeReply = ProbeEntry | ProbeDone | ProbeFailed

  datatype Outcome = Info(attrs: Attrs) | NotExist | Backend

  /** The attributes made up for a directory; the root's are just a slash. */
  function DirAttrs(name: string): Attrs {
    Attrs("", if name == "" then "/" else name + "/", 0, 0)
  }

  /** `Stat` with caching disabled, given what the two requests answer. */
  function Uncached(name: string, a: AttrsReply, p: ProbeReply): Outcome {
    if name == "" then Info(DirAttrs(""))
    else match a
      case AttrsOk(attrs) => Info(attrs)
      case AttrsFailed => Backend
      case BucketMissing => NotExist
      case ObjectMissing => if !HasExt(name) && p.ProbeEntry? then Info(DirAttrs(name)) else NotExist
  }

  /** What an answer leaves in the cache: everything but a backend error. */
  function Remembered(out: Outcome): Option<Value> {
    match out
    case Info(attrs) => Some(Found(attrs))
    case NotExist => Some(NotFound)
    case Backend => None
  }

  function FromCache(v: Value): Outcome {
    if v.NotFound? then NotExist else Info(v.attrs)
  }

  /**
    A call and its surroundings: the clock at the cache read and at the cache
    write, the replies of GCS, and the keys lost meanwhile.  `ReadMiss` is a `Read`
    whose open found no object; `Lose` is any other loss of entries.
   */
  datatype Call =
    | Stat(path: string, now: int, a: AttrsReply, p: ProbeReply, stored: int, gone: set<Key>)
    | ReadMiss(path: string, stored: int, gone: set<Key>)
    | Lose(gone: set<Key>)

  type Entries = map<Key, Entry>

  predicate Hits(entries: Entries, key: Key, now: int) {
    key in entries && now <= entries[key].expiresAt
  }

  function Store(ttl: int, entries: Entries, gone: set<Key>, key: Key, v: Value, stored: int): Entries {
    (entries - gone)[key := Entry(v, stored + Lifetime(ttl, v))]
  }

  /** One call on the view with the given prefix; a negative hit stores its entry anew. */
  function Step(ttl: int, prefix: string, entries: Entries, call: Call): (Outcome, Entries) {
    match call
    case Stat(path, now, a, p, stored, gone) =>
      var key := FullPath(prefix, path);
      if Hits(entries, key, now) && entries[key].value.Found? then
        (FromCache(entries[key].value), entries)
      else
        var out := if Hits(entries, key, now) then NotExist else Uncached(OpenName(path), a, p);
        (out, match Remembered(out)
              case None => entries - gone
              case Some(v) => Store(ttl, entries, gone, key, v, stored))
    case ReadMiss(path, stored, gone) =>
      (NotExist, Store(ttl, entries, gone, FullPath(prefix, path), NotFound, stored))
    case Lose(gone) => (NotExist, entries - gone)
  }

  // ------------------------------------------------------ an unchanging bucket

  type Objects = map<string, Attrs>

  /** The listing under `key/` is not empty. */
  ghost predicate DirExists(objects: Objects, key: string) {
    exists o :: o in objects && key + "/" <= o
  }

  /** What the name is, decided by the bucket's contents alone. */
  ghost function Lookup(objects: Objects, prefix: string, path: string): Outcome {
    var name := OpenName(path);
    var key := FullPath(prefix, path);
    if name == "" then Info(Attrs("", "/", 0, 0))
    else if key in objects then Info(objects[key])
    else if HasExt(name) then NotExist
    else if DirExists(objects, key) then Info(Attrs("", name + "/", 0, 0))
    else NotExist
  }

  /** The replies of an existing bucket with these objects; either request may also fail. */
  ghost predicate Honest(objects: Objects, key: string, a: AttrsReply, p: ProbeReply) {
    && (a.AttrsFailed? || a == if key in objects then AttrsOk(objects[key]) else ObjectMissing)
    && (p.ProbeFailed? || (p.ProbeEntry? <==> DirExists(objects, key)))
  }

  ghost predicate HonestCall(objects: Objects, prefix: string, call: Call) {
    match call
    case Stat(path, _, a, p, _, _) => ValidPath(path) && Honest(objects, FullPath(prefix, path), a, p)
    case ReadMiss(path, _, _) => ValidPath(path) && FullPath(prefix, path) !in objects
    case Lose(_) => true
  }

  /** Every entry is the true answer for the one name of the view that has its key. */
  ghost predicate Sound(objects: Objects, prefix: string, entries: Entries) {
    forall path :: ValidPath(path) && FullPath(prefix, path) in entries ==>
      FromCache(entries[FullPath(prefix, path)].value) == Lookup(objects, prefix, path)
  }

  /** The call asks for the listing: no live entry, no object, no extension, not the root. */
  predicate Probes(prefix: string, entries: Entries, call: Call) {
    && call.Stat? && !Hits(entries, FullPath(prefix, call.path), call.now)
    && OpenName(call.path) != "" && call.a.ObjectMissing? && !HasExt(OpenName(call.path))
  }

  /**
    The two ways to put a falsehood into the cache: the probe of a directory
    fails, or a directory (the root included) is read like a file.
   */
  ghost predicate Poisons(objects: Objects, prefix: string, entries: Entries, call: Call) {
    || (Probes(prefix, entries, call) && call.p.ProbeFailed? && DirExists(objects, FullPath(prefix, call.path)))
    || (call.ReadMiss? && Lookup(objects, prefix, call.path) != NotExist)
  }

  /** With honest replies the uncached lookup answers the truth, unless a request failed. */
  lemma UncachedIsLookup(objects: Objects, prefix: string, path: string, a: AttrsReply, p: ProbeReply)
    requires Honest(objects, FullPath(prefix, path), a, p)
    requires p.ProbeFailed? ==> !DirExists(objects, FullPath(prefix, path)) || HasExt(OpenName(path)) || !a.ObjectMissing?
    ensures var out := Uncached(OpenName(path), a, p);
            out == Lookup(objects, prefix, path) || (out == Backend && a.AttrsFailed?)
  {
  }

  /**
    A directory that holds an object of any depth is found, except exactly when its own
    last element has a dot: then its objects open by name but it does not exist itself.
   */
  lemma ParentExists(objects: Objects, prefix: string, dir: string, name: string)
    requires CleanPrefix(prefix) && ValidPath(dir) && dir != "." && ValidPath(name) && name != "."
    requires FullPath(prefix, dir + "/" + name) in objects
    ensures DirExists(objects, FullPath(prefix, dir))
    ensures Lookup(objects, prefix, dir) == NotExist <==>
            FullPath(prefix, dir) !in objects && exists i :: 0 <= i < |dir| && dir[i] == '.' && NoSlash(dir[i..])
  {
    ListsDirectory(prefix, dir, name);
    ValidName(dir);
    ExtMeaning(dir);
    KeyIsPrefixAndName(prefix, dir);
    assert FullPath(prefix, dir) == Join(prefix, OpenName(dir));
    hide ValidPath, CleanPrefix, HasExt, Join, Split;
    assert FullPath(prefix, dir) != "" && ListPrefix(prefix, dir) == FullPath(prefix, dir) + "/";
    assert FullPath(prefix, dir) + "/" <= FullPath(prefix, dir + "/" + name);
  }

  /** Storing on a key leaves soundness to be decided by that one entry. */
  lemma StoreSound(objects: Objects, ttl: int, prefix: string, entries: Entries, gone: set<Key>, path: string, v: Value, stored: int)
    requires CleanPrefix(prefix) && ValidPath(path) && Sound(objects, prefix, entries)
    ensures Sound(objects, prefix, Store(ttl, entries, gone, FullPath(prefix, path), v, stored)) <==>
            FromCache(v) == Lookup(objects, prefix, path)
  {
    var key := FullPath(prefix, path);
    var after := Store(ttl, entries, gone, key, v, stored);
    assert after[key].value == v;
    if FromCache(v) == Lookup(objects, prefix, path) {
      forall other | ValidPath(other) && FullPath(prefix, other) in after
        ensures FromCache(after[FullPath(prefix, other)].value) == Lookup(objects, prefix, other)
      {
        KeysDistinct(prefix, path, other);
      }
    }
  }

  /**
    One call against an unchanging bucket, from a sound cache: the answer is the
    truth or a reported backend error, and the cache stays sound exactly when the
    call is not one of the two poisonous ones.
   */
  lemma StepAgrees(objects: Objects, ttl: int, prefix: string, entries: Entries, call: Call)
    requires CleanPrefix(prefix) && HonestCall(objects, prefix, call) && Sound(objects, prefix, entries)
    ensures var (out, after) := Step(ttl, prefix, entries, call);
            && (Sound(objects, prefix, after) <==> !Poisons(objects, prefix, entries, call))
            && (call.Stat? && !Poisons(objects, prefix, entries, call) ==>
                  out == Lookup(objects, prefix, call.path) || (out == Backend && call.a.AttrsFailed?))
  {
    match call
    case Stat(path, now, a, p, stored, gone) =>
      var key := FullPath(prefix, path);
      var (out, after) := Step(ttl, prefix, entries, call);
      if Remembered(out).Some? {
        StoreSound(objects, ttl, prefix, entries, gone, path, Remembered(out).value, stored);
      }
    case ReadMiss(path, stored, gone) =>
      StoreSound(objects, ttl, prefix, entries, gone, path, NotFound, stored);
    case Lose(_) =>
  }

  /**
    A name away from the root of a bucket that does not exist, without a live entry:
    the answer is not found, and it is stored like any other for a tenth of the
    lifetime, at least one second.
   */
  lemma BucketGone(ttl: int, prefix: string, entries: Entries, call: Call)
    requires call.Stat? && ValidPath(call.path) && call.path != "." && call.a.BucketMissing?
    requires !Hits(entries, FullPath(prefix, call.path), call.now)
    ensures var (out, after) := Step(ttl, prefix, entries, call);
            && out == NotExist
            && after == (entries - call.gone)[FullPath(prefix, call.path) :=
                          Entry(NotFound, call.stored + Max(ttl / 10, 1_000_000_000))]
  {
    ValidName(call.path);
    NegativeTtlShorter(ttl);
  }

  // ------------------------------------------------------------------ runs

  /** A run of calls on one view: the entries before and after each, and its answer. */
  ghost predicate Run(ttl: int, prefix: string, states: seq<Entries>, calls: seq<Call>, outs: seq<Outcome>) {
    && |states| == |calls| + 1 && |outs| == |calls|
    && forall i :: 0 <= i < |calls| ==> Step(ttl, prefix, states[i], calls[i]) == (outs[i], states[i + 1])
  }

  /**
    Over every run on an unchanging bucket, with any expiry and eviction and any
    clock, as long as no call so far was poisonous every `Stat` answers what the
    bucket's contents say, or reports the failure of its first request.
   */
  lemma {:induction false} RunAgrees(objects: Objects, ttl: int, prefix: string, states: seq<Entries>, calls: seq<Call>, outs: seq<Outcome>, i: nat)
    requires CleanPrefix(prefix) && Run(ttl, prefix, states, calls, outs) && i <= |calls|
    requires Sound(objects, prefix, states[0])
    requires forall j :: 0 <= j < |calls| ==> HonestCall(objects, prefix, calls[j])
    requires forall j :: 0 <= j < |calls| && j <= i ==> !Poisons(objects, prefix, states[j], calls[j])
    ensures Sound(objects, prefix, states[i])
    ensures i < |calls| && calls[i].Stat? ==>
              || outs[i] == Lookup(objects, prefix, calls[i].path)
              || (outs[i] == Backend && calls[i].a.AttrsFailed?)
    decreases i
  {
    hide Step, Sound, Poisons, HonestCall, Lookup;
    if i > 0 {
      RunAgrees(objects, ttl, prefix, states, calls, outs, i - 1);
      StepAgrees(objects, ttl, prefix, states[i - 1], calls[i - 1]);
      assert Step(ttl, prefix, states[i - 1], calls[i - 1]) == (outs[i - 1], states[i - 1 + 1]);
    }
    if i < |calls| {
      assert Step(ttl, prefix, states[i], calls[i]) == (outs[i], states[i + 1]);
      StepAgrees(objects, ttl, prefix, states[i], calls[i]);
    }
  }

  /**
    The comment in `Stat` says a failed probe is not cached; the code caches it.
    For every directory without an extension and object of its own: after one failed
    probe the next `Stat`, with a healthy bucket and within the negative lifetime,
    still says the directory does not exist.
   */
  lemma FailedProbeIsCached(objects: Objects, ttl: int, prefix: string, path: string, t: int, later: int)
    requires CleanPrefix(prefix) && ValidPath(path) && path != "." && !HasExt(path)
    requires FullPath(prefix, path) !in objects && DirExists(objects, FullPath(prefix, path))
    requires t <= later <= t + NegTtl(ttl)
    ensures var failing := Stat(path, t, ObjectMissing, ProbeFailed, t, {});
            var healthy := Stat(path, later, ObjectMissing, ProbeEntry, later, {});
            && HonestCall(objects, prefix, failing) && HonestCall(objects, prefix, healthy)
            && Lookup(objects, prefix, path) == Info(Attrs("", path + "/", 0, 0))
            && var (_, entries) := Step(ttl, prefix, map[], failing);
               Step(ttl, prefix, entries, healthy).0 == NotExist
  {
    ValidName(path);
  }

  // ------------------------------------------------- views sharing one cache

  /** What a caller sees of a `FileInfo`, apart from `Sys`. */
  datatype Seen = Seen(name: string, size: int, isDir: bool, updated: int)

  function See(attrs: Attrs): Seen {
    Seen(Base(if attrs.prefix != "" then attrs.prefix else attrs.name), attrs.size, attrs.prefix != "", attrs.updated)
  }

  function SeeOutcome(out: Outcome): Option<Seen> {
    if out.Info? then Some(See(out.attrs)) else None
  }

  /** What a key is, whichever view it is reached from. */
  ghost function SeenAt(objects: Objects, key: string): Option<Seen> {
    if key in objects then Some(Seen(LastSeg(key), objects[key].size, false, objects[key].updated))
    else if '.' in LastSeg(key) then None
    else if DirExists(objects, key) then Some(Seen(LastSeg(key), 0, true, 0))
    else None
  }

  /** A bucket holds objects under their own names, not directories. */
  ghost predicate PlainObjects(objects: Objects) {
    forall o :: o in objects ==> objects[o].prefix == "" && objects[o].name == o
  }

  /** Every view's own root shows as an empty directory named by a slash. */
  lemma RootSeen(objects: Objects, prefix: string)
    ensures SeeOutcome(Lookup(objects, prefix, ".")) == Some(Seen("/", 0, true, 0))
  {
    assert TrimSlashes("/") == TrimSlashes("") == "";
  }

  /** Away from the root the visible answer depends on the key alone. */
  lemma SeenByKey(objects: Objects, prefix: string, path: string)
    requires CleanPrefix(prefix) && ValidPath(path) && path != "." && PlainObjects(objects)
    ensures SeeOutcome(Lookup(objects, prefix, path)) == SeenAt(objects, FullPath(prefix, path))
    ensures FullPath(prefix, path) != ""
  {
    ValidName(path);
    LastOfKey(prefix, path);
    EdgeSegs(path);
    KeyIsPrefixAndName(prefix, path);
    BaseOfDir(path);
    BaseOfName(FullPath(prefix, path));
    assert Plain(LastSeg(path));
    hide FullPath, ValidPath, CleanPrefix, Split, TrimSlashes;
  }

  /** Every entry shows what its key is; the key of the bucket's own root is left aside. */
  ghost predicate SharedSound(objects: Objects, entries: Entries) {
    forall key :: key in entries && key != "" ==>
      SeeOutcome(FromCache(entries[key].value)) == SeenAt(objects, key)
  }

  /** A miss on the root of a sub-view: it is answered and stored without asking. */
  predicate MissesSubRoot(prefix: string, entries: Entries, call: Call) {
    call.Stat? && call.path == "." && prefix != "" && !Hits(entries, FullPath(prefix, "."), call.now)
  }

  lemma SubRootIsWrong(objects: Objects, prefix: string)
    requires PlainObjects(objects)
    ensures SeeOutcome(Info(DirAttrs(""))) != SeenAt(objects, prefix)
  {
    assert TrimSlashes("/") == TrimSlashes("") == "";
    assert NoSlash(LastSeg(prefix));
  }

  /** The ways to make the shared cache show something untrue. */
  ghost predicate SharedPoisons(objects: Objects, prefix: string, entries: Entries, call: Call) {
    || (Probes(prefix, entries, call) && call.p.ProbeFailed? && DirExists(objects, FullPath(prefix, call.path)))
    || (call.ReadMiss? && FullPath(prefix, call.path) != "" && SeenAt(objects, FullPath(prefix, call.path)).Some?)
    || MissesSubRoot(prefix, entries, call)
  }

  lemma StoreShared(objects: Objects, ttl: int, entries: Entries, gone: set<Key>, key: Key, v: Value, stored: int)
    requires SharedSound(objects, entries)
    ensures SharedSound(objects, Store(ttl, entries, gone, key, v, stored)) <==>
            key == "" || SeeOutcome(FromCache(v)) == SeenAt(objects, key)
  {
    var after := Store(ttl, entries, gone, key, v, stored);
    assert after[key].value == v;
  }

  lemma SharedStatAgrees(objects: Objects, ttl: int, prefix: string, entries: Entries, call: Call)
    requires CleanPrefix(prefix) && HonestCall(objects, prefix, call) && PlainObjects(objects)
    requires SharedSound(objects, entries) && call.Stat?
    ensures var (out, after) := Step(ttl, prefix, entries, call);
            && (SharedSound(objects, after) <==> !SharedPoisons(objects, prefix, entries, call))
            && (call.path != "." && !SharedPoisons(objects, prefix, entries, call) ==>
                  || SeeOutcome(out) == SeeOutcome(Lookup(objects, prefix, call.path))
                  || (out == Backend && call.a.AttrsFailed?))
  {
    hide FullPath, ValidPath, CleanPrefix, SeenAt, See, HasExt, Lifetime;
    var out := Step(ttl, prefix, entries, call).0;
    if Remembered(out).Some? {
      StoreShared(objects, ttl, entries, call.gone, FullPath(prefix, call.path), Remembered(out).value, call.stored);
    }
    if call.path == "." {
      RootKey(prefix);
      SubRootIsWrong(objects, prefix);
    } else {
      SeenByKey(objects, prefix, call.path);
    }
  }

  /**
    All views made by `Sub` share one cache.  From a shared cache that shows the
    truth, a call on any view keeps it so exactly when it is none of: a failed
    probe of a directory, a directory read like a file, a `Stat` that misses on
    the root of a sub-view.  A `Stat` on a name then shows the truth.
   */
  lemma SharedStepAgrees(objects: Objects, ttl: int, prefix: string, entries: Entries, call: Call)
    requires CleanPrefix(prefix) && HonestCall(objects, prefix, call) && PlainObjects(objects)
    requires SharedSound(objects, entries)
    ensures var (out, after) := Step(ttl, prefix, entries, call);
            && (SharedSound(objects, after) <==> !SharedPoisons(objects, prefix, entries, call))
            && (call.Stat? && call.path != "." && !SharedPoisons(objects, prefix, entries, call) ==>
                  || SeeOutcome(out) == SeeOutcome(Lookup(objects, prefix, call.path))
                  || (out == Backend && call.a.AttrsFailed?))
  {
    match call
    case Lose(_) =>
    case ReadMiss(path, stored, gone) =>
      StoreShared(objects, ttl, entries, gone, FullPath(prefix, path), NotFound, stored);
    case Stat(_, _, _, _, _, _) =>
      SharedStatAgrees(objects, ttl, prefix, entries, call);
  }

  /** A run of calls, each on a view of its own, over one shared cache. */
  ghost predicate SharedRun(ttl: int, prefixes: seq<string>, states: seq<Entries>, calls: seq<Call>, outs: seq<Outcome>) {
    && |states| == |calls| + 1 && |outs| == |calls| && |prefixes| == |calls|
    && forall i :: 0 <= i < |calls| ==>
         CleanPrefix(prefixes[i]) && Step(ttl, prefixes[i], states[i], calls[i]) == (outs[i], states[i + 1])
  }

  /** Over every run on any mixture of views, a `Stat` on a name shows the truth until a call poisons the shared cache. */
  lemma {:induction false} SharedRunAgrees(objects: Objects, ttl: int, prefixes: seq<string>, states: seq<Entries>,
                                           calls: seq<Call>, outs: seq<Outcome>, i: nat)
    requires SharedRun(ttl, prefixes, states, calls, outs) && i <= |calls|
    requires PlainObjects(objects) && SharedSound(objects, states[0])
    requires forall j :: 0 <= j < |calls| ==> HonestCall(objects, prefixes[j], calls[j])
    requires forall j :: 0 <= j < |calls| && j <= i ==> !SharedPoisons(objects, prefixes[j], states[j], calls[j])
    ensures SharedSound(objects, states[i])
    ensures i < |calls| && calls[i].Stat? && calls[i].path != "." ==>
              || SeeOutcome(outs[i]) == SeeOutcome(Lookup(objects, prefixes[i], calls[i].path))
              || (outs[i] == Backend && calls[i].a.AttrsFailed?)
    decreases i
  {
    hide Step, SharedSound, SharedPoisons, HonestCall, Lookup, SeeOutcome, CleanPrefix, PlainObjects;
    if i > 0 {
      SharedRunAgrees(objects, ttl, prefixes, states, calls, outs, i - 1);
      assert Step(ttl, prefixes[i - 1], states[i - 1], calls[i - 1]) == (outs[i - 1], states[i - 1 + 1]);
      SharedStepAgrees(objects, ttl, prefixes[i - 1], states[i - 1], calls[i - 1]);
    }
    if i < |calls| {
      assert Step(ttl, prefixes[i], states[i], calls[i]) == (outs[i], states[i + 1]);
      SharedStepAgrees(objects, ttl, prefixes[i], states[i], calls[i]);
    }
  }

  /**
    Concretely: after `Stat(".")` on the view of any missing directory of any
    view, whatever the bucket holds and answers, the parent view reports that
    directory as existing for the positive lifetime.
   */
  lemma SubRootPoisons(objects: Objects, ttl: int, prefix: string, dir: string, onSub: Call, onParent: Call)
    requires CleanPrefix(prefix) && ValidPath(dir) && dir != "."
    requires Lookup(objects, prefix, dir) == NotExist
    requires onSub.Stat? && onSub.path == "."
    requires onParent.Stat? && onParent.path == dir && onParent.now <= onSub.stored + ttl
    ensures var (_, entries) := Step(ttl, Join(prefix, dir), map[], onSub);
            Step(ttl, prefix, entries, onParent).0 == Info(Attrs("", "/", 0, 0))
  {
    ValidName(dir);
    SubKeepsClean(prefix, dir);
    RootKey(Join(prefix, dir));
  }
}
