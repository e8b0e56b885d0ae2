/**
  `gcsFS` and the caching side of `gcsFile` (pkg/gcs/fs/gcsfs.go) over the mutable
  attribute cache.  Clock readings are arbitrary; the replies of GCS are inputs.
  Each method is proved to take exactly one step of `StatModel`.
 */
module GcsFS {
  import opened Wrappers
  import opened CacheModel
  import opened Paths
  import opened StatModel
  import opened AttrCache

  lemma LostBoth(entries: Entries, a: set<Key>, b: set<Key>)
    ensures entries - a - b == entries - (a + b)
  {
  }

  class FileSystem {
    const prefix: string
    const cache: AttrCache?  // null disables caching

    constructor (prefix: string, cache: AttrCache?)
      ensures this.prefix == prefix && this.cache == cache
    {
      this.prefix, this.cache := prefix, cache;
    }

    /** A view of a directory; it shares the cache. */
    method Sub(dir: string) returns (sub: FileSystem)
      ensures fresh(sub) && sub.cache == cache
      ensures sub.prefix == Join(prefix, dir) && CleanPrefix(sub.prefix)
    {
      SubKeepsClean(prefix, dir);
      sub := new FileSystem(Join(prefix, dir), cache);
    }

    /** `Open` and then `Stat`; nothing for a name that `Open` refuses. */
    method Stat(path: string, a: AttrsReply, p: ProbeReply) returns (out: Option<Outcome>, ghost call: Call)
      requires cache != null ==> cache.Valid()
      modifies cache
      ensures cache != null ==> cache.Valid()
      ensures out.Some? <==> ValidPath(path)
      ensures out.None? && cache != null ==> cache.entries == old(cache.entries)
      ensures out.Some? && cache == null ==> out.value == Uncached(OpenName(path), a, p)
      ensures out.Some? && cache != null ==>
                && call.Stat? && call.path == path && call.a == a && call.p == p
                && StatModel.Step(cache.ttl, prefix, old(cache.entries), call) == (out.value, cache.entries)
    {
      hide Consistent, Uncached, ValidPath, FullPath, Lifetime;
      call := Lose({});
      if !ValidPath(path) {
        return None, call;
      }
      var key := FullPath(prefix, path);
      var now: int := *;
      ghost var dropped := {};
      if cache != null {
        var recheck: int := *;
        var hit := cache.Get(key, now, recheck);
        if hit.Some? {
          ghost var stored, gone := 0, {};
          if hit.value.NotFound? {
            stored, gone := CacheNotFound(key);
          }
          call := StatModel.Stat(path, now, a, p, stored, gone);
          return Some(FromCache(hit.value)), call;
        }
        dropped := if cache.entries == old(cache.entries) then {} else {key};
        assert cache.entries == old(cache.entries) - dropped;
      }
      var answer: Outcome;
      ghost var stored, gone;
      answer, stored, gone := Resolve(OpenName(path), key, a, p);
      call := StatModel.Stat(path, now, a, p, stored, dropped + gone);
      if cache != null {
        LostBoth(old(cache.entries), dropped, gone);
      }
      out := Some(answer);
    }

    /** The rest of `Stat` after a cache miss or without a cache. */
    method Resolve(name: string, key: Key, a: AttrsReply, p: ProbeReply)
      returns (out: Outcome, ghost stored: int, ghost gone: set<Key>)
      requires cache != null ==> cache.Valid()
      modifies cache
      ensures out == Uncached(name, a, p)
      ensures cache != null ==>
                && cache.Valid()
                && cache.entries == match Remembered(out)
                                    case None => old(cache.entries) - gone
                                    case Some(v) => Store(cache.ttl, old(cache.entries), gone, key, v, stored)
    {
      hide Consistent, Lifetime, HasExt;
      stored, gone := 0, {};
      if name == "" {
        stored, gone := Remember(key, DirAttrs(""));
        return Info(DirAttrs("")), stored, gone;
      }
      match a {
        case AttrsFailed => return Backend, stored, gone;
        case BucketMissing =>
          stored, gone := CacheNotFound(key);
          return NotExist, stored, gone;
        case AttrsOk(attrs) =>
          stored, gone := Remember(key, attrs);
          return Info(attrs), stored, gone;
        case ObjectMissing =>
      }
      if HasExt(name) {
        stored, gone := CacheNotFound(key);
        return NotExist, stored, gone;
      }
      if p.ProbeEntry? {
        stored, gone := Remember(key, DirAttrs(name));
        return Info(DirAttrs(name)), stored, gone;
      }
      ghost var first := {};
      if p.ProbeDone? {
        stored, first := CacheNotFound(key);
      }
      ghost var mid := if cache == null then map[] else cache.entries;
      stored, gone := CacheNotFound(key);
      if cache != null && p.ProbeDone? {
        assert mid - gone - {key} == old(cache.entries) - (first + gone) - {key};
        assert cache.entries == Store(cache.ttl, old(cache.entries), first + gone, key, NotFound, stored);
      }
      gone := first + gone;
      out := NotExist;
    }

    /** `cache.set`, if there is a cache. */
    method Remember(key: Key, attrs: Attrs) returns (ghost stored: int, ghost gone: set<Key>)
      requires cache != null ==> cache.Valid()
      modifies cache
      ensures cache != null ==>
                cache.Valid() && cache.entries == Store(cache.ttl, old(cache.entries), gone, key, Found(attrs), stored)
    {
      hide Consistent;
      stored, gone := 0, {};
      if cache != null {
        var evictNow: int, now: int := *, *;
        gone := cache.Set(key, attrs, evictNow, now);
        stored := now;
      }
    }

    /** `cacheNotFound`, which `translateError` calls for every missing object. */
    method CacheNotFound(key: Key) returns (ghost stored: int, ghost gone: set<Key>)
      requires cache != null ==> cache.Valid()
      modifies cache
      ensures cache != null ==>
                cache.Valid() && cache.entries == Store(cache.ttl, old(cache.entries), gone, key, NotFound, stored)
    {
      hide Consistent;
      stored, gone := 0, {};
      if cache != null {
        var evictNow: int, now: int := *, *;
        gone := cache.SetNotFound(key, evictNow, now);
        stored := now;
      }
    }

    /** A `Read` whose open finds no object: the error is translated, and cached on the way. */
    method ReadMissing(path: string) returns (ghost call: Call)
      requires cache != null && cache.Valid() && ValidPath(path)
      modifies cache
      ensures cache.Valid() && call.ReadMiss? && call.path == path
      ensures StatModel.Step(cache.ttl, prefix, old(cache.entries), call) == (NotExist, cache.entries)
    {
      ghost var stored, gone := CacheNotFound(FullPath(prefix, path));
      call := ReadMiss(path, stored, gone);
    }
  }
}
