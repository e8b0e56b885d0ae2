/**
  `gcsFile.ReadDir` (pkg/gcs/fs/gcsfs.go): batches taken from one object iterator
  that lives as long as the open file.  The iterator may err at any entry.
 */
module ReadDir {
  import opened CacheModel

  datatype DirErr = NoErr | Eof | Failed

  datatype Item = Listed(attrs: Attrs) | Done | IterErr

  /** `storage.ObjectIterator` over a fixed listing. */
  class ObjectIterator {
    const listing: seq<Attrs>
    var cursor: nat
    ghost var errs: nat  // how often it has erred

    constructor (listing: seq<Attrs>)
      ensures this.listing == listing && cursor == 0 && errs == 0
    {
      this.listing, this.cursor, this.errs := listing, 0, 0;
    }

    method Next() returns (item: Item)
      requires cursor <= |listing|
      modifies this`cursor, this`errs
      ensures cursor <= |listing|
      ensures errs == old(errs) + if item.IterErr? then 1 else 0
      ensures item.Listed? ==> old(cursor) < |listing| && item.attrs == listing[old(cursor)] && cursor == old(cursor) + 1
      ensures item.Done? ==> cursor == old(cursor) == |listing|
      ensures item.IterErr? ==> cursor == old(cursor)
    {
      var fails: bool := *;
      if fails {
        errs := errs + 1;
        return IterErr;
      }
      if cursor == |listing| {
        return Done;
      }
      cursor := cursor + 1;
      return Listed(listing[cursor - 1]);
    }
  }

  /** One `ReadDir(n)` moves the cursor from `i` to `i'` and returns what lies between. */
  predicate Batch(listing: seq<Attrs>, i: nat, n: int, batch: seq<Attrs>, err: DirErr, i': nat) {
    && i <= i' <= |listing| && batch == listing[i..i']
    && match err
       case NoErr => if n <= 0 then i' == |listing| else |batch| == n
       case Eof => n > 0 && i' == |listing| && |batch| < n
       case Failed => n > 0 ==> |batch| < n
  }

  class DirFile {
    const listing: seq<Attrs>  // what the bucket lists under the directory
    var iter: ObjectIterator?

    ghost predicate Valid()
      reads this, iter
    {
      iter != null ==> iter.listing == listing && iter.cursor <= |listing|
    }

    ghost function Cursor(): nat
      reads this, iter
    {
      if iter == null then 0 else iter.cursor
    }

    ghost function Errs(): nat
      reads this, iter
    {
      if iter == null then 0 else iter.errs
    }

    constructor (listing: seq<Attrs>)
      ensures Valid() && Cursor() == 0 && Errs() == 0 && this.listing == listing
    {
      this.listing, this.iter := listing, null;
    }

    method ReadDir(n: int) returns (result: seq<Attrs>, err: DirErr)
      requires Valid()
      modifies this, iter
      ensures Valid()
      ensures Batch(listing, old(Cursor()), n, result, err, Cursor())
      ensures Errs() == old(Errs()) + if err == Failed then 1 else 0
      ensures n <= 0 && Errs() == old(Errs()) ==> err == NoErr && result == listing[old(Cursor())..]
    {
      if iter == null {
        iter := new ObjectIterator(listing);
      }
      result := [];
      var it: ObjectIterator := iter;
      while true
        invariant iter == it && it.listing == listing && old(Cursor()) <= it.cursor <= |listing|
        invariant result == listing[old(Cursor())..it.cursor]
        invariant n > 0 ==> |result| < n
        invariant it.errs == old(Errs())
        decreases |listing| - it.cursor
      {
        var item := it.Next();
        if item.Done? {
          return result, if n <= 0 then NoErr else Eof;
        }
        if item.IterErr? {
          return result, Failed;
        }
        result := result + [item.attrs];
        if n > 0 && |result| == n {
          break;
        }
      }
      err := NoErr;
    }
  }

  // ------------------------------------------------------------------ runs

  datatype Call = Call(n: int, batch: seq<Attrs>, err: DirErr)

  ghost predicate Run(listing: seq<Attrs>, cursors: seq<nat>, calls: seq<Call>) {
    && |cursors| == |calls| + 1 && cursors[0] <= |listing|
    && forall k :: 0 <= k < |calls| ==>
         Batch(listing, cursors[k], calls[k].n, calls[k].batch, calls[k].err, cursors[k + 1])
  }

  /** The batches of the first `m` calls, one after the other. */
  function Joined(calls: seq<Call>, m: nat): seq<Attrs>
    requires m <= |calls|
  {
    if m == 0 then [] else Joined(calls, m - 1) + calls[m - 1].batch
  }

  /** For any mixture of batch sizes and errors, nothing of the listing is lost or repeated. */
  lemma {:induction false} NothingLost(listing: seq<Attrs>, cursors: seq<nat>, calls: seq<Call>, m: nat)
    requires Run(listing, cursors, calls) && m <= |calls|
    ensures cursors[0] <= cursors[m] <= |listing|
    ensures Joined(calls, m) == listing[cursors[0]..cursors[m]]
  {
    if m > 0 {
      NothingLost(listing, cursors, calls, m - 1);
      var c := calls[m - 1];
      assert Batch(listing, cursors[m - 1], c.n, c.batch, c.err, cursors[m - 1 + 1]);
    }
  }

  /** A run that ends with "all the rest" or with end of file has returned the whole listing. */
  lemma WholeListing(listing: seq<Attrs>, cursors: seq<nat>, calls: seq<Call>)
    requires Run(listing, cursors, calls) && cursors[0] == 0 && calls != []
    requires var c := calls[|calls| - 1]; (c.n <= 0 && c.err == NoErr) || c.err == Eof
    ensures Joined(calls, |calls|) == listing
  {
    var m := |calls| - 1;
    assert Batch(listing, cursors[m], calls[m].n, calls[m].batch, calls[m].err, cursors[m + 1]);
    NothingLost(listing, cursors, calls, |calls|);
  }

  /** An empty batch of a bounded call always comes with an error, so a caller's loop ends. */
  lemma EmptyBatchErrs(listing: seq<Attrs>, i: nat, n: int, batch: seq<Attrs>, err: DirErr, i': nat)
    requires Batch(listing, i, n, batch, err, i') && n > 0
    ensures |batch| <= n && (batch == [] ==> err != NoErr)
  {
  }
}
