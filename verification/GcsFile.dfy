/**
  The mutable `gcsFile` of pkg/gcs/fs/gcsfs.go over a range reader whose chunking
  and errors are arbitrary.  Each method is proved to take exactly one step of
  `RangeFile`, for some behaviour of the reader, and so inherits its theorems.
 */
module GcsFile {
  import opened Wrappers
  import opened RangeFile

  /** A `storage.Reader`: a stream of `content` from an offset on, with short reads and errors at will. */
  class RangeReader {
    const content: seq<Byte>
    var off: nat

    constructor (content: seq<Byte>, off: nat)
      ensures this.content == content && this.off == off
    {
      this.content, this.off := content, off;
    }

    /** One `Read` into a buffer of `want` bytes; no bytes and no error only for an empty buffer. */
    method Read(want: nat) returns (data: seq<Byte>, err: Err)
      modifies this`off
      ensures Yields(content, old(off), want, |data|, err)
      ensures data == Slice(content, old(off), |data|)
      ensures off == old(off) + |data|
    {
      var n: nat :| n <= want && n <= Avail(content, off);
      data := Slice(content, off, n);
      off := off + n;
      var failed: bool, ended: bool := *, *;
      if failed {
        err := Failed;
      } else if off >= |content| && (ended || n == 0) {
        err := Eof;
      } else {
        err := if n == 0 && want > 0 then Failed else NoErr;
      }
    }

    /** `io.ReadFull`: read until `size` bytes have come or the stream errs. */
    method ReadFull(size: nat) returns (data: seq<Byte>, err: Err)
      modifies this`off
      ensures Yields(content, old(off), size, |data|, err)
      ensures data == Slice(content, old(off), |data|)
      ensures off == old(off) + |data|
      ensures |data| < size ==> err != NoErr
    {
      data, err := [], NoErr;
      while |data| < size && err == NoErr
        invariant |data| <= size && |data| <= Avail(content, old(off))
        invariant data == Slice(content, old(off), |data|)
        invariant off == old(off) + |data|
        invariant err == NoErr || err == Failed || (err == Eof && off >= |content|)
        decreases size - |data|, err == NoErr
      {
        var more;
        more, err := Read(size - |data|);
        data := data + more;
      }
      if |data| == size {
        err := NoErr;
      }
    }

    /** `io.CopyN(io.Discard, r, n)`: how many bytes went, and whether it was all of them. */
    method Discard(n: nat) returns (discarded: nat, ok: bool)
      modifies this`off
      ensures discarded <= n && discarded <= Avail(content, old(off))
      ensures off == old(off) + discarded
      ensures ok <==> discarded == n
    {
      discarded := 0;
      var err := NoErr;
      while discarded < n && err == NoErr
        invariant discarded <= n && discarded <= Avail(content, old(off))
        invariant off == old(off) + discarded
        decreases n - discarded, err == NoErr
      {
        var chunk;
        chunk, err := Read(Min(8192, n - discarded));
        discarded := discarded + |chunk|;
      }
      ok := discarded == n;
    }
  }

  class GcsFile {
    const content: seq<Byte>  // the object's bytes
    var reader: RangeReader?
    var pos: nat
    var size: int
    var sizeKnown: bool
    var sniffBuf: Option<seq<Byte>>  // None is Go's nil slice
    var sniffLen: nat
    var sniffPos: nat
    ghost var opens: nat

    ghost predicate Valid()
      reads this, reader
    {
      && (reader != null ==> reader.content == content)
      && sniffLen == (if sniffBuf.Some? then |sniffBuf.value| else 0)
      && sniffPos <= sniffLen
    }

    ghost function State(): File
      reads this, reader
    {
      File(pos, if reader == null then None else Some(reader.off), sniffBuf, sniffPos,
           if sizeKnown then Some(size) else None, opens)
    }

    constructor (content: seq<Byte>)
      ensures Valid() && reader == null && this.content == content
      ensures State() == Open()
    {
      this.content := content;
      this.reader, this.pos, this.size, this.sizeKnown := null, 0, 0, false;
      this.sniffBuf, this.sniffLen, this.sniffPos, this.opens := None, 0, 0, 0;
    }

    method Close() returns (err: Err, ghost op: Op)
      requires Valid()
      modifies this
      ensures Valid() && op.Close?
      ensures Step(content, old(State()), op) == (State(), Closed(err))
      ensures reader == null && (old(reader) == null ==> err == NoErr)
      ensures pos == old(pos) && sniffBuf == old(sniffBuf) && sniffLen == old(sniffLen) && sniffPos == old(sniffPos)
      ensures size == old(size) && sizeKnown == old(sizeKnown)
    {
      var failed: bool := *;
      var closeErr := if failed then Failed else NoErr;
      op := RangeFile.Close(closeErr);
      err := NoErr;
      if reader != null {
        err := closeErr;
        reader := null;
      }
    }

    /** `NewRangeReader(pos, -1)`, which may fail. */
    method NewReader() returns (ok: bool)
      requires reader == null
      modifies this`reader, this`opens
      ensures ok ==> reader != null && fresh(reader) && reader.content == content && reader.off == pos
      ensures ok ==> opens == old(opens) + 1
      ensures !ok ==> reader == null && opens == old(opens)
    {
      ok := *;
      if ok {
        reader := new RangeReader(content, pos);
        opens := opens + 1;
      }
    }

    /** Under the invariant the bytes are the content at the position; in any state it is one step of the model. */
    method Read(want: nat) returns (data: seq<Byte>, err: Err, ghost op: Op)
      requires Valid()
      modifies this, reader
      ensures Valid() && (reader == old(reader) || (reader != null && fresh(reader)))
      ensures op.Read? && op.want == want && Possible(content, old(State()), op)
      ensures Step(content, old(State()), op) == (State(), Data(data, err))
      ensures Inv(content, old(State())) ==>
                && Inv(content, State())
                && |data| <= want && |data| <= Avail(content, old(pos))
                && data == Slice(content, old(pos), |data|) && pos == old(pos) + |data|
                && (err == Eof ==> pos >= |content|)
                && (want > 0 && data == [] ==> err != NoErr)
    {
      ghost var before := State();
      if sniffBuf.Some? && sniffPos < sniffLen && pos < sniffLen {
        data, err, op := FromBuffer(want);
      } else {
        data, err, op := FromReader(want);
      }
      hide Inv, Possible, Step;
      if Inv(content, before) {
        StepRefines(content, before, op);
      }
    }

    /** Serve from the sniff buffer. */
    method FromBuffer(want: nat) returns (data: seq<Byte>, err: Err, ghost op: Op)
      requires Valid() && FromSniff(State())
      modifies this`sniffPos, this`pos
      ensures Valid() && op.Read? && op.want == want && Possible(content, old(State()), op)
      ensures Step(content, old(State()), op) == (State(), Data(data, err))
    {
      var n := Min(want, sniffLen - sniffPos);
      data, err := sniffBuf.value[sniffPos..sniffPos + n], NoErr;
      sniffPos := sniffPos + n;
      pos := pos + n;
      op := RangeFile.Read(want, true, 0, NoErr);
    }

    /** Open a reader if there is none, then capture or read on. */
    method FromReader(want: nat) returns (data: seq<Byte>, err: Err, ghost op: Op)
      requires Valid() && !FromSniff(State())
      modifies this, reader
      ensures Valid() && (reader == old(reader) || (reader != null && fresh(reader)))
      ensures op.Read? && op.want == want && Possible(content, old(State()), op)
      ensures Step(content, old(State()), op) == (State(), Data(data, err))
    {
      if reader == null {
        var ok := NewReader();
        if !ok {
          op := RangeFile.Read(want, false, 0, Failed);
          return [], Failed, op;
        }
        if pos == 0 && sniffBuf.None? {
          data, err, op := Capture(want);
          return;
        }
      }
      data, err := reader.Read(want);
      op := RangeFile.Read(want, true, |data|, err);
      pos := pos + |data|;
    }

    /** The first read at position 0: fill the sniff buffer and serve from it. */
    method Capture(want: nat) returns (data: seq<Byte>, err: Err, ghost op: Op)
      requires Valid() && reader != null && reader.off == 0 && pos == 0 && sniffBuf.None? && opens > 0
      modifies this`sniffBuf, this`sniffLen, this`sniffPos, this`pos, reader
      ensures Valid() && reader != null
      ensures op.Read? && op.want == want && op.openOk && Yields(content, 0, SNIFF_SIZE, op.got, op.err)
      ensures op.got < SNIFF_SIZE ==> op.err != NoErr
      ensures var before := old(State()).(reader := None, opens := opens - 1);
              Captures(before) && Step(content, before, op) == (State(), Data(data, err))
    {
      var head, readErr := reader.ReadFull(SNIFF_SIZE);
      op := RangeFile.Read(want, true, |head|, readErr);
      sniffBuf, sniffLen := Some(head), |head|;
      if |head| > 0 {
        var copied := Min(want, |head|);
        sniffPos := copied;
        pos := pos + copied;
        return head[..copied], NoErr, op;
      }
      err := if readErr == Failed then Failed else Eof;
      data := [];
    }

    /**
      `stat` is the size `Stat` would answer with, or nothing if it fails.  Under
      the invariant the position is the plain file's, and the invariant is kept
      unless the seek is rejected in an unsafe state.
     */
    method Seek(offset: int, whence: Whence, stat: Option<int>) returns (at: int, err: Err, ghost op: Op)
      requires Valid()
      modifies this, reader
      ensures Valid() && (reader == old(reader) || reader == null)
      ensures op.Seek? && op.offset == offset && op.whence == whence && op.stat == stat
      ensures Step(content, old(State()), op) == (State(), At(at, err))
      ensures whence == SeekStart ==> Moved(offset, at, err)
      ensures whence == SeekCurrent ==> Moved(old(pos) + offset, at, err)
      ensures whence == SeekEnd && old(sizeKnown) ==> Moved(old(size) + offset, at, err)
      ensures whence == SeekEnd && !old(sizeKnown) && stat.Some? ==>
                sizeKnown && size == stat.value && Moved(stat.value + offset, at, err)
      ensures whence == SeekEnd && !old(sizeKnown) && stat.None? ==> pos == old(pos) && at == 0 && err == Failed
      ensures whence == OtherWhence ==> pos == old(pos) && at == 0 && err == InvalidWhence
      ensures Inv(content, old(State())) ==>
                && PlainStep(content, Abs(old(State())), op, At(at, err), Abs(State()))
                && (Inv(content, State()) <==> (Rejects(old(State()), op) ==> RejectIsSafe(content, old(State()))))
    {
      ghost var before := State();
      at, err, op := SeekFields(offset, whence, stat);
      SeekIsPlain(content, before, op);
      hide Inv, Possible, Step, PlainStep, Rejects, RejectIsSafe;
      if Inv(content, before) {
        StepRefines(content, before, op);
      }
    }

    /** The file stands at `target`, or at 0 with an error if that is negative. */
    ghost predicate Moved(target: int, at: int, err: Err)
      reads this
    {
      if target >= 0 then pos == at == target && err == NoErr else pos == at == 0 && err == NegativeSeek
    }

    method SeekFields(offset: int, whence: Whence, stat: Option<int>) returns (at: int, err: Err, ghost op: Op)
      requires Valid()
      modifies this, reader
      ensures Valid() && (reader == old(reader) || reader == null)
      ensures op.Seek? && op.offset == offset && op.whence == whence && op.stat == stat
      ensures Step(content, old(State()), op) == (State(), At(at, err))
    {
      op := RangeFile.Seek(offset, whence, stat, 0);
      var newPos: int;
      match whence {
        case SeekStart => newPos := offset;
        case SeekCurrent => newPos := pos + offset;
        case SeekEnd =>
          if !sizeKnown {
            if stat.None? {
              return 0, Failed, op;
            }
            size, sizeKnown := stat.value, true;
          }
          newPos := size + offset;
        case OtherWhence => return 0, InvalidWhence, op;
      }
      if newPos < 0 {
        pos := 0;
        return 0, NegativeSeek, op;
      }
      ghost var skipped := MoveTo(newPos);
      op := RangeFile.Seek(offset, whence, stat, skipped);
      return pos, NoErr, op;
    }

    /** The rest of `Seek`, for a position that is not negative. */
    method MoveTo(newPos: nat) returns (ghost skipped: nat)
      requires Valid()
      modifies this`pos, this`sniffPos, this`reader, reader
      ensures Valid() && (reader == old(reader) || reader == null)
      ensures State() == SeekTo(old(State()), newPos, skipped) && pos == newPos
    {
      skipped := 0;
      if sniffBuf.Some? && newPos < sniffLen {
        if reader != null && pos > sniffLen {
          reader := null;
        }
        pos, sniffPos := newPos, newPos;
        return;
      }
      var sniffFullyConsumed := sniffBuf.None? || sniffPos >= sniffLen;
      var skip := newPos - pos;
      if reader != null && sniffFullyConsumed && 0 < skip <= SEEK_SKIP_THRESHOLD {
        var discarded, ok := reader.Discard(skip);
        skipped := discarded;
        pos := pos + discarded;
        if ok {
          return;
        }
      }
      pos := newPos;
      reader := null;
    }
  }
}
