/**
  `gcsFile.Read`, `Seek` and `Close` (pkg/gcs/fs/gcsfs.go) as steps on the file's
  fields, against a plain file that is just a content and a position.  How many
  bytes a reader yields, when it errs and whether an open succeeds are chosen by
  an adversary; the object's content does not change while the file is open.
 */
module RangeFile {
  import opened Wrappers

  const SNIFF_SIZE: nat := 512
  const SEEK_SKIP_THRESHOLD: nat := 32 * 1024

  datatype Err = NoErr | Eof | Failed | InvalidWhence | NegativeSeek

  datatype Whence = SeekStart | SeekCurrent | SeekEnd | OtherWhence

  /**
    The fields of `gcsFile`: `reader` is the hidden offset of the open range
    reader, `sniff` the captured head (its length is `sniffLen`), `size` is known
    or not, and `opens` counts the range readers opened so far.
   */
  datatype File = File(pos: nat, reader: Option<nat>, sniff: Option<seq<Byte>>, sniffPos: nat,
                       size: Option<int>, opens: nat)

  /**
    A call with the adversary's part in it.  `Read`: whether an open would
    succeed, how many bytes the stream yields and its error.  `Seek`: what `Stat`
    answers for the size and how many bytes the skip manages to discard.
   */
  datatype Op =
    | Read(want: nat, openOk: bool, got: nat, err: Err)
    | Seek(offset: int, whence: Whence, stat: Option<int>, skipped: nat)
    | Close(closeErr: Err)

  datatype Reply = Data(data: seq<Byte>, err: Err) | At(pos: int, err: Err) | Closed(err: Err)

  function Open(): File {
    File(0, None, None, 0, None, 0)
  }

  // ------------------------------------------------------------- the steps

  /** How many bytes of `content` lie at or after `off`. */
  function Avail(content: seq<Byte>, off: nat): nat {
    if off <= |content| then |content| - off else 0
  }

  function Slice(content: seq<Byte>, off: nat, n: nat): seq<Byte>
    requires n <= Avail(content, off)
  {
    if n == 0 then [] else content[off..off + n]
  }

  predicate FromSniff(f: File) {
    f.sniff.Some? && f.sniffPos < |f.sniff.value| && f.pos < |f.sniff.value|
  }

  predicate Captures(f: File) {
    f.reader.None? && f.pos == 0 && f.sniff.None?
  }

  function Offset(f: File): nat {
    if f.reader.Some? then f.reader.value else f.pos
  }

  function ReadStep(content: seq<Byte>, f: File, want: nat, openOk: bool, got: nat, err: Err): (File, Reply)
    requires Possible(content, f, Read(want, openOk, got, err))
  {
    if FromSniff(f) then
      var n := Min(want, |f.sniff.value| - f.sniffPos);
      (f.(sniffPos := f.sniffPos + n, pos := f.pos + n),
       Data(f.sniff.value[f.sniffPos..f.sniffPos + n], NoErr))
    else if f.reader.None? && !openOk then
      (f, Data([], Failed))
    else if Captures(f) then
      var head := Slice(content, 0, got);
      var n := Min(want, got);
      var f' := f.(reader := Some(got), sniff := Some(head), opens := f.opens + 1);
      if got > 0 then (f'.(sniffPos := n, pos := n), Data(head[..n], NoErr))
      else (f', Data([], if err == Failed then Failed else Eof))
    else
      var off := Offset(f);
      (f.(reader := Some(off + got), pos := f.pos + got, opens := if f.reader.None? then f.opens + 1 else f.opens),
       Data(Slice(content, off, got), err))
  }

  /** The size `SeekEnd` works with, if it can be had. */
  function SizeOf(size: Option<int>, stat: Option<int>): Option<int> {
    if size.Some? then size else stat
  }

  /** Where a seek wants to go: nothing for a bad whence or an unknown size. */
  function Target(pos: nat, size: Option<int>, offset: int, whence: Whence, stat: Option<int>): Option<int> {
    match whence
    case SeekStart => Some(offset)
    case SeekCurrent => Some(pos + offset)
    case SeekEnd => (match SizeOf(size, stat) case Some(n) => Some(n + offset) case None => None)
    case OtherWhence => None
  }

  function SizeAfter(size: Option<int>, whence: Whence, stat: Option<int>): Option<int> {
    if whence.SeekEnd? then SizeOf(size, stat) else size
  }

  predicate SniffConsumed(f: File) {
    f.sniff.None? || f.sniffPos >= |f.sniff.value|
  }

  /** The seek takes the discard shortcut. */
  predicate Skips(f: File, target: int) {
    && f.reader.Some? && SniffConsumed(f)
    && 0 < target - f.pos <= SEEK_SKIP_THRESHOLD
    && !(f.sniff.Some? && target < |f.sniff.value|)
  }

  function SeekTo(f: File, target: nat, skipped: nat): File {
    if f.sniff.Some? && target < |f.sniff.value| then
      f.(reader := if f.reader.Some? && f.pos > |f.sniff.value| then None else f.reader,
         pos := target, sniffPos := target)
    else if Skips(f, target) && skipped == target - f.pos then
      f.(reader := Some(f.reader.value + skipped), pos := target)
    else
      f.(pos := target, reader := None)
  }

  function SeekStep(f: File, offset: int, whence: Whence, stat: Option<int>, skipped: nat): (File, Reply) {
    var target := Target(f.pos, f.size, offset, whence, stat);
    if target.None? then
      (f, At(0, if whence.OtherWhence? then InvalidWhence else Failed))
    else
      var g := f.(size := SizeAfter(f.size, whence, stat));
      if target.value < 0 then (g.(pos := 0), At(0, NegativeSeek))
      else (SeekTo(g, target.value, skipped), At(target.value, NoErr))
  }

  function CloseStep(f: File, err: Err): (File, Reply) {
    (f.(reader := None), Closed(if f.reader.Some? then err else NoErr))
  }

  function Step(content: seq<Byte>, f: File, op: Op): (File, Reply)
    requires Possible(content, f, op)
  {
    match op
    case Read(want, openOk, got, err) => ReadStep(content, f, want, openOk, got, err)
    case Seek(offset, whence, stat, skipped) => SeekStep(f, offset, whence, stat, skipped)
    case Close(err) => CloseStep(f, err)
  }

  /**
    What a range reader over `content` can do when asked for `want` bytes at `off`:
    yield only bytes that are there, never more than asked for, stop short of all
    of them at will, fail at any time; but end only at the end, and come back
    with nothing only with an error.
   */
  predicate Yields(content: seq<Byte>, off: nat, want: nat, got: nat, err: Err) {
    && got <= want && got <= Avail(content, off)
    && (err == NoErr || err == Eof || err == Failed)
    && (err == Eof ==> off + got >= |content|)
    && (want > 0 && got == 0 ==> err != NoErr)
  }

  predicate Possible(content: seq<Byte>, f: File, op: Op) {
    match op
    case Read(want, _, got, err) =>
      if Captures(f) then Yields(content, 0, SNIFF_SIZE, got, err) && (got < SNIFF_SIZE ==> err != NoErr)
      else FromSniff(f) || Yields(content, Offset(f), want, got, err)
    case _ => true
  }

  // ------------------------------------------------------- the plain file

  datatype Plain = Plain(pos: nat, size: Option<int>)

  function Abs(f: File): Plain {
    Plain(f.pos, f.size)
  }

  /**
    A call on a file that is nothing but a content and a position: a read returns
    the bytes at the position, reports the end only there, and returns nothing for
    a non-empty buffer only with an error.
   */
  predicate PlainStep(content: seq<Byte>, p: Plain, op: Op, reply: Reply, p': Plain) {
    match op
    case Read(want, _, _, _) =>
      && reply.Data? && |reply.data| <= want && |reply.data| <= Avail(content, p.pos)
      && reply.data == Slice(content, p.pos, |reply.data|)
      && p' == p.(pos := p.pos + |reply.data|)
      && (reply.err == NoErr || reply.err == Eof || reply.err == Failed)
      && (reply.err == Eof ==> p'.pos >= |content|)
      && (want > 0 && reply.data == [] ==> reply.err != NoErr)
    case Seek(offset, whence, stat, _) =>
      && reply.At?
      && (match whence
          case SeekStart => p'.size == p.size && MovesTo(offset, reply, p')
          case SeekCurrent => p'.size == p.size && MovesTo(p.pos + offset, reply, p')
          case SeekEnd =>
            if p.size.Some? then p'.size == p.size && MovesTo(p.size.value + offset, reply, p')
            else if stat.Some? then p'.size == stat && MovesTo(stat.value + offset, reply, p')
            else p' == p && reply == At(0, Failed)
          case OtherWhence => p' == p && reply == At(0, InvalidWhence))
    case Close(_) => p' == p
  }

  /** A seek to `target`: it goes there, or is rejected below 0 and leaves the position at 0. */
  predicate MovesTo(target: int, reply: Reply, p': Plain) {
    if target >= 0 then p'.pos == target && reply == At(target, NoErr)
    else p'.pos == 0 && reply == At(0, NegativeSeek)
  }

  // ---------------------------------------------------------- the invariant

  /** Readers at these two offsets yield the same stream: the offsets are equal, or both past the end. */
  predicate SameStream(content: seq<Byte>, off: nat, other: nat) {
    off == other || (off >= |content| && other >= |content|)
  }

  /** An open reader yields the stream from `off` on. */
  predicate ReaderAt(content: seq<Byte>, f: File, off: nat) {
    f.reader.Some? ==> SameStream(content, f.reader.value, off)
  }

  /**
    Below the sniff length the sniff cursor is the position and an open reader
    sits just past the captured bytes; at or past it an open reader sits at the
    position.
   */
  ghost predicate Inv(content: seq<Byte>, f: File) {
    match f.sniff
    case None => f.sniffPos == 0 && ReaderAt(content, f, f.pos)
    case Some(head) =>
      && head <= content
      && f.sniffPos <= |head|
      && (f.pos < |head| ==> f.sniffPos == f.pos && ReaderAt(content, f, |head|))
      && (f.pos >= |head| ==> ReaderAt(content, f, f.pos))
  }

  predicate Rejects(f: File, op: Op) {
    && op.Seek?
    && var target := Target(f.pos, f.size, op.offset, op.whence, op.stat);
       target.Some? && target.value < 0
  }

  /** When a rejected seek, which resets the position but nothing else, does no harm. */
  predicate RejectIsSafe(content: seq<Byte>, f: File) {
    if f.sniff.Some? && |f.sniff.value| > 0 then f.sniffPos == 0 && ReaderAt(content, f, |f.sniff.value|)
    else ReaderAt(content, f, 0)
  }

  /**
    One call refines the plain file in every state that meets the invariant, and
    keeps the invariant unless it is a rejected seek; a rejected seek keeps it
    exactly when `RejectIsSafe` held before.
   */
  lemma StepRefines(content: seq<Byte>, f: File, op: Op)
    requires Inv(content, f) && Possible(content, f, op)
    ensures var (f', reply) := Step(content, f, op);
            && PlainStep(content, Abs(f), op, reply, Abs(f'))
            && (Rejects(f, op) <==> reply.At? && reply.err == NegativeSeek)
            && (Inv(content, f') <==> (Rejects(f, op) ==> RejectIsSafe(content, f)))
  {
    match op
    case Read(_, _, _, _) =>
      ReadRefines(content, f, op);
      hide Inv;
    case Seek(_, _, _, _) =>
      hide Inv, PlainStep, Step, Rejects, RejectIsSafe;
      SeekIsPlain(content, f, op);
      SeekKeepsInv(content, f, op);
    case Close(_) =>
      hide Slice;
  }

  lemma SeekKeepsInv(content: seq<Byte>, f: File, op: Op)
    requires Inv(content, f) && Possible(content, f, op) && op.Seek?
    ensures Inv(content, Step(content, f, op).0) <==> (Rejects(f, op) ==> RejectIsSafe(content, f))
  {
    hide Slice;
  }

  /** A seek moves the position as the plain file does in every state, whether the invariant holds or not. */
  lemma SeekIsPlain(content: seq<Byte>, f: File, op: Op)
    requires op.Seek?
    ensures var (f', reply) := Step(content, f, op); PlainStep(content, Abs(f), op, reply, Abs(f'))
    ensures Step(content, f, op).1.At?
    ensures Rejects(f, op) <==> Step(content, f, op).1.err == NegativeSeek
  {
  }

  /**
    When a seek keeps the open reader: into the captured head with the reader not
    past it, or at most 32 KiB forward with the head consumed and every byte of the
    skip discarded.  Then no further reader is opened; otherwise the next read
    needs one.
   */
  lemma SeekKeepsReader(content: seq<Byte>, f: File, op: Op)
    requires op.Seek? && f.reader.Some?
    ensures var (f', reply) := Step(content, f, op);
            && f'.opens == f.opens
            && (reply.err == NoErr ==>
                  (f'.reader.Some? <==>
                     if f.sniff.Some? && reply.pos < |f.sniff.value| then f.pos <= |f.sniff.value|
                     else (f.sniff.Some? ==> f.sniffPos >= |f.sniff.value|)
                          && 0 < reply.pos - f.pos <= 32768 && op.skipped == reply.pos - f.pos))
            && (reply.err != NoErr ==> f'.reader == f.reader)
  {
  }

  /** What `StepRefines` says of a read. */
  ghost predicate Refines(content: seq<Byte>, f: File, op: Op)
    requires Possible(content, f, op)
  {
    var (f', reply) := Step(content, f, op);
    PlainStep(content, Abs(f), op, reply, Abs(f')) && Inv(content, f')
  }

  lemma SniffReadRefines(content: seq<Byte>, f: File, op: Op)
    requires Inv(content, f) && op.Read? && FromSniff(f) && Possible(content, f, op)
    ensures Refines(content, f, op)
  {
  }

  lemma FirstReadRefines(content: seq<Byte>, f: File, op: Op)
    requires Inv(content, f) && op.Read? && !FromSniff(f) && Captures(f) && Possible(content, f, op)
    ensures Refines(content, f, op)
  {
  }

  /** The first read at position 0 captures the first 512 bytes, or the whole of a shorter object. */
  lemma FirstReadCaptures(content: seq<Byte>, f: File, op: Op)
    requires op.Read? && !FromSniff(f) && Captures(f) && op.openOk && Possible(content, f, op)
    ensures var head := Step(content, f, op).0.sniff;
            && head.Some? && head.value <= content && |head.value| <= 512
            && (op.err != Failed ==> head.value == content[..Min(512, |content|)])
  {
  }

  lemma DirectReadRefines(content: seq<Byte>, f: File, op: Op)
    requires Inv(content, f) && op.Read? && !FromSniff(f) && !Captures(f) && Possible(content, f, op)
    ensures Refines(content, f, op)
  {
  }

  lemma ReadRefines(content: seq<Byte>, f: File, op: Op)
    requires Inv(content, f) && op.Read? && Possible(content, f, op)
    ensures Refines(content, f, op)
  {
    hide Inv, Possible, Refines;
    if FromSniff(f) {
      SniffReadRefines(content, f, op);
    } else if Captures(f) {
      FirstReadRefines(content, f, op);
    } else {
      DirectReadRefines(content, f, op);
    }
  }

  // ------------------------------------------------------------------ runs

  /** A run of calls: the file before and after each, and its reply. */
  ghost predicate Run(content: seq<Byte>, files: seq<File>, ops: seq<Op>, replies: seq<Reply>) {
    && |files| == |ops| + 1 && |replies| == |ops|
    && forall i :: 0 <= i < |ops| ==>
         Possible(content, files[i], ops[i]) && Step(content, files[i], ops[i]) == (files[i + 1], replies[i])
  }

  ghost predicate RejectsSafely(content: seq<Byte>, files: seq<File>, ops: seq<Op>)
    requires |files| == |ops| + 1
  {
    forall i :: 0 <= i < |ops| ==> Rejects(files[i], ops[i]) ==> RejectIsSafe(content, files[i])
  }

  /**
    For every content, every reader behaviour and every run of calls, from a
    freshly opened file (`Open()` meets the invariant) or from any state that
    meets it, whose rejected seeks, if any, are safe: each call answers as the
    plain file does and the invariant holds throughout.
   */
  lemma {:induction false} RunRefines(content: seq<Byte>, files: seq<File>, ops: seq<Op>, replies: seq<Reply>, i: nat)
    requires Run(content, files, ops, replies) && Inv(content, files[0])
    requires RejectsSafely(content, files, ops) && i <= |ops|
    ensures Inv(content, files[i])
    ensures i < |ops| ==> PlainStep(content, Abs(files[i]), ops[i], replies[i], Abs(files[i + 1]))
    decreases i
  {
    if i > 0 {
      RunRefines(content, files, ops, replies, i - 1);
      StepRefines(content, files[i - 1], ops[i - 1]);
    }
    if i < |ops| {
      StepRefines(content, files[i], ops[i]);
    }
  }

  /**
    Without the restriction the claim is false.  Read 1024 bytes, let a seek be
    rejected, seek to 0 and read on: on every object of at least 1536 bytes the
    stream is content[0..512] followed by content[1024..1536].
   */
  lemma RejectedSeekDesynchronises(content: seq<Byte>) returns (files: seq<File>, ops: seq<Op>, replies: seq<Reply>)
    requires |content| >= 1536
    ensures Run(content, files, ops, replies) && files[0] == Open() && |ops| == 6
    ensures Rejects(files[2], ops[2]) && !RejectIsSafe(content, files[2])
    ensures ops[3] == Seek(0, SeekStart, None, 0) && replies[3] == At(0, NoErr)
    ensures replies[4] == Data(content[0..512], NoErr)
    ensures Abs(files[5]).pos == 512 && replies[5] == Data(content[1024..1536], NoErr)
  {
    var read := Read(512, true, 512, NoErr);
    ops := [read, read, Seek(-1, SeekStart, None, 0), Seek(0, SeekStart, None, 0), read, read];
    var head := content[0..512];
    var f0 := Open();
    var f1 := File(512, Some(512), Some(head), 512, None, 1);
    var f2 := f1.(pos := 1024, reader := Some(1024));
    var f3 := f2.(pos := 0);
    var f4 := f3.(sniffPos := 0);
    var f5 := f4.(pos := 512, sniffPos := 512);
    var f6 := f5.(pos := 1024, reader := Some(1536));
    files := [f0, f1, f2, f3, f4, f5, f6];
    replies := [Data(head, NoErr), Data(content[512..1024], NoErr), At(0, NegativeSeek), At(0, NoErr),
                Data(head, NoErr), Data(content[1024..1536], NoErr)];
    assert head[..512] == head;
    assert Step(content, f0, ops[0]) == (f1, replies[0]);
    assert Step(content, f1, ops[1]) == (f2, replies[1]);
    assert Step(content, f2, ops[2]) == (f3, replies[2]);
    assert Step(content, f3, ops[3]) == (f4, replies[3]);
    assert Step(content, f4, ops[4]) == (f5, replies[4]);
    assert Step(content, f5, ops[5]) == (f6, replies[5]);
  }

  /**
    A read at position `pos` has gone wrong: it reports the end below the end, or
    its byte is the one at another offset `o`.
   */
  predicate Wrong(content: seq<Byte>, pos: nat, reply: Reply, o: nat) {
    || (pos < |content| && reply == Data([], Eof))
    || (o < |content| && o != pos && reply == Data([content[o]], NoErr))
  }

  /** A read of one byte from an open reader, up to the end of its stream. */
  function ReadByte(content: seq<Byte>, off: nat): Op {
    if off < |content| then Read(1, true, 1, NoErr) else Read(1, true, 0, Eof)
  }

  /** The next read is served from elsewhere than the position. */
  predicate Astray(content: seq<Byte>, f: File) {
    if FromSniff(f) then f.sniff.value <= content && f.sniffPos != f.pos
    else f.reader.Some? && !SameStream(content, f.reader.value, f.pos)
  }

  lemma AstrayGoesWrong(content: seq<Byte>, f: File) returns (op: Op, o: nat)
    requires Astray(content, f)
    ensures op.Read? && Possible(content, f, op) && !Rejects(f, op)
    ensures var (f', reply) := Step(content, f, op);
            && Wrong(content, f.pos, reply, o)
            && (reply.data == [] || f.pos >= |content| || content[o] != content[f.pos] ==>
                  !PlainStep(content, Abs(f), op, reply, Abs(f')))
  {
    if FromSniff(f) {
      op, o := Read(1, true, 0, NoErr), f.sniffPos;
    } else {
      op, o := ReadByte(content, f.reader.value), f.reader.value;
    }
  }

  /** Reading the captured head from its start. */
  lemma ReadHead(content: seq<Byte>, f: File) returns (op: Op)
    requires f.sniff.Some? && f.sniffPos == 0 && f.pos == 0 && |f.sniff.value| > 0
    ensures op.Read? && Possible(content, f, op)
    ensures Step(content, f, op).0 == f.(pos := |f.sniff.value|, sniffPos := |f.sniff.value|)
  {
    op := Read(|f.sniff.value|, true, 0, NoErr);
  }

  /** With the head consumed: a failed read, which leaves a reader open at 0, and a seek back to 0. */
  lemma Reopen(content: seq<Byte>, f: File) returns (op1: Op, op2: Op)
    requires f.sniff.Some? && f.sniffPos == |f.sniff.value| > 0 && f.pos == 0 && Offset(f) == 0
    ensures op1.Read? && Possible(content, f, op1)
    ensures var g := Step(content, f, op1).0;
            && Possible(content, g, op2) && !Rejects(g, op2)
            && Step(content, g, op2).0 == f.(reader := Some(0), sniffPos := 0, opens := g.opens)
  {
    op1, op2 := Read(1, true, 0, Failed), Seek(0, SeekStart, None, 0);
  }

  /** From the state that an unsafe rejected seek leaves, at most three calls lead astray. */
  lemma RejectLeadsAstray(content: seq<Byte>, g: File) returns (files: seq<File>, ops: seq<Op>, replies: seq<Reply>)
    requires g.pos == 0 && !Inv(content, g)
    requires g.sniff.Some? ==> g.sniff.value <= content && g.sniffPos <= |g.sniff.value|
    requires g.sniff.None? ==> g.sniffPos == 0
    ensures Run(content, files, ops, replies) && files[0] == g && |ops| <= 3
    ensures forall i :: 0 <= i < |ops| ==> !Rejects(files[i], ops[i])
    ensures Astray(content, files[|ops|])
  {
    files, ops, replies := [g], [], [];
    if Astray(content, g) {
    } else if g.sniffPos == 0 {
      var op := ReadHead(content, g);
      files, ops, replies := Extend(content, files, ops, replies, op);
    } else {
      var op1, op2 := Reopen(content, g);
      files, ops, replies := Extend(content, files, ops, replies, op1);
      files, ops, replies := Extend(content, files, ops, replies, op2);
      var op3 := ReadHead(content, files[2]);
      files, ops, replies := Extend(content, files, ops, replies, op3);
    }
  }

  /**
    The condition is exact for the bytes, not only for the invariant.  After a
    rejected seek in any other state, at most four further calls, none of them
    rejected, lead to a read that has gone wrong: it truncates the stream or
    serves it from another offset than the position, and differs from the plain
    file as soon as the two bytes differ.
   */
  lemma UnsafeRejectGoesWrong(content: seq<Byte>, f: File, op: Op)
    returns (files: seq<File>, ops: seq<Op>, replies: seq<Reply>, o: nat)
    requires Inv(content, f) && Rejects(f, op) && !RejectIsSafe(content, f)
    ensures Run(content, files, ops, replies) && 1 <= |ops| <= 4
    ensures files[0] == Step(content, f, op).0
    ensures forall i :: 0 <= i < |ops| ==> !Rejects(files[i], ops[i])
    ensures var n := |ops| - 1; ops[n].Read? && Wrong(content, files[n].pos, replies[n], o)
    ensures var n := |ops| - 1;
            replies[n].data == [] || files[n].pos >= |content| || content[o] != content[files[n].pos] ==>
              !PlainStep(content, Abs(files[n]), ops[n], replies[n], Abs(files[n + 1]))
  {
    StepRefines(content, f, op);
    files, ops, replies := RejectLeadsAstray(content, Step(content, f, op).0);
    hide Astray, Possible, PlainStep, Step, Inv, Rejects, Wrong;
    var last: Op;
    last, o := AstrayGoesWrong(content, files[|ops|]);
    files, ops, replies := Extend(content, files, ops, replies, last);
  }

  /** A run with one more call. */
  lemma Extend(content: seq<Byte>, files: seq<File>, ops: seq<Op>, replies: seq<Reply>, op: Op)
    returns (files': seq<File>, ops': seq<Op>, replies': seq<Reply>)
    requires Run(content, files, ops, replies) && Possible(content, files[|ops|], op)
    ensures Run(content, files', ops', replies')
    ensures files' == files + [Step(content, files[|ops|], op).0] && ops' == ops + [op]
    ensures replies' == replies + [Step(content, files[|ops|], op).1]
  {
    var (f, r) := Step(content, files[|ops|], op);
    files', ops', replies' := files + [f], ops + [op], replies + [r];
  }

  // ------------------------------------------------------- reading to the end

  /**
    A reader that makes progress: below the end an open succeeds and a read yields
    at least one byte, and nowhere does it fail.  At the end this speaks of a
    reader that is open, or of the first open of an empty object; whether another
    open at the end succeeds is left to the library.
   */
  predicate Progresses(content: seq<Byte>, f: File, op: Op) {
    && op.Read? && op.want > 0
    && (!FromSniff(f) && (f.pos < |content| || f.reader.Some? || Captures(f)) ==>
          op.openOk && op.err != Failed && (f.pos < |content| ==> op.got > 0))
  }

  function Joined(replies: seq<Reply>): seq<Byte>
    requires forall i :: 0 <= i < |replies| ==> replies[i].Data?
  {
    if replies == [] then [] else replies[0].data + Joined(replies[1..])
  }

  /** Reading on will come to the end with a reader open. */
  predicate EndInReach(content: seq<Byte>, f: File) {
    f.reader.Some? || Captures(f) || (f.pos < |content| && (f.sniff.Some? ==> |f.sniff.value| < |content|))
  }

  lemma ReadProgresses(content: seq<Byte>, f: File, op: Op)
    requires Inv(content, f) && Possible(content, f, op) && Progresses(content, f, op) && f.pos <= |content|
    ensures var (f', reply) := Step(content, f, op);
            && reply.Data? && f.pos <= f'.pos <= |content| && Inv(content, f')
            && reply.data == content[f.pos..f'.pos]
            && (f.pos < |content| ==> f'.pos > f.pos && (reply.err == NoErr || (reply.err == Eof && f'.pos == |content|)))
            && (f.pos == |content| && (f.reader.Some? || Captures(f)) ==> reply == Data([], Eof))
            && (EndInReach(content, f) ==> EndInReach(content, f'))
  {
    ReadRefines(content, f, op);
  }

  /** Up to the last byte no read of such a loop fails, stalls or reports the end early. */
  lemma {:induction false} DrainStep(content: seq<Byte>, files: seq<File>, ops: seq<Op>, replies: seq<Reply>, i: nat)
    requires Run(content, files, ops, replies) && Inv(content, files[0]) && files[0].pos <= |content|
    requires forall j :: 0 <= j < |ops| ==> Progresses(content, files[j], ops[j])
    requires i <= |ops|
    ensures Inv(content, files[i]) && files[0].pos <= files[i].pos <= |content|
    ensures i <= files[i].pos - files[0].pos || files[i].pos == |content|
    ensures i < |ops| ==> replies[i].Data? && files[i].pos <= files[i + 1].pos <= |content|
    ensures i < |ops| ==> replies[i].data == content[files[i].pos..files[i + 1].pos]
    ensures i < |ops| && files[i].pos < |content| ==>
              replies[i].err == NoErr || (replies[i].err == Eof && files[i + 1].pos == |content|)
    ensures EndInReach(content, files[0]) ==> EndInReach(content, files[i])
    ensures i < |ops| && EndInReach(content, files[0]) && files[i].pos == |content| ==> replies[i] == Data([], Eof)
    decreases i
  {
    hide Inv, Possible, Progresses, Step;
    if i > 0 {
      DrainStep(content, files, ops, replies, i - 1);
      ReadProgresses(content, files[i - 1], ops[i - 1]);
    }
    if i < |ops| {
      assert Step(content, files[i], ops[i]) == (files[i + 1], replies[i]);
      ReadProgresses(content, files[i], ops[i]);
    }
  }

  /**
    Reading in a loop, with any non-empty buffer sizes, from any position k up to
    the size: what comes back is the content from k on, and |content| - k reads
    are enough for all of it.
   */
  lemma {:induction false} DrainTheorem(content: seq<Byte>, files: seq<File>, ops: seq<Op>, replies: seq<Reply>, n: nat)
    requires Run(content, files, ops, replies) && Inv(content, files[0]) && files[0].pos <= |content|
    requires forall j :: 0 <= j < |ops| ==> Progresses(content, files[j], ops[j])
    requires n <= |ops|
    ensures forall i :: 0 <= i < n ==> replies[i].Data?
    ensures files[0].pos <= files[n].pos <= |content|
    ensures Joined(replies[..n]) == content[files[0].pos..files[n].pos]
    ensures n >= |content| - files[0].pos ==> Joined(replies[..n]) == content[files[0].pos..]
    decreases n
  {
    hide Inv, Possible, Progresses, Step;
    DrainStep(content, files, ops, replies, n);
    if n > 0 {
      DrainTheorem(content, files, ops, replies, n - 1);
      DrainStep(content, files, ops, replies, n - 1);
      assert replies[..n] == replies[..n - 1] + [replies[n - 1]];
      JoinedAppend(replies[..n - 1], replies[n - 1]);
    }
  }

  /** A freshly opened file comes to the end with a reader open, and so does one after a seek below the size that keeps a reader or has not captured everything. */
  lemma EndInReachFrom(content: seq<Byte>, f: File, k: nat)
    requires Inv(content, f) && k < |content|
    ensures EndInReach(content, Open())
    ensures var f' := Step(content, f, Seek(k, SeekStart, None, 0)).0;
            && Inv(content, f') && f'.pos == k
            && (EndInReach(content, f') <==> f'.reader.Some? || f'.sniff != Some(content))
  {
    assert f.sniff.Some? && |f.sniff.value| == |content| ==> f.sniff.value == content;
  }

  /**
    Such a loop ends: within |content| - k + 1 reads one reports end of file, all
    reads before it succeed, and what has come by then is the content from k on.
   */
  lemma EofTheorem(content: seq<Byte>, files: seq<File>, ops: seq<Op>, replies: seq<Reply>) returns (n: nat)
    requires Run(content, files, ops, replies) && Inv(content, files[0]) && files[0].pos <= |content|
    requires EndInReach(content, files[0])
    requires forall j :: 0 <= j < |ops| ==> Progresses(content, files[j], ops[j])
    requires |ops| > |content| - files[0].pos
    ensures n <= |content| - files[0].pos
    ensures replies[n].err == Eof && forall j :: 0 <= j < n ==> replies[j].err == NoErr
    ensures forall j :: 0 <= j <= n ==> replies[j].Data?
    ensures Joined(replies[..n + 1]) == content[files[0].pos..]
  {
    hide Inv, Possible, Progresses, Step, EndInReach;
    n := 0;
    while replies[n].err != Eof
      invariant n <= |content| - files[0].pos
      invariant forall j :: 0 <= j < n ==> replies[j].err == NoErr
      decreases |ops| - n
    {
      DrainStep(content, files, ops, replies, n);
      DrainStep(content, files, ops, replies, n + 1);
      n := n + 1;
    }
    DrainStep(content, files, ops, replies, n);
    DrainTheorem(content, files, ops, replies, n + 1);
  }

  lemma {:induction false} JoinedAppend(replies: seq<Reply>, r: Reply)
    requires r.Data? && forall i :: 0 <= i < |replies| ==> replies[i].Data?
    ensures Joined(replies + [r]) == Joined(replies) + r.data
  {
    if replies == [] {
      assert (replies + [r])[1..] == [];
    } else {
      assert (replies + [r])[1..] == replies[1..] + [r];
      JoinedAppend(replies[1..], r);
    }
  }

  // ---------------------------------------------------------- one round trip

  /** A seek before the first read, or one inside the captured head with the reader not yet past it. */
  predicate StaysLocal(f: File, op: Op) {
    match op
    case Read(_, _, _, _) => true
    case Seek(offset, whence, stat, _) =>
      (match Target(f.pos, f.size, offset, whence, stat)
       case None => true
       case Some(target) =>
         || target < 0
         || f.opens == 0
         || (f.sniff.Some? && target < |f.sniff.value| && f.pos <= |f.sniff.value|))
    case Close(_) => f.opens == 0
  }

  /** The point of the sniff buffer: such a run opens at most one range reader. */
  lemma {:induction false} OneReaderTheorem(content: seq<Byte>, files: seq<File>, ops: seq<Op>, replies: seq<Reply>, i: nat)
    requires Run(content, files, ops, replies) && files[0] == Open() && i <= |ops|
    requires forall j :: 0 <= j < |ops| ==> StaysLocal(files[j], ops[j])
    ensures files[i].opens <= 1
    ensures files[i].opens == 0 ==> files[i].reader.None? && files[i].sniff.None?
    ensures files[i].opens == 1 ==> files[i].reader.Some?
    decreases i
  {
    if i > 0 {
      OneReaderTheorem(content, files, ops, replies, i - 1);
      assert Step(content, files[i - 1], ops[i - 1]) == (files[i - 1 + 1], replies[i - 1]);
      assert StaysLocal(files[i - 1], ops[i - 1]);
    }
  }

  /**
    The access pattern of `http.ServeContent`: find the size, go back, sniff, go
    back, read on.
   */
  ghost predicate ServesContent(ops: seq<Op>) {
    && |ops| >= 4
    && ops[0].Seek? && ops[0].whence == SeekEnd && ops[0].offset == 0
    && ops[1].Seek? && ops[1].whence == SeekStart && ops[1].offset == 0
    && ops[2].Read?
    && ops[3].Seek? && ops[3].whence == SeekStart && ops[3].offset == 0
    && forall j :: 4 <= j < |ops| ==> ops[j].Read?
  }

  lemma ServeContentHead(content: seq<Byte>, files: seq<File>, ops: seq<Op>, replies: seq<Reply>)
    requires Run(content, files, ops, replies) && files[0] == Open() && ServesContent(ops)
    ensures files[2].pos == 0 && files[2].reader.None? && files[2].sniff.None? && files[2].opens == 0
    ensures forall j :: 0 <= j < 3 ==> StaysLocal(files[j], ops[j]) && files[j].opens == 0
    ensures if ops[2].openOk && ops[2].got == 0
            then files[3].opens == 1 && files[4].opens == 1 && files[4].reader.None? && files[4].sniff == Some([])
            else StaysLocal(files[3], ops[3])
  {
    assert forall j :: 0 <= j < 4 ==> Step(content, files[j], ops[j]) == (files[j + 1], replies[j]);
    assert files[1].reader.None? && files[1].sniff.None? && files[1].opens == 0;
  }

  /**
    It costs one range reader, with one exception: if the sniffing read opens the
    object and yields no byte, the next successful open is a second one.
   */
  lemma {:induction false} ServeContentTheorem(content: seq<Byte>, files: seq<File>, ops: seq<Op>, replies: seq<Reply>, i: nat)
    requires Run(content, files, ops, replies) && files[0] == Open() && ServesContent(ops) && i <= |ops|
    ensures files[i].opens <= 2
    ensures files[i].opens == 2 <==>
              ops[2].openOk && ops[2].got == 0 && exists j :: 4 <= j < i && ops[j].openOk
    ensures i >= 4 && ops[2].openOk && ops[2].got == 0 ==>
              files[i].sniff == Some([]) && (files[i].opens == 2 <==> files[i].reader.Some?) && files[i].opens >= 1
    decreases i
  {
    ServeContentHead(content, files, ops, replies);
    if !(ops[2].openOk && ops[2].got == 0) {
      assert forall j :: 0 <= j < |ops| ==> StaysLocal(files[j], ops[j]);
      OneReaderTheorem(content, files, ops, replies, i);
    } else if i > 4 {
      ServeContentTheorem(content, files, ops, replies, i - 1);
      assert Step(content, files[i - 1], ops[i - 1]) == (files[i - 1 + 1], replies[i - 1]);
    }
  }
}
