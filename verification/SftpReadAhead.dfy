/**
 Read-ahead (drivers/sshfs/sshfs.c): `sshfs_async_read` next to `sshfs_sync_read`.  The server
 answers in order and is short only at the end of the file, so a request sees the file as it
 is when the request is sent; the file changes through the session's own write and truncate.
 */
module SftpReadAhead {
  import opened Basics
  import opened SftpRead

  class Session {
    var modifver: nat
    var file: seq<Byte>
    const maxRead: nat

    constructor (file: seq<Byte>, maxRead: nat)
      requires maxRead > 0
      ensures this.file == file && this.maxRead == maxRead && modifver == 0
    {
      this.file, this.maxRead, modifver := file, maxRead, 0;
    }

    // `sshfs_write`: the version first, then the request.
    method Write(bytes: seq<Byte>, off: nat)
      modifies this
      ensures modifver == old(modifver) + 1 && file == Written(old(file), bytes, off)
    {
      modifver := modifver + 1;
      file := Written(file, bytes, off);
    }

    // `sshfs_truncate` and `sshfs_ftruncate`.
    method Truncate(size: nat)
      modifies this
      ensures modifver == old(modifver) + 1 && file == Truncated(old(file), size)
    {
      modifver := modifver + 1;
      file := Truncated(file, size);
    }
  }

  // The server's side of a write: a gap is filled with zeros.
  function Written(file: seq<Byte>, bytes: seq<Byte>, off: nat): (r: seq<Byte>)
    ensures |r| == (if bytes == [] then |file| else if off + |bytes| > |file| then off + |bytes| else |file|)
    ensures forall i :: 0 <= i < |r| ==>
              r[i] == if off <= i < off + |bytes| then bytes[i - off] else if i < |file| then file[i] else 0
  {
    if bytes == [] then file
    else
      var f := if off > |file| then file + seq(off - |file|, _ => 0) else file;
      f[..off] + bytes + if off + |bytes| < |f| then f[off + |bytes|..] else []
  }

  function Truncated(file: seq<Byte>, size: nat): (r: seq<Byte>)
    ensures |r| == size && forall i :: 0 <= i < size ==> r[i] == if i < |file| then file[i] else 0
  {
    if size <= |file| then file[..size] else file + seq(size - |file|, _ => 0)
  }

  // What the in-order server answers to a request.
  function Serve(file: seq<Byte>, p: Piece): Reply {
    if Slice(file, p.at, p.size) == [] then Eof else Data(Slice(file, p.at, p.size))
  }

  // A chunk whose remaining bytes are the file's own, from its offset on.
  ghost predicate Current(c: ReadChunk, file: seq<Byte>)
    reads c
  {
    c.Valid() && c.numReqs == 0 && NoneFailed(c.reqs) && (c.error == 0 || c.error == MY_EOF) &&
        c.Bytes() == Slice(file, c.offset, c.size)
  }

  lemma {:induction false} EachFull(reqs: seq<Piece>, file: seq<Byte>)
    requires forall i :: 0 <= i < |reqs| ==> FullPiece(reqs[i], file)
    ensures FullFromFile(reqs, file) && Pending(reqs) == 0 && NoneFailed(reqs)
  {
    if reqs != [] {
      EachFull(reqs[1..], file);
    }
  }

  lemma ServedInFull(p: Piece, file: seq<Byte>)
    ensures FullPiece(Answer(p, Serve(file, p)), file)
  {
  }

  // Sends the requests of a chunk; the server answers each of them.
  method Fetch(ses: Session, size: nat, offset: nat) returns (c: ReadChunk)
    requires ses.maxRead > 0
    ensures fresh(c) && c.offset == offset && c.size == size && Current(c, ses.file)
  {
    ghost var asked;
    c, asked := SendRead(offset, size, ses.maxRead, _ => true);
    hide Tiles, Slice, Pending;
    ghost var n := |c.reqs|;
    for i := 0 to |c.reqs|
      invariant |c.reqs| == n
      invariant fresh(c) && c.Valid() && c.error == 0 && c.offset == offset && c.size == size
      invariant Tiles(c.reqs, offset, size)
      invariant forall j :: 0 <= j < i ==> FullPiece(c.reqs[j], ses.file)
      invariant forall j :: i <= j < |c.reqs| ==> !c.reqs[j].ended
    {
      ServedInFull(c.reqs[i], ses.file);
      c.End(i, Serve(ses.file, c.reqs[i]));
    }
    EachFull(c.reqs, ses.file);
    NonePending(c.reqs);
    FullServerOffersAll(c.reqs, offset, size, ses.file);
  }

  // Taking the first bytes of a slice.
  lemma SliceTake(file: seq<Byte>, at: nat, size: nat, n: nat)
    requires n == |Slice(file, at, size)| || n <= size
    ensures n <= size ==>
              Slice(file, at, n) ==
              if n <= |Slice(file, at, size)| then Slice(file, at, size)[..n] else Slice(file, at, size)
    ensures n <= |Slice(file, at, size)| ==> Slice(file, at + n, size - n) == Slice(file, at, size)[n..]
  {
  }

  /** `wait_chunk` on a chunk that is current delivers the file's bytes and leaves it current. */
  method WaitCurrent(c: ReadChunk, want: nat, ghost file: seq<Byte>) returns (res: int, buf: seq<Byte>)
    requires Current(c, file) && want <= c.size
    modifies c
    ensures Current(c, file) && c.modifver == old(c.modifver)
    ensures res == |buf| && buf == Slice(file, old(c.offset), want)
  {
    hide Slice, Offered, Pending, EndedSound, NoneFailed;
    ghost var (at, size) := (c.offset, c.size);
    res, buf := c.Wait(want);
    SliceTake(file, at, size, want);
    SliceTake(file, at, size, |buf|);
  }

  class SshFile {
    const ses: Session
    var readahead: ReadChunk?
    var nextPos: nat
    var isSeq: bool
    var modifver: nat
    var fetched: nat            // how many chunks have been sent for

    // A chunk read ahead under the present version is current.
    ghost predicate Valid()
      reads this, ses, readahead
    {
      ses.maxRead > 0 &&
      (readahead != null ==>
        readahead.modifver <= ses.modifver &&
        (readahead.modifver == ses.modifver ==> Current(readahead, ses.file)))
    }

    // `sshfs_open_common`.
    constructor (ses: Session)
      requires ses.maxRead > 0
      ensures Valid() && this.ses == ses && readahead == null
      ensures nextPos == 0 && !isSeq && modifver == ses.modifver && fetched == 0
    {
      this.ses, readahead, nextPos, isSeq, fetched := ses, null, 0, false, 0;
      modifver := ses.modifver;
    }

    // What has been read ahead begins where this read does, and nothing has changed since.
    predicate Usable(offset: nat)
      reads this, ses, readahead
    {
      readahead != null && readahead.offset == offset && readahead.modifver == ses.modifver
    }

    // This read uses up what has been read ahead, if anything, and follows one that followed another.
    predicate GoesAhead(size: nat, offset: nat)
      reads this, ses, readahead
    {
      isSeq && (Usable(offset) ==> readahead.size <= size)
    }

    // What a read must still be sent for.
    predicate Lacks(size: nat, offset: nat)
      reads this, ses, readahead
    {
      !Usable(offset) || readahead.size < size
    }

    // How a read leaves the handle.
    twostate predicate Advanced(size: nat, offset: nat)
      reads this, ses, readahead
    {
      && isSeq == (old(nextPos) == offset && old(modifver) == ses.modifver)
      && nextPos == offset + size && modifver == ses.modifver
      && fetched == old(fetched) + (if old(Lacks(size, offset)) then 1 else 0)
                    + (if old(GoesAhead(size, offset)) then 1 else 0)
      && if old(GoesAhead(size, offset)) then Usable(offset + size) && readahead.size == size
         else readahead == old(readahead)
    }

    /** `sshfs_sync_read`. */
    method SyncRead(size: nat, offset: nat) returns (res: int, buf: seq<Byte>)
      requires Valid()
      ensures res == |buf| && buf == Slice(ses.file, offset, size)
    {
      var c := Fetch(ses, size, offset);
      res, buf := WaitCurrent(c, size, ses.file);
    }

    // `submit_read`.
    method Submit(size: nat, offset: nat) returns (c: ReadChunk)
      requires ses.maxRead > 0
      modifies `fetched
      ensures fresh(c) && Current(c, ses.file) && c.offset == offset && c.size == size && c.modifver == ses.modifver
      ensures fetched == old(fetched) + 1
    {
      hide Current;
      c := Fetch(ses, size, offset);
      SetVersion(c, ses.modifver, ses.file);
      fetched := fetched + 1;
    }

    // The first half of `sshfs_async_read`: finds the chunks this read is served from, `prev`
    // for the first `size - left` bytes and `chunk` for the rest, and reads ahead.
    method Prepare(size: nat, offset: nat) returns (prev: ReadChunk?, chunk: ReadChunk, left: nat)
      requires Valid()
      modifies this
      ensures Valid() && (readahead == old(readahead) || fresh(readahead))
      ensures chunk == old(readahead) || fresh(chunk)
      ensures left <= size && Current(chunk, ses.file) && chunk.offset == offset + (size - left) && left <= chunk.size
      ensures prev == null ==> left == size
      ensures prev != null ==> prev == old(readahead) && prev != chunk && Current(prev, ses.file) &&
                               prev.offset == offset && prev.size == size - left
      ensures Advanced(size, offset) && (old(GoesAhead(size, offset)) ==> readahead != prev && readahead != chunk)
    {
      hide Current;
      prev, left := null, size;
      var at := offset;
      var wasSeq := isSeq;
      isSeq := nextPos == offset && modifver == ses.modifver;
      nextPos := offset + size;
      modifver := ses.modifver;
      // search_read_chunk
      var found: ReadChunk? := null;
      if readahead != null && readahead.offset == offset && readahead.modifver == ses.modifver {
        found := readahead;
      }
      if found != null && found.size < size {
        prev := found;
        left, at := size - found.size, offset + found.size;
        found := null;
      }
      if found == null {
        chunk := Submit(left, at);
      } else {
        chunk := found;
      }
      if wasSeq && chunk.size <= left {
        readahead := Submit(size, at + left);
      }
    }

    /** `sshfs_async_read`: the same bytes and the same count as `sshfs_sync_read`, whatever has
        been read ahead, consumed in part, or found to be at the end of the file before.  It sends for
        what has not been read ahead, and for as much again behind it if it is in sequence. */
    method AsyncRead(size: nat, offset: nat) returns (res: int, buf: seq<Byte>)
      requires Valid()
      modifies this, readahead
      ensures Valid() && (readahead == old(readahead) || fresh(readahead))
      ensures res == |buf| && buf == Slice(ses.file, offset, size)
      ensures Advanced(size, offset)
    {
      hide Current, Slice;
      ghost var file := ses.file;
      buf := [];
      var prev, chunk, left := Prepare(size, offset);
      SliceSplit(file, offset, size - left, left);
      if prev != null {
        var prevSize := prev.size;
        res, buf := WaitCurrent(prev, prevSize, file);
        if res < prevSize {
          return;
        }
      }
      var b;
      res, b := WaitCurrent(chunk, left, file);
      buf := buf + b;
      res := |buf|;
    }
  }

  method SetVersion(c: ReadChunk, modifver: nat, ghost file: seq<Byte>)
    requires Current(c, file)
    modifies c`modifver
    ensures Current(c, file) && c.modifver == modifver
  {
    c.modifver := modifver;
  }

  // After `n` reads of a file from its start: from the second on, the next one has been read ahead.
  ghost predicate InSequence(f: SshFile, n: nat, pos: nat, size: nat)
    reads f, f.ses, f.readahead
  {
    && f.nextPos == pos && f.modifver == f.ses.modifver
    && (f.isSeq <==> n > 0) && (n < 2 ==> f.readahead == null)
    && (n >= 2 ==> f.Usable(pos) && f.readahead.size == size)
    && f.fetched == n + if n >= 2 then 1 else 0
  }

  /** A file read from its start, `size` bytes at a time: the reads return it piece by piece, and from the
      third on none of them waits for a request of its own: it finds what the one before has sent for, and
      sends for what the next one wants. */
  method ReadThrough(ses: Session, size: nat, count: nat) returns (f: SshFile, bytes: seq<Byte>)
    requires ses.maxRead > 0
    ensures bytes == Slice(ses.file, 0, count * size)
    ensures fresh(f) && f.ses == ses && InSequence(f, count, count * size, size)
  {
    hide Slice, Current;
    f := new SshFile(ses);
    bytes := [];
    var pos := 0;
    SliceNone(ses.file);
    for n := 0 to count
      invariant fresh(f) && f.ses == ses && f.Valid() && (f.readahead == null || fresh(f.readahead))
      invariant pos == n * size && bytes == Slice(ses.file, 0, pos) && InSequence(f, n, pos, size)
    {
      var res, buf := f.AsyncRead(size, pos);
      SliceSplit(ses.file, 0, pos, size);
      bytes, pos := bytes + buf, pos + size;
    }
  }

  lemma SliceNone(file: seq<Byte>)
    ensures Slice(file, 0, 0) == []
  {
  }

  // ---------------------------------------------------------------------------------
  // Whole histories
  // ---------------------------------------------------------------------------------

  datatype FileOp = DoRead(size: nat, offset: nat) | DoWrite(bytes: seq<Byte>, off: nat) | DoTruncate(size: nat)

  function FileAfter(file: seq<Byte>, op: FileOp): seq<Byte> {
    match op
    case DoRead(_, _) => file
    case DoWrite(bytes, off) => Written(file, bytes, off)
    case DoTruncate(size) => Truncated(file, size)
  }

  function SyncResult(file: seq<Byte>, op: FileOp): seq<seq<Byte>> {
    match op
    case DoRead(size, offset) => [Slice(file, offset, size)]
    case _ => []
  }

  // What the reads of a history return if each is sent to the server by itself.
  function SyncResults(file: seq<Byte>, ops: seq<FileOp>): seq<seq<Byte>>
    decreases |ops|
  {
    if ops == [] then [] else SyncResult(file, ops[0]) + SyncResults(FileAfter(file, ops[0]), ops[1..])
  }

  method RunOne(f: SshFile, op: FileOp) returns (out: seq<seq<Byte>>)
    requires f.Valid()
    modifies f, f.ses, f.readahead
    ensures f.Valid() && (f.readahead == old(f.readahead) || fresh(f.readahead))
    ensures f.ses.file == FileAfter(old(f.ses.file), op)
    ensures out == SyncResult(old(f.ses.file), op)
  {
    hide Current, Slice, Written, Truncated;
    match op {
      case DoRead(size, offset) =>
        var res, buf := f.AsyncRead(size, offset);
        out := [buf];
      case DoWrite(bytes, off) =>
        f.ses.Write(bytes, off);
        out := [];
      case DoTruncate(size) =>
        f.ses.Truncate(size);
        out := [];
    }
  }

  /** Any history of reads, writes and truncates on one handle, the reads served by
      `sshfs_async_read`: the results are those of synchronous reads, one for one. */
  method RunHistory(f: SshFile, ops: seq<FileOp>) returns (results: seq<seq<Byte>>)
    requires f.Valid()
    modifies f, f.ses, f.readahead
    ensures f.Valid()
    ensures results == SyncResults(old(f.ses.file), ops)
  {
    hide FileAfter, SyncResult;
    results := [];
    var rest := ops;
    while rest != []
      invariant f.Valid() && (f.readahead == old(f.readahead) || fresh(f.readahead))
      invariant results + SyncResults(f.ses.file, rest) == SyncResults(old(f.ses.file), ops)
      decreases |rest|
    {
      ghost var file := f.ses.file;
      var out := RunOne(f, rest[0]);
      Assoc(results, out, SyncResults(f.ses.file, rest[1..]));
      results, rest := results + out, rest[1..];
    }
  }
}
