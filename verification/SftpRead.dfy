/**
 SFTP reads (drivers/sshfs/sshfs.c): one read is split into many outstanding requests whose
 replies arrive in any order; chunks read ahead are kept, and consumed piecemeal, as long as
 the session's modification version does not change.
 */
module SftpRead {
  import opened Basics

  const EIO := 5
  const MY_EOF := 1

  // What ends one request: an error of the transport, a status reply, data, anything else.
  datatype Reply = Failed(errno: nat) | Eof | Status(errno: nat) | Data(bytes: seq<Byte>) | Other

  // A `read_req`: where it reads, how much it wants, and, once it has ended, its result.
  datatype Piece = Piece(at: nat, size: nat, ended: bool, res: int, data: seq<Byte>)

  function Unanswered(at: nat, size: nat): Piece { Piece(at, size, false, 0, []) }

  /** What a reply makes of a request for `size` bytes: the end of the file and empty data are zero, data
      that fits is its length, and everything else is the error it carries, or EIO. */
  predicate Yields(r: Reply, size: nat, res: int, data: seq<Byte>) {
    && (res == 0 <==> r.Eof? || r == Data([]))
    && (res > 0 <==> r.Data? && 0 < |r.bytes| <= size)
    && (res > 0 ==> res == |data| && data == r.bytes)
    && (r.Failed? || r.Status? ==> res == -(r.errno + 1))
    && (r.Other? || (r.Data? && |r.bytes| > size) ==> res == -EIO)
  }

  // `sshfs_read_end`.
  function Answer(p: Piece, r: Reply): (q: Piece)
    ensures q.ended && q.at == p.at && q.size == p.size
    ensures q.res <= p.size && (q.res > 0 ==> r.Data? && q.data == r.bytes && |q.data| == q.res)
  {
    match r
    case Failed(e) => p.(ended := true, res := -(e + 1), data := [])
    case Eof => p.(ended := true, res := 0, data := [])
    case Status(e) => p.(ended := true, res := -(e + 1), data := [])
    case Data(b) =>
      if |b| > p.size then p.(ended := true, res := -EIO, data := [])
      else p.(ended := true, res := |b|, data := b)
    case Other => p.(ended := true, res := -EIO, data := [])
  }

  // ---------------------------------------------------------------------------------
  // What a list of ended requests has to offer
  // ---------------------------------------------------------------------------------

  predicate Sound(p: Piece) {
    p.ended && p.res <= p.size && (p.res > 0 ==> |p.data| == p.res)
  }

  predicate AllSound(reqs: seq<Piece>) {
    reqs == [] || (Sound(reqs[0]) && AllSound(reqs[1..]))
  }

  predicate NoneFailed(reqs: seq<Piece>) {
    reqs == [] || (reqs[0].res >= 0 && NoneFailed(reqs[1..]))
  }

  // Those that have ended are sound.
  predicate EndedSound(reqs: seq<Piece>) {
    reqs == [] || ((reqs[0].ended ==> Sound(reqs[0])) && EndedSound(reqs[1..]))
  }

  // A piece, and what the later ones offer, which counts only if this one is complete.
  function OfferedBy(p: Piece, later: seq<Byte>): seq<Byte> {
    if p.res <= 0 then [] else if p.res < p.size then p.data else p.data + later
  }

  // The bytes up to the first piece that failed or came short.
  function Offered(reqs: seq<Piece>): seq<Byte> {
    if reqs == [] then [] else OfferedBy(reqs[0], Offered(reqs[1..]))
  }

  // The requests cover the range from `at` on, one after the other.
  predicate Tiles(reqs: seq<Piece>, at: nat, size: nat) {
    if reqs == [] then size == 0
    else reqs[0].at == at && 0 < reqs[0].size <= size && Tiles(reqs[1..], at + reqs[0].size, size - reqs[0].size)
  }

  function Pending(reqs: seq<Piece>): nat {
    if reqs == [] then 0 else (if reqs[0].ended then 0 else 1) + Pending(reqs[1..])
  }

  // `size` bytes of the file from `at` on, fewer at its end.
  function Slice(file: seq<Byte>, at: nat, size: nat): (r: seq<Byte>)
    ensures |r| == if at + size <= |file| then size else if at <= |file| then |file| - at else 0
  {
    if at >= |file| then [] else if at + size > |file| then file[at..] else file[at..at + size]
  }

  /** Byte for byte. */
  lemma SliceAt(file: seq<Byte>, at: nat, size: nat, i: nat)
    requires i < |Slice(file, at, size)|
    ensures at + i < |file| && Slice(file, at, size)[i] == file[at + i]
  {
  }

  // A server may answer with any prefix of the range, or not with data at all.
  predicate FromFile(p: Piece, file: seq<Byte>) {
    p.res > 0 ==> p.data <= Slice(file, p.at, p.size)
  }

  lemma SliceSplit(file: seq<Byte>, at: nat, n: nat, m: nat)
    ensures Slice(file, at, n + m) == Slice(file, at, n) + Slice(file, at + n, m)
    ensures |Slice(file, at, n)| < n ==> Slice(file, at + n, m) == []
  {
  }

  // Prefixes of a sum: of its first part, or beyond the whole of it.
  lemma PrefixOfSum<T>(d: seq<T>, a: seq<T>, o: seq<T>, b: seq<T>)
    requires d <= a
    ensures d <= a + b
    ensures |d| == |a| && o <= b ==> d + o <= a + b
  {
    if |d| == |a| && o <= b {
      assert d == a;
      assert a + b == (a + o) + b[|o|..];
    }
  }

  predicate AllFromFile(reqs: seq<Piece>, file: seq<Byte>) {
    reqs == [] || (FromFile(reqs[0], file) && AllFromFile(reqs[1..], file))
  }

  // A server that is short only at the end of the file.
  predicate FullPiece(p: Piece, file: seq<Byte>) {
    p.ended && p.res == |Slice(file, p.at, p.size)| && (p.res > 0 ==> p.data == Slice(file, p.at, p.size))
  }

  predicate FullFromFile(reqs: seq<Piece>, file: seq<Byte>) {
    reqs == [] || (FullPiece(reqs[0], file) && FullFromFile(reqs[1..], file))
  }

  /** Whatever prefix of each range the server returned, and whichever pieces failed, what is
      offered is the file's own bytes, from the offset asked for, without a gap. */
  lemma {:induction false} OfferedIsTheFile(reqs: seq<Piece>, at: nat, size: nat, file: seq<Byte>)
    requires AllSound(reqs) && Tiles(reqs, at, size)
    requires AllFromFile(reqs, file)
    ensures Offered(reqs) <= Slice(file, at, size)
  {
    hide Slice;
    if reqs != [] {
      var p := reqs[0];
      var (o, first, later) := (Offered(reqs[1..]), Slice(file, at, p.size), Slice(file, at + p.size, size - p.size));
      OfferedIsTheFile(reqs[1..], at + p.size, size - p.size, file);
      SliceSplit(file, at, p.size, size - p.size);
      FirstPiece(p, o, first, later);
    }
  }

  lemma FirstPiece(p: Piece, o: seq<Byte>, first: seq<Byte>, later: seq<Byte>)
    requires Sound(p) && |first| <= p.size && o <= later && (p.res > 0 ==> p.data <= first)
    ensures OfferedBy(p, o) <= first + later
  {
    if p.res > 0 {
      PrefixOfSum(p.data, first, o, later);
    }
  }

  /** With a server that is short only at the end of the file, everything is offered. */
  lemma {:induction false} FullServerOffersAll(reqs: seq<Piece>, at: nat, size: nat, file: seq<Byte>)
    requires AllSound(reqs) && Tiles(reqs, at, size)
    requires FullFromFile(reqs, file)
    ensures Offered(reqs) == Slice(file, at, size)
  {
    hide Slice;
    if reqs != [] {
      var p := reqs[0];
      var later := Slice(file, at + p.size, size - p.size);
      FullServerOffersAll(reqs[1..], at + p.size, size - p.size, file);
      SliceSplit(file, at, p.size, size - p.size);
      assert p.res < p.size ==> Slice(file, at, p.size) + later == Slice(file, at, p.size);
    }
  }

  lemma {:induction false} PendingAppend(reqs: seq<Piece>, p: Piece)
    ensures Pending(reqs + [p]) == Pending(reqs) + if p.ended then 0 else 1
    ensures EndedSound(reqs) && (p.ended ==> Sound(p)) ==> EndedSound(reqs + [p])
  {
    if reqs != [] {
      assert (reqs + [p])[1..] == reqs[1..] + [p];
      PendingAppend(reqs[1..], p);
    }
  }

  lemma {:induction false} PendingUpdate(reqs: seq<Piece>, i: nat, p: Piece)
    requires i < |reqs| && p.ended
    ensures EndedSound(reqs) && Sound(p) ==> EndedSound(reqs[i := p])
    ensures Pending(reqs[i := p]) == Pending(reqs) - if reqs[i].ended then 0 else 1
  {
    if i == 0 {
      assert reqs[0 := p][1..] == reqs[1..];
    } else {
      assert reqs[i := p][1..] == reqs[1..][i - 1 := p];
      PendingUpdate(reqs[1..], i - 1, p);
    }
  }

  lemma {:induction false} NonePending(reqs: seq<Piece>)
    requires Pending(reqs) == 0
    ensures forall i :: 0 <= i < |reqs| ==> reqs[i].ended
    ensures EndedSound(reqs) ==> AllSound(reqs)
  {
    if reqs != [] {
      NonePending(reqs[1..]);
    }
  }

  lemma {:induction false} SoundHasEnded(reqs: seq<Piece>)
    requires AllSound(reqs)
    ensures EndedSound(reqs) && Pending(reqs) == 0
  {
    if reqs != [] {
      SoundHasEnded(reqs[1..]);
    }
  }

  lemma {:induction false} TilesAppend(reqs: seq<Piece>, at: nat, size: nat, p: Piece)
    requires Tiles(reqs, at, size) && p.at == at + size && p.size > 0
    ensures Tiles(reqs + [p], at, size + p.size)
  {
    if reqs != [] {
      assert (reqs + [p])[1..] == reqs[1..] + [p];
      TilesAppend(reqs[1..], at + reqs[0].size, size - reqs[0].size, p);
    } else {
      assert [p][1..] == [];
    }
  }

  lemma {:induction false} TilesUpdate(reqs: seq<Piece>, at: nat, size: nat, i: nat, p: Piece)
    requires Tiles(reqs, at, size) && i < |reqs| && p.at == reqs[i].at && p.size == reqs[i].size
    ensures Tiles(reqs[i := p], at, size)
  {
    if i == 0 {
      assert reqs[0 := p][1..] == reqs[1..];
    } else {
      assert reqs[i := p][1..] == reqs[1..][i - 1 := p];
      TilesUpdate(reqs[1..], at + reqs[0].size, size - reqs[0].size, i - 1, p);
    }
  }

  // ---------------------------------------------------------------------------------
  // A chunk
  // ---------------------------------------------------------------------------------

  class ReadChunk {
    var offset: nat
    var size: nat
    var modifver: nat
    var reqs: seq<Piece>       // oldest first: the order they are consumed in
    var numReqs: nat
    var error: int

    // Every request that has ended is sound; `num_reqs` counts those that have not.
    ghost predicate Valid()
      reads this
    {
      && numReqs == Pending(reqs)
      && EndedSound(reqs)
      && (error <= 0 || error == MY_EOF)
    }

    // What `wait_chunk` can still deliver.
    ghost function Bytes(): seq<Byte>
      requires Valid() && numReqs == 0
      reads this
    {
      NonePending(reqs);
      if error != 0 then [] else Offered(reqs)
    }

    constructor (offset: nat, size: nat)
      ensures Valid() && this.offset == offset && this.size == size && reqs == [] && numReqs == 0 && error == 0 &&
                modifver == 0
    {
      this.offset, this.size, modifver, reqs, numReqs, error := offset, size, 0, [], 0, 0;
    }

    // `sshfs_send_read` queues one more request, behind the `asked` bytes asked for so far, and
    // `sshfs_read_begin` counts it.
    method Begin(asked: nat, bsize: nat)
      requires Valid() && bsize > 0 && Tiles(reqs, offset, asked)
      modifies `reqs, `numReqs
      ensures Valid() && Tiles(reqs, offset, asked + bsize)
      ensures reqs == old(reqs) + [Unanswered(offset + asked, bsize)] && numReqs == old(numReqs) + 1
    {
      var p := Unanswered(offset + asked, bsize);
      PendingAppend(reqs, p);
      TilesAppend(reqs, offset, asked, p);
      reqs, numReqs := reqs + [p], numReqs + 1;
    }

    // A reply, or the failure, of any request that is still outstanding.
    method End(i: nat, r: Reply)
      requires Valid() && i < |reqs| && !reqs[i].ended
      modifies this
      ensures Valid() && reqs == old(reqs)[i := Answer(old(reqs)[i], r)] && numReqs == old(numReqs) - 1
      ensures reqs[i].ended && reqs[i].at == old(reqs)[i].at && reqs[i].size == old(reqs)[i].size
      ensures Yields(r, reqs[i].size, reqs[i].res, reqs[i].data)
      ensures offset == old(offset) && size == old(size) && error == old(error) && modifver == old(modifver)
      ensures forall at, n :: old(Tiles(reqs, at, n)) ==> Tiles(reqs, at, n)
    {
      var p := Answer(reqs[i], r);
      PendingUpdate(reqs, i, p);
      forall at, n | Tiles(reqs, at, n)
        ensures Tiles(reqs[i := p], at, n)
      {
        TilesUpdate(reqs, at, n, i, p);
      }
      reqs, numReqs := reqs[i := p], numReqs - 1;
    }

    // The loop of `wait_chunk`: hands out pieces until `want` bytes are delivered.
    method Consume(want: nat) returns (buf: seq<Byte>, ghost rest: seq<Byte>)
      requires Valid() && numReqs == 0 && AllSound(reqs) && error == 0
      modifies `reqs, `error
      ensures Valid() && AllSound(reqs)
      ensures old(Offered(reqs)) == buf + rest && (if error != 0 then [] else Offered(reqs)) == rest
      ensures |buf| <= want && (|buf| < want ==> rest == [])
      ensures NoneFailed(old(reqs)) ==> NoneFailed(reqs) && error >= 0
      ensures want > 0 && old(reqs) != [] && old(reqs)[0].res < 0 ==> error == old(reqs)[0].res
      ensures want > 0 && old(reqs) != [] && old(reqs)[0].res == 0 ==> error == MY_EOF
    {
      buf, rest := [], Offered(reqs);
      var left := want;
      while reqs != [] && left > 0
        invariant numReqs == 0 && AllSound(reqs) && error == 0
        invariant |buf| + left == want && left >= 0
        invariant old(Offered(reqs)) == buf + rest && rest == Offered(reqs)
        invariant NoneFailed(old(reqs)) ==> NoneFailed(reqs)
        invariant old(reqs) != [] && old(reqs)[0].res <= 0 ==> reqs == old(reqs) && left == want
        decreases |reqs|
      {
        var p, tail := reqs[0], reqs[1..];
        assert Sound(p) && AllSound(tail);
        if p.res <= 0 {
          error := if p.res < 0 then p.res else MY_EOF;
          break;
        }
        if left < p.res {
          // the piece stays, shorter
          var q := p.(res := p.res - left, size := p.size - left, data := p.data[left..]);
          Shortened(p, tail, left);
          Assoc(buf, p.data[..left], Offered([q] + tail));
          buf, rest, reqs, left := buf + p.data[..left], Offered([q] + tail), [q] + tail, 0;
          break;
        }
        if p.res < p.size {
          error := MY_EOF;
          buf, rest := buf + p.data, [];
          break;
        }
        Assoc(buf, p.data, Offered(tail));
        buf, rest, reqs, left := buf + p.data, Offered(tail), tail, left - p.res;
      }
      SoundHasEnded(reqs);
    }

    /** `wait_chunk`, once `num_reqs` is zero: delivers the next `want` bytes on offer, fewer
        only if there are no more, and leaves the rest for later.  It returns an error exactly if
        one was recorded before; a failure it comes upon is only recorded. */
    method Wait(want: nat) returns (res: int, buf: seq<Byte>)
      requires Valid() && numReqs == 0
      modifies this
      ensures Valid() && numReqs == 0 && modifver == old(modifver)
      ensures res < 0 <==> old(error) < 0
      ensures res < 0 ==> res == old(error)
      ensures res >= 0 ==> res == |buf| == (if want < |old(Bytes())| then want else |old(Bytes())|)
      ensures old(error) == 0 && want > 0 && old(reqs) != [] && old(reqs)[0].res < 0 ==> error == old(reqs)[0].res
      ensures old(error) == 0 && want > 0 && old(reqs) != [] && old(reqs)[0].res == 0 ==> error == MY_EOF
      ensures old(Bytes()) == buf + Bytes()
      ensures offset == old(offset) + |buf| && size == (if |buf| <= old(size) then old(size) - |buf| else 0)
      ensures NoneFailed(old(reqs)) && old(error) >= 0 ==> NoneFailed(reqs) && error >= 0
    {
      res, buf := 0, [];
      NonePending(reqs);
      if error != 0 {
        if error != MY_EOF {
          res := error;
        }
        return;
      }
      ghost var rest;
      buf, rest := Consume(want);
      res := |buf|;
      offset := offset + res;
      size := if res <= size then size - res else 0;
    }
  }

  // Taking the first bytes off a piece takes them off what is offered.
  lemma Shortened(p: Piece, tail: seq<Piece>, n: nat)
    requires Sound(p) && AllSound(tail) && n < p.res
    ensures var q := p.(res := p.res - n, size := p.size - n, data := p.data[n..]);
            AllSound([q] + tail) && Offered([p] + tail) == p.data[..n] + Offered([q] + tail)
  {
    var q := p.(res := p.res - n, size := p.size - n, data := p.data[n..]);
    assert ([p] + tail)[1..] == tail && ([q] + tail)[1..] == tail;
    assert p.data == p.data[..n] + p.data[n..];
    Assoc(p.data[..n], p.data[n..], Offered(tail));
  }

  // ---------------------------------------------------------------------------------
  // One read, any order of replies
  // ---------------------------------------------------------------------------------

  // The replies that came, as (request, reply) pairs in their order of arrival.
  function AfterReplies(reqs: seq<Piece>, arrivals: seq<(nat, Reply)>): seq<Piece> {
    if arrivals == [] then reqs
    else
      var rs := AfterReplies(reqs, arrivals[..|arrivals| - 1]);
      var (i, r) := arrivals[|arrivals| - 1];
      if i < |rs| && !rs[i].ended then rs[i := Answer(rs[i], r)] else rs
  }

  // The first reply to a request; any later one finds it ended.
  function ReplyTo(arrivals: seq<(nat, Reply)>, i: nat): Option<Reply> {
    if arrivals == [] then None
    else if arrivals[0].0 == i then Some(arrivals[0].1)
    else ReplyTo(arrivals[1..], i)
  }

  lemma {:induction false} ReplyToSnoc(arrivals: seq<(nat, Reply)>, last: (nat, Reply), i: nat)
    ensures ReplyTo(arrivals + [last], i) ==
            if ReplyTo(arrivals, i).Some? then ReplyTo(arrivals, i) else if last.0 == i then Some(last.1) else None
  {
    if arrivals == [] {
      assert (arrivals + [last])[1..] == [];
    } else {
      assert (arrivals + [last])[1..] == arrivals[1..] + [last];
      ReplyToSnoc(arrivals[1..], last, i);
    }
  }

  /** Each request that was sent has ended exactly if it has been replied to, and then as its first reply
      says. */
  lemma {:induction false} EndsByReply(reqs: seq<Piece>, arrivals: seq<(nat, Reply)>, i: nat)
    requires i < |reqs| && !reqs[i].ended
    ensures var (got, r) := (AfterReplies(reqs, arrivals), ReplyTo(arrivals, i));
            && |got| == |reqs| && got[i].at == reqs[i].at && got[i].size == reqs[i].size
            && (got[i].ended <==> r.Some?)
            && (r.Some? ==> Yields(r.value, got[i].size, got[i].res, got[i].data))
  {
    if arrivals != [] {
      var (before, last) := (arrivals[..|arrivals| - 1], arrivals[|arrivals| - 1]);
      assert arrivals == before + [last];
      EndsByReply(reqs, before, i);
      ReplyToSnoc(before, last, i);
      var rs := AfterReplies(reqs, before);
      var (j, r) := last;
      assert AfterReplies(reqs, arrivals) == if j < |rs| && !rs[j].ended then rs[j := Answer(rs[j], r)] else rs;
    }
  }

  /** A read of one chunk, driven by any sequence of replies, the transport taking or refusing each
      request: it is let through only when every request has ended, and then returns the bytes up
      to the first short or failed piece, whatever the order the replies came in.  It never
      returns an error; it returns nothing exactly if the first piece failed or found the end. */
  method SplitRead(offset: nat, size: nat, maxRead: nat, accepts: nat -> bool, arrivals: seq<(nat, Reply)>)
      returns (chunk: ReadChunk, blocked: bool, res: int, buf: seq<Byte>, ghost sent: seq<Piece>, ghost asked: nat)
    requires maxRead > 0
    ensures fresh(chunk) && chunk.Valid()
    ensures Tiles(sent, offset, asked) && Sent(sent, asked, size, maxRead, accepts)
    ensures var got := AfterReplies(sent, arrivals);
            Tiles(got, offset, asked) &&
            (blocked <==> exists i :: 0 <= i < |got| && !got[i].ended) &&
            (!blocked ==> AllSound(got) && res == |buf| && buf == Offered(got))
    ensures !blocked && size > 0 ==>
              var got := AfterReplies(sent, arrivals);
              got != [] && res >= 0 && (res == 0 <==> got[0].res <= 0) && (got[0].res < 0 ==> chunk.error == got[0].res)
    ensures !blocked ==> chunk.numReqs == 0
    ensures !blocked && size > 0 && accepts(0) ==>
              var r := ReplyTo(arrivals, 0);
              && r.Some?
              && (res == 0 <==> !(r.value.Data? && 0 < |r.value.bytes| <= sent[0].size))
              && (r.value.Eof? || r.value == Data([]) ==> chunk.error == MY_EOF)
              && (res == 0 ==> Yields(r.value, sent[0].size, if chunk.error == MY_EOF then 0 else chunk.error, []))
  {
    chunk, asked := SendRead(offset, size, maxRead, accepts);
    sent := chunk.reqs;
    for k := 0 to |arrivals|
      invariant fresh(chunk) && chunk.Valid() && chunk.error == 0 && chunk.offset == offset && chunk.size == size
      invariant Tiles(chunk.reqs, offset, asked)
      invariant chunk.reqs == AfterReplies(sent, arrivals[..k]) && |chunk.reqs| == |sent|
    {
      assert arrivals[..k + 1][..k] == arrivals[..k];
      var (i, r) := arrivals[k];
      if i < |chunk.reqs| && !chunk.reqs[i].ended {
        chunk.End(i, r);
      }
    }
    assert arrivals[..|arrivals|] == arrivals;
    blocked := chunk.numReqs > 0;
    if blocked {
      SomePending(chunk.reqs);
      return chunk, blocked, 0, [], sent, asked;
    }
    NonePending(chunk.reqs);
    if size > 0 && accepts(0) {
      EndsByReply(sent, arrivals, 0);
    }
    OfferedFits(chunk.reqs, offset, asked);
    res, buf := chunk.Wait(size);
  }

  /** A status error of the server is told apart from the end of the file only by the second read. */
  method StatusReadTwice(errno: nat) returns (first: int, second: int)
    ensures first == 0 && second == -(errno + 1)
  {
    var arrivals := [(0, Status(errno))];
    var chunk, blocked, buf;
    ghost var sent, asked;
    chunk, blocked, first, buf, sent, asked := SplitRead(0, 10, 100, _ => true, arrivals);
    OneSent(sent, asked, arrivals);
    second, buf := chunk.Wait(10);
  }

  /** An error reads as the end of the file: the only request of a read fails, and the read returns
      0.  The error comes out when the same chunk is asked again. */
  method FailedReadReturnsZero() returns (first: int, second: int)
    ensures first == 0 && second == -EIO
  {
    var arrivals := [(0, Failed(EIO - 1))];
    var chunk, blocked, buf;
    ghost var sent, asked;
    chunk, blocked, first, buf, sent, asked := SplitRead(0, 10, 100, _ => true, arrivals);
    OneSent(sent, asked, arrivals);
    second, buf := chunk.Wait(10);
  }

  // One request was sent, and it has been replied to.
  lemma OneSent(sent: seq<Piece>, asked: nat, arrivals: seq<(nat, Reply)>)
    requires Tiles(sent, 0, asked) && Sent(sent, asked, 10, 100, _ => true) && |arrivals| == 1 && arrivals[0].0 == 0
    ensures var got := AfterReplies(sent, arrivals);
            |got| == 1 && got[0].ended && Yields(arrivals[0].1, 10, got[0].res, got[0].data)
  {
    assert sent[0].size == 10;
    assert Tiles(sent[1..], 10, 0);
    EndsByReply(sent, arrivals, 0);
  }

  lemma {:induction false} SomePending(reqs: seq<Piece>)
    requires Pending(reqs) > 0
    ensures exists i :: 0 <= i < |reqs| && !reqs[i].ended
  {
    if reqs[0].ended {
      SomePending(reqs[1..]);
      var i :| 0 <= i < |reqs[1..]| && !reqs[1..][i].ended;
      assert !reqs[i + 1].ended;
    }
  }

  lemma {:induction false} OfferedFits(reqs: seq<Piece>, at: nat, size: nat)
    requires AllSound(reqs) && Tiles(reqs, at, size)
    ensures |Offered(reqs)| <= size
  {
    if reqs != [] {
      assert Sound(reqs[0]);
      OfferedFits(reqs[1..], at + reqs[0].size, size - reqs[0].size);
    }
  }

  // The requests made for `size` bytes: of at most `max_read` bytes each, and all but the last that
  // long.  One that the transport refuses has failed at once and is the last; otherwise they ask
  // for everything.
  ghost predicate Sent(reqs: seq<Piece>, asked: nat, size: nat, maxRead: nat, accepts: nat -> bool) {
    && (forall i :: 0 <= i < |reqs| ==> SentOne(reqs[i], i < |reqs| - 1, maxRead, accepts(i)))
    && asked <= size && (reqs == [] <==> size == 0)
    && (asked < size ==> reqs != [] && !accepts(|reqs| - 1))
  }

  predicate SentOne(p: Piece, more: bool, maxRead: nat, accepted: bool) {
    && p.size <= maxRead && (more ==> p.size == maxRead && accepted)
    && p == if accepted then Unanswered(p.at, p.size) else Answer(Unanswered(p.at, p.size), Failed(EIO - 1))
  }

  /** `sshfs_send_read`. */
  method SendRead(offset: nat, size: nat, maxRead: nat, accepts: nat -> bool)
      returns (chunk: ReadChunk, ghost asked: nat)
    requires maxRead > 0
    ensures fresh(chunk) && chunk.Valid() && chunk.error == 0 && chunk.offset == offset && chunk.size == size
    ensures Tiles(chunk.reqs, offset, asked) && Sent(chunk.reqs, asked, size, maxRead, accepts)
  {
    chunk := new ReadChunk(offset, size);
    assert Tiles([], offset, 0);
    hide Tiles, Pending, EndedSound;
    asked := 0;
    var left := size;
    while left > 0
      invariant asked + left == size && 0 <= left && chunk.size == size && chunk.offset == offset && chunk.error == 0
      invariant fresh(chunk) && chunk.Valid() && Tiles(chunk.reqs, offset, asked)
      invariant chunk.reqs == [] <==> left == size
      invariant forall i :: 0 <= i < |chunk.reqs| ==>
                  accepts(i) && SentOne(chunk.reqs[i], left > 0 || i < |chunk.reqs| - 1, maxRead, true)
    {
      var bsize := if left < maxRead then left else maxRead;
      chunk.Begin(size - left, bsize);
      asked := asked + bsize;
      var i := |chunk.reqs| - 1;
      if !accepts(i) {
        chunk.End(i, Failed(EIO - 1));
        return;
      }
      left := left - bsize;
    }
  }

  // Every data reply is a prefix of the range its request asked for.
  predicate RepliesWith(sent: seq<Piece>, arrivals: seq<(nat, Reply)>, file: seq<Byte>) {
    forall k :: 0 <= k < |arrivals| && arrivals[k].0 < |sent| && arrivals[k].1.Data? ==>
      arrivals[k].1.bytes <= Slice(file, sent[arrivals[k].0].at, sent[arrivals[k].0].size)
  }

  lemma {:induction false} RepliesComeFromFile(sent: seq<Piece>, arrivals: seq<(nat, Reply)>, file: seq<Byte>,
                                              asked: nat, size: nat, maxRead: nat, accepts: nat -> bool)
    requires Sent(sent, asked, size, maxRead, accepts) && RepliesWith(sent, arrivals, file)
    ensures var got := AfterReplies(sent, arrivals);
            |got| == |sent| &&
            forall i :: 0 <= i < |got| ==>
                got[i].at == sent[i].at && got[i].size == sent[i].size && FromFile(got[i], file)
  {
    hide Slice;
    if arrivals != [] {
      RepliesComeFromFile(sent, arrivals[..|arrivals| - 1], file, asked, size, maxRead, accepts);
    }
  }

  lemma {:induction false} EachFromFile(reqs: seq<Piece>, file: seq<Byte>)
    requires forall i :: 0 <= i < |reqs| ==> FromFile(reqs[i], file)
    ensures AllFromFile(reqs, file)
  {
    if reqs != [] {
      EachFromFile(reqs[1..], file);
    }
  }

  /** For every order of arrival, and any server that returns a prefix of each range or fails
      it: what `SplitRead` returns are the file's bytes from the offset asked for. */
  lemma AnyOrderReadsTheFile(sent: seq<Piece>, arrivals: seq<(nat, Reply)>, file: seq<Byte>, offset: nat, asked: nat,
                             size: nat, maxRead: nat, accepts: nat -> bool)
    requires Sent(sent, asked, size, maxRead, accepts) && RepliesWith(sent, arrivals, file)
    requires var got := AfterReplies(sent, arrivals); Tiles(got, offset, asked) && AllSound(got)
    ensures Offered(AfterReplies(sent, arrivals)) <= Slice(file, offset, size)
  {
    RepliesComeFromFile(sent, arrivals, file, asked, size, maxRead, accepts);
    EachFromFile(AfterReplies(sent, arrivals), file);
    OfferedIsTheFile(AfterReplies(sent, arrivals), offset, asked, file);
    SliceSplit(file, offset, asked, size - asked);
  }
}
