/**
 The streaming FTP upload (drivers/curlftpfs/ftpfs.c): the writer, which runs `ftpfs_write`
 and `ftpfs_flush`, and the upload thread, inside which libcurl asks `write_data_bg` for data.
 They share a buffer, three flags and four semaphores.  Every access to a semaphore or to a
 shared flag is a step of its own, and the steps of the two threads interleave freely.
 */
module FtpUpload {
  import opened Basics

  // Where the upload thread is; `n` is what libcurl asked for, `k` what it is being given.
  datatype Uploader =
    | NoThread
    | Transfer(stopped: bool)          // in curl_easy_perform; stopped: it was given 0 bytes
    | PostReady(n: nat)
    | SetReady(n: nat)
    | CheckDrained(n: nat)
    | PostWritten(n: nat)
    | WaitAvail(n: nat)
    | CheckEof(n: nat)
    | Copy(n: nat)
    | PostAvailBack(k: nat)
    | PostNeed(k: nat)
    | EndReady(ok: bool)               // curl_easy_perform has returned
    | EndFail
    | EndPostNeed
    | EndPostWritten
    | Done

  // Where the writer is: inside `ftpfs_write`, or inside `finish_write_thread`.
  datatype Writer =
    | Idle
    | WaitReady(data: seq<Byte>, off: nat)
    | PostNeedFirst(data: seq<Byte>, off: nat)
    | WaitNeed(data: seq<Byte>, off: nat)
    | Owner(data: seq<Byte>, off: nat) // holds the buffer; decides on the offset
    | PostAvail(size: nat)
    | WaitWritten(size: nat)
    | ClearFlag(size: nat)
    | CheckFail(size: nat)
    | PostAvailBad
    | FinishCheck(why: Ending)
    | FinishWaitNeed(why: Ending)
    | FinishPost(why: Ending)
    | FinishEof(why: Ending)
    | FinishJoin(why: Ending)

  // Why the upload is being finished: a write out of place, or a flush, and then with what the
  // server will answer when it is asked for the size of the file; it may not answer.
  datatype Ending = OutOfPlace | Flush(stat: Option<nat>)

  // What the call under way, or the last one, returns; unknown until it does.
  datatype Result = Unknown | Count(n: nat) | Eio

  // What the two threads share: the buffer, the flags, the four semaphores.
  datatype Shared = Shared(
    buf: seq<Byte>, writtenFlag: bool, isReady: bool, eof: bool, failed: bool,
    avail: nat, need: nat, written: nat, ready: nat)

  // `accepted`, `sent` and `emptied` are history: what the writer put into the buffer, what
  // the transport was handed, and whether an empty write was accepted in this session.
  datatype State = State(
    w: Writer, u: Uploader, sh: Shared, conn: bool, pos: nat, result: Result,
    accepted: seq<Byte>, sent: seq<Byte>, emptied: bool)

  const Fresh := Shared([], false, false, false, false, 0, 0, 0, 0)
  const Init := State(Idle, NoThread, Fresh, false, 0, Unknown, [], [], false)

  datatype Event =
    | CallWrite(data: seq<Byte>, off: nat, mayStart: bool)
    | CallFlush(stat: Option<nat>)
    | WriterStep
    | Ask(n: nat)                      // libcurl calls write_data_bg
    | End(ok: bool)                    // curl_easy_perform returns
    | UploaderStep

  // ---------------------------------------------------------------------------------
  // The writer
  // ---------------------------------------------------------------------------------

  predicate Starts(s: State, off: nat) {
    !s.conn && ((s.pos == 0 && off == 0) || (s.pos > 0 && off == s.pos))
  }

  // Entry of `ftpfs_write`, up to the first semaphore.
  function EnterWrite(s: State, data: seq<Byte>, off: nat, mayStart: bool): State {
    if s.sh.failed then s.(result := Eio)
    else if Starts(s, off) then
      if s.pos == 0 && !mayStart then s.(result := Eio)
      else
        s.(sh := Fresh.(buf := s.sh.buf), conn := true, u := Transfer(false), w := WaitReady(data, off),
           result := Unknown, emptied := false)
    else if s.conn then s.(w := WaitNeed(data, off), result := Unknown)
    else s.(result := Count(|data|))
  }

  // Entry of `ftpfs_flush`; without a connection there is nothing to finish.
  function EnterFlush(s: State, stat: Option<nat>): State {
    if s.conn then s.(w := FinishCheck(Flush(stat)), result := Unknown) else s.(result := Count(0))
  }

  predicate WriterBlocked(s: State) {
    match s.w
    case WaitReady(_, _) => s.sh.ready == 0
    case WaitNeed(_, _) => s.sh.need == 0
    case WaitWritten(_) => s.sh.written == 0
    case FinishWaitNeed(_) => s.sh.need == 0
    case FinishJoin(_) => !s.u.Done?
    case _ => false
  }

  function StepWriter(s: State): State
    requires !s.w.Idle? && !WriterBlocked(s)
  {
    var h := s.sh;
    match s.w
    case WaitReady(d, off) => s.(sh := h.(ready := h.ready - 1), w := PostNeedFirst(d, off))
    case PostNeedFirst(d, off) => s.(sh := h.(need := h.need + 1), w := WaitNeed(d, off))
    case WaitNeed(d, off) => s.(sh := h.(need := h.need - 1), w := Owner(d, off))
    case Owner(d, off) =>
      if off != s.pos then s.(w := PostAvailBad)
      else s.(sh := h.(buf := h.buf + d), accepted := s.accepted + d, pos := s.pos + |d|, w := PostAvail(|d|),
              emptied := s.emptied || d == [])
    case PostAvail(n) => s.(sh := h.(avail := h.avail + 1), w := WaitWritten(n))
    case WaitWritten(n) => s.(sh := h.(written := h.written - 1), w := ClearFlag(n))
    case ClearFlag(n) => s.(sh := h.(writtenFlag := false), w := CheckFail(n))
    case CheckFail(n) => s.(result := if h.failed then Eio else Count(n), w := Idle)
    case PostAvailBad => s.(sh := h.(avail := h.avail + 1), w := FinishCheck(OutOfPlace))
    case FinishCheck(fl) => s.(w := if h.failed then FinishPost(fl) else FinishWaitNeed(fl))
    case FinishWaitNeed(fl) => s.(sh := h.(need := h.need - 1), w := FinishPost(fl))
    case FinishPost(fl) => s.(sh := h.(avail := h.avail + 1), w := FinishEof(fl))
    case FinishEof(fl) => s.(sh := h.(eof := true), w := FinishJoin(fl))
    case FinishJoin(fl) =>
      // joined; the flush then compares the size of the file with the position
      var t := s.(conn := false, u := NoThread, w := Idle);
      if h.failed || fl.OutOfPlace? || fl.stat.None? then t.(result := Eio)
      else if fl.stat.value != s.pos then t.(sh := h.(failed := true), result := Eio)
      else t.(result := Count(0))
  }

  // ---------------------------------------------------------------------------------
  // The upload thread
  // ---------------------------------------------------------------------------------

  predicate ThreadBlocked(u: Uploader, h: Shared) {
    u.NoThread? || u.Done? || (u.WaitAvail? && h.avail == 0)
  }

  // One step of the thread; the third component is what it hands to the transport.
  function ThreadStep(u: Uploader, h: Shared): (Uploader, Shared, seq<Byte>)
    requires !ThreadBlocked(u, h) && !u.Transfer?
  {
    match u
    case PostReady(n) => if h.isReady then (CheckDrained(n), h, []) else (SetReady(n), h.(ready := h.ready + 1), [])
    case SetReady(n) => (CheckDrained(n), h.(isReady := true), [])
    case CheckDrained(n) => (if h.buf == [] && h.writtenFlag then PostWritten(n) else WaitAvail(n), h, [])
    case PostWritten(n) => (WaitAvail(n), h.(written := h.written + 1), [])
    case WaitAvail(n) => (CheckEof(n), h.(avail := h.avail - 1), [])
    case CheckEof(n) => (if h.eof then Transfer(true) else Copy(n), h, [])
    case Copy(n) =>
      var k := if n > |h.buf| then |h.buf| else n;
      if |h.buf| > k then (PostAvailBack(k), h.(buf := h.buf[k..]), h.buf[..k])
      else (PostNeed(k), h.(buf := [], writtenFlag := true), h.buf[..k])
    case PostAvailBack(k) => (Transfer(k == 0), h.(avail := h.avail + 1), [])
    case PostNeed(k) => (Transfer(k == 0), h.(need := h.need + 1), [])
    case EndReady(ok) =>
      (if ok then EndPostWritten else EndFail, if h.isReady then h else h.(ready := h.ready + 1), [])
    case EndFail => (EndPostNeed, h.(failed := true), [])
    case EndPostNeed => (EndPostWritten, h.(need := h.need + 1), [])
    case EndPostWritten => (Done, h.(written := h.written + 1), [])
  }

  // libcurl asks for data, or gives up; it does not ask again once it was given nothing,
  // and succeeds only then.
  predicate ThreadEnabled(u: Uploader, h: Shared, e: Event) {
    match e
    case Ask(n) => u == Transfer(false) && n > 0
    case End(ok) => u.Transfer? && (ok ==> u.stopped)
    case UploaderStep => !ThreadBlocked(u, h) && !u.Transfer?
    case _ => false
  }

  function ThreadMove(u: Uploader, h: Shared, e: Event): (Uploader, Shared, seq<Byte>)
    requires ThreadEnabled(u, h, e)
  {
    match e
    case Ask(n) => (PostReady(n), h, [])
    case End(ok) => (EndReady(ok), h, [])
    case UploaderStep => ThreadStep(u, h)
  }

  predicate ThreadEvent(e: Event) {
    e.Ask? || e.End? || e.UploaderStep?
  }

  predicate Enabled(s: State, e: Event) {
    match e
    case CallWrite(_, _, _) => s.w.Idle?
    case CallFlush(_) => s.w.Idle?
    case WriterStep => !s.w.Idle? && !WriterBlocked(s)
    case _ => ThreadEnabled(s.u, s.sh, e)
  }

  function Step(s: State, e: Event): State
    requires Enabled(s, e)
  {
    match e
    case CallWrite(d, off, may) => EnterWrite(s, d, off, may)
    case CallFlush(stat) => EnterFlush(s, stat)
    case WriterStep => StepWriter(s)
    case _ =>
      var (u, h, out) := ThreadMove(s.u, s.sh, e);
      s.(u := u, sh := h, sent := s.sent + out)
  }

  // ---------------------------------------------------------------------------------
  // The situations the two threads can be in
  // ---------------------------------------------------------------------------------

  // The thread waits for more data; `base` units of `data_need` are there to take.
  predicate Quiet(u: Uploader, h: Shared, base: nat, flag: bool) {
    u.WaitAvail? && h.need == base && h.avail == 0 && h.written == 0 && h.buf == [] &&
    h.isReady && !h.eof && !h.failed && h.writtenFlag == flag
  }

  predicate Dead(u: Uploader, h: Shared) { u.Done? && h.failed }

  // The upload has ended without an error although the writer did not ask for it.
  predicate Spent(u: Uploader, h: Shared, base: nat) {
    u.Done? && !h.failed && h.need == base && h.written == 0
  }

  // Before the writer has been told that the transfer is under way.
  predicate Launching(u: Uploader, h: Shared) {
    h == Fresh && (u == Transfer(false) || u.PostReady? || u == EndReady(false))
  }

  // From the first `sem_post(ready)` until the writer hands over its first bytes.
  predicate Starting(u: Uploader, h: Shared, base: nat) {
    h.avail == 0 && !h.writtenFlag && !h.eof &&
    match u
    case SetReady(_) => !h.failed && h.need == base && h.written == 0
    case CheckDrained(_) => !h.failed && h.need == base && h.written == 0 && h.isReady
    case WaitAvail(_) => !h.failed && h.need == base && h.written == 0 && h.isReady
    case EndFail => !h.failed && h.need == base && h.written == 0
    case EndPostNeed => h.failed && h.need == base && h.written == 0
    case EndPostWritten => h.failed && h.need == base + 1 && h.written == 0
    case Done => h.failed && h.need == base + 1 && h.written == 1
    case _ => false
  }

  // The transfer fails while the writer waits for its bytes to be drained.
  predicate Failing(u: Uploader, h: Shared) {
    match u
    case EndReady(ok) => !ok && !h.failed && h.isReady && h.written == 0
    case EndFail => !h.failed && h.written == 0
    case EndPostNeed => h.failed && h.written == 0
    case EndPostWritten => h.failed && h.written == 0
    case Done => h.failed && h.written == 1
    case _ => false
  }

  predicate Loaded(h: Shared, avail: nat) {
    h.avail == avail && h.need == 0 && h.written == 0 && h.buf != [] && !h.writtenFlag
  }

  predicate Drained(h: Shared, need: nat, told: nat) {
    h.avail == 0 && h.need == need && h.written == told && h.buf == [] && h.writtenFlag
  }

  // The writer has handed over bytes and waits until they are drained.
  predicate Draining(u: Uploader, h: Shared) {
    !h.eof && (Failing(u, h) || (
      !h.failed &&
      match u
      case SetReady(_) => Loaded(h, 1)
      case CheckEof(_) => Loaded(h, 0) && h.isReady
      case Copy(_) => Loaded(h, 0) && h.isReady
      case PostAvailBack(k) => k > 0 && Loaded(h, 0) && h.isReady
      case PostNeed(k) => k > 0 && Drained(h, 0, 0) && h.isReady
      case PostWritten(_) => Drained(h, 1, 0) && h.isReady
      case WaitAvail(_) => (Loaded(h, 1) || Drained(h, 1, 1)) && h.isReady
      case Transfer(stopped) => !stopped && (Loaded(h, 1) || Drained(h, 1, 0)) && h.isReady
      case PostReady(_) => (Loaded(h, 1) || Drained(h, 1, 0)) && h.isReady
      case CheckDrained(_) => (Loaded(h, 1) || Drained(h, 1, 0)) && h.isReady
      case _ => false))
  }

  // An empty write: the thread is given 0 bytes and the transfer ends.
  predicate Emptying(u: Uploader, h: Shared) {
    !h.eof && h.buf == [] && (Failing(u, h) || (
      !h.failed &&
      match u
      case SetReady(_) => h.avail == 1 && h.need == 0 && h.written == 0 && !h.writtenFlag
      case CheckDrained(_) => h.avail == 1 && h.need == 0 && h.written == 0 && !h.writtenFlag && h.isReady
      case WaitAvail(_) => h.avail == 1 && h.need == 0 && h.written == 0 && h.isReady
      case CheckEof(_) => h.need == 0 && h.written == 0 && h.isReady
      case Copy(_) => h.need == 0 && h.written == 0 && h.isReady
      case PostNeed(k) => k == 0 && h.need == 0 && h.written == 0 && h.isReady
      case Transfer(stopped) => stopped && h.need == 1 && h.written == 0 && h.isReady
      case EndReady(ok) => h.need == 1 && h.written == 0 && h.isReady
      case EndPostWritten => h.need == 1 && h.written == 0
      case Done => h.need == 1 && h.written == 1
      case _ => false))
  }

  // The thread has been sent on with an empty buffer, or has failed: it ends without waiting.
  predicate Leaving(u: Uploader, h: Shared) {
    (h.buf == [] || h.failed) &&
    match u
    case WaitAvail(_) => h.avail >= 1 && h.isReady && !h.failed
    case CheckEof(_) => h.isReady && !h.failed
    case Copy(_) => h.isReady && !h.failed
    case PostNeed(k) => k == 0 && h.isReady && !h.failed
    case Transfer(stopped) => stopped && h.isReady && !h.failed
    case EndReady(_) => h.isReady && !h.failed
    case EndFail => !h.failed
    case EndPostNeed => h.failed
    case EndPostWritten => true
    case Done => true
    case _ => false
  }

  // ... and `data_need` has been, or will be, posted by it.
  predicate WillNeed(u: Uploader, h: Shared) {
    !h.eof && (u.WaitAvail? || u.CheckEof? || u.Copy? || u.PostNeed? || h.need >= 1)
  }

  // libcurl never asks for nothing.
  predicate Asks(u: Uploader) {
    (u.PostReady? || u.SetReady? || u.CheckDrained? || u.PostWritten? || u.WaitAvail? || u.CheckEof? || u.Copy?)
    ==> u.n > 0
  }

  // Between two calls, with the thread started.
  predicate Resting(s: State) {
    (Quiet(s.u, s.sh, 1, false) && !s.emptied) || Dead(s.u, s.sh) ||
    (Spent(s.u, s.sh, 1) && s.emptied && s.sh.buf == [])
  }

  // What each place in the writer may assume of the upload thread.
  predicate Agree(s: State) {
    var (u, h) := (s.u, s.sh);
    match s.w
    case Idle => if s.conn then Resting(s) else h.failed || h.buf == []
    case WaitReady(_, off) =>
      off == s.pos && !s.emptied && (Launching(u, h) || (h.buf == [] && h.ready == 1 && Starting(u, h, 0)))
    case PostNeedFirst(_, off) => off == s.pos && !s.emptied && h.buf == [] && Starting(u, h, 0)
    case WaitNeed(_, off) =>
      h.buf == [] &&
      if s.emptied then Spent(u, h, 1) else (off == s.pos && Starting(u, h, 1)) || Quiet(u, h, 1, false)
    case Owner(_, off) =>
      h.buf == [] &&
      if s.emptied then Spent(u, h, 0) else (off == s.pos && Starting(u, h, 0)) || Quiet(u, h, 0, false)
    case PostAvail(n) =>
      n == |h.buf| && ((s.emptied && Spent(u, h, 0)) || ((s.emptied <==> h.buf == []) && Starting(u, h, 0)))
    case WaitWritten(_) => if s.emptied then Emptying(u, h) || Spent(u, h, 0) else Draining(u, h)
    case ClearFlag(_) =>
      (Quiet(u, h, 1, true) && !s.emptied) || Dead(u, h) || (Spent(u, h, 1) && s.emptied && h.buf == [])
    case CheckFail(_) => Resting(s)
    case PostAvailBad => h.buf == [] && if s.emptied then Spent(u, h, 0) else Quiet(u, h, 0, false)
    case FinishCheck(_) => Resting(s) || (Leaving(u, h) && (WillNeed(u, h) || (s.emptied && Spent(u, h, 0))))
    case FinishWaitNeed(_) =>
      (Quiet(u, h, 1, false) && !s.emptied) || (Spent(u, h, 1) && s.emptied && h.buf == []) ||
      (Leaving(u, h) && (WillNeed(u, h) || (s.emptied && Spent(u, h, 0))))
    case FinishPost(_) => Quiet(u, h, 0, false) || Leaving(u, h)
    case FinishEof(_) => Leaving(u, h)
    case FinishJoin(_) => Leaving(u, h)
  }

  // Nothing is lost, repeated or reordered between the writer and the transport.
  predicate InOrder(s: State) {
    s.accepted == s.sent + s.sh.buf && s.pos == |s.accepted|
  }

  predicate Inv(s: State) {
    InOrder(s) && Asks(s.u) && (s.conn <==> !s.u.NoThread?) && (!s.w.Idle? ==> s.conn) && Agree(s)
  }

  lemma InitInv()
    ensures Inv(Init)
  {
  }

  // ---------------------------------------------------------------------------------
  // Every step keeps them
  // ---------------------------------------------------------------------------------

  lemma CallKeepsInv(s: State, e: Event)
    requires Inv(s) && Enabled(s, e) && (e.CallWrite? || e.CallFlush?)
    ensures Inv(Step(s, e))
  {
  }

  predicate Finishing(w: Writer) {
    w.FinishCheck? || w.FinishWaitNeed? || w.FinishPost? || w.FinishEof? || w.FinishJoin?
  }

  lemma OwnerStepKept(s: State)
    requires Inv(s) && s.w.Owner?
    ensures Inv(StepWriter(s))
  {
    assert s.sh.buf == [] && s.sh.buf + s.w.data == s.w.data;
  }

  predicate TakingOver(w: Writer) { w.WaitReady? || w.PostNeedFirst? || w.WaitNeed? || w.PostAvail? }

  lemma TakeOverStepKept(s: State)
    requires Inv(s) && Enabled(s, WriterStep) && TakingOver(s.w)
    ensures Inv(StepWriter(s))
  {
  }

  lemma WriteStepKept(s: State)
    requires Inv(s) && Enabled(s, WriterStep) && !Finishing(s.w) && !s.w.Owner? && !TakingOver(s.w)
    ensures Inv(StepWriter(s))
  {
  }

  lemma FinishStepKept(s: State)
    requires Inv(s) && Enabled(s, WriterStep) && Finishing(s.w)
    ensures Inv(StepWriter(s))
  {
  }

  // What libcurl and the thread do, seen from each of the situations above.

  lemma ThreadKeepsOrder(u: Uploader, h: Shared, e: Event)
    requires Asks(u) && ThreadEnabled(u, h, e)
    ensures var (u', h', out) := ThreadMove(u, h, e);
            Asks(u') && !u'.NoThread? && out + h'.buf == h.buf &&
            (u.Copy? && h.buf != [] ==> |h'.buf| < |h.buf|)
  {
  }

  lemma LaunchingKept(u: Uploader, h: Shared, e: Event)
    requires Launching(u, h) && Asks(u) && ThreadEnabled(u, h, e)
    ensures var (u', h', _) := ThreadMove(u, h, e);
            h'.buf == [] && (Launching(u', h') || (h'.ready == 1 && Starting(u', h', 0)))
  {
  }

  lemma StartingKept(u: Uploader, h: Shared, e: Event, base: nat)
    requires Starting(u, h, base) && ThreadEnabled(u, h, e)
    ensures var (u', h', _) := ThreadMove(u, h, e);
            Starting(u', h', base) && h'.buf == h.buf && h'.ready == h.ready
  {
  }

  lemma DrainingKept(u: Uploader, h: Shared, e: Event)
    requires Draining(u, h) && Asks(u) && ThreadEnabled(u, h, e)
    ensures var (u', h', _) := ThreadMove(u, h, e); Draining(u', h')
  {
  }

  lemma EmptyingKept(u: Uploader, h: Shared, e: Event)
    requires Emptying(u, h) && ThreadEnabled(u, h, e)
    ensures var (u', h', _) := ThreadMove(u, h, e); Emptying(u', h')
  {
  }

  lemma LeavingKept(u: Uploader, h: Shared, e: Event)
    requires Leaving(u, h) && ThreadEnabled(u, h, e)
    ensures var (u', h', _) := ThreadMove(u, h, e);
            Leaving(u', h') && (WillNeed(u, h) ==> WillNeed(u', h'))
  {
  }

  lemma WaitingThread(u: Uploader, h: Shared, e: Event)
    requires Quiet(u, h, 0, false) || Quiet(u, h, 1, false) || Quiet(u, h, 1, true) || Dead(u, h) || u.Done?
    ensures !ThreadEnabled(u, h, e)
  {
  }

  lemma ThreadKeepsWriting(s: State, e: Event)
    requires Agree(s) && Asks(s.u) && s.conn && ThreadEvent(e) && Enabled(s, e) && !Finishing(s.w)
    ensures Agree(Step(s, e))
  {
    var (u, h) := (s.u, s.sh);
    if Quiet(u, h, 0, false) || Quiet(u, h, 1, false) || Quiet(u, h, 1, true) || Dead(u, h) || u.Done? {
      WaitingThread(u, h, e);
      return;
    }
    hide ThreadMove, Launching, Starting, Draining, Emptying, Leaving, WillNeed, Quiet, ThreadEnabled, Asks;
    if s.w.WaitReady? {
      if Launching(u, h) { LaunchingKept(u, h, e); } else { StartingKept(u, h, e, 0); }
    } else if s.w.WaitNeed? {
      StartingKept(u, h, e, 1);
    } else if s.w.WaitWritten? {
      if Draining(u, h) { DrainingKept(u, h, e); }
      if Emptying(u, h) { EmptyingKept(u, h, e); }
    } else if s.w.PostNeedFirst? || s.w.Owner? || s.w.PostAvail? {
      StartingKept(u, h, e, 0);
    }
  }

  lemma ThreadKeepsFinishing(s: State, e: Event)
    requires Agree(s) && Asks(s.u) && s.conn && ThreadEvent(e) && Enabled(s, e) && Finishing(s.w)
    ensures Agree(Step(s, e))
  {
    var (u, h) := (s.u, s.sh);
    if Quiet(u, h, 0, false) || Quiet(u, h, 1, false) || Dead(u, h) || u.Done? {
      WaitingThread(u, h, e);
      return;
    }
    hide ThreadMove, Launching, Starting, Draining, Emptying, Leaving, WillNeed, Quiet, ThreadEnabled, Asks;
    LeavingKept(u, h, e);
  }

  lemma HandedOver(accepted: seq<Byte>, sent: seq<Byte>, buf: seq<Byte>, out: seq<Byte>, buf': seq<Byte>)
    requires accepted == sent + buf && buf == out + buf'
    ensures accepted == (sent + out) + buf'
  {
  }

  lemma ThreadKeepsInv(s: State, e: Event)
    requires Inv(s) && ThreadEvent(e) && Enabled(s, e)
    ensures Inv(Step(s, e))
  {
    assert s.conn;
    hide Agree, ThreadMove, ThreadEnabled, Asks;
    ThreadKeepsOrder(s.u, s.sh, e);
    if Finishing(s.w) { ThreadKeepsFinishing(s, e); } else { ThreadKeepsWriting(s, e); }
    var (u', h', out) := ThreadMove(s.u, s.sh, e);
    HandedOver(s.accepted, s.sent, s.sh.buf, out, h'.buf);
  }

  /** Every step of either thread, and of libcurl, keeps the invariant. */
  lemma StepKeepsInv(s: State, e: Event)
    requires Inv(s) && Enabled(s, e)
    ensures Inv(Step(s, e))
  {
    hide Inv, StepWriter, ThreadMove, EnterWrite, ThreadEnabled;
    match e {
      case CallWrite(_, _, _) => CallKeepsInv(s, e);
      case CallFlush(_) => CallKeepsInv(s, e);
      case WriterStep =>
        if Finishing(s.w) { FinishStepKept(s); }
        else if s.w.Owner? { OwnerStepKept(s); }
        else if TakingOver(s.w) { TakeOverStepKept(s); }
        else { WriteStepKept(s); }
      case _ => ThreadKeepsInv(s, e);
    }
  }

  // ---------------------------------------------------------------------------------
  // What follows for every run
  // ---------------------------------------------------------------------------------

  ghost predicate IsRun(run: seq<State>) {
    if |run| <= 1 then run == [Init] else
      var n := |run| - 1;
      IsRun(run[..n]) && Leads(run[n - 1], run[n])
  }

  ghost predicate Leads(s: State, t: State) { exists e :: Enabled(s, e) && t == Step(s, e) }

  lemma {:induction false} RunKeepsInv(run: seq<State>)
    requires IsRun(run)
    ensures forall i :: 0 <= i < |run| ==> Inv(run[i])
  {
    hide Inv, Step, Enabled;
    InitInv();
    if |run| > 1 {
      var n := |run| - 1;
      RunKeepsInv(run[..n]);
      assert forall i :: 0 <= i < n ==> run[i] == run[..n][i];
      var e :| Enabled(run[n - 1], e) && run[n] == Step(run[n - 1], e);
      StepKeepsInv(run[n - 1], e);
    }
  }

  predicate WriterOwns(w: Writer) { w.Owner? || w.PostAvail? }

  // The thread copies and shortens the buffer at `Copy`; at `CheckDrained` it looks at its length,
  // before it has waited for `data_avail`.
  predicate ThreadOwns(u: Uploader) { u.Copy? }
  predicate ThreadTouches(u: Uploader) { u.Copy? || u.CheckDrained? }

  /** In every reachable state what the transport was handed, followed by the buffer, is all
      that was accepted, in order, and the two threads never own the buffer together. */
  lemma BytesInOrder(run: seq<State>, i: nat)
    requires IsRun(run) && i < |run|
    ensures var s := run[i];
            s.sent + s.sh.buf == s.accepted && s.pos == |s.accepted| && !(WriterOwns(s.w) && ThreadOwns(s.u))
  {
    hide IsRun, Inv;
    RunKeepsInv(run);
    InvOrders(run[i]);
  }

  lemma InvOrders(s: State)
    requires Inv(s)
    ensures s.sent + s.sh.buf == s.accepted && s.pos == |s.accepted| && !(WriterOwns(s.w) && ThreadOwns(s.u))
  {
  }

  /** The thread may look at the buffer while the writer owns it, but only in its first turn, before
      anything was drained: `written_flag` is then not set, and its next step is the same whatever
      length it sees. */
  lemma LookIsHarmless(s: State, len: seq<Byte>)
    requires Inv(s) && WriterOwns(s.w) && ThreadTouches(s.u)
    ensures s.u.CheckDrained? && Starting(s.u, s.sh, 0) && !s.sh.writtenFlag
    ensures ThreadStep(s.u, s.sh).0 == ThreadStep(s.u, s.sh.(buf := len)).0 == WaitAvail(s.u.n)
  {
  }

  // ---------------------------------------------------------------------------------
  // What a write returns
  // ---------------------------------------------------------------------------------

  /** A write returns at once, with an error if one was recorded before or the upload may not start,
      and with its full size, nothing accepted, exactly if there is no connection, no error, and it
      does not continue at the position; otherwise it goes on to hand over its bytes. */
  lemma AtOnceIff(s: State, data: seq<Byte>, off: nat, mayStart: bool)
    requires Inv(s) && s.w.Idle?
    ensures var t := EnterWrite(s, data, off, mayStart);
            && (t.w.Idle? && t.result == Count(|data|) <==> !s.conn && !s.sh.failed && off != s.pos)
            && (t.w.Idle? && t.result == Count(|data|) ==> t == s.(result := Count(|data|)))
            && (t.w.Idle? && t.result == Eio <==> s.sh.failed || (!s.conn && s.pos == 0 == off && !mayStart))
            && (!t.w.Idle? ==> t.conn && t.result == Unknown && t.accepted == s.accepted)
  {
  }

  // How far a write of `data` has come, `before` having been accepted before it.
  predicate InCall(s: State, before: seq<Byte>, data: seq<Byte>, off: nat) {
    match s.w
    case WaitReady(d, o) => d == data && o == off && s.accepted == before
    case PostNeedFirst(d, o) => d == data && o == off && s.accepted == before
    case WaitNeed(d, o) => d == data && o == off && s.accepted == before
    case Owner(d, o) => d == data && o == off && s.accepted == before
    case PostAvail(n) => HandedIn(s, before, data, off, n)
    case WaitWritten(n) => HandedIn(s, before, data, off, n)
    case ClearFlag(n) => HandedIn(s, before, data, off, n)
    case CheckFail(n) => HandedIn(s, before, data, off, n)
    case PostAvailBad => s.accepted == before && off != |before|
    case Idle => Returned(s, before, data, off)
    case _ => s.w.why == OutOfPlace && s.accepted == before && off != |before|
  }

  predicate HandedIn(s: State, before: seq<Byte>, data: seq<Byte>, off: nat, n: nat) {
    n == |data| && s.conn && s.accepted == before + data && s.pos == off + |data|
  }

  // Out of place with an error, nothing accepted and the upload given up; otherwise with an error
  // exactly if the transfer has failed, and else with everything at the transport.
  predicate Returned(s: State, before: seq<Byte>, data: seq<Byte>, off: nat) {
    if off != |before| then s.result == Eio && s.accepted == before && !s.conn
    else
      && HandedIn(s, before, data, off, |data|)
      && s.result == (if s.sh.failed then Eio else Count(|data|))
      && (!s.sh.failed ==> s.sent == s.accepted)
  }

  lemma CallStep(s: State, e: Event, before: seq<Byte>, data: seq<Byte>, off: nat)
    requires Inv(s) && Enabled(s, e) && !s.w.Idle? && InCall(s, before, data, off)
    ensures InCall(Step(s, e), before, data, off)
  {
    if e.WriterStep? {
      WriterInCall(s, before, data, off);
    } else {
      hide Inv, ThreadMove, ThreadEnabled;
      assert ThreadEvent(e);
    }
  }

  lemma WriterInCall(s: State, before: seq<Byte>, data: seq<Byte>, off: nat)
    requires Inv(s) && Enabled(s, WriterStep) && InCall(s, before, data, off)
    ensures InCall(StepWriter(s), before, data, off)
  {
    if s.w.CheckFail? && !s.sh.failed {
      Rested(s);
    }
    hide Agree;
    assert s.pos == |s.accepted|;
  }

  lemma Rested(s: State)
    requires Inv(s) && s.w.CheckFail? && !s.sh.failed
    ensures s.sent == s.accepted
  {
  }

  // As long as the call has not returned, each step of the run takes it on.
  lemma {:induction false} CallRuns(run: seq<State>, i: nat, j: nat, before: seq<Byte>, data: seq<Byte>, off: nat)
    requires IsRun(run) && i <= j < |run| && InCall(run[i], before, data, off)
    requires forall k :: i <= k < j ==> !run[k].w.Idle?
    ensures InCall(run[j], before, data, off)
    decreases j
  {
    hide InCall, IsRun, Inv, Enabled, Step;
    if i < j {
      CallRuns(run, i, j - 1, before, data, off);
      RunKeepsInv(run);
      var e := StepTaken(run, j - 1);
      CallStep(run[j - 1], e, before, data, off);
    }
  }

  lemma {:induction false} StepTaken(run: seq<State>, i: nat) returns (e: Event)
    requires IsRun(run) && i + 1 < |run|
    ensures Enabled(run[i], e) && run[i + 1] == Step(run[i], e)
  {
    hide Enabled, Step;
    var n := |run| - 1;
    if i + 1 == n {
      e :| Enabled(run[n - 1], e) && run[n] == Step(run[n - 1], e);
    } else {
      e := StepTaken(run[..n], i);
      assert run[..n][i] == run[i] && run[..n][i + 1] == run[i + 1];
    }
  }

  /** The contract of `ftpfs_write`, over every run, for a call made in state i that returns in state j.
      It returns an error exactly if the transfer has failed, by then or before; or it was out of place
      in an upload, which is given up; or the upload may not start.  Otherwise it returns its size, and
      then, with a connection, exactly its bytes have been accepted behind those before and all of them
      are at the transport; without one it was out of place, and nothing has changed. */
  lemma WriteContract(run: seq<State>, i: nat, j: nat, data: seq<Byte>, off: nat, mayStart: bool)
    requires IsRun(run) && i < j < |run|
    requires run[i].w.Idle? && run[i + 1] == EnterWrite(run[i], data, off, mayStart)
    requires run[j].w.Idle? && forall k :: i < k < j ==> !run[k].w.Idle?
    ensures var (s, t) := (run[i], run[j]);
            && (t.result == Eio || t.result == Count(|data|))
            && (t.result == Eio <==>
                  t.sh.failed || (s.conn && off != s.pos) || (!s.conn && s.pos == 0 == off && !mayStart))
            && (t.result == Count(|data|) && t.conn ==>
                  t.accepted == s.accepted + data && t.sent == t.accepted && t.pos == off + |data|)
            && (t.result == Count(|data|) && !t.conn ==> t == s.(result := t.result) && off != s.pos)
            && (s.conn && off != s.pos ==> t.accepted == s.accepted && (s.sh.failed || !t.conn))
  {
    hide IsRun, Inv, InCall, EnterWrite;
    RunKeepsInv(run);
    AtOnceIff(run[i], data, off, mayStart);
    InvOrders(run[i]);
    if !run[i + 1].w.Idle? {
      EntersCall(run[i], data, off, mayStart);
      CallRuns(run, i + 1, j, run[i].accepted, data, off);
      CallReturns(run[j], run[i].accepted, data, off);
    } else {
      EntryReturns(run[i], data, off, mayStart);
    }
  }

  lemma EntersCall(s: State, data: seq<Byte>, off: nat, mayStart: bool)
    requires Inv(s) && s.w.Idle? && !EnterWrite(s, data, off, mayStart).w.Idle?
    ensures InCall(EnterWrite(s, data, off, mayStart), s.accepted, data, off)
    ensures s.conn || off == s.pos
    ensures !(!s.conn && s.pos == 0 == off && !mayStart)
  {
  }

  lemma EntryReturns(s: State, data: seq<Byte>, off: nat, mayStart: bool)
    requires Inv(s) && s.w.Idle? && EnterWrite(s, data, off, mayStart).w.Idle?
    ensures var t := EnterWrite(s, data, off, mayStart);
            && t == s.(result := t.result)
            && (t.result == Eio || (t.result == Count(|data|) && !t.conn && off != s.pos))
            && (t.result == Eio <==> s.sh.failed || (!s.conn && s.pos == 0 == off && !mayStart))
            && (s.conn ==> s.sh.failed)
  {
  }

  lemma CallReturns(s: State, before: seq<Byte>, data: seq<Byte>, off: nat)
    requires s.w.Idle? && InCall(s, before, data, off)
    ensures Returned(s, before, data, off)
  {
  }

  // How far a flush has come; `accepted` was accepted before it.
  predicate InFlush(s: State, accepted: seq<Byte>, stat: Option<nat>) {
    s.accepted == accepted &&
    match s.w
    case FinishCheck(why) => why == Flush(stat)
    case FinishWaitNeed(why) => why == Flush(stat)
    case FinishPost(why) => why == Flush(stat)
    case FinishEof(why) => why == Flush(stat)
    case FinishJoin(why) => why == Flush(stat)
    case Idle => Flushed(s, stat)
    case _ => false
  }

  // With success exactly if the transfer and the check of the size did.
  predicate Flushed(s: State, stat: Option<nat>) {
    && !s.conn
    && s.result == (if !s.sh.failed && stat == Some(s.pos) then Count(0) else Eio)
    && (!s.sh.failed ==> s.sent == s.accepted)
  }

  lemma FlushStep(s: State, e: Event, accepted: seq<Byte>, stat: Option<nat>)
    requires Inv(s) && Enabled(s, e) && !s.w.Idle? && InFlush(s, accepted, stat)
    ensures InFlush(Step(s, e), accepted, stat)
  {
    if e.WriterStep? {
      if s.w.FinishJoin? {
        FlushFindsEverything(s);
      }
      hide Inv;
    } else {
      hide Inv, ThreadMove, ThreadEnabled;
      assert ThreadEvent(e);
    }
  }

  lemma {:induction false} FlushRuns(run: seq<State>, i: nat, j: nat, accepted: seq<Byte>, stat: Option<nat>)
    requires IsRun(run) && i <= j < |run| && InFlush(run[i], accepted, stat)
    requires forall k :: i <= k < j ==> !run[k].w.Idle?
    ensures InFlush(run[j], accepted, stat)
    decreases j
  {
    hide InFlush, IsRun, Inv, Enabled, Step;
    if i < j {
      FlushRuns(run, i, j - 1, accepted, stat);
      RunKeepsInv(run);
      var e := StepTaken(run, j - 1);
      FlushStep(run[j - 1], e, accepted, stat);
    }
  }

  /** The contract of `ftpfs_flush`, over every run: without a connection there is nothing to do;
      otherwise the connection is gone, nothing more has been accepted, and it succeeds exactly if the
      transfer has and the server reports the position as the size. */
  lemma FlushContract(run: seq<State>, i: nat, j: nat, stat: Option<nat>)
    requires IsRun(run) && i < j < |run|
    requires run[i].w.Idle? && run[i + 1] == EnterFlush(run[i], stat)
    requires run[j].w.Idle? && forall k :: i < k < j ==> !run[k].w.Idle?
    ensures var (s, t) := (run[i], run[j]);
            && (!s.conn ==> t == s.(result := Count(0)))
            && (s.conn ==> t.accepted == s.accepted && Flushed(t, stat))
  {
    hide IsRun, Inv, InFlush;
    RunKeepsInv(run);
    if run[i].conn {
      assert InFlush(run[i + 1], run[i].accepted, stat) by {
        EntersFlush(run[i], stat);
      }
      FlushRuns(run, i + 1, j, run[i].accepted, stat);
      FlushReturns(run[j], run[i].accepted, stat);
    }
  }

  lemma EntersFlush(s: State, stat: Option<nat>)
    requires s.conn
    ensures InFlush(EnterFlush(s, stat), s.accepted, stat)
  {
  }

  lemma FlushReturns(s: State, accepted: seq<Byte>, stat: Option<nat>)
    requires InFlush(s, accepted, stat) && s.w.Idle?
    ensures s.accepted == accepted && Flushed(s, stat)
  {
  }

  // The transfer has failed, or libcurl has given up and the thread is about to say so.
  predicate GoingWrong(s: State) { s.sh.failed || s.u == EndReady(false) || s.u == EndFail }

  // libcurl gives up, or the flush finds a file of another size.
  predicate GivesUp(s: State, t: State) {
    || (s.u.Transfer? && t.u == EndReady(false))
    || (s.w.FinishJoin? && s.w.why.Flush? && s.w.why.stat.Some? && s.w.why.stat.value != s.pos && t.w.Idle?)
  }

  lemma GoingWrongIff(s: State, e: Event)
    requires Inv(s) && Enabled(s, e)
    ensures GoingWrong(Step(s, e)) <==> GoingWrong(s) || GivesUp(s, Step(s, e))
  {
    hide Inv, GoingWrong, GivesUp, Step;
    if ThreadEvent(e) {
      ThreadGoesWrongIff(s, e);
    } else {
      NoThreadYet(s);
      WriterGoesWrongIff(s, e);
    }
  }

  lemma ThreadGoesWrongIff(s: State, e: Event)
    requires Enabled(s, e) && ThreadEvent(e)
    ensures GoingWrong(Step(s, e)) <==> GoingWrong(s) || GivesUp(s, Step(s, e))
  {
  }

  lemma NoThreadYet(s: State)
    requires Inv(s)
    ensures s.w.Idle? && !s.conn ==> s.u.NoThread?
  {
  }

  lemma WriterGoesWrongIff(s: State, e: Event)
    requires Enabled(s, e) && !ThreadEvent(e) && (s.w.Idle? && !s.conn ==> s.u.NoThread?)
    ensures GoingWrong(Step(s, e)) <==> GoingWrong(s) || GivesUp(s, Step(s, e))
  {
    hide EnterWrite, EnterFlush, StepWriter, WriterBlocked;
    match e {
      case CallWrite(d, off, may) => WriteGoesOn(s, d, off, may);
      case CallFlush(stat) => FlushGoesOn(s, stat);
      case WriterStep => StepGoesWrongIff(s);
    }
  }

  lemma WriteGoesOn(s: State, data: seq<Byte>, off: nat, mayStart: bool)
    requires !s.conn ==> s.u.NoThread?
    ensures GoingWrong(EnterWrite(s, data, off, mayStart)) <==> GoingWrong(s)
    ensures EnterWrite(s, data, off, mayStart).u == s.u || !s.u.Transfer?
  {
  }

  lemma FlushGoesOn(s: State, stat: Option<nat>)
    ensures (GoingWrong(EnterFlush(s, stat)) <==> GoingWrong(s)) && EnterFlush(s, stat).u == s.u
  {
  }

  lemma StepGoesWrongIff(s: State)
    requires !s.w.Idle? && !WriterBlocked(s)
    ensures GoingWrong(StepWriter(s)) <==> GoingWrong(s) || GivesUp(s, StepWriter(s))
  {
    hide StepWriter, WriterBlocked;
    if s.w.FinishJoin? {
      JoinFailsIff(s);
    } else {
      StepFailsNothing(s);
    }
  }

  lemma StepFailsNothing(s: State)
    requires !s.w.Idle? && !WriterBlocked(s) && !s.w.FinishJoin?
    ensures StepWriter(s).u == s.u && StepWriter(s).sh.failed == s.sh.failed
  {
  }

  lemma JoinFailsIff(s: State)
    requires s.w.FinishJoin? && !WriterBlocked(s)
    ensures s.u.Done? && StepWriter(s).u.NoThread? && StepWriter(s).w.Idle?
    ensures StepWriter(s).sh.failed <==>
              s.sh.failed || (s.w.why.Flush? && s.w.why.stat.Some? && s.w.why.stat.value != s.pos)
  {
  }

  /** When a transfer fails, over every run: exactly if libcurl has given up, or a flush has found a file of
      another size; and nothing undoes it. */
  lemma {:induction false} FailsIffGivenUp(run: seq<State>, n: nat)
    requires IsRun(run) && n < |run|
    ensures GoingWrong(run[n]) <==> exists k :: 0 <= k < n && GivesUp(run[k], run[k + 1])
    ensures run[n].u.NoThread? || run[n].u.Done? ==> (GoingWrong(run[n]) <==> run[n].sh.failed)
  {
    hide IsRun, Inv, GivesUp, GoingWrong;
    RunKeepsInv(run);
    if n > 0 {
      FailsIffGivenUp(run, n - 1);
      var e := StepTaken(run, n - 1);
      GoingWrongIff(run[n - 1], e);
      assert GivesUp(run[n - 1], run[n - 1 + 1]) <==> GivesUp(run[n - 1], Step(run[n - 1], e));
      SplitLast(run, n);
    } else {
      StartsWell(run);
    }
    assert run[n].u.NoThread? || run[n].u.Done? ==> (GoingWrong(run[n]) <==> run[n].sh.failed) by {
      NotGoingOn(run[n]);
    }
  }

  lemma NotGoingOn(s: State)
    ensures s.u.NoThread? || s.u.Done? ==> (GoingWrong(s) <==> s.sh.failed)
  {
  }

  lemma SplitLast(run: seq<State>, n: nat)
    requires 0 < n < |run|
    ensures (exists k :: 0 <= k < n && GivesUp(run[k], run[k + 1])) <==>
            (exists k :: 0 <= k < n - 1 && GivesUp(run[k], run[k + 1])) || GivesUp(run[n - 1], run[n])
  {
    hide GivesUp;
    assert run[n] == run[n - 1 + 1];
  }

  lemma {:induction false} StartsWell(run: seq<State>)
    requires IsRun(run)
    ensures run[0] == Init && !GoingWrong(run[0])
  {
    if |run| > 1 {
      StartsWell(run[..|run| - 1]);
    }
  }

  /** libcurl is given as much as it asks for, or all there is. */
  lemma GivesWhatIsAsked(u: Uploader, h: Shared)
    requires u.Copy?
    ensures var (u', h', out) := ThreadStep(u, h);
            out + h'.buf == h.buf && |out| == (if u.n < |h.buf| then u.n else |h.buf|)
    ensures var (u', h', out) := ThreadStep(u, h); (u'.PostAvailBack? || u'.PostNeed?) && u'.k == |out|
  {
  }

  /** Such a write, on a fresh handle: three bytes at offset 5. */
  lemma OutOfPlaceWriteIsDropped()
    ensures Reachable(Init) && EnterWrite(Init, [1, 2, 3], 5, true) == Init.(result := Count(3))
  {
    assert IsRun([Init]) && [Init][|[Init]| - 1] == Init;
  }

  /** A flush succeeds exactly if the transfer did and the server reports the position as the size;
      everything accepted is then at the transport.  The check fails only if the server reports
      something else than it was sent. */
  lemma FlushFindsEverything(s: State)
    requires Inv(s) && s.w.FinishJoin? && Enabled(s, WriterStep) && s.w.why.Flush?
    ensures var (t, stat) := (StepWriter(s), s.w.why.stat);
            && (t.result == Count(0) <==> !s.sh.failed && stat == Some(s.pos))
            && (t.result != Count(0) ==> t.result == Eio)
            && (!s.sh.failed ==> s.sent == s.accepted && |s.sent| == s.pos)
            && (t.sh.failed <==> s.sh.failed || (stat.Some? && stat.value != |s.sent|))
  {
  }

  // How many steps the thread can still make by itself.
  function Rank(u: Uploader, h: Shared): nat {
    20 * |h.buf| +
    match u
    case Transfer(stopped) => if stopped then 6 else 15
    case PostReady(_) => 14
    case SetReady(_) => 13
    case CheckDrained(_) => 12
    case PostWritten(_) => 11
    case WaitAvail(_) => 10
    case CheckEof(_) => 9
    case Copy(_) => 8
    case PostAvailBack(k) => if k == 0 then 7 else 17
    case PostNeed(k) => if k == 0 then 7 else 17
    case EndReady(_) => 5
    case EndFail => 4
    case EndPostNeed => 3
    case EndPostWritten => 2
    case _ => 0
  }

  /** Whatever libcurl does, the thread gets closer to the end: by itself it makes at most
      `Rank` steps. */
  lemma ThreadGetsOn(u: Uploader, h: Shared, e: Event)
    requires Asks(u) && ThreadEnabled(u, h, e)
    ensures var (u', h', _) := ThreadMove(u, h, e); Rank(u', h') < Rank(u, h)
  {
    if u.Copy? && h.buf != [] {
      ThreadKeepsOrder(u, h, e);
    }
  }

  /** The writer is waiting for something that cannot come: the thread has ended without an
      error, because an empty write made `write_data_bg` return 0. */
  predicate Stuck(s: State) {
    s.emptied && s.u.Done? && !s.sh.failed &&
    ((s.w.WaitWritten? && s.sh.written == 0) || (s.w.FinishWaitNeed? && s.sh.need == 0))
  }

  // The thread, or libcurl inside it, has a step to make.
  predicate ThreadCanMove(s: State) {
    ThreadEnabled(s.u, s.sh, Ask(1)) || ThreadEnabled(s.u, s.sh, End(false)) || ThreadEnabled(s.u, s.sh, UploaderStep)
  }

  /** No deadlock: whenever `ftpfs_write` or `ftpfs_flush` waits, the upload thread can move,
      wherever the transfer may have failed, except after an empty write, and then neither
      thread can ever move again. */
  lemma BlockedOnlyIfStuck(s: State)
    requires Inv(s) && !s.w.Idle? && WriterBlocked(s)
    ensures Stuck(s) <==> !ThreadCanMove(s)
    ensures Stuck(s) ==> forall e :: !Enabled(s, e)
  {
  }

  ghost predicate ThreadRun(run: seq<State>) {
    |run| > 0 &&
    (|run| > 1 ==>
      (exists e :: ThreadEvent(e) && Enabled(run[0], e) && run[1] == Step(run[0], e)) && ThreadRun(run[1..]))
  }

  /** With no empty write in the session the writer is released after at most `Rank` steps of
      the thread: every run of thread steps is that short, and one that cannot be continued
      leaves the writer free to go on. */
  lemma {:induction false} WriterIsReleased(run: seq<State>)
    requires ThreadRun(run) && Inv(run[0]) && !run[0].w.Idle? && !run[0].emptied
    ensures |run| <= Rank(run[0].u, run[0].sh) + 1
    ensures var last := run[|run| - 1]; !ThreadCanMove(last) ==> !WriterBlocked(last)
    decreases |run|
  {
    if |run| == 1 {
      if WriterBlocked(run[0]) {
        BlockedOnlyIfStuck(run[0]);
      }
    } else {
      var e :| ThreadEvent(e) && Enabled(run[0], e) && run[1] == Step(run[0], e);
      StepKeepsInv(run[0], e);
      ThreadGetsOn(run[0].u, run[0].sh, e);
      hide Inv, ThreadMove, Rank, ThreadCanMove, WriterBlocked, ThreadEnabled;
      WriterIsReleased(run[1..]);
    }
  }

  // The writer's own steps, as long as it is not blocked.
  function WriterRuns(s: State, n: nat): State
    decreases n
  {
    if n == 0 || s.w.Idle? || WriterBlocked(s) then s else WriterRuns(StepWriter(s), n - 1)
  }

  /** An empty write leaves the handle so that any further write blocks for good, be it at the
      right offset or not. */
  lemma WriteAfterEmptyHangs(s: State, data: seq<Byte>, off: nat, mayStart: bool)
    requires Inv(s) && s.w.Idle? && s.conn && s.emptied && !s.sh.failed
    ensures Stuck(WriterRuns(EnterWrite(s, data, off, mayStart), 5))
  {
    var s1 := EnterWrite(s, data, off, mayStart);
    var s2 := StepWriter(s1);
    var s3 := StepWriter(s2);
    var s4 := StepWriter(s3);
    if off == s.pos {
      assert WriterRuns(s4, 2) == s4;
      assert WriterRuns(s3, 3) == s4;
    } else {
      var s5 := StepWriter(s4);
      assert WriterRuns(s5, 1) == s5;
      assert WriterRuns(s4, 2) == s5;
      assert WriterRuns(s3, 3) == s5;
    }
    assert WriterRuns(s1, 5) == WriterRuns(s2, 4) == WriterRuns(s3, 3);
  }

  // ---------------------------------------------------------------------------------
  // Which calls may hang
  // ---------------------------------------------------------------------------------

  // A call under way that will not wait for an upload that an earlier empty write has ended.
  predicate Safe(s: State) {
    var (u, h) := (s.u, s.sh);
    match s.w
    case WaitNeed(_, _) => !s.emptied
    case Owner(_, _) => !s.emptied
    case PostAvailBad => !s.emptied
    case PostAvail(_) => Starting(u, h, 0)
    case WaitWritten(_) => if s.emptied then Emptying(u, h) else Draining(u, h)
    case FinishCheck(_) => Resting(s) || (Leaving(u, h) && WillNeed(u, h))
    case FinishWaitNeed(_) =>
      (Quiet(u, h, 1, false) && !s.emptied) || (Spent(u, h, 1) && s.emptied && h.buf == []) ||
      (Leaving(u, h) && WillNeed(u, h))
    case _ => true
  }

  lemma SafeIsNotStuck(s: State)
    requires Inv(s) && Safe(s)
    ensures !Stuck(s)
  {
  }

  lemma WriterStaysSafe(s: State)
    requires Inv(s) && Safe(s) && Enabled(s, WriterStep)
    ensures Safe(StepWriter(s))
  {
  }

  lemma ThreadStaysSafe(s: State, e: Event)
    requires Inv(s) && Safe(s) && s.conn && ThreadEvent(e) && Enabled(s, e)
    ensures Safe(Step(s, e))
  {
    var (u, h) := (s.u, s.sh);
    hide ThreadMove, ThreadEnabled, Asks;
    if Quiet(u, h, 0, false) || Quiet(u, h, 1, false) || Dead(u, h) || u.Done? {
      WaitingThread(u, h, e);
      return;
    }
    hide Launching, Starting, Draining, Emptying, Leaving, WillNeed, Quiet;
    if s.w.PostAvail? {
      StartingKept(u, h, e, 0);
    } else if s.w.WaitWritten? {
      if s.emptied { EmptyingKept(u, h, e); } else { DrainingKept(u, h, e); }
    } else if s.w.FinishCheck? || s.w.FinishWaitNeed? {
      LeavingKept(u, h, e);
    }
  }

  lemma StaysSafe(s: State, e: Event)
    requires Inv(s) && Safe(s) && !s.w.Idle? && Enabled(s, e)
    ensures Safe(Step(s, e))
  {
    hide Safe, StepWriter, ThreadMove, ThreadEnabled, Agree;
    if e.WriterStep? {
      WriterStaysSafe(s);
    } else {
      ThreadStaysSafe(s, e);
    }
  }

  lemma WriteEntersSafe(s: State, data: seq<Byte>, off: nat, mayStart: bool)
    requires Inv(s) && s.w.Idle? && !(s.conn && s.emptied && !s.sh.failed)
    ensures Safe(EnterWrite(s, data, off, mayStart))
  {
  }

  lemma FlushEntersSafe(s: State, stat: Option<nat>)
    requires Inv(s) && s.w.Idle?
    ensures Safe(EnterFlush(s, stat))
  {
  }

  // A run of one call, from its entry up to its return at the most, with any steps of the thread.
  ghost predicate CallRun(run: seq<State>) {
    |run| > 0 && (|run| > 1 ==> !run[0].w.Idle? && Leads(run[0], run[1]) && CallRun(run[1..]))
  }

  ghost predicate MayHang(s: State) { exists run :: CallRun(run) && run[0] == s && Stuck(run[|run| - 1]) }

  lemma {:induction false} SafeRun(run: seq<State>)
    requires CallRun(run) && Inv(run[0]) && Safe(run[0])
    ensures !Stuck(run[|run| - 1])
  {
    hide Inv, Safe, Stuck, Step, Enabled;
    if |run| == 1 {
      SafeIsNotStuck(run[0]);
    } else {
      var e :| Enabled(run[0], e) && run[1] == Step(run[0], e);
      StepKeepsInv(run[0], e);
      StaysSafe(run[0], e);
      SafeRun(run[1..]);
    }
  }

  lemma {:induction false} WriterRunIs(s: State, n: nat) returns (run: seq<State>)
    ensures CallRun(run) && run[0] == s && run[|run| - 1] == WriterRuns(s, n)
    decreases n
  {
    if n == 0 || s.w.Idle? || WriterBlocked(s) {
      run := [s];
    } else {
      var t := StepWriter(s);
      hide StepWriter;
      var rest := WriterRunIs(t, n - 1);
      run := [s] + rest;
      assert Enabled(s, WriterStep) && Step(s, WriterStep) == t;
      assert run[1..] == rest;
    }
  }

  /** A write may hang if and only if, when it is called, there is a connection whose upload an
      empty write has ended and no error has been recorded. */
  lemma WriteMayHangIff(s: State, data: seq<Byte>, off: nat, mayStart: bool)
    requires Inv(s) && s.w.Idle?
    ensures MayHang(EnterWrite(s, data, off, mayStart)) <==> s.conn && s.emptied && !s.sh.failed
  {
    var entry := EnterWrite(s, data, off, mayStart);
    CallKeepsInv(s, CallWrite(data, off, mayStart));
    hide EnterWrite, Inv, Safe, Stuck, WriterRuns;
    if s.conn && s.emptied && !s.sh.failed {
      WriteAfterEmptyHangs(s, data, off, mayStart);
      var run := WriterRunIs(entry, 5);
    } else {
      WriteEntersSafe(s, data, off, mayStart);
      forall run | CallRun(run) && run[0] == entry ensures !Stuck(run[|run| - 1]) {
        SafeRun(run);
      }
    }
  }

  /** A flush, and so a close, never hangs. */
  lemma FlushNeverHangs(s: State, stat: Option<nat>)
    requires Inv(s) && s.w.Idle?
    ensures !MayHang(EnterFlush(s, stat))
  {
    var entry := EnterFlush(s, stat);
    CallKeepsInv(s, CallFlush(stat));
    FlushEntersSafe(s, stat);
    hide EnterFlush, Inv, Safe, Stuck;
    forall run | CallRun(run) && run[0] == entry ensures !Stuck(run[|run| - 1]) {
      SafeRun(run);
    }
  }

  // How many steps the writer still makes; before it hands over its bytes, with what they cost the
  // thread.
  function Ahead(w: Writer): nat {
    match w
    case Idle => 0
    case WaitReady(d, _) => 10 + 20 * |d|
    case PostNeedFirst(d, _) => 9 + 20 * |d|
    case WaitNeed(d, _) => 8 + 20 * |d|
    case Owner(d, _) => 7 + 20 * |d|
    case PostAvail(_) => 4
    case WaitWritten(_) => 3
    case ClearFlag(_) => 2
    case CheckFail(_) => 1
    case PostAvailBad => 6
    case FinishCheck(_) => 5
    case FinishWaitNeed(_) => 4
    case FinishPost(_) => 3
    case FinishEof(_) => 2
    case FinishJoin(_) => 1
  }

  function Left(s: State): nat { Ahead(s.w) + Rank(s.u, s.sh) }

  lemma GetsOn(s: State, e: Event)
    requires Inv(s) && !s.w.Idle? && Enabled(s, e)
    ensures Left(Step(s, e)) < Left(s)
  {
    if e.WriterStep? {
      WriterGetsOn(s);
    } else {
      hide Agree, InOrder;
      ThreadGetsOn(s.u, s.sh, e);
    }
  }

  lemma WriterGetsOn(s: State)
    requires Enabled(s, WriterStep)
    ensures Left(StepWriter(s)) < Left(s)
  {
    if s.w.Owner? {
      OwnerGetsOn(s);
    } else if s.w.FinishJoin? {
      JoinGetsOn(s);
    } else {
      hide StepWriter, Rank, Ahead;
      OnlyAheadFalls(s);
      SameRank(s.u, s.sh, StepWriter(s).sh);
    }
  }

  lemma OnlyAheadFalls(s: State)
    requires Enabled(s, WriterStep) && !s.w.Owner? && !s.w.FinishJoin?
    ensures var t := StepWriter(s); Ahead(t.w) < Ahead(s.w) && t.u == s.u && t.sh.buf == s.sh.buf
  {
  }

  lemma SameRank(u: Uploader, h: Shared, h': Shared)
    requires h'.buf == h.buf
    ensures Rank(u, h') == Rank(u, h)
  {
  }

  lemma OwnerGetsOn(s: State)
    requires s.w.Owner?
    ensures Left(StepWriter(s)) < Left(s)
  {
    assert |s.sh.buf + s.w.data| == |s.sh.buf| + |s.w.data|;
  }

  lemma JoinGetsOn(s: State)
    requires Enabled(s, WriterStep) && s.w.FinishJoin?
    ensures Left(StepWriter(s)) < Left(s)
  {
  }

  // On the way into waiting for an upload that has ended.
  predicate Doomed(s: State) {
    s.emptied && s.u.Done? && !s.sh.failed && s.sh.written == 0 &&
    match s.w
    case WaitNeed(_, _) => s.sh.need == 1
    case Owner(_, _) => s.sh.need == 0
    case PostAvail(_) => s.sh.need == 0
    case WaitWritten(_) => true
    case PostAvailBad => s.sh.need == 0
    case FinishCheck(_) => s.sh.need == 0
    case FinishWaitNeed(_) => s.sh.need == 0
    case _ => false
  }

  lemma StaysDoomed(s: State, e: Event)
    requires Doomed(s) && Enabled(s, e)
    ensures Doomed(Step(s, e))
  {
  }

  /** ... and then it does: it never returns, and where it cannot go on it is stuck. */
  lemma WriteHangs(s: State, data: seq<Byte>, off: nat, mayStart: bool, run: seq<State>)
    requires Inv(s) && s.w.Idle? && s.conn && s.emptied && !s.sh.failed
    requires CallRun(run) && run[0] == EnterWrite(s, data, off, mayStart)
    ensures var last := run[|run| - 1]; !last.w.Idle? && (Stuck(last) || exists e :: Enabled(last, e))
    ensures |run| <= Left(run[0]) + 1
  {
    CallKeepsInv(s, CallWrite(data, off, mayStart));
    assert Doomed(run[0]);
    hide Inv, EnterWrite, Doomed, Left, Stuck, Enabled;
    DoomedRun(run);
    CallEnds(run);
  }

  lemma {:induction false} DoomedRun(run: seq<State>)
    requires CallRun(run) && Doomed(run[0])
    ensures !run[|run| - 1].w.Idle?
  {
    if |run| > 1 {
      hide Step, Enabled, Doomed;
      var e :| Enabled(run[0], e) && run[1] == Step(run[0], e);
      StaysDoomed(run[0], e);
      DoomedRun(run[1..]);
    }
  }

  /** Every call comes to an end: whatever the two threads do, it makes at most `Left` steps, and where
      it cannot go on it has returned, or it is stuck. */
  lemma {:induction false} CallEnds(run: seq<State>)
    requires CallRun(run) && Inv(run[0])
    ensures |run| <= Left(run[0]) + 1
    ensures var last := run[|run| - 1]; last.w.Idle? || Stuck(last) || exists e :: Enabled(last, e)
  {
    hide Inv, Stuck, Left, Step, Enabled;
    if |run| == 1 {
      if !run[0].w.Idle? && !Stuck(run[0]) {
        GoesOn(run[0]);
      }
    } else {
      var e :| Enabled(run[0], e) && run[1] == Step(run[0], e);
      StepKeepsInv(run[0], e);
      GetsOn(run[0], e);
      CallEnds(run[1..]);
    }
  }

  lemma GoesOn(s: State)
    requires Inv(s) && !s.w.Idle? && !Stuck(s)
    ensures exists e :: Enabled(s, e)
  {
    hide Inv, Stuck, ThreadEnabled, WriterBlocked;
    if WriterBlocked(s) {
      BlockedOnlyIfStuck(s);
      assert Enabled(s, Ask(1)) || Enabled(s, End(false)) || Enabled(s, UploaderStep);
    } else {
      assert Enabled(s, WriterStep);
    }
  }

  ghost predicate Reachable(s: State) {
    exists run :: IsRun(run) && run[|run| - 1] == s
  }

  lemma ReachableStep(s: State, e: Event)
    requires Reachable(s) && Enabled(s, e)
    ensures Reachable(Step(s, e))
  {
    hide Step, Enabled;
    var run :| IsRun(run) && run[|run| - 1] == s;
    var longer := run + [Step(s, e)];
    assert longer[..|run|] == run && longer[|run| - 1] == s;
    assert IsRun(longer) && longer[|longer| - 1] == Step(s, e);
  }

  const Ready := Fresh.(isReady := true)
  const Spared := Ready.(writtenFlag := true, need := 1)

  lemma ReachableTo(s: State, e: Event, t: State)
    requires Reachable(s) && Enabled(s, e) && Step(s, e) == t
    ensures Reachable(t)
  {
    ReachableStep(s, e);
  }

  lemma EmptyWriteStarts()
    ensures Reachable(State(PostNeedFirst([], 0), CheckDrained(1), Ready, true, 0, Unknown, [], [], false))
  {
    assert IsRun([Init]) && [Init][|[Init]| - 1] == Init;
    hide Reachable;
    var s1 := State(WaitReady([], 0), Transfer(false), Fresh, true, 0, Unknown, [], [], false);
    ReachableTo(Init, CallWrite([], 0, true), s1);
    var s2 := State(WaitReady([], 0), PostReady(1), Fresh, true, 0, Unknown, [], [], false);
    ReachableTo(s1, Ask(1), s2);
    var s3 := State(WaitReady([], 0), SetReady(1), Fresh.(ready := 1), true, 0, Unknown, [], [], false);
    ReachableTo(s2, UploaderStep, s3);
    var s4 := State(WaitReady([], 0), CheckDrained(1), Ready.(ready := 1), true, 0, Unknown, [], [], false);
    ReachableTo(s3, UploaderStep, s4);
    var s5 := State(PostNeedFirst([], 0), CheckDrained(1), Ready, true, 0, Unknown, [], [], false);
    ReachableTo(s4, WriterStep, s5);
  }

  lemma EmptyWriteIsAccepted()
    ensures Reachable(State(WaitWritten(0), WaitAvail(1), Ready.(avail := 1), true, 0, Unknown, [], [], true))
  {
    EmptyWriteStarts();
    hide Reachable;
    var s0 := State(PostNeedFirst([], 0), CheckDrained(1), Ready, true, 0, Unknown, [], [], false);
    var s1 := State(WaitNeed([], 0), CheckDrained(1), Ready.(need := 1), true, 0, Unknown, [], [], false);
    ReachableTo(s0, WriterStep, s1);
    var s2 := State(Owner([], 0), CheckDrained(1), Ready, true, 0, Unknown, [], [], false);
    ReachableTo(s1, WriterStep, s2);
    var s3 := State(PostAvail(0), CheckDrained(1), Ready, true, 0, Unknown, [], [], true);
    ReachableTo(s2, WriterStep, s3);
    var s4 := State(WaitWritten(0), CheckDrained(1), Ready.(avail := 1), true, 0, Unknown, [], [], true);
    ReachableTo(s3, WriterStep, s4);
    var s5 := State(WaitWritten(0), WaitAvail(1), Ready.(avail := 1), true, 0, Unknown, [], [], true);
    ReachableTo(s4, UploaderStep, s5);
  }

  lemma EmptyWriteIsHandedOver()
    ensures Reachable(State(WaitWritten(0), EndReady(true), Spared, true, 0, Unknown, [], [], true))
  {
    EmptyWriteIsAccepted();
    hide Reachable;
    var s0 := State(WaitWritten(0), WaitAvail(1), Ready.(avail := 1), true, 0, Unknown, [], [], true);
    var s1 := State(WaitWritten(0), CheckEof(1), Ready, true, 0, Unknown, [], [], true);
    ReachableTo(s0, UploaderStep, s1);
    var s2 := State(WaitWritten(0), Copy(1), Ready, true, 0, Unknown, [], [], true);
    ReachableTo(s1, UploaderStep, s2);
    var s3 := State(WaitWritten(0), PostNeed(0), Ready.(writtenFlag := true), true, 0, Unknown, [], [], true);
    ReachableTo(s2, UploaderStep, s3);
    var s4 := State(WaitWritten(0), Transfer(true), Spared, true, 0, Unknown, [], [], true);
    ReachableTo(s3, UploaderStep, s4);
    var s5 := State(WaitWritten(0), EndReady(true), Spared, true, 0, Unknown, [], [], true);
    ReachableTo(s4, End(true), s5);
  }

  /** The handle of `WriteAfterEmptyHangs` is reachable: one empty write to a new file. */
  lemma EmptyWriteEndsTheUpload()
    ensures Reachable(State(Idle, Done, Ready.(need := 1), true, 0, Count(0), [], [], true))
  {
    EmptyWriteIsHandedOver();
    hide Reachable;
    var s0 := State(WaitWritten(0), EndReady(true), Spared, true, 0, Unknown, [], [], true);
    var s1 := State(WaitWritten(0), EndPostWritten, Spared, true, 0, Unknown, [], [], true);
    ReachableTo(s0, UploaderStep, s1);
    var s2 := State(WaitWritten(0), Done, Spared.(written := 1), true, 0, Unknown, [], [], true);
    ReachableTo(s1, UploaderStep, s2);
    var s3 := State(ClearFlag(0), Done, Spared, true, 0, Unknown, [], [], true);
    ReachableTo(s2, WriterStep, s3);
    var s4 := State(CheckFail(0), Done, Ready.(need := 1), true, 0, Unknown, [], [], true);
    ReachableTo(s3, WriterStep, s4);
    var s5 := State(Idle, Done, Ready.(need := 1), true, 0, Count(0), [], [], true);
    ReachableTo(s4, WriterStep, s5);
  }

  /** The two threads do meet at the buffer: in the first turn of an upload. */
  lemma ThreadsMeet()
    ensures exists s :: Reachable(s) && WriterOwns(s.w) && ThreadTouches(s.u)
  {
    EmptyWriteStarts();
    hide Reachable;
    var s0 := State(PostNeedFirst([], 0), CheckDrained(1), Ready, true, 0, Unknown, [], [], false);
    var s1 := State(WaitNeed([], 0), CheckDrained(1), Ready.(need := 1), true, 0, Unknown, [], [], false);
    ReachableTo(s0, WriterStep, s1);
    var s2 := State(Owner([], 0), CheckDrained(1), Ready, true, 0, Unknown, [], [], false);
    ReachableTo(s1, WriterStep, s2);
    assert WriterOwns(s2.w) && ThreadTouches(s2.u);
  }

  /** A write that succeeds: three bytes to a new file, which libcurl takes at once. */
  lemma WriteSucceeds()
    ensures Reachable(State(Idle, WaitAvail(9), Ready.(need := 1), true, 3, Count(3), [1, 2, 3], [1, 2, 3], false))
  {
    WriteIsTold();
    hide Reachable;
    var (d, h) := ([1, 2, 3], Ready.(writtenFlag := true, need := 1));
    var s0 := State(WaitWritten(3), WaitAvail(9), h.(written := 1), true, 3, Unknown, d, d, false);
    var s1 := State(ClearFlag(3), WaitAvail(9), h, true, 3, Unknown, d, d, false);
    ReachableTo(s0, WriterStep, s1);
    var s2 := State(CheckFail(3), WaitAvail(9), Ready.(need := 1), true, 3, Unknown, d, d, false);
    ReachableTo(s1, WriterStep, s2);
    var s3 := State(Idle, WaitAvail(9), Ready.(need := 1), true, 3, Count(3), d, d, false);
    ReachableTo(s2, WriterStep, s3);
  }

  /** And a flush that succeeds behind it, the server reporting three bytes. */
  lemma FlushSucceeds()
    ensures Reachable(State(Idle, NoThread, Ready.(eof := true, written := 1), false, 3, Count(0), [1, 2, 3], [1, 2, 3],
                            false))
  {
    FlushIsTold();
    hide Reachable;
    var (d, h) := ([1, 2, 3], Ready.(eof := true));
    var w := FinishJoin(Flush(Some(3)));
    var s0 := State(w, Transfer(true), h, true, 3, Unknown, d, d, false);
    var s1 := State(w, EndReady(true), h, true, 3, Unknown, d, d, false);
    ReachableTo(s0, End(true), s1);
    var s2 := State(w, EndPostWritten, h, true, 3, Unknown, d, d, false);
    ReachableTo(s1, UploaderStep, s2);
    var s3 := State(w, Done, h.(written := 1), true, 3, Unknown, d, d, false);
    ReachableTo(s2, UploaderStep, s3);
    var s4 := State(Idle, NoThread, h.(written := 1), false, 3, Count(0), d, d, false);
    ReachableTo(s3, WriterStep, s4);
  }

  lemma FlushIsTold()
    ensures var (d, h) := ([1, 2, 3], Ready.(eof := true));
            Reachable(State(FinishJoin(Flush(Some(3))), Transfer(true), h, true, 3, Unknown, d, d, false))
  {
    FlushIsHandedIn();
    hide Reachable;
    var (d, e, h) := ([1, 2, 3], Flush(Some(3)), Ready.(eof := true));
    var s3 := State(FinishPost(e), WaitAvail(9), Ready, true, 3, Unknown, d, d, false);
    var s4 := State(FinishEof(e), WaitAvail(9), Ready.(avail := 1), true, 3, Unknown, d, d, false);
    ReachableTo(s3, WriterStep, s4);
    var s5 := State(FinishJoin(e), WaitAvail(9), h.(avail := 1), true, 3, Unknown, d, d, false);
    ReachableTo(s4, WriterStep, s5);
    var s6 := State(FinishJoin(e), CheckEof(9), h, true, 3, Unknown, d, d, false);
    ReachableTo(s5, UploaderStep, s6);
    var s7 := State(FinishJoin(e), Transfer(true), h, true, 3, Unknown, d, d, false);
    ReachableTo(s6, UploaderStep, s7);
  }

  lemma FlushIsHandedIn()
    ensures var d := [1, 2, 3];
            Reachable(State(FinishPost(Flush(Some(3))), WaitAvail(9), Ready, true, 3, Unknown, d, d, false))
  {
    WriteSucceeds();
    hide Reachable;
    var (d, e) := ([1, 2, 3], Flush(Some(3)));
    var s0 := State(Idle, WaitAvail(9), Ready.(need := 1), true, 3, Count(3), d, d, false);
    var s1 := State(FinishCheck(e), WaitAvail(9), Ready.(need := 1), true, 3, Unknown, d, d, false);
    ReachableTo(s0, CallFlush(Some(3)), s1);
    var s2 := State(FinishWaitNeed(e), WaitAvail(9), Ready.(need := 1), true, 3, Unknown, d, d, false);
    ReachableTo(s1, WriterStep, s2);
    var s3 := State(FinishPost(e), WaitAvail(9), Ready, true, 3, Unknown, d, d, false);
    ReachableTo(s2, WriterStep, s3);
  }

  lemma WriteIsTold()
    ensures Reachable(State(WaitWritten(3), WaitAvail(9), Ready.(writtenFlag := true, need := 1, written := 1), true, 3,
                            Unknown, [1, 2, 3], [1, 2, 3], false))
  {
    WriteIsTaken();
    hide Reachable;
    var (d, h) := ([1, 2, 3], Ready.(writtenFlag := true, need := 1));
    var s0 := State(WaitWritten(3), Transfer(false), h, true, 3, Unknown, d, d, false);
    var s1 := State(WaitWritten(3), PostReady(9), h, true, 3, Unknown, d, d, false);
    ReachableTo(s0, Ask(9), s1);
    var s2 := State(WaitWritten(3), CheckDrained(9), h, true, 3, Unknown, d, d, false);
    ReachableTo(s1, UploaderStep, s2);
    var s3 := State(WaitWritten(3), PostWritten(9), h, true, 3, Unknown, d, d, false);
    ReachableTo(s2, UploaderStep, s3);
    var s4 := State(WaitWritten(3), WaitAvail(9), h.(written := 1), true, 3, Unknown, d, d, false);
    ReachableTo(s3, UploaderStep, s4);
  }

  lemma WriteIsTaken()
    ensures Reachable(State(WaitWritten(3), Transfer(false), Ready.(writtenFlag := true, need := 1), true, 3,
                            Unknown, [1, 2, 3], [1, 2, 3], false))
  {
    WriteIsHandedIn();
    hide Reachable;
    var (d, h) := ([1, 2, 3], Ready.(buf := [1, 2, 3]));
    var s0 := State(WaitWritten(3), WaitAvail(9), h.(avail := 1), true, 3, Unknown, d, [], false);
    var s1 := State(WaitWritten(3), CheckEof(9), h, true, 3, Unknown, d, [], false);
    ReachableTo(s0, UploaderStep, s1);
    var s2 := State(WaitWritten(3), Copy(9), h, true, 3, Unknown, d, [], false);
    ReachableTo(s1, UploaderStep, s2);
    var s3 := State(WaitWritten(3), PostNeed(3), Ready.(writtenFlag := true), true, 3, Unknown, d, d, false);
    assert [] + h.buf[..3] == d;
    ReachableTo(s2, UploaderStep, s3);
    var h4 := Ready.(writtenFlag := true, need := 1);
    var s4 := State(WaitWritten(3), Transfer(false), h4, true, 3, Unknown, d, d, false);
    ReachableTo(s3, UploaderStep, s4);
  }

  lemma WriteIsHandedIn()
    ensures Reachable(State(WaitWritten(3), WaitAvail(9), Ready.(buf := [1, 2, 3], avail := 1), true, 3,
                            Unknown, [1, 2, 3], [], false))
  {
    WriteStarts();
    hide Reachable;
    var (d, h) := ([1, 2, 3], Ready.(buf := [1, 2, 3]));
    var s0 := State(WaitNeed(d, 0), CheckDrained(9), Ready.(need := 1), true, 0, Unknown, [], [], false);
    var s1 := State(Owner(d, 0), CheckDrained(9), Ready, true, 0, Unknown, [], [], false);
    ReachableTo(s0, WriterStep, s1);
    var s2 := State(PostAvail(3), CheckDrained(9), h, true, 3, Unknown, d, [], false);
    assert [] + d == d;
    ReachableTo(s1, WriterStep, s2);
    var s3 := State(WaitWritten(3), CheckDrained(9), h.(avail := 1), true, 3, Unknown, d, [], false);
    ReachableTo(s2, WriterStep, s3);
    var s4 := State(WaitWritten(3), WaitAvail(9), h.(avail := 1), true, 3, Unknown, d, [], false);
    ReachableTo(s3, UploaderStep, s4);
  }

  lemma WriteStarts()
    ensures var h := Ready.(need := 1);
            Reachable(State(WaitNeed([1, 2, 3], 0), CheckDrained(9), h, true, 0, Unknown, [], [], false))
  {
    assert IsRun([Init]) && [Init][|[Init]| - 1] == Init;
    hide Reachable;
    var d := [1, 2, 3];
    var s1 := State(WaitReady(d, 0), Transfer(false), Fresh, true, 0, Unknown, [], [], false);
    ReachableTo(Init, CallWrite(d, 0, true), s1);
    var s2 := State(WaitReady(d, 0), PostReady(9), Fresh, true, 0, Unknown, [], [], false);
    ReachableTo(s1, Ask(9), s2);
    var s3 := State(WaitReady(d, 0), SetReady(9), Fresh.(ready := 1), true, 0, Unknown, [], [], false);
    ReachableTo(s2, UploaderStep, s3);
    var s4 := State(WaitReady(d, 0), CheckDrained(9), Ready.(ready := 1), true, 0, Unknown, [], [], false);
    ReachableTo(s3, UploaderStep, s4);
    var s5 := State(PostNeedFirst(d, 0), CheckDrained(9), Ready, true, 0, Unknown, [], [], false);
    ReachableTo(s4, WriterStep, s5);
    var s6 := State(WaitNeed(d, 0), CheckDrained(9), Ready.(need := 1), true, 0, Unknown, [], [], false);
    ReachableTo(s5, WriterStep, s6);
  }
}
