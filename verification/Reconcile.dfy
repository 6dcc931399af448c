/**
 Strided I/O: pairing a vector of memory segments with a vector of file extents
 (src/reconcile.c).  A driver is any function that, given its own state and one
 simple request (memory address, byte count, file offset), answers with a new state
 and a result that never exceeds the count: a short transfer, zero or an error
 is possible at every call.
 */
module Reconcile {
  import opened Basics

  const EINVAL := 22

  datatype Segment = Segment(base: int, len: nat)
  datatype Extent = Extent(off: int, len: nat)

  // One request to the driver and what it answered; the requests made so far.
  datatype Call = Call(base: int, n: nat, off: int, cc: int)
  datatype Trace = Start | Then(before: Trace, call: Call)

  type Driver<!S> = (S, int, nat, int) -> (S, int)

  ghost predicate Honest<S(!new)>(f: Driver<S>) {
    forall s: S, base: int, n: nat, off: int :: f(s, base, n, off).1 <= n
  }

  // ---------------------------------------------------------------------------------
  // The byte-by-byte reading of the vectors
  // ---------------------------------------------------------------------------------

  function Range(start: int, len: nat): (r: seq<int>)
    ensures |r| == len
    decreases len
  {
    if len == 0 then [] else [start] + Range(start + 1, len - 1)
  }

  // The memory addresses named by a segment vector, in order.
  function MemBytes(iov: seq<Segment>): seq<int> {
    if iov == [] then [] else Range(iov[0].base, iov[0].len) + MemBytes(iov[1..])
  }

  // The file offsets named by an extent vector, in order.
  function FileBytes(xtv: seq<Extent>): seq<int> {
    if xtv == [] then [] else Range(xtv[0].off, xtv[0].len) + FileBytes(xtv[1..])
  }

  function Min(a: nat, b: nat): nat { if a < b then a else b }

  function Count(c: Call): nat { if c.cc > 0 then c.cc else 0 }

  // The addresses, and the offsets, of the bytes that a sequence of calls moved, in order:
  // the i-th address was paired with the i-th offset.
  function MemMoved(t: Trace): (r: seq<int>) {
    match t
    case Start => []
    case Then(t', c) => MemMoved(t') + Range(c.base, Count(c))
  }

  function FileMoved(t: Trace): (r: seq<int>)
    ensures |r| == |MemMoved(t)|
  {
    match t
    case Start => []
    case Then(t', c) => FileMoved(t') + Range(c.off, Count(c))
  }

  // The state a driver reaches by answering the calls of a trace.
  function After<S>(f: Driver<S>, s: S, t: Trace): S {
    match t
    case Start => s
    case Then(t', c) => f(After(f, s, t'), c.base, c.n, c.off).0
  }

  // Every answer in the trace is the one the driver gives in the state it then has.
  ghost predicate Genuine<S>(f: Driver<S>, s: S, t: Trace) {
    match t
    case Start => true
    case Then(t', c) =>
      Genuine(f, s, t') && c.n > 0 && c.cc == f(After(f, s, t'), c.base, c.n, c.off).1
  }

  predicate EndsShort(t: Trace) {
    t.Then? && t.call.cc < t.call.n
  }

  // The last call stopped in front of file offset `at`.
  predicate RefusedAt(t: Trace, at: int) {
    t.Then? && t.call.off + Count(t.call) == at
  }

  lemma {:induction false} RangeSplit(start: int, m: nat, n: nat)
    ensures Range(start, m + n) == Range(start, m) + Range(start + m, n)
    decreases m
  {
    if m != 0 {
      RangeSplit(start + 1, m - 1, n);
    }
  }

  lemma {:induction false} MemAppend(a: seq<Segment>, b: seq<Segment>)
    ensures MemBytes(a + b) == MemBytes(a) + MemBytes(b)
  {
    if a == [] {
      assert a + b == b;
    } else {
      MemAppend(a[1..], b);
      assert (a + b)[1..] == a[1..] + b;
      Assoc(Range(a[0].base, a[0].len), MemBytes(a[1..]), MemBytes(b));
    }
  }

  lemma {:induction false} FileAppend(a: seq<Extent>, b: seq<Extent>)
    ensures FileBytes(a + b) == FileBytes(a) + FileBytes(b)
  {
    if a == [] {
      assert a + b == b;
    } else {
      FileAppend(a[1..], b);
      assert (a + b)[1..] == a[1..] + b;
      Assoc(Range(a[0].off, a[0].len), FileBytes(a[1..]), FileBytes(b));
    }
  }

  // ---------------------------------------------------------------------------------
  // One contiguous piece of the file, many segments
  // ---------------------------------------------------------------------------------

  function Clipped(iov: seq<Segment>, limit: nat): nat {
    Min(limit, |MemBytes(iov)|)
  }

  // The overflow-checking first pass: how much the limit lets through.
  method ClippedTotal(iov: seq<Segment>, limit: nat) returns (total: nat)
    ensures total == Clipped(iov, limit)
  {
    total := 0;
    var n, i: nat := limit, 0;
    assert iov[0..] == iov;
    while n > 0 && i < |iov|
      invariant 0 <= i <= |iov| && n + total == limit && n >= 0
      invariant total + Clipped(iov[i..], n) == Clipped(iov, limit)
    {
      assert iov[i..][1..] == iov[i + 1..];
      var cc := if iov[i].len < n then iov[i].len else n;
      n, total, i := n - cc, total + cc, i + 1;
    }
  }

  /** `t` continues the requests of `past` and has moved the first `k` bytes of `mem`, in
      order, to or from the file at `off` onwards; `s` is the driver's state after it. */
  ghost predicate Moves<S>(f: Driver<S>, init: S, past: Trace, t: Trace, s: S, mem: seq<int>, off: int, k: nat) {
    && Genuine(f, init, t) && s == After(f, init, t)
    && k <= |mem|
    && MemMoved(t) == MemMoved(past) + mem[..k]
    && FileMoved(t) == FileMoved(past) + Range(off, k)
  }

  lemma MovesMore<S>(f: Driver<S>, init: S, past: Trace, t: Trace, s: S, mem: seq<int>, off: int, k: nat, c: Call)
    requires Moves(f, init, past, t, s, mem, off, k)
    requires c.n > 0 && c.off == off + k && c.cc == f(s, c.base, c.n, c.off).1
    requires Count(c) <= |mem| - k && mem[k..][..Count(c)] == Range(c.base, Count(c))
    ensures Moves(f, init, past, Then(t, c), f(s, c.base, c.n, c.off).0, mem, off, k + Count(c))
  {
    var n := Count(c);
    assert mem[..k + n] == mem[..k] + mem[k..][..n];
    Assoc(MemMoved(past), mem[..k], Range(c.base, n));
    RangeSplit(off, k, n);
    Assoc(FileMoved(past), Range(off, k), Range(c.off, n));
  }

  lemma MovesNothing<S>(f: Driver<S>, init: S, past: Trace, s: S, mem: seq<int>, off: int)
    requires Genuine(f, init, past) && s == After(f, init, past)
    ensures Moves(f, init, past, past, s, mem, off, 0)
  {
  }

  // The call asks for a piece of the vector `mem`, at the matching place behind `off`, and stays
  // below `limit`.
  predicate Asks(c: Call, mem: seq<int>, off: int, limit: nat) {
    && off <= c.off && c.off - off + c.n <= limit && c.off - off + c.n <= |mem|
    && mem[c.off - off..][..c.n] == Range(c.base, c.n)
  }

  // All the calls that `t` has made since `past` do.
  predicate AllAsk(past: Trace, t: Trace, mem: seq<int>, off: int, limit: nat) {
    t == past || (t.Then? && AllAsk(past, t.before, mem, off, limit) && Asks(t.call, mem, off, limit))
  }

  // Inside a stream, a segment's bytes start where the stream's do.
  lemma HeadOfStream(mem: seq<int>, k: nat, iov: seq<Segment>, n: nat)
    requires iov != [] && n <= iov[0].len
    requires k <= |mem| && mem[k..] == MemBytes(iov)
    ensures n <= |mem| - k && mem[k..][..n] == Range(iov[0].base, n)
    ensures n == iov[0].len ==> mem[k + n..] == MemBytes(iov[1..])
  {
    RangeSplit(iov[0].base, n, iov[0].len - n);
    assert mem[k + n..] == mem[k..][n..];
  }

  lemma NothingAsked(past: Trace, mem: seq<int>, off: int, limit: nat)
    ensures AllAsk(past, past, mem, off, limit)
  {
  }

  // One call, for the first segment of those that are left.
  lemma CallMade<S>(f: Driver<S>, init: S, past: Trace, t: Trace, s: S, mem: seq<int>, off: int, k: nat,
                    iov: seq<Segment>, limit: nat, c: Call)
    requires Moves(f, init, past, t, s, mem, off, k) && AllAsk(past, t, mem, off, limit)
    requires k <= |mem| && iov != [] && mem[k..] == MemBytes(iov)
    requires 0 < c.n <= iov[0].len && c.base == iov[0].base && c.off == off + k && k + c.n <= limit
    requires c.cc == f(s, c.base, c.n, c.off).1 <= c.n
    ensures Moves(f, init, past, Then(t, c), f(s, c.base, c.n, c.off).0, mem, off, k + Count(c))
    ensures AllAsk(past, Then(t, c), mem, off, limit)
    ensures k + Count(c) <= k + c.n <= |mem|
    ensures Count(c) == iov[0].len ==> mem[k + Count(c)..] == MemBytes(iov[1..])
  {
    hide MemBytes, Moves, Range;
    HeadOfStream(mem, k, iov, Count(c));
    MovesMore(f, init, past, t, s, mem, off, k, c);
    HeadOfStream(mem, k, iov, c.n);
    AskedMore(past, t, mem, off, limit, c);
  }

  lemma AskedMore(past: Trace, t: Trace, mem: seq<int>, off: int, limit: nat, c: Call)
    requires AllAsk(past, t, mem, off, limit) && Asks(c, mem, off, limit)
    ensures AllAsk(past, Then(t, c), mem, off, limit)
  {
  }

  lemma NoSegments()
    ensures MemBytes([]) == []
  {
  }

  lemma EmptySegment(iov: seq<Segment>)
    requires iov != [] && iov[0].len == 0
    ensures MemBytes(iov) == MemBytes(iov[1..])
  {
  }

  /** `_sysio_enumerate_iovec`: move up to `limit` bytes between the segments and the file
      at `off`, one driver call per non-empty segment, stopping at the first short one.
      `past` is what the driver was asked before, starting from state `init`. */
  method EnumerateIovec<S(!new)>(iov: seq<Segment>, off: int, limit: nat, f: Driver<S>, s0: S,
                                 ghost init: S, ghost past: Trace)
      returns (r: int, s: S, ghost trace: Trace)
    requires Honest(f)
    requires Genuine(f, init, past) && s0 == After(f, init, past)
    ensures Moves(f, init, past, trace, s, MemBytes(iov), off, if r > 0 then r else 0)
    ensures AllAsk(past, trace, MemBytes(iov), off, limit)
    ensures r <= Clipped(iov, limit)
    ensures Clipped(iov, limit) > 0 ==>
              (r < Clipped(iov, limit) <==> EndsShort(trace)) &&
              (EndsShort(trace) ==> RefusedAt(trace, off + if r > 0 then r else 0))
    ensures r <= 0 ==>
              if iov == [] then r == -EINVAL && trace == past
              else if Clipped(iov, limit) == 0 then r == 0 && trace == past
              else trace.Then? && trace.before == past && trace.call.cc == r
  {
    hide Moves, AllAsk, MemBytes;
    trace := past;
    s := s0;
    MovesNothing(f, init, past, s, MemBytes(iov), off);
    NothingAsked(past, MemBytes(iov), off, limit);
    NoSegments();
    if iov == [] {
      return -EINVAL, s, trace;
    }
    var total := ClippedTotal(iov, limit);
    if total == 0 {
      return 0, s, trace;
    }
    var acc, left: nat := 0, limit;
    var vs := iov;
    ghost var mem := MemBytes(iov);
    while vs != []
      invariant acc + left == limit && left > 0
      invariant Moves(f, init, past, trace, s, mem, off, acc)
      invariant AllAsk(past, trace, mem, off, limit)
      invariant acc <= |mem| && mem[acc..] == MemBytes(vs)
      invariant acc == 0 ==> trace == past
      invariant acc > 0 ==> !EndsShort(trace)
    {
      var seg := vs[0];
      if seg.len > 0 {
        var n := if seg.len < left then seg.len else left;
        var (s', cc) := f(s, seg.base, n, off + acc);
        ghost var call := Call(seg.base, n, off + acc, cc);
        CallMade(f, init, past, trace, s, mem, off, acc, vs, limit, call);
        s, trace := s', Then(trace, call);
        if cc <= 0 {
          return (if acc > 0 then acc else cc), s, trace;
        }
        acc, left := acc + cc, left - cc;
        if seg.len > cc || left == 0 {
          return acc, s, trace;
        }
      } else {
        EmptySegment(vs);
      }
      vs := vs[1..];
    }
    return acc, s, trace;
  }

  // ---------------------------------------------------------------------------------
  // Many extents, many segments
  // ---------------------------------------------------------------------------------

  // How many leading extents continue, without a gap, a run that ends at `end`.
  function RunStop(xtv: seq<Extent>, end: int): (k: nat)
    ensures k <= |xtv|
  {
    if xtv == [] || xtv[0].off != end then 0 else 1 + RunStop(xtv[1..], end + xtv[0].len)
  }

  /** They do continue it, and the next one, if there is one, does not. */
  lemma {:induction false} RunStopAtGap(xtv: seq<Extent>, end: int)
    ensures var (k, n) := (RunStop(xtv, end), |FileBytes(xtv[..RunStop(xtv, end)])|);
            && FileBytes(xtv[..k]) == Range(end, n)
            && (k < |xtv| ==> xtv[k].off != end + n)
  {
    var k := RunStop(xtv, end);
    if k > 0 {
      var len := xtv[0].len;
      RunStopAtGap(xtv[1..], end + len);
      assert xtv[..k][1..] == xtv[1..][..k - 1];
      RangeSplit(end, len, |FileBytes(xtv[1..][..k - 1])|);
    }
  }

  // How many leading segments fit, whole, into `n` bytes.
  function FitStop(iov: seq<Segment>, n: nat): (k: nat)
    ensures k <= |iov|
    ensures |MemBytes(iov[..k])| <= n
  {
    if iov == [] || iov[0].len > n then 0
    else
      var k := FitStop(iov[1..], n - iov[0].len);
      assert iov[..k + 1][1..] == iov[1..][..k];
      k + 1
  }

  /** How many bytes the reconciliation moves when the driver is never short: `run` bytes are
      left of the current run of extents, `res` of a segment that was split. */
  function Reach(run: nat, xtv: seq<Extent>, res: nat, iov: seq<Segment>): nat
    decreases |xtv| + |iov|, run + res
  {
    if run == 0 then
      if xtv == [] then 0
      else
        var e := 1 + RunStop(xtv[1..], xtv[0].off + xtv[0].len);
        Reach(|FileBytes(xtv[..e])|, xtv[e..], res, iov)
    else if res > 0 then
      var c := Min(run, res);
      c + Reach(run - c, xtv, res - c, iov)
    else if iov == [] then 0
    else
      var g := FitStop(iov, run);
      if g == 0 then Reach(run, xtv, iov[0].len, iov[1..])
      else
        var m := |MemBytes(iov[..g])|;
        if m == 0 then 0 else m + Reach(run - m, xtv, 0, iov[g..])
  }

  /** `t` has moved exactly the first `k` bytes of the address stream `mem`, each paired with
      the byte at the same place of the offset stream `file`. */
  ghost predicate Reconciled<S>(f: Driver<S>, init: S, t: Trace, s: S, mem: seq<int>, file: seq<int>, k: nat) {
    && Genuine(f, init, t) && s == After(f, init, t)
    && k <= |mem| && k <= |file|
    && MemMoved(t) == mem[..k]
    && FileMoved(t) == file[..k]
  }

  lemma ReconciledNothing<S>(f: Driver<S>, s: S, mem: seq<int>, file: seq<int>)
    ensures Reconciled(f, s, Start, s, mem, file, 0) && !EndsShort(Start)
  {
  }

  lemma ReconciledSoFar<S>(f: Driver<S>, init: S, t: Trace, s: S, mem: seq<int>, file: seq<int>, k: nat)
    requires Reconciled(f, init, t, s, mem, file, k)
    ensures Genuine(f, init, t) && s == After(f, init, t)
  {
  }

  // `Moves` picks up where `Reconciled` stands.
  lemma ReconciledMore<S>(f: Driver<S>, init: S, t: Trace, s: S, mem: seq<int>, file: seq<int>, k: nat,
                          t': Trace, s': S, vec: seq<int>, off: int, j: nat)
    requires Reconciled(f, init, t, s, mem, file, k)
    requires Moves(f, init, t, t', s', vec, off, j)
    requires j <= |mem| - k && j <= |file| - k
    requires mem[k..][..j] == vec[..j] && file[k..][..j] == Range(off, j)
    ensures Reconciled(f, init, t', s', mem, file, k + j)
  {
    assert mem[..k + j] == mem[..k] + mem[k..][..j];
    assert file[..k + j] == file[..k] + file[k..][..j];
  }

  // A request vector handed down, where it starts in the file, its limit, and how many bytes had
  // been moved before it.
  datatype Request = Request(vec: seq<Segment>, off: int, limit: nat, at: nat)

  /** The vector is what comes next of the segments, it fits its limit, and its limit lies inside
      one contiguous stretch of the concatenated extents, starting where the transfer stands. */
  predicate InOneRun(q: Request, mem: seq<int>, file: seq<int>) {
    && |MemBytes(q.vec)| <= q.limit
    && q.at + |MemBytes(q.vec)| <= |mem| && mem[q.at..][..|MemBytes(q.vec)|] == MemBytes(q.vec)
    && q.at + q.limit <= |file| && file[q.at..q.at + q.limit] == Range(q.off, q.limit)
  }

  // The request vectors, each with the calls made up to the end of it.
  datatype Log = NoRequest | Handed(earlier: Log, request: Request, until: Trace)

  function Until(log: Log): Trace { if log.NoRequest? then Start else log.until }

  /** Every request vector lies in one run and starts behind what was moved before it, and the calls
      made for it are pieces of it. */
  predicate Explains(log: Log, mem: seq<int>, file: seq<int>) {
    log.Handed? ==>
      && Explains(log.earlier, mem, file)
      && InOneRun(log.request, mem, file)
      && log.request.at == |MemMoved(Until(log.earlier))|
      && AllAsk(Until(log.earlier), log.until, MemBytes(log.request.vec), log.request.off, log.request.limit)
  }

  // The log accounts for all the calls.
  predicate Logged(log: Log, t: Trace, mem: seq<int>, file: seq<int>) { Until(log) == t && Explains(log, mem, file) }

  lemma LoggedMore<S>(f: Driver<S>, init: S, s: S, log: Log, t: Trace, mem: seq<int>, file: seq<int>, k: nat,
                      q: Request, t': Trace)
    requires Logged(log, t, mem, file) && InOneRun(q, mem, file) && q.at == k
    requires Reconciled(f, init, t, s, mem, file, k)
    requires AllAsk(t, t', MemBytes(q.vec), q.off, q.limit)
    ensures Logged(Handed(log, q, t'), t', mem, file)
  {
  }

  // Coalescing one more extent does not change the offset stream.
  lemma Coalesced(off: int, run: nat, xtv: seq<Extent>)
    requires xtv != [] && xtv[0].off == off + run
    ensures Range(off, run) + FileBytes(xtv) == Range(off, run + xtv[0].len) + FileBytes(xtv[1..])
  {
    RangeSplit(off, run, xtv[0].len);
    Assoc(Range(off, run), Range(xtv[0].off, xtv[0].len), FileBytes(xtv[1..]));
  }

  lemma OneSegment(seg: Segment, n: nat)
    requires n <= seg.len
    ensures MemBytes([seg])[..n] == Range(seg.base, n) && |MemBytes([seg])| == seg.len
  {
    var mem := MemBytes([seg]);
    assert mem[0..] == mem;
    HeadOfStream(mem, 0, [seg], n);
  }

  // Collects the next run of contiguous extents.
  method NextRun(xtv: seq<Extent>) returns (off: int, run: nat, e: nat)
    requires xtv != []
    ensures e == 1 + RunStop(xtv[1..], xtv[0].off + xtv[0].len) && off == xtv[0].off
    ensures run == |FileBytes(xtv[..e])|
    ensures FileBytes(xtv) == Range(off, run) + FileBytes(xtv[e..])
    ensures e < |xtv| ==> xtv[e].off != off + run
  {
    off, run, e := xtv[0].off, xtv[0].len, 1;
    var end := off + run;
    while e < |xtv| && xtv[e].off == end
      invariant 1 <= e <= |xtv| && end == off + run
      invariant e + RunStop(xtv[e..], end) == 1 + RunStop(xtv[1..], xtv[0].off + xtv[0].len)
      invariant FileBytes(xtv) == Range(off, run) + FileBytes(xtv[e..])
    {
      Coalesced(off, run, xtv[e..]);
      assert xtv[e..][1..] == xtv[e + 1..];
      end, run := end + xtv[e].len, run + xtv[e].len;
      e := e + 1;
    }
    FileAppend(xtv[..e], xtv[e..]);
    assert xtv == xtv[..e] + xtv[e..];
  }

  // Collects the leading segments that fit whole into the run.
  method NextGroup(iov: seq<Segment>, run: nat) returns (g: nat, n: nat)
    requires iov != []
    ensures g == FitStop(iov, run)
    ensures n + |MemBytes(iov[..g])| == run
    ensures MemBytes(iov) == MemBytes(iov[..g]) + MemBytes(iov[g..])
  {
    g, n := 0, run;
    assert iov[0..] == iov;
    while g < |iov| && iov[g].len <= n
      invariant 0 <= g <= |iov|
      invariant g + FitStop(iov[g..], n) == FitStop(iov, run)
      invariant n + |MemBytes(iov[..g])| == run
    {
      assert iov[g..][1..] == iov[g + 1..];
      assert iov[..g + 1] == iov[..g] + [iov[g]];
      MemAppend(iov[..g], [iov[g]]);
      g, n := g + 1, n - iov[g].len;
    }
    MemAppend(iov[..g], iov[g..]);
    assert iov == iov[..g] + iov[g..];
  }

  // What is still to be moved, given the cursors of the reconciliation.
  ghost predicate Ahead(mem: seq<int>, file: seq<int>, k: nat, off: int, run: nat, xtv: seq<Extent>,
                        res: Segment, iov: seq<Segment>) {
    && k <= |mem| && mem[k..] == Range(res.base, res.len) + MemBytes(iov)
    && k <= |file| && file[k..] == Range(off, run) + FileBytes(xtv)
  }

  lemma Tail<T>(s: seq<T>, k: nat, a: seq<T>, b: seq<T>)
    requires k <= |s| && s[k..] == a + b
    ensures |a| <= |s| - k && s[k..][..|a|] == a && s[k + |a|..] == b
  {
    assert s[k + |a|..] == s[k..][|a|..];
  }

  // Consuming the first `n` bytes of a range at the head of what is left of a stream.
  lemma StreamTail(s: seq<int>, k: nat, start: int, len: nat, rest: seq<int>, n: nat)
    requires k <= |s| && s[k..] == Range(start, len) + rest && n <= len
    ensures n <= |s| - k && s[k..][..n] == Range(start, n)
    ensures s[k + n..] == Range(start + n, len - n) + rest
  {
    RangeSplit(start, n, len - n);
    Assoc(Range(start, n), Range(start + n, len - n), rest);
    Tail(s, k, Range(start, n), Range(start + n, len - n) + rest);
  }

  // The cursors after `n` bytes of the split segment.
  lemma AheadSplit(mem: seq<int>, file: seq<int>, k: nat, off: int, run: nat, xtv: seq<Extent>,
                   res: Segment, iov: seq<Segment>, n: nat)
    requires Ahead(mem, file, k, off, run, xtv, res, iov) && n <= run && n <= res.len
    ensures n <= |mem| - k && n <= |file| - k
    ensures mem[k..][..n] == Range(res.base, n) && file[k..][..n] == Range(off, n)
    ensures Ahead(mem, file, k + n, off + n, run - n, xtv, Segment(res.base + n, res.len - n), iov)
  {
    hide Range, MemBytes, FileBytes;
    StreamTail(mem, k, res.base, res.len, MemBytes(iov), n);
    StreamTail(file, k, off, run, FileBytes(xtv), n);
  }

  // The cursors after `n` bytes of the whole segments `iov[..g]`.
  lemma AheadGroup(mem: seq<int>, file: seq<int>, k: nat, off: int, run: nat, xtv: seq<Extent>,
                   res: Segment, iov: seq<Segment>, g: nat, n: nat)
    requires Ahead(mem, file, k, off, run, xtv, res, iov) && res.len == 0 && g <= |iov|
    requires n <= |MemBytes(iov[..g])| <= run
    requires MemBytes(iov) == MemBytes(iov[..g]) + MemBytes(iov[g..])
    ensures n <= |mem| - k && n <= |file| - k
    ensures mem[k..][..n] == MemBytes(iov[..g])[..n] && file[k..][..n] == Range(off, n)
    ensures n == |MemBytes(iov[..g])| ==> Ahead(mem, file, k + n, off + n, run - n, xtv, res, iov[g..])
  {
    var vec := MemBytes(iov[..g]);
    assert mem[k..] == vec + MemBytes(iov[g..]);
    Tail(mem, k, vec, MemBytes(iov[g..]));
    StreamTail(file, k, off, run, FileBytes(xtv), n);
  }

  // The run ahead is the contiguous stretch a request vector has to stay inside.
  lemma AheadInRun(mem: seq<int>, file: seq<int>, k: nat, off: int, run: nat, xtv: seq<Extent>,
                   res: Segment, iov: seq<Segment>, q: Request)
    requires Ahead(mem, file, k, off, run, xtv, res, iov)
    requires q.off == off && |MemBytes(q.vec)| <= q.limit <= run && q.at == k
    requires |MemBytes(q.vec)| <= |mem| - k && mem[k..][..|MemBytes(q.vec)|] == MemBytes(q.vec)
    ensures InOneRun(q, mem, file)
  {
    RangeSplit(off, q.limit, run - q.limit);
    assert file[k..k + q.limit] == file[k..][..q.limit];
  }

  lemma AheadRun(mem: seq<int>, file: seq<int>, k: nat, xtv: seq<Extent>, res: Segment, iov: seq<Segment>,
                 off0: int, off: int, run: nat, e: nat)
    requires Ahead(mem, file, k, off0, 0, xtv, res, iov) && e <= |xtv|
    requires FileBytes(xtv) == Range(off, run) + FileBytes(xtv[e..])
    ensures Ahead(mem, file, k, off, run, xtv[e..], res, iov)
  {
  }

  lemma AheadStart(xtv: seq<Extent>, iov: seq<Segment>)
    ensures Ahead(MemBytes(iov), FileBytes(xtv), 0, 0, 0, xtv, Segment(0, 0), iov)
  {
  }

  lemma AheadTake(mem: seq<int>, file: seq<int>, k: nat, off: int, run: nat, xtv: seq<Extent>,
                  res: Segment, iov: seq<Segment>)
    requires Ahead(mem, file, k, off, run, xtv, res, iov) && res.len == 0 && iov != []
    ensures Ahead(mem, file, k, off, run, xtv, iov[0], iov[1..])
  {
  }

  lemma AheadLater(mem: seq<int>, file: seq<int>, k: nat, off: int, run: nat, xtv: seq<Extent>,
                   res: Segment, iov: seq<Segment>, n: nat)
    requires Ahead(mem, file, k, off, run, xtv, res, iov) && n < run
    ensures k + n < |file| && file[k + n] == off + n
  {
    StreamTail(file, k, off, run, FileBytes(xtv), n);
    assert file[k + n] == file[k + n..][0];
  }

  // The transfer stopped because the driver did not take the byte at place `k` of the stream.
  predicate Refused(t: Trace, file: seq<int>, k: nat) {
    k < |file| && RefusedAt(t, file[k])
  }

  // The callback on the split segment, clipped to the run.
  method SplitStep<S(!new)>(f: Driver<S>, s: S, ghost init: S, ghost t: Trace, ghost mem: seq<int>,
                            ghost file: seq<int>, acc: nat, off: int, run: nat, ghost xtv: seq<Extent>, res: Segment,
                            ghost iov: seq<Segment>, ghost log: Log)
      returns (cc: int, s': S, ghost t': Trace, ghost log': Log)
    requires Honest(f) && run > 0 && res.len > 0 && Logged(log, t, mem, file)
    requires Reconciled(f, init, t, s, mem, file, acc) && Ahead(mem, file, acc, off, run, xtv, res, iov)
    ensures Logged(log', t', mem, file)
    ensures cc <= Min(res.len, run)
    ensures var n := if cc > 0 then cc else 0;
            Reconciled(f, init, t', s', mem, file, acc + n) &&
            Ahead(mem, file, acc + n, off + n, run - n, xtv, Segment(res.base + n, res.len - n), iov)
    ensures EndsShort(t') <==> cc < Min(res.len, run)
    ensures EndsShort(t') ==> Refused(t', file, acc + if cc > 0 then cc else 0)
    ensures cc <= 0 ==> t'.Then? && t'.before == t && t'.call.cc == cc
  {
    hide Reconciled, Moves, Ahead, InOneRun, MemBytes, FileBytes, Range, After, Genuine, AllAsk, Logged;
    var clip := Segment(res.base, Min(res.len, run));
    ghost var q := Request([clip], off, run, acc);
    ReconciledSoFar(f, init, t, s, mem, file, acc);
    OneSegment(clip, clip.len);
    AheadSplit(mem, file, acc, off, run, xtv, res, iov, clip.len);
    AheadInRun(mem, file, acc, off, run, xtv, res, iov, q);
    cc, s', t' := EnumerateIovec([clip], off, run, f, s, init, t);
    ghost var n := if cc > 0 then cc else 0;
    OneSegment(clip, n);
    AheadSplit(mem, file, acc, off, run, xtv, res, iov, n);
    ReconciledMore(f, init, t, s, mem, file, acc, t', s', MemBytes([clip]), off, n);
    LoggedMore(f, init, s, log, t, mem, file, acc, q, t');
    log' := Handed(log, q, t');
    if n < run {
      AheadLater(mem, file, acc, off, run, xtv, res, iov, n);
    }
  }

  // The callback on the first `g` segments, which fit whole into the run.
  method GroupStep<S(!new)>(f: Driver<S>, s: S, ghost init: S, ghost t: Trace, ghost mem: seq<int>,
                            ghost file: seq<int>,
                            ghost acc: nat, off: int, ghost run: nat, ghost xtv: seq<Extent>, ghost res: Segment,
                            iov: seq<Segment>, g: nat, remain: nat, ghost log: Log)
      returns (cc: int, s': S, ghost t': Trace, ghost log': Log)
    requires Logged(log, t, mem, file)
    requires Honest(f) && res.len == 0 && 0 < g <= |iov| && remain == |MemBytes(iov[..g])| <= run
    requires MemBytes(iov) == MemBytes(iov[..g]) + MemBytes(iov[g..])
    requires Reconciled(f, init, t, s, mem, file, acc) && Ahead(mem, file, acc, off, run, xtv, res, iov)
    ensures Logged(log', t', mem, file)
    ensures cc <= remain
    ensures Reconciled(f, init, t', s', mem, file, acc + if cc > 0 then cc else 0)
    ensures remain > 0 ==> (cc < remain <==> EndsShort(t'))
    ensures cc < remain ==> Refused(t', file, acc + if cc > 0 then cc else 0)
    ensures cc == remain > 0 ==> Ahead(mem, file, acc + cc, off + cc, run - cc, xtv, res, iov[g..])
    ensures cc <= 0 ==> if remain == 0 then cc == 0 && t' == t else t'.Then? && t'.before == t && t'.call.cc == cc
  {
    hide Reconciled, Moves, Ahead, InOneRun, MemBytes, FileBytes, Range, After, Genuine, AllAsk, Logged;
    AheadGroup(mem, file, acc, off, run, xtv, res, iov, g, remain);
    ghost var q := Request(iov[..g], off, remain, acc);
    AheadInRun(mem, file, acc, off, run, xtv, res, iov, q);
    ReconciledSoFar(f, init, t, s, mem, file, acc);
    cc, s', t' := EnumerateIovec(iov[..g], off, remain, f, s, init, t);
    ghost var n := if cc > 0 then cc else 0;
    AheadGroup(mem, file, acc, off, run, xtv, res, iov, g, n);
    ReconciledMore(f, init, t, s, mem, file, acc, t', s', MemBytes(iov[..g]), off, n);
    LoggedMore(f, init, s, log, t, mem, file, acc, q, t');
    log' := Handed(log, q, t');
    if n < remain {
      AheadLater(mem, file, acc, off, run, xtv, res, iov, n);
    }
  }

  /** What one strided transfer did: with `r` > 0 exactly the first `r` bytes of both vectors
      were paired and moved, otherwise none; it is incomplete exactly if the driver's last
      answer was short, and then the first byte not moved is the one the driver refused; a
      result that is not positive is the driver's own answer to the only call made. */
  ghost predicate Outcome<S>(f: Driver<S>, s0: S, xtv: seq<Extent>, iov: seq<Segment>, r: int, s: S, t: Trace) {
    var k := if r > 0 then r else 0;
    && Reconciled(f, s0, t, s, MemBytes(iov), FileBytes(xtv), k)
    && k <= Reach(0, xtv, 0, iov)
    && (k < Reach(0, xtv, 0, iov) <==> EndsShort(t))
    && (EndsShort(t) ==> Refused(t, FileBytes(xtv), k))
    && (r <= 0 ==> if t == Start then r == 0 else t.before == Start && t.call.cc == r)
  }

  lemma NothingLogged(mem: seq<int>, file: seq<int>)
    ensures Logged(NoRequest, Start, mem, file)
  {
  }

  /** `_sysio_enumerate_extents` with the enumerator below it, which is `_sysio_doio`. */
  method DoIO<S(!new)>(xtv: seq<Extent>, iov: seq<Segment>, f: Driver<S>, s0: S)
      returns (r: int, s: S, ghost trace: Trace, ghost log: Log)
    requires Honest(f)
    ensures Outcome(f, s0, xtv, iov, r, s, trace)
    ensures r <= Reach(0, xtv, 0, iov) && (r <= 0 ==> r == 0 || Reach(0, xtv, 0, iov) > 0)
    ensures Logged(log, trace, MemBytes(iov), FileBytes(xtv))
  {
    hide Reconciled, Ahead, Reach, InOneRun, MemBytes, FileBytes, RunStop, FitStop, EndsShort, Refused, Logged;
    ghost var mem, file := MemBytes(iov), FileBytes(xtv);
    ghost var total := Reach(0, xtv, 0, iov);
    trace, log, s := Start, NoRequest, s0;
    NothingLogged(mem, file);
    ReconciledNothing(f, s0, mem, file);
    AheadStart(xtv, iov);
    var acc: nat := 0;
    var off, run: nat, res := 0, 0, Segment(0, 0);
    // the vectors from the cursors on: advancing a pointer drops what it passed
    var xs, vs := xtv, iov;
    while xs != []
      invariant run == 0
      invariant Reconciled(f, s0, trace, s, mem, file, acc)
      invariant Ahead(mem, file, acc, off, run, xs, res, vs)
      invariant acc + Reach(run, xs, res.len, vs) == total
      invariant acc == 0 ==> trace == Start
      invariant !EndsShort(trace)
      invariant Logged(log, trace, mem, file)
    {
      ghost var xs0, off0 := xs, off;
      var e;
      off, run, e := NextRun(xs);
      xs := xs[e..];
      AheadRun(mem, file, acc, xs0, res, vs, off0, off, run, e);
      ReachRun(xs0, res.len, vs);
      while run > 0
        invariant Reconciled(f, s0, trace, s, mem, file, acc)
        invariant Ahead(mem, file, acc, off, run, xs, res, vs)
        invariant acc + Reach(run, xs, res.len, vs) == total
        invariant acc == 0 ==> trace == Start
        invariant EndsShort(trace) ==> res.len > 0 && run > 0
        invariant Logged(log, trace, mem, file)
        decreases |vs|, run
      {
        var cc;
        if res.len > 0 {
          ReachSplit(run, xs, res.len, vs, Min(run, res.len));
          cc, s, trace, log := SplitStep(f, s, s0, trace, mem, file, acc, off, run, xs, res, vs, log);
          if cc <= 0 {
            return (if acc > 0 then acc else cc), s, trace, log;
          }
          ReachSplit(run, xs, res.len, vs, cc);
          res := Segment(res.base + cc, res.len - cc);
        } else if vs != [] {
          var g, left := NextGroup(vs, run);
          ReachGroup(run, xs, vs);
          if g == 0 {
            AheadTake(mem, file, acc, off, run, xs, res, vs);
            res, vs := vs[0], vs[1..];
            continue;
          }
          var remain := run - left;
          cc, s, trace, log := GroupStep(f, s, s0, trace, mem, file, acc, off, run, xs, res, vs, g, remain, log);
          if cc <= 0 {
            return (if acc > 0 then acc else cc), s, trace, log;
          }
          if cc < remain {
            return acc + cc, s, trace, log;
          }
          vs := vs[g..];
        } else {
          ReachEnd(run, xs);
          return acc, s, trace, log;
        }
        acc, off, run := acc + cc, off + cc, run - cc;
      }
    }
    ReachEnd(run, xs);
    return acc, s, trace, log;
  }

  lemma ReachRun(xtv: seq<Extent>, res: nat, iov: seq<Segment>)
    requires xtv != []
    ensures var e := 1 + RunStop(xtv[1..], xtv[0].off + xtv[0].len);
            Reach(0, xtv, res, iov) == Reach(|FileBytes(xtv[..e])|, xtv[e..], res, iov)
  {
  }

  lemma ReachSplit(run: nat, xtv: seq<Extent>, res: nat, iov: seq<Segment>, c: nat)
    requires 0 < c <= Min(run, res)
    ensures Reach(run, xtv, res, iov) == c + Reach(run - c, xtv, res - c, iov)
  {
  }

  lemma ReachGroup(run: nat, xtv: seq<Extent>, iov: seq<Segment>)
    requires run > 0 && iov != []
    ensures var g := FitStop(iov, run);
            if g == 0 then Reach(run, xtv, 0, iov) == Reach(run, xtv, iov[0].len, iov[1..])
            else var m := |MemBytes(iov[..g])|;
              Reach(run, xtv, 0, iov) == if m == 0 then 0 else m + Reach(run - m, xtv, 0, iov[g..])
  {
  }

  lemma ReachEnd(run: nat, xtv: seq<Extent>)
    ensures run > 0 ==> Reach(run, xtv, 0, []) == 0
    ensures forall res, iov :: Reach(0, [], res, iov) == 0
  {
  }

  // ---------------------------------------------------------------------------------
  // When a transfer is short although the driver never is
  // ---------------------------------------------------------------------------------

  // Where, in the concatenated extents, an extent does not continue the one before it, or they end.
  function RunEnds(xtv: seq<Extent>, at: nat): set<nat>
    decreases |xtv|
  {
    if xtv == [] then {} else
      var end := at + xtv[0].len;
      (if |xtv| > 1 && xtv[1].off == xtv[0].off + xtv[0].len then {} else {end}) + RunEnds(xtv[1..], end)
  }

  /** These are the ends of the runs that are collected. */
  lemma {:induction false} RunEndsByRun(xtv: seq<Extent>, at: nat)
    requires xtv != []
    ensures var e := 1 + RunStop(xtv[1..], xtv[0].off + xtv[0].len);
            var end := at + |FileBytes(xtv[..e])|;
            RunEnds(xtv, at) == {end} + RunEnds(xtv[e..], end)
    decreases |xtv|
  {
    hide FileBytes;
    var e := 1 + RunStop(xtv[1..], xtv[0].off + xtv[0].len);
    FirstExtent(xtv, e);
    if e > 1 {
      RunEndsByRun(xtv[1..], at + xtv[0].len);
      assert xtv[1..][1..] == xtv[2..] && xtv[1..][e - 1..] == xtv[e..];
    }
  }

  lemma FirstExtent(xtv: seq<Extent>, e: nat)
    requires 1 <= e <= |xtv|
    ensures |FileBytes(xtv[..e])| == xtv[0].len + |FileBytes(xtv[1..][..e - 1])|
    ensures e == 1 ==> |FileBytes(xtv[1..][..e - 1])| == 0
  {
    assert xtv[..e][1..] == xtv[1..][..e - 1];
  }

  // The bytes from `at` on are not all in one run.
  ghost predicate Crosses(ends: set<nat>, at: nat, len: nat) { exists e :: e in ends && at < e < at + len }

  /** Reading the segments from left to right, `at` the place of the next byte: there are empty ones
      before a segment that crosses the end of a run, and they are the first of all or come right
      behind a segment that crosses one.  `open` says whether the last non-empty segment did, `gap`
      whether empty ones came behind it. */
  ghost predicate Stalls(ends: set<nat>, at: nat, open: bool, gap: bool, iov: seq<Segment>)
    decreases |iov|
  {
    iov != [] &&
    if iov[0].len == 0 then Stalls(ends, at, open, true, iov[1..])
    else
      var crosses := Crosses(ends, at, iov[0].len);
      (open && gap && crosses) || Stalls(ends, at + iov[0].len, crosses, false, iov[1..])
  }

  // The ends that are still ahead at place `pos`, with `run` bytes left of the current run.
  function EndsAhead(run: nat, xtv: seq<Extent>, pos: nat): set<nat> {
    (if run > 0 then {pos + run} else {}) + RunEnds(xtv, pos + run)
  }

  lemma {:induction false} RunEndsAfter(xtv: seq<Extent>, at: nat)
    ensures forall e :: e in RunEnds(xtv, at) ==> at <= e
    decreases |xtv|
  {
    if xtv != [] {
      RunEndsAfter(xtv[1..], at + xtv[0].len);
    }
  }

  // Ends that have been passed do not matter.
  lemma {:induction false} StallsAhead(ends: set<nat>, fewer: set<nat>, at: nat, open: bool, gap: bool,
                                       iov: seq<Segment>)
    requires fewer <= ends && forall e :: e in ends && e > at ==> e in fewer
    ensures Stalls(ends, at, open, gap, iov) <==> Stalls(fewer, at, open, gap, iov)
    decreases |iov|
  {
    if iov != [] {
      assert Crosses(ends, at, iov[0].len) <==> Crosses(fewer, at, iov[0].len);
      StallsAhead(ends, fewer, at, open, true, iov[1..]);
      StallsAhead(ends, fewer, at + iov[0].len, Crosses(ends, at, iov[0].len), false, iov[1..]);
    }
  }

  // Before a segment that is not empty, only both flags together matter.
  lemma StallsFlags(ends: set<nat>, at: nat, gap: bool, iov: seq<Segment>)
    requires iov != [] ==> iov[0].len > 0
    ensures Stalls(ends, at, false, gap, iov) <==> Stalls(ends, at, true, false, iov)
  {
  }

  // Segments that fit before the next end do not stall; what comes before them is forgotten.
  lemma {:induction false} StallsPast(ends: set<nat>, at: nat, open: bool, gap: bool, iov: seq<Segment>, g: nat)
      returns (gap': bool)
    requires g <= |iov| && forall e :: e in ends ==> at + |MemBytes(iov[..g])| <= e
    ensures var m := |MemBytes(iov[..g])|;
            Stalls(ends, at, open, gap, iov) <==> Stalls(ends, at + m, open && m == 0, gap', iov[g..])
    ensures |MemBytes(iov[..g])| == 0 && (g > 0 || gap) ==> gap'
    decreases |iov|
  {
    if g == 0 {
      gap' := gap;
    } else {
      assert iov[..g][1..] == iov[1..][..g - 1] && iov[g..] == iov[1..][g - 1..];
      var len := iov[0].len;
      assert |MemBytes(iov[..g])| == len + |MemBytes(iov[1..][..g - 1])|;
      if len == 0 {
        gap' := StallsPast(ends, at, open, true, iov[1..], g - 1);
      } else {
        assert !Crosses(ends, at, len);
        gap' := StallsPast(ends, at + len, false, false, iov[1..], g - 1);
      }
    }
  }

  lemma Lengths(xtv: seq<Extent>, e: nat, iov: seq<Segment>, g: nat)
    requires e <= |xtv| && g <= |iov|
    ensures |FileBytes(xtv)| == |FileBytes(xtv[..e])| + |FileBytes(xtv[e..])|
    ensures |MemBytes(iov)| == |MemBytes(iov[..g])| + |MemBytes(iov[g..])|
    ensures iov != [] ==> |MemBytes(iov)| == iov[0].len + |MemBytes(iov[1..])|
    ensures xtv == [] ==> FileBytes(xtv) == []
    ensures iov == [] ==> MemBytes(iov) == []
  {
    FileAppend(xtv[..e], xtv[e..]);
    assert xtv == xtv[..e] + xtv[e..];
    MemAppend(iov[..g], iov[g..]);
    assert iov == iov[..g] + iov[g..];
  }

  // The group does not fill the run, or its last segments are empty: the next one is not.
  lemma {:induction false} FitStopNext(iov: seq<Segment>, n: nat)
    ensures var g := FitStop(iov, n); g < |iov| ==> iov[g].len > n - |MemBytes(iov[..g])| >= 0
  {
    if iov != [] && iov[0].len <= n {
      FitStopNext(iov[1..], n - iov[0].len);
      var g := FitStop(iov[1..], n - iov[0].len);
      assert iov[..g + 1][1..] == iov[1..][..g];
    }
  }

  lemma GroupOrStall(run: nat, xtv: seq<Extent>, iov: seq<Segment>, pos: nat)
    requires run > 0 && iov != []
    ensures var (g, ends) := (FitStop(iov, run), EndsAhead(run, xtv, pos));
            var m := |MemBytes(iov[..g])|;
            && m <= run
            && (g > 0 && m == 0 ==> (Stalls(ends, pos, true, false, iov) <==> g < |iov|))
            && (g > 0 && m > 0 ==> (Stalls(ends, pos, true, false, iov) <==>
                                    Stalls(EndsAhead(run - m, xtv, pos + m), pos + m, true, false, iov[g..])))
  {
    var (g, ends) := (FitStop(iov, run), EndsAhead(run, xtv, pos));
    var m := |MemBytes(iov[..g])|;
    hide RunStop, FileBytes, RunEnds, FitStop, MemBytes;
    FitStopNext(iov, run);
    FitsRun(iov, run);
    RunEndsAfter(xtv, pos + run);
    var gap' := StallsPast(ends, pos, true, false, iov, g);
    if g > 0 && m > 0 {
      StallsFlags(ends, pos + m, gap', iov[g..]);
      StallsAhead(ends, EndsAhead(run - m, xtv, pos + m), pos + m, true, false, iov[g..]);
    } else if g > 0 && g < |iov| {
      assert pos + run in ends && iov[g..][0] == iov[g];
      assert Crosses(ends, pos, iov[g].len);
    }
  }

  lemma FitsRun(iov: seq<Segment>, run: nat)
    ensures |MemBytes(iov[..FitStop(iov, run)])| <= run
  {
  }

  lemma {:induction false} ReachOrStall(run: nat, xtv: seq<Extent>, res: nat, iov: seq<Segment>, pos: nat)
    ensures var all := Min(res + |MemBytes(iov)|, run + |FileBytes(xtv)|);
            Reach(run, xtv, res, iov) <= all &&
            (Reach(run, xtv, res, iov) == all <==> !Stalls(EndsAhead(run, xtv, pos), pos + res, true, false, iov))
    decreases |xtv| + |iov|, run + res
  {
    hide MemBytes, FileBytes, RunStop, FitStop, Reach, Stalls, EndsAhead;
    Lengths(xtv, 0, iov, 0);
    ReachEnd(run, xtv);
    NoEndsNoStall(pos + res, iov);
    if run == 0 {
      if xtv != [] {
        ReachRun(xtv, res, iov);
        var e := 1 + RunStop(xtv[1..], xtv[0].off + xtv[0].len);
        Lengths(xtv, e, iov, 0);
        ReachOrStall(|FileBytes(xtv[..e])|, xtv[e..], res, iov, pos);
        NextRunEnds(xtv, pos, pos + res, iov);
      }
    } else if res > 0 {
      var c := Min(run, res);
      ReachSplit(run, xtv, res, iov, c);
      ReachOrStall(run - c, xtv, res - c, iov, pos + c);
      SplitEnds(run, xtv, pos, c, pos + res, iov);
    } else if iov != [] {
      ReachGroup(run, xtv, iov);
      var g := FitStop(iov, run);
      Lengths(xtv, 0, iov, g);
      GroupOrStall(run, xtv, iov, pos);
      if g == 0 {
        ReachOrStall(run, xtv, iov[0].len, iov[1..], pos);
        TakenWhole(run, xtv, pos, iov);
      } else if |MemBytes(iov[..g])| > 0 {
        ReachOrStall(run - |MemBytes(iov[..g])|, xtv, 0, iov[g..], pos + |MemBytes(iov[..g])|);
      } else {
        FitStopNext(iov, run);
        Lengths(xtv, 0, iov[g..], 0);
      }
    }
  }

  // With no end ahead nothing stalls.
  lemma {:induction false} NoEndsStalls(at: nat, open: bool, gap: bool, iov: seq<Segment>)
    ensures !Stalls({}, at, open, gap, iov)
    decreases |iov|
  {
    if iov != [] {
      NoEndsStalls(at, open, true, iov[1..]);
      NoEndsStalls(at + iov[0].len, false, false, iov[1..]);
    }
  }

  lemma NoEndsNoStall(at: nat, iov: seq<Segment>)
    ensures forall pos :: EndsAhead(0, [], pos) == {}
    ensures !Stalls({}, at, true, false, iov)
    ensures forall ends :: !Stalls(ends, at, true, false, [])
  {
    NoEndsStalls(at, true, false, iov);
  }

  lemma NextRunEnds(xtv: seq<Extent>, pos: nat, at: nat, iov: seq<Segment>)
    requires xtv != [] && pos <= at
    ensures var e := 1 + RunStop(xtv[1..], xtv[0].off + xtv[0].len);
            Stalls(EndsAhead(0, xtv, pos), at, true, false, iov) <==>
            Stalls(EndsAhead(|FileBytes(xtv[..e])|, xtv[e..], pos), at, true, false, iov)
  {
    hide RunStop, FileBytes, Stalls, RunEnds;
    RunEndsByRun(xtv, pos);
    RunEndsAfter(xtv, pos);
    var e := 1 + RunStop(xtv[1..], xtv[0].off + xtv[0].len);
    StallsAhead(EndsAhead(0, xtv, pos), EndsAhead(|FileBytes(xtv[..e])|, xtv[e..], pos), at, true, false, iov);
  }

  lemma SplitEnds(run: nat, xtv: seq<Extent>, pos: nat, c: nat, at: nat, iov: seq<Segment>)
    requires c <= run && pos + c <= at
    ensures Stalls(EndsAhead(run, xtv, pos), at, true, false, iov) <==>
            Stalls(EndsAhead(run - c, xtv, pos + c), at, true, false, iov)
  {
    hide RunEnds, Stalls;
    StallsAhead(EndsAhead(run, xtv, pos), EndsAhead(run - c, xtv, pos + c), at, true, false, iov);
  }

  // A segment longer than the run crosses its end.
  lemma TakenWhole(run: nat, xtv: seq<Extent>, pos: nat, iov: seq<Segment>)
    requires run > 0 && iov != [] && FitStop(iov, run) == 0
    ensures Stalls(EndsAhead(run, xtv, pos), pos, true, false, iov) <==>
            Stalls(EndsAhead(run, xtv, pos), pos + iov[0].len, true, false, iov[1..])
  {
    hide RunEnds;
    assert pos + run in EndsAhead(run, xtv, pos);
    assert Crosses(EndsAhead(run, xtv, pos), pos, iov[0].len);
  }

  /** With a driver that is never short, everything both vectors name is moved if and only if
      the vectors do not stall. */
  lemma CompleteIffNoStall(xtv: seq<Extent>, iov: seq<Segment>)
    ensures Reach(0, xtv, 0, iov) == Min(|MemBytes(iov)|, |FileBytes(xtv)|) <==>
            !Stalls(RunEnds(xtv, 0), 0, true, false, iov)
  {
    ReachOrStall(0, xtv, 0, iov, 0);
    assert EndsAhead(0, xtv, 0) == RunEnds(xtv, 0);
  }

  lemma {:induction false} NoEmptySegmentNoStall(ends: set<nat>, at: nat, open: bool, iov: seq<Segment>)
    requires forall seg :: seg in iov ==> seg.len > 0
    ensures !Stalls(ends, at, open, false, iov)
    decreases |iov|
  {
    if iov != [] {
      assert iov[0] in iov && forall seg :: seg in iov[1..] ==> seg in iov;
      NoEmptySegmentNoStall(ends, at + iov[0].len, Crosses(ends, at, iov[0].len), iov[1..]);
    }
  }

  // An empty segment in front of one that is longer than the extent: nothing is moved.
  lemma EmptySegmentStalls()
    ensures Reach(0, [Extent(0, 5)], 0, [Segment(0, 0), Segment(100, 10)]) == 0
  {
    var iov := [Segment(0, 0), Segment(100, 10)];
    assert iov[1..] == [Segment(100, 10)] && iov[..1] == [Segment(0, 0)];
    assert FitStop(iov, 5) == 1;
    assert [Extent(0, 5)][..1] == [Extent(0, 5)] && |FileBytes([Extent(0, 5)])| == 5;
  }

  /** On these vectors the whole transfer moves nothing and asks nothing of any driver. */
  method EmptySegmentMovesNothing<S(!new)>(f: Driver<S>, s0: S) returns (r: int, s: S)
    requires Honest(f)
    ensures r == 0 && s == s0
  {
    EmptySegmentStalls();
    hide Reach, Logged, MemBytes, FileBytes;
    ghost var trace, log;
    r, s, trace, log := DoIO([Extent(0, 5)], [Segment(0, 0), Segment(100, 10)], f, s0);
  }

  // A driver that is never short.
  ghost predicate Full<S(!new)>(f: Driver<S>) {
    forall s: S, base: int, n: nat, off: int :: f(s, base, n, off).1 == n
  }

  /** Extents that touch are one run: an empty segment before one that is longer than the first extent
      does not stop the transfer, which moves all ten bytes. */
  method TouchingExtents<S(!new)>(f: Driver<S>, s0: S) returns (r: int, s: S)
    requires Full(f)
    ensures r == 10
  {
    var (xtv, iov) := ([Extent(0, 5), Extent(5, 5)], [Segment(0, 0), Segment(100, 10)]);
    TouchingReach();
    hide Reach, Logged, MemBytes, FileBytes;
    ghost var trace, log;
    r, s, trace, log := DoIO(xtv, iov, f, s0);
    FullNotShort(f, s0, xtv, iov, r, s, trace);
  }

  lemma TouchingReach()
    ensures Reach(0, [Extent(0, 5), Extent(5, 5)], 0, [Segment(0, 0), Segment(100, 10)]) == 10
  {
    var (xtv, iov) := ([Extent(0, 5), Extent(5, 5)], [Segment(0, 0), Segment(100, 10)]);
    assert iov[1..] == [Segment(100, 10)] && iov[1..][1..] == [];
    assert xtv[1..] == [Extent(5, 5)] && xtv[1..][1..] == [];
    assert |MemBytes(iov)| == 10 && |FileBytes(xtv)| == 10;
    assert RunEnds(xtv, 0) == RunEnds(xtv[1..], 5) == {10};
    CompleteIffNoStall(xtv, iov);
    assert !Crosses({10}, 0, 10);
    assert !Stalls({10}, 10, false, false, []);
    assert !Stalls({10}, 0, true, true, iov[1..]);
  }

  /** With such a driver a transfer moves all that `Reach` says. */
  lemma FullNotShort<S(!new)>(f: Driver<S>, s0: S, xtv: seq<Extent>, iov: seq<Segment>, r: int, s: S, t: Trace)
    requires Full(f) && Outcome(f, s0, xtv, iov, r, s, t)
    ensures r == Reach(0, xtv, 0, iov)
  {
    hide MemBytes, FileBytes, Reach;
    assert Genuine(f, s0, t);
    assert t.Then? ==> t.call.cc == t.call.n;
  }
}
