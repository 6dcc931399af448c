/**
 Flushing asynchronous writes (drivers/sshfs/sshfs.c): the circular, doubly linked list of
 outstanding writes, its primitives, the head-swap with which `sshfs_flush` takes the writes
 begun before it, and the protocol between writers, replies and the flusher.
 */
module SftpFlush {

  // The head of a ring, or the link inside the request for write number `id`.
  class ListHead {
    var prev: ListHead
    var next: ListHead
    const id: nat

    constructor (id: nat)
      ensures prev == this && next == this && this.id == id
    {
      prev, next := this, this;
      this.id := id;
    }
  }

  function Succ(i: nat, n: nat): nat { if i + 1 < n then i + 1 else 0 }

  ghost predicate Distinct(c: seq<ListHead>) {
    forall i, j :: 0 <= i < j < |c| ==> c[i] != c[j]
  }

  // The nodes of `c`, in this order, form one circular doubly linked list.
  ghost predicate Cycle(c: seq<ListHead>)
    reads c
  {
    |c| > 0 && Distinct(c) &&
    forall i :: 0 <= i < |c| ==> c[i].next == c[Succ(i, |c|)] && c[Succ(i, |c|)].prev == c[i]
  }

  // A circular list can be read from any of its nodes.
  lemma Rotate(a: seq<ListHead>, b: seq<ListHead>)
    requires Cycle(a + b)
    ensures Cycle(b + a)
  {
    var (c, d) := (a + b, b + a);
    forall i | 0 <= i < |d|
      ensures d[i].next == d[Succ(i, |d|)] && d[Succ(i, |d|)].prev == d[i]
    {
      var k := if i < |b| then |a| + i else i - |b|;
      assert d[i] == c[k] && d[Succ(i, |d|)] == c[Succ(k, |c|)];
    }
    forall i, j | 0 <= i < j < |d|
      ensures d[i] != d[j]
    {
      var (k, l) := (if i < |b| then |a| + i else i - |b|, if j < |b| then |a| + j else j - |b|);
      assert d[i] == c[k] && d[j] == c[l];
    }
  }

  // `list_add`, in a list read from `head` on.
  method ListAdd(entry: ListHead, head: ListHead, ghost rest: seq<ListHead>)
    requires Cycle([head] + rest) && entry !in [head] + rest
    modifies head, rest, entry
    ensures Cycle([head, entry] + rest)
  {
    ghost var c := [head] + rest;
    assert c[0] == head && c[0].next == c[Succ(0, |c|)];
    var next := head.next;
    next.prev := entry;
    entry.next := next;
    entry.prev := head;
    head.next := entry;
    ghost var d := [head, entry] + rest;
    assert forall i :: 2 <= i < |d| ==> d[i] == c[i - 1];
  }

  // `list_del`, in a list read from the entry on.
  method ListDel(entry: ListHead, ghost rest: seq<ListHead>)
    requires Cycle([entry] + rest) && rest != []
    modifies rest
    ensures Cycle(rest)
  {
    ghost var c := [entry] + rest;
    assert c[0].next == c[Succ(0, |c|)] == rest[0];
    assert c[|c| - 1].next == c[Succ(|c| - 1, |c|)] && c[0].prev == c[|c| - 1] == rest[|rest| - 1];
    var prev, next := entry.prev, entry.next;
    next.prev := prev;
    prev.next := next;
    assert forall i :: 0 <= i < |rest| ==> rest[i] == c[i + 1];
  }

  // `list_empty`.
  method ListEmpty(head: ListHead, ghost rest: seq<ListHead>) returns (empty: bool)
    requires Cycle([head] + rest)
    ensures empty <==> rest == []
  {
    ghost var c := [head] + rest;
    assert c[0].next == c[Succ(0, |c|)];
    empty := head.next == head;
  }

  // `sshfs_write_end` takes a write off the ring it is on, the file's or the flusher's.
  method Remove(ghost head: ListHead, ghost before: seq<ListHead>, entry: ListHead, ghost after: seq<ListHead>)
    requires Cycle([head] + before + [entry] + after)
    modifies head, before, after
    ensures Cycle([head] + before + after)
  {
    ghost var front := [head] + before;
    assert front + [entry] + after == front + ([entry] + after);
    Rotate(front, [entry] + after);
    assert [entry] + after + front == [entry] + (after + front);
    ListDel(entry, after + front);
    Rotate(after, front);
  }

  // Where the head of a list that is not empty points back to.
  lemma LastOf(head: ListHead, init: seq<ListHead>, last: ListHead)
    requires Cycle([head] + (init + [last]))
    ensures head.prev == last && head != last && head !in init && last !in init
  {
    var c := [head] + (init + [last]);
    assert c[|c| - 1] == last && c[Succ(|c| - 1, |c|)] == head;
    assert forall i :: 0 <= i < |init| ==> init[i] == c[i + 1];
  }

  // Two rings without a node in common.
  ghost predicate Apart(head: ListHead, c: seq<ListHead>, head': ListHead, c': seq<ListHead>) {
    head != head' && head !in c' && head' !in c && forall x :: x in c ==> x !in c'
  }

  // The same with another ring at hand, which it does not touch.
  method AddApart(entry: ListHead, head: ListHead, ghost c: seq<ListHead>, ghost head': ListHead,
                  ghost c': seq<ListHead>)
    requires Cycle([head] + c) && entry != head && entry !in c && Cycle([head'] + c') && Apart(head, c, head', c')
    requires entry != head' && entry !in c'
    modifies head, c, entry
    ensures Cycle([head] + ([entry] + c)) && Cycle([head'] + c')
  {
    ListAdd(entry, head, c);
    assert [head, entry] + c == [head] + ([entry] + c);
    ghost var d := [head'] + c';
    assert forall i :: 0 <= i < |d| ==> d[i] == head' || d[i] in c';
  }

  // The head taken out of a ring, and closed on itself.
  method Detach(head: ListHead, ghost init: seq<ListHead>, ghost last: ListHead) returns (curr: ListHead)
    requires Cycle([head] + (init + [last]))
    modifies head, init, last
    ensures curr == last && Cycle([head] + []) && Cycle(init + [last]) && head != last && head !in init && last !in init
  {
    LastOf(head, init, last);
    curr := head.prev;
    ListDel(head, init + [last]);
    head.prev, head.next := head, head;
    assert [head] + [] == [head];
  }

  /** The splice of `sshfs_flush`: the file's ring becomes empty, and the flusher's own head has
      taken its place among the writes that were outstanding, in the same order. */
  method Splice(head: ListHead, mine: ListHead, ghost init: seq<ListHead>, ghost last: ListHead)
    requires Cycle([head] + (init + [last])) && mine !in [head] + (init + [last])
    modifies head, mine, init, last
    ensures Cycle([head] + []) && Cycle([mine] + (init + [last]))
  {
    hide Cycle, Distinct;
    assert mine != head && mine != last && mine !in init;
    var curr := Detach(head, init, last);
    Rotate(init, [last]);
    AddApart(mine, curr, init, head, []);
    Rotate([curr], [mine] + init);
    assert [mine] + init + [curr] == [mine] + (init + [last]);
  }

  // ---------------------------------------------------------------------------------
  // The protocol
  // ---------------------------------------------------------------------------------

  // Writes are numbered; a result of 0 is success, anything else the error recorded.  A ring is
  // known here by its members; `covers` is what the flush found outstanding when it started.
  datatype Flush = NotFlushing | Flushing(ring: set<nat>, covers: set<nat>)

  // `queue` is the file's ring.  `begun`, `failed`, `reports` and `reported` are history: the
  // writes ever begun, the errors writes have ended with, what the flushes returned, and which
  // flush an error has been reported by.
  datatype State = State(
    queue: set<nat>, flush: Flush, writeError: int,
    begun: set<nat>, failed: map<nat, int>, reports: seq<int>, reported: map<nat, nat>)

  datatype Event = Begin(w: nat) | End(w: nat, err: int) | FlushStart | FlushEnd

  const Init := State({}, NotFlushing, 0, {}, map[], [], map[])

  function FlushRing(s: State): set<nat> {
    match s.flush case NotFlushing => {} case Flushing(ring, _) => ring
  }

  // One flusher at a time; a flush that found writes waits until its own ring is empty.
  predicate Enabled(s: State, e: Event) {
    match e
    case Begin(w) => w !in s.begun
    case End(w, _) => w in s.queue + FlushRing(s)
    case FlushStart => s.flush.NotFlushing?
    case FlushEnd => s.flush.Flushing? && s.flush.ring == {}
  }

  // The end of `sshfs_flush`: hand out the error and forget it.
  function Report(s: State): State {
    var r := |s.reports|;
    s.(flush := NotFlushing, writeError := 0, reports := s.reports + [s.writeError],
       reported := map w | w in s.failed :: if w in s.reported then s.reported[w] else r)
  }

  function Step(s: State, e: Event): State
    requires Enabled(s, e)
  {
    match e
    case Begin(w) => s.(queue := s.queue + {w}, begun := s.begun + {w})
    case End(w, err) =>
      var t := if err != 0 then s.(writeError := err, failed := s.failed[w := err]) else s;
      if w in s.queue then t.(queue := s.queue - {w})
      else t.(flush := s.flush.(ring := s.flush.ring - {w}))
    case FlushStart =>
      if s.queue == {} then Report(s) else s.(queue := {}, flush := Flushing(s.queue, s.queue))
    case FlushEnd => Report(s)
  }

  // The error recorded is that of a failed write that no flush has reported.
  ghost predicate Recorded(s: State) {
    exists w :: w in s.failed && w !in s.reported && s.failed[w] == s.writeError
  }

  // What flush number `r` has returned is the error of a write that it reported.
  ghost predicate ReportedBy(s: State, r: nat)
    requires r < |s.reports|
  {
    exists w :: w in s.reported && w in s.failed && s.reported[w] == r && s.failed[w] == s.reports[r]
  }

  // An outstanding write is on exactly one ring; the flusher's ring holds exactly those it has
  // to wait for; an error is recorded exactly as long as some failure is unreported.
  ghost predicate Inv(s: State) {
    && s.queue !! FlushRing(s)
    && s.queue + FlushRing(s) <= s.begun - s.failed.Keys
    && (s.flush.Flushing? ==> s.flush.ring <= s.flush.covers <= s.begun && s.flush.covers !! s.queue)
    && s.reported.Keys <= s.failed.Keys <= s.begun
    && (forall w :: w in s.failed ==> s.failed[w] != 0)
    && (s.writeError != 0 <==> exists w :: w in s.failed && w !in s.reported)
    && (forall w :: w in s.reported ==> s.reported[w] < |s.reports| && s.reports[s.reported[w]] != 0)
    && (s.writeError != 0 ==> Recorded(s))
    && (forall r :: 0 <= r < |s.reports| && s.reports[r] != 0 ==> ReportedBy(s, r))
  }

  lemma ReportKeepsInv(s: State)
    requires Inv(s) && FlushRing(s) == {}
    ensures Inv(Report(s))
  {
    var t := Report(s);
    forall w | w in t.reported
      ensures t.reported[w] < |t.reports| && t.reports[t.reported[w]] != 0
    {
      if w !in s.reported {
        assert s.writeError != 0;
      }
    }
    forall r | 0 <= r < |t.reports| && t.reports[r] != 0
      ensures ReportedBy(t, r)
    {
      if r < |s.reports| {
        assert ReportedBy(s, r);
        var w :| w in s.reported && w in s.failed && s.reported[w] == r && s.failed[w] == s.reports[r];
        assert w in t.reported && t.reported[w] == r;
      } else {
        assert Recorded(s);
        var w :| w in s.failed && w !in s.reported && s.failed[w] == s.writeError;
        assert w in t.reported && t.reported[w] == r;
      }
    }
  }

  // What has been recorded and reported is so whatever other writes do.
  lemma RecordsKept(s: State, e: Event)
    requires Inv(s) && Enabled(s, e) && (e.Begin? || e.End? || (e.FlushStart? && s.queue != {}))
    ensures Step(s, e).writeError != 0 ==> Recorded(Step(s, e))
    ensures forall r :: 0 <= r < |s.reports| && s.reports[r] != 0 ==> ReportedBy(Step(s, e), r)
  {
    var t := Step(s, e);
    if e.End? && e.err != 0 {
      assert e.w in t.failed && e.w !in t.reported && t.failed[e.w] == t.writeError;
    } else if s.writeError != 0 {
      assert Recorded(s);
    }
    forall r | 0 <= r < |s.reports| && s.reports[r] != 0
      ensures ReportedBy(t, r)
    {
      assert ReportedBy(s, r);
      var w :| w in s.reported && w in s.failed && s.reported[w] == r && s.failed[w] == s.reports[r];
      assert w in t.reported && w in t.failed && t.failed[w] == s.failed[w];
    }
  }

  lemma StepKeepsInv(s: State, e: Event)
    requires Inv(s) && Enabled(s, e)
    ensures Inv(Step(s, e))
  {
    hide Recorded, ReportedBy;
    var t := Step(s, e);
    if e.FlushEnd? || (e.FlushStart? && s.queue == {}) {
      ReportKeepsInv(s);
    } else {
      RecordsKept(s, e);
      if e.End? && e.err != 0 {
        assert e.w in t.failed && e.w !in t.reported;
      }
    }
  }

  ghost predicate IsRun(run: seq<State>) {
    run != [] && run[0] == Init &&
    forall i :: 0 <= i < |run| - 1 ==> exists e :: Enabled(run[i], e) && run[i + 1] == Step(run[i], e)
  }

  lemma {:induction false} RunKeepsInv(run: seq<State>, n: nat)
    requires IsRun(run) && n < |run|
    ensures Inv(run[n])
  {
    hide Step, Enabled;
    if n > 0 {
      RunKeepsInv(run, n - 1);
      var e :| Enabled(run[n - 1], e) && run[n - 1 + 1] == Step(run[n - 1], e);
      StepKeepsInv(run[n - 1], e);
    }
  }

  // Outstanding: begun and not ended.
  function Outstanding(s: State): set<nat> { s.queue + FlushRing(s) }

  // The flush in `s` waits for those of `early` that are still outstanding, and for no others.
  predicate WaitsFor(s: State, early: set<nat>) {
    s.flush.Flushing? && s.flush.covers == early && s.flush.ring == early * Outstanding(s)
  }

  lemma WaitsForKept(s: State, e: Event, early: set<nat>)
    requires Inv(s) && Enabled(s, e) && Step(s, e).flush.Flushing?
    requires if s.flush.NotFlushing? then early == Outstanding(s) else WaitsFor(s, early)
    ensures WaitsFor(Step(s, e), early)
  {
    var t := Step(s, e);
    if s.flush.Flushing? {
      assert t.flush.covers == early;
      assert early !! t.queue && t.flush.ring <= early;
    } else {
      assert t.queue == {} && t.flush.ring == early;
    }
    assert forall w :: w in t.flush.ring <==> w in early * Outstanding(t);
  }

  lemma FinishesWhenCovered(s: State, early: set<nat>)
    requires WaitsFor(s, early)
    ensures Enabled(s, FlushEnd) <==> early !! Outstanding(s)
  {
  }

  // The flush that is going on in `run[j]` started in `run[i]`.
  predicate StartedAt(run: seq<State>, i: nat, j: nat)
    requires i < j < |run|
  {
    run[i].flush.NotFlushing? && forall k :: i < k <= j ==> run[k].flush.Flushing?
  }

  /** What a flush covers is fixed when it starts: as long as it goes on, its ring is exactly the
      covered writes that are still outstanding, so it can finish as soon as they have all
      ended, and later writes never hold it up. */
  lemma {:induction false} FlushWaitsForEarlierWrites(run: seq<State>, i: nat, j: nat)
    requires IsRun(run) && i < j < |run| && StartedAt(run, i, j)
    ensures WaitsFor(run[j], Outstanding(run[i]))
    ensures Enabled(run[j], FlushEnd) <==> Outstanding(run[i]) !! Outstanding(run[j])
    decreases j
  {
    hide IsRun, Step, Inv, Enabled, WaitsFor, Outstanding;
    RunKeepsInv(run, j - 1);
    var s := run[j - 1];
    var e := StepTaken(run, j - 1);
    if i < j - 1 {
      FlushWaitsForEarlierWrites(run, i, j - 1);
    }
    WaitsForKept(s, e, Outstanding(run[i]));
    FinishesWhenCovered(run[j], Outstanding(run[i]));
  }

  lemma StepTaken(run: seq<State>, i: nat) returns (e: Event)
    requires IsRun(run) && i + 1 < |run|
    ensures Enabled(run[i], e) && run[i + 1] == Step(run[i], e)
  {
    e :| Enabled(run[i], e) && run[i + 1] == Step(run[i], e);
  }

  /** No error is lost: in every reachable state a write that has ended with an error is either
      still on record, and then the next flush to finish returns it or a later one, or some
      flush that has finished returned an error after it. */
  lemma NoErrorIsLost(run: seq<State>, n: nat, w: nat)
    requires IsRun(run) && n < |run| && w in run[n].failed
    ensures var s := run[n];
            if w in s.reported then s.reported[w] < |s.reports| && s.reports[s.reported[w]] != 0
            else s.writeError != 0 && Report(s).reports[|s.reports|] != 0 && Report(s).reported[w] == |s.reports|
  {
    RunKeepsInv(run, n);
  }

  /** No error is invented: what is on record is the error of a write no flush has reported yet, and what
      a flush has returned is the error of a write it reported. */
  lemma NoErrorIsInvented(run: seq<State>, n: nat)
    requires IsRun(run) && n < |run|
    ensures run[n].writeError != 0 ==>
              exists w :: w in run[n].failed && w !in run[n].reported && run[n].failed[w] == run[n].writeError
    ensures forall r :: 0 <= r < |run[n].reports| && run[n].reports[r] != 0 ==> ReportedBy(run[n], r)
  {
    RunKeepsInv(run, n);
  }

  // ---------------------------------------------------------------------------------
  // The protocol on the lists
  // ---------------------------------------------------------------------------------

  // The numbers of the writes on a list.
  ghost function Ids(c: seq<ListHead>): set<nat> { set x | x in c :: x.id }

  // Each is known by its number.
  ghost predicate Known(reqs: map<nat, ListHead>, c: seq<ListHead>) {
    forall x :: x in c ==> x.id in reqs && reqs[x.id] == x
  }

  method RemoveApart(entry: ListHead, ghost head: ListHead, ghost before: seq<ListHead>, ghost after: seq<ListHead>,
                     ghost head': ListHead, ghost c': seq<ListHead>)
    requires Cycle([head] + before + [entry] + after) && Cycle([head'] + c') &&
              Apart(head, before + [entry] + after, head', c')
    modifies head, before, after
    ensures Cycle([head] + (before + after)) && Cycle([head'] + c')
  {
    assert forall x :: x in before || x in after ==> x in before + [entry] + after;
    Remove(head, before, entry, after);
    assert [head] + before + after == [head] + (before + after);
    ghost var d := [head'] + c';
    assert forall i :: 0 <= i < |d| ==> d[i] == head' || d[i] in c';
  }

  lemma OneRing(head: ListHead)
    requires head.next == head && head.prev == head
    ensures Cycle([head] + [])
  {
    assert [head] + [] == [head];
  }

  lemma InRing(head: ListHead, c: seq<ListHead>)
    requires Cycle([head] + c)
    ensures head !in c
  {
    var d := [head] + c;
    assert forall i :: 0 <= i < |c| ==> c[i] == d[i + 1] && d[i + 1] != d[0];
  }

  // A node of a ring, and those before and behind it.
  lemma Split(head: ListHead, c: seq<ListHead>, x: ListHead) returns (before: seq<ListHead>, after: seq<ListHead>)
    requires Cycle([head] + c) && x in c
    ensures c == before + [x] + after && x !in before && x !in after
    ensures [head] + c == [head] + before + [x] + after
  {
    AllOnce(head, c);
    hide Cycle;
    var i :| 0 <= i < |c| && c[i] == x;
    before, after := c[..i], c[i + 1..];
  }

  lemma AllOnce(head: ListHead, c: seq<ListHead>)
    requires Cycle([head] + c)
    ensures Distinct(c)
  {
    var d := [head] + c;
    assert forall i :: 0 <= i < |c| ==> c[i] == d[i + 1];
  }

  lemma IdsWithout(reqs: map<nat, ListHead>, before: seq<ListHead>, x: ListHead, after: seq<ListHead>)
    requires Known(reqs, before + [x] + after) && x !in before && x !in after
    ensures Ids(before + after) == Ids(before + [x] + after) - {x.id} && Known(reqs, before + after)
  {
    forall w ensures w in Ids(before + after) <==> w in Ids(before + [x] + after) && w != x.id {
      if w in Ids(before + after) {
        var y :| y in before + after && y.id == w;
        assert y in before + [x] + after && y != x;
      }
      if w in Ids(before + [x] + after) && w != x.id {
        var y :| y in before + [x] + after && y.id == w;
        assert y in before + after;
      }
    }
  }

  lemma IdsMore(x: ListHead, c: seq<ListHead>)
    ensures Ids([x] + c) == {x.id} + Ids(c)
  {
    forall w ensures w in Ids([x] + c) <==> w == x.id || w in Ids(c) {
      if w == x.id {
        assert x in [x] + c;
      }
      if w in Ids(c) {
        var y :| y in c && y.id == w;
        assert y in [x] + c;
      }
    }
  }

  lemma KnownStill(reqs: map<nat, ListHead>, c: seq<ListHead>, w: nat, entry: ListHead)
    requires Known(reqs, c) && w !in Ids(c)
    ensures Known(reqs[w := entry], c)
  {
  }

  lemma KnownWithout(reqs: map<nat, ListHead>, c: seq<ListHead>, w: nat)
    requires Known(reqs, c) && w !in Ids(c)
    ensures Known(reqs - {w}, c)
  {
  }

  // One link is taken off one of two rings.
  lemma TakenOff(reqs: map<nat, ListHead>, h: ListHead, before: seq<ListHead>, x: ListHead, after: seq<ListHead>,
                 h': ListHead, c': seq<ListHead>)
    requires Known(reqs, before + [x] + after) && Known(reqs, c') && x !in before && x !in after
    requires Apart(h, before + [x] + after, h', c') || Apart(h', c', h, before + [x] + after)
    ensures Apart(h, before + [x] + after, h', c') && Apart(h, before + after, h', c') &&
              Apart(h', c', h, before + after)
    ensures Ids(before + after) == Ids(before + [x] + after) - {x.id} && Ids(c') == Ids(c') - {x.id}
    ensures Known(reqs - {x.id}, before + after) && Known(reqs - {x.id}, c')
    ensures forall y :: y in before + after ==> y in before + [x] + after
  {
    IdsWithout(reqs, before, x, after);
    KnownWithout(reqs, before + after, x.id);
    assert x in before + [x] + after;
    assert forall y :: y in c' ==> y.id != x.id;
    KnownWithout(reqs, c', x.id);
  }

  // What each step does to the two rings and the error.
  lemma BeginStep(s: State, w: nat)
    requires Inv(s) && w !in s.begun
    ensures var t := Step(s, Begin(w));
            Inv(t) && t.queue == {w} + s.queue && FlushRing(t) == FlushRing(s) && t.writeError == s.writeError
    ensures w !in s.queue && w !in FlushRing(s)
  {
    StepKeepsInv(s, Begin(w));
  }

  lemma EndStep(s: State, w: nat, err: int)
    requires Inv(s) && w in Outstanding(s)
    ensures var t := Step(s, End(w, err));
            && Inv(t) && t.writeError == (if err != 0 then err else s.writeError)
            && t.queue == s.queue - {w} && FlushRing(t) == FlushRing(s) - {w}
    ensures w !in s.queue || w !in FlushRing(s)
  {
    StepKeepsInv(s, End(w, err));
  }

  lemma FlushSteps(s: State)
    requires Inv(s)
    ensures s.flush.NotFlushing? ==>
              var t := Step(s, FlushStart);
              && Inv(t) && FlushRing(s) == {} && t.queue == {} && FlushRing(t) == s.queue
              && (s.queue == {} ==> t == Report(s) && t.flush.NotFlushing?)
              && (s.queue != {} ==> t.flush.Flushing? && t.writeError == s.writeError)
    ensures Enabled(s, FlushEnd) ==>
              var t := Step(s, FlushEnd); Inv(t) && t.queue == s.queue && FlushRing(t) == {} && t == Report(s)
    ensures Report(s).writeError == 0 && Report(s).reports == s.reports + [s.writeError]
  {
    if s.flush.NotFlushing? {
      StepKeepsInv(s, FlushStart);
    } else if Enabled(s, FlushEnd) {
      StepKeepsInv(s, FlushEnd);
    }
  }

  lemma NoIds(c: seq<ListHead>)
    ensures Ids(c) == {} <==> c == []
  {
    if c != [] {
      assert c[0].id in Ids(c);
    }
  }

  /** The writes of one file: its ring, the ring of the flush that is going on, the requests under
      way by number, and the error recorded.  `state` is the state of the protocol above. */
  class FileWrites {
    const head: ListHead
    var mine: ListHead
    var reqs: map<nat, ListHead>
    var writeError: int
    ghost var queued: seq<ListHead>
    ghost var flushed: seq<ListHead>
    ghost var state: State

    // The links of both rings.
    ghost function Repr(): set<ListHead>
      reads this
    {
      {head, mine} + (set x | x in queued) + (set x | x in flushed)
    }

    ghost predicate Valid()
      reads this, Repr()
    {
      && Cycle([head] + queued) && Cycle([mine] + flushed)
      && Apart(head, queued, mine, flushed)
      && Known(reqs, queued) && Known(reqs, flushed)
      && Ids(queued) == state.queue && Ids(flushed) == FlushRing(state)
      && writeError == state.writeError && Inv(state)
    }

    constructor ()
      ensures Valid() && fresh(Repr()) && state == Init
    {
      head := new ListHead(0);
      mine := new ListHead(0);
      reqs, writeError, queued, flushed, state := map[], 0, [], [], Init;
      new;
      OneRing(head);
      OneRing(mine);
    }

    /** `sshfs_write_begin`. */
    method Begin(w: nat)
      requires Valid() && w !in state.begun
      modifies this, Repr()
      ensures Valid() && state == Step(old(state), Event.Begin(w))
      ensures fresh(Repr() - old(Repr()))
    {
      hide Cycle, Inv, Step, Ids;
      var entry := new ListHead(w);
      InRing(head, queued);
      AddApart(entry, head, queued, mine, flushed);
      IdsMore(entry, queued);
      BeginStep(state, w);
      KnownStill(reqs, queued, w, entry);
      KnownStill(reqs, flushed, w, entry);
      reqs := reqs[w := entry];
      queued := [entry] + queued;
      state := Step(state, Event.Begin(w));
    }

    /** `sshfs_write_end`: the write leaves whichever ring it is on. */
    method End(w: nat, err: int)
      requires Valid() && w in Outstanding(state)
      modifies this, Repr()
      ensures Valid() && state == Step(old(state), Event.End(w, err))
      ensures Repr() <= old(Repr())
    {
      hide Cycle, Inv, Step, Ids, Known, Apart, Distinct;
      OnOneRing(w);
      var entry := reqs[w];
      ghost var onQueue := entry in queued;
      ghost var (h, ring, h', ring') :=
          if onQueue then (head, queued, mine, flushed) else (mine, flushed, head, queued);
      ghost var before, after := Split(h, ring, entry);
      TakenOff(reqs, h, before, entry, after, h', ring');
      EndStep(state, w, err);
      if err != 0 {
        writeError := err;
      }
      RemoveApart(entry, h, before, after, h', ring');
      if onQueue {
        queued := before + after;
      } else {
        flushed := before + after;
      }
      reqs := reqs - {w};
      state := Step(state, Event.End(w, err));
    }

    // The end of `sshfs_flush`: the error is handed out and forgotten.
    method TakeError() returns (err: int)
      requires writeError == state.writeError
      modifies `writeError, `state
      ensures err == old(writeError) && writeError == 0 && state == Report(old(state))
    {
      err := writeError;
      writeError := 0;
      state := Report(state);
    }

    /** `sshfs_flush` up to its loop: with nothing outstanding it is over at once; otherwise it takes
        the writes on the file's ring over to a ring of its own. */
    method FlushStart() returns (over: bool, err: int)
      requires Valid() && state.flush.NotFlushing?
      modifies this, Repr()
      ensures Valid() && state == Step(old(state), Event.FlushStart) && over == state.flush.NotFlushing?
      ensures queued == [] && flushed == old(queued) && fresh(Repr() - old(Repr()))
      ensures over ==> state.reports == old(state).reports + [err]
    {
      hide Cycle, Inv, Step, Ids, Known, Apart, Report;
      FlushSteps(state);
      NoIds(queued);
      NoIds(flushed);
      over := ListEmpty(head, queued);
      if over {
        err := TakeError();
        return;
      }
      err := 0;
      ghost var (init, last) := (queued[..|queued| - 1], queued[|queued| - 1]);
      assert queued == init + [last];
      InRing(head, queued);
      mine := new ListHead(0);
      Splice(head, mine, init, last);
      RingsSwapped(head, mine, queued);
      flushed := queued;
      queued := [];
      NoIds([]);
      assert [head] + [] == [head];
      state := Step(state, Event.FlushStart);
    }

    /** The test of its loop: whether the flusher's ring is empty, which is when it may finish. */
    method FlushMayEnd() returns (may: bool)
      requires Valid() && state.flush.Flushing?
      ensures may <==> Enabled(state, Event.FlushEnd)
      ensures may <==> flushed == []
    {
      hide Cycle, Inv;
      NoIds(flushed);
      may := ListEmpty(mine, flushed);
    }

    /** The end of a flush that had to wait. */
    method FlushEnd() returns (err: int)
      requires Valid() && Enabled(state, Event.FlushEnd)
      modifies this
      ensures Valid() && state == Step(old(state), Event.FlushEnd)
      ensures state.reports == old(state).reports + [err]
      ensures Repr() == old(Repr()) && flushed == []
    {
      hide Cycle, Inv, Step, Ids, Known, Apart, Report;
      FlushSteps(state);
      NoIds(flushed);
      err := TakeError();
    }

    // One event.
    method Do(e: Event)
      requires Valid() && Enabled(state, e)
      modifies this, Repr()
      ensures Valid() && state == Step(old(state), e)
      ensures fresh(Repr() - old(Repr()))
    {
      hide Cycle, Inv, Step, Ids, Known, Apart;
      match e {
        case Begin(w) => Begin(w);
        case End(w, err) => End(w, err);
        case FlushStart => var over, err := FlushStart();
        case FlushEnd =>
          var may := FlushMayEnd();
          if may {
            var err := FlushEnd();
          }
      }
    }

    // Where the request for an outstanding write is.
    lemma OnOneRing(w: nat)
      requires Valid() && w in Outstanding(state)
      ensures w in reqs && reqs[w].id == w
      ensures if w in state.queue then reqs[w] in queued && reqs[w] !in flushed
              else reqs[w] in flushed && reqs[w] !in queued
    {
      hide Cycle, Inv;
      if w in state.queue {
        var x :| x in queued && x.id == w;
      } else {
        var x :| x in flushed && x.id == w;
      }
    }
  }

  lemma RingsSwapped(head: ListHead, mine: ListHead, c: seq<ListHead>)
    requires head != mine && head !in c
    ensures Apart(head, [], mine, c)
  {
  }

  // The states a sequence of events leads through.
  ghost predicate Possible(s: State, events: seq<Event>)
    decreases |events|
  {
    events != [] ==> Enabled(s, events[0]) && Possible(Step(s, events[0]), events[1..])
  }

  ghost function After(s: State, events: seq<Event>): State
    requires Possible(s, events)
    decreases |events|
  {
    if events == [] then s else After(Step(s, events[0]), events[1..])
  }

  /** Every run of the protocol is a run of the lists: both rings stay well formed, have no node in
      common, and hold exactly the writes outstanding. */
  method Run(file: FileWrites, events: seq<Event>)
    requires file.Valid() && Possible(file.state, events)
    modifies file, file.Repr()
    ensures file.Valid() && file.state == After(old(file.state), events)
    ensures Ids(file.queued) + Ids(file.flushed) == Outstanding(file.state)
  {
    hide Cycle, Inv, Step, Known, Apart, Ids, Enabled;
    var rest := events;
    while rest != []
      invariant file.Valid() && Possible(file.state, rest) && After(file.state, rest) == After(old(file.state), events)
      invariant fresh(file.Repr() - old(file.Repr()))
      decreases |rest|
    {
      file.Do(rest[0]);
      rest := rest[1..];
    }
  }
}
