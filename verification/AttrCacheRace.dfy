/**
 The attribute and directory cache (drivers/sshfs/cache.c) under concurrency: any number of readers,
 each of which reads the write counter, asks the back end and adds the answer in three separate
 steps, and any number of changes, each of which takes effect at the back end in one step and
 invalidates the cache in a later one.
 */
module AttrCacheRace {

  type Path = string

  // What is cached of a path: its attributes, or its listing.
  datatype Item = Attr(path: Path) | Listing(path: Path)
  datatype Value = Stat(st: int) | Names(names: seq<string>)

  // A `cache_getattr` or `cache_getdir` under way: it has read the counter; it has also asked.
  datatype Reader = Counted(item: Item, wrctr: nat) | Fetched(item: Item, wrctr: nat, value: Value)

  // A change that has taken effect and has not invalidated yet, and the paths it will purge.
  // `cache_write` counts itself in `write_ctr`; all the others only purge.
  datatype Change = Change(paths: iset<Path>, counts: bool)

  datatype State = State(
    back: map<Item, Value>, cached: map<Item, Value>, writeCtr: nat,
    readers: map<nat, Reader>, changes: map<nat, Change>)

  datatype Event =
    | ReadCounter(r: nat, item: Item)
    | Fetch(r: nat)
    | Add(r: nat)
    | Effect(w: nat, change: Change, back: map<Item, Value>)
    | Invalidate(w: nat)
    | Expire(item: Item)

  // A change makes no difference outside the paths it purges.
  ghost predicate ChangesOnly(a: map<Item, Value>, b: map<Item, Value>, paths: iset<Path>) {
    forall i: Item :: i.path !in paths ==> (i in a <==> i in b) && (i in a ==> a[i] == b[i])
  }

  ghost predicate Enabled(s: State, e: Event) {
    match e
    case ReadCounter(r, _) => r !in s.readers
    case Fetch(r) => r in s.readers && s.readers[r].Counted?
    case Add(r) => r in s.readers && s.readers[r].Fetched?
    case Effect(w, c, b) => w !in s.changes && ChangesOnly(s.back, b, c.paths)
    case Invalidate(w) => w in s.changes
    case Expire(_) => true
  }

  // Attributes are added only if nothing has been counted since; a listing is added in any case.
  predicate Entitled(s: State, q: Reader) { q.item.Listing? || q.wrctr == s.writeCtr }

  ghost function Step(s: State, e: Event): State
    requires Enabled(s, e)
  {
    match e
    case ReadCounter(r, i) => s.(readers := s.readers[r := Counted(i, s.writeCtr)])
    case Fetch(r) =>
      var q := s.readers[r];
      if q.item in s.back then s.(readers := s.readers[r := Fetched(q.item, q.wrctr, s.back[q.item])])
      else s.(readers := s.readers - {r})
    case Add(r) =>
      var q := s.readers[r];
      s.(readers := s.readers - {r}, cached := if Entitled(s, q) then s.cached[q.item := q.value] else s.cached)
    case Effect(w, c, b) => s.(back := b, changes := s.changes[w := c])
    case Invalidate(w) =>
      var c := s.changes[w];
      s.(cached := map i: Item | i in s.cached && i.path !in c.paths :: s.cached[i],
         writeCtr := if c.counts then s.writeCtr + 1 else s.writeCtr,
         changes := s.changes - {w})
    case Expire(i) => s.(cached := s.cached - {i})
  }

  ghost predicate Pending(s: State, p: Path) {
    exists w :: w in s.changes && p in s.changes[w].paths
  }

  predicate Current(s: State, i: Item, v: Value) { i in s.back && s.back[i] == v }

  ghost predicate Up(s: State, i: Item, v: Value) { Current(s, i, v) || Pending(s, i.path) }

  // What is asked of one reader.
  ghost predicate ReaderFine(s: State, r: nat)
    requires r in s.readers
  {
    var q := s.readers[r];
    q.wrctr <= s.writeCtr && (q.Fetched? && Entitled(s, q) ==> Up(s, q.item, q.value))
  }

  // What is cached, and what a reader is still entitled to add, is up to date or awaits a purge.
  ghost predicate Inv(s: State) {
    (forall i :: i in s.cached ==> Up(s, i, s.cached[i])) && (forall r :: r in s.readers ==> ReaderFine(s, r))
  }

  // A change other than `w` to the path is still to invalidate.
  ghost predicate OtherPending(s: State, p: Path, w: nat) {
    exists v :: v in s.changes && v != w && p in s.changes[v].paths
  }

  // The reader has an answer that is out of date, and will still add it after `w`, the last change to
  // that path, has purged.
  ghost predicate OvertakenBy(s: State, r: nat, w: nat)
    requires w in s.changes
  {
    && r in s.readers && s.readers[r].Fetched?
    && var q := s.readers[r];
       && (q.item.Listing? || (q.wrctr == s.writeCtr && !s.changes[w].counts))
       && q.item.path in s.changes[w].paths && !Current(s, q.item, q.value)
       && !OtherPending(s, q.item.path, w)
  }

  // A purge that comes between the fetch and the add of some reader, and does not stop it.
  ghost predicate Hazard(s: State, e: Event)
    requires Enabled(s, e)
  {
    e.Invalidate? && exists r :: OvertakenBy(s, r, e.w)
  }

  // A step other than an invalidation leaves every pending change pending.
  lemma UpStays(s: State, e: Event, i: Item, v: Value)
    requires Enabled(s, e) && !e.Invalidate? && Up(s, i, v)
    ensures Up(Step(s, e), i, v)
  {
    var t := Step(s, e);
    if Pending(s, i.path) {
      var w :| w in s.changes && i.path in s.changes[w].paths;
      assert w in t.changes && t.changes[w] == s.changes[w];
    } else if e.Effect? && i.path in e.change.paths {
      assert e.w in t.changes && t.changes[e.w] == e.change;
    }
  }

  // An invalidation concerns no path but its own.
  lemma UpStaysElsewhere(s: State, w: nat, i: Item, v: Value)
    requires w in s.changes && i.path !in s.changes[w].paths && Up(s, i, v)
    ensures Up(Step(s, Invalidate(w)), i, v)
  {
    if Pending(s, i.path) {
      var u :| u in s.changes && i.path in s.changes[u].paths;
      assert u in Step(s, Invalidate(w)).changes;
    }
  }

  lemma UpWithOther(s: State, w: nat, i: Item, v: Value)
    requires w in s.changes && i.path in s.changes[w].paths
    ensures Up(Step(s, Invalidate(w)), i, v) <==> Current(s, i, v) || OtherPending(s, i.path, w)
  {
    var t := Step(s, Invalidate(w));
    if OtherPending(s, i.path, w) {
      var u :| u in s.changes && u != w && i.path in s.changes[u].paths;
      assert u in t.changes;
    }
    if Pending(t, i.path) {
      var u :| u in t.changes && i.path in t.changes[u].paths;
      assert u in s.changes && u != w;
    }
  }

  lemma CachedStays(s: State, e: Event)
    requires Inv(s) && Enabled(s, e)
    ensures var t := Step(s, e); forall i :: i in t.cached ==> Up(t, i, t.cached[i])
  {
    hide Up, Pending, ChangesOnly;
    var t := Step(s, e);
    forall i | i in t.cached
      ensures Up(t, i, t.cached[i])
    {
      if e.Invalidate? {
        UpStaysElsewhere(s, e.w, i, s.cached[i]);
      } else if e.Add? && i == s.readers[e.r].item && Entitled(s, s.readers[e.r]) {
        assert ReaderFine(s, e.r);
        UpStays(s, e, i, s.readers[e.r].value);
      } else {
        UpStays(s, e, i, s.cached[i]);
      }
    }
  }

  lemma ReaderStays(s: State, e: Event, r: nat)
    requires Inv(s) && Enabled(s, e) && r in Step(s, e).readers
    ensures ReaderFine(Step(s, e), r) <==> !(e.Invalidate? && OvertakenBy(s, r, e.w))
  {
    hide Up, Pending, OtherPending, ChangesOnly;
    var t := Step(s, e);
    var q := t.readers[r];
    assert r in s.readers ==> ReaderFine(s, r);
    if e.Invalidate? {
      if q.Fetched? && q.item.path in s.changes[e.w].paths {
        UpWithOther(s, e.w, q.item, q.value);
      } else if q.Fetched? && Entitled(s, q) {
        UpStaysElsewhere(s, e.w, q.item, q.value);
      }
    } else if q.Fetched? && Entitled(t, q) {
      if e == Fetch(r) {
        JustFetched(s, r);
      } else {
        UpStays(s, e, q.item, q.value);
      }
    }
  }

  lemma JustFetched(s: State, r: nat)
    requires Enabled(s, Fetch(r)) && s.readers[r].item in s.back
    ensures Up(Step(s, Fetch(r)), s.readers[r].item, s.back[s.readers[r].item])
  {
  }

  /** Exactly the steps that are no hazard keep the invariant. */
  lemma StepKeepsInvIff(s: State, e: Event)
    requires Inv(s) && Enabled(s, e)
    ensures Inv(Step(s, e)) <==> !Hazard(s, e)
  {
    hide Up, OvertakenBy, Step, ReaderFine, ChangesOnly;
    var t := Step(s, e);
    CachedStays(s, e);
    forall r | r in t.readers
      ensures ReaderFine(t, r) <==> !(e.Invalidate? && OvertakenBy(s, r, e.w))
    {
      ReaderStays(s, e, r);
    }
    if e.Invalidate? {
      ReadersKept(s, e.w);
    }
    assert Inv(t) <==> forall r :: r in t.readers ==> ReaderFine(t, r);
  }

  lemma ReadersKept(s: State, w: nat)
    requires w in s.changes
    ensures Step(s, Invalidate(w)).readers == s.readers
    ensures forall r :: OvertakenBy(s, r, w) ==> r in s.readers
  {
  }

  /** And a hazard does harm: the reader it overtakes leaves in the cache what is out of date, with
      nothing left to purge it. */
  lemma HazardLeavesStale(s: State, w: nat, r: nat)
    requires w in s.changes && OvertakenBy(s, r, w)
    ensures var t := Step(s, Invalidate(w));
            && Enabled(t, Add(r))
            && var (u, i) := (Step(t, Add(r)), s.readers[r].item);
               i in u.cached && !Current(u, i, u.cached[i]) && !Pending(u, i.path)
  {
    UpWithOther(s, w, s.readers[r].item, s.readers[r].value);
    var t := Step(s, Invalidate(w));
    assert Step(t, Add(r)).changes == t.changes;
  }

  /** A change that counts, as `cache_write` does, overtakes no reader of attributes.  Nothing keeps a
      change from overtaking a reader of a listing. */
  lemma CountedIsNoHazard(s: State, w: nat, r: nat)
    requires w in s.changes && s.changes[w].counts && r in s.readers && s.readers[r].item.Attr?
    ensures !OvertakenBy(s, r, w)
  {
  }

  ghost predicate IsRun(run: seq<State>, start: map<Item, Value>) {
    |run| > 0 &&
    if |run| == 1 then run[0] == State(start, map[], 0, map[], map[])
    else
      IsRun(run[..|run| - 1], start) && Leads(run[|run| - 2], run[|run| - 1])
  }

  ghost predicate Leads(s: State, t: State) {
    exists e :: Enabled(s, e) && t == Step(s, e) && !Hazard(s, e)
  }

  lemma {:induction false} RunKeepsInv(run: seq<State>, start: map<Item, Value>)
    requires IsRun(run, start)
    ensures Inv(run[|run| - 1])
  {
    if |run| > 1 {
      var (s, t) := (run[|run| - 2], run[|run| - 1]);
      RunKeepsInv(run[..|run| - 1], start);
      hide Step, Enabled, Hazard, Inv;
      var e :| Enabled(s, e) && t == Step(s, e) && !Hazard(s, e);
      StepKeepsInvIff(s, e);
    }
  }

  /** Under every interleaving of any number of readers and changes without a hazard, and so of
      getattrs and writes: what is cached of a path is what the back end has, unless a change to that
      path has taken effect and not invalidated yet. */
  lemma CachedOrPending(run: seq<State>, start: map<Item, Value>, i: Item)
    requires IsRun(run, start) && i in run[|run| - 1].cached
    ensures var s := run[|run| - 1]; Current(s, i, s.cached[i]) || Pending(s, i.path)
  {
    RunKeepsInv(run, start);
  }

  // A reader of an item asks, a change replaces its value and invalidates, and the reader adds.
  ghost function Overtaken(i: Item, v: Value, v': Value, c: Change): State
    requires i.path in c.paths
  {
    var s0 := State(map[i := v], map[], 0, map[], map[]);
    var s2 := Step(Step(s0, ReadCounter(0, i)), Fetch(0));
    var s3 := Step(s2, Effect(0, c, map[i := v']));
    Step(Step(s3, Invalidate(0)), Add(0))
  }

  /** There are hazards: a chmod between the fetch and the add of a getattr ... */
  lemma UncountedChangeLeavesStale(p: Path)
    ensures var s := Overtaken(Attr(p), Stat(0), Stat(1), Change(iset{p}, false));
            s.cached == map[Attr(p) := Stat(0)] && s.back == map[Attr(p) := Stat(1)] && s.changes == map[]
  {
  }

  /** ... and a mkdir between the fetch and the add of a getdir. */
  lemma MkdirLeavesStale(p: Path, name: string)
    ensures var s := Overtaken(Listing(p), Names([]), Names([name]), Change(iset{p, p + "/" + name}, false));
            s.cached == map[Listing(p) := Names([])] && s.back == map[Listing(p) := Names([name])] && s.changes == map[]
  {
  }
}
