/**
 The life of i-nodes (src/inode.c, include/inode.h): made, found again by identifier, held by base
 path nodes, open files and operations under way, turned into zombies when their name goes, and
 freed.
 */
module Inodes {
  import opened Basics

  const FS_ITBLSIZ := 503
  const MAX_INODES_MULTIPLIER := 3

  type Fid = seq<nat>

  datatype Inode = Inode(fid: Fid, ref: nat, zombie: bool, immune: bool)

  // The hash of a file identifier, an `unsigned`.
  function FidHash(fid: Fid): (h: nat)
    ensures h < 0x1_0000_0000
  {
    if fid == [] then 0 else (2 * FidHash(fid[..|fid| - 1]) + fid[|fid| - 1]) % 0x1_0000_0000
  }

  function Shelf(fid: Fid): (h: nat)
    ensures h < FS_ITBLSIZ
  {
    FidHash(fid) % FS_ITBLSIZ
  }

  // ---------------------------------------------------------------------------------
  // Who holds an i-node
  // ---------------------------------------------------------------------------------

  function RefOf(inodes: map<nat, Inode>, i: nat): nat { if i in inodes then inodes[i].ref else 0 }

  ghost function KeysOf(m: map<nat, nat>, i: nat): set<nat> { set k | k in m && m[k] == i }

  ghost function Users(m: map<nat, nat>, i: nat): nat { |KeysOf(m, i)| }

  lemma UsersAdd(m: map<nat, nat>, k: nat, v: nat, i: nat)
    requires k !in m
    ensures Users(m[k := v], i) == Users(m, i) + if v == i then 1 else 0
  {
    assert KeysOf(m[k := v], i) == if v == i then KeysOf(m, i) + {k} else KeysOf(m, i);
  }

  lemma UsersDrop(m: map<nat, nat>, k: nat, i: nat)
    requires k in m
    ensures Users(m, i) == Users(m - {k}, i) + if m[k] == i then 1 else 0
  {
    assert KeysOf(m, i) == if m[k] == i then KeysOf(m - {k}, i) + {k} else KeysOf(m - {k}, i);
  }

  // Base path nodes, open files and operations under way.
  datatype Holders = Holders(bases: map<nat, nat>, files: map<nat, nat>, held: multiset<nat>)

  ghost function Holds(h: Holders, i: nat): nat { Users(h.bases, i) + Users(h.files, i) + h.held[i] }

  /** Every count is the number of holders. */
  ghost predicate Counted(inodes: map<nat, Inode>, h: Holders) { forall i :: RefOf(inodes, i) == Holds(h, i) }

  // One holder more, or less, of one i-node.
  ghost predicate Gains(a: Holders, b: Holders, i: nat) {
    forall j :: Holds(b, j) == Holds(a, j) + if j == i then 1 else 0
  }

  lemma HeldGains(h: Holders, i: nat)
    ensures Gains(h, h.(held := h.held + multiset{i}), i)
    ensures h.held[i] > 0 ==> Gains(h.(held := h.held - multiset{i}), h, i)
  {
  }

  lemma BaseGains(h: Holders, b: nat, i: nat)
    ensures b !in h.bases ==> Gains(h, h.(bases := h.bases[b := i]), i)
    ensures b in h.bases ==> Gains(h.(bases := h.bases - {b}), h, h.bases[b])
  {
    forall j: nat ensures b !in h.bases ==> Users(h.bases[b := i], j) == Users(h.bases, j) + if j == i then 1 else 0 {
      if b !in h.bases {
        UsersAdd(h.bases, b, i, j);
      }
    }
    forall j: nat ensures b in h.bases ==>
        Users(h.bases, j) == Users(h.bases - {b}, j) + if j == h.bases[b] then 1 else 0 {
      if b in h.bases {
        UsersDrop(h.bases, b, j);
      }
    }
  }

  lemma FileGains(h: Holders, f: nat, i: nat)
    ensures f !in h.files ==> Gains(h, h.(files := h.files[f := i]), i)
    ensures f in h.files ==> Gains(h.(files := h.files - {f}), h, h.files[f])
  {
    forall j: nat ensures f !in h.files ==> Users(h.files[f := i], j) == Users(h.files, j) + if j == i then 1 else 0 {
      if f !in h.files {
        UsersAdd(h.files, f, i, j);
      }
    }
    forall j: nat ensures f in h.files ==>
        Users(h.files, j) == Users(h.files - {f}, j) + if j == h.files[f] then 1 else 0 {
      if f in h.files {
        UsersDrop(h.files, f, j);
      }
    }
  }

  // A count that goes up or down with its holders.
  lemma CountUp(a: map<nat, Inode>, h: Holders, b: map<nat, Inode>, k: Holders, i: nat)
    requires Counted(a, h) && Gains(h, k, i)
    requires forall j :: RefOf(b, j) == RefOf(a, j) + if j == i then 1 else 0
    ensures Counted(b, k)
  {
    hide Holds;
  }

  lemma CountDown(a: map<nat, Inode>, h: Holders, b: map<nat, Inode>, k: Holders, i: nat)
    requires Counted(a, h) && Gains(k, h, i)
    requires forall j :: RefOf(a, j) == RefOf(b, j) + if j == i then 1 else 0
    ensures Counted(b, k)
  {
    hide Holds;
  }

  // A reference changes hands.
  lemma CountMoves(a: map<nat, Inode>, h: Holders, m: Holders, k: Holders, i: nat)
    requires Counted(a, h) && Gains(m, h, i) && Gains(m, k, i)
    ensures Counted(a, k)
  {
    hide Holds;
  }

  /** An i-node is there as long as anything holds it; a zombie is there no longer. */
  lemma ThereWhileHeld(inodes: map<nat, Inode>, h: Holders, i: nat)
    requires Counted(inodes, h) && ZombiesHeld(inodes)
    ensures Holds(h, i) > 0 ==> i in inodes
    ensures i in inodes && inodes[i].zombie ==> Holds(h, i) > 0
  {
    hide Holds;
    assert RefOf(inodes, i) == Holds(h, i);
  }

  // ---------------------------------------------------------------------------------
  // The tables
  // ---------------------------------------------------------------------------------

  // Zombies are in no shelf.
  ghost predicate Shelved(inodes: map<nat, Inode>, table: seq<seq<nat>>) {
    && |table| == FS_ITBLSIZ
    && forall h, i :: 0 <= h < |table| ==>
         (i in table[h] <==> i in inodes && !inodes[i].zombie && Shelf(inodes[i].fid) == h)
  }

  ghost predicate Queued(inodes: map<nat, Inode>, queue: seq<nat>) {
    && (forall i :: i in queue <==> i in inodes)
    && Single(queue)
  }

  // A zombie is only there because it is held.
  ghost predicate ZombiesHeld(inodes: map<nat, Inode>) {
    forall i :: i in inodes && inodes[i].zombie ==> inodes[i].ref > 0
  }

  // No i-node is there twice.
  ghost predicate Single(s: seq<nat>) { s == [] || (s[0] !in s[1..] && Single(s[1..])) }

  lemma {:induction false} WithoutSingle(s: seq<nat>, x: nat)
    requires Single(s)
    ensures Single(Without(s, x))
  {
    if s != [] {
      WithoutSingle(s[1..], x);
      assert ([s[0]] + Without(s[1..], x))[1..] == Without(s[1..], x);
    }
  }

  lemma {:induction false} SingleMore(s: seq<nat>, x: nat)
    requires Single(s) && x !in s
    ensures Single(s + [x])
  {
    if s == [] {
      assert (s + [x])[1..] == [];
    } else {
      assert (s + [x])[1..] == s[1..] + [x];
      SingleMore(s[1..], x);
    }
  }

  lemma Requeued(inodes: map<nat, Inode>, queue: seq<nat>, i: nat)
    requires Queued(inodes, queue) && i in inodes
    ensures Queued(inodes, Without(queue, i) + [i])
  {
    WithoutSingle(queue, i);
    SingleMore(Without(queue, i), i);
  }

  lemma Dequeued(inodes: map<nat, Inode>, queue: seq<nat>, i: nat)
    requires Queued(inodes, queue)
    ensures Queued(inodes - {i}, Without(queue, i))
  {
    WithoutSingle(queue, i);
  }

  // Only the count of `i` changes.
  lemma RefOnly(inodes: map<nat, Inode>, table: seq<seq<nat>>, queue: seq<nat>, i: nat, n: nat)
    requires i in inodes && Shelved(inodes, table) && Queued(inodes, queue)
    ensures var now := inodes[i := inodes[i].(ref := n)]; Shelved(now, table) && Queued(now, queue) && |now| == |inodes|
  {
    assert inodes[i := inodes[i].(ref := n)].Keys == inodes.Keys;
    assert |inodes.Keys| == |inodes|;
  }

  lemma Unshelved(inodes: map<nat, Inode>, table: seq<seq<nat>>, i: nat, h: nat)
    requires i in inodes && Shelved(inodes, table) && h == Shelf(inodes[i].fid)
    ensures Shelved(inodes - {i}, table[h := Without(table[h], i)])
    ensures Shelved(inodes[i := inodes[i].(zombie := true)], table[h := Without(table[h], i)])
    ensures inodes[i].zombie ==> Shelved(inodes - {i}, table)
  {
    hide Shelf;
  }

  lemma MoreInodes(inodes: map<nat, Inode>, table: seq<seq<nat>>, queue: seq<nat>, i: nat, x: Inode, h: nat)
    requires i !in inodes && Shelved(inodes, table) && Queued(inodes, queue) && h == Shelf(x.fid) && !x.zombie
    ensures Shelved(inodes[i := x], table[h := [i] + table[h]]) && Queued(inodes[i := x], queue + [i])
    ensures |inodes[i := x]| == |inodes| + 1
  {
    hide Shelf;
    SingleMore(queue, i);
    assert inodes[i := x].Keys == inodes.Keys + {i};
    assert |inodes.Keys| == |inodes|;
  }

  lemma KilledDown(a: map<nat, Inode>, b: map<nat, Inode>, i: nat, h: Holders, k: Holders)
    requires Counted(a, h) && Gains(k, h, i) && i in a && a[i].ref > 0
    requires Killed(a, b, i)
    ensures Counted(b, k)
  {
    CountDown(a, h, b, k, i);
  }

  // One reference to `i` is given back; if it was a zombie's last, the i-node is freed.
  ghost predicate Released(a: map<nat, Inode>, b: map<nat, Inode>, i: nat) {
    && i in a && a[i].ref > 0
    && b == if a[i].ref == 1 && a[i].zombie then a - {i} else a[i := a[i].(ref := a[i].ref - 1)]
  }

  // One reference to `i` is given back, and it is a zombie from now on; if it was the last, it is freed.
  ghost predicate Killed(a: map<nat, Inode>, b: map<nat, Inode>, i: nat) {
    && i in a && a[i].ref > 0
    && b == if a[i].ref == 1 then a - {i} else a[i := a[i].(ref := a[i].ref - 1, zombie := true)]
  }

  // One reference more.
  ghost predicate Referenced(a: map<nat, Inode>, b: map<nat, Inode>, i: nat) {
    i in a && b == a[i := a[i].(ref := a[i].ref + 1)]
  }

  // Nothing holds it, and it may go.
  predicate Idle(inodes: map<nat, Inode>, i: nat) { i in inodes && inodes[i].ref == 0 && !inodes[i].immune }

  // Nothing has gone but what was idle, and what is left is as it was.
  ghost predicate OnlyIdleGone(a: map<nat, Inode>, b: map<nat, Inode>) {
    && (forall i :: i in b ==> i in a && b[i] == a[i])
    && (forall i :: i in a && i !in b ==> Idle(a, i))
  }

  // The idle ones among those seen are gone.
  ghost predicate Swept(a: map<nat, Inode>, seen: seq<nat>, b: map<nat, Inode>) {
    && (forall i :: i in b <==> i in a && !(i in seen && Idle(a, i)))
    && (forall i :: i in b ==> b[i] == a[i])
  }

  lemma {:induction false} NotBefore(q: seq<nat>, n: nat)
    requires Single(q) && n < |q|
    ensures q[n] !in q[..n]
  {
    if n > 0 {
      NotBefore(q[1..], n - 1);
      assert q[..n] == [q[0]] + q[1..][..n - 1];
    }
  }

  lemma NothingSwept(a: map<nat, Inode>, q: seq<nat>)
    ensures Swept(a, q[..0], a) && OnlyIdleGone(a, a)
  {
  }

  lemma OnlyIdleSwept(a: map<nat, Inode>, seen: seq<nat>, b: map<nat, Inode>)
    requires Swept(a, seen, b)
    ensures OnlyIdleGone(a, b)
  {
  }

  lemma SweptNext(a: map<nat, Inode>, q: seq<nat>, n: nat, b: map<nat, Inode>)
    requires Queued(a, q) && n < |q| && Swept(a, q[..n], b)
    ensures q[n..][0] == q[n] && q[n] in b && (Idle(b, q[n]) <==> Idle(a, q[n]))
    ensures Swept(a, q[..n + 1], if Idle(a, q[n]) then b - {q[n]} else b)
  {
    NotBefore(q, n);
    assert q[..n + 1] == q[..n] + [q[n]];
  }

  datatype Op =
    | New(fid: Fid, immune: bool) | Find(fid: Fid) | Release(i: nat)
    | Bind(b: nat, i: nat) | Drop(b: nat)
    | Open(f: nat, b: nat) | Close(f: nat)
    | Unlink(b: nat) | Rename(a: nat, b: nat) | Reclaim

  predicate Has(h: Holders, b: nat, i: nat) { b in h.bases && h.bases[b] == i }

  // The holders that a step speaks of are there.
  predicate Enabled(h: Holders, op: Op) {
    match op
    case New(fid, _) => fid != []
    case Find(fid) => fid != []
    case Release(i) => h.held[i] > 0
    case Bind(b, i) => h.held[i] > 0 || Has(h, b, i)
    case Drop(b) => b in h.bases
    case Open(f, b) => b in h.bases && f !in h.files
    case Close(f) => f in h.files
    case Unlink(b) => b in h.bases
    case Rename(a, b) => a in h.bases && a != b
    case Reclaim => true
  }

  ghost predicate Took(a: Holders, b: Holders, i: nat) { b == a.(held := a.held + multiset{i}) }

  function Bound(h: Holders, b: nat, i: nat): Holders {
    if Has(h, b, i) then h else h.(bases := h.bases[b := i], held := h.held - multiset{i})
  }

  function Renamed(h: Holders, a: nat, b: nat): Holders
    requires a in h.bases
  {
    if Has(h, b, h.bases[a]) then h else h.(bases := (h.bases - {a})[b := h.bases[a]])
  }

  // What a step makes of the holders.
  ghost predicate Moves(a: Holders, op: Op, b: Holders) {
    if !Enabled(a, op) then b == a else
      match op
      case New(_, _) => exists i :: Took(a, b, i)
      case Find(_) => b == a || exists i :: Took(a, b, i)
      case Release(i) => b == a.(held := a.held - multiset{i})
      case Bind(n, i) => b == Bound(a, n, i)
      case Drop(n) => b == a.(bases := a.bases - {n})
      case Open(f, n) => b == a.(files := a.files[f := a.bases[n]])
      case Close(f) => b == a.(files := a.files - {f})
      case Unlink(n) => b == a.(bases := a.bases - {n})
      case Rename(n, m) => b == Renamed(a, n, m)
      case Reclaim => b == a
  }

  // The i-node of which a step removes the name: the one a name had that goes, or is taken over by another.
  function GaveUp(h: Holders, op: Op): Option<nat> {
    match op
    case Unlink(b) => if b in h.bases then Some(h.bases[b]) else None
    case Rename(a, b) =>
      if a in h.bases && b in h.bases && h.bases[b] != h.bases[a] then Some(h.bases[b]) else None
    case _ => None
  }

  // A step turns that i-node into a zombie, and no other; what is new is none.
  ghost predicate Marks(a: map<nat, Inode>, b: map<nat, Inode>, gone: Option<nat>, unused: nat) {
    forall i :: i in b ==>
      if i in a then b[i].zombie == (a[i].zombie || gone == Some(i)) else !b[i].zombie && i >= unused
  }

  lemma NoMarks(a: map<nat, Inode>, unused: nat)
    ensures Marks(a, a, None, unused)
  {
  }

  // Counting up or down makes no zombies.
  lemma CountsMarkNothing(a: map<nat, Inode>, b: map<nat, Inode>, unused: nat)
    ensures forall i :: Released(a, b, i) || Referenced(a, b, i) ==> Marks(a, b, None, unused)
  {
  }

  // Some step of the run has removed a name of it.
  ghost predicate LostName(hs: seq<Holders>, ops: seq<Op>, i: nat) {
    exists n :: 0 <= n < |ops| && n < |hs| && GaveUp(hs[n], ops[n]) == Some(i)
  }

  lemma LostNameSnoc(hs: seq<Holders>, ops: seq<Op>, op: Op, last: Holders, i: nat)
    requires |hs| == |ops| + 1
    ensures LostName(hs + [last], ops + [op], i) <==> LostName(hs, ops, i) || GaveUp(hs[|ops|], op) == Some(i)
  {
    hide GaveUp;
    var (now, done) := (hs + [last], ops + [op]);
    if LostName(hs, ops, i) {
      var n :| 0 <= n < |ops| && GaveUp(hs[n], ops[n]) == Some(i);
      assert now[n] == hs[n] && done[n] == ops[n];
    }
    if GaveUp(hs[|ops|], op) == Some(i) {
      assert now[|ops|] == hs[|ops|] && done[|ops|] == op;
    }
    if LostName(now, done, i) {
      var n :| 0 <= n < |done| && n < |now| && GaveUp(now[n], done[n]) == Some(i);
      assert n < |ops| ==> hs[n] == now[n] && ops[n] == done[n];
    }
  }

  lemma NoneLost(hs: seq<Holders>)
    ensures forall i: nat :: !LostName(hs, [], i)
  {
  }

  // Zombies are those of the start and those that have lost a name; these have all been there.
  ghost predicate ZombiesOf(a: map<nat, Inode>, hs: seq<Holders>, ops: seq<Op>, b: map<nat, Inode>, unused: nat) {
    && (forall i :: i in b ==> (b[i].zombie <==> (i in a && a[i].zombie) || LostName(hs, ops, i)))
    && (forall i: nat :: i in a || LostName(hs, ops, i) ==> i < unused)
  }

  lemma ZombiesOfSnoc(a: map<nat, Inode>, hs: seq<Holders>, ops: seq<Op>, b: map<nat, Inode>, unused: nat, op: Op,
                      last: Holders, c: map<nat, Inode>, now: nat)
    requires |hs| == |ops| + 1 && ZombiesOf(a, hs, ops, b, unused) && now >= unused
    requires Marks(b, c, GaveUp(hs[|ops|], op), unused)
    requires forall i: nat :: GaveUp(hs[|ops|], op) == Some(i) ==> i < unused
    ensures ZombiesOf(a, hs + [last], ops + [op], c, now)
  {
    hide GaveUp, LostName;
    forall i: nat
      ensures LostName(hs + [last], ops + [op], i) <==> LostName(hs, ops, i) || GaveUp(hs[|ops|], op) == Some(i)
    {
      LostNameSnoc(hs, ops, op, last, i);
    }
  }

  class InodeCache {
    var inodes: map<nat, Inode>
    var table: seq<seq<nat>>      // fs_itbl
    var queue: seq<nat>           // _sysio_inodes
    var nInodes: nat
    var maxInodes: nat
    var maxNames: nat
    var next: nat
    var holders: Holders

    ghost predicate Sane()
      reads this
    {
      && Shelved(inodes, table) && Queued(inodes, queue) && ZombiesHeld(inodes)
      && nInodes == |inodes|
      && forall i :: i in inodes ==> i < next
    }

    ghost predicate Valid()
      reads this
    {
      Sane() && Counted(inodes, holders)
    }

    constructor ()
      ensures Valid() && inodes == map[]
    {
      inodes, queue, nInodes, next := map[], [], 0, 0;
      maxInodes, maxNames := MAX_INODES_MULTIPLIER * 251, 2 * 251;
      table := seq(FS_ITBLSIZ, _ => []);
      holders := Holders(map[], map[], multiset{});
    }

    // I_REF.
    method IRef(i: nat)
      requires Sane() && i in inodes
      modifies `queue, `inodes
      ensures Sane() && Referenced(old(inodes), inodes, i) && queue == Without(old(queue), i) + [i]
    {
      hide Shelved, Queued;
      Requeued(inodes, queue, i);
      queue := Without(queue, i) + [i];
      RefOnly(inodes, table, queue, i, inodes[i].ref + 1);
      inodes := inodes[i := inodes[i].(ref := inodes[i].ref + 1)];
    }

    // `_sysio_i_gone`: aborts if the i-node is referenced.
    method IGone(i: nat)
      requires Shelved(inodes, table) && Queued(inodes, queue) && nInodes == |inodes|
      requires i in inodes && inodes[i].ref == 0
      modifies `table, `queue, `inodes, `nInodes
      ensures Shelved(inodes, table) && Queued(inodes, queue) && nInodes == |inodes|
      ensures inodes == old(inodes) - {i}
    {
      hide Shelved, Queued;
      var h := Shelf(inodes[i].fid);
      ShelvedSize();
      Unshelved(inodes, table, i, h);
      if !inodes[i].zombie {
        table := table[h := Without(table[h], i)];
      }
      Dequeued(inodes, queue, i);
      queue := Without(queue, i);
      assert inodes.Keys == (inodes - {i}).Keys + {i};
      assert |inodes.Keys| == |inodes|;
      inodes := inodes - {i};
      nInodes := nInodes - 1;
    }

    lemma ShelvedSize()
      requires Shelved(inodes, table)
      ensures |table| == FS_ITBLSIZ
    {
    }

    // I_RELE: the last release of a zombie frees it.
    method IRele(i: nat)
      requires Shelved(inodes, table) && Queued(inodes, queue) && nInodes == |inodes|
      requires forall j :: j in inodes ==> j < next
      requires i in inodes && inodes[i].ref > 0
      requires forall j :: j in inodes && j != i && inodes[j].zombie ==> inodes[j].ref > 0
      modifies `table, `queue, `inodes, `nInodes
      ensures Sane()
      ensures Released(old(inodes), inodes, i)
    {
      hide Shelved, Queued;
      ghost var was := inodes;
      RefOnly(inodes, table, queue, i, inodes[i].ref - 1);
      inodes := inodes[i := inodes[i].(ref := inodes[i].ref - 1)];
      if inodes[i].ref == 0 && inodes[i].zombie {
        IGone(i);
        assert inodes == was - {i};
      }
    }

    // `_sysio_i_undead`.
    method Undead(i: nat)
      requires Shelved(inodes, table) && Queued(inodes, queue) && nInodes == |inodes| && i in inodes
      modifies `table, `inodes
      ensures Shelved(inodes, table) && Queued(inodes, queue) && nInodes == |inodes|
      ensures inodes == old(inodes)[i := old(inodes)[i].(zombie := true)]
    {
      if inodes[i].zombie {
        assert inodes == inodes[i := inodes[i].(zombie := true)];
        return;
      }
      hide Shelved;
      var h := Shelf(inodes[i].fid);
      ShelvedSize();
      Unshelved(inodes, table, i, h);
      table := table[h := Without(table[h], i)];
      assert inodes[i := inodes[i].(zombie := true)].Keys == inodes.Keys;
      assert |inodes.Keys| == |inodes|;
      inodes := inodes[i := inodes[i].(zombie := true)];
    }

    /** `i_reclaim`: looks at the i-nodes at the head of the queue, at one at least, until half of the
        limit or the end is reached, and frees those of them that nothing holds and that are not immune.
        Below its minimum the limit is raised instead; and it is raised if too many are left. */
    method Reclaim() returns (ghost seen: nat)
      requires Valid()
      modifies `table, `queue, `inodes, `nInodes, `maxInodes
      ensures Valid() && seen <= |old(queue)|
      ensures Swept(old(inodes), old(queue)[..seen], inodes)
      ensures old(maxInodes) < MAX_INODES_MULTIPLIER * maxNames ==>
                seen == 0 && maxInodes == MAX_INODES_MULTIPLIER * maxNames
      ensures old(maxInodes) >= MAX_INODES_MULTIPLIER * maxNames ==>
                var half := old(maxInodes) / 2;
                && (seen == |old(queue)| || (seen > 0 && nInodes <= half))
                && (seen > 1 ==> nInodes + (if Idle(old(inodes), old(queue)[seen - 1]) then 1 else 0) > half)
                && maxInodes == old(maxInodes) + if seen > 0 && nInodes > half then half else 0
    {
      seen := 0;
      NothingSwept(inodes, queue);
      hide Shelved, Queued, Counted, ZombiesHeld, Idle, Swept;
      var t := MAX_INODES_MULTIPLIER * maxNames;
      if maxInodes < t {
        maxInodes := t;
        return;
      }
      if queue == [] {
        return;
      }
      t := maxInodes / 2;
      seen := Scan(t);
      if nInodes > t {
        maxInodes := maxInodes + t;
      }
    }

    // The scan of a queue that is not empty.
    method Scan(t: nat) returns (ghost seen: nat)
      requires Valid() && queue != []
      modifies `table, `queue, `inodes, `nInodes
      ensures Valid() && 0 < seen <= |old(queue)| && Swept(old(inodes), old(queue)[..seen], inodes)
      ensures seen == |old(queue)| || nInodes <= t
      ensures seen > 1 ==> nInodes + (if Idle(old(inodes), old(queue)[seen - 1]) then 1 else 0) > t
    {
      seen := 0;
      NothingSwept(inodes, queue);
      hide Valid, Queued, Idle, Swept;
      QueueIsSingle();
      var rest := queue;
      ghost var (a, q) := (inodes, queue);
      while true
        invariant Valid() && seen < |q| && rest == q[seen..]
        invariant Swept(a, q[..seen], inodes) && (seen > 0 ==> nInodes > t)
        decreases |rest|
      {
        ScanOne(a, q, seen, rest[0]);
        rest := rest[1..];
        seen := seen + 1;
        if !(rest != [] && nInodes > t) {
          break;
        }
      }
    }

    method ScanOne(ghost a: map<nat, Inode>, ghost q: seq<nat>, ghost seen: nat, i: nat)
      requires Valid() && Queued(a, q) && seen < |q| && i == q[seen] && Swept(a, q[..seen], inodes)
      modifies `table, `queue, `inodes, `nInodes
      ensures Valid() && Swept(a, q[..seen + 1], inodes)
      ensures nInodes == old(nInodes) - if Idle(a, q[seen]) then 1 else 0
    {
      hide Valid, Queued, Idle, Swept;
      SweptNext(a, q, seen, inodes);
      ReclaimOne(i);
    }

    lemma QueueIsSingle()
      requires Valid()
      ensures Queued(inodes, queue)
    {
    }

    // One i-node of the queue.
    method ReclaimOne(i: nat)
      requires Valid() && i in inodes
      modifies `table, `queue, `inodes, `nInodes
      ensures Valid() && inodes == if Idle(old(inodes), i) then old(inodes) - {i} else old(inodes)
      ensures nInodes == old(nInodes) - if Idle(old(inodes), i) then 1 else 0
    {
      if inodes[i].ref == 0 && !inodes[i].immune {
        hide Shelved, Queued, Holds;
        IGone(i);
        assert old(inodes).Keys == inodes.Keys + {i};
        assert |old(inodes).Keys| == |old(inodes)| && |inodes.Keys| == |inodes|;
        assert forall j :: RefOf(inodes, j) == RefOf(old(inodes), j);
      }
    }

    // The three kinds of step on one count.
    method Take(i: nat, k: Holders)
      requires Valid() && i in inodes && Gains(holders, k, i)
      modifies `queue, `inodes, `holders
      ensures Valid() && holders == k
      ensures Referenced(old(inodes), inodes, i) && queue == Without(old(queue), i) + [i]
    {
      hide Shelved, Queued, ZombiesHeld, Counted, Gains;
      IRef(i);
      CountUp(old(inodes), holders, inodes, k, i);
      holders := k;
    }

    method Give(i: nat, k: Holders)
      requires Valid() && Gains(k, holders, i)
      modifies `table, `queue, `inodes, `nInodes, `holders
      ensures Valid() && holders == k && Released(old(inodes), inodes, i)
    {
      HasHolder(i, k);
      hide Shelved, Queued, Counted, Gains;
      IRele(i);
      CountDown(old(inodes), holders, inodes, k, i);
      holders := k;
    }

    // I_GONE.
    method UndeadRele(i: nat)
      requires Sane() && i in inodes && inodes[i].ref > 0
      modifies `table, `queue, `inodes, `nInodes
      ensures Sane()
      ensures Killed(old(inodes), inodes, i)
    {
      hide Shelved, Queued;
      Undead(i);
      ghost var mid := inodes;
      assert mid - {i} == old(inodes) - {i};
      IRele(i);
    }

    method Kill(i: nat, k: Holders)
      requires Valid() && Gains(k, holders, i)
      modifies `table, `queue, `inodes, `nInodes, `holders
      ensures Valid() && holders == k
      ensures Killed(old(inodes), inodes, i) && (i in inodes <==> Holds(k, i) > 0)
    {
      HasHolder(i, k);
      hide Shelved, Queued, Counted, Gains, Holds, ZombiesHeld;
      UndeadRele(i);
      KilledDown(old(inodes), inodes, i, holders, k);
      holders := k;
      ThereWhileHeld(inodes, k, i);
    }

    lemma HasHolder(i: nat, k: Holders)
      requires Valid() && Gains(k, holders, i)
      ensures i in inodes && inodes[i].ref > 0
    {
      hide Holds;
      assert RefOf(inodes, i) == Holds(holders, i);
    }

    /** `_sysio_i_new`: a new i-node, held by whoever asked for it. */
    method New(fid: Fid, immune: bool) returns (i: nat)
      requires Valid() && fid != []
      modifies this
      ensures Valid() && i in inodes && inodes[i] == Inode(fid, 1, false, immune) && i >= old(next) && next == i + 1
      ensures OnlyIdleGone(old(inodes), inodes - {i})
      ensures old(nInodes) <= old(maxInodes) ==> inodes - {i} == old(inodes)
      ensures holders == old(holders).(held := old(holders).held + multiset{i})
    {
      NothingSwept(inodes, queue);
      hide Shelved, Queued, Counted, Holds, Swept, OnlyIdleGone, Idle, ZombiesHeld;
      if nInodes > maxInodes {
        ghost var seen := Reclaim();
        OnlyIdleSwept(old(inodes), old(queue)[..seen], inodes);
      }
      ghost var left := inodes;
      i := Add(fid, immune);
      assert inodes - {i} == left;
    }

    method Add(fid: Fid, immune: bool) returns (i: nat)
      requires Valid() && fid != []
      modifies this
      ensures Valid() && i == old(next) && i !in old(inodes) && inodes == old(inodes)[i := Inode(fid, 1, false, immune)]
      ensures next == i + 1 && queue == old(queue) + [i]
      ensures holders == old(holders).(held := old(holders).held + multiset{i})
    {
      hide Shelved, Queued, Counted, Gains, Holds, Shelf;
      i := next;
      next := next + 1;
      var h := Shelf(fid);
      ShelvedSize();
      MoreInodes(inodes, table, queue, i, Inode(fid, 1, false, immune), h);
      HeldGains(holders, i);
      ghost var now := inodes[i := Inode(fid, 1, false, immune)];
      CountUp(inodes, holders, now, holders.(held := holders.held + multiset{i}), i);
      queue := queue + [i];
      table := table[h := [i] + table[h]];
      inodes := inodes[i := Inode(fid, 1, false, immune)];
      nInodes := nInodes + 1;
      holders := holders.(held := holders.held + multiset{i});
    }

    /** `_sysio_i_find`: finds an i-node with the identifier if there is one that is no zombie. */
    method Find(fid: Fid) returns (r: Option<nat>)
      requires Valid() && fid != []
      modifies `queue, `inodes, `holders
      ensures Valid()
      ensures r.None? <==> forall i :: i in old(inodes) && old(inodes)[i].fid == fid ==> old(inodes)[i].zombie
      ensures r.Some? ==> r.value in inodes && inodes[r.value].fid == fid && !inodes[r.value].zombie
      ensures if r.None? then inodes == old(inodes) else Referenced(old(inodes), inodes, r.value)
      ensures holders == if r.Some? then old(holders).(held := old(holders).held + multiset{r.value}) else old(holders)
    {
      hide Counted, Gains, Holds, Queued, Shelf, ZombiesHeld;
      var list := table[Shelf(fid)];
      while list != [] && inodes[list[0]].fid != fid
        invariant forall i :: i in list ==> i in table[Shelf(fid)]
        invariant forall i :: i in table[Shelf(fid)] && inodes[i].fid == fid ==> i in list
        decreases |list|
      {
        list := list[1..];
      }
      if list == [] {
        return None;
      }
      r := Some(list[0]);
      HeldGains(holders, r.value);
      Take(r.value, holders.(held := holders.held + multiset{r.value}));
    }

    /** An operation is done with an i-node. */
    method Release(i: nat)
      requires Valid() && holders.held[i] > 0
      modifies `table, `queue, `inodes, `nInodes, `holders
      ensures Valid() && Released(old(inodes), inodes, i)
      ensures holders == old(holders).(held := old(holders).held - multiset{i})
    {
      HeldGains(holders, i);
      hide Shelved, Queued, Counted, Gains, Holds;
      Give(i, holders.(held := holders.held - multiset{i}));
    }

    /** `_sysio_p_validate`: a base node takes over the i-node that the lookup has come to; if it had another
        it gives back its reference to that one, which can be found as before. */
    method Bind(b: nat, i: nat)
      requires Valid() && (holders.held[i] > 0 || Has(holders, b, i))
      modifies `table, `queue, `inodes, `nInodes, `holders
      ensures Valid() && i in inodes && Has(holders, b, i) && holders == Bound(old(holders), b, i)
      ensures if b in old(holders).bases && !Has(old(holders), b, i)
              then Released(old(inodes), inodes, old(holders).bases[b]) else inodes == old(inodes)
    {
      hide Shelved, Queued, Counted, Gains, Holds, ZombiesHeld;
      if Has(holders, b, i) {
        BaseGains(holders, b, i);
        HasHolder(i, holders.(bases := holders.bases - {b}));
        return;
      }
      if b in holders.bases {
        BaseGains(holders, b, i);
        Give(holders.bases[b], holders.(bases := holders.bases - {b}));
      }
      HeldGains(holders, i);
      HasHolder(i, holders.(held := holders.held - multiset{i}));
      var m := holders.(held := holders.held - multiset{i});
      BaseGains(m, b, i);
      CountMoves(inodes, holders, m, m.(bases := m.bases[b := i]), i);
      holders := m.(bases := m.bases[b := i]);
      assert holders.bases == old(holders).bases[b := i];
    }

    /** `_sysio_pb_gone`: a base node goes. */
    method Drop(b: nat)
      requires Valid() && b in holders.bases
      modifies `table, `queue, `inodes, `nInodes, `holders
      ensures Valid() && holders == old(holders).(bases := old(holders).bases - {b})
      ensures Released(old(inodes), inodes, old(holders).bases[b])
    {
      hide Shelved, Queued, Counted, Gains, Holds, ZombiesHeld;
      BaseGains(holders, b, 0);
      Give(holders.bases[b], holders.(bases := holders.bases - {b}));
    }

    /** `_sysio_fuse_fnew`: an open file holds the i-node of its name. */
    method Open(f: nat, b: nat)
      requires Valid() && b in holders.bases && f !in holders.files
      modifies `queue, `inodes, `holders
      ensures Valid() && holders == old(holders).(files := old(holders).files[f := old(holders).bases[b]])
      ensures Referenced(old(inodes), inodes, old(holders).bases[b])
    {
      hide Shelved, Queued, Counted, Gains, Holds, ZombiesHeld;
      var i := holders.bases[b];
      BaseGains(holders, b, i);
      HasHolder(i, holders.(bases := holders.bases - {b}));
      FileGains(holders, f, i);
      Take(i, holders.(files := holders.files[f := i]));
    }

    /** `_sysio_fgone`. */
    method Close(f: nat)
      requires Valid() && f in holders.files
      modifies `table, `queue, `inodes, `nInodes, `holders
      ensures Valid() && holders == old(holders).(files := old(holders).files - {f})
      ensures Released(old(inodes), inodes, old(holders).files[f])
    {
      hide Shelved, Queued, Counted, Gains, Holds, ZombiesHeld;
      FileGains(holders, f, 0);
      Give(holders.files[f], holders.(files := holders.files - {f}));
    }

    /** The end of `unlink`: the name lets go of the i-node, which cannot be found any more; it
        lives on, as a zombie, exactly as long as something else holds it. */
    method Unlink(b: nat)
      requires Valid() && b in holders.bases
      modifies `table, `queue, `inodes, `nInodes, `holders
      ensures Valid() && holders == old(holders).(bases := old(holders).bases - {b})
      ensures var i := old(holders).bases[b]; Killed(old(inodes), inodes, i) && (i in inodes <==> Holds(holders, i) > 0)
    {
      hide Shelved, Queued, Counted, Gains, Holds, ZombiesHeld;
      BaseGains(holders, b, 0);
      Kill(holders.bases[b], holders.(bases := holders.bases - {b}));
    }

    /** The end of `rename`: what the new name had is killed, and it takes over from the old; nothing else
        changes, and nothing at all if both names have the same i-node. */
    method Rename(a: nat, b: nat)
      requires Valid() && a in holders.bases && a != b
      modifies `table, `queue, `inodes, `nInodes, `holders
      ensures Valid() && holders == Renamed(old(holders), a, b) && Has(holders, b, old(holders).bases[a])
      ensures if b in old(holders).bases && old(holders).bases[b] != old(holders).bases[a]
              then Killed(old(inodes), inodes, old(holders).bases[b]) else inodes == old(inodes)
    {
      hide Shelved, Queued, Counted, Gains, Holds, ZombiesHeld;
      var i := holders.bases[a];
      if b in holders.bases && holders.bases[b] == holders.bases[a] {
        return;
      }
      if b in holders.bases {
        BaseGains(holders, b, i);
        Kill(holders.bases[b], holders.(bases := holders.bases - {b}));
      }
      var m := holders.(bases := holders.bases - {a});
      BaseGains(holders, a, i);
      BaseGains(m, b, i);
      CountMoves(inodes, holders, m, m.(bases := m.bases[b := i]), i);
      holders := m.(bases := m.bases[b := i]);
      assert holders.bases == (old(holders).bases - {a})[b := i];
    }

    // One step of a run; a step for which the holder is missing is none.
    method Step(op: Op)
      requires Valid()
      modifies this
      ensures Valid() && next >= old(next) && Moves(old(holders), op, holders)
      ensures Marks(old(inodes), inodes, GaveUp(old(holders), op), old(next))
    {
      hide Shelved, Queued, Counted, Gains, Holds, ZombiesHeld;
      if !Enabled(holders, op) {
      } else if op.New? || op.Find? || op.Reclaim? {
        StepTables(op);
      } else if op.Unlink? || op.Rename? {
        StepNames(op);
      } else {
        StepHolders(op);
      }
    }

    method StepTables(op: Op)
      requires Valid() && Enabled(holders, op) && (op.New? || op.Find? || op.Reclaim?)
      modifies this
      ensures Valid() && next >= old(next) && Moves(old(holders), op, holders)
      ensures Marks(old(inodes), inodes, GaveUp(old(holders), op), old(next))
    {
      hide Shelved, Queued, Counted, Gains, Holds, ZombiesHeld, Idle, Swept;
      match op {
        case New(fid, immune) =>
          var i := New(fid, immune);
          assert Took(old(holders), holders, i);
        case Find(fid) =>
          var r := Find(fid);
          assert r.Some? ==> Took(old(holders), holders, r.value);
        case Reclaim =>
          ghost var seen := Reclaim();
          OnlyIdleSwept(old(inodes), old(queue)[..seen], inodes);
      }
    }

    method StepNames(op: Op)
      requires Valid() && Enabled(holders, op) && (op.Unlink? || op.Rename?)
      modifies this
      ensures Valid() && next >= old(next) && Moves(old(holders), op, holders)
      ensures Marks(old(inodes), inodes, GaveUp(old(holders), op), old(next))
    {
      hide Shelved, Queued, Counted, Gains, Holds, ZombiesHeld;
      match op {
        case Unlink(b) => Unlink(b);
        case Rename(a, b) => Rename(a, b);
      }
    }

    method StepHolders(op: Op)
      requires Valid() && Enabled(holders, op)
      requires op.Release? || op.Bind? || op.Drop? || op.Open? || op.Close?
      modifies this
      ensures Valid() && next >= old(next) && Moves(old(holders), op, holders)
      ensures Marks(old(inodes), inodes, GaveUp(old(holders), op), old(next))
    {
      NoMarks(inodes, next);
      hide Shelved, Queued, Counted, Gains, Holds, ZombiesHeld, Marks, Released, Referenced;
      match op {
        case Release(i) => Release(i);
        case Bind(b, i) => Bind(b, i);
        case Drop(b) => Drop(b);
        case Open(f, b) => Open(f, b);
        case Close(f) => Close(f);
      }
      CountsMarkNothing(old(inodes), inodes, old(next));
    }

    // What is given up has a holder, so it is there.
    lemma GivenUpIsThere(op: Op)
      requires Valid()
      ensures forall i :: GaveUp(holders, op) == Some(i) ==> i < next
    {
      if GaveUp(holders, op).Some? {
        BaseGains(holders, op.b, 0);
        HasHolder(holders.bases[op.b], holders.(bases := holders.bases - {op.b}));
      }
    }

    /** Over any run, every count is the number of holders, what is held is there, no zombie is
        in the tables or left without a holder, n_inodes counts the i-nodes, and an i-node is a zombie
        exactly if it was one before or some step of the run has removed a name of it. */
    method Run(ops: seq<Op>) returns (ghost hs: seq<Holders>)
      requires Valid()
      modifies this
      ensures Valid() && nInodes == |inodes|
      ensures |hs| == |ops| + 1 && hs[0] == old(holders) && hs[|ops|] == holders
      ensures forall n :: 0 <= n < |ops| ==> Moves(hs[n], ops[n], hs[n + 1])
      ensures forall i :: RefOf(inodes, i) == Holds(holders, i) && (Holds(holders, i) > 0 ==> i in inodes)
      ensures forall i :: i in inodes && inodes[i].zombie ==>
                Holds(holders, i) > 0 && forall h :: 0 <= h < |table| ==> i !in table[h]
      ensures forall i :: i in inodes ==>
                (inodes[i].zombie <==> (i in old(inodes) && old(inodes)[i].zombie) || LostName(hs, ops, i))
    {
      hide Holds, Shelf, Moves, GaveUp, LostName;
      hs := Steps(ops);
    }

    // The steps of a run.
    method Steps(ops: seq<Op>) returns (ghost hs: seq<Holders>)
      requires Valid()
      modifies this
      ensures Valid() && |hs| == |ops| + 1 && hs[0] == old(holders) && hs[|ops|] == holders
      ensures forall n :: 0 <= n < |ops| ==> Moves(hs[n], ops[n], hs[n + 1])
      ensures ZombiesOf(old(inodes), hs, ops, inodes, next)
    {
      hide Holds, Shelf, Moves, GaveUp, LostName, Marks, Shelved, Queued, Counted, ZombiesHeld;
      hs := [holders];
      NoneLost(hs);
      for n := 0 to |ops|
        invariant Valid() && |hs| == n + 1 && hs[0] == old(holders) && hs[n] == holders
        invariant forall k :: 0 <= k < n ==> Moves(hs[k], ops[k], hs[k + 1])
        invariant ZombiesOf(old(inodes), hs, ops[..n], inodes, next)
      {
        hide Valid, ZombiesOf;
        ghost var (a, m) := (inodes, next);
        GivenUpIsThere(ops[n]);
        Step(ops[n]);
        assert ops[..n + 1] == ops[..n] + [ops[n]];
        ZombiesOfSnoc(old(inodes), hs, ops[..n], a, m, ops[n], holders, inodes, next);
        hs := hs + [holders];
      }
      assert ops[..|ops|] == ops;
    }
  }
}
