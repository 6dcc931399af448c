/**
 The attribute and directory cache in front of an sshfs back end (drivers/sshfs/cache.c).
 The back end is any name space without hard links that changes only through the cache; each
 operation may change what its path, and the directory that path is in, answer, and no more.
 */
module AttrCache {
  import opened Basics

  type Path = string
  type Stat = int

  const MAX_CACHE_SIZE := 10000
  const MIN_CACHE_CLEAN_INTERVAL := 5
  const CACHE_CLEAN_INTERVAL := 60

  // ---------------------------------------------------------------------------------
  // Paths
  // ---------------------------------------------------------------------------------

  // The last separator at or before `i`, as `strrchr` finds it; -1 if there is none.
  function LastSlash(p: Path, i: int): (s: int)
    requires -1 <= i < |p|
    ensures -1 <= s <= i && (s >= 0 ==> p[s] == '/')
    ensures forall j :: s < j <= i ==> p[j] != '/'
    decreases i + 1
  {
    if i < 0 || p[i] == '/' then i else LastSlash(p, i - 1)
  }

  // The key `cache_purge_parent` removes, if any.
  function Parent(p: Path): Option<Path> {
    var s := LastSlash(p, |p| - 1);
    if s < 0 then None else if s == 0 then Some("/") else Some(p[..s])
  }

  // A path in the one form every object has: "/", or a normal directory, "/" and a name.
  predicate Normal(p: Path)
    decreases |p|
  {
    p == "/" ||
    (|p| > 0 &&
     var s := LastSlash(p, |p| - 1);
     s >= 0 && |p| > s + 1 && p[s + 1..] != "." && p[s + 1..] != ".." && (s == 0 || (p[..s] != "/" && Normal(p[..s]))))
  }

  // The path `cache_dirfill` builds for an entry.
  function Child(dir: Path, name: string): Path {
    (if |dir| <= 1 then "" else dir) + "/" + name
  }

  // `p` is `root` or lies below it.
  predicate Under(root: Path, p: Path) {
    p == root || root == "/" || (root + "/" <= p)
  }

  lemma SlashIs(p: Path, i: int, s: int)
    requires -1 <= s <= i < |p| && (s >= 0 ==> p[s] == '/') && forall j :: s < j <= i ==> p[j] != '/'
    ensures LastSlash(p, i) == s
  {
  }

  /** The parent of an entry is the directory it is in. */
  lemma ParentOfChild(dir: Path, name: string)
    requires Normal(dir) && name != [] && '/' !in name
    ensures Parent(Child(dir, name)) == Some(dir)
    ensures name != "." && name != ".." ==> Normal(Child(dir, name))
  {
    var (p, s) := (Child(dir, name), if dir == "/" then 0 else |dir|);
    NormalIsRooted(dir);
    SlashIs(p, |p| - 1, s);
    assert p[..s] == if dir == "/" then "" else dir;
    assert p[s + 1..] == name;
  }

  lemma NormalIsRooted(p: Path)
    requires Normal(p)
    ensures p != [] && (p != "/" ==> |p| > 1)
  {
  }

  /** What lies below a path lies below it by way of its parent. */
  lemma UnderByParent(root: Path, p: Path)
    requires Normal(root) && Normal(p) && p != "/"
    ensures Parent(p).Some? && Normal(Parent(p).value)
    ensures Under(root, p) <==> p == root || Under(root, Parent(p).value)
  {
    var s := LastSlash(p, |p| - 1);
    var up := Parent(p).value;
    var name := p[s + 1..];
    assert p == p[..s] + "/" + name;
    if root != "/" && p != root {
      NormalIsRooted(root);
      if root + "/" <= p {
        assert p[|root|] == '/';
        assert |root| <= s && p[..|root|] == root;
        assert |root| < s ==> p[..s][..|root| + 1] == p[..|root| + 1] == root + "/";
      }
      if Under(root, up) && s > 0 {
        assert up == p[..s];
        assert root + "/" <= p by {
          assert up == root ==> p[..s + 1] == root + "/";
        }
      }
    }
  }

  // ---------------------------------------------------------------------------------
  // The back end
  // ---------------------------------------------------------------------------------

  datatype Backend = Backend(attrs: map<Path, Stat>, dirs: map<Path, seq<string>>)

  function FetchAttr(b: Backend, p: Path): Option<Stat> {
    if p in b.attrs then Some(b.attrs[p]) else None
  }

  function FetchDir(b: Backend, p: Path): Option<seq<string>> {
    if p in b.dirs then Some(b.dirs[p]) else None
  }

  // Outside `touched` the two back ends answer alike.
  ghost predicate SameExcept(b: Backend, b': Backend, touched: iset<Path>) {
    forall p :: p !in touched ==> FetchAttr(b, p) == FetchAttr(b', p) && FetchDir(b, p) == FetchDir(b', p)
  }

  // The attributes that come with a listing, by name; they are those of the entries themselves.
  ghost predicate ListingOf(b: Backend, dir: Path, stats: map<string, Stat>) {
    forall n :: n in stats && Normal(Child(dir, n)) ==> FetchAttr(b, Child(dir, n)) == Some(stats[n])
  }

  datatype Op =
    | GetAttr(path: Path)
    | GetDir(path: Path, stats: map<string, Stat>)
    | ChangeEntry(path: Path, after: Backend)   // mknod, mkdir, unlink, rmdir, symlink, create
    | ChangeAttr(path: Path, after: Backend)    // chmod, chown, truncate, utime, ftruncate
    | Write(path: Path, after: Backend)
    | Rename(from: Path, to: Path, after: Backend)

  ghost function EntryScope(p: Path): iset<Path> {
    iset q | q == p || Parent(p) == Some(q)
  }

  ghost function RenameScope(from: Path, to: Path): iset<Path> {
    iset q | Under(from, q) || Under(to, q) || Parent(from) == Some(q) || Parent(to) == Some(q)
  }

  // What the back end may do in one successful operation.  A rename replaces at most an empty
  // directory: there is nothing below its target.
  ghost predicate Legal(b: Backend, op: Op) {
    match op
    case GetAttr(p) => Normal(p)
    case GetDir(p, stats) => Normal(p) && ListingOf(b, p, stats)
    case ChangeEntry(p, b') => Normal(p) && SameExcept(b, b', EntryScope(p))
    case ChangeAttr(p, b') => Normal(p) && SameExcept(b, b', iset{p})
    case Write(p, b') => Normal(p) && SameExcept(b, b', iset{p})
    case Rename(from, to, b') =>
      Normal(from) && Normal(to) && SameExcept(b, b', RenameScope(from, to)) &&
      forall q :: Under(to, q) && q != to ==> q !in b.attrs && q !in b.dirs
  }

  function After(b: Backend, op: Op): Backend {
    match op
    case GetAttr(_) => b
    case GetDir(_, _) => b
    case _ => op.after
  }

  // ---------------------------------------------------------------------------------
  // The table
  // ---------------------------------------------------------------------------------

  datatype Node = Node(stat: Stat, statValid: int, dir: Option<seq<string>>, dirValid: int, valid: int)

  type Table = map<Path, Node>

  function Max(a: int, b: int): int { if a > b then a else b }

  function NodeOf(t: Table, p: Path): Node {
    if p in t then t[p] else Node(0, 0, None, 0, 0)
  }

  function WithAttr(t: Table, p: Path, st: Stat, until: int): Table {
    var n := NodeOf(t, p);
    t[p := n.(stat := st, statValid := until, valid := Max(n.valid, until))]
  }

  function WithDir(t: Table, p: Path, names: seq<string>, until: int): Table {
    var n := NodeOf(t, p);
    t[p := n.(dir := Some(names), dirValid := until, valid := Max(n.valid, until))]
  }

  // `cache_clean_entry` for every node.
  function Cleaned(t: Table, now: int): Table {
    map p | p in t && now <= t[p].valid :: t[p]
  }

  // What the cache answers by itself at time `now`.
  function CachedAttr(t: Table, p: Path, now: int): Option<Stat> {
    if p in t && t[p].statValid >= now then Some(t[p].stat) else None
  }

  function CachedDir(t: Table, p: Path, now: int): Option<seq<string>> {
    if p in t && t[p].dir.Some? && t[p].dirValid >= now then t[p].dir else None
  }

  // From `now` on the two tables answer alike, for this path.
  ghost predicate AttrAsBefore(t: Table, u: Table, now: int, p: Path) {
    forall later :: later >= now ==> CachedAttr(u, p, later) == CachedAttr(t, p, later)
  }

  ghost predicate DirAsBefore(t: Table, u: Table, now: int, p: Path) {
    forall later :: later >= now ==> CachedDir(u, p, later) == CachedDir(t, p, later)
  }

  ghost predicate AsBefore(t: Table, u: Table, now: int, p: Path) {
    AttrAsBefore(t, u, now, p) && DirAsBefore(t, u, now, p)
  }

  // The attributes are answered from `now` up to `until`, and no longer.
  ghost predicate AttrHeld(t: Table, p: Path, st: Stat, now: int, until: int) {
    forall later :: later >= now ==> CachedAttr(t, p, later) == if later <= until then Some(st) else None
  }

  ghost predicate DirHeld(t: Table, p: Path, names: seq<string>, now: int, until: int) {
    forall later :: later >= now ==> CachedDir(t, p, later) == if later <= until then Some(names) else None
  }

  lemma HeldOn(t: Table, u: Table, now: int, p: Path)
    requires AsBefore(t, u, now, p)
    ensures forall st, until :: AttrHeld(t, p, st, now, until) ==> AttrHeld(u, p, st, now, until)
    ensures forall names, until :: DirHeld(t, p, names, now, until) ==> DirHeld(u, p, names, now, until)
  {
  }

  lemma AsBeforeOn(t: Table, u: Table, v: Table, now: int, p: Path)
    requires AsBefore(u, v, now, p)
    ensures AttrAsBefore(t, u, now, p) ==> AttrAsBefore(t, v, now, p)
    ensures DirAsBefore(t, u, now, p) ==> DirAsBefore(t, v, now, p)
  {
  }

  function PurgedParent(t: Table, p: Path): Table {
    match Parent(p) case None => t case Some(q) => t - {q}
  }

  // `cache_do_rename`: every key that begins with `from`, both paths, both parents.
  function Renamed(t: Table, from: Path, to: Path): Table {
    PurgedParent(PurgedParent((map p | p in t && !(from <= p) :: t[p]) - {from, to}, from), to)
  }

  // `valid` is never before either part's own expiry.
  predicate Bounded(n: Node) { n.statValid <= n.valid && n.dirValid <= n.valid }

  predicate AllBounded(t: Table) { forall p :: p in t ==> Bounded(t[p]) }

  // Whatever the cache would answer from `now` on, the back end would answer too.
  ghost predicate Coherent(t: Table, b: Backend, now: int) {
    forall p :: Normal(p) ==>
      (CachedAttr(t, p, now).Some? ==> CachedAttr(t, p, now) == FetchAttr(b, p)) &&
      (CachedDir(t, p, now).Some? ==> CachedDir(t, p, now) == FetchDir(b, p))
  }

  /** Cleaning is never observable: from then on every answer of the cleaned table is the
      answer of the table it was made from. */
  lemma CleaningIsInvisible(t: Table, now: int, later: int, p: Path)
    requires AllBounded(t) && now <= later
    ensures CachedAttr(Cleaned(t, now), p, later) == CachedAttr(t, p, later)
    ensures CachedDir(Cleaned(t, now), p, later) == CachedDir(t, p, later)
    ensures AllBounded(Cleaned(t, now))
  {
    if p in t {
      assert Bounded(t[p]);
    }
  }

  lemma CleaningKeepsCoherent(t: Table, b: Backend, now: int)
    requires AllBounded(t) && Coherent(t, b, now)
    ensures AllBounded(Cleaned(t, now)) && Coherent(Cleaned(t, now), b, now)
  {
    forall p | Normal(p)
      ensures (CachedAttr(Cleaned(t, now), p, now).Some? ==> CachedAttr(Cleaned(t, now), p, now) == FetchAttr(b, p))
      ensures (CachedDir(Cleaned(t, now), p, now).Some? ==> CachedDir(Cleaned(t, now), p, now) == FetchDir(b, p))
    {
      CleaningIsInvisible(t, now, now, p);
    }
  }

  // Entries only expire as time goes by.
  lemma TimePasses(t: Table, b: Backend, now: int, later: int)
    requires Coherent(t, b, now) && now <= later
    ensures Coherent(t, b, later)
  {
    forall p | Normal(p)
      ensures (CachedAttr(t, p, later).Some? ==> CachedAttr(t, p, later) == FetchAttr(b, p))
      ensures (CachedDir(t, p, later).Some? ==> CachedDir(t, p, later) == FetchDir(b, p))
    {
      assert CachedAttr(t, p, later).Some? ==> CachedAttr(t, p, later) == CachedAttr(t, p, now);
      assert CachedDir(t, p, later).Some? ==> CachedDir(t, p, later) == CachedDir(t, p, now);
    }
  }

  lemma AttrAdded(t: Table, b: Backend, now: int, p: Path, st: Stat, until: int)
    requires AllBounded(t) && Coherent(t, b, now) && now > 0
    requires Normal(p) ==> FetchAttr(b, p) == Some(st)
    ensures AllBounded(WithAttr(t, p, st, until)) && Coherent(WithAttr(t, p, st, until), b, now)
    ensures AttrHeld(WithAttr(t, p, st, until), p, st, now, until)
    ensures forall q :: DirAsBefore(t, WithAttr(t, p, st, until), now, q)
    ensures forall q :: q != p ==> AttrAsBefore(t, WithAttr(t, p, st, until), now, q)
  {
    var t' := WithAttr(t, p, st, until);
    forall q | Normal(q)
      ensures (CachedAttr(t', q, now).Some? ==> CachedAttr(t', q, now) == FetchAttr(b, q))
      ensures (CachedDir(t', q, now).Some? ==> CachedDir(t', q, now) == FetchDir(b, q))
    {
      assert CachedDir(t', q, now) == CachedDir(t, q, now);
      assert q != p ==> CachedAttr(t', q, now) == CachedAttr(t, q, now);
    }
  }

  lemma DirAdded(t: Table, b: Backend, now: int, p: Path, names: seq<string>, until: int)
    requires AllBounded(t) && Coherent(t, b, now) && now > 0
    requires FetchDir(b, p) == Some(names)
    ensures AllBounded(WithDir(t, p, names, until)) && Coherent(WithDir(t, p, names, until), b, now)
    ensures DirHeld(WithDir(t, p, names, until), p, names, now, until)
    ensures forall q :: AttrAsBefore(t, WithDir(t, p, names, until), now, q)
    ensures forall q :: q != p ==> DirAsBefore(t, WithDir(t, p, names, until), now, q)
  {
    var t' := WithDir(t, p, names, until);
    forall q | Normal(q)
      ensures (CachedAttr(t', q, now).Some? ==> CachedAttr(t', q, now) == FetchAttr(b, q))
      ensures (CachedDir(t', q, now).Some? ==> CachedDir(t', q, now) == FetchDir(b, q))
    {
      assert CachedAttr(t', q, now) == CachedAttr(t, q, now);
      assert q != p ==> CachedDir(t', q, now) == CachedDir(t, q, now);
    }
  }

  // A table with fewer keys, none of them touched by the change, is coherent with what follows.
  lemma PurgedIsCoherent(t: Table, t': Table, b: Backend, b': Backend, now: int, touched: iset<Path>)
    requires AllBounded(t) && Coherent(t, b, now) && SameExcept(b, b', touched)
    requires t'.Keys <= t.Keys && forall p :: p in t' ==> t'[p] == t[p]
    requires forall p :: p in t' && Normal(p) && p in touched ==>
               CachedAttr(t, p, now).None? && CachedDir(t, p, now).None?
    ensures AllBounded(t') && Coherent(t', b', now)
  {
    forall q | Normal(q)
      ensures (CachedAttr(t', q, now).Some? ==> CachedAttr(t', q, now) == FetchAttr(b', q))
      ensures (CachedDir(t', q, now).Some? ==> CachedDir(t', q, now) == FetchDir(b', q))
    {
      if q in t' {
        assert CachedAttr(t', q, now) == CachedAttr(t, q, now) && CachedDir(t', q, now) == CachedDir(t, q, now);
        if q !in touched {
          assert FetchAttr(b, q) == FetchAttr(b', q) && FetchDir(b, q) == FetchDir(b', q);
        }
      }
    }
  }

  /** Renaming drops every key below the old path (and more: every key that begins with it). */
  lemma RenameDropsSubtree(t: Table, from: Path, to: Path, p: Path)
    requires Normal(from) && Normal(p) && Under(from, p)
    ensures p !in Renamed(t, from, to)
  {
    if p != from {
      NormalStartsWithSlash(p);
      if from != "/" {
        assert from <= from + "/" <= p;
      }
    }
  }

  lemma {:induction false} NormalStartsWithSlash(p: Path)
    requires Normal(p)
    ensures "/" <= p
    decreases |p|
  {
    if p != "/" {
      var s := LastSlash(p, |p| - 1);
      if s > 0 {
        NormalStartsWithSlash(p[..s]);
        assert p[0] == p[..s][0];
      }
    }
  }

  /** No key that a rename may have changed is answered from the table afterwards. */
  lemma RenameKeepsCoherent(t: Table, b: Backend, b': Backend, now: int, from: Path, to: Path)
    requires AllBounded(t) && Coherent(t, b, now) && Legal(b, Rename(from, to, b'))
    ensures AllBounded(Renamed(t, from, to)) && Coherent(Renamed(t, from, to), b', now)
  {
    var t' := Renamed(t, from, to);
    forall p | p in t' && Normal(p) && p in RenameScope(from, to)
      ensures CachedAttr(t, p, now).None? && CachedDir(t, p, now).None?
    {
      if Under(from, p) {
        RenameDropsSubtree(t, from, to, p);
      } else {
        assert Under(to, p) && p != to;
        assert p !in b.attrs && p !in b.dirs;
        assert FetchAttr(b, p) == None && FetchDir(b, p) == None;
      }
    }
    PurgedIsCoherent(t, t', b, b', now, RenameScope(from, to));
  }

  // ---------------------------------------------------------------------------------
  // The cache
  // ---------------------------------------------------------------------------------

  class Cache {
    var table: Table
    var lastCleaned: int
    var writeCtr: nat
    const statTimeout: nat
    const dirTimeout: nat
    var back: Backend          // the back end behind the cache
    var clock: int             // the time of the latest operation
    var asked: nat             // how often the back end has been asked

    ghost predicate Valid()
      reads this
    {
      clock > 0 && AllBounded(table) && Coherent(table, back, clock)
    }

    constructor (back: Backend, statTimeout: nat, dirTimeout: nat)
      ensures Valid() && this.back == back && table == map[]
      ensures this.statTimeout == statTimeout && this.dirTimeout == dirTimeout
    {
      table, lastCleaned, writeCtr, clock, asked := map[], 0, 0, 1, 0;
      this.back, this.statTimeout, this.dirTimeout := back, statTimeout, dirTimeout;
    }

    method Tick(now: int)
      requires Valid() && now >= clock
      modifies `clock
      ensures Valid() && clock == now
    {
      TimePasses(table, back, clock, now);
      clock := now;
    }

    // It is time to clean.
    predicate Due()
      reads this
    {
      clock > lastCleaned + MIN_CACHE_CLEAN_INTERVAL &&
      (|table| > MAX_CACHE_SIZE || clock > lastCleaned + CACHE_CLEAN_INTERVAL)
    }

    // `cache_clean`: when it is time, exactly what has expired goes.
    method Clean()
      requires Valid()
      modifies `table, `lastCleaned
      ensures Valid() && forall p :: AsBefore(old(table), table, clock, p)
      ensures forall p :: p in table ==> p in old(table) && table[p] == old(table)[p]
      ensures forall p :: p in old(table) ==> (p in table <==> !old(Due()) || clock <= old(table)[p].valid)
      ensures lastCleaned == if old(Due()) then clock else old(lastCleaned)
    {
      if Due() {
        ghost var t := table;
        CleaningKeepsCoherent(table, back, clock);
        table := Cleaned(table, clock);
        lastCleaned := clock;
        forall p, later | later >= clock
          ensures CachedAttr(table, p, later) == CachedAttr(t, p, later)
          ensures CachedDir(table, p, later) == CachedDir(t, p, later)
        {
          CleaningIsInvisible(t, clock, later, p);
        }
      }
    }

    // `cache_add_attr`.
    method AddAttr(p: Path, st: Stat, wrctr: nat)
      requires Valid() && (Normal(p) ==> FetchAttr(back, p) == Some(st))
      modifies `table, `lastCleaned
      ensures Valid()
      ensures wrctr != writeCtr ==> table == old(table)
      ensures wrctr == writeCtr ==> AttrHeld(table, p, st, clock, clock + statTimeout)
      ensures forall q :: DirAsBefore(old(table), table, clock, q)
      ensures forall q :: q != p ==> AttrAsBefore(old(table), table, clock, q)
    {
      hide Coherent, AllBounded, WithAttr, AttrHeld, CachedAttr, CachedDir;
      if wrctr == writeCtr {
        AttrAdded(table, back, clock, p, st, clock + statTimeout);
        table := WithAttr(table, p, st, clock + statTimeout);
        ghost var t := table;
        Clean();
        HeldOn(t, table, clock, p);
        forall q ensures DirAsBefore(old(table), table, clock, q)
                 ensures q != p ==> AttrAsBefore(old(table), table, clock, q) {
          AsBeforeOn(old(table), t, table, clock, q);
        }
      }
    }

    /** `cache_getattr`: what the back end would answer; the back end is asked exactly if the cache does not
        hold the answer, and then the cache does until the time set for it. */
    method GetAttr(p: Path, now: int) returns (r: Option<Stat>)
      requires Valid() && Normal(p) && now >= clock
      modifies `table, `lastCleaned, `clock, `asked
      ensures Valid() && clock == now && r == FetchAttr(back, p)
      ensures asked == old(asked) + if CachedAttr(old(table), p, now).Some? then 0 else 1
      ensures asked > old(asked) && r.Some? ==> AttrHeld(table, p, r.value, now, now + statTimeout)
      ensures asked == old(asked) || r.None? ==> table == old(table)
      ensures forall q :: DirAsBefore(old(table), table, now, q) && (q != p ==> AttrAsBefore(old(table), table, now, q))
    {
      hide Coherent, AllBounded, AttrHeld;
      Tick(now);
      r := CachedAttr(table, p, now);
      if r.None? {
        var wrctr := writeCtr;
        asked := asked + 1;
        r := FetchAttr(back, p);
        if r.Some? {
          AddAttr(p, r.value, wrctr);
        }
      } else {
        IsCoherent(p, now);
      }
    }

    lemma IsCoherent(p: Path, now: int)
      requires Valid() && Normal(p) && now == clock
      ensures CachedAttr(table, p, now).Some? ==> CachedAttr(table, p, now) == FetchAttr(back, p)
      ensures CachedDir(table, p, now).Some? ==> CachedDir(table, p, now) == FetchDir(back, p)
    {
    }

    // The attributes `cache_dirfill` adds while the listing is read.
    method AddListed(dir: Path, names: seq<string>, stats: map<string, Stat>, wrctr: nat)
      requires Valid() && ListingOf(back, dir, stats)
      modifies `table, `lastCleaned
      ensures Valid()
      ensures wrctr == writeCtr ==> Listed(table, dir, names, stats, clock, clock + statTimeout)
    {
      hide Coherent, AllBounded, AttrHeld, Child;
      for i := 0 to |names|
        invariant Valid()
        invariant wrctr == writeCtr ==> Listed(table, dir, names[..i], stats, clock, clock + statTimeout)
      {
        assert names[..i + 1] == names[..i] + [names[i]];
        if names[i] in stats {
          ghost var t := table;
          AddAttr(Child(dir, names[i]), stats[names[i]], wrctr);
          if wrctr == writeCtr {
            ListedMore(t, table, dir, names[..i], names[i], stats, clock, clock + statTimeout);
          }
        }
      }
      assert names[..|names|] == names;
    }

    /** `cache_getdir`: the names the back end would list; the back end is asked exactly if the cache does
        not hold them, and then it holds them and the attributes that came with them. */
    method GetDir(p: Path, stats: map<string, Stat>, now: int) returns (r: Option<seq<string>>)
      requires Valid() && Normal(p) && ListingOf(back, p, stats) && now >= clock
      modifies `table, `lastCleaned, `clock, `asked
      ensures Valid() && clock == now && r == FetchDir(back, p)
      ensures asked == old(asked) + if CachedDir(old(table), p, now).Some? then 0 else 1
      ensures asked > old(asked) && r.Some? ==> DirHeld(table, p, r.value, now, now + dirTimeout)
      ensures asked > old(asked) && r.Some? ==> Listed(table, p, r.value, stats, now, now + statTimeout)
      ensures asked == old(asked) || r.None? ==> table == old(table)
    {
      hide Coherent, AllBounded, AttrHeld, DirHeld, Listed;
      Tick(now);
      r := CachedDir(table, p, now);
      if r.None? {
        var wrctr := writeCtr;
        asked := asked + 1;
        r := FetchDir(back, p);
        if r.Some? {
          AddListed(p, r.value, stats, wrctr);
          AddDir(p, r.value, stats);
        }
      } else {
        IsCoherent(p, now);
      }
    }

    // `cache_add_dir`.
    method AddDir(p: Path, names: seq<string>, ghost stats: map<string, Stat>)
      requires Valid() && FetchDir(back, p) == Some(names)
      requires Listed(table, p, names, stats, clock, clock + statTimeout)
      modifies `table, `lastCleaned
      ensures Valid() && DirHeld(table, p, names, clock, clock + dirTimeout)
      ensures Listed(table, p, names, stats, clock, clock + statTimeout)
    {
      hide Coherent, AllBounded, DirHeld, Listed, WithDir, AttrAsBefore;
      DirAdded(table, back, clock, p, names, clock + dirTimeout);
      table := WithDir(table, p, names, clock + dirTimeout);
      ghost var t := table;
      ListedOn(old(table), table, p, names, stats, clock, clock + statTimeout);
      Clean();
      HeldOn(t, table, clock, p);
      forall q ensures AttrAsBefore(t, table, clock, q) {
        assert AsBefore(t, table, clock, q);
      }
      ListedOn(t, table, p, names, stats, clock, clock + statTimeout);
    }

    // `cache_mknod` and its like: `cache_invalidate_dir` if the back end succeeded.
    method ChangeEntry(p: Path, after: Backend, now: int)
      requires Valid() && Legal(back, Op.ChangeEntry(p, after)) && now >= clock
      modifies `table, `clock, `back
      ensures Valid() && clock == now && back == after
      ensures forall q :: q in table <==> q in old(table) && q != p && Parent(p) != Some(q)
      ensures forall q :: q in table ==> table[q] == old(table)[q]
    {
      Tick(now);
      ghost var (t, b) := (table, back);
      back := after;
      table := PurgedParent(table - {p}, p);
      PurgedIsCoherent(t, table, b, after, now, EntryScope(p));
    }

    // `cache_chmod` and its like (`cache_invalidate`), and `cache_write`, which also counts.
    method ChangeAttr(p: Path, after: Backend, now: int, write: bool)
      requires Valid() && Legal(back, Op.ChangeAttr(p, after)) && now >= clock
      modifies `table, `clock, `back, `writeCtr
      ensures Valid() && clock == now && back == after
      ensures writeCtr == old(writeCtr) + if write then 1 else 0
      ensures forall q :: q in table <==> q in old(table) && q != p
      ensures forall q :: q in table ==> table[q] == old(table)[q]
    {
      Tick(now);
      ghost var (t, b) := (table, back);
      back := after;
      table := table - {p};
      PurgedIsCoherent(t, table, b, after, now, iset{p});
      if write {
        writeCtr := writeCtr + 1;
      }
    }

    // `cache_rename`.
    method Rename(from: Path, to: Path, after: Backend, now: int)
      requires Valid() && Legal(back, Op.Rename(from, to, after)) && now >= clock
      modifies `table, `clock, `back
      ensures Valid() && clock == now && back == after
      ensures forall p :: Normal(p) && Under(from, p) ==> p !in table
      ensures forall q :: q in table <==>
                q in old(table) && !(from <= q) && q != to && Parent(from) != Some(q) && Parent(to) != Some(q)
      ensures forall q :: q in table ==> table[q] == old(table)[q]
    {
      Tick(now);
      RenameKeepsCoherent(table, back, after, now, from, to);
      forall p | Normal(p) && Under(from, p)
        ensures p !in Renamed(table, from, to)
      {
        RenameDropsSubtree(table, from, to, p);
      }
      back := after;
      table := Renamed(table, from, to);
    }
  }

  // The attributes of all entries that came with some are held.
  ghost predicate Listed(t: Table, dir: Path, names: seq<string>, stats: map<string, Stat>, now: int, until: int) {
    forall n :: n in names && n in stats ==> AttrHeld(t, Child(dir, n), stats[n], now, until)
  }

  lemma ListedOn(t: Table, u: Table, dir: Path, names: seq<string>, stats: map<string, Stat>, now: int, until: int)
    requires Listed(t, dir, names, stats, now, until) && forall q :: AttrAsBefore(t, u, now, q)
    ensures Listed(u, dir, names, stats, now, until)
  {
    forall n | n in names && n in stats ensures AttrHeld(u, Child(dir, n), stats[n], now, until) {
      assert AttrAsBefore(t, u, now, Child(dir, n));
    }
  }

  lemma ListedMore(t: Table, u: Table, dir: Path, names: seq<string>, name: string, stats: map<string, Stat>, now: int,
                   until: int)
    requires Listed(t, dir, names, stats, now, until) && name in stats
    requires AttrHeld(u, Child(dir, name), stats[name], now, until)
    requires forall q :: q != Child(dir, name) ==> AttrAsBefore(t, u, now, q)
    ensures Listed(u, dir, names + [name], stats, now, until)
  {
    forall n | n in names && n in stats && n != name ensures AttrHeld(u, Child(dir, n), stats[n], now, until) {
      OneChild(dir, n, name);
      assert AttrAsBefore(t, u, now, Child(dir, n));
    }
  }

  lemma OneChild(dir: Path, n: string, m: string)
    requires n != m
    ensures Child(dir, n) != Child(dir, m)
  {
    var k := |Child(dir, n)| - |n|;
    assert Child(dir, n)[k..] == n;
    assert |n| == |m| ==> Child(dir, m)[k..] == m;
  }

  /** Asked again within the time set, the cache answers by itself, with the answer of the back end. */
  method GetAttrTwice(c: Cache, p: Path, now: int, later: int) returns (r: Option<Stat>, again: Option<Stat>)
    requires c.Valid() && Normal(p) && c.clock <= now <= later <= now + c.statTimeout
    modifies c
    ensures r == again == FetchAttr(c.back, p)
    ensures r.Some? && CachedAttr(old(c.table), p, later) == None ==> c.asked == old(c.asked) + 1
    ensures r.Some? && CachedAttr(old(c.table), p, later).Some? ==> c.asked == old(c.asked)
    ensures r.None? ==> c.asked == old(c.asked) + 2
  {
    r := c.GetAttr(p, now);
    again := c.GetAttr(p, later);
  }

  // ---------------------------------------------------------------------------------
  // Whole runs
  // ---------------------------------------------------------------------------------

  datatype Answer = Attr(stat: Option<Stat>) | Names(names: Option<seq<string>>) | Changed

  function Uncached(b: Backend, op: Op): Answer {
    match op
    case GetAttr(p) => Attr(FetchAttr(b, p))
    case GetDir(p, _) => Names(FetchDir(b, p))
    case _ => Changed
  }

  // The answers the back end gives to a run of operations without a cache in front of it.
  function UncachedRun(b: Backend, ops: seq<(Op, int)>): seq<Answer>
    decreases |ops|
  {
    if ops == [] then [] else [Uncached(b, ops[0].0)] + UncachedRun(After(b, ops[0].0), ops[1..])
  }

  // Every operation is one the back end allows where it comes, and the clock never goes back.
  ghost predicate LegalRun(b: Backend, ops: seq<(Op, int)>, clock: int)
    decreases |ops|
  {
    ops == [] ||
    (Legal(b, ops[0].0) && ops[0].1 >= clock && LegalRun(After(b, ops[0].0), ops[1..], ops[0].1))
  }

  method RunOne(c: Cache, op: Op, now: int) returns (answer: Answer)
    requires c.Valid() && Legal(c.back, op) && now >= c.clock
    modifies c
    ensures c.Valid() && c.clock == now
    ensures c.back == After(old(c.back), op) && answer == Uncached(old(c.back), op)
  {
    match op {
      case GetAttr(p) =>
        var r := c.GetAttr(p, now);
        answer := Attr(r);
      case GetDir(p, stats) =>
        var r := c.GetDir(p, stats, now);
        answer := Names(r);
      case ChangeEntry(p, after) =>
        c.ChangeEntry(p, after, now);
        answer := Changed;
      case ChangeAttr(p, after) =>
        c.ChangeAttr(p, after, now, false);
        answer := Changed;
      case Write(p, after) =>
        c.ChangeAttr(p, after, now, true);
        answer := Changed;
      case Rename(from, to, after) =>
        c.Rename(from, to, after, now);
        answer := Changed;
    }
  }

  /** The cache is transparent: any run of operations gets, one for one, the answers the back end
      alone would give. */
  method RunOps(c: Cache, ops: seq<(Op, int)>) returns (answers: seq<Answer>)
    requires c.Valid() && LegalRun(c.back, ops, c.clock)
    modifies c
    ensures c.Valid() && answers == UncachedRun(old(c.back), ops)
  {
    hide Legal, After, Uncached;
    answers := [];
    var rest := ops;
    while rest != []
      invariant c.Valid() && LegalRun(c.back, rest, c.clock)
      invariant answers + UncachedRun(c.back, rest) == UncachedRun(old(c.back), ops)
      decreases |rest|
    {
      var answer := RunOne(c, rest[0].0, rest[0].1);
      assert (answers + [answer]) + UncachedRun(c.back, rest[1..]) ==
          answers + ([answer] + UncachedRun(c.back, rest[1..]));
      answers, rest := answers + [answer], rest[1..];
    }
  }
}
