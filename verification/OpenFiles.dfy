/**
 The open-file table (src/file.c, include/file.h): descriptors, the records they share, and the
 reference counts that decide when a record goes.
 */
module OpenFiles {
  import opened Basics

  const EBADF := 9
  const EMFILE := 24
  const INT_MAX := 0x7fff_ffff

  type Table = seq<Option<nat>>

  // What a descriptor refers to, if anything.
  function At(tab: Table, fd: int): Option<nat> { if 0 <= fd < |tab| then tab[fd] else None }

  // How many slots point at a record.
  function Uses(tab: Table, f: nat): nat {
    if tab == [] then 0 else (if tab[0] == Some(f) then 1 else 0) + Uses(tab[1..], f)
  }

  // A record that does not exist has no references.
  function Ref(refs: map<nat, nat>, f: nat): nat { if f in refs then refs[f] else 0 }

  lemma {:induction false} UsesSet(tab: Table, i: nat, v: Option<nat>, f: nat)
    requires i < |tab|
    ensures Uses(tab[i := v], f) + (if tab[i] == Some(f) then 1 else 0) == Uses(tab, f) + if v == Some(f) then 1 else 0
  {
    if i == 0 {
      assert tab[i := v][1..] == tab[1..];
    } else {
      assert tab[i := v][1..] == tab[1..][i - 1 := v];
      UsesSet(tab[1..], i - 1, v, f);
    }
  }

  lemma {:induction false} UsesMore(tab: Table, n: nat, f: nat)
    ensures Uses(tab + seq(n, _ => None), f) == Uses(tab, f)
    decreases |tab|, n
  {
    var more: Table := seq(n, _ => None);
    if tab != [] {
      assert (tab + more)[1..] == tab[1..] + more;
      UsesMore(tab[1..], n, f);
    } else if n > 0 {
      assert (tab + more)[1..] == tab + seq(n - 1, _ => None);
      UsesMore(tab, n - 1, f);
    }
  }

  // Every slot that points at a record counts.
  lemma {:induction false} UsesAt(tab: Table, i: nat, f: nat)
    requires i < |tab| && tab[i] == Some(f)
    ensures Uses(tab, f) > 0
  {
    if i > 0 {
      UsesAt(tab[1..], i - 1, f);
    }
  }

  lemma UsesTwice(tab: Table, i: nat, j: nat, f: nat)
    requires i < |tab| && j < |tab| && i != j && tab[i] == tab[j] == Some(f)
    ensures Uses(tab, f) > 1
  {
    UsesSet(tab, i, None, f);
    UsesAt(tab[i := None], j, f);
  }

  lemma {:induction false} UsesNone(tab: Table, f: nat)
    requires forall i :: 0 <= i < |tab| ==> tab[i] != Some(f)
    ensures Uses(tab, f) == 0
  {
    if tab != [] {
      UsesNone(tab[1..], f);
    }
  }

  // Each count is the number of slots, but that of `f` is off by `d`.
  ghost predicate OffBy(refs: map<nat, nat>, tab: Table, f: nat, d: int) {
    forall g :: Ref(refs, g) == Uses(tab, g) + if g == f then d else 0
  }

  // Each count is the number of slots.
  ghost predicate Balanced(refs: map<nat, nat>, tab: Table) { forall g :: Ref(refs, g) == Uses(tab, g) }

  // Every record made so far is either there, referenced, or has been destroyed, once.
  ghost predicate Lives(refs: map<nat, nat>, gone: seq<nat>, next: nat) {
    && (forall f :: f in refs ==> f < next && refs[f] > 0 && f !in gone)
    && (forall f :: f in gone ==> f < next)
    && (forall i, j :: 0 <= i < j < |gone| ==> gone[i] != gone[j])
    && (forall f: nat :: f < next ==> f in refs || f in gone)
  }

  // The lowest free slot at or above `low`.
  ghost predicate LowestFree(tab: Table, low: nat, fd: int) {
    low <= fd && At(tab, fd).None? && forall g :: low <= g < fd ==> At(tab, g).Some?
  }

  // Only the slot `fd` has changed.
  ghost predicate Sets(was: Table, now: Table, fd: int, v: Option<nat>) {
    forall g: int :: At(now, g) == if g == fd then v else At(was, g)
  }

  // What an unforced request for a descriptor at or above `low` gives.
  ghost predicate Allocated(tab: Table, low: nat, fd: int) {
    if fd >= 0 then LowestFree(tab, low, fd)
    else fd == -EMFILE && forall g :: low <= g < INT_MAX ==> At(tab, g).Some?
  }

  // The record destroyed when one reference to it is given back.
  function Destroyed(v: Option<nat>, refs: map<nat, nat>): seq<nat> {
    if v.Some? && Ref(refs, v.value) == 1 then [v.value] else []
  }

  // The record destroyed when a slot is emptied: the one of which it was the last.
  function Vanished(v: Option<nat>, tab: Table): seq<nat> {
    if v.Some? && Uses(tab, v.value) == 1 then [v.value] else []
  }

  // The same when the slot is given to another record.
  function Dropped(v: Option<nat>, f: Option<nat>, tab: Table): seq<nat> { if v == f then [] else Vanished(v, tab) }

  datatype Op = Open | Dup(oldfd: int, newfd: int, force: bool) | Close(fd: int) | CloseAll

  class FileTable {
    var tab: Table                // _sysio_oftab
    var refs: map<nat, nat>       // f_ref of the records there are
    var gone: seq<nat>            // the records destroyed, in order
    var next: nat

    ghost predicate Loose(f: nat, d: int)
      reads this
    {
      OffBy(refs, tab, f, d) && Lives(refs, gone, next) && |tab| <= INT_MAX
    }

    ghost predicate Valid()
      reads this
    {
      Balanced(refs, tab) && Lives(refs, gone, next) && |tab| <= INT_MAX
    }

    constructor ()
      ensures Valid() && tab == [] && gone == []
    {
      tab, refs, gone, next := [], map[], [], 0;
    }

    // F_REF.
    method FRef(f: nat)
      requires f in refs
      modifies `refs
      ensures refs == old(refs)[f := old(refs)[f] + 1]
    {
      refs := refs[f := refs[f] + 1];
    }

    // F_RELE and `_sysio_fgone`.
    method FRele(f: nat)
      requires Lives(refs, gone, next) && Ref(refs, f) > 0
      modifies `refs, `gone
      ensures Lives(refs, gone, next)
      ensures forall g :: Ref(refs, g) == Ref(old(refs), g) - if g == f then 1 else 0
      ensures gone == if old(refs)[f] == 1 then old(gone) + [f] else old(gone)
    {
      refs := refs[f := refs[f] - 1];
      if refs[f] == 0 {
        refs := refs - {f};
        gone := gone + [f];
      }
    }

    /** `fd_grow`: never shrinks, and every slot keeps what it had. */
    method FdGrow(n: nat) returns (err: int)
      requires |tab| <= INT_MAX
      modifies `tab
      ensures |tab| <= INT_MAX && (err == 0 || err == -EMFILE)
      ensures err == -EMFILE <==> n > INT_MAX
      ensures |tab| == if err == 0 && n > |old(tab)| then n else |old(tab)|
      ensures forall g: int :: At(tab, g) == At(old(tab), g)
      ensures forall f :: Uses(tab, f) == Uses(old(tab), f)
    {
      if n > INT_MAX {
        return -EMFILE;
      }
      if n <= |tab| {
        return 0;
      }
      forall f ensures Uses(tab + seq(n - |tab|, _ => None), f) == Uses(tab, f) {
        UsesMore(tab, n - |tab|, f);
      }
      tab := tab + seq(n - |tab|, _ => None);
      err := 0;
    }

    /** `find_free_fildes`. */
    method FindFree(low: nat) returns (n: int)
      requires |tab| <= INT_MAX && low <= INT_MAX
      modifies `tab
      ensures |tab| <= INT_MAX
      ensures forall g: int :: At(tab, g) == At(old(tab), g)
      ensures forall f :: Uses(tab, f) == Uses(old(tab), f)
      ensures n >= 0 ==> LowestFree(tab, low, n) && n < |tab|
      ensures n < 0 ==> n == -EMFILE && forall g :: low <= g < INT_MAX ==> At(tab, g).Some?
    {
      n := low;
      while n < |tab| && tab[n].Some?
        invariant low <= n && (n <= |tab| || n == low)
        invariant forall g :: low <= g < n ==> At(tab, g).Some?
      {
        n := n + 1;
      }
      if n >= |tab| {
        var err := FdGrow(n + 1);
        if err != 0 {
          return err;
        }
      }
    }

    // The record behind a slot has a reference for it.
    lemma HasRef(fd: int, f: nat, d: int)
      requires Loose(f, d) && d >= 0 && At(tab, fd).Some?
      ensures Ref(refs, At(tab, fd).value) > 0
    {
      UsesAt(tab, fd, tab[fd].value);
    }

    // Putting a record into a slot, and giving back the reference of the record that was there.
    method Replace(fd: nat, v: Option<nat>, ghost f: nat, ghost d: int)
      requires Loose(f, d) && d >= 0 && fd < |tab|
      requires v.None? || v == Some(f)
      modifies this
      ensures next == old(next) && |tab| == |old(tab)|
      ensures Loose(f, d - if v.Some? then 1 else 0) && Sets(old(tab), tab, fd, v)
      ensures gone == old(gone) + Destroyed(old(tab)[fd], old(refs))
    {
      var was := tab[fd];
      if was.Some? {
        HasRef(fd, f, d);
      }
      forall g: nat
        ensures Uses(tab[fd := v], g) + (if was == Some(g) then 1 else 0) ==
                Uses(tab, g) + if v == Some(g) then 1 else 0
      {
        UsesSet(tab, fd, v, g);
      }
      hide Uses, Lives;
      tab := tab[fd := v];
      if was.Some? {
        FRele(was.value);
      }
    }

    /** `_sysio_fd_close`: the record goes with its last slot. */
    method FdClose(fd: int) returns (err: int)
      requires Valid()
      modifies this
      ensures Valid() && Sets(old(tab), tab, fd, None)
      ensures err == if old(At(tab, fd)).Some? then 0 else -EBADF
      ensures gone == old(gone) + Vanished(old(At(tab, fd)), old(tab))
    {
      hide Uses, Lives;
      if At(tab, fd).None? {
        return -EBADF;
      }
      Replace(fd, None, 0, 0);
      err := 0;
    }

    /** `_sysio_fd_set`, with a record that has `d` references more than slots.  One of them goes
        into the slot; a descriptor asked for by force is the one that is used, and otherwise it is
        the lowest free one. */
    method FdSet(f: nat, fd0: int, force: bool, ghost d: int) returns (fd: int)
      requires Loose(f, d) && d >= 0 && f in refs && fd0 <= INT_MAX
      modifies this
      ensures next == old(next)
      ensures fd < 0 ==>
                fd == -EMFILE && Loose(f, d) && Sets(old(tab), tab, -1, None) && refs == old(refs) && gone == old(gone)
      ensures fd >= 0 ==> Loose(f, d - 1) && Sets(old(tab), tab, fd, Some(f))
      ensures fd >= 0 ==> gone == old(gone) + Destroyed(old(At(tab, fd)), old(refs))
      ensures fd0 >= 0 && force ==> fd == if fd0 == INT_MAX then -EMFILE else fd0
      ensures !(fd0 >= 0 && force) ==> Allocated(old(tab), if fd0 < 0 then 0 else fd0, fd)
    {
      hide Uses, Lives;
      fd := fd0;
      if fd < 0 || !force {
        if fd < 0 {
          fd := 0;
        }
        fd := FindFree(fd);
        if fd < 0 {
          return;
        }
      }
      if fd >= |tab| {
        var err := FdGrow(fd + 1);
        if err != 0 {
          return err;
        }
      }
      Replace(fd, Some(f), f, d);
    }

    /** `open`, as far as the table is concerned: a new record with one reference, which is the
        slot's if there is one and is given back if not. */
    method Open() returns (fd: int)
      requires Valid()
      modifies this
      ensures Valid() && next == old(next) + 1 && Allocated(old(tab), 0, fd)
      ensures fd >= 0 ==> Sets(old(tab), tab, fd, Some(old(next))) && gone == old(gone)
      ensures fd < 0 ==> Sets(old(tab), tab, -1, None) && gone == old(gone) + [old(next)]
    {
      var f := next;
      NotUsed(f);
      next := next + 1;
      refs := refs[f := 1];
      hide Uses, Lives;
      fd := FdSet(f, -1, false, 1);
      if fd < 0 {
        FRele(f);
      }
    }

    lemma NotUsed(f: nat)
      requires Valid() && f >= next
      ensures Uses(tab, f) == 0 && f !in refs && f !in gone
    {
    }

    /** `_sysio_fd_dup`.  Both descriptors share the record, even if they did before; what the new
        one had is given up.  A descriptor duplicated onto itself is returned as it is, open or not. */
    method FdDup(oldfd: int, newfd: int, force: bool) returns (fd: int)
      requires Valid() && newfd <= INT_MAX
      modifies this
      ensures Valid() && next == old(next)
      ensures oldfd == newfd >= 0 ==> fd == newfd
      ensures oldfd == newfd >= 0 || fd < 0 ==> Sets(old(tab), tab, -1, None) && gone == old(gone)
      ensures !(oldfd == newfd >= 0) && old(At(tab, oldfd)).None? ==> fd == -EBADF
      ensures fd >= 0 ==> (At(tab, fd).None? <==> oldfd == newfd && old(At(tab, oldfd)).None?)
      ensures oldfd != newfd && old(At(tab, oldfd)).Some? ==>
                if newfd >= 0 && force then fd == if newfd == INT_MAX then -EMFILE else newfd
                else Allocated(old(tab), if newfd < 0 then 0 else newfd, fd)
      ensures oldfd != newfd && fd >= 0 ==>
                Sets(old(tab), tab, fd, old(At(tab, oldfd))) &&
                gone == old(gone) + Dropped(old(At(tab, fd)), old(At(tab, oldfd)), old(tab))
    {
      hide Lives;
      if oldfd == newfd && oldfd >= 0 {
        return newfd;
      }
      if At(tab, oldfd).None? {
        return -EBADF;
      }
      var f := tab[oldfd].value;
      UsesAt(tab, oldfd, f);
      fd := FdSet(f, newfd, force, 0);
      if fd >= 0 {
        StillThere(oldfd, fd, f);
        if At(old(tab), fd) == Some(f) {
          UsesTwice(old(tab), oldfd, fd, f);
        }
        StillLives(f);
        FRef(f);
      }
    }

    lemma StillThere(oldfd: int, fd: int, f: nat)
      requires Loose(f, -1) && At(tab, oldfd) == At(tab, fd) == Some(f) && oldfd != fd
      ensures f in refs
    {
      UsesTwice(tab, oldfd, fd, f);
    }

    lemma StillLives(f: nat)
      requires Lives(refs, gone, next) && f in refs
      ensures Lives(refs[f := refs[f] + 1], gone, next)
    {
    }

    /** `_sysio_fd_close_all`: every slot is free, and every record has been destroyed. */
    method FdCloseAll()
      requires Valid()
      modifies this
      ensures Valid() && refs == map[] && next == old(next) && old(gone) <= gone
      ensures forall g: int :: At(tab, g).None?
      ensures forall f: nat :: f < next ==> f in gone
    {
      hide Uses, Lives;
      var fd := 0;
      while fd < |tab|
        invariant fd <= |tab| && Valid() && next == old(next) && old(gone) <= gone
        invariant forall g :: 0 <= g < fd ==> tab[g].None?
      {
        if tab[fd].Some? {
          Replace(fd, None, 0, 0);
          assert forall g :: 0 <= g < fd + 1 ==> tab[g] == At(tab, g);
        }
        fd := fd + 1;
      }
      AllClosed();
    }

    lemma AllClosed()
      requires Valid() && forall g :: 0 <= g < |tab| ==> tab[g].None?
      ensures refs == map[] && forall f: nat :: f < next ==> f in gone
    {
      forall f ensures f !in refs {
        UsesNone(tab, f);
        assert Ref(refs, f) == 0;
      }
    }

    /** Any run of operations keeps all this. */
    method Run(ops: seq<Op>) returns (results: seq<int>)
      requires Valid()
      requires forall i :: 0 <= i < |ops| && ops[i].Dup? ==> ops[i].newfd <= INT_MAX
      modifies this
      ensures Valid() && |results| == |ops|
      ensures old(gone) <= gone
    {
      hide Uses, Lives, Balanced;
      results := [];
      for i := 0 to |ops|
        invariant Valid() && |results| == i && old(gone) <= gone
      {
        var r := 0;
        match ops[i] {
          case Open => r := Open();
          case Dup(oldfd, newfd, force) => r := FdDup(oldfd, newfd, force);
          case Close(fd) => r := FdClose(fd);
          case CloseAll => FdCloseAll();
        }
        results := results + [r];
      }
    }
  }

  /** Duplicating a descriptor onto itself: one that is not open is returned all the same. */
  method DupOntoItself() returns (t: FileTable, fd: int)
    ensures fresh(t) && t.Valid() && fd == 3 && At(t.tab, fd).None?
  {
    t := new FileTable();
    fd := t.FdDup(3, 3, true);
  }
}
