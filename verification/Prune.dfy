/**
 Pruning of the name space cache (src/inode.c).  A base node has aliases, one for each mount in
 whose name space it occurs, and children; the sub-tree below an alias is pruned of everything on
 its mount that nothing holds.
 */
module Prune {
  import opened Basics

  datatype Alias = Alias(id: nat, mount: nat, ref: nat, mountRoot: bool, covered: bool)

  datatype Base = Base(aliases: seq<Alias>, children: Bases)
  datatype Bases = Nil | Cons(first: Base, rest: Bases)

  // ---------------------------------------------------------------------------------
  // The shape of the name space
  // ---------------------------------------------------------------------------------

  function Size(b: Base): (n: nat) ensures n > 0 { 1 + SizeAll(b.children) }

  function SizeAll(bs: Bases): nat {
    match bs case Nil => 0 case Cons(b, rest) => Size(b) + SizeAll(rest)
  }

  function SizeOf(b: Option<Base>): nat { match b case None => 0 case Some(x) => Size(x) }

  predicate OnMount(b: Base, m: nat) { exists i :: 0 <= i < |b.aliases| && b.aliases[i].mount == m }

  // One alias for each mount, and covered nodes are referenced.
  ghost predicate ProperAliases(s: seq<Alias>) {
    && (forall i, j :: 0 <= i < j < |s| ==> s[i].mount != s[j].mount)
    && (forall i :: 0 <= i < |s| && s[i].covered ==> s[i].ref > 0)
  }

  ghost predicate Proper(b: Base) { ProperAliases(b.aliases) && ProperAll(b.children) }

  ghost predicate ProperAll(bs: Bases) { match bs case Nil => true case Cons(b, rest) => Proper(b) && ProperAll(rest) }

  // The parent of an alias is an alias on the same mount.
  ghost predicate Closed(b: Base, m: nat) { ClosedAll(b.children, m, OnMount(b, m)) }

  ghost predicate ClosedAll(bs: Bases, m: nat, above: bool) {
    match bs
    case Nil => true
    case Cons(b, rest) => (OnMount(b, m) ==> above) && Closed(b, m) && ClosedAll(rest, m, above)
  }

  // ---------------------------------------------------------------------------------
  // What is to survive
  // ---------------------------------------------------------------------------------

  predicate Pinned(a: Alias) { a.ref > 0 || a.mountRoot }

  ghost predicate PinnedHere(b: Base, m: nat) {
    exists i :: 0 <= i < |b.aliases| && b.aliases[i].mount == m && Pinned(b.aliases[i])
  }

  // There is a referenced alias or a mount root on that mount, here or anywhere below.
  ghost predicate HasPinned(b: Base, m: nat) { PinnedHere(b, m) || HasPinnedAll(b.children, m) }

  ghost predicate HasPinnedAll(bs: Bases, m: nat) {
    match bs case Nil => false case Cons(b, rest) => HasPinned(b, m) || HasPinnedAll(rest, m)
  }

  ghost predicate Occurs(a: Alias, b: Base) { a in b.aliases || OccursAll(a, b.children) }

  ghost predicate OccursAll(a: Alias, bs: Bases) {
    match bs case Nil => false case Cons(b, rest) => Occurs(a, b) || OccursAll(a, rest)
  }

  ghost predicate OccursIn(a: Alias, b: Option<Base>) { b.Some? && Occurs(a, b.value) }

  // An alias is to survive if it is on another mount, or some alias at or below it is pinned.
  ghost predicate Survives(a: Alias, b: Base, m: nat) {
    || (a in b.aliases && (a.mount != m || HasPinned(b, m)))
    || SurvivesAll(a, b.children, m)
  }

  ghost predicate SurvivesAll(a: Alias, bs: Bases, m: nat) {
    match bs case Nil => false case Cons(b, rest) => Survives(a, b, m) || SurvivesAll(a, rest, m)
  }

  // ---------------------------------------------------------------------------------
  // The trees that are left
  // ---------------------------------------------------------------------------------

  function Others(s: seq<Alias>, m: nat): (r: seq<Alias>)
    ensures forall a :: a in r <==> a in s && a.mount != m
  {
    if s == [] then [] else (if s[0].mount == m then [] else [s[0]]) + Others(s[1..], m)
  }

  // A base node goes with its last alias and its last child.
  function Rebuild(aliases: seq<Alias>, children: Bases): Option<Base> {
    if aliases == [] && children.Nil? then None else Some(Base(aliases, children))
  }

  function Keep(b: Option<Base>, bs: Bases): Bases { match b case None => bs case Some(x) => Cons(x, bs) }

  // The nodes without aliases, other than those that lead to a node with one, are gone.
  function Sweep(b: Base): Option<Base> { Rebuild(b.aliases, SweepAll(b.children)) }

  function SweepAll(bs: Bases): Bases {
    match bs case Nil => Nil case Cons(b, rest) => Keep(if b.aliases != [] then Some(b) else Sweep(b), SweepAll(rest))
  }

  ghost function Pruned(b: Base, m: nat): Option<Base> {
    if b.aliases == [] then Sweep(b)
    else if !OnMount(b, m) then Some(b)
    else Rebuild(if HasPinned(b, m) then b.aliases else Others(b.aliases, m), PrunedAll(b.children, m))
  }

  ghost function PrunedAll(bs: Bases, m: nat): Bases {
    match bs case Nil => Nil case Cons(b, rest) => Keep(Pruned(b, m), PrunedAll(rest, m))
  }

  // What `_sysio_p_prune` counts.
  function Count(b: Base, m: nat): nat {
    match AliasOn(b.aliases, m)
    case None => 0
    case Some(a) => Tally(a, CountAll(b.children, m))
  }

  function Tally(a: Alias, below: nat): nat {
    if below > 0 then below + (if a.ref > 0 then 1 else 0) else if Pinned(a) then 1 else 0
  }

  function CountAll(bs: Bases, m: nat): nat {
    match bs case Nil => 0 case Cons(b, rest) => Count(b, m) + CountAll(rest, m)
  }

  function AliasOn(s: seq<Alias>, m: nat): (r: Option<Alias>)
    ensures r.Some? ==> r.value in s && r.value.mount == m
    ensures r.None? ==> forall a :: a in s ==> a.mount != m
  {
    if s == [] then None else if s[0].mount == m then Some(s[0]) else AliasOn(s[1..], m)
  }

  lemma AliasOnIs(b: Base, m: nat)
    requires Proper(b)
    ensures AliasOn(b.aliases, m).Some? <==> OnMount(b, m)
    ensures AliasOn(b.aliases, m).Some? ==> (PinnedHere(b, m) <==> Pinned(AliasOn(b.aliases, m).value))
  {
    var r := AliasOn(b.aliases, m);
    if r.Some? {
      var i :| 0 <= i < |b.aliases| && b.aliases[i] == r.value;
      assert forall j :: 0 <= j < |b.aliases| && b.aliases[j].mount == m ==> j == i;
    }
  }

  lemma AliasOnAt(b: Base, i: nat)
    requires Proper(b) && i < |b.aliases|
    ensures AliasOn(b.aliases, b.aliases[i].mount) == Some(b.aliases[i])
    ensures forall j :: i < j < |b.aliases| ==> b.aliases[j].mount != b.aliases[i].mount
  {
    var r := AliasOn(b.aliases, b.aliases[i].mount);
    assert r.Some?;
    var j :| 0 <= j < |b.aliases| && b.aliases[j] == r.value;
  }

  // A node without an alias on the mount is left as it is.
  lemma NotOnMount(b: Base, m: nat)
    requires Proper(b) && forall j :: 0 <= j < |b.aliases| ==> b.aliases[j].mount != m
    ensures Count(b, m) == 0 && (b.aliases != [] ==> Pruned(b, m) == Some(b))
    ensures b.aliases == [] ==> Pruned(b, m) == Sweep(b)
  {
    AliasOnIs(b, m);
  }

  // ---------------------------------------------------------------------------------
  // What the trees that are left hold
  // ---------------------------------------------------------------------------------

  // No alias on the mount anywhere below a node that has none.
  lemma {:induction false} NoneBelow(b: Base, m: nat)
    requires Closed(b, m) && !OnMount(b, m)
    ensures !HasPinned(b, m)
    ensures forall a :: Survives(a, b, m) <==> Occurs(a, b)
  {
    NoneBelowAll(b.children, m);
    assert forall a :: a in b.aliases ==> a.mount != m;
  }

  lemma {:induction false} NoneBelowAll(bs: Bases, m: nat)
    requires ClosedAll(bs, m, false)
    ensures !HasPinnedAll(bs, m)
    ensures forall a :: SurvivesAll(a, bs, m) <==> OccursAll(a, bs)
  {
    if bs.Cons? {
      NoneBelow(bs.first, m);
      NoneBelowAll(bs.rest, m);
    }
  }

  lemma {:induction false} SweepKeepsAliases(b: Base)
    requires b.aliases == []
    ensures forall a :: OccursIn(a, Sweep(b)) <==> Occurs(a, b)
  {
    SweepAllKeepsAliases(b.children);
  }

  lemma {:induction false} SweepAllKeepsAliases(bs: Bases)
    ensures forall a :: OccursAll(a, SweepAll(bs)) <==> OccursAll(a, bs)
  {
    if bs.Cons? {
      if bs.first.aliases == [] {
        SweepKeepsAliases(bs.first);
      }
      SweepAllKeepsAliases(bs.rest);
    }
  }

  /** Exactly the aliases that are to survive are left: on the mount those at or above a pinned
      alias, on other mounts all. */
  lemma {:induction false} ExactlySurvivors(b: Base, m: nat)
    requires Closed(b, m)
    ensures forall a :: OccursIn(a, Pruned(b, m)) <==> Survives(a, b, m)
  {
    if b.aliases == [] {
      SweepKeepsAliases(b);
      NoneBelow(b, m);
    } else if !OnMount(b, m) {
      NoneBelow(b, m);
    } else {
      ExactlySurvivorsAll(b.children, m, true);
    }
  }

  lemma {:induction false} ExactlySurvivorsAll(bs: Bases, m: nat, above: bool)
    requires ClosedAll(bs, m, above)
    ensures forall a :: OccursAll(a, PrunedAll(bs, m)) <==> SurvivesAll(a, bs, m)
  {
    if bs.Cons? {
      ExactlySurvivors(bs.first, m);
      ExactlySurvivorsAll(bs.rest, m, above);
    }
  }

  lemma {:induction false} SweptIffNoAlias(b: Base)
    requires b.aliases == []
    ensures Sweep(b).Some? ==> exists a :: Occurs(a, b)
    ensures forall a :: Occurs(a, b) ==> Sweep(b).Some?
  {
    SweptAllIffNoAlias(b.children);
    forall a ensures Occurs(a, b) <==> OccursAll(a, b.children) {}
  }

  lemma {:induction false} SweptAllIffNoAlias(bs: Bases)
    ensures SweepAll(bs).Cons? ==> exists a :: OccursAll(a, bs)
    ensures forall a :: OccursAll(a, bs) ==> SweepAll(bs).Cons?
  {
    if bs.Cons? {
      SweptAllIffNoAlias(bs.rest);
      if bs.first.aliases == [] {
        SweptIffNoAlias(bs.first);
      } else {
        assert Occurs(bs.first.aliases[0], bs.first);
      }
      forall a ensures OccursAll(a, bs) <==> Occurs(a, bs.first) || OccursAll(a, bs.rest) {}
    }
  }

  /** The base node itself stays exactly if some alias at or below it is to survive, on any mount. */
  lemma {:induction false} StaysIff(b: Base, m: nat)
    requires Closed(b, m)
    ensures Pruned(b, m).Some? ==> exists a :: Survives(a, b, m)
    ensures forall a :: Survives(a, b, m) ==> Pruned(b, m).Some?
  {
    if b.aliases == [] {
      SweptIffNoAlias(b);
      NoneBelow(b, m);
    } else if !OnMount(b, m) {
      assert Survives(b.aliases[0], b, m);
    } else {
      StaysIffAll(b.children, m, true);
      var left := if HasPinned(b, m) then b.aliases else Others(b.aliases, m);
      forall a ensures Survives(a, b, m) <==> a in left || SurvivesAll(a, b.children, m) {}
      if left != [] {
        assert left[0] in left && Survives(left[0], b, m);
      }
    }
  }

  lemma {:induction false} StaysIffAll(bs: Bases, m: nat, above: bool)
    requires ClosedAll(bs, m, above)
    ensures PrunedAll(bs, m).Cons? ==> exists a :: SurvivesAll(a, bs, m)
    ensures forall a :: SurvivesAll(a, bs, m) ==> PrunedAll(bs, m).Cons?
  {
    if bs.Cons? {
      StaysIff(bs.first, m);
      StaysIffAll(bs.rest, m, above);
      forall a ensures SurvivesAll(a, bs, m) <==> Survives(a, bs.first, m) || SurvivesAll(a, bs.rest, m) {}
    }
  }

  /** Aliases on other mounts stay, wherever they are. */
  lemma OtherMountsStay(b: Base, m: nat, a: Alias)
    requires Closed(b, m) && a.mount != m
    ensures OccursIn(a, Pruned(b, m)) <==> Occurs(a, b)
  {
    ExactlySurvivors(b, m);
    OthersSurvive(b, m, a);
  }

  lemma {:induction false} OthersSurvive(b: Base, m: nat, a: Alias)
    requires a.mount != m
    ensures Survives(a, b, m) <==> Occurs(a, b)
  {
    OthersSurviveAll(b.children, m, a);
  }

  lemma {:induction false} OthersSurviveAll(bs: Bases, m: nat, a: Alias)
    requires a.mount != m
    ensures SurvivesAll(a, bs, m) <==> OccursAll(a, bs)
  {
    if bs.Cons? {
      OthersSurvive(bs.first, m, a);
      OthersSurviveAll(bs.rest, m, a);
    }
  }

  // ---------------------------------------------------------------------------------
  // Base nodes without aliases
  // ---------------------------------------------------------------------------------

  // Some alias is left at or below the base node.
  predicate Live(b: Base) { b.aliases != [] || LiveAll(b.children) }

  predicate LiveAll(bs: Bases) { match bs case Nil => false case Cons(b, rest) => Live(b) || LiveAll(rest) }

  predicate NoDead(b: Base) { Live(b) && NoDeadAll(b.children) }

  predicate NoDeadAll(bs: Bases) { match bs case Nil => true case Cons(b, rest) => NoDead(b) && NoDeadAll(rest) }

  // No dead base node where neither pass looks: below one that has aliases, but none on the mount, and,
  // below one that has none, below the first that has.
  ghost predicate TidyElsewhere(b: Base, m: nat) {
    if b.aliases == [] then TidyAliased(b.children)
    else if !OnMount(b, m) then NoDead(b)
    else TidyElsewhereAll(b.children, m)
  }

  ghost predicate TidyElsewhereAll(bs: Bases, m: nat) {
    match bs case Nil => true case Cons(b, rest) => TidyElsewhere(b, m) && TidyElsewhereAll(rest, m)
  }

  predicate TidyAliased(bs: Bases) {
    match bs
    case Nil => true
    case Cons(b, rest) => (if b.aliases != [] then NoDead(b) else TidyAliased(b.children)) && TidyAliased(rest)
  }

  ghost predicate NoDeadIn(b: Option<Base>) { b.Some? ==> NoDead(b.value) }

  // A base node with no dead one below it is live if it has an alias or a child.
  lemma RebuildLive(aliases: seq<Alias>, children: Bases)
    ensures NoDeadIn(Rebuild(aliases, children)) <==> NoDeadAll(children)
  {
    assert children.Cons? && NoDeadAll(children) ==> NoDead(children.first) && LiveAll(children);
    var b := Base(aliases, children);
    assert NoDead(b) <==> Live(b) && NoDeadAll(children);
  }

  lemma {:induction false} SweptDeadIff(b: Base)
    requires b.aliases == []
    ensures NoDeadIn(Sweep(b)) <==> TidyAliased(b.children)
  {
    SweptAllDeadIff(b.children);
    RebuildLive(b.aliases, SweepAll(b.children));
  }

  lemma {:induction false} SweptAllDeadIff(bs: Bases)
    ensures NoDeadAll(SweepAll(bs)) <==> TidyAliased(bs)
  {
    if bs.Cons? {
      if bs.first.aliases == [] {
        SweptDeadIff(bs.first);
      }
      SweptAllDeadIff(bs.rest);
    }
  }

  /** No base node without an alias at or below it is left exactly if there was none where the passes do
      not look. */
  lemma {:induction false} DeadLeftIff(b: Base, m: nat)
    ensures NoDeadIn(Pruned(b, m)) <==> TidyElsewhere(b, m)
  {
    if b.aliases == [] {
      SweptDeadIff(b);
    } else if OnMount(b, m) {
      DeadLeftIffAll(b.children, m);
      RebuildLive(if HasPinned(b, m) then b.aliases else Others(b.aliases, m), PrunedAll(b.children, m));
    }
  }

  lemma {:induction false} DeadLeftIffAll(bs: Bases, m: nat)
    ensures NoDeadAll(PrunedAll(bs, m)) <==> TidyElsewhereAll(bs, m)
  {
    if bs.Cons? {
      DeadLeftIff(bs.first, m);
      DeadLeftIffAll(bs.rest, m);
    }
  }

  // `r` is `b` without some of its aliases and of the sub-trees below it.
  predicate Trimmed(r: Base, b: Base) {
    (forall a :: a in r.aliases ==> a in b.aliases) && TrimmedAll(r.children, b.children)
  }

  predicate TrimmedAll(rs: Bases, bs: Bases) {
    match bs
    case Nil => rs.Nil?
    case Cons(b, rest) => TrimmedAll(rs, rest) || (rs.Cons? && Trimmed(rs.first, b) && TrimmedAll(rs.rest, rest))
  }

  predicate TrimmedTo(r: Option<Base>, b: Base) { r.Some? ==> Trimmed(r.value, b) }

  lemma {:induction false} AsItIs(b: Base)
    ensures Trimmed(b, b)
  {
    AllAsItIs(b.children);
  }

  lemma {:induction false} AllAsItIs(bs: Bases)
    ensures TrimmedAll(bs, bs)
  {
    if bs.Cons? {
      AsItIs(bs.first);
      AllAsItIs(bs.rest);
    }
  }

  lemma {:induction false} SweepTrims(b: Base)
    ensures TrimmedTo(Sweep(b), b)
  {
    SweepAllTrims(b.children);
  }

  lemma {:induction false} SweepAllTrims(bs: Bases)
    ensures TrimmedAll(SweepAll(bs), bs)
  {
    if bs.Cons? {
      if bs.first.aliases == [] {
        SweepTrims(bs.first);
      } else {
        AsItIs(bs.first);
      }
      SweepAllTrims(bs.rest);
    }
  }

  /** Nothing moves: what is left is the tree without some of its nodes. */
  lemma {:induction false} PruneTrims(b: Base, m: nat)
    ensures TrimmedTo(Pruned(b, m), b)
  {
    if b.aliases == [] {
      SweepTrims(b);
    } else if !OnMount(b, m) {
      AsItIs(b);
    } else {
      PruneAllTrims(b.children, m);
    }
  }

  lemma {:induction false} PruneAllTrims(bs: Bases, m: nat)
    ensures TrimmedAll(PrunedAll(bs, m), bs)
  {
    if bs.Cons? {
      PruneTrims(bs.first, m);
      PruneAllTrims(bs.rest, m);
    }
  }

  // ---------------------------------------------------------------------------------
  // Parents
  // ---------------------------------------------------------------------------------

  // On mount `k` the tree that is left has nothing that the tree was without.
  lemma OnMountPruned(b: Base, m: nat, k: nat)
    requires Pruned(b, m).Some?
    ensures OnMount(Pruned(b, m).value, k) ==> OnMount(b, k)
    ensures k != m ==> (OnMount(Pruned(b, m).value, k) <==> OnMount(b, k))
    ensures OnMount(b, m) ==> (OnMount(Pruned(b, m).value, m) <==> HasPinned(b, m))
  {
    var r := Pruned(b, m).value;
    if OnMount(b, m) && !HasPinned(b, m) {
      SameMounts(b, r, k, Others(b.aliases, m), m);
    }
  }

  lemma SameMounts(b: Base, r: Base, k: nat, s: seq<Alias>, m: nat)
    requires s == Others(b.aliases, m) && r.aliases == s
    ensures OnMount(r, k) <==> OnMount(b, k) && k != m
    ensures !OnMount(r, m)
  {
    if OnMount(b, k) && k != m {
      var i :| 0 <= i < |b.aliases| && b.aliases[i].mount == k;
      assert b.aliases[i] in s;
    }
    if OnMount(r, k) {
      var i :| 0 <= i < |s| && s[i].mount == k;
      assert s[i] in s;
    }
    assert forall i :: 0 <= i < |s| ==> s[i] in s;
  }

  lemma {:induction false} SweepClosed(b: Base, k: nat)
    requires Closed(b, k) && Sweep(b).Some?
    ensures Closed(Sweep(b).value, k) && (OnMount(Sweep(b).value, k) <==> OnMount(b, k))
  {
    SweepAllClosed(b.children, k, OnMount(b, k));
  }

  lemma {:induction false} SweepAllClosed(bs: Bases, k: nat, above: bool)
    requires ClosedAll(bs, k, above)
    ensures ClosedAll(SweepAll(bs), k, above)
  {
    if bs.Cons? {
      SweepAllClosed(bs.rest, k, above);
      if Sweep(bs.first).Some? {
        SweepClosed(bs.first, k);
      }
    }
  }

  /** On every mount, the parent of each alias that is left is left. */
  lemma {:induction false} ParentsStay(b: Base, m: nat, k: nat)
    requires Closed(b, m) && Closed(b, k) && Pruned(b, m).Some?
    ensures Closed(Pruned(b, m).value, k)
  {
    if b.aliases == [] {
      SweepClosed(b, k);
    } else if OnMount(b, m) {
      OnMountPruned(b, m, k);
      ParentsStayAll(b.children, m, k, OnMount(b, k), OnMount(Pruned(b, m).value, k));
    }
  }

  lemma {:induction false} ParentsStayAll(bs: Bases, m: nat, k: nat, was: bool, now: bool)
    requires ClosedAll(bs, m, true) && ClosedAll(bs, k, was)
    requires k != m && was ==> now
    requires k == m && HasPinnedAll(bs, m) ==> now
    ensures ClosedAll(PrunedAll(bs, m), k, now)
  {
    if bs.Cons? {
      ParentsStayAll(bs.rest, m, k, was, now);
      if Pruned(bs.first, m).Some? {
        ParentsStay(bs.first, m, k);
        OnMountPruned(bs.first, m, k);
      }
    }
  }

  // ---------------------------------------------------------------------------------
  // The count
  // ---------------------------------------------------------------------------------

  /** The count is zero exactly if nothing is pinned. */
  lemma {:induction false} CountsPinned(b: Base, m: nat)
    requires Closed(b, m) && Proper(b)
    ensures Count(b, m) > 0 <==> HasPinned(b, m)
  {
    AliasOnIs(b, m);
    if OnMount(b, m) {
      CountsPinnedAll(b.children, m, true);
    } else {
      NoneBelow(b, m);
    }
  }

  lemma {:induction false} CountsPinnedAll(bs: Bases, m: nat, above: bool)
    requires ClosedAll(bs, m, above) && ProperAll(bs)
    ensures CountAll(bs, m) > 0 <==> HasPinnedAll(bs, m)
  {
    if bs.Cons? {
      CountsPinned(bs.first, m);
      CountsPinnedAll(bs.rest, m, above);
    }
  }

  /** The count is zero exactly if no alias on the mount is left. */
  lemma ZeroIffGone(b: Base, m: nat)
    requires Closed(b, m) && Proper(b)
    ensures Count(b, m) == 0 <==> forall a :: OccursIn(a, Pruned(b, m)) ==> a.mount != m
  {
    CountsPinned(b, m);
    ExactlySurvivors(b, m);
    if HasPinned(b, m) {
      PinnedSurvives(b, m);
    } else {
      NothingSurvives(b, m);
    }
  }

  lemma {:induction false} PinnedSurvives(b: Base, m: nat)
    requires HasPinned(b, m)
    ensures exists a: Alias :: a.mount == m && Survives(a, b, m)
  {
    if PinnedHere(b, m) {
      var i :| 0 <= i < |b.aliases| && b.aliases[i].mount == m && Pinned(b.aliases[i]);
      assert Survives(b.aliases[i], b, m);
    } else {
      PinnedSurvivesAll(b.children, m);
    }
  }

  lemma {:induction false} PinnedSurvivesAll(bs: Bases, m: nat)
    requires HasPinnedAll(bs, m)
    ensures exists a: Alias :: a.mount == m && SurvivesAll(a, bs, m)
  {
    if HasPinned(bs.first, m) {
      PinnedSurvives(bs.first, m);
    } else {
      PinnedSurvivesAll(bs.rest, m);
    }
  }

  lemma {:induction false} NothingSurvives(b: Base, m: nat)
    requires !HasPinned(b, m)
    ensures forall a :: Survives(a, b, m) ==> a.mount != m
  {
    NothingSurvivesAll(b.children, m);
  }

  lemma {:induction false} NothingSurvivesAll(bs: Bases, m: nat)
    requires !HasPinnedAll(bs, m)
    ensures forall a: Alias :: SurvivesAll(a, bs, m) ==> a.mount != m
  {
    if bs.Cons? {
      NothingSurvives(bs.first, m);
      NothingSurvivesAll(bs.rest, m);
    }
  }

  // How many aliases on the mount a tree has, and how many of them are unreferenced and have
  // another one below.
  function NumberHere(s: seq<Alias>, m: nat): nat {
    if s == [] then 0 else (if s[0].mount == m then 1 else 0) + NumberHere(s[1..], m)
  }

  function Number(b: Base, m: nat): nat { NumberHere(b.aliases, m) + NumberAll(b.children, m) }

  function NumberAll(bs: Bases, m: nat): nat {
    match bs case Nil => 0 case Cons(b, rest) => Number(b, m) + NumberAll(rest, m)
  }

  function NumberOf(b: Option<Base>, m: nat): nat { match b case None => 0 case Some(x) => Number(x, m) }

  function Interior(b: Base, m: nat): nat {
    var a := AliasOn(b.aliases, m);
    (if a.Some? && a.value.ref == 0 && NumberAll(b.children, m) > 0 then 1 else 0) + InteriorAll(b.children, m)
  }

  function InteriorAll(bs: Bases, m: nat): nat {
    match bs case Nil => 0 case Cons(b, rest) => Interior(b, m) + InteriorAll(rest, m)
  }

  function InteriorOf(b: Option<Base>, m: nat): nat { match b case None => 0 case Some(x) => Interior(x, m) }

  lemma {:induction false} NoneHere(s: seq<Alias>, m: nat)
    ensures AliasOn(s, m).None? <==> NumberHere(s, m) == 0
  {
    if s != [] {
      NoneHere(s[1..], m);
    }
  }

  lemma {:induction false} OneHere(s: seq<Alias>, m: nat)
    requires ProperAliases(s)
    ensures NumberHere(s, m) <= 1
  {
    if s != [] {
      OneHere(s[1..], m);
      NoneHere(s[1..], m);
      assert forall i :: 0 <= i < |s[1..]| ==> s[0].mount != s[1..][i].mount;
    }
  }

  lemma NumberHereIs(s: seq<Alias>, m: nat)
    ensures AliasOn(s, m).None? <==> NumberHere(s, m) == 0
    ensures ProperAliases(s) ==> NumberHere(s, m) <= 1
    ensures NumberHere(Others(s, m), m) == 0
  {
    hide Others, ProperAliases;
    NoneHere(s, m);
    NoneHere(Others(s, m), m);
    if ProperAliases(s) {
      OneHere(s, m);
    }
  }

  // Some alias has no other below it.
  lemma {:induction false} FewerInterior(b: Base, m: nat)
    ensures if Number(b, m) > 0 then Interior(b, m) < Number(b, m) else Interior(b, m) == 0
  {
    NumberHereIs(b.aliases, m);
    FewerInteriorAll(b.children, m);
  }

  lemma {:induction false} FewerInteriorAll(bs: Bases, m: nat)
    ensures if NumberAll(bs, m) > 0 then InteriorAll(bs, m) < NumberAll(bs, m) else InteriorAll(bs, m) == 0
  {
    if bs.Cons? {
      FewerInterior(bs.first, m);
      FewerInteriorAll(bs.rest, m);
    }
  }

  lemma {:induction false} NumberBelow(b: Base, m: nat)
    requires Closed(b, m) && !OnMount(b, m)
    ensures Number(b, m) == 0 && (b.aliases == [] ==> NumberOf(Sweep(b), m) == 0)
  {
    NumberHereIs(b.aliases, m);
    NumberBelowAll(b.children, m);
    assert NumberHere([], m) == 0;
  }

  lemma {:induction false} NumberBelowAll(bs: Bases, m: nat)
    requires ClosedAll(bs, m, false)
    ensures NumberAll(bs, m) == 0 && NumberAll(SweepAll(bs), m) == 0
  {
    if bs.Cons? {
      NumberBelow(bs.first, m);
      NumberBelowAll(bs.rest, m);
    }
  }

  /** The count is the number of aliases that are left on the mount, but for the unreferenced ones
      with another one left below them. */
  lemma {:induction false} CountIs(b: Base, m: nat)
    requires Closed(b, m) && Proper(b)
    ensures Count(b, m) + InteriorOf(Pruned(b, m), m) == NumberOf(Pruned(b, m), m)
  {
    AliasOnIs(b, m);
    if Pruned(b, m).Some? {
      FewerInterior(Pruned(b, m).value, m);
    }
    if !OnMount(b, m) {
      NumberBelow(b, m);
    } else {
      CountIsAll(b.children, m, true);
      FewerInteriorAll(PrunedAll(b.children, m), m);
      CountsPinnedAll(b.children, m, true);
      NumberHereIs(b.aliases, m);
      NumberHereIs(Others(b.aliases, m), m);
    }
  }

  lemma {:induction false} CountIsAll(bs: Bases, m: nat, above: bool)
    requires ClosedAll(bs, m, above) && ProperAll(bs)
    ensures CountAll(bs, m) + InteriorAll(PrunedAll(bs, m), m) == NumberAll(PrunedAll(bs, m), m)
  {
    if bs.Cons? {
      CountIs(bs.first, m);
      CountIsAll(bs.rest, m, above);
    }
  }

  // Some unreferenced alias on the mount has a pinned one below it.
  ghost predicate Hidden(b: Base, m: nat) {
    || (HasPinnedAll(b.children, m) &&
        exists i :: 0 <= i < |b.aliases| && b.aliases[i].mount == m && b.aliases[i].ref == 0)
    || HiddenAll(b.children, m)
  }

  ghost predicate HiddenAll(bs: Bases, m: nat) {
    match bs case Nil => false case Cons(b, rest) => Hidden(b, m) || HiddenAll(rest, m)
  }

  lemma {:induction false} HiddenIsPinned(b: Base, m: nat)
    ensures Hidden(b, m) ==> HasPinned(b, m)
  {
    HiddenIsPinnedAll(b.children, m);
  }

  lemma {:induction false} HiddenIsPinnedAll(bs: Bases, m: nat)
    ensures HiddenAll(bs, m) ==> HasPinnedAll(bs, m)
  {
    if bs.Cons? {
      HiddenIsPinned(bs.first, m);
      HiddenIsPinnedAll(bs.rest, m);
    }
  }

  lemma {:induction false} InteriorIffHidden(b: Base, m: nat)
    requires Closed(b, m) && Proper(b)
    ensures InteriorOf(Pruned(b, m), m) == 0 <==> !Hidden(b, m)
  {
    AliasOnIs(b, m);
    HiddenIsPinned(b, m);
    if Pruned(b, m).Some? {
      FewerInterior(Pruned(b, m).value, m);
    }
    if !OnMount(b, m) {
      NoneBelow(b, m);
      NumberBelow(b, m);
    } else {
      InteriorIffHiddenAll(b.children, m, true);
      OnlyAlias(b, m);
      NumberHereIs(b.aliases, m);
      NumberHereIs(Others(b.aliases, m), m);
      CountIsAll(b.children, m, true);
      CountsPinnedAll(b.children, m, true);
      FewerInteriorAll(PrunedAll(b.children, m), m);
    }
  }

  lemma {:induction false} InteriorIffHiddenAll(bs: Bases, m: nat, above: bool)
    requires ClosedAll(bs, m, above) && ProperAll(bs)
    ensures InteriorAll(PrunedAll(bs, m), m) == 0 <==> !HiddenAll(bs, m)
  {
    if bs.Cons? {
      InteriorIffHidden(bs.first, m);
      InteriorIffHiddenAll(bs.rest, m, above);
    }
  }

  lemma OnlyAlias(b: Base, m: nat)
    requires Proper(b) && OnMount(b, m)
    ensures var a := AliasOn(b.aliases, m);
            && a.Some?
            && forall i :: 0 <= i < |b.aliases| && b.aliases[i].mount == m ==> b.aliases[i] == a.value
    ensures exists i :: 0 <= i < |b.aliases| && b.aliases[i] == AliasOn(b.aliases, m).value
  {
    AliasOnIs(b, m);
    var i :| 0 <= i < |b.aliases| && b.aliases[i].mount == m;
    AliasOnAt(b, i);
    forall j | 0 <= j < |b.aliases| && b.aliases[j].mount == m ensures b.aliases[j] == AliasOn(b.aliases, m).value {
      AliasOnAt(b, j);
    }
  }

  /** So it is the number of aliases left exactly if, in the tree that it is given, no unreferenced
      alias on the mount has a referenced one, or a mount root, below it. */
  lemma CountsAllIff(b: Base, m: nat)
    requires Closed(b, m) && Proper(b)
    ensures Count(b, m) == NumberOf(Pruned(b, m), m) <==> !Hidden(b, m)
  {
    CountIs(b, m);
    InteriorIffHidden(b, m);
  }

  /** It is not always: above one referenced alias, one unreferenced. */
  lemma CountMissesInterior()
    ensures var b := Base([Alias(0, 7, 0, false, false)], Cons(Base([Alias(1, 7, 1, false, false)], Nil), Nil));
            Closed(b, 7) && Proper(b) && Pruned(b, 7) == Some(b) && Count(b, 7) == 1 && Number(b, 7) == 2
  {
    var c := Base([Alias(1, 7, 1, false, false)], Nil);
    var b := Base([Alias(0, 7, 0, false, false)], Cons(c, Nil));
    assert b.aliases[0].mount == 7 && c.aliases[0].mount == 7 && Pinned(c.aliases[0]);
    assert OnMount(b, 7) && OnMount(c, 7) && PinnedHere(c, 7);
    assert HasPinned(c, 7) && HasPinnedAll(Cons(c, Nil), 7);
    assert PrunedAll(Nil, 7) == Nil && Pruned(c, 7) == Some(c) && PrunedAll(Cons(c, Nil), 7) == Cons(c, Nil);
    assert Number(c, 7) == 1 && Count(c, 7) == 1;
  }

  // ---------------------------------------------------------------------------------
  // The program
  // ---------------------------------------------------------------------------------

  function Append(a: Bases, b: Bases): Bases { match a case Nil => b case Cons(x, rest) => Cons(x, Append(rest, b)) }

  lemma {:induction false} AppendKeep(a: Bases, x: Option<Base>, b: Bases)
    ensures Append(Append(a, Keep(x, Nil)), b) == Append(a, Keep(x, b))
    ensures SizeAll(Append(a, b)) == SizeAll(a) + SizeAll(b)
  {
    if a.Cons? {
      AppendKeep(a.rest, x, b);
    }
  }

  lemma {:induction false} AppendNil(a: Bases)
    ensures Append(a, Nil) == a
  {
    if a.Cons? {
      AppendNil(a.rest);
    }
  }

  class NameCache {
    var nNames: nat

    // `_sysio_pb_gone`.
    method PbGone(b: Base)
      requires nNames > 0 && b.aliases == [] && b.children.Nil?
      modifies this
      ensures nNames == old(nNames) - 1
    {
      nNames := nNames - 1;
    }

    /** `_sysio_prune`. */
    method SweepBase(b: Base) returns (r: Option<Base>)
      requires b.aliases == [] && nNames >= Size(b)
      modifies this
      ensures r == Sweep(b) && nNames + Size(b) == old(nNames) + SizeOf(r)
      decreases Size(b), 0
    {
      var rest, kept: Bases := b.children, Nil;
      AppendNil(SweepAll(b.children));
      while rest.Cons?
        invariant Append(kept, SweepAll(rest)) == SweepAll(b.children)
        invariant SizeAll(rest) <= SizeAll(b.children)
        invariant nNames + SizeAll(b.children) == old(nNames) + SizeAll(kept) + SizeAll(rest)
        decreases SizeAll(rest)
      {
        assert nNames > SizeAll(rest);
        var left := SweepChild(rest.first);
        AppendKeep(kept, left, SweepAll(rest.rest));
        AppendKeep(kept, None, Keep(left, Nil));
        kept := Append(kept, Keep(left, Nil));
        rest := rest.rest;
      }
      AppendNil(kept);
      if kept.Cons? {
        return Some(Base(b.aliases, kept));
      }
      PbGone(Base(b.aliases, kept));
      r := None;
    }

    // The body of the loop over the children.
    method SweepChild(pb: Base) returns (left: Option<Base>)
      requires nNames >= Size(pb)
      modifies this
      ensures left == if pb.aliases != [] then Some(pb) else Sweep(pb)
      ensures nNames + Size(pb) == old(nNames) + SizeOf(left)
      decreases Size(pb), 1
    {
      if pb.aliases != [] {
        left := Some(pb);
      } else if pb.children.Cons? {
        left := SweepBase(pb);
      } else {
        PbGone(pb);
        left := None;
      }
    }

    // `_sysio_p_gone`: the alias, and the base node if nothing else is left of it.
    method PGone(b: Base, a: Alias) returns (r: Option<Base>)
      requires ProperAliases(b.aliases) && a in b.aliases && a.ref == 0 && nNames > 0
      modifies this
      ensures r == Rebuild(Others(b.aliases, a.mount), b.children)
      ensures nNames == old(nNames) - if r.None? then 1 else 0
    {
      assert !a.covered;
      var left := Others(b.aliases, a.mount);
      r := Rebuild(left, b.children);
      if left == [] && b.children.Nil? {
        PbGone(Base(left, b.children));
      }
    }

    /** `_sysio_p_prune`, below and including the alias on its mount: what is left, the count, and
        n_names is still the number of base nodes. */
    method PPrune(b: Base, root: Alias) returns (r: Option<Base>, count: nat)
      requires Proper(b) && Closed(b, root.mount) && AliasOn(b.aliases, root.mount) == Some(root) && nNames >= Size(b)
      modifies this
      ensures r == Pruned(b, root.mount) && count == Count(b, root.mount)
      ensures nNames + Size(b) == old(nNames) + SizeOf(r)
      decreases Size(b), 0
    {
      var m := root.mount;
      var rest, kept: Bases := b.children, Nil;
      count := 0;
      while rest.Cons?
        invariant Append(kept, PrunedAll(rest, m)) == PrunedAll(b.children, m)
        invariant count + CountAll(rest, m) == CountAll(b.children, m)
        invariant SizeAll(rest) <= SizeAll(b.children)
        invariant nNames + SizeAll(b.children) == old(nNames) + SizeAll(kept) + SizeAll(rest)
        invariant ProperAll(rest) && ClosedAll(rest, m, true)
        decreases SizeAll(rest)
      {
        assert nNames > SizeAll(rest);
        var left, n := PruneChild(rest.first, m);
        AppendKeep(kept, left, PrunedAll(rest.rest, m));
        AppendKeep(kept, None, Keep(left, Nil));
        kept := Append(kept, Keep(left, Nil));
        count := count + n;
        rest := rest.rest;
      }
      AppendNil(kept);
      AliasOnIs(b, m);
      CountsPinnedAll(b.children, m, true);
      var now := Base(b.aliases, kept);
      if count > 0 {
        return Some(now), count + if root.ref > 0 then 1 else 0;
      }
      if root.ref > 0 {
        return Some(now), 1;
      }
      if root.mountRoot {
        return Some(now), 1;
      }
      r := PGone(now, root);
    }

    // The body of the loop over the children.
    method PruneChild(pb: Base, m: nat) returns (r: Option<Base>, count: nat)
      requires Proper(pb) && Closed(pb, m) && nNames >= Size(pb)
      modifies this
      ensures r == Pruned(pb, m) && count == Count(pb, m)
      ensures nNames + Size(pb) == old(nNames) + SizeOf(r)
      decreases Size(pb), 2
    {
      hide Closed, OnMount, Pruned, Count, Size, Sweep, Proper;
      if pb.aliases == [] {
        NotOnMount(pb, m);
        r := SweepBase(pb);
        return r, 0;
      }
      r, count := Some(pb), 0;
      var i := 0;
      ghost var met := false;
      while i < |pb.aliases|
        invariant i <= |pb.aliases|
        invariant !met ==> r == Some(pb) && count == 0 && nNames == old(nNames)
        invariant !met ==> forall j :: 0 <= j < i ==> pb.aliases[j].mount != m
        invariant met ==> r == Pruned(pb, m) && count == Count(pb, m) && nNames + Size(pb) == old(nNames) + SizeOf(r)
        invariant met ==> forall j :: i <= j < |pb.aliases| ==> pb.aliases[j].mount != m
      {
        var pno := pb.aliases[i];
        AliasOnAt(pb, i);
        i := i + 1;
        if pno.mount != m {
          continue;
        }
        r, count := PruneAlias(pb, pno);
        met := true;
      }
      if !met {
        NotOnMount(pb, m);
      }
    }

    method PruneAlias(pb: Base, pno: Alias) returns (r: Option<Base>, count: nat)
      requires Proper(pb) && Closed(pb, pno.mount) && nNames >= Size(pb)
      requires AliasOn(pb.aliases, pno.mount) == Some(pno)
      modifies this
      ensures r == Pruned(pb, pno.mount) && count == Count(pb, pno.mount)
      ensures nNames + Size(pb) == old(nNames) + SizeOf(r)
      decreases Size(pb), 1
    {
      AliasOnIs(pb, pno.mount);
      assert pb.children.Nil? ==> PrunedAll(pb.children, pno.mount).Nil? && !HasPinnedAll(pb.children, pno.mount);
      if pb.children.Cons? {
        r, count := PPrune(pb, pno);
      } else if pno.ref > 0 {
        r, count := Some(pb), 1;
      } else if pno.mountRoot {
        r, count := Some(pb), 1;
      } else {
        r := PGone(pb, pno);
        count := 0;
      }
    }
  }
}
