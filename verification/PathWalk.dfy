/**
 Path walking (src/namei.c): components, mount covers, symbolic links followed by recursion, and
 the reference every step takes and gives back.  The drivers behind it are arbitrary: what they
 answer to a lookup, a permission check or a readlink may differ from call to call.
 */
module PathWalk {
  import opened Basics
  import opened NameTables

  const ENOENT := 2
  const EFAULT := 14
  const ENOTDIR := 20
  const ELOOP := 40
  const MAX_SYMLINK := 250

  // The mode of an i-node, as far as the walk looks at it.
  datatype Kind = Dir | Link | Other

  // What `inop_lookup` makes of a node: an i-node, or an error and whatever it left behind.
  // Errors stand for the error number minus one: an error is never zero.
  datatype Lookup = Found(kind: Kind) | NotFound(err: nat, left: Option<Kind>)

  datatype ReadLink = Target(path: string) | Unreadable(err: nat)

  // The answers of the drivers, call by call and node by node.
  datatype Drivers = Drivers(lookup: (nat, nat) -> Lookup, permit: nat -> nat, readlink: (nat, nat) -> ReadLink)

  datatype Flags = Flags(noFollow: bool, negOk: bool, noPermCheck: bool)

  // ---------------------------------------------------------------------------------
  // Components
  // ---------------------------------------------------------------------------------

  function SkipSlashes(path: string): (r: string)
    ensures |r| <= |path| && (r != [] ==> r[0] != '/')
  {
    if path != [] && path[0] == '/' then SkipSlashes(path[1..]) else path
  }

  /** Slashes, and nothing else. */
  lemma {:induction false} OnlySlashesAreSkipped(path: string, i: nat)
    ensures SkipSlashes(path) == path[|path| - |SkipSlashes(path)|..]
    ensures i < |path| - |SkipSlashes(path)| ==> path[i] == '/'
  {
    if path != [] && path[0] == '/' {
      OnlySlashesAreSkipped(path[1..], if i > 0 then i - 1 else 0);
    }
  }

  function NameLength(path: string): (n: nat)
    ensures n <= |path| && (n > 0 <==> path != [] && path[0] != '/')
    ensures forall i :: 0 <= i < n ==> path[i] != '/'
    ensures n < |path| ==> path[n] == '/'
  {
    if path == [] || path[0] == '/' then 0 else 1 + NameLength(path[1..])
  }

  // `_sysio_next_component`: the path from the component on, and the component's length.
  function NextComponent(path: string): (r: (string, nat))
    ensures r.1 <= |r.0| <= |path|
    ensures r.1 == 0 ==> r.0 == []
  {
    var p := SkipSlashes(path);
    (p, NameLength(p))
  }

  // All the components of a path.
  function Components(path: string): (r: seq<string>)
    decreases |path|
  {
    var c := NextComponent(path);
    if c.1 == 0 then [] else [c.0[..c.1]] + Components(c.0[c.1..])
  }

  // `c` is where `_sysio_next_component` stops: on a component, or at the end.
  ghost predicate AtComponent(c: (string, nat)) { NextComponent(c.0) == c && c.1 <= |c.0| }

  lemma StartsAtComponent(path: string)
    ensures AtComponent(NextComponent(path)) && Components(NextComponent(path).0) == Components(path)
  {
  }

  // The loop of the walk takes the components one by one.
  lemma TakesOne(names: seq<string>, c: (string, nat), all: seq<string>)
    requires AtComponent(c) && all == names + Components(c.0)
    ensures c.1 == 0 ==> all == names
    ensures c.1 > 0 ==> AtComponent(NextComponent(c.0[c.1..])) && |NextComponent(c.0[c.1..]).0| < |c.0|
    ensures c.1 > 0 ==> all == (names + [c.0[..c.1]]) + Components(NextComponent(c.0[c.1..]).0)
  {
    if c.1 > 0 {
      StartsAtComponent(c.0[c.1..]);
    }
  }

  // ---------------------------------------------------------------------------------
  // Reference counts
  // ---------------------------------------------------------------------------------

  // A node that does not exist is not referenced.
  function Ref(refs: map<nat, nat>, n: nat): nat { if n in refs then refs[n] else 0 }

  // Every count is as in `a`, but for one more on `n`.
  ghost predicate OneMoreOn(a: map<nat, nat>, b: map<nat, nat>, n: nat) {
    forall m :: Ref(b, m) == Ref(a, m) + if m == n then 1 else 0
  }

  ghost predicate Same(a: map<nat, nat>, b: map<nat, nat>) {
    forall m :: Ref(b, m) == Ref(a, m)
  }

  // What a call that hands out at most one reference has done.
  ghost predicate Gives(a: map<nat, nat>, b: map<nat, nat>, n: Option<nat>) {
    match n case None => Same(a, b) case Some(m) => OneMoreOn(a, b, m)
  }

  lemma Held(a: map<nat, nat>, b: map<nat, nat>, n: nat, c: map<nat, nat>, m: Option<nat>)
    requires OneMoreOn(a, b, n) && Gives(b, c, m)
    ensures Ref(b, n) > 0 && Ref(c, n) > 0
  {
  }

  // One reference taken on `m` and the one on `n` given back: it has moved.
  lemma Moved(a: map<nat, nat>, b: map<nat, nat>, n: nat, c: map<nat, nat>, m: nat, d: map<nat, nat>)
    requires OneMoreOn(a, b, n) && OneMoreOn(b, c, m) && OneMoreOn(d, c, n)
    ensures OneMoreOn(a, d, m)
  {
  }

  lemma Unchanged(a: map<nat, nat>)
    ensures Same(a, a)
  {
  }

  // `b` is `a` with one more on each of the two nodes that are there.
  ghost predicate Holding(a: map<nat, nat>, b: map<nat, nat>, n: Option<nat>, m: Option<nat>) {
    forall k: nat :: Ref(b, k) == Ref(a, k) + (if n == Some(k) then 1 else 0) + if m == Some(k) then 1 else 0
  }

  lemma HoldingOne(a: map<nat, nat>, b: map<nat, nat>, n: nat)
    requires OneMoreOn(a, b, n)
    ensures Holding(a, b, Some(n), None) && Holding(a, b, None, Some(n))
  {
  }

  lemma HoldingTwo(a: map<nat, nat>, b: map<nat, nat>, n: nat, c: map<nat, nat>, m: Option<nat>)
    requires OneMoreOn(a, b, n) && Gives(b, c, m)
    ensures Holding(a, c, m, Some(n))
  {
  }

  lemma GivesOne(a: map<nat, nat>, b: map<nat, nat>, n: nat)
    ensures Gives(a, b, Some(n)) <==> OneMoreOn(a, b, n)
  {
  }

  lemma SameThenMore(a: map<nat, nat>, b: map<nat, nat>, n: nat, c: map<nat, nat>)
    requires OneMoreOn(a, b, n) && Same(b, c)
    ensures OneMoreOn(a, c, n)
  {
  }

  // ---------------------------------------------------------------------------------
  // The name space and where a list of names leads in it
  // ---------------------------------------------------------------------------------

  // A link that leads nowhere leads back to the node itself.
  function Follow(links: map<nat, nat>, n: nat): nat { if n in links then links[n] else n }

  datatype Tree = Tree(
    parent: map<nat, nat>,               // p_parent
    base: map<nat, nat>,                 // p_base
    cover: map<nat, nat>,                // p_cover, where there is one
    children: map<(nat, string), nat>,   // base node of a name in a parent base node
    aliases: map<(nat, nat), nat>,       // alias of a base node below a parent alias
    next: nat                            // nodes from here on are unused
  )

  // Mounts are stacked: a cover is further down.
  ghost predicate Formed(t: Tree, level: nat -> nat, root: nat) {
    && root < t.next
    && (forall n :: n in t.parent ==> n < t.next && t.parent[n] < t.next)
    && (forall n :: n in t.cover ==> n < t.next && CoverFormed(t, level, n))
    && (forall k :: k in t.aliases ==> t.aliases[k] < t.next)
  }

  ghost predicate CoverFormed(t: Tree, level: nat -> nat, n: nat) {
    var c := Follow(t.cover, n);
    c < t.next && (c != n ==> level(c) < level(n))
  }

  // Nothing that was there has moved.
  ghost predicate Grows(a: Tree, b: Tree) {
    && a.next <= b.next
    && (forall n: nat :: n < a.next ==> Follow(b.parent, n) == Follow(a.parent, n))
    && (forall n: nat :: n < a.next ==> Follow(b.base, n) == Follow(a.base, n))
    && (forall n: nat :: n < a.next ==> Follow(b.cover, n) == Follow(a.cover, n))
    && (forall k :: k in a.children ==> k in b.children && b.children[k] == a.children[k])
    && (forall k :: k in a.aliases ==> k in b.aliases && b.aliases[k] == a.aliases[k])
  }

  function WithAlias(t: Tree, dir: nat, b: nat): Tree {
    var n := t.next;
    Tree(t.parent[n := dir], t.base[n := b], t.cover - {n}, t.children, t.aliases[(b, dir) := n], n + 1)
  }

  lemma WithAliasHas(t: Tree, dir: nat, b: nat)
    ensures var now := WithAlias(t, dir, b);
            now.next == t.next + 1 && now.children == t.children && (b, dir) in now.aliases &&
                now.aliases[(b, dir)] == t.next
  {
  }

  lemma WithAliasGrows(t: Tree, dir: nat, b: nat)
    requires (b, dir) !in t.aliases
    ensures Grows(t, WithAlias(t, dir, b))
  {
  }

  lemma WithAliasFormed(t: Tree, dir: nat, b: nat, level: nat -> nat, root: nat)
    requires Formed(t, level, root) && dir < t.next
    ensures Formed(WithAlias(t, dir, b), level, root)
  {
  }

  // The table of children is what the names table answers; every node has a base node in it.
  ghost predicate Reflects(t: Tree, nodes: map<nat, Base>) {
    forall b :: b in nodes && nodes[b].parent.Some? ==>
      (nodes[b].parent.value, nodes[b].name) in t.children && t.children[(nodes[b].parent.value, nodes[b].name)] == b
  }

  // An alias knows its base node and its parent.
  predicate IsAlias(t: Tree, n: nat, k: (nat, nat)) {
    n < t.next && Follow(t.base, n) == k.0 && Follow(t.parent, n) == k.1
  }

  ghost predicate Agrees(t: Tree, nodes: map<nat, Base>) {
    && Reflects(t, nodes)
    && (forall k :: k in t.children ==> t.children[k] in nodes && nodes[t.children[k]] == Base(k.1, Some(k.0)))
    && (forall b :: b in nodes ==> b < t.next)
    && (forall n :: n in t.base ==> n < t.next)
    && (forall k :: k in t.aliases ==> k.0 in nodes && IsAlias(t, t.aliases[k], k))
    && (forall n: nat :: n < t.next ==> Follow(t.base, n) in nodes)
  }

  function WithChild(t: Tree, dir: nat, name: string): Tree {
    t.(next := t.next + 1, children := t.children[(Follow(t.base, dir), name) := t.next])
  }

  lemma WithChildAgrees(t: Tree, nodes: map<nat, Base>, dir: nat, name: string)
    requires Agrees(t, nodes) && dir < t.next && (Follow(t.base, dir), name) !in t.children
    ensures Agrees(WithChild(t, dir, name), nodes[t.next := Base(name, Some(Follow(t.base, dir)))])
  {
  }

  lemma WithAliasAgrees(t: Tree, nodes: map<nat, Base>, dir: nat, b: nat)
    requires Agrees(t, nodes) && b in nodes
    ensures Agrees(WithAlias(t, dir, b), nodes)
  {
    var now := WithAlias(t, dir, b);
    forall n: nat | n < now.next ensures Follow(now.base, n) in nodes {
      assert n < t.next ==> Follow(now.base, n) == Follow(t.base, n);
    }
  }

  lemma WithChildGrows(t: Tree, dir: nat, name: string, level: nat -> nat, root: nat)
    requires Formed(t, level, root) && (Follow(t.base, dir), name) !in t.children
    ensures Formed(WithChild(t, dir, name), level, root) && Grows(t, WithChild(t, dir, name))
  {
  }

  lemma OnlyRoot(level: nat -> nat)
    ensures var t := Tree(map[1 := 1], map[1 := 0], map[], map[], map[], 2);
            Formed(t, level, 1) && Agrees(t, map[0 := Base([], None)])
  {
  }

  // The alias with that name below that alias, if it is cached.
  function Child(t: Tree, dir: nat, name: string): Option<nat> {
    var k := (Follow(t.base, dir), name);
    if k in t.children && (t.children[k], dir) in t.aliases then Some(t.aliases[(t.children[k], dir)]) else None
  }

  // The node on top of all that cover `n`.
  ghost function Top(t: Tree, level: nat -> nat, n: nat): nat
    decreases level(n)
  {
    var c := Follow(t.cover, n);
    if c != n && level(c) < level(n) then Top(t, level, c) else n
  }

  /** The top is what all covers lead to, one by one, and nothing covers it. */
  lemma {:induction false} TopOfCovers(t: Tree, level: nat -> nat, root: nat, n: nat)
    requires Formed(t, level, root) && n < t.next
    ensures var top := Top(t, level, n);
            top < t.next && Follow(t.cover, top) == top && Top(t, level, Follow(t.cover, n)) == top
    ensures Follow(t.cover, n) == n ==> Top(t, level, n) == n
    decreases level(n)
  {
    var c := Follow(t.cover, n);
    if c != n {
      TopOfCovers(t, level, root, c);
    }
  }

  // Where one name leads.
  ghost function Enter(t: Tree, level: nat -> nat, dir: nat, name: string): Option<nat> {
    if name == "." then Some(Top(t, level, dir))
    else if name == ".." then Some(Top(t, level, Follow(t.parent, dir)))
    else match Child(t, dir, name) case None => None case Some(n) => Some(Top(t, level, n))
  }

  // Where a list of names leads.
  ghost function Along(t: Tree, level: nat -> nat, dir: nat, names: seq<string>): Option<nat> {
    if names == [] then Some(dir) else
      match Along(t, level, dir, names[..|names| - 1])
      case None => None
      case Some(n) => Enter(t, level, n, names[|names| - 1])
  }

  // Every node on the way but the last is a directory.
  ghost predicate ThroughDirs(t: Tree, level: nat -> nat, answer: nat -> Lookup, dir: nat, names: seq<string>) {
    if names == [] then true else
      var before := names[..|names| - 1];
      && ThroughDirs(t, level, answer, dir, before)
      && Along(t, level, dir, before).Some? && answer(Along(t, level, dir, before).value) == Found(Dir)
  }

  lemma {:induction false} TopGrows(a: Tree, b: Tree, level: nat -> nat, root: nat, n: nat)
    requires Grows(a, b) && Formed(a, level, root) && n < a.next
    ensures Top(b, level, n) == Top(a, level, n) < a.next
    decreases level(n)
  {
    var c := Follow(a.cover, n);
    if c != n {
      TopGrows(a, b, level, root, c);
    }
  }

  lemma EnterGrows(a: Tree, b: Tree, level: nat -> nat, root: nat, dir: nat, name: string)
    requires Grows(a, b) && Formed(a, level, root) && dir < a.next
    ensures Enter(a, level, dir, name).Some? ==>
              Enter(b, level, dir, name) == Enter(a, level, dir, name) && Enter(a, level, dir, name).value < a.next
  {
    if name == "." {
      TopGrows(a, b, level, root, dir);
    } else if name == ".." {
      TopGrows(a, b, level, root, Follow(a.parent, dir));
    } else if Child(a, dir, name).Some? {
      TopGrows(a, b, level, root, Child(a, dir, name).value);
    }
  }

  /** What is reached stays reached, however the name space grows. */
  lemma {:induction false} AlongGrows(a: Tree, b: Tree, level: nat -> nat, root: nat, dir: nat, names: seq<string>)
    requires Grows(a, b) && Formed(a, level, root) && dir < a.next
    ensures Along(a, level, dir, names).Some? ==>
              Along(b, level, dir, names) == Along(a, level, dir, names) && Along(a, level, dir, names).value < a.next
  {
    if names != [] {
      AlongGrows(a, b, level, root, dir, names[..|names| - 1]);
      var up := Along(a, level, dir, names[..|names| - 1]);
      if up.Some? {
        EnterGrows(a, b, level, root, up.value, names[|names| - 1]);
      }
    }
  }

  lemma {:induction false} ThroughDirsGrows(a: Tree, b: Tree, level: nat -> nat, root: nat, answer: nat -> Lookup,
                                            dir: nat, names: seq<string>)
    requires Grows(a, b) && Formed(a, level, root) && dir < a.next
    requires Along(a, level, dir, names).Some?
    ensures ThroughDirs(a, level, answer, dir, names) <==> ThroughDirs(b, level, answer, dir, names)
  {
    if names != [] {
      AlongGrows(a, b, level, root, dir, names[..|names| - 1]);
      ThroughDirsGrows(a, b, level, root, answer, dir, names[..|names| - 1]);
    }
  }

  // A way that fails early fails.
  lemma {:induction false} ThroughDirsPrefix(t: Tree, level: nat -> nat, answer: nat -> Lookup, dir: nat,
                                             names: seq<string>, more: seq<string>)
    ensures ThroughDirs(t, level, answer, dir, names + more) ==> ThroughDirs(t, level, answer, dir, names)
  {
    if more == [] {
      assert names + more == names;
    } else {
      assert (names + more)[..|names + more| - 1] == names + more[..|more| - 1];
      ThroughDirsPrefix(t, level, answer, dir, names, more[..|more| - 1]);
    }
  }

  lemma GrowsOn(a: Tree, b: Tree, c: Tree)
    requires Grows(a, b) && Grows(b, c)
    ensures Grows(a, c) && b.next <= c.next
  {
  }

  // ---------------------------------------------------------------------------------
  // The walk
  // ---------------------------------------------------------------------------------

  // What stays fixed: the drivers, the root of the name space, the order in which mounts are
  // stacked, and, for drivers that never change their mind, what they answer of each node, the
  // error of their permission checks (none is zero) and what they read of each link.
  datatype Setting = Setting(drv: Drivers, root: nat, level: nat -> nat, answer: nat -> Lookup, perm: nat,
                             text: nat -> ReadLink)

  function Always(call: nat): nat { 0 }

  // What a walk that does or does not check permissions has before it.
  function As(s: Setting, check: bool): Setting {
    if check then s else s.(drv := s.drv.(permit := Always), perm := 0)
  }

  // There are no symbolic links, and a permission check never fails with ENOENT.
  ghost predicate Plain(s: Setting) {
    && (forall k, n :: s.drv.lookup(k, n) != Found(Link))
    && (forall k :: s.drv.permit(k) != ENOENT)
  }

  // The drivers never change their mind, and a permission check never fails with ENOENT.
  ghost predicate Constant(s: Setting) {
    && (forall k, n :: s.drv.lookup(k, n) == s.answer(n))
    && (forall k :: s.drv.permit(k) == s.perm)
    && s.perm != ENOENT
  }

  // ... and everything is there, and nothing is forbidden.
  ghost predicate Steady(s: Setting) { Plain(s) && Constant(s) && s.perm == 0 && forall n :: s.answer(n).Found? }

  function ErrorIn(a: Lookup): int { if a.Found? then 0 else -(a.err + 1) }
  function KindIn(a: Lookup): Option<Kind> { if a.Found? then Some(a.kind) else a.left }

  // The i-node of a node, once it has been looked up.
  function KindOf(s: Setting, n: nat): Option<Kind> { KindIn(s.answer(n)) }

  // Every symbolic link stays as it is, too.
  ghost predicate Faithful(s: Setting) { Constant(s) && forall k, n :: s.drv.readlink(k, n) == s.text(n) }

  function InoOf(t: Tree, ino: map<nat, Kind>, n: nat): Option<Kind> {
    if Follow(t.base, n) in ino then Some(ino[Follow(t.base, n)]) else None
  }

  // A node that has been validated.
  ghost predicate Validated(s: Setting, kind: Option<Kind>, n: nat) {
    kind.Some? && (Plain(s) ==> kind != Some(Link)) && (Constant(s) ==> s.answer(n).Found? && kind == KindOf(s, n))
  }

  // What `lookup` of a name has come to: an error and, unless it was refused, a node and its i-node.
  ghost predicate Answered(s: Setting, err: int, n: Option<nat>, kind: Option<Kind>) {
    Constant(s) ==>
      if s.perm != 0 then err == -(s.perm as int) && n.None?
      else n.Some? && err == ErrorIn(s.answer(n.value)) && kind == KindOf(s, n.value)
  }

  // Nobody may search the directory, or any other.
  ghost predicate Barred(s: Setting, dir: nat) { Constant(s) && s.perm != 0 && s.answer(dir) == Found(Dir) }

  // No link is followed on the way.
  ghost predicate Straight(s: Setting, dir: nat) { Plain(s) || Barred(s, dir) }

  // The walk has come to `n` by these names.
  ghost predicate Came(s: Setting, t: Tree, dir: nat, names: seq<string>, n: nat) {
    && dir < t.next
    && (Plain(s) ==> Along(t, s.level, dir, names) == Some(n))
    && (Steady(s) ==> ThroughDirs(t, s.level, s.answer, dir, names))
    && (Barred(s, dir) ==> names == [] && n == dir)
  }

  // What the loop has found out when it ends.
  ghost predicate Ends(s: Setting, t: Tree, dir: nat, names: seq<string>, err: int, n: Option<nat>) {
    && (Plain(s) && err == 0 ==> n.Some? && Along(t, s.level, dir, names) == n)
    && (Steady(s) ==> err == if ThroughDirs(t, s.level, s.answer, dir, names) then 0 else -ENOTDIR)
    && (Barred(s, dir) && names != [] ==> err == -(s.perm as int))
  }

  lemma CameOn(s: Setting, a: Tree, b: Tree, dir: nat, names: seq<string>, n: nat, kind: Option<Kind>,
               name: string, m: nat, err: int, kind1: Option<Kind>)
    requires Formed(a, s.level, s.root) && Grows(a, b) && Came(s, a, dir, names, n)
    requires Plain(s) ==> Enter(b, s.level, n, name) == Some(m)
    requires (Straight(s, dir) ==> Validated(s, kind, n)) && kind == Some(Dir) && Answered(s, err, Some(m), kind1)
    ensures Came(s, b, dir, names + [name], m)
  {
    if Plain(s) {
      AlongGrows(a, b, s.level, s.root, dir, names);
      ThroughDirsGrows(a, b, s.level, s.root, s.answer, dir, names);
      assert (names + [name])[..|names|] == names;
    }
  }

  // The end of the walk, from the end of its loop.
  lemma EndsResult(s: Setting, t: Tree, dir: nat, names: seq<string>, err0: int, cur: Option<nat>, err: int, n: nat)
    requires Ends(s, t, dir, names, err0, cur) && (err0 != 0 || cur.Some? ==> err == err0)
    requires err == 0 && cur.Some? ==> n == cur.value
    ensures Ends(s, t, dir, names, err, Some(n))
  {
    SteadyIsPlain(s);
  }

  lemma EndsThere(s: Setting, t: Tree, dir: nat, names: seq<string>, n: nat)
    requires Came(s, t, dir, names, n)
    ensures Ends(s, t, dir, names, 0, Some(n))
  {
  }

  // Not a directory, and there are more names to come.
  lemma EndsEarly(s: Setting, t: Tree, dir: nat, names: seq<string>, n: nat, kind: Option<Kind>, more: seq<string>,
                  m: Option<nat>)
    requires Came(s, t, dir, names, n) && more != []
    requires (Straight(s, dir) ==> Validated(s, kind, n)) && kind != Some(Dir)
    ensures Ends(s, t, dir, names + more, -ENOTDIR, m)
  {
    if Steady(s) {
      assert names + more == (names + [more[0]]) + more[1..];
      assert (names + [more[0]])[..|names|] == names;
      ThroughDirsPrefix(t, s.level, s.answer, dir, names + [more[0]], more[1..]);
    }
  }

  lemma SteadyIsPlain(s: Setting)
    ensures Steady(s) ==> Plain(s) && Constant(s)
  {
  }

  lemma CameNowhere(s: Setting, t: Tree, dir: nat)
    requires dir < t.next
    ensures Came(s, t, dir, [], dir)
  {
  }

  // Where there are symbolic links the names alone do not say where a walk leads; see `Leads`.
  lemma CameAnyhow(s: Setting, a: Tree, b: Tree, dir: nat, names: seq<string>, n: nat)
    requires !Straight(s, dir) && Grows(a, b) && dir < a.next
    ensures Came(s, b, dir, names, n)
  {
  }

  lemma EndsAnyhow(s: Setting, t: Tree, dir: nat, names: seq<string>, err: int, n: Option<nat>)
    requires !Straight(s, dir)
    ensures Ends(s, t, dir, names, err, n)
  {
  }

  // ---------------------------------------------------------------------------------
  // Where a path leads, symbolic links followed
  // ---------------------------------------------------------------------------------

  // A path leads to a node, fails, or comes to a name that is not cached.
  datatype Led = Arrives(node: nat) | Fails(err: int) | Uncached

  /** A path, read from a node, with links nested at most `fuel` deep.  A link is read from its parent,
      and the flags that concern the last component of the path concern that of the link too. */
  ghost function Resolve(s: Setting, t: Tree, start: nat, path: string, flags: Flags, fuel: nat): Led
    decreases fuel, |path|, 2
  {
    if path == [] then Fails(-ENOENT) else
      var dir := if path[0] == '/' then s.root else start;
      if s.answer(dir).NotFound? then Fails(ErrorIn(s.answer(dir)))
      else ByParts(s, t, dir, NextComponent(path), flags, fuel)
  }

  // At a node, with the components from `c` on to come: first the link, if it is one.
  ghost function ByParts(s: Setting, t: Tree, n: nat, c: (string, nat), flags: Flags, fuel: nat): Led
    decreases fuel, |c.0|, 1
  {
    if KindOf(s, n) == Some(Link) && (c.1 > 0 || !flags.noFollow) then
      if fuel == 0 then Fails(-ELOOP)
      else if s.text(n).Unreadable? then Fails(-(s.text(n).err + 1))
      else
        match Resolve(s, t, Follow(t.parent, n), s.text(n).path, flags, fuel - 1)
        case Arrives(m) => OneOn(s, t, m, c, flags, fuel)
        case other => other
    else OneOn(s, t, n, c, flags, fuel)
  }

  // ... then the component.
  ghost function OneOn(s: Setting, t: Tree, n: nat, c: (string, nat), flags: Flags, fuel: nat): Led
    decreases fuel, |c.0|, 0
  {
    if !(0 < c.1 <= |c.0|) then Arrives(n)
    else if KindOf(s, n) == None then Fails(-ENOENT)
    else if KindOf(s, n) != Some(Dir) then Fails(-ENOTDIR)
    else if s.perm != 0 then Fails(-(s.perm as int))
    else
      match Enter(t, s.level, n, c.0[..c.1])
      case None => Uncached
      case Some(m) =>
        var next := NextComponent(c.0[c.1..]);
        if s.answer(m).Found? then ByParts(s, t, m, next, flags, fuel)
        else if ErrorIn(s.answer(m)) == -ENOENT && next.1 == 0 && flags.negOk then Arrives(m)
        else Fails(ErrorIn(s.answer(m)))
  }

  function Answer(err: int, n: Option<nat>): Led { if err == 0 && n.Some? then Arrives(n.value) else Fails(err) }

  // What the walk has made of a path, in this name space and in whatever it grows into.
  ghost predicate Leads(s: Setting, t: Tree, start: nat, path: string, flags: Flags, fuel: nat, err: int, n: nat) {
    Faithful(s) ==> forall u :: Grows(t, u) ==> Resolve(s, u, start, path, flags, fuel) == Answer(err, Some(n))
  }

  // The walk that started at `dir` goes on as one at `n` would.
  ghost predicate Tracks(s: Setting, t: Tree, dir: nat, first: (string, nat), n: nat, c: (string, nat), flags: Flags,
                         fuel: nat)
  {
    Faithful(s) ==>
      forall u :: Grows(t, u) ==> ByParts(s, u, dir, first, flags, fuel) == ByParts(s, u, n, c, flags, fuel)
  }

  ghost predicate TracksOn(s: Setting, t: Tree, dir: nat, first: (string, nat), n: nat, c: (string, nat),
                           flags: Flags, fuel: nat)
  {
    Faithful(s) ==>
      forall u :: Grows(t, u) ==> ByParts(s, u, dir, first, flags, fuel) == OneOn(s, u, n, c, flags, fuel)
  }

  ghost predicate Settles(s: Setting, t: Tree, dir: nat, first: (string, nat), flags: Flags, fuel: nat, err: int,
                          n: Option<nat>)
  {
    Faithful(s) ==>
      && (err == 0 ==> n.Some?)
      && forall u :: Grows(t, u) ==> ByParts(s, u, dir, first, flags, fuel) == Answer(err, n)
  }

  // A node of which the kind is known.
  ghost predicate Known(s: Setting, kind: Option<Kind>, n: nat) { Faithful(s) ==> kind == KindOf(s, n) }

  lemma ValidatedIsKnown(s: Setting, kind: Option<Kind>, n: nat)
    requires Validated(s, kind, n)
    ensures Known(s, kind, n)
  {
  }

  lemma TracksStart(s: Setting, t: Tree, dir: nat, c: (string, nat), flags: Flags, fuel: nat)
    ensures Tracks(s, t, dir, c, dir, c, flags, fuel)
  {
  }

  lemma NoLinkHere(s: Setting, t: Tree, dir: nat, first: (string, nat), n: nat, c: (string, nat), flags: Flags,
                   fuel: nat, kind: Option<Kind>)
    requires Tracks(s, t, dir, first, n, c, flags, fuel) && Known(s, kind, n)
    requires !(kind == Some(Link) && (c.1 > 0 || !flags.noFollow))
    ensures TracksOn(s, t, dir, first, n, c, flags, fuel)
  {
    hide Grows, Resolve, OneOn;
  }

  // What following a link has come to.
  ghost predicate LinkLeads(s: Setting, t: Tree, up: nat, link: nat, flags: Flags, fuel: nat, err: int, n: nat) {
    if fuel == 0 then err == -ELOOP
    else
      Faithful(s) ==>
        match s.text(link)
        case Unreadable(e) => err == -(e + 1)
        case Target(path) => Leads(s, t, up, path, flags, fuel - 1, err, n)
  }

  lemma LinkHere(s: Setting, a: Tree, b: Tree, dir: nat, first: (string, nat), n: nat, c: (string, nat), flags: Flags,
                 fuel: nat, kind: Option<Kind>, err: int, m: nat)
    requires Tracks(s, a, dir, first, n, c, flags, fuel) && Known(s, kind, n) && Grows(a, b) && n < a.next
    requires kind == Some(Link) && (c.1 > 0 || !flags.noFollow)
    requires LinkLeads(s, b, Follow(a.parent, n), n, flags, fuel, err, m)
    ensures err == 0 ==> TracksOn(s, b, dir, first, m, c, flags, fuel)
    ensures err != 0 ==> Settles(s, b, dir, first, flags, fuel, err, Some(m))
  {
    if Faithful(s) {
      hide Resolve, OneOn, Faithful;
      forall u | Grows(b, u)
        ensures ByParts(s, u, dir, first, flags, fuel) ==
                if err == 0 then OneOn(s, u, m, c, flags, fuel) else Fails(err)
      {
        GrowsOn(a, b, u);
        assert Follow(u.parent, n) == Follow(a.parent, n);
      }
    }
  }

  lemma LastHere(s: Setting, t: Tree, dir: nat, first: (string, nat), n: nat, c: (string, nat), flags: Flags,
                 fuel: nat)
    requires TracksOn(s, t, dir, first, n, c, flags, fuel) && c.1 == 0
    ensures Settles(s, t, dir, first, flags, fuel, 0, Some(n))
  {
    hide Grows, ByParts;
  }

  lemma NoKindHere(s: Setting, t: Tree, dir: nat, first: (string, nat), n: nat, c: (string, nat), flags: Flags,
                   fuel: nat, kind: Option<Kind>)
    requires TracksOn(s, t, dir, first, n, c, flags, fuel) && Known(s, kind, n)
    requires 0 < c.1 <= |c.0| && kind == None
    ensures Settles(s, t, dir, first, flags, fuel, -ENOENT, Some(n))
  {
    hide Grows, ByParts;
  }

  lemma NoDirHere(s: Setting, t: Tree, dir: nat, first: (string, nat), n: nat, c: (string, nat), flags: Flags,
                  fuel: nat, kind: Option<Kind>)
    requires TracksOn(s, t, dir, first, n, c, flags, fuel) && Known(s, kind, n)
    requires 0 < c.1 <= |c.0| && kind.Some? && kind != Some(Dir)
    ensures Settles(s, t, dir, first, flags, fuel, -ENOTDIR, None)
  {
    hide Grows, ByParts;
  }

  lemma DirHere(s: Setting, a: Tree, b: Tree, dir: nat, first: (string, nat), n: nat, c: (string, nat), flags: Flags,
                fuel: nat, kind: Option<Kind>, m: nat, kind1: Option<Kind>)
    requires TracksOn(s, a, dir, first, n, c, flags, fuel) && Known(s, kind, n) && Grows(a, b)
    requires 0 < c.1 <= |c.0| && kind == Some(Dir) && Answered(s, 0, Some(m), kind1)
    requires Formed(b, s.level, s.root) && n < b.next && Enter(b, s.level, n, c.0[..c.1]) == Some(m)
    ensures Tracks(s, b, dir, first, m, NextComponent(c.0[c.1..]), flags, fuel)
  {
    if Faithful(s) {
      hide ByParts, Enter, Formed, NextComponent;
      forall u | Grows(b, u)
        ensures ByParts(s, u, dir, first, flags, fuel) ==
                ByParts(s, u, m, NextComponent(c.0[c.1..]), flags, fuel)
      {
        GrowsOn(a, b, u);
        EnterGrows(b, u, s.level, s.root, n, c.0[..c.1]);
      }
    }
  }

  // The lookup of the next name has failed; the last one may be missing if that is asked for.
  lemma StopHere(s: Setting, a: Tree, b: Tree, dir: nat, first: (string, nat), n: nat, c: (string, nat), flags: Flags,
                 fuel: nat, err0: int, cur: Option<nat>, kind: Option<Kind>, err: int)
    requires TracksOn(s, a, dir, first, n, c, flags, fuel) && Known(s, Some(Dir), n) && Grows(a, b)
    requires 0 < c.1 <= |c.0| && Formed(b, s.level, s.root) && n < b.next
    requires Answered(s, err0, cur, kind) && err0 != 0
    requires cur.Some? ==> Enter(b, s.level, n, c.0[..c.1]) == cur
    requires err == if err0 == -ENOENT && NextComponent(c.0[c.1..]).1 == 0 && flags.negOk then 0 else err0
    ensures Settles(s, b, dir, first, flags, fuel, err, cur)
    ensures err == 0 && cur.Some? ==> Known(s, kind, cur.value)
  {
    if Faithful(s) {
      hide ByParts, Enter, Formed, NextComponent;
      forall u | Grows(b, u) ensures ByParts(s, u, dir, first, flags, fuel) == Answer(err, cur) {
        GrowsOn(a, b, u);
        if cur.Some? {
          EnterGrows(b, u, s.level, s.root, n, c.0[..c.1]);
        }
      }
    }
  }

  lemma EndsNowhere(s: Setting, t: Tree, dir: nat, names: seq<string>, all: seq<string>, kind: Option<Kind>, n: nat)
    requires Came(s, t, dir, names, n) && (Straight(s, dir) ==> Validated(s, kind, n)) && kind == None
    ensures Ends(s, t, dir, all, -ENOENT, Some(n))
  {
  }

  lemma LinkIsNotStraight(s: Setting, t: Tree, dir: nat, names: seq<string>, kind: Option<Kind>, n: nat)
    requires Validated(s, kind, n) && Came(s, t, dir, names, n) && kind == Some(Link)
    ensures !Straight(s, dir)
  {
  }

  lemma EndsHere(s: Setting, t: Tree, dir: nat, names: seq<string>, err0: int, cur: Option<nat>, kind: Option<Kind>,
                 err: int)
    requires Answered(s, err0, cur, kind) && err0 != 0
    requires err == err0 || (err == 0 && err0 == -ENOENT)
    requires err == 0 ==> if cur.None? then !Plain(s) else Came(s, t, dir, names, cur.value)
    ensures Ends(s, t, dir, names, err, cur)
  {
  }

  lemma SettlesLeads(s: Setting, t: Tree, start: nat, path: string, flags: Flags, fuel: nat, err0: int,
                     cur: Option<nat>, err: int, n: nat)
    requires path != []
    requires Settles(s, t, if path[0] == '/' then s.root else start, NextComponent(path), flags, fuel, err0, cur)
    requires (err0 != 0 || cur.Some? ==> err == err0) && (err == 0 && cur.Some? ==> n == cur.value)
    requires Constant(s) ==> s.answer(if path[0] == '/' then s.root else start).Found?
    ensures Leads(s, t, start, path, flags, fuel, err, n)
  {
    hide Grows, ByParts;
  }

  lemma SettlesKnown(s: Setting, t: Tree, dir: nat, first: (string, nat), flags: Flags, fuel: nat, err: int,
                     n: Option<nat>)
    requires Settles(s, t, dir, first, flags, fuel, err, n)
    ensures err == 0 && n.None? ==> forall kind, m :: Known(s, kind, m)
  {
  }

  // The start of the path is refused.
  lemma RefusedEnds(s: Setting, t: Tree, start: nat, path: string, flags: Flags, fuel: nat, err: int)
    requires path != [] && err != 0
    requires Constant(s) ==> err == ErrorIn(s.answer(if path[0] == '/' then s.root else start))
    ensures Ends(s, t, if path[0] == '/' then s.root else start, Components(path), err, Some(start))
    ensures Leads(s, t, start, path, flags, fuel, err, start)
  {
    SteadyIsPlain(s);
  }

  // From the end of the loop to that of the walk.
  lemma WalkEnds(s: Setting, t: Tree, start: nat, path: string, flags: Flags, fuel: nat, err0: int, cur: Option<nat>,
                 err: int, n: nat)
    requires path != []
    requires var dir := if path[0] == '/' then s.root else start;
             && Ends(s, t, dir, Components(path), err0, cur)
             && Settles(s, t, dir, NextComponent(path), flags, fuel, err0, cur)
             && (Constant(s) ==> s.answer(dir).Found?)
    requires (err0 != 0 || cur.Some? ==> err == err0) && (err == 0 && cur.Some? ==> n == cur.value)
    ensures Ends(s, t, if path[0] == '/' then s.root else start, Components(path), err, Some(n))
    ensures Leads(s, t, start, path, flags, fuel, err, n)
    ensures err0 == 0 && cur.None? ==> forall kind, m :: Known(s, kind, m)
  {
    var dir := if path[0] == '/' then s.root else start;
    hide Settles, Leads, Ends, Known;
    EndsResult(s, t, dir, Components(path), err0, cur, err, n);
    SettlesLeads(s, t, start, path, flags, fuel, err0, cur, err, n);
    SettlesKnown(s, t, dir, NextComponent(path), flags, fuel, err0, cur);
  }

  // Where nothing is reached it does not matter which node is named.
  lemma FailsAnyhow(s: Setting, t: Tree, start: nat, path: string, flags: Flags, fuel: nat, err: int, n: nat, m: nat)
    requires Leads(s, t, start, path, flags, fuel, err, n) && err != 0
    ensures Leads(s, t, start, path, flags, fuel, err, m)
  {
  }

  lemma {:induction false} WholeName(name: string)
    requires '/' !in name
    ensures NameLength(name) == |name|
  {
    if name != [] {
      WholeName(name[1..]);
    }
  }

  lemma OneComponent(name: string)
    requires name != [] && '/' !in name
    ensures NextComponent(name) == (name, |name|) && name[..|name|] == name
    ensures NextComponent(name[|name|..]) == ("", 0)
  {
    assert name[0] in name;
    WholeName(name);
    assert name[|name|..] == "";
  }

  // A path of one name.
  lemma ResolveName(s: Setting, t: Tree, dir: nat, name: string, m: nat, flags: Flags, fuel: nat)
    requires name != [] && '/' !in name && s.answer(dir) == Found(Dir) && Enter(t, s.level, dir, name) == Some(m)
    ensures Resolve(s, t, dir, name, flags, fuel) ==
            if s.perm != 0 then Fails(-(s.perm as int))
            else if s.answer(m).Found? then ByParts(s, t, m, ("", 0), flags, fuel)
            else if ErrorIn(s.answer(m)) == -ENOENT && flags.negOk then Arrives(m)
            else Fails(ErrorIn(s.answer(m)))
  {
    hide Enter, NextComponent;
    OneComponent(name);
    assert name[0] in name;
    assert Resolve(s, t, dir, name, flags, fuel) == ByParts(s, t, dir, (name, |name|), flags, fuel);
    assert ByParts(s, t, dir, (name, |name|), flags, fuel) == OneOn(s, t, dir, (name, |name|), flags, fuel);
  }

  // A link at the end of a path, followed.
  lemma ResolveLink(s: Setting, t: Tree, n: nat, flags: Flags, fuel: nat)
    requires KindOf(s, n) == Some(Link) && s.text(n).Target? && !flags.noFollow
    ensures ByParts(s, t, n, ("", 0), flags, fuel) ==
            if fuel == 0 then Fails(-ELOOP) else Resolve(s, t, Follow(t.parent, n), s.text(n).path, flags, fuel - 1)
  {
  }

  /** A link that leads to itself: however deep the links may be nested, the path fails with ELOOP. */
  lemma {:induction false} LinkToItself(s: Setting, t: Tree, dir: nat, link: nat, flags: Flags, fuel: nat)
    requires s.answer(dir) == Found(Dir) && s.perm == 0 && Follow(t.parent, link) == dir && !flags.noFollow
    requires s.answer(link) == Found(Link) && s.text(link) == Target("a") && Enter(t, s.level, dir, "a") == Some(link)
    ensures Resolve(s, t, dir, "a", flags, fuel) == Fails(-ELOOP)
  {
    hide Enter, Resolve, ByParts;
    ResolveName(s, t, dir, "a", link, flags, fuel);
    ResolveLink(s, t, link, flags, fuel);
    if fuel > 0 {
      LinkToItself(s, t, dir, link, flags, fuel - 1);
    }
  }

  // What is reached stays reached, links followed or not.
  predicate Stays(t: Tree, was: Led, now: Led) {
    (!was.Uncached? ==> now == was) && (was.Arrives? ==> was.node < t.next)
  }

  /** Where a path leads does not change as the name space grows. */
  lemma {:induction false} ResolveGrows(s: Setting, a: Tree, b: Tree, start: nat, path: string, flags: Flags,
                                        fuel: nat)
    requires Grows(a, b) && Formed(a, s.level, s.root) && start < a.next
    ensures Stays(a, Resolve(s, a, start, path, flags, fuel), Resolve(s, b, start, path, flags, fuel))
    decreases fuel, |path|, 2
  {
    if path != [] {
      PartsGrow(s, a, b, if path[0] == '/' then s.root else start, NextComponent(path), flags, fuel);
    }
  }

  lemma {:induction false} PartsGrow(s: Setting, a: Tree, b: Tree, n: nat, c: (string, nat), flags: Flags, fuel: nat)
    requires Grows(a, b) && Formed(a, s.level, s.root) && n < a.next
    ensures Stays(a, ByParts(s, a, n, c, flags, fuel), ByParts(s, b, n, c, flags, fuel))
    decreases fuel, |c.0|, 1
  {
    hide OneOn, Resolve;
    if KindOf(s, n) == Some(Link) && (c.1 > 0 || !flags.noFollow) {
      if fuel > 0 && s.text(n).Target? {
        var up := Follow(a.parent, n);
        assert Follow(b.parent, n) == up;
        ResolveGrows(s, a, b, up, s.text(n).path, flags, fuel - 1);
        var led := Resolve(s, a, up, s.text(n).path, flags, fuel - 1);
        if led.Arrives? {
          OneGrows(s, a, b, led.node, c, flags, fuel);
        }
      }
    } else {
      OneGrows(s, a, b, n, c, flags, fuel);
    }
  }

  lemma {:induction false} OneGrows(s: Setting, a: Tree, b: Tree, n: nat, c: (string, nat), flags: Flags, fuel: nat)
    requires Grows(a, b) && Formed(a, s.level, s.root) && n < a.next
    ensures Stays(a, OneOn(s, a, n, c, flags, fuel), OneOn(s, b, n, c, flags, fuel))
    decreases fuel, |c.0|, 0
  {
    hide ByParts, Enter;
    if 0 < c.1 <= |c.0| && KindOf(s, n) == Some(Dir) {
      EnterGrows(a, b, s.level, s.root, n, c.0[..c.1]);
      var next := Enter(a, s.level, n, c.0[..c.1]);
      if next.Some? && s.answer(next.value).Found? {
        PartsGrow(s, a, b, next.value, NextComponent(c.0[c.1..]), flags, fuel);
      }
    }
  }

  /** A walk in a name space that caches everything the path names: it returns what the path resolves
      to. */
  lemma LeadsCached(s: Setting, a: Tree, b: Tree, start: nat, path: string, flags: Flags, fuel: nat, err: int, n: nat)
    requires Faithful(s) && Grows(a, b) && Formed(a, s.level, s.root) && start < a.next
    requires Leads(s, b, start, path, flags, fuel, err, n)
    requires !Resolve(s, a, start, path, flags, fuel).Uncached?
    ensures Answer(err, Some(n)) == Resolve(s, a, start, path, flags, fuel)
  {
    hide Resolve;
    ResolveGrows(s, a, b, start, path, flags, fuel);
    assert Grows(b, b);
  }

  // What was not to be followed at the end of the path is not followed at the end of a link either:
  // the path is refused, or ends on a link; otherwise the flag has made no difference.
  predicate Refuses(s: Setting, with: Led, without: Led) {
    with == without || with == Fails(-ENOTDIR) || (with.Arrives? && KindOf(s, with.node) == Some(Link))
  }

  // The same flags but for the last link.
  function Final(flags: Flags, noFollow: bool): Flags { flags.(noFollow := noFollow) }

  /** A walk that does not follow a link at the end, and does not end on one, ends where one that
      follows all links does, or is refused with ENOTDIR. */
  lemma {:induction false} NoFollowOnlyRefuses(s: Setting, t: Tree, start: nat, path: string, flags: Flags, fuel: nat)
    ensures Refuses(s, Resolve(s, t, start, path, Final(flags, true), fuel),
              Resolve(s, t, start, path, Final(flags, false), fuel))
    decreases fuel, |path|, 2
  {
    if path != [] {
      PartsOnlyRefuse(s, t, if path[0] == '/' then s.root else start, NextComponent(path), flags, fuel);
    }
  }

  lemma {:induction false} PartsOnlyRefuse(s: Setting, t: Tree, n: nat, c: (string, nat), flags: Flags, fuel: nat)
    ensures Refuses(s, ByParts(s, t, n, c, Final(flags, true), fuel), ByParts(s, t, n, c, Final(flags, false), fuel))
    decreases fuel, |c.0|, 1
  {
    hide Enter;
    if KindOf(s, n) != Some(Link) {
      OneOnlyRefuses(s, t, n, c, flags, fuel);
    } else if c.1 > 0 && fuel > 0 && s.text(n).Target? {
      NoFollowOnlyRefuses(s, t, Follow(t.parent, n), s.text(n).path, flags, fuel - 1);
      var led := Resolve(s, t, Follow(t.parent, n), s.text(n).path, Final(flags, true), fuel - 1);
      if led.Arrives? {
        OneOnlyRefuses(s, t, led.node, c, flags, fuel);
      }
    }
  }

  lemma {:induction false} OneOnlyRefuses(s: Setting, t: Tree, n: nat, c: (string, nat), flags: Flags, fuel: nat)
    ensures Refuses(s, OneOn(s, t, n, c, Final(flags, true), fuel), OneOn(s, t, n, c, Final(flags, false), fuel))
    ensures KindOf(s, n) == Some(Link) && 0 < c.1 <= |c.0| ==>
              OneOn(s, t, n, c, Final(flags, true), fuel) == Fails(-ENOTDIR)
    decreases fuel, |c.0|, 0
  {
    if 0 < c.1 <= |c.0| && KindOf(s, n) == Some(Dir) {
      var next := Enter(t, s.level, n, c.0[..c.1]);
      if next.Some? && s.answer(next.value).Found? {
        PartsOnlyRefuse(s, t, next.value, NextComponent(c.0[c.1..]), flags, fuel);
      }
    }
  }

  /** And it is refused where it should not be: `a/x`, with `a` a link to `b`, `b` a link to the directory
      `c`, and `x` no link. */
  lemma NoFollowLeaksIntoLinks(s: Setting, t: Tree, dir: nat, a: nat, b: nat, c: nat, x: nat, flags: Flags, fuel: nat)
    requires s.answer(dir) == Found(Dir) && s.answer(c) == Found(Dir) && s.answer(x) == Found(Other) && s.perm == 0
    requires s.answer(a) == s.answer(b) == Found(Link) && s.text(a) == Target("b") && s.text(b) == Target("c")
    requires Follow(t.parent, a) == Follow(t.parent, b) == dir && fuel >= 2
    requires Enter(t, s.level, dir, "a") == Some(a) && Enter(t, s.level, dir, "b") == Some(b)
    requires Enter(t, s.level, dir, "c") == Some(c) && Enter(t, s.level, c, "x") == Some(x)
    ensures Resolve(s, t, dir, "a/x", flags, fuel) == if flags.noFollow then Fails(-ENOTDIR) else Arrives(x)
  {
    hide Enter, Resolve;
    ResolveName(s, t, dir, "b", b, flags, fuel - 1);
    OneComponent("x");
    ResolveTwo(s, t, dir, a, flags, fuel);
    if flags.noFollow {
      assert OneOn(s, t, b, ("x", 1), flags, fuel) == Fails(-ENOTDIR);
    } else {
      ResolveName(s, t, dir, "c", c, flags, fuel - 2);
      ResolveLink(s, t, b, flags, fuel - 1);
      assert ByParts(s, t, x, ("", 0), flags, fuel) == Arrives(x);
      assert OneOn(s, t, c, ("x", 1), flags, fuel) == Arrives(x);
    }
  }

  lemma ResolveTwo(s: Setting, t: Tree, dir: nat, a: nat, flags: Flags, fuel: nat)
    requires s.answer(dir) == Found(Dir) && s.perm == 0 && s.answer(a).Found? && Enter(t, s.level, dir, "a") == Some(a)
    ensures Resolve(s, t, dir, "a/x", flags, fuel) == ByParts(s, t, a, ("x", 1), flags, fuel)
  {
    hide Enter, NextComponent;
    TwoComponents();
    assert ByParts(s, t, dir, ("a/x", 1), flags, fuel) == OneOn(s, t, dir, ("a/x", 1), flags, fuel);
  }

  lemma TwoComponents()
    ensures NextComponent("a/x") == ("a/x", 1) && "a/x"[..1] == "a" && NextComponent("a/x"[1..]) == ("x", 1)
  {
    assert "a/x"[1..] == "/x" && "/x"[1..] == "x" && "x"[1..] == "";
    assert NameLength("x") == 1 && NameLength("/x") == 0 && NameLength("a/x") == 1;
    assert SkipSlashes("/x") == SkipSlashes("x") == "x";
  }

  /** Where every permission check fails, no path with a name in it gets beyond a directory. */
  lemma Forbidden(s: Setting, t: Tree, start: nat, path: string, flags: Flags, fuel: nat)
    requires path != [] && NextComponent(path).1 > 0 && s.perm != 0
    requires s.answer(if path[0] == '/' then s.root else start) == Found(Dir)
    ensures Resolve(s, t, start, path, flags, fuel) == Fails(-(s.perm as int))
  {
    hide NextComponent;
    var (dir, c) := (if path[0] == '/' then s.root else start, NextComponent(path));
    assert ByParts(s, t, dir, c, flags, fuel) == OneOn(s, t, dir, c, flags, fuel);
  }

  // Lookups that find nothing leave nothing behind.
  ghost predicate NoneLeft(s: Setting) { forall n :: s.answer(n).NotFound? ==> s.answer(n).left.None? }

  // Where the last component may be missing, a path fails for want of a node only if that is not the
  // last one; otherwise the flag has made no difference.
  ghost predicate Admits(s: Setting, with: Led, without: Led) {
    with == without ||
    (without == Fails(-ENOENT) &&
     (NoneLeft(s) ==> with.Arrives? && ErrorIn(s.answer(with.node)) == -ENOENT && KindOf(s, with.node) == None))
  }

  function Missing(flags: Flags, negOk: bool): Flags { flags.(negOk := negOk) }

  /** A walk that may end on a missing node ends where one that may not does, or where the other fails with
      ENOENT; then it ends on a node that is missing. */
  lemma {:induction false} NegOkOnlyAdmits(s: Setting, t: Tree, start: nat, path: string, flags: Flags, fuel: nat)
    ensures Admits(s, Resolve(s, t, start, path, Missing(flags, true), fuel),
                   Resolve(s, t, start, path, Missing(flags, false), fuel))
    decreases fuel, |path|, 2
  {
    if path != [] {
      PartsOnlyAdmit(s, t, if path[0] == '/' then s.root else start, NextComponent(path), flags, fuel);
    }
  }

  lemma {:induction false} PartsOnlyAdmit(s: Setting, t: Tree, n: nat, c: (string, nat), flags: Flags, fuel: nat)
    ensures Admits(s, ByParts(s, t, n, c, Missing(flags, true), fuel), ByParts(s, t, n, c, Missing(flags, false), fuel))
    decreases fuel, |c.0|, 1
  {
    hide Enter, OneOn;
    if !(KindOf(s, n) == Some(Link) && (c.1 > 0 || !flags.noFollow)) {
      OneOnlyAdmits(s, t, n, c, flags, fuel);
    } else if fuel > 0 && s.text(n).Target? {
      NegOkOnlyAdmits(s, t, Follow(t.parent, n), s.text(n).path, flags, fuel - 1);
      var led := Resolve(s, t, Follow(t.parent, n), s.text(n).path, Missing(flags, true), fuel - 1);
      if led.Arrives? {
        OneOnlyAdmits(s, t, led.node, c, flags, fuel);
      }
    }
  }

  lemma {:induction false} OneOnlyAdmits(s: Setting, t: Tree, n: nat, c: (string, nat), flags: Flags, fuel: nat)
    ensures Admits(s, OneOn(s, t, n, c, Missing(flags, true), fuel), OneOn(s, t, n, c, Missing(flags, false), fuel))
    ensures KindOf(s, n) == None ==>
              OneOn(s, t, n, c, Missing(flags, true), fuel) == if 0 < c.1 <= |c.0| then Fails(-ENOENT) else Arrives(n)
    decreases fuel, |c.0|, 0
  {
    if 0 < c.1 <= |c.0| && KindOf(s, n) == Some(Dir) {
      var next := Enter(t, s.level, n, c.0[..c.1]);
      if next.Some? && s.answer(next.value).Found? {
        PartsOnlyAdmit(s, t, next.value, NextComponent(c.0[c.1..]), flags, fuel);
      }
    }
  }

  class NameSpace {
    var refs: map<nat, nat>                 // p_ref; a node that is not in it has none
    var tree: Tree
    var ino: map<nat, Kind>                 // pb_ino, by base node, where there is one
    var calls: nat
    const table: NameTable
    const setting: Setting

    ghost predicate Valid()
      reads this, table, table.buckets
    {
      && Formed(tree, setting.level, setting.root) && (forall n :: n in refs ==> n < tree.next)
      && table.Valid() && Agrees(tree, table.nodes)
    }

    /** The name space with only its root mounted: base node 0, which has no name, and alias 1. */
    constructor (s: Setting)
      requires s.root == 1
      ensures Valid() && setting == s && fresh(table) && fresh(table.buckets)
      ensures tree == Tree(map[1 := 1], map[1 := 0], map[], map[], map[], 2)
    {
      table := new NameTable();
      setting := s;
      refs, ino, calls := map[1 := 1], map[], 0;
      tree := Tree(map[1 := 1], map[1 := 0], map[], map[], map[], 2);
      new;
      hide Agrees, Formed, NameTable.Valid;
      table.PbNew(0, [], None);
      OnlyRoot(s.level);
    }

    lemma Agreed()
      requires Valid()
      ensures table.Valid() && Agrees(tree, table.nodes) && Reflects(tree, table.nodes)
    {
    }

    method PRef(n: nat)
      requires Valid() && n < tree.next
      modifies `refs
      ensures Valid() && OneMoreOn(old(refs), refs, n)
    {
      hide Formed, Agrees;
      refs := refs[n := Ref(refs, n) + 1];
    }

    // P_RELE asserts that there is a reference to give back.
    method PRele(n: nat)
      requires Valid() && Ref(refs, n) > 0
      modifies `refs
      ensures Valid() && OneMoreOn(refs, old(refs), n)
    {
      hide Formed, Agrees;
      refs := refs[n := refs[n] - 1];
    }

    // The base node for a name: through the names table; a new one has no i-node.
    method BaseOf(dir: nat, name: string) returns (b: nat)
      requires Valid() && dir < tree.next
      modifies `tree, `ino, table, table.buckets
      ensures Valid() && Grows(old(tree), tree) && b in table.nodes
      ensures Follow(tree.base, dir) == Follow(old(tree).base, dir)
      ensures (Follow(tree.base, dir), name) in tree.children && tree.children[(Follow(tree.base, dir), name)] == b
      ensures (b, dir) in tree.aliases ==> Child(old(tree), dir, name).Some?
    {
      hide Agrees, NameTable.Valid, Formed, Grows;
      AliasesAreLive();
      NotYet(dir, name);
      NoChild(dir, name);
      Inside(dir);
      var key := (Follow(tree.base, dir), name);
      if key !in tree.children {
        WithChildAgrees(tree, table.nodes, dir, name);
        WithChildGrows(tree, dir, name, setting.level, setting.root);
      }
      b := table.GetChild(tree.next, key.0, name);
      if b == tree.next {
        ino := ino - {b};
        tree := WithChild(tree, dir, name);
      }
    }

    lemma AliasesAreLive()
      requires Valid()
      ensures forall k :: k in tree.aliases ==> k.0 < tree.next
    {
    }

    // What the names table demands of a new name.
    lemma NotYet(dir: nat, name: string)
      requires Valid() && dir < tree.next
      ensures Follow(tree.base, dir) in table.nodes && forall c :: c in table.nodes ==> c < tree.next
      ensures (Follow(tree.base, dir), name) !in tree.children ==>
                forall c :: c in table.nodes ==> table.nodes[c] != Base(name, Some(Follow(tree.base, dir)))
      ensures forall c :: c in table.nodes && table.nodes[c] == Base(name, Some(Follow(tree.base, dir))) ==>
                (Follow(tree.base, dir), name) in tree.children && tree.children[(Follow(tree.base, dir), name)] == c
    {
    }

    // `_sysio_p_new_alias`: comes with its first reference.
    method NewAlias(dir: nat, b: nat) returns (n: nat)
      requires Valid() && dir < tree.next && b in table.nodes && (b, dir) !in tree.aliases
      modifies `tree, `refs
      ensures Valid() && Grows(old(tree), tree) && n < tree.next && OneMoreOn(old(refs), refs, n)
      ensures tree == WithAlias(old(tree), dir, b) && n == old(tree).next
      ensures (b, dir) in tree.aliases && tree.aliases[(b, dir)] == n
    {
      hide Formed, Grows, Agrees, WithAlias, NameTable.Valid;
      n := tree.next;
      refs := refs[n := 1];
      WithAliasHas(tree, dir, b);
      tree := WithAlias(tree, dir, b);
      WithAliasGrows(old(tree), dir, b);
      WithAliasFormed(old(tree), dir, b, setting.level, setting.root);
      WithAliasAgrees(old(tree), table.nodes, dir, b);
    }

    /** `_sysio_p_find_alias`: finds or makes the base node, through the names table, and the alias;
        either way it comes referenced. */
    method FindAlias(dir: nat, name: string) returns (n: nat)
      requires Valid() && dir < tree.next
      modifies `tree, `refs, `ino, table, table.buckets
      ensures Valid() && Grows(old(tree), tree) && n < tree.next && OneMoreOn(old(refs), refs, n)
      ensures Child(tree, dir, name) == Some(n)
      ensures Child(old(tree), dir, name).None? ==> n >= old(tree).next && Follow(tree.cover, n) == n
    {
      hide Formed, Ref, OneMoreOn, Agrees, NameTable.Valid;
      var b := BaseOf(dir, name);
      if (b, dir) in tree.aliases {
        n := tree.aliases[(b, dir)];
        InsideAlias((b, dir));
        PRef(n);
      } else {
        n := NewAlias(dir, b);
      }
    }

    lemma NoChild(dir: nat, name: string)
      requires Valid()
      ensures (forall c :: c in table.nodes ==> table.nodes[c] != Base(name, Some(Follow(tree.base, dir)))) <==>
              (Follow(tree.base, dir), name) !in tree.children
    {
    }

    lemma InsideAlias(k: (nat, nat))
      requires Valid() && k in tree.aliases
      ensures tree.aliases[k] < tree.next
    {
    }

    // `_sysio_p_validate`.
    method Validate(n: nat, ghost s: Setting) returns (err: int)
      requires Valid() && s.drv.lookup == setting.drv.lookup
      modifies `ino, `calls
      ensures Valid() && err <= 0 && (err == 0 ==> Validated(s, InoOf(tree, ino, n), n))
      ensures err == ErrorIn(setting.drv.lookup(old(calls), n))
      ensures InoOf(tree, ino, n) == KindIn(setting.drv.lookup(old(calls), n))
      ensures Constant(s) ==> err == ErrorIn(s.answer(n)) && InoOf(tree, ino, n) == KindOf(s, n)
    {
      hide Formed, Agrees;
      var b := Follow(tree.base, n);
      match setting.drv.lookup(calls, n) {
        case Found(kind) =>
          ino := ino[b := kind];
          err := 0;
        case NotFound(e, left) =>
          ino := if left.Some? then ino[b := left.value] else ino - {b};
          err := -(e + 1);
      }
      calls := calls + 1;
    }

    // The climb to the covering node, exchanging one reference for another.
    method Uncover(n0: nat) returns (n: nat)
      requires Valid() && n0 < tree.next && Ref(refs, n0) > 0
      modifies `refs
      ensures Valid() && n < tree.next && n == Top(tree, setting.level, n0)
      ensures forall m :: Ref(refs, m) + (if m == n0 then 1 else 0) == Ref(old(refs), m) + if m == n then 1 else 0
    {
      n := n0;
      while n in tree.cover && tree.cover[n] != n
        invariant Valid() && n < tree.next && Ref(refs, n) > 0
        invariant Top(tree, setting.level, n) == Top(tree, setting.level, n0)
        invariant forall m :: Ref(refs, m) + (if m == n0 then 1 else 0) == Ref(old(refs), m) + if m == n then 1 else 0
        decreases setting.level(n)
      {
        assert CoverFormed(tree, setting.level, n);
        var c := tree.cover[n];
        PRef(c);
        PRele(n);
        n := c;
      }
    }

    method Count()
      requires Valid()
      modifies `calls
      ensures Valid()
    {
      calls := calls + 1;
    }

    lemma Inside(n: nat)
      requires Valid()
      ensures setting.root < tree.next && (n < tree.next ==> Follow(tree.parent, n) < tree.next)
      ensures Formed(tree, setting.level, setting.root) && Grows(tree, tree)
    {
    }

    /** `lookup`: on every return it has given out one reference, on the node it returns, or none
        if it returns no node; and the node is the one the name leads to.  It returns none exactly if
        its parent has no i-node or the permission check, if asked for, fails. */
    method LookupComponent(dir: nat, name: string, check: bool) returns (err: int, pno: Option<nat>)
      requires Valid() && dir < tree.next
      modifies this, table, table.buckets
      ensures Valid() && Grows(old(tree), tree) && (pno.Some? ==> pno.value < tree.next)
      ensures Gives(old(refs), refs, pno)
      ensures err <= 0
      ensures err == 0 ==> pno.Some? && Validated(As(setting, check), InoOf(tree, ino, pno.value), pno.value)
      ensures pno.Some? ==> Enter(tree, setting.level, dir, name) == pno
      ensures old(InoOf(tree, ino, dir)).None? ==> err == -ENOTDIR && pno.None?
      ensures old(InoOf(tree, ino, dir)).Some? ==>
                var refused := if check then setting.drv.permit(old(calls)) else 0;
                if refused != 0 then err == -(refused as int) && pno.None?
                else
                  var call := if check then old(calls) + 1 else old(calls);
                  && pno.Some? && err == ErrorIn(setting.drv.lookup(call, pno.value))
                  && InoOf(tree, ino, pno.value) == KindIn(setting.drv.lookup(call, pno.value))
      ensures pno.None? && Plain(As(setting, check)) ==> err != -ENOENT
      ensures old(InoOf(tree, ino, dir)).Some? ==>
                Answered(As(setting, check), err, pno, if pno.None? then None else InoOf(tree, ino, pno.value))
    {
      hide Valid, OneMoreOn, Same, Ref, Grows, Validated, Formed, Top;
      Unchanged(refs);
      Inside(dir);
      if InoOf(tree, ino, dir).None? {
        return -ENOTDIR, None;
      }
      if check {
        err := Permitted();
        if err != 0 {
          return err, None;
        }
      }
      var n;
      if name == "." {
        n := dir;
        PRef(n);
      } else if name == ".." {
        n := Follow(tree.parent, dir);
        PRef(n);
      } else {
        n := FindAlias(dir, name);
      }
      n := Uncovered(n, old(refs));
      err := Validate(n, As(setting, check));
      pno := Some(n);
    }

    // `_sysio_permitted`.
    method Permitted() returns (err: int)
      requires Valid()
      modifies `calls
      ensures Valid() && err == -(setting.drv.permit(old(calls)) as int) && calls == old(calls) + 1
    {
      hide Formed, Agrees, NameTable.Valid;
      var e: int := setting.drv.permit(calls);
      calls := calls + 1;
      return -e;
    }

    method Uncovered(n0: nat, ghost before: map<nat, nat>) returns (n: nat)
      requires Valid() && n0 < tree.next && OneMoreOn(before, refs, n0)
      modifies `refs
      ensures Valid() && n < tree.next && n == Top(tree, setting.level, n0) && OneMoreOn(before, refs, n)
    {
      hide Formed, Top;
      n := Uncover(n0);
    }

    ghost function Seen(flags: Flags): Setting { As(setting, !flags.noPermCheck) }

    /** `_sysio_path_walk`: always comes to an end; on success exactly one reference has been
        added, on the node returned; on an error every count is as it was.  Without symbolic
        links the node returned is the one to which the components of the path lead, and if the
        drivers make no difficulties the walk succeeds if they lead through directories, and
        fails with ENOTDIR if they do not. */
    method Walk(start: nat, path0: Option<string>, flags: Flags, links: nat) returns (err: int, pno: nat)
      requires Valid() && start < tree.next && links <= MAX_SYMLINK
      modifies this, table, table.buckets
      ensures Valid() && Grows(old(tree), tree) && err <= 0
      ensures err != 0 ==> Same(old(refs), refs)
      ensures err == 0 ==> pno < tree.next && OneMoreOn(old(refs), refs, pno)
      ensures path0 == None ==> err == -EFAULT
      ensures path0 == Some([]) ==> err == -ENOENT
      ensures path0.Some? && path0.value != [] ==>
                var dir := if path0.value[0] == '/' then setting.root else start;
                Ends(Seen(flags), tree, dir, Components(path0.value), err, Some(pno))
      ensures path0.Some? ==> Leads(Seen(flags), tree, start, path0.value, flags, MAX_SYMLINK - links, err, pno)
      ensures err == 0 ==> Known(Seen(flags), InoOf(tree, ino, pno), pno)
      decreases MAX_SYMLINK - links, 4
    {
      if path0.None? {
        return -EFAULT, start;
      }
      Inside(start);
      Unchanged(refs);
      if path0.value == [] {
        return -ENOENT, start;
      }
      hide Valid, Same, OneMoreOn, Ref, Ends, Leads, Known, Grows, Formed, Components;
      err, pno := WalkText(start, path0.value, flags, links);
    }

    // The walk of a path that is not empty.
    method WalkText(start: nat, path: string, flags: Flags, links: nat) returns (err: int, pno: nat)
      requires Valid() && start < tree.next && links <= MAX_SYMLINK && path != []
      modifies this, table, table.buckets
      ensures Valid() && Grows(old(tree), tree) && err <= 0
      ensures err != 0 ==> Same(old(refs), refs)
      ensures err == 0 ==> pno < tree.next && OneMoreOn(old(refs), refs, pno)
      ensures Ends(Seen(flags), tree, if path[0] == '/' then setting.root else start, Components(path), err, Some(pno))
      ensures Leads(Seen(flags), tree, start, path, flags, MAX_SYMLINK - links, err, pno)
      ensures err == 0 ==> Known(Seen(flags), InoOf(tree, ino, pno), pno)
      decreases MAX_SYMLINK - links, 3
    {
      hide Valid, OneMoreOn, Same, Ref, InoOf, Holding, Gives, Formed, Grows, Came, Validated, Steady, Plain, Along,
        ThroughDirs, Components, NextComponent, AtComponent, Ends, Follow, Known, Leads, Settles, Constant;
      Inside(start);
      var dir := if path[0] == '/' then setting.root else start;
      ghost var s := Seen(flags);
      err := Validate(dir, s);
      if err != 0 {
        Unchanged(refs);
        RefusedEnds(s, tree, start, path, flags, MAX_SYMLINK - links, err);
        return err, start;
      }
      PRef(dir);
      ghost var refs0 := old(refs);
      var cur, up;
      StartsAtComponent(path);
      err, cur, up := WalkLoop(refs0, dir, NextComponent(path), flags, links);
      ghost var err0 := err;
      err, pno := Finish(refs0, err, cur, up, start);
      WalkEnds(s, tree, start, path, flags, MAX_SYMLINK - links, err0, cur, err, pno);
    }

    /** The loop of the walk.  It ends standing on `cur`, or on its parent `up` while `cur` was
        being looked up; each of them that is there holds one reference. */
    method WalkLoop(ghost refs0: map<nat, nat>, dir: nat, first: (string, nat), flags: Flags, links: nat)
        returns (err: int, cur: Option<nat>, up: Option<nat>)
      requires Valid() && dir < tree.next && links <= MAX_SYMLINK && AtComponent(first)
      requires OneMoreOn(refs0, refs, dir) && Validated(Seen(flags), InoOf(tree, ino, dir), dir)
      modifies this, table, table.buckets
      ensures Valid() && Grows(old(tree), tree) && err <= 0 && (cur.Some? || up.Some?)
      ensures (cur.Some? ==> cur.value < tree.next) && (up.Some? ==> up.value < tree.next)
      ensures Holding(refs0, refs, cur, up)
      ensures Ends(Seen(flags), tree, dir, Components(first.0), err, cur)
      ensures Settles(Seen(flags), tree, dir, first, flags, MAX_SYMLINK - links, err, cur)
      ensures err == 0 && cur.Some? ==> Known(Seen(flags), InoOf(tree, ino, cur.value), cur.value)
      decreases MAX_SYMLINK - links, 2
    {
      hide Valid, OneMoreOn, Same, Ref, InoOf, Holding, Gives, Grows, Formed, NextComponent, Components,
        Came, Ends, Along, ThroughDirs, Enter, Plain, Steady, Constant, Tracks, TracksOn, Settles, Known, LinkLeads,
        Answered, Validated, Straight, Barred;
      Inside(dir);
      ghost var (s, fuel) := (Seen(flags), MAX_SYMLINK - links);
      TracksStart(s, tree, dir, first, flags, fuel);
      var node: nat := dir;
      var rest: string, len: nat := first.0, first.1;
      ghost var names: seq<string> := [];
      ghost var all := Components(first.0);
      CameNowhere(s, tree, dir);
      while true
        invariant Valid() && Grows(old(tree), tree) && node < tree.next
        invariant OneMoreOn(refs0, refs, node)
        invariant AtComponent((rest, len)) && all == names + Components(rest)
        invariant Came(s, tree, dir, names, node) && Validated(s, InoOf(tree, ino, node), node)
        invariant Tracks(s, tree, dir, first, node, (rest, len), flags, fuel)
        decreases |rest|, len
      {
        TakesOne(names, (rest, len), all);
        SteadyIsPlain(s);
        err, node := Arrive(refs0, old(tree), dir, first, names, node, rest, len, flags, links);
        if err != 0 {
          EndsAnyhow(s, tree, dir, all, err, Some(node));
          HoldingOne(refs0, refs, node);
          return err, Some(node), None;
        }
        HoldingOne(refs0, refs, node);
        var kind := InoOf(tree, ino, node);
        if len == 0 {
          EndsThere(s, tree, dir, names, node);
          LastHere(s, tree, dir, first, node, (rest, len), flags, fuel);
          return 0, Some(node), None;
        }
        if kind.None? {
          EndsNowhere(s, tree, dir, names, all, kind, node);
          NoKindHere(s, tree, dir, first, node, (rest, len), flags, fuel, kind);
          return -ENOENT, Some(node), None;
        }
        var name, after := rest[..len], NextComponent(rest[len..]);
        if kind != Some(Dir) {
          EndsEarly(s, tree, dir, names, node, kind, Components(rest), None);
          NoDirHere(s, tree, dir, first, node, (rest, len), flags, fuel, kind);
          return -ENOTDIR, None, Some(node);
        }
        ghost var (c0, t0) := ((rest, len), tree);
        rest, len := after.0, after.1;
        up := Some(node);
        Inside(node);
        err, cur := Descend(refs0, node, name, flags);
        GrowsOn(old(tree), t0, tree);
        Inside(node);
        ghost var (err0, kind1) := (err, if cur.None? then None else InoOf(tree, ino, cur.value));
        if cur.Some? {
          CameOn(s, t0, tree, dir, names, node, kind, name, cur.value, err, kind1);
        }
        names := names + [name];
        if err != 0 {
          if err == -ENOENT && len == 0 && flags.negOk {
            err := 0;
            TakesOne(names, (rest, len), all);
          }
          EndsHere(s, tree, dir, all, err0, cur, kind1, err);
          StopHere(s, t0, tree, dir, first, node, c0, flags, fuel, err0, cur, kind1, err);
          return;
        }
        DirHere(s, t0, tree, dir, first, node, c0, flags, fuel, kind, cur.value, kind1);
        node := cur.value;
      }
    }

    // On a node that has been looked up: if it is a link that is to be followed, the walk moves on.
    method Arrive(ghost refs0: map<nat, nat>, ghost before: Tree, ghost dir: nat, ghost first: (string, nat),
                  ghost names: seq<string>, node0: nat, rest: string, len: nat, flags: Flags, links: nat)
        returns (err: int, node: nat)
      requires Valid() && node0 < tree.next && links <= MAX_SYMLINK && Grows(before, tree) && dir < before.next
      requires OneMoreOn(refs0, refs, node0) && Validated(Seen(flags), InoOf(tree, ino, node0), node0)
      requires Came(Seen(flags), tree, dir, names, node0)
      requires Tracks(Seen(flags), tree, dir, first, node0, (rest, len), flags, MAX_SYMLINK - links)
      modifies this, table, table.buckets
      ensures Valid() && Grows(before, tree) && Grows(old(tree), tree) && err <= 0 && node < tree.next
      ensures OneMoreOn(refs0, refs, node) && (err != 0 ==> !Straight(Seen(flags), dir))
      ensures Straight(Seen(flags), dir) ==> Validated(Seen(flags), InoOf(tree, ino, node), node)
      ensures Came(Seen(flags), tree, dir, names, node)
      ensures err == 0 ==> TracksOn(Seen(flags), tree, dir, first, node, (rest, len), flags, MAX_SYMLINK - links)
      ensures err == 0 ==> Known(Seen(flags), InoOf(tree, ino, node), node)
      ensures err != 0 ==> Settles(Seen(flags), tree, dir, first, flags, MAX_SYMLINK - links, err, Some(node))
      decreases MAX_SYMLINK - links, 1
    {
      hide Valid, OneMoreOn, Same, Ref, InoOf, Holding, Gives, Grows, Formed, Came, Plain, Steady, Constant, Tracks,
        TracksOn, Settles, Known, LinkLeads, Validated, Straight, Barred;
      ghost var (s, fuel) := (Seen(flags), MAX_SYMLINK - links);
      ghost var (t0, kind) := (tree, InoOf(tree, ino, node0));
      Inside(node0);
      ValidatedIsKnown(s, kind, node0);
      err, node := 0, node0;
      if InoOf(tree, ino, node) == Some(Link) && (len > 0 || !flags.noFollow) {
        // only here can the walk leave the names it was given
        err, node := FollowLink(refs0, node, flags, links);
        LinkIsNotStraight(s, t0, dir, names, kind, node0);
        LinkHere(s, t0, tree, dir, first, node0, (rest, len), flags, fuel, kind, err, node);
        GrowsOn(before, t0, tree);
        CameAnyhow(s, before, tree, dir, names, node);
      } else {
        NoLinkHere(s, tree, dir, first, node, (rest, len), flags, fuel, kind);
      }
    }

    // A symbolic link: the reference moves on to where it leads, or stays.
    method FollowLink(ghost refs0: map<nat, nat>, link: nat, flags: Flags, links: nat) returns (err: int, node: nat)
      requires Valid() && link < tree.next && links <= MAX_SYMLINK
      requires OneMoreOn(refs0, refs, link)
      modifies this, table, table.buckets
      ensures Valid() && Grows(old(tree), tree) && err <= 0 && node < tree.next
      ensures OneMoreOn(refs0, refs, node) && (err != 0 ==> node == link)
      ensures LinkLeads(Seen(flags), tree, Follow(old(tree).parent, link), link, flags, MAX_SYMLINK - links,
                        err, node)
      ensures err == 0 ==> Known(Seen(flags), InoOf(tree, ino, node), node)
      decreases MAX_SYMLINK - links, 0
    {
      hide Valid, OneMoreOn, Same, Ref, Gives, Grows, Formed, Ends, Components, Leads, Known, Constant, InoOf;
      Inside(link);
      if links >= MAX_SYMLINK {
        return -ELOOP, link;
      }
      var answer := setting.drv.readlink(calls, link);
      Count();
      if answer.Unreadable? {
        return -(answer.err + 1), link;
      }
      ghost var refs1 := refs;
      err, node := Walk(Follow(tree.parent, link), Some(answer.path), flags, links + 1);
      if err != 0 {
        SameThenMore(refs0, refs1, link, refs);
        GrowsOn(old(tree), old(tree), tree);
        FailsAnyhow(Seen(flags), tree, Follow(old(tree).parent, link), answer.path, flags, MAX_SYMLINK - links - 1,
                    err, node, link);
        return err, link;
      }
      ghost var refs2 := refs;
      GivesOne(refs1, refs2, node);
      Held(refs0, refs1, link, refs2, Some(node));
      PRele(link);
      Moved(refs0, refs1, link, refs2, node, refs);
    }

    // One component: the reference moves on to the node found; on an error the parent keeps its own.
    method Descend(ghost refs0: map<nat, nat>, dir: nat, name: string, flags: Flags)
        returns (err: int, cur: Option<nat>)
      requires Valid() && dir < tree.next
      requires OneMoreOn(refs0, refs, dir)
      modifies this, table, table.buckets
      ensures Valid() && Grows(old(tree), tree) && err <= 0 && (cur.Some? ==> cur.value < tree.next)
      ensures err == 0 ==> cur.Some? && OneMoreOn(refs0, refs, cur.value)
      ensures err == 0 ==> Validated(Seen(flags), InoOf(tree, ino, cur.value), cur.value)
      ensures cur.Some? ==> Enter(tree, setting.level, dir, name) == cur
      ensures cur.None? && Plain(Seen(flags)) ==> err != -ENOENT
      ensures old(InoOf(tree, ino, dir)).Some? ==>
                Answered(Seen(flags), err, cur, if cur.None? then None else InoOf(tree, ino, cur.value))
      ensures err != 0 ==> Holding(refs0, refs, cur, Some(dir))
    {
      hide Valid, OneMoreOn, Same, Ref, InoOf, Holding, Gives, Grows, Validated, Enter, Plain, Steady;
      ghost var refs1 := refs;
      err, cur := LookupComponent(dir, name, !flags.noPermCheck);
      Held(refs0, refs1, dir, refs, cur);
      HoldingTwo(refs0, refs1, dir, refs, cur);
      if err == 0 {
        ghost var refs2 := refs;
        GivesOne(refs1, refs2, cur.value);
        PRele(dir);
        Moved(refs0, refs1, dir, refs2, cur.value, refs);
      }
    }

    // The end of the walk: whatever the loop still holds is given back, but for the result.
    method Finish(ghost refs0: map<nat, nat>, err0: int, cur0: Option<nat>, up0: Option<nat>, start: nat)
        returns (err: int, pno: nat)
      requires Valid() && err0 <= 0 && (cur0.Some? || up0.Some?)
      requires (cur0.Some? ==> cur0.value < tree.next) && (up0.Some? ==> up0.value < tree.next)
      requires Holding(refs0, refs, cur0, up0)
      modifies `refs
      ensures Valid() && err <= 0 && (err0 != 0 || cur0.Some? ==> err == err0)
      ensures err != 0 ==> Same(refs0, refs)
      ensures err == 0 && cur0.Some? ==> pno == cur0.value
      ensures err == 0 ==> pno < tree.next && OneMoreOn(refs0, refs, pno)
    {
      hide Formed, Agrees, Valid;
      err := err0;
      var (cur, up) := (cur0, up0);
      if cur.None? {
        cur, up := up, None;
        if err == 0 && InoOf(tree, ino, cur.value) != Some(Dir) {
          err := -ENOTDIR;
        }
      }
      if up.Some? {
        PRele(up.value);
      }
      pno := start;
      if err != 0 {
        PRele(cur.value);
      } else {
        pno := cur.value;
      }
    }
  }
}
