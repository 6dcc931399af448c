/**
 Printing a path and walking it again: what `_sysio_pb_path` prints leads `_sysio_path_walk` back to
 the node (src/inode.c, src/namei.c).
 */
module NamePath {
  import opened Basics
  import opened NameTables
  import opened PathWalk

  // ---------------------------------------------------------------------------------
  // What is printed and what is walked
  // ---------------------------------------------------------------------------------

  function Names(nodes: map<nat, Base>, b: nat): seq<string>
    requires Rooted(nodes) && b in nodes
    decreases b
  {
    var up := nodes[b].parent;
    (if up.None? then [] else Names(nodes, up.value)) + if nodes[b].name == [] then [] else [nodes[b].name]
  }

  // A name as `_sysio_next_component` delivers it.
  predicate Clean(name: string) { name != [] && '/' !in name }

  function Flat(names: seq<string>): string {
    if names == [] then [] else ['/'] + names[0] + Flat(names[1..])
  }

  lemma {:induction false} FlatSnoc(names: seq<string>, name: string)
    ensures Flat(names + [name]) == Flat(names) + (['/'] + name)
  {
    if names != [] {
      FlatSnoc(names[1..], name);
      assert (names + [name])[1..] == names[1..] + [name];
      assert (names + [name])[0] == names[0];
    }
  }

  lemma {:induction false} TextIsFlat(nodes: map<nat, Base>, b: nat)
    requires Rooted(nodes) && b in nodes
    ensures Text(nodes, b) == Flat(Names(nodes, b))
    decreases b
  {
    var up := nodes[b].parent;
    var above := if up.None? then [] else Names(nodes, up.value);
    if up.Some? {
      TextIsFlat(nodes, up.value);
    }
    FlatSnoc(above, nodes[b].name);
    assert above + [] == above;
  }

  lemma {:induction false} NameLengthIs(name: string, rest: string)
    requires '/' !in name && (rest != [] ==> rest[0] == '/')
    ensures NameLength(name + rest) == |name|
  {
    if name == [] {
      assert name + rest == rest;
    } else {
      assert (name + rest)[1..] == name[1..] + rest;
      NameLengthIs(name[1..], rest);
    }
  }

  /** The components of a printed path are the names that were printed. */
  lemma {:induction false} ComponentsOfFlat(names: seq<string>)
    requires forall x :: x in names ==> Clean(x)
    ensures Components(Flat(names)) == names
  {
    if names != [] {
      var (name, rest) := (names[0], Flat(names[1..]));
      assert name in names;
      var p := Flat(names);
      assert p[1..] == name + rest;
      assert (name + rest)[0] == name[0];
      NameLengthIs(name, rest);
      assert SkipSlashes(p) == SkipSlashes(p[1..]) == name + rest;
      assert (name + rest)[..|name|] == name && (name + rest)[|name|..] == rest;
      ComponentsOfFlat(names[1..]);
    }
  }

  /** Trailing separators change nothing, whatever the last component is: the walk does not
      refuse them behind a file. */
  lemma {:induction false} TrailingSlashIsIgnored(path: string)
    ensures Components(path + "/") == Components(path)
    decreases |path|
  {
    SkipSlashesThen(path);
    var p := SkipSlashes(path);
    if p != [] {
      var n := NameLength(p);
      NameLengthIs(p[..n], p[n..] + "/");
      assert p[..n] + (p[n..] + "/") == p + "/";
      assert (p + "/")[..n] == p[..n] && (p + "/")[n..] == p[n..] + "/";
      TrailingSlashIsIgnored(p[n..]);
    }
  }

  lemma {:induction false} SkipSlashesThen(path: string)
    ensures SkipSlashes(path + "/") == if SkipSlashes(path) == [] then [] else SkipSlashes(path) + "/"
  {
    if path == [] {
      assert path + "/" == "/" && "/"[1..] == [];
    } else if path[0] == '/' {
      assert (path + "/")[1..] == path[1..] + "/";
      SkipSlashesThen(path[1..]);
    }
  }

  // `n` is an alias somewhere below `root`; its base nodes lead up to the nameless root of the file
  // system, nothing on the way is covered and there is no name that a walk would not look up.
  ghost predicate Below(t: Tree, nodes: map<nat, Base>, root: nat, n: nat)
    requires Rooted(nodes)
    decreases Follow(t.base, n)
  {
    var b := Follow(t.base, n);
    && b in nodes
    && match nodes[b].parent
       case None => n == root && nodes[b].name == []
       case Some(p) =>
         var up := Follow(t.parent, n);
         && Clean(nodes[b].name) && nodes[b].name != "." && nodes[b].name != ".."
         && Follow(t.cover, n) == n
         && (b, up) in t.aliases && t.aliases[(b, up)] == n
         && Follow(t.base, up) == p && Below(t, nodes, root, up)
  }

  // Every alias above `n` is a directory.
  ghost predicate DirsAbove(t: Tree, nodes: map<nat, Base>, root: nat, answer: nat -> Lookup, n: nat)
    requires Rooted(nodes) && Below(t, nodes, root, n)
    decreases Follow(t.base, n)
  {
    nodes[Follow(t.base, n)].parent.Some? ==>
      var up := Follow(t.parent, n); answer(up) == Found(Dir) && DirsAbove(t, nodes, root, answer, up)
  }

  lemma {:induction false} NamesAreClean(t: Tree, nodes: map<nat, Base>, root: nat, n: nat)
    requires Rooted(nodes) && Below(t, nodes, root, n)
    ensures forall x :: x in Names(nodes, Follow(t.base, n)) ==> Clean(x)
    decreases Follow(t.base, n)
  {
    if nodes[Follow(t.base, n)].parent.Some? {
      NamesAreClean(t, nodes, root, Follow(t.parent, n));
    }
  }

  /** The names of a node, taken from the root of its mount, lead to the node. */
  lemma {:induction false} NamesLeadBack(t: Tree, level: nat -> nat, nodes: map<nat, Base>, root: nat,
                                         answer: nat -> Lookup, n: nat)
    requires Rooted(nodes) && Reflects(t, nodes) && Below(t, nodes, root, n)
    ensures Along(t, level, root, Names(nodes, Follow(t.base, n))) == Some(n)
    ensures DirsAbove(t, nodes, root, answer, n) ==>
              ThroughDirs(t, level, answer, root, Names(nodes, Follow(t.base, n)))
    decreases Follow(t.base, n)
  {
    var b := Follow(t.base, n);
    if nodes[b].parent.Some? {
      var up := Follow(t.parent, n);
      NamesLeadBack(t, level, nodes, root, answer, up);
      var names := Names(nodes, Follow(t.base, up));
      assert (names + [nodes[b].name])[..|names|] == names;
      assert Child(t, up, nodes[b].name) == Some(n);
    }
  }

  lemma PrintedIsAbsolute(nodes: map<nat, Base>, b: nat)
    requires Rooted(nodes) && b in nodes
    ensures Printed(nodes, b) != [] && Printed(nodes, b)[0] == '/'
  {
    TextIsFlat(nodes, b);
  }

  lemma ComponentsOfPrinted(t: Tree, nodes: map<nat, Base>, root: nat, n: nat)
    requires Rooted(nodes) && Below(t, nodes, root, n)
    ensures Components(Printed(nodes, Follow(t.base, n))) == Names(nodes, Follow(t.base, n))
  {
    var names := Names(nodes, Follow(t.base, n));
    NamesAreClean(t, nodes, root, n);
    TextIsFlat(nodes, Follow(t.base, n));
    ComponentsOfFlat(names);
    assert names != [] ==> Flat(names) != [];
    assert "/"[1..] == "";
    assert Components("/") == [];
  }

  /** Walking what was printed ends on the node it was printed from: always if the walk
      succeeds at all, and it does if the nodes above are directories and no driver objects. */
  method WalkBack(ns: NameSpace, n: nat, start: nat, flags: Flags) returns (err: int, pno: nat)
    requires ns.Valid() && start < ns.tree.next && Below(ns.tree, ns.table.nodes, ns.setting.root, n)
    modifies ns, ns.table, ns.table.buckets
    ensures err == 0 && Plain(ns.Seen(flags)) ==> pno == n
    ensures Steady(ns.Seen(flags)) && old(DirsAbove(ns.tree, ns.table.nodes, ns.setting.root, ns.setting.answer, n)) ==>
              err == 0
  {
    hide Below, Reflects, DirsAbove, Along, ThroughDirs, Components, Printed, Steady, Plain, Grows, Formed, Names;
    ghost var (t0, s) := (ns.tree, ns.Seen(flags));
    ghost var nodes := ns.table.nodes;
    ns.Agreed();
    var b := Follow(ns.tree.base, n);
    BelowIsLive(t0, nodes, s.root, n);
    var buf := ns.table.PbPath(b);
    var path := buf[..buf.Length - 1];
    assert path == Printed(nodes, b);
    PrintedIsAbsolute(nodes, b);
    ComponentsOfPrinted(t0, nodes, s.root, n);
    NamesLeadBack(t0, s.level, nodes, s.root, s.answer, n);
    ns.Inside(start);
    err, pno := ns.Walk(start, Some(path), flags, 0);
    AlongGrows(t0, ns.tree, s.level, s.root, s.root, Names(nodes, b));
    ThroughDirsGrows(t0, ns.tree, s.level, s.root, s.answer, s.root, Names(nodes, b));
  }

  lemma BelowIsLive(t: Tree, nodes: map<nat, Base>, root: nat, n: nat)
    requires Rooted(nodes) && Below(t, nodes, root, n)
    ensures Follow(t.base, n) in nodes
  {
  }

  /** A path with a separator behind it: the walk ends as it says of the path without. */
  method WalkTrailing(ns: NameSpace, start: nat, path: string, flags: Flags) returns (err: int, pno: nat)
    requires ns.Valid() && start < ns.tree.next && path != []
    modifies ns, ns.table, ns.table.buckets
    ensures ns.Valid() && Grows(old(ns.tree), ns.tree)
    ensures err == 0 ==> pno < ns.tree.next
    ensures var dir := if path[0] == '/' then ns.setting.root else start;
            Ends(ns.Seen(flags), ns.tree, dir, Components(path), err, Some(pno))
  {
    hide Ends, Components, Leads, Grows, Known, Same, OneMoreOn;
    TrailingSlashIsIgnored(path);
    err, pno := ns.Walk(start, Some(path + "/"), flags, 0);
  }

  function NoLevel(n: nat): nat { 0 }
  function NoText(n: nat): ReadLink { Unreadable(0) }
  function OneAnswer(n: nat): Lookup { Found(if n == 1 then Dir else Other) }

  // A directory and what is in it, with the same answer to every permission check.
  function OneDrivers(perm: nat): Drivers {
    Drivers((k: nat, n: nat) => OneAnswer(n), (k: nat) => perm, (k: nat, n: nat) => Unreadable(0))
  }

  function OneSetting(perm: nat): Setting { Setting(OneDrivers(perm), 1, NoLevel, OneAnswer, perm, NoText) }

  lemma OneIsSteady(perm: nat)
    requires perm != ENOENT
    ensures Plain(OneSetting(perm)) && Constant(OneSetting(perm)) && (perm == 0 ==> Steady(OneSetting(perm)))
    ensures Steady(As(OneSetting(perm), false)) && Faithful(As(OneSetting(perm), false))
  {
  }

  // A name space with one file, `f`, below its root.
  method OneFile(perm: nat) returns (ns: NameSpace, file: nat)
    requires perm != ENOENT
    ensures fresh(ns) && fresh(ns.table) && fresh(ns.table.buckets) && ns.Valid() && ns.setting.root == 1 < ns.tree.next
    ensures ns.setting == OneSetting(perm) && ns.setting.answer(file) == Found(Other)
    ensures Along(ns.tree, ns.setting.level, 1, ["f"]) == Some(file)
    ensures ThroughDirs(ns.tree, ns.setting.level, ns.setting.answer, 1, ["f"])
  {
    hide Along, ThroughDirs, Grows, Formed, Steady, Agrees, OneMoreOn, NameTable.Valid, OneDrivers;
    ns := new NameSpace(OneSetting(perm));
    ns.Inside(1);
    file := ns.FindAlias(1, "f");
    FileIsThere(ns.tree, ns.setting, file);
    ns.Inside(1);
  }

  /** A file, and a separator behind its name: the walk returns the file. */
  method FileWithSeparator(flags: Flags) returns (ns: NameSpace, file: nat, err: int, pno: nat)
    ensures ns.setting.answer(file) == Found(Other) && err == 0 && pno == file
  {
    hide Ends, Components, Grows, Formed, Along, ThroughDirs, Steady;
    ns, file := OneFile(0);
    ghost var (t0, s) := (ns.tree, ns.Seen(flags));
    ns.Inside(1);
    OneIsSteady(0);
    err, pno := WalkTrailing(ns, 1, "/f", flags);
    SlashF();
    AlongGrows(t0, ns.tree, s.level, s.root, 1, ["f"]);
    ThroughDirsGrows(t0, ns.tree, s.level, s.root, s.answer, 1, ["f"]);
    SteadyEnds(s, ns.tree, 1, ["f"], err, pno);
  }

  /** A file in a directory nobody may search: it is found exactly if permissions are not checked. */
  method ForbiddenFile(perm: nat, flags: Flags) returns (ns: NameSpace, file: nat, err: int, pno: nat)
    requires perm != 0 && perm != ENOENT
    ensures ns.setting == OneSetting(perm)
    ensures if flags.noPermCheck then err == 0 && pno == file else err == -(perm as int)
  {
    hide Ends, Components, Grows, Formed, Along, ThroughDirs, Steady, Leads, Resolve;
    ns, file := OneFile(perm);
    ghost var (t0, s) := (ns.tree, ns.Seen(flags));
    ns.Inside(1);
    OneIsSteady(perm);
    SlashF();
    if !flags.noPermCheck {
      err, pno := WalkForbidden(ns, 1, "/f", flags);
    } else {
      err, pno := ns.Walk(1, Some("/f"), flags, 0);
      AlongGrows(t0, ns.tree, s.level, s.root, 1, ["f"]);
      ThroughDirsGrows(t0, ns.tree, s.level, s.root, s.answer, 1, ["f"]);
      SteadyEnds(s, ns.tree, 1, ["f"], err, pno);
    }
  }

  /** Where every check fails a walk of any path with a name in it, from a directory, returns that error. */
  method WalkForbidden(ns: NameSpace, start: nat, path: string, flags: Flags) returns (err: int, pno: nat)
    requires ns.Valid() && start < ns.tree.next && path != [] && Components(path) != [] && !flags.noPermCheck
    requires Barred(ns.setting, if path[0] == '/' then ns.setting.root else start)
    modifies ns, ns.table, ns.table.buckets
    ensures err == -(ns.setting.perm as int) && Same(old(ns.refs), ns.refs)
  {
    hide Leads, Grows, Known, Same, OneMoreOn, Formed, Components, Plain, Steady;
    ns.Inside(start);
    err, pno := ns.Walk(start, Some(path), flags, 0);
  }

  /** A name that leads to a node that is missing: the walk returns the node if that is asked for, and
      ENOENT otherwise. */
  method WalkMissing(ns: NameSpace, dir: nat, name: string, n: nat, flags: Flags) returns (err: int, pno: nat)
    requires ns.Valid() && dir < ns.tree.next && name != [] && '/' !in name && Faithful(ns.Seen(flags))
    requires var s := ns.Seen(flags);
             && s.perm == 0 && s.answer(dir) == Found(Dir) && ErrorIn(s.answer(n)) == -ENOENT
             && Enter(ns.tree, s.level, dir, name) == Some(n)
    modifies ns, ns.table, ns.table.buckets
    ensures if flags.negOk then err == 0 && pno == n else err == -ENOENT
  {
    hide Ends, Components, Leads, Grows, Known, Same, OneMoreOn, Resolve, Enter, Formed, Faithful;
    ghost var (t0, s) := (ns.tree, ns.Seen(flags));
    ns.Inside(dir);
    ResolveName(s, t0, dir, name, n, flags, MAX_SYMLINK);
    err, pno := ns.Walk(dir, Some(name), flags, 0);
    LeadsCached(s, t0, ns.tree, dir, name, flags, MAX_SYMLINK, err, pno);
  }

  lemma FileIsThere(t: Tree, s: Setting, file: nat)
    requires Child(t, 1, "f") == Some(file) && Follow(t.cover, file) == file && s.answer(1) == Found(Dir)
    ensures Along(t, s.level, 1, ["f"]) == Some(file) && ThroughDirs(t, s.level, s.answer, 1, ["f"])
  {
    assert ["f"][..0] == [];
  }

  lemma SlashF()
    ensures Components("/f") == ["f"]
  {
    assert Flat(["f"]) == "/f" by {
      assert ["f"][1..] == [];
    }
    ComponentsOfFlat(["f"]);
  }

  lemma SteadyEnds(s: Setting, t: Tree, dir: nat, names: seq<string>, err: int, n: nat)
    requires Steady(s) && Ends(s, t, dir, names, err, Some(n)) && ThroughDirs(t, s.level, s.answer, dir, names)
    ensures err == 0 && Along(t, s.level, dir, names) == Some(n)
  {
  }

  /** `nd_flags` is handed down to the walk of a link: `a/x` is refused if the last component is not to be
      followed, although `x` is no link, and reached otherwise. */
  method NoFollowIsHandedDown(ns: NameSpace, dir: nat, a: nat, b: nat, c: nat, x: nat, flags: Flags)
      returns (err: int, pno: nat)
    requires ns.Valid() && dir < ns.tree.next && Faithful(ns.Seen(flags))
    requires var (s, t) := (ns.Seen(flags), ns.tree);
             && s.perm == 0 && s.answer(dir) == s.answer(c) == Found(Dir) && s.answer(a) == s.answer(b) == Found(Link)
             && s.answer(x) == Found(Other)
             && Follow(t.parent, a) == Follow(t.parent, b) == dir
             && s.text(a) == Target("b") && s.text(b) == Target("c")
             && Enter(t, s.level, dir, "a") == Some(a) && Enter(t, s.level, dir, "b") == Some(b)
             && Enter(t, s.level, dir, "c") == Some(c) && Enter(t, s.level, c, "x") == Some(x)
    modifies ns, ns.table, ns.table.buckets
    ensures if flags.noFollow then err == -ENOTDIR else err == 0 && pno == x
  {
    hide Ends, Components, Leads, Grows, Known, Same, OneMoreOn, Resolve, Enter, Formed, Faithful;
    ghost var (t0, s) := (ns.tree, ns.Seen(flags));
    ns.Inside(dir);
    NoFollowLeaksIntoLinks(s, t0, dir, a, b, c, x, flags, MAX_SYMLINK);
    err, pno := ns.Walk(dir, Some("a/x"), flags, 0);
    LeadsCached(s, t0, ns.tree, dir, "a/x", flags, MAX_SYMLINK, err, pno);
  }
}
