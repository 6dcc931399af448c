/**
 Rewriting of absolute symbolic links into relative ones (drivers/sshfs/sshfs.c), so that they
 lead to the same place below the mount point as they do on the server.
 */
module LinkTransform {
  import opened Basics
  import opened PathWalk
  import NamePath

  // The character a pointer into a C string points at.
  function At(s: string): char { if s == [] then NUL else s[0] }

  // Strings end where C strings end.
  predicate IsText(s: string) { NUL !in s }

  // ---------------------------------------------------------------------------------
  // Resolution of names, one by one
  // ---------------------------------------------------------------------------------

  function Step(at: seq<string>, name: string): seq<string> {
    if name == "." then at
    else if name == ".." then (if at == [] then [] else at[..|at| - 1])
    else at + [name]
  }

  function Resolve(at: seq<string>, names: seq<string>): seq<string>
    decreases |names|
  {
    if names == [] then at else Resolve(Step(at, names[0]), names[1..])
  }

  predicate Plain(names: seq<string>) { forall x :: x in names ==> x != "." && x != ".." }

  function Ups(n: nat): (r: seq<string>) ensures |r| == n { seq(n, _ => "..") }

  lemma {:induction false} ResolveConcat(at: seq<string>, a: seq<string>, b: seq<string>)
    ensures Resolve(at, a + b) == Resolve(Resolve(at, a), b)
    decreases |a|
  {
    if a == [] {
      assert a + b == b;
    } else {
      assert (a + b)[1..] == a[1..] + b;
      ResolveConcat(Step(at, a[0]), a[1..], b);
    }
  }

  lemma {:induction false} ResolvePlain(at: seq<string>, names: seq<string>)
    requires Plain(names)
    ensures Resolve(at, names) == at + names
    decreases |names|
  {
    if names != [] {
      assert names[0] in names && forall x :: x in names[1..] ==> x in names;
      ResolvePlain(at + [names[0]], names[1..]);
    }
  }

  lemma {:induction false} ResolveUps(at: seq<string>, names: seq<string>)
    ensures Resolve(at + names, Ups(|names|)) == at
    decreases |names|
  {
    if names == [] {
      assert at + names == at;
    } else {
      assert Ups(|names|)[1..] == Ups(|names| - 1);
      assert Step(at + names, "..") == at + names[..|names| - 1];
      ResolveUps(at, names[..|names| - 1]);
    }
  }

  // ---------------------------------------------------------------------------------
  // The pointer loops
  // ---------------------------------------------------------------------------------

  lemma ComponentsHead(name: string, rest: string)
    requires NamePath.Clean(name) && (rest != [] ==> rest[0] == '/')
    ensures Components(name + rest) == [name] + Components(rest)
  {
    NamePath.NameLengthIs(name, rest);
    assert (name + rest)[0] == name[0];
    assert (name + rest)[..|name|] == name && (name + rest)[|name|..] == rest;
  }

  method SkipSeparators(s0: string) returns (s: string)
    ensures s == SkipSlashes(s0) && Components(s) == Components(s0) && |s| <= |s0| && At(s) != '/'
    ensures IsText(s0) ==> IsText(s)
  {
    s := s0;
    while At(s) == '/'
      invariant SkipSlashes(s) == SkipSlashes(s0) && (IsText(s0) ==> IsText(s))
      decreases |s|
    {
      assert forall c :: c in s[1..] ==> c in s;
      s := s[1..];
    }
    StartsAtComponent(s0);
  }

  method SkipName(p: string) returns (q: string, ghost name: string)
    requires IsText(p)
    ensures p == name + q && '/' !in name && IsText(q) && (q != [] ==> q[0] == '/')
  {
    q, name := p, "";
    while At(q) != NUL && At(q) != '/'
      invariant p == name + q && '/' !in name
      decreases |q|
    {
      name := name + [q[0]];
      q := q[1..];
    }
    assert forall c :: c in q ==> c in p;
    assert q != [] ==> q[0] in q;
  }

  /** `count_components`. */
  method CountComponents(p0: string) returns (ctr: nat)
    requires IsText(p0)
    ensures ctr == |Components(p0)|
  {
    hide Components, SkipSlashes;
    var p := SkipSeparators(p0);
    ctr := 0;
    while At(p) != NUL
      invariant IsText(p) && At(p) != '/'
      invariant ctr + |Components(p)| == |Components(p0)|
      decreases |p|
    {
      var q, name := SkipName(p);
      ComponentsHead(name, q);
      p := SkipSeparators(q);
      ctr := ctr + 1;
    }
    TextAt(p);
    NoComponents();
  }

  lemma NoComponents()
    ensures Components("") == []
  {
  }

  // What `strip_common` leaves of the two strings: the same number of leading components has
  // been taken off both, and they were the same.
  ghost predicate Stripped(s: string, t: string, s1: string, t1: string, common: seq<string>) {
    Components(s) == common + Components(s1) && Components(t) == common + Components(t1)
  }

  function FirstName(s: string): string { NextComponent(s).0[..NextComponent(s).1] }

  // It stops at the first difference, at the end of one, or early: where both end together on
  // the same component, without a separator behind it, that component stays.
  ghost predicate Stops(s1: string, t1: string) {
    || s1 == [] || t1 == []
    || FirstName(s1) != FirstName(t1)
    || (s1 == t1 && '/' !in s1)
  }

  // The two strings agree on `pre`, and either the loop of `strip_common` goes on or it stops.
  predicate GoesOn(s: string, t: string) {
    || (At(s) == At(t) && At(s) != NUL)
    || (At(s) == NUL && At(t) == '/')
    || (At(s) == '/' && At(t) == NUL)
  }

  // The inner loop: as far as the strings agree, up to a separator.
  method SkipAgreeing(s0: string, t0: string) returns (s: string, t: string, ghost pre: string)
    requires IsText(s0) && IsText(t0)
    ensures s0 == pre + s && t0 == pre + t && '/' !in pre && IsText(s) && IsText(t)
    ensures At(s) != At(t) || At(s) == NUL || At(s) == '/'
  {
    s, t, pre := s0, t0, "";
    while At(s) == At(t) && At(s) != NUL && At(s) != '/'
      invariant s0 == pre + s && t0 == pre + t && '/' !in pre
      decreases |s|
    {
      pre := pre + [s[0]];
      s, t := s[1..], t[1..];
    }
    assert forall c :: c in s ==> c in s0;
    assert forall c :: c in t ==> c in t0;
  }

  lemma TextAt(s: string)
    requires IsText(s)
    ensures At(s) == NUL <==> s == []
  {
    assert s != [] ==> s[0] in s;
  }

  function Head(s: string): string { s[..NameLength(s)] }

  lemma {:induction false} HeadOf(pre: string, s: string)
    requires '/' !in pre
    ensures Head(pre + s) == pre + Head(s)
  {
    if pre == [] {
      assert pre + s == s;
    } else {
      assert (pre + s)[1..] == pre[1..] + s;
      HeadOf(pre[1..], s);
      assert NameLength(pre + s) == 1 + NameLength(pre[1..] + s);
    }
  }

  lemma FirstNameIsHead(s: string)
    requires At(s) != '/'
    ensures FirstName(s) == Head(s)
  {
  }

  // When the outer loop stops, it stops for one of the reasons given.
  lemma StopsHere(s0: string, t0: string, pre: string, s: string, t: string)
    requires IsText(s) && IsText(t) && At(s0) != '/' && At(t0) != '/'
    requires s0 == pre + s && t0 == pre + t && '/' !in pre
    requires At(s) != At(t) || At(s) == NUL || At(s) == '/'
    requires !GoesOn(s, t)
    ensures Stops(s0, t0)
  {
    hide FirstName;
    TextAt(s);
    TextAt(t);
    FirstNameIsHead(s0);
    FirstNameIsHead(t0);
    HeadOf(pre, s);
    HeadOf(pre, t);
    assert Head(s) == (pre + Head(s))[|pre|..];
    assert Head(t) == (pre + Head(t))[|pre|..];
    assert At(s) != NUL && At(s) != '/' ==> Head(s)[0] == At(s);
    assert At(t) != NUL && At(t) != '/' ==> Head(t)[0] == At(t);
  }

  lemma Advanced(s0: string, t0: string, pre: string, s: string, t: string)
    requires s0 == pre + s && t0 == pre + t && At(s0) != '/' && At(t0) != '/'
    requires At(s) != At(t) || At(s) == NUL || At(s) == '/'
    requires GoesOn(s, t)
    ensures pre != [] && |s| < |s0|
  {
    assert |s0| == |pre| + |s|;
    assert [] + s == s && [] + t == t;
  }

  lemma Boundary(s: string, t: string)
    requires IsText(s) && IsText(t) && GoesOn(s, t)
    requires At(s) != At(t) || At(s) == NUL || At(s) == '/'
    ensures (s != [] ==> s[0] == '/') && (t != [] ==> t[0] == '/')
  {
    TextAt(s);
    TextAt(t);
  }

  // When it goes on, one component has been taken off both.
  lemma TookOne(s0: string, t0: string, pre: string, s: string, t: string)
    requires IsText(s) && IsText(t) && At(s0) != '/' && At(t0) != '/'
    requires s0 == pre + s && t0 == pre + t && '/' !in pre
    requires At(s) != At(t) || At(s) == NUL || At(s) == '/'
    requires GoesOn(s, t)
    ensures pre != [] && Components(s0) == [pre] + Components(s) && Components(t0) == [pre] + Components(t)
    ensures |s| < |s0|
  {
    hide Components, IsText, GoesOn, At;
    Boundary(s, t);
    Advanced(s0, t0, pre, s, t);
    ComponentsHead(pre, s);
    ComponentsHead(pre, t);
  }

  predicate EndsInSlash(s: string) { s != [] && s[|s| - 1] == '/' }

  predicate Suffix(s: string, s0: string) { |s| <= |s0| && s0[|s0| - |s|..] == s }

  lemma {:induction false} OnlySlashes(s: string)
    requires s != [] && SkipSlashes(s) == []
    ensures EndsInSlash(s)
  {
    if |s| > 1 {
      OnlySlashes(s[1..]);
    }
  }

  lemma {:induction false} SkippedIsSuffix(s: string, s0: string)
    requires Suffix(s, s0)
    ensures Suffix(SkipSlashes(s), s0)
    decreases |s|
  {
    if At(s) == '/' {
      SkippedIsSuffix(s[1..], s0);
    }
  }

  lemma SuffixEnds(s: string, s0: string)
    requires Suffix(s, s0) && s != []
    ensures EndsInSlash(s) <==> EndsInSlash(s0)
  {
    assert s0[|s0| - 1] == s[|s| - 1];
  }

  lemma SuffixMore(pre: string, s: string, s0: string)
    requires Suffix(pre + s, s0)
    ensures Suffix(s, s0)
  {
    assert (pre + s)[|pre|..] == s;
  }

  // Where `strip_common` comes to the end of the second string: its components begin the first,
  // and if they are all of it one of the two strings ends in a separator (`slash`).
  predicate Covers(s: seq<string>, t: seq<string>, slash: bool) { t <= s && (s == t && t != [] ==> slash) }

  lemma FirstComponent(s: string)
    requires At(s) != '/'
    ensures s == [] ==> Components(s) == []
    ensures s != [] ==> |Components(s)| > 0 && Components(s)[0] == FirstName(s)
  {
  }

  lemma PrefixCancel(a: seq<string>, b: seq<string>, c: seq<string>)
    ensures a + b <= a + c <==> b <= c
  {
    if a + b <= a + c {
      assert b == (a + b)[|a|..] == (a + c)[..|a| + |b|][|a|..] == c[..|b|];
    }
  }

  lemma CoversIff(s0: string, t0: string, s1: string, t1: string, common: seq<string>)
    requires Stripped(s0, t0, s1, t1, common) && Stops(s1, t1) && At(s1) != '/' && At(t1) != '/'
    requires Suffix(s1, s0) && Suffix(t1, t0)
    requires s1 == [] && t1 == [] && common != [] ==> EndsInSlash(s0) || EndsInSlash(t0)
    ensures t1 == [] <==> Covers(Components(s0), Components(t0), EndsInSlash(s0) || EndsInSlash(t0))
  {
    hide Components, FirstName, Suffix, EndsInSlash;
    FirstComponent(s1);
    FirstComponent(t1);
    var (ss, ts) := (Components(s1), Components(t1));
    PrefixCancel(common, ts, ss);
    if t1 != [] && s1 == t1 && '/' !in s1 {
      NoSlashAtEnd(s0, s1);
      NoSlashAtEnd(t0, t1);
    }
  }

  lemma NoSlashAtEnd(s0: string, s1: string)
    requires Suffix(s1, s0) && s1 != [] && '/' !in s1
    ensures !EndsInSlash(s0)
  {
    SuffixEnds(s1, s0);
    assert s1[|s1| - 1] in s1;
  }

  lemma RanOut(s: string, s0: string)
    requires Suffix(s, s0) && At(s) == '/' && SkipSlashes(s) == []
    ensures EndsInSlash(s0)
  {
    OnlySlashes(s);
    SuffixEnds(s, s0);
  }

  /** `strip_common`. */
  method StripCommon(s0: string, t0: string) returns (s1: string, t1: string, ghost common: seq<string>)
    requires IsText(s0) && IsText(t0)
    ensures Stripped(s0, t0, s1, t1, common) && Stops(s1, t1) && Suffix(s1, s0)
    ensures IsText(s1) && IsText(t1) && At(s1) != '/' && At(t1) != '/'
    ensures t1 == [] <==> Covers(Components(s0), Components(t0), EndsInSlash(s0) || EndsInSlash(t0))
  {
    hide Components, SkipSlashes, Stops, Suffix, EndsInSlash, Covers;
    var s, t := s0, t0;
    common := [];
    WholeIsSuffix(s0);
    WholeIsSuffix(t0);
    while true
      invariant IsText(s) && IsText(t) && Suffix(s, s0) && Suffix(t, t0)
      invariant Stripped(s0, t0, s, t, common)
      invariant common != [] ==> At(s) == '/' || At(t) == '/'
      decreases |s|
    {
      s1 := SkipSeparators(s);
      t1 := SkipSeparators(t);
      SkippedIsSuffix(s, s0);
      SkippedIsSuffix(t, t0);
      assert s1 == [] && t1 == [] && common != [] ==> EndsInSlash(s0) || EndsInSlash(t0) by {
        if s1 == [] && At(s) == '/' {
          RanOut(s, s0);
        }
        if t1 == [] && At(t) == '/' {
          RanOut(t, t0);
        }
      }
      ghost var pre;
      s, t, pre := SkipAgreeing(s1, t1);
      if !GoesOn(s, t) {
        StopsHere(s1, t1, pre, s, t);
        CoversIff(s0, t0, s1, t1, common);
        return;
      }
      TookOne(s1, t1, pre, s, t);
      SuffixMore(pre, s, s0);
      SuffixMore(pre, t, t0);
      common := common + [pre];
    }
  }

  lemma WholeIsSuffix(s: string)
    ensures Suffix(s, s)
  {
  }

  // ---------------------------------------------------------------------------------
  // The rewriting
  // ---------------------------------------------------------------------------------

  function Climbs(n: nat): string { if n == 0 then "" else "../" + Climbs(n - 1) }

  lemma {:induction false} ClimbsSize(n: nat)
    ensures |Climbs(n)| == 3 * n
  {
    if n > 0 {
      ClimbsSize(n - 1);
    }
  }

  lemma {:induction false} ClimbsThen(n: nat, rest: string)
    ensures Components(Climbs(n) + rest) == Ups(n) + Components(rest)
  {
    hide Components;
    if n == 0 {
      assert Climbs(n) + rest == rest;
    } else {
      ClimbsThen(n - 1, rest);
      Assoc("../", Climbs(n - 1), rest);
      OneUp(Climbs(n - 1) + rest);
      assert Ups(n) == [".."] + Ups(n - 1);
    }
  }

  lemma OneUp(more: string)
    ensures Components("../" + more) == [".."] + Components(more)
  {
    hide Components;
    Assoc("..", "/", more);
    assert ".." + "/" == "../";
    ComponentsHead("..", "/" + more);
    SkipOne(more);
  }

  lemma SkipOne(s: string)
    ensures Components("/" + s) == Components(s)
  {
    assert ("/" + s)[1..] == s;
  }

  // What comes behind the climbs.
  function Tail(l: string, dotdots: nat): string { if l != [] then l else if dotdots == 0 then "." else "" }

  lemma TailNames(l: string, dotdots: nat, at: seq<string>)
    requires At(l) != '/'
    ensures Resolve(at, Components(Tail(l, dotdots))) == Resolve(at, Components(l))
  {
    if l == [] && dotdots == 0 {
      ComponentsHead(".", "");
      assert "." + "" == ".";
      NoComponents();
      assert Components(".") == ["."];
      assert Resolve(at, ["."]) == at;
    }
  }

  function Parent(path: seq<string>): seq<string> { if path == [] then [] else path[..|path| - 1] }

  /** Climbing out of the names below the common ones and going down those of the link leads to
      where the common names and those of the link lead, whatever they are. */
  lemma LeadsToTarget(base: seq<string>, common: seq<string>, p: seq<string>, l: seq<string>, made: seq<string>)
    requires p != [] && Plain(Parent(p))
    requires forall at :: Resolve(at, made) == Resolve(Resolve(at, Ups(|p| - 1)), l)
    ensures Resolve([], base + Parent(common + p) + made) == Resolve([], base + (common + l))
  {
    assert Parent(common + p) == common + Parent(p);
    assert base + Parent(common + p) + made == (base + common) + (Parent(p) + made);
    assert base + (common + l) == (base + common) + l;
    var at := Resolve([], base + common);
    ResolveConcat([], base + common, Parent(p) + made);
    ResolveConcat([], base + common, l);
    ResolveConcat(at, Parent(p), made);
    ResolvePlain(at, Parent(p));
    ResolveUps(at, Parent(p));
  }

  // How far down, or up, a list of names leads where there is room.
  function Net(names: seq<string>): int {
    if names == [] then 0 else (if names[0] == "." then 0 else if names[0] == ".." then -1 else 1) + Net(names[1..])
  }

  lemma {:induction false} DepthIs(at: seq<string>, names: seq<string>)
    requires |at| >= |names|
    ensures |Resolve(at, names)| == |at| + Net(names)
    decreases |names|
  {
    if names != [] {
      DepthIs(Step(at, names[0]), names[1..]);
    }
  }

  lemma {:induction false} NetConcat(a: seq<string>, b: seq<string>)
    ensures Net(a + b) == Net(a) + Net(b)
  {
    if a == [] {
      assert a + b == b;
    } else {
      assert (a + b)[1..] == a[1..] + b;
      NetConcat(a[1..], b);
    }
  }

  lemma {:induction false} NetPlain(names: seq<string>)
    ensures Net(names) <= |names| && (Net(names) == |names| <==> Plain(names))
  {
    if names != [] {
      NetPlain(names[1..]);
      assert names[0] in names && forall x :: x in names <==> x == names[0] || x in names[1..];
    }
  }

  lemma {:induction false} NetUps(n: nat)
    ensures Net(Ups(n)) + n == 0
  {
    if n > 0 {
      assert Ups(n)[1..] == Ups(n - 1);
      NetUps(n - 1);
    }
  }

  /** With a dot among the names that are climbed out of, the new link leads elsewhere: below a long
      enough base path it ends too high. */
  lemma DotMisleads(common: seq<string>, p: seq<string>, l: seq<string>, made: seq<string>)
    requires p != [] && !Plain(Parent(p))
    requires forall at :: Resolve(at, made) == Resolve(Resolve(at, Ups(|p| - 1)), l)
    ensures !LeadTo(common + p, made, common + l)
  {
    hide Resolve, Net, Plain, Ups;
    var (down, k) := (Parent(p), |p| - 1);
    var base := seq(|common| + |p| + k + |l|, _ => "x");
    var way := common + down + Ups(k) + l;
    assert Parent(common + p) == common + down;
    assert base + Parent(common + p) + made == base + ((common + down) + made);
    PlainBase(|base|);
    ResolvePlain([], base);
    assert [] + base == base;
    ResolveConcat([], base, (common + down) + made);
    ResolveConcat([], base, common + l);
    ResolveConcat(base, common + down, made);
    ResolveConcat(base, common + down, Ups(k));
    ResolveConcat(base, common + down + Ups(k), l);
    DepthIs(base, way);
    DepthIs(base, common + l);
    NetConcat(common, down);
    NetConcat(common + down, Ups(k));
    NetConcat(common + down + Ups(k), l);
    NetConcat(common, l);
    NetUps(k);
    NetPlain(down);
    assert Resolve([], base + Parent(common + p) + made) != Resolve([], base + (common + l));
  }

  lemma PlainBase(n: nat)
    ensures Plain(seq(n, _ => "x"))
  {
  }

  // The names of a path behind those it has in common with the target, the last one in any case.
  function Behind(target: seq<string>, path: seq<string>): seq<string> {
    if |path| <= 1 || target == [] || target[0] != path[0] then path else Behind(target[1..], path[1..])
  }

  lemma {:induction false} BehindIs(common: seq<string>, l: seq<string>, p: seq<string>)
    requires p != [] && (l == [] || l[0] != p[0] || (l == p && |p| == 1))
    ensures Behind(common + l, common + p) == p
  {
    if common == [] {
      assert common + l == l && common + p == p;
    } else {
      assert (common + l)[1..] == common[1..] + l && (common + p)[1..] == common[1..] + p;
      BehindIs(common[1..], l, p);
    }
  }

  // When a link is rewritten: it is absolute and leads below the base path, and not below `path`.
  // Where `strip_common` stops early, a link to the base path itself is not recognised, and a
  // link to `path` itself is not taken to lead below it.
  ghost predicate Rewrites(path: string, link: string, base: string) {
    && At(link) == '/' && At(base) == '/'
    && Covers(Components(link), Components(base), EndsInSlash(link) || EndsInSlash(base))
    && !Covers(Components(link)[|Components(base)|..], Components(path), EndsInSlash(link) || EndsInSlash(path))
  }

  /** `transform_symlink`.  If the link is rewritten, then the new link is relative, and resolved from
      the directory of `path` below any base path it leads to what the old link led to, exactly if
      no dot is among the names that it climbs out of; a `path` from FUSE has none.  Otherwise the
      link stays. */
  method TransformSymlink(path: string, link: string, base: string) returns (r: string)
    requires IsText(path) && IsText(link) && IsText(base)
    ensures r != link <==> Rewrites(path, link, base)
    ensures r != link ==> At(r) != '/' && Components(base) <= Components(link)
    ensures r != link ==>
              var target := Components(link)[|Components(base)|..];
              LeadTo(Components(path), Components(r), target) <==> Plain(Parent(Behind(target, Components(path))))
    ensures r != link && Plain(Components(path)) ==>
              Resolve([], Components(base) + Parent(Components(path)) + Components(r)) == Resolve([], Components(link))
    ensures r != link && Plain(Components(path)) && Plain(Components(link)) ==>
              Resolve([], Parent(Components(path)) + Components(r)) == Components(link)[|Components(base)|..]
  {
    r := link;
    if At(link) != '/' || At(base) != '/' {
      return;
    }
    hide Components, Resolve, Plain, SkipSlashes, Suffix, EndsInSlash, LeadTo, Covers, NamePath.Clean, Behind, Stops;
    var l, b, inBase := StripCommon(link, base);
    TextAt(b);
    FirstComponent(b);
    if At(b) != NUL {
      return;
    }
    Target(link, base, l, inBase);
    if l != [] {
      SuffixEnds(l, link);
    }
    FirstComponent(l);
    CoversEmpty(Components(path), EndsInSlash(link) || EndsInSlash(path), EndsInSlash(l) || EndsInSlash(path));
    var done, made := Relative(path, l);
    if done {
      r := made;
      PlainBehind(Components(l), Components(path));
      if Plain(Components(path)) {
        SameTarget(inBase, Components(path), Components(r), Components(l));
        PlainTarget(inBase, Components(path), Components(r), Components(l));
      }
    }
  }

  lemma Target(link: string, base: string, l: string, inBase: seq<string>)
    requires Stripped(link, base, l, [], inBase)
    ensures Components(base) == inBase && Components(link) == inBase + Components(l)
    ensures Components(link)[|inBase|..] == Components(l)
  {
    NoComponents();
  }

  lemma CoversEmpty(t: seq<string>, a: bool, b: bool)
    ensures Covers([], t, a) == Covers([], t, b)
  {
  }

  // From below any base path, the names of the new link lead to where those of the old one lead.
  ghost predicate LeadTo(path: seq<string>, made: seq<string>, l: seq<string>) {
    forall base :: Resolve([], base + Parent(path) + made) == Resolve([], base + l)
  }

  lemma SameTarget(base: seq<string>, path: seq<string>, made: seq<string>, l: seq<string>)
    requires LeadTo(path, made, l)
    ensures Resolve([], base + Parent(path) + made) == Resolve([], base + l)
  {
  }

  // The second half of the rewriting, with what the link has below the base path.
  method Relative(path: string, l0: string) returns (done: bool, r: string)
    requires IsText(path) && IsText(l0)
    ensures done <==> !Covers(Components(l0), Components(path), EndsInSlash(l0) || EndsInSlash(path))
    ensures done ==>
              && At(r) != '/'
              && (LeadTo(Components(path), Components(r), Components(l0)) <==>
                  Plain(Parent(Behind(Components(l0), Components(path)))))
  {
    hide Components, Resolve, Plain, Ups, Climbs, SkipSlashes, Suffix, EndsInSlash, Covers, LeadTo, Behind, Stops;
    var l, p, common := StripCommon(l0, path);
    FirstComponent(p);
    var dotdots := CountComponents(p);
    if dotdots == 0 {
      return false, "";
    }
    dotdots := dotdots - 1;
    done := true;
    r := NewLink(l, dotdots);
    StopsBehind(l, p, common);
    Leads(common, Components(p), Components(l), l, dotdots);
  }

  lemma StopsBehind(l: string, p: string, common: seq<string>)
    requires Stops(l, p) && At(l) != '/' && At(p) != '/' && p != []
    ensures Behind(common + Components(l), common + Components(p)) == Components(p)
  {
    hide Components, FirstName;
    FirstComponent(l);
    FirstComponent(p);
    if l == p && '/' !in p {
      ComponentsHead(p, "");
      NoComponents();
      assert p + "" == p;
    }
    BehindIs(common, Components(l), Components(p));
  }

  lemma {:induction false} PlainBehind(target: seq<string>, path: seq<string>)
    ensures Plain(path) ==> Plain(Parent(Behind(target, path)))
  {
    if |path| <= 1 || target == [] || target[0] != path[0] {
      assert forall x :: x in Parent(path) ==> x in path;
    } else {
      PlainBehind(target[1..], path[1..]);
      assert forall x :: x in path[1..] ==> x in path;
    }
  }

  lemma Leads(common: seq<string>, p: seq<string>, ls: seq<string>, l: string, dotdots: nat)
    requires p != [] && dotdots == |p| - 1 && ls == Components(l) && At(l) != '/'
    ensures LeadTo(common + p, Components(Climbs(dotdots) + Tail(l, dotdots)), common + ls) <==> Plain(Parent(p))
  {
    hide Components, Resolve, Plain, Climbs, Tail, Ups;
    var made := Components(Climbs(dotdots) + Tail(l, dotdots));
    forall at ensures Resolve(at, made) == Resolve(Resolve(at, Ups(|p| - 1)), ls) {
      NewLinkNames(l, dotdots, at);
    }
    if Plain(Parent(p)) {
      forall base ensures Resolve([], base + Parent(common + p) + made) == Resolve([], base + (common + ls)) {
        LeadsToTarget(base, common, p, ls, made);
      }
    } else {
      DotMisleads(common, p, ls, made);
    }
  }

  lemma PlainTarget(base: seq<string>, path: seq<string>, made: seq<string>, target: seq<string>)
    requires LeadTo(path, made, target)
    ensures Plain(base + target) ==> Resolve([], Parent(path) + made) == target
  {
    if Plain(base + target) {
      assert forall x :: x in target ==> x in base + target;
      ResolvePlain([], target);
      SameTarget([], path, made, target);
      assert [] + Parent(path) + made == Parent(path) + made && [] + target == target;
    }
  }

  /** A path with a dot in it: from `/./p` the new link to a target `t` below the base is `../t`, and
      it leads elsewhere. */
  lemma DottedPath()
    ensures Behind(["t"], [".", "p"]) == [".", "p"] && !Plain(Parent([".", "p"]))
    ensures !LeadTo([".", "p"], ["..", "t"], ["t"])
  {
    var path := [".", "p"];
    assert Parent(path) == ["."] && "." in Parent(path);
    hide Resolve, LeadTo, Plain;
    forall at ensures Resolve(at, ["..", "t"]) == Resolve(Resolve(at, Ups(1)), ["t"]) {
      assert ["..", "t"] == [".."] + ["t"] && Ups(1) == [".."];
      ResolveConcat(at, Ups(1), ["t"]);
    }
    DotMisleads([], path, ["t"], ["..", "t"]);
    assert [] + path == path && [] + ["t"] == ["t"];
  }

  /** A link to the base path itself is rewritten only if a separator stands behind it somewhere. */
  lemma LinkToBaseStays(path: string, base: string)
    requires !EndsInSlash(base) && Components(base) != []
    ensures !Rewrites(path, base, base)
  {
  }

  lemma LinkToBase()
    ensures !Rewrites("/l", "/b", "/b")
  {
    ComponentsHead("b", "");
    SkipOne("b");
    assert "b" + "" == "b" && "/" + "b" == "/b";
    LinkToBaseStays("/l", "/b");
  }

  lemma NewLinkNames(l: string, dotdots: nat, at: seq<string>)
    requires At(l) != '/'
    ensures Resolve(at, Components(Climbs(dotdots) + Tail(l, dotdots))) ==
              Resolve(Resolve(at, Ups(dotdots)), Components(l))
    ensures At(Climbs(dotdots) + Tail(l, dotdots)) != '/'
  {
    ClimbsThen(dotdots, Tail(l, dotdots));
    ResolveConcat(at, Ups(dotdots), Components(Tail(l, dotdots)));
    TailNames(l, dotdots, Resolve(at, Ups(dotdots)));
    assert dotdots == 0 ==> Climbs(dotdots) + Tail(l, dotdots) == Tail(l, dotdots);
  }

  // The new link is written into a buffer of the size computed for it.
  method NewLink(l: string, dotdots: nat) returns (r: string)
    requires At(l) != '/'
    ensures r == Climbs(dotdots) + Tail(l, dotdots) && At(r) != '/'
    ensures |r| + 1 <= dotdots * 3 + |l| + 2
  {
    hide Components, Resolve, Ups;
    NewLinkNames(l, dotdots, []);
    ClimbsSize(dotdots);
    r := "";
    var i := 0;
    assert "" + Climbs(dotdots) == Climbs(dotdots);
    while i < dotdots
      invariant i <= dotdots && r + Climbs(dotdots - i) == Climbs(dotdots)
    {
      Assoc(r, "../", Climbs(dotdots - i - 1));
      r := r + "../";
      i := i + 1;
    }
    assert r == Climbs(dotdots) by {
      assert r + "" == r;
    }
    if l != [] {
      r := r + l;
    } else if dotdots == 0 {
      r := r + ".";
    } else {
      assert r + "" == r;
    }
  }
}
