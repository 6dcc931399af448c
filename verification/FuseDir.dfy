/**
 Directories of the FUSE driver (drivers/fuse/sysio_fuse.c).  Here `d_reclen` leads from record to
 record: the records tile the directory, and a removed one stays as a tombstone without a name.
 Directories of the two drivers answer to the same histories.
 */
module FuseDir {
  import opened Basics
  import opened IncoreDir

  // A record; `off` is what its d_off says, which nothing here reads.
  datatype Tile = Tile(ino: nat, off: nat, kind: nat, name: string, len: nat)

  // ---------------------------------------------------------------------------------
  // The layout
  // ---------------------------------------------------------------------------------

  function Header(ino: nat, off: nat, len: nat, kind: nat): (r: seq<Cell>)
    ensures |r| == HEADER && r[0] == Head(ino, off, len, kind)
  {
    [Head(ino, off, len, kind)] + seq(HEADER - 1, _ => Fill)
  }

  function Cells(t: Tile): seq<Cell> {
    Header(t.ino, t.off, t.len, t.kind) + (Chars(t.name) + Zeros(t.len - HEADER - |t.name|))
  }

  function Tiling(ts: seq<Tile>): seq<Cell> { if ts == [] then [] else Cells(ts[0]) + Tiling(ts[1..]) }

  function Size(ts: seq<Tile>): nat { if ts == [] then 0 else ts[0].len + Size(ts[1..]) }

  // Every record has room for its name and a NUL.
  predicate Fits(t: Tile) { RecLen(|t.name|) <= t.len }

  ghost predicate AllFit(ts: seq<Tile>) { ts == [] || (Fits(ts[0]) && AllFit(ts[1..])) }

  lemma {:induction false} AllFitAt(ts: seq<Tile>, i: nat)
    requires AllFit(ts) && i < |ts|
    ensures Fits(ts[i]) && AllFit(ts[..i])
  {
    if i > 0 {
      AllFitAt(ts[1..], i - 1);
      assert ts[..i][1..] == ts[1..][..i - 1];
    }
  }

  lemma {:induction false} AllFitSet(ts: seq<Tile>, i: nat, t: Tile)
    requires AllFit(ts) && i < |ts| && Fits(t)
    ensures AllFit(ts[i := t])
  {
    if i > 0 {
      AllFitSet(ts[1..], i - 1, t);
      assert ts[i := t][1..] == ts[1..][i - 1 := t];
    } else {
      assert ts[i := t][1..] == ts[1..];
    }
  }

  lemma {:induction false} AllFitMore(ts: seq<Tile>, t: Tile)
    requires AllFit(ts) && Fits(t)
    ensures AllFit(ts + [t])
  {
    if ts != [] {
      AllFitMore(ts[1..], t);
      assert (ts + [t])[1..] == ts[1..] + [t];
    } else {
      assert (ts + [t])[1..] == [];
    }
  }

  lemma {:induction false} TilingSplit(a: seq<Tile>, b: seq<Tile>)
    ensures Tiling(a + b) == Tiling(a) + Tiling(b) && Size(a + b) == Size(a) + Size(b)
  {
    hide Cells;
    if a == [] {
      assert a + b == b;
    } else {
      assert (a + b)[1..] == a[1..] + b;
      TilingSplit(a[1..], b);
      Assoc(Cells(a[0]), Tiling(a[1..]), Tiling(b));
    }
  }

  lemma {:induction false} TilingSize(ts: seq<Tile>)
    requires AllFit(ts)
    ensures |Tiling(ts)| == Size(ts)
  {
    if ts != [] {
      TilingSize(ts[1..]);
    }
  }

  lemma OneTile(t: Tile)
    ensures Tiling([t]) == Cells(t) && Size([t]) == t.len
  {
    hide Cells;
    assert [t][1..] == [];
    assert Tiling([t]) == Cells(t) + [];
  }

  // Where record `i` starts.
  function Start(ts: seq<Tile>, i: nat): nat requires i <= |ts| { Size(ts[..i]) }

  // The records before `i`, record `i`, and those behind it.
  lemma Around(ts: seq<Tile>, i: nat)
    requires AllFit(ts) && i < |ts|
    ensures var (a, c) := (Tiling(ts[..i]), Tiling(ts[i + 1..]));
            && |a| == Start(ts, i) && Fits(ts[i]) && Start(ts, i + 1) == Start(ts, i) + ts[i].len
            && Tiling(ts) == a + (Cells(ts[i]) + c)
            && forall t :: Tiling(ts[i := t]) == a + (Cells(t) + c)
  {
    hide Tiling, Cells, AllFit, Fits, Size;
    var (a, c) := (ts[..i], ts[i + 1..]);
    AllFitAt(ts, i);
    TilingSize(a);
    forall t ensures Tiling(ts[i := t]) == Tiling(a) + (Cells(t) + Tiling(c)) {
      assert ts[i := t] == a + ([t] + c);
      TilingSplit(a, [t] + c);
      TilingSplit([t], c);
      OneTile(t);
    }
    assert ts == ts[i := ts[i]];
    assert ts[..i + 1] == a + [ts[i]];
    TilingSplit(a, [ts[i]]);
    OneTile(ts[i]);
  }

  // The parts of a record, wherever it is.
  lemma InTile(a: seq<Cell>, t: Tile, c: seq<Cell>, data: seq<Cell>, p: nat)
    requires data == a + (Cells(t) + c) && p == |a| && Fits(t)
    ensures p + HEADER + |t.name| + 1 < p + t.len <= |data|
    ensures data[p] == Head(t.ino, t.off, t.len, t.kind)
    ensures data[p + HEADER..p + HEADER + |t.name|] == Chars(t.name)
    ensures data[p + HEADER + |t.name|] == Zero
  {
    hide RecLen;
    var (h, n, z) := (Header(t.ino, t.off, t.len, t.kind), Chars(t.name), Zeros(t.len - HEADER - |t.name|));
    Assoc(h, n + z, c);
    Assoc(n, z, c);
    Assoc(a, h, n + (z + c));
    InParts(a, h, n, z, c);
  }

  lemma InParts(a: seq<Cell>, h: seq<Cell>, n: seq<Cell>, z: seq<Cell>, c: seq<Cell>)
    requires |h| > 0 && |z| > 0
    ensures var (data, p) := (a + (h + (n + (z + c))), |a|);
            && data[p] == h[0] && data[p + |h|..p + |h| + |n|] == n && data[p + |h| + |n|] == z[0]
  {
    Slices(a + h, n, z + c);
    Assoc(a, h, n + (z + c));
    var data := (a + h) + (n + (z + c));
    assert data[|a|] == h[0];
    assert data[|a| + |h| + |n|..] == z + c;
    assert data[|a| + |h| + |n|] == (z + c)[0];
  }

  /** The records, tombstones included, tile the directory exactly: the first starts at zero, each
      starts where the one before it ends, and the last ends at the size. */
  lemma TilesExactly(ts: seq<Tile>, i: nat)
    requires AllFit(ts) && i < |ts|
    ensures Start(ts, 0) == 0 && Start(ts, |ts|) == |Tiling(ts)|
    ensures Start(ts, i) < Start(ts, i + 1) == Start(ts, i) + ts[i].len <= |Tiling(ts)|
    ensures Tiling(ts)[Start(ts, i)] == Head(ts[i].ino, ts[i].off, ts[i].len, ts[i].kind)
  {
    hide Tiling, Cells, AllFit, RecLen;
    Around(ts, i);
    TilingSize(ts);
    assert ts[..|ts|] == ts;
    InTile(Tiling(ts[..i]), ts[i], Tiling(ts[i + 1..]), Tiling(ts), Start(ts, i));
  }

  // ---------------------------------------------------------------------------------
  // The names
  // ---------------------------------------------------------------------------------

  function Seek(ts: seq<Tile>, name: string): Option<Node> {
    if ts == [] then None else if ts[0].name == name then Some(Node(ts[0].ino, ts[0].kind)) else Seek(ts[1..], name)
  }

  // No name is there twice; tombstones have none.
  ghost predicate Separate(ts: seq<Tile>) {
    ts == [] || ((ts[0].name == [] || Seek(ts[1..], ts[0].name).None?) && Separate(ts[1..]))
  }

  function Named(ts: seq<Tile>): nat { if ts == [] then 0 else (if ts[0].name == [] then 0 else 1) + Named(ts[1..]) }

  // Only d_off changes, or the record loses its name.
  lemma {:induction false} SetNames(ts: seq<Tile>, i: nat, t: Tile)
    requires i < |ts| && Separate(ts) && ts[i].name != []
    requires t.name == []
    ensures var now := ts[i := t];
            && Separate(now) && Named(now) == Named(ts) - 1
            && forall n :: n != [] ==> Seek(now, n) == if n == ts[i].name then None else Seek(ts, n)
    ensures Seek(ts, ts[i].name) == Some(Node(ts[i].ino, ts[i].kind))
  {
    var now := ts[i := t];
    if i == 0 {
      assert now[1..] == ts[1..];
    } else {
      assert now[1..] == ts[1..][i - 1 := t];
      SetNames(ts[1..], i - 1, t);
    }
  }

  lemma {:induction false} SetOffNames(ts: seq<Tile>, i: nat, off: nat)
    requires i < |ts| && Separate(ts)
    ensures var now := ts[i := ts[i].(off := off)];
            Separate(now) && Named(now) == Named(ts) && forall n :: Seek(now, n) == Seek(ts, n)
  {
    var now := ts[i := ts[i].(off := off)];
    if i == 0 {
      assert now[1..] == ts[1..];
    } else {
      assert now[1..] == ts[1..][i - 1 := ts[i].(off := off)];
      SetOffNames(ts[1..], i - 1, off);
    }
  }

  lemma {:induction false} MoreNames(ts: seq<Tile>, t: Tile)
    requires Separate(ts) && t.name != [] && Seek(ts, t.name).None?
    ensures var now := ts + [t];
            && Separate(now) && Named(now) == Named(ts) + 1
            && forall n :: Seek(now, n) == if n == t.name then Some(Node(t.ino, t.kind)) else Seek(ts, n)
  {
    var now := ts + [t];
    if ts == [] {
      assert now[1..] == [];
    } else {
      assert now[1..] == ts[1..] + [t];
      MoreNames(ts[1..], t);
    }
  }

  lemma {:induction false} NotSought(ts: seq<Tile>, name: string)
    requires forall j :: 0 <= j < |ts| ==> ts[j].name != name
    ensures Seek(ts, name).None?
  {
    if ts != [] {
      NotSought(ts[1..], name);
    }
  }

  lemma {:induction false} SoughtAt(ts: seq<Tile>, i: nat)
    requires Separate(ts) && i < |ts| && ts[i].name != []
    ensures Seek(ts, ts[i].name) == Some(Node(ts[i].ino, ts[i].kind))
  {
    if i > 0 {
      SoughtAt(ts[1..], i - 1);
    }
  }

  // The live records are what the history left.
  ghost predicate Answers(ts: seq<Tile>, first: map<string, Node>, ops: seq<Op>) {
    && Named(ts) == Live(first, ops)
    && forall n :: n != [] ==> Seek(ts, n) == Owner(first, ops, n)
  }

  // No removal of a name that is there when the link count is down to two, on which the source
  // asserts.
  ghost predicate Possible(first: map<string, Node>, before: seq<Op>, op: Op) {
    op.Unlink? && Owner(first, before, op.name).Some? ==> Live(first, before) > 2
  }

  class FuseDirectory {
    var data: seq<Cell>
    var nlink: nat
    ghost var ts: seq<Tile>

    ghost predicate Valid()
      reads this
    {
      && AllFit(ts) && Separate(ts) && ts != []
      && data == Tiling(ts)
      && nlink == Named(ts)
    }

    /** `fuse_directory_new`. */
    constructor (ino: nat, parent: nat, kind: nat)
      ensures Valid() && nlink == 2 && Answers(ts, Dots(ino, parent, kind), [])
    {
      data := Cells(Tile(ino, 24, kind, DOT, 24)) + Cells(Tile(parent, 48, kind, DOTDOT, 24));
      nlink := 2;
      ts := [Tile(ino, 24, kind, DOT, 24), Tile(parent, 48, kind, DOTDOT, 24)];
      FirstTwo(ino, parent, kind);
    }

    lemma RecordAt(i: nat)
      requires Valid() && i < |ts|
      ensures var (p, t) := (Start(ts, i), ts[i]);
              && p + HEADER + |t.name| + 1 < p + t.len == Start(ts, i + 1) <= |data|
              && data[p] == Head(t.ino, t.off, t.len, t.kind)
              && data[p + HEADER..p + HEADER + |t.name|] == Chars(t.name)
              && data[p + HEADER + |t.name|] == Zero
      ensures Start(ts, |ts|) == |data|
    {
      hide Tiling, Cells, AllFit, RecLen, Separate, Start;
      Around(ts, i);
      TilesExactly(ts, i);
      InTile(Tiling(ts[..i]), ts[i], Tiling(ts[i + 1..]), data, Start(ts, i));
    }

    lemma AtEnd(i: nat)
      requires Valid() && i < |ts| && Start(ts, i + 1) >= |data|
      ensures i == |ts| - 1
    {
      hide Tiling, AllFit, Separate, Start;
      if i + 1 < |ts| {
        RecordAt(i + 1);
      }
    }

    // `fuse_directory_match`.
    method Matches(p: nat, name: string, ghost i: nat) returns (yes: bool)
      requires Valid() && i < |ts| && p == Start(ts, i)
      ensures yes <==> ts[i].name == name
    {
      hide Valid, RecLen, Start;
      RecordAt(i);
      ghost var t := ts[i];
      var end := p + data[p].reclen;
      var cp := p + HEADER;
      forall k | p + HEADER <= k < p + HEADER + |t.name| ensures data[k] != Zero {
        assert data[k] == data[p + HEADER..p + HEADER + |t.name|][k - p - HEADER];
      }
      while cp < end && data[cp] != Zero
        invariant p + HEADER <= cp <= p + HEADER + |t.name|
      {
        cp := cp + 1;
      }
      yes := |name| == cp - (p + HEADER) && data[p + HEADER..cp] == Chars(name);
      SameChars(t.name, name);
    }

    // `fuse_directory_probe` with `fuse_directory_match`.
    method Probe(name: string) returns (found: bool, p: nat, last: nat, ghost i: nat)
      requires Valid() && name != []
      ensures found <==> Seek(ts, name).Some?
      ensures i < |ts| && p == Start(ts, i)
      ensures found ==> ts[i].name == name && Seek(ts, name) == Some(Node(ts[i].ino, ts[i].kind))
      ensures !found ==> Seek(ts, name).None? && last == p && i == |ts| - 1
    {
      hide AllFit, Tiling, Seek, Separate, Start;
      i, last, p := 0, 0, 0;
      StartZero(ts);
      while true
        invariant i < |ts| && p == Start(ts, i)
        invariant forall j :: 0 <= j < i ==> ts[j].name != name
        decreases |ts| - i
      {
        found := Matches(p, name, i);
        if found {
          SoughtAt(ts, i);
          return;
        }
        last := p;
        RecordAt(i);
        var n := p + data[p].reclen;
        if n >= |data| {
          AtEnd(i);
          NotSought(ts, name);
          return;
        }
        assert i + 1 < |ts|;
        p, i := n, i + 1;
      }
    }

    /** The search of the FUSE driver's lookup. */
    method Lookup(name: string) returns (r: Option<nat>)
      requires Valid() && NUL !in name && name != []
      ensures r == match Seek(ts, name) case None => None case Some(x) => Some(x.ino)
    {
      hide Valid, Start;
      var found, p, last, i := Probe(name);
      RecordAt(i);
      r := if found then Some(data[p].ino) else None;
    }

    // `fuse_trunc` where it grows, clearing what it adds.
    method Grow(size: nat)
      requires |data| <= size
      modifies `data
      ensures data == old(data) + Zeros(size - |old(data)|)
    {
      data := data + Zeros(size - |data|);
    }

    /** `fuse_directory_insert`.  The last record ends the directory, so this always grows, and
        `n` always has a value where it is used. */
    method InsertEntry(name: string, ino: nat, kind: nat) returns (err: int)
      requires Valid() && NUL !in name && name != []
      modifies this
      ensures Valid()
      ensures err == if old(Seek(ts, name)).Some? then -EEXIST else 0
      ensures forall m :: Seek(ts, m) == if err == 0 && m == name then Some(Node(ino, kind)) else old(Seek(ts, m))
      ensures nlink == old(nlink) + if err == 0 then 1 else 0
      ensures |data| == |old(data)| + if err == 0 then RecLen(|name|) else 0
    {
      hide AllFit, Tiling, Seek, Separate, Start, RecLen, Header, Zeros, Named, Write, SetOff, DOT, DOTDOT, Cells;
      var reclen := RecLen(|name|);
      var found, p, last, i := Probe(name);
      if found {
        return -EEXIST;
      }
      ghost var (ts0, data0) := (ts, data);
      RecordAt(i);
      var q := last + data[last].reclen;
      var n: nat;
      if |data| == 0 || q + reclen > |data| {
        Grow(q + reclen);
        n := |data|;
      }
      Appended(ts0, data, p, q, n, name, ino, kind);
      ghost var t := Tile(ino, n, kind, name, reclen);
      ghost var trimmed := ts0[i := ts0[i].(off := q)];
      SetOffNames(ts0, i, q);
      MoreNames(trimmed, t);
      AllFitAt(ts0, i);
      AllFitSet(ts0, i, ts0[i].(off := q));
      AllFitMore(trimmed, t);
      data := SetOff(data, last, q);
      data := Write(data, q, Header(ino, n, reclen, kind) + Chars(name));
      nlink := nlink + 1;
      ts := trimmed + [t];
      err := 0;
    }

    /** `fuse_unlink_entry`: the record, any record, becomes a tombstone.  If it is there, more than
        two links are asserted. */
    method UnlinkEntry(name: string) returns (err: int)
      requires Valid() && NUL !in name && name != [] && (Seek(ts, name).Some? ==> nlink > 2)
      modifies this
      ensures Valid() && |data| == |old(data)|
      ensures err == if old(Seek(ts, name)).Some? then 0 else -ENOENT
      ensures forall m :: m != [] ==> Seek(ts, m) == if m == name then None else old(Seek(ts, m))
      ensures nlink == old(nlink) - if err == 0 then 1 else 0
    {
      hide AllFit, Tiling, Seek, Separate, Start, RecLen, Header, Zeros, Named, Write, DOT, DOTDOT, Cells;
      var found, p, last, i := Probe(name);
      if !found {
        return -ENOENT;
      }
      RecordAt(i);
      var reclen := data[p].reclen;
      ghost var tomb := Tile(0, 0, 0, [], reclen);
      Buried(ts, data, i, p, reclen);
      SetNames(ts, i, tomb);
      AllFitAt(ts, i);
      TombFits(ts[i]);
      AllFitSet(ts, i, tomb);
      data := Write(data, p, Zeros(reclen));
      data := Write(data, p, Header(0, 0, reclen, 0));
      nlink := nlink - 1;
      ts := ts[i := tomb];
      err := 0;
    }

    /** Any run: every call returns what the history calls for, lookups find the i-node last
        inserted and not removed, and the link count is the number of names in use. */
    method Run(ops: seq<Op>, ghost first: map<string, Node>) returns (results: seq<int>)
      requires Valid() && Answers(ts, first, [])
      requires forall i :: 0 <= i < |ops| ==>
                NUL !in ops[i].name && ops[i].name != [] && Possible(first, ops[..i], ops[i])
      modifies this
      ensures Valid() && Answers(ts, first, ops) && nlink == Live(first, ops)
      ensures |results| == |ops| && forall i :: 0 <= i < |ops| ==> results[i] == Result(first, ops[..i], ops[i])
    {
      hide Answers, Result, Owner, Live, AllFit, Separate, Tiling, Named, Possible;
      results := [];
      for i := 0 to |ops|
        invariant Valid() && Answers(ts, first, ops[..i])
        invariant |results| == i && forall j :: 0 <= j < i ==> results[j] == Result(first, ops[..j], ops[j])
      {
        var err := Do(first, ops[..i], ops[i]);
        assert ops[..i + 1] == ops[..i] + [ops[i]];
        results := results + [err];
      }
      assert ops[..|ops|] == ops;
      NamesAreLive(ts, first, ops);
    }

    method Do(ghost first: map<string, Node>, ghost before: seq<Op>, op: Op) returns (err: int)
      requires Valid() && Answers(ts, first, before)
      requires NUL !in op.name && op.name != [] && Possible(first, before, op)
      modifies this
      ensures Valid() && Answers(ts, first, before + [op]) && err == Result(first, before, op)
    {
      hide AllFit, Tiling, Separate, Named, Seek;
      assert (before + [op])[..|before|] == before;
      match op {
        case Insert(name, ino, kind) => err := InsertEntry(name, ino, kind);
        case Unlink(name) => err := UnlinkEntry(name);
      }
    }
  }

  lemma StartZero(ts: seq<Tile>)
    ensures Start(ts, 0) == 0
  {
  }

  lemma NamesAreLive(ts: seq<Tile>, first: map<string, Node>, ops: seq<Op>)
    requires Answers(ts, first, ops)
    ensures Named(ts) == Live(first, ops)
  {
  }

  lemma TombFits(t: Tile)
    requires Fits(t)
    ensures Fits(Tile(0, 0, 0, [], t.len))
  {
  }

  lemma FirstTwo(ino: nat, parent: nat, kind: nat)
    ensures var (x, y) := (Tile(ino, 24, kind, DOT, 24), Tile(parent, 48, kind, DOTDOT, 24));
            && AllFit([x, y]) && Separate([x, y]) && Answers([x, y], Dots(ino, parent, kind), []) && Named([x, y]) == 2
            && Tiling([x, y]) == Cells(x) + Cells(y)
  {
    hide Cells;
    var (x, y) := (Tile(ino, 24, kind, DOT, 24), Tile(parent, 48, kind, DOTDOT, 24));
    assert [x, y] == [x] + [y] && [x, y][1..] == [y] && [y][1..] == [];
    TilingSplit([x], [y]);
    OneTile(x);
    OneTile(y);
    var none: seq<Tile> := [];
    assert Named(none) == 0 && AllFit(none) && Separate(none) && [y][1..] == none;
    assert Named([y]) == 1 && AllFit([y]) && Separate([y]);
    forall n
      ensures Seek([x, y], n) ==
              if n == DOT then Some(Node(ino, kind)) else if n == DOTDOT then Some(Node(parent, kind)) else None
    {
      assert Seek(none, n).None?;
      assert Seek([y], n) == if n == DOTDOT then Some(Node(parent, kind)) else None;
    }
    assert Seek([y], DOT) == None by {
      assert Seek(none, DOT).None? && DOT != DOTDOT;
    }
  }

  // A record behind the last.
  lemma Appended(ts: seq<Tile>, data: seq<Cell>, p: nat, q: nat, n: nat, name: string, ino: nat, kind: nat)
    requires ts != [] && AllFit(ts) && p == Start(ts, |ts| - 1) && q == p + ts[|ts| - 1].len && n == q + RecLen(|name|)
    requires data == Tiling(ts) + Zeros(RecLen(|name|))
    ensures |data| == n && data[p].Head?
    ensures var (i, t) := (|ts| - 1, Tile(ino, n, kind, name, RecLen(|name|)));
            Write(SetOff(data, p, q), q, Header(ino, n, t.len, kind) + Chars(name))
            == Tiling(ts[i := ts[i].(off := q)] + [t])
  {
    hide Tiling, AllFit, RecLen, Header, Zeros, Write, SetOff, Start, Cells, Fits;
    var (i, r) := (|ts| - 1, RecLen(|name|));
    var (last, t) := (ts[i], Tile(ino, n, kind, name, r));
    NewFits(t);
    AroundLast(ts);
    TilingSplit(ts[i := last.(off := q)], [t]);
    OneTile(t);
    AppendedCells(Tiling(ts[..i]), last, t, data, p, q, n);
  }

  lemma AppendedCells(a: seq<Cell>, last: Tile, t: Tile, data: seq<Cell>, p: nat, q: nat, n: nat)
    requires p == |a| && Fits(last) && q == p + last.len && n == q + t.len && t.off == n && Fits(t)
    requires data == (a + Cells(last)) + Zeros(t.len)
    ensures |data| == n && data[p].Head?
    ensures Write(SetOff(data, p, q), q, Header(t.ino, n, t.len, t.kind) + Chars(t.name))
            == (a + Cells(last.(off := q))) + Cells(t)
  {
    hide RecLen, Header, Zeros, Write, SetOff, Cells, Fits;
    var h := Header(t.ino, n, t.len, t.kind) + Chars(t.name);
    CellsAre(t, h);
    Trim(a, last, q, Zeros(t.len), p);
    WriteBehind(a + Cells(last.(off := q)), h, t.len);
  }

  lemma WriteBehind(b: seq<Cell>, h: seq<Cell>, len: nat)
    requires |h| <= len
    ensures Write(b + Zeros(len), |b|, h) == b + (h + Zeros(len - |h|))
  {
    hide Zeros, Write;
    ZerosSplit(|h|, len - |h|);
    WriteOver(b, Zeros(|h|), h, Zeros(len - |h|));
  }

  lemma CellsAre(t: Tile, h: seq<Cell>)
    requires h == Header(t.ino, t.off, t.len, t.kind) + Chars(t.name) && Fits(t)
    ensures Cells(t) == h + Zeros(t.len - |h|) && |h| == HEADER + |t.name| < t.len
  {
    Assoc(Header(t.ino, t.off, t.len, t.kind), Chars(t.name), Zeros(t.len - |h|));
  }

  lemma NewFits(t: Tile)
    requires t.len == RecLen(|t.name|)
    ensures Fits(t)
  {
  }

  lemma NoMore(a: seq<Cell>)
    ensures a + [] == a
  {
  }

  lemma AroundLast(ts: seq<Tile>)
    requires ts != [] && AllFit(ts)
    ensures var i := |ts| - 1;
            && |Tiling(ts[..i])| == Start(ts, i) && Fits(ts[i])
            && Tiling(ts) == Tiling(ts[..i]) + Cells(ts[i])
            && forall t :: Tiling(ts[i := t]) == Tiling(ts[..i]) + Cells(t)
  {
    hide Tiling, Cells, AllFit;
    var i := |ts| - 1;
    Around(ts, i);
    assert ts[i + 1..] == [];
    TilingNil();
    forall t ensures Tiling(ts[i := t]) == Tiling(ts[..i]) + Cells(t) {
      NoMore(Cells(t));
    }
    NoMore(Cells(ts[i]));
  }

  lemma TilingNil() ensures Tiling([]) == [] { }

  // Setting d_off of a record.
  lemma Trim(a: seq<Cell>, t: Tile, q: nat, z: seq<Cell>, p: nat)
    requires p == |a| && Fits(t) && q == p + t.len
    ensures var data := (a + Cells(t)) + z;
            && |data| == q + |z| && data[p] == Head(t.ino, t.off, t.len, t.kind)
            && SetOff(data, p, q) == (a + Cells(t.(off := q))) + z
    ensures |a + Cells(t.(off := q))| == q
  {
    hide RecLen, Zeros;
  }

  // A record wiped, and its length written again.
  lemma Buried(ts: seq<Tile>, data: seq<Cell>, i: nat, p: nat, len: nat)
    requires AllFit(ts) && data == Tiling(ts) && i < |ts| && p == Start(ts, i) && len == ts[i].len
    ensures p + len <= |data| && HEADER <= len
    ensures Write(Write(data, p, Zeros(len)), p, Header(0, 0, len, 0)) == Tiling(ts[i := Tile(0, 0, 0, [], len)])
  {
    hide Tiling, AllFit, RecLen, Header, Zeros, Write, Start, Cells;
    var (a, c) := (Tiling(ts[..i]), Tiling(ts[i + 1..]));
    Around(ts, i);
    TileSize(ts[i]);
    WriteOver(a, Cells(ts[i]), Zeros(len), c);
    var z := Zeros(len - HEADER);
    ZerosSplit(HEADER, len - HEADER);
    Assoc(Zeros(HEADER), z, c);
    WriteOver(a, Zeros(HEADER), Header(0, 0, len, 0), z + c);
    Assoc(Header(0, 0, len, 0), z, c);
    TombCells(len);
  }

  lemma TileSize(t: Tile)
    requires Fits(t)
    ensures |Cells(t)| == t.len >= HEADER
  {
  }

  lemma TombCells(len: nat)
    requires len >= HEADER
    ensures Cells(Tile(0, 0, 0, [], len)) == Header(0, 0, len, 0) + Zeros(len - HEADER)
  {
    hide Zeros, Header;
    assert Chars([]) == [];
    assert [] + Zeros(len - HEADER) == Zeros(len - HEADER);
  }

  /** A new directory has no `..`: it is not found, and it can be inserted.  And with one more name in
      it, even its `.` can be removed. */
  method DotsAreNames(ino: nat, parent: nat, kind: nat, other: nat) returns (found: Option<nat>, err: int, gone: int)
    ensures found.None? && err == 0 && gone == 0
  {
    var d := new FuseDirectory(ino, parent, kind);
    assert Owner(Dots(ino, parent, kind), [], "..").None? &&
        Owner(Dots(ino, parent, kind), [], ".") == Some(Node(ino, kind));
    found := d.Lookup("..");
    err := d.InsertEntry("..", other, kind);
    gone := d.UnlinkEntry(".");
  }
}
