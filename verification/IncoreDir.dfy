/**
 Directories of the in-core file system (drivers/incore/fs_incore.c), in the layout where a record
 says by `d_off` where the next one starts: a record may be followed by a gap, which is zero.
 */
module IncoreDir {
  import opened Basics

  const ENOENT := 2
  const EEXIST := 17
  const HEADER := 19          // offset of d_name

  // One byte of the directory.  The fields of a record's header are kept together in its first
  // byte; `Fill` stands for the others.
  datatype Cell = Zero | Head(ino: nat, off: nat, reclen: nat, kind: nat) | Fill | Char(c: char)

  // INCORE_D_RECLEN: room for the header, the name and a NUL, rounded to 8.
  function RecLen(n: nat): (r: nat)
    ensures HEADER + n + 1 < r <= HEADER + n + 1 + 8 && r % 8 == 0
  {
    (HEADER + n + 1 + 8) / 8 * 8
  }

  // A record and the distance to the next one.
  datatype Entry = Entry(ino: nat, name: string, kind: nat, span: nat)

  // ---------------------------------------------------------------------------------
  // The layout
  // ---------------------------------------------------------------------------------

  function Zeros(n: int): (r: seq<Cell>) ensures |r| == if n < 0 then 0 else n {
    if n < 0 then [] else seq(n, _ => Zero)
  }

  function Chars(name: string): (r: seq<Cell>)
    ensures |r| == |name|
  {
    seq(|name|, i requires 0 <= i < |name| => Char(name[i]))
  }

  // The header and the name.
  function Record(ino: nat, off: nat, name: string, kind: nat): (r: seq<Cell>)
    ensures |r| == HEADER + |name|
  {
    [Head(ino, off, RecLen(|name|), kind)] + seq(HEADER - 1, _ => Fill) + Chars(name)
  }

  function Block(e: Entry, at: nat): seq<Cell> {
    Record(e.ino, at + e.span, e.name, e.kind) + Zeros(e.span - HEADER - |e.name|)
  }

  function Image(es: seq<Entry>, at: nat): seq<Cell>
    decreases |es|
  {
    if es == [] then [] else Block(es[0], at) + Image(es[1..], at + es[0].span)
  }

  function Span(es: seq<Entry>): nat { if es == [] then 0 else es[0].span + Span(es[1..]) }

  ghost predicate Roomy(es: seq<Entry>) { forall e :: e in es ==> RecLen(|e.name|) <= e.span }

  lemma {:induction false} SpanSplit(a: seq<Entry>, b: seq<Entry>)
    ensures Span(a + b) == Span(a) + Span(b)
  {
    if a == [] {
      assert a + b == b;
    } else {
      assert (a + b)[1..] == a[1..] + b;
      SpanSplit(a[1..], b);
    }
  }

  lemma ImageCons(e: Entry, c: seq<Entry>, at: nat)
    ensures Image([e] + c, at) == Block(e, at) + Image(c, at + e.span)
  {
    assert ([e] + c)[1..] == c;
  }

  lemma {:induction false} ImageSplit(a: seq<Entry>, b: seq<Entry>, at: nat)
    ensures Image(a + b, at) == Image(a, at) + Image(b, at + Span(a))
    decreases |a|
  {
    hide Block;
    if a == [] {
      assert a + b == b;
    } else {
      hide Image;
      var next := at + a[0].span;
      assert a + b == [a[0]] + (a[1..] + b) && a == [a[0]] + a[1..];
      ImageCons(a[0], a[1..] + b, at);
      ImageCons(a[0], a[1..], at);
      ImageSplit(a[1..], b, next);
      Assoc(Block(a[0], at), Image(a[1..], next), Image(b, next + Span(a[1..])));
    }
  }

  lemma {:induction false} ImageSize(es: seq<Entry>, at: nat)
    requires Roomy(es)
    ensures |Image(es, at)| == Span(es)
    decreases |es|
  {
    if es != [] {
      assert es[0] in es && forall e :: e in es[1..] ==> e in es;
      ImageSize(es[1..], at + es[0].span);
    }
  }

  // Where record `i` starts.
  function Offset(es: seq<Entry>, i: nat): nat requires i <= |es| { Span(es[..i]) }

  // The block of record `i` is where it should be.
  lemma BlockAt(es: seq<Entry>, i: nat)
    requires Roomy(es) && i < |es|
    ensures var p := Offset(es, i);
            && Offset(es, i + 1) == p + es[i].span <= |Image(es, 0)|
            && Image(es, 0)[p..p + es[i].span] == Block(es[i], p)
            && Image(es, 0)[..p] == Image(es[..i], 0)
            && Image(es, 0)[p + es[i].span..] == Image(es[i + 1..], p + es[i].span)
    ensures RecLen(|es[i].name|) <= es[i].span
  {
    hide Image, Block, RecLen;
    Parts(es, i);
    var (a, p, e, c) := (es[..i], Offset(es, i), es[i], es[i + 1..]);
    BlockSize(e, p);
    Slices(Image(a, 0), Block(e, p), Image(c, p + e.span));
  }

  lemma BlockSize(e: Entry, at: nat)
    requires RecLen(|e.name|) <= e.span
    ensures |Block(e, at)| == e.span
  {
  }

  lemma Slices(x: seq<Cell>, y: seq<Cell>, z: seq<Cell>)
    ensures var s := x + (y + z); s[..|x|] == x && s[|x|..|x| + |y|] == y && s[|x| + |y|..] == z
  {
  }

  lemma Parts(es: seq<Entry>, i: nat)
    requires Roomy(es) && i < |es|
    ensures var p := Offset(es, i);
            && |Image(es[..i], 0)| == p && Offset(es, i + 1) == p + es[i].span
            && Image(es, 0) == Image(es[..i], 0) + (Block(es[i], p) + Image(es[i + 1..], p + es[i].span))
    ensures RecLen(|es[i].name|) <= es[i].span
  {
    hide Block, RecLen, Image, Roomy;
    RoomyAt(es, i);
    var (a, b) := (es[..i], es[i..]);
    assert es == a + b && b == [es[i]] + es[i + 1..];
    ImageSplit(a, b, 0);
    ImageCons(es[i], es[i + 1..], Offset(es, i));
    ImageSize(a, 0);
    OffsetNext(es, i);
  }

  lemma RoomyAt(es: seq<Entry>, i: nat)
    requires Roomy(es) && i < |es|
    ensures RecLen(|es[i].name|) <= es[i].span && Roomy(es[..i])
  {
    assert es[i] in es;
  }

  lemma OffsetNext(es: seq<Entry>, i: nat)
    requires i < |es|
    ensures Offset(es, i + 1) == Offset(es, i) + es[i].span
  {
    SpanSplit(es[..i], [es[i]]);
    assert es[..i + 1] == es[..i] + [es[i]];
    assert Span([es[i]]) == es[i].span;
  }

  // What a block holds, byte by byte.
  lemma InBlock(e: Entry, at: nat, k: nat)
    requires k < |Block(e, at)|
    ensures k == 0 ==> Block(e, at)[k] == Head(e.ino, at + e.span, RecLen(|e.name|), e.kind)
    ensures HEADER <= k < HEADER + |e.name| ==> Block(e, at)[k] == Char(e.name[k - HEADER])
    ensures k >= HEADER + |e.name| ==> Block(e, at)[k] == Zero
  {
  }

  /** The chain of records starts at zero, rises strictly and ends at the size of the directory;
      everything in it that is not record is zero. */
  lemma ChainRises(es: seq<Entry>, i: nat)
    requires Roomy(es) && i < |es|
    ensures var (p, data) := (Offset(es, i), Image(es, 0));
            && p < Offset(es, i + 1) <= |data|
            && data[p] == Head(es[i].ino, Offset(es, i + 1), RecLen(|es[i].name|), es[i].kind)
            && forall q :: p + HEADER + |es[i].name| <= q < Offset(es, i + 1) ==> data[q] == Zero
    ensures Offset(es, |es|) == |Image(es, 0)|
  {
    var (p, data) := (Offset(es, i), Image(es, 0));
    BlockAt(es, i);
    ImageSize(es, 0);
    assert es[..|es|] == es;
    InBlock(es[i], p, 0);
    assert data[p] == data[p..p + es[i].span][0];
    forall q | p + HEADER + |es[i].name| <= q < Offset(es, i + 1) ensures data[q] == Zero {
      InBlock(es[i], p, q - p);
      assert data[q] == data[p..p + es[i].span][q - p];
    }
  }

  // ---------------------------------------------------------------------------------
  // The bytes that an insertion and a removal change
  // ---------------------------------------------------------------------------------

  function SetOff(data: seq<Cell>, p: nat, off: nat): (r: seq<Cell>)
    requires p < |data| && data[p].Head?
    ensures |r| == |data|
  {
    data[p := data[p].(off := off)]
  }

  function Write(data: seq<Cell>, p: nat, cells: seq<Cell>): (r: seq<Cell>)
    requires p + |cells| <= |data|
    ensures |r| == |data|
  {
    data[..p] + cells + data[p + |cells|..]
  }

  lemma ZerosSplit(m: nat, n: nat)
    ensures Zeros(m + n) == Zeros(m) + Zeros(n)
  {
  }

  lemma SetOffRecord(a: seq<Cell>, ino: nat, was: nat, now: nat, name: string, kind: nat, z: seq<Cell>)
    ensures var data := a + (Record(ino, was, name, kind) + z);
            && data[|a|].Head?
            && SetOff(data, |a|, now) == a + (Record(ino, now, name, kind) + z)
  {
  }

  lemma WriteOver(a: seq<Cell>, b: seq<Cell>, c: seq<Cell>, d: seq<Cell>)
    requires |b| == |c|
    ensures Write(a + (b + d), |a|, c) == a + (c + d)
  {
  }

  lemma GapMoves(a: seq<Cell>, r: seq<Cell>, g: seq<Cell>, x: seq<Cell>)
    ensures (a + (r + g)) + x == a + (r + (g + x)) == a + ((r + g) + x)
  {
    Assoc(r, g, x);
    Assoc(a, r + g, x);
  }

  // The last record loses the gap behind it, and the new one gets it, however long it is.
  lemma Inserted(a: seq<Cell>, last: Entry, grow: nat, e: Entry, data: seq<Cell>, p: nat, q: nat, size: nat)
    requires p == |a| && q == p + RecLen(|last.name|) && size == q + e.span == p + last.span + grow
    requires RecLen(|last.name|) <= last.span && RecLen(|e.name|) <= e.span
    requires data == (a + Block(last, p)) + Zeros(grow)
    ensures |data| == size && data[p].Head?
    ensures Write(SetOff(data, p, q), q, Record(e.ino, size, e.name, e.kind))
            == a + (Block(last.(span := RecLen(|last.name|)), p) + Block(e, q))
  {
    hide Record, RecLen, Zeros, SetOff, Write;
    var (r, n) := (RecLen(|last.name|), HEADER + |last.name|);
    var now := Record(last.ino, q, last.name, last.kind);
    var record := Record(e.ino, size, e.name, e.kind);
    var (gap, rest) := (Zeros(r - n), Zeros(e.span - |record|));
    Trimmed(a, last, grow, data, p, q, e.span);
    ZerosSplit(|record|, e.span - |record|);
    WriteOver(a + (now + gap), Zeros(|record|), record, rest);
    GapMoves(a, now, gap, record + rest);
  }

  // The first half: the last record loses its gap.
  lemma Trimmed(a: seq<Cell>, last: Entry, grow: nat, data: seq<Cell>, p: nat, q: nat, span: nat)
    requires p == |a| && q == p + RecLen(|last.name|) && q + span == p + last.span + grow
    requires RecLen(|last.name|) <= last.span
    requires data == (a + Block(last, p)) + Zeros(grow)
    ensures |data| == q + span && data[p].Head?
    ensures var now := Record(last.ino, q, last.name, last.kind);
            SetOff(data, p, q) == (a + (now + Zeros(RecLen(|last.name|) - HEADER - |last.name|))) + Zeros(span)
  {
    hide Record, RecLen, Zeros, SetOff;
    var (r, n) := (RecLen(|last.name|), HEADER + |last.name|);
    var (was, now) :=
        (Record(last.ino, p + last.span, last.name, last.kind), Record(last.ino, q, last.name, last.kind));
    ZerosSplit(last.span - n, grow);
    ZerosSplit(r - n, span);
    GapMoves(a, was, Zeros(last.span - n), Zeros(grow));
    SetOffRecord(a, last.ino, p + last.span, q, last.name, last.kind, Zeros(r - n) + Zeros(span));
    GapMoves(a, now, Zeros(r - n), Zeros(span));
  }

  // The record before the one removed gets its place as a gap.
  lemma Removed(a: seq<Cell>, prev: Entry, e: Entry, c: seq<Cell>, data: seq<Cell>, p: nat, q: nat, next: nat)
    requires p == |a| && q == p + prev.span && next == q + e.span
    requires RecLen(|prev.name|) <= prev.span && RecLen(|e.name|) <= e.span
    requires data == a + (Block(prev, p) + (Block(e, q) + c))
    ensures |data| == next + |c| && data[p].Head? && Write(data, q, Zeros(e.span))[p].Head?
    ensures SetOff(Write(data, q, Zeros(e.span)), p, next) == a + (Block(prev.(span := prev.span + e.span), p) + c)
  {
    hide Record, RecLen, Zeros;
    BlockSize(prev, p);
    BlockSize(e, q);
    Assoc(a, Block(prev, p), Block(e, q) + c);
    WriteOver(a + Block(prev, p), Block(e, q), Zeros(e.span), c);
    var n := HEADER + |prev.name|;
    var was := Record(prev.ino, q, prev.name, prev.kind);
    ZerosSplit(prev.span - n, e.span);
    var gap := Zeros(prev.span + e.span - n);
    GapMoves(a, was, Zeros(prev.span - n), Zeros(e.span) + c);
    Assoc(Zeros(prev.span - n), Zeros(e.span), c);
    SetOffRecord(a, prev.ino, q, next, prev.name, prev.kind, gap + c);
    var now := Record(prev.ino, next, prev.name, prev.kind);
    GapMoves(a, now, gap, c);
  }

  // ---------------------------------------------------------------------------------
  // The names
  // ---------------------------------------------------------------------------------

  // What an entry says of its name.
  datatype Node = Node(ino: nat, kind: nat)

  function NodeOf(e: Entry): Node { Node(e.ino, e.kind) }

  function Find(es: seq<Entry>, name: string): Option<Node> {
    if es == [] then None else if es[0].name == name then Some(NodeOf(es[0])) else Find(es[1..], name)
  }

  ghost predicate Distinct(es: seq<Entry>) {
    es == [] || (Find(es[1..], es[0].name).None? && Distinct(es[1..]))
  }

  function OrElse(a: Option<Node>, b: Option<Node>): Option<Node> { if a.Some? then a else b }

  lemma {:induction false} FindAt(es: seq<Entry>, i: nat)
    requires Distinct(es) && i < |es|
    ensures Find(es, es[i].name) == Some(NodeOf(es[i]))
  {
    if i > 0 {
      FindAt(es[1..], i - 1);
    }
  }

  // A new entry behind the last, which gives up its gap.
  function WithEntry(es: seq<Entry>, e: Entry): seq<Entry>
    requires es != []
  {
    var last := es[|es| - 1];
    es[..|es| - 1] + [last.(span := RecLen(|last.name|)), e]
  }

  // Where the last record ends and the gap behind it begins.
  function LastEnd(es: seq<Entry>): nat {
    if es == [] then 0 else Offset(es, |es| - 1) + RecLen(|es[|es| - 1].name|)
  }

  function Max(a: nat, b: nat): nat { if a < b then b else a }

  // The entry `i` is gone, its place added to the one before it.
  function WithoutEntry(es: seq<Entry>, i: nat): seq<Entry>
    requires 0 < i < |es|
  {
    es[..i - 1] + ([es[i - 1].(span := es[i - 1].span + es[i].span)] + es[i + 1..])
  }

  lemma {:induction false} WithEntryNames(es: seq<Entry>, e: Entry)
    requires es != [] && Distinct(es) && Find(es, e.name).None?
    ensures Distinct(WithEntry(es, e)) && |WithEntry(es, e)| == |es| + 1
    ensures forall n :: Find(WithEntry(es, e), n) == if n == e.name then Some(NodeOf(e)) else Find(es, n)
  {
    var now := WithEntry(es, e);
    if |es| == 1 {
      assert now[1..] == [e] && now[1..][1..] == [] && es[1..] == [];
    } else {
      assert now[1..] == WithEntry(es[1..], e);
      WithEntryNames(es[1..], e);
    }
  }

  lemma {:induction false} WithoutEntryNames(es: seq<Entry>, i: nat)
    requires 0 < i < |es| && Distinct(es)
    ensures Distinct(WithoutEntry(es, i)) && |WithoutEntry(es, i)| == |es| - 1
    ensures forall n :: Find(WithoutEntry(es, i), n) == if n == es[i].name then None else Find(es, n)
  {
    var now := WithoutEntry(es, i);
    if i == 1 {
      assert now[1..] == es[2..] == es[1..][1..];
    } else {
      assert now[1..] == WithoutEntry(es[1..], i - 1);
      WithoutEntryNames(es[1..], i - 1);
      FindAt(es[1..], i - 1);
    }
  }

  lemma WithEntryImage(es: seq<Entry>, e: Entry, grow: nat, data: seq<Cell>, p: nat, q: nat, size: nat)
    requires es != [] && Roomy(es) && RecLen(|e.name|) <= e.span
    requires p == Offset(es, |es| - 1) && q == p + RecLen(|es[|es| - 1].name|)
    requires size == q + e.span == p + es[|es| - 1].span + grow
    requires data == Image(es, 0) + Zeros(grow)
    ensures Roomy(WithEntry(es, e))
    ensures |data| == size && data[p].Head?
    ensures Write(SetOff(data, p, q), q, Record(e.ino, size, e.name, e.kind)) == Image(WithEntry(es, e), 0)
  {
    hide Image, Block, RecLen, Record, Zeros, Write, SetOff, Roomy, Offset, WithEntry;
    WithEntryRoomy(es, e);
    LastBlock(es);
    WithEntryBlocks(es, e);
    Inserted(Image(es[..|es| - 1], 0), es[|es| - 1], grow, e, data, p, q, size);
  }

  lemma LastBlock(es: seq<Entry>)
    requires es != [] && Roomy(es)
    ensures var (a, p, last) := (es[..|es| - 1], Offset(es, |es| - 1), es[|es| - 1]);
            |Image(a, 0)| == p && Image(es, 0) == Image(a, 0) + Block(last, p) && RecLen(|last.name|) <= last.span
  {
    hide Image, Block, Offset, Roomy, RecLen, Span;
    var (a, p, last) := (es[..|es| - 1], Offset(es, |es| - 1), es[|es| - 1]);
    RoomyAt(es, |es| - 1);
    OffsetIsSpan(es, |es| - 1);
    LastIs(a, last);
    assert es == a + [last];
  }

  lemma LastIs(a: seq<Entry>, last: Entry)
    requires Roomy(a)
    ensures |Image(a, 0)| == Span(a) && Image(a + [last], 0) == Image(a, 0) + Block(last, Span(a))
  {
    hide Image, Block, Span, Roomy, RecLen;
    ImageSplit(a, [last], 0);
    ImageSize(a, 0);
    OneBlock(last, Span(a));
  }

  lemma OffsetIsSpan(es: seq<Entry>, i: nat)
    requires i <= |es|
    ensures Offset(es, i) == Span(es[..i])
  {
  }

  lemma OneBlock(e: Entry, at: nat)
    ensures Image([e], at) == Block(e, at)
  {
    hide Block;
    assert [e] == [e] + [];
    ImageCons(e, [], at);
    ImageNil(at + e.span);
    assert Block(e, at) + [] == Block(e, at);
  }

  lemma WithEntryBlocks(es: seq<Entry>, e: Entry)
    requires es != [] && Roomy(es)
    ensures var (a, p, last) := (es[..|es| - 1], Offset(es, |es| - 1), es[|es| - 1]);
            var r := RecLen(|last.name|);
            Image(WithEntry(es, e), 0) == Image(a, 0) + (Block(last.(span := r), p) + Block(e, p + r))
  {
    hide Image, Block, Roomy, RecLen;
    var (a, p, last) := (es[..|es| - 1], Offset(es, |es| - 1), es[|es| - 1]);
    var r := RecLen(|last.name|);
    var now := last.(span := r);
    ImageSplit(a, [now, e], 0);
    TwoBlocks(now, e, p);
  }

  lemma TwoBlocks(x: Entry, y: Entry, at: nat)
    ensures Image([x, y], at) == Block(x, at) + Block(y, at + x.span)
  {
    hide Block;
    assert [x, y] == [x] + [y] && [y] == [y] + [];
    ImageCons(x, [y], at);
    ImageCons(y, [], at + x.span);
    ImageNil(at + x.span + y.span);
    assert Block(y, at + x.span) + [] == Block(y, at + x.span);
  }

  lemma WithEntryRoomy(es: seq<Entry>, e: Entry)
    requires es != [] && Roomy(es) && RecLen(|e.name|) <= e.span
    ensures Roomy(WithEntry(es, e))
  {
  }

  lemma WithoutEntryRoomy(es: seq<Entry>, i: nat)
    requires 0 < i < |es| && Roomy(es)
    ensures Roomy(WithoutEntry(es, i))
  {
    assert es[i - 1] in es;
  }

  lemma ImageNil(at: nat) ensures Image([], at) == [] { }

  lemma WithoutEntryImage(es: seq<Entry>, i: nat, data: seq<Cell>, p: nat, q: nat, next: nat)
    requires 0 < i < |es| && Roomy(es)
    requires p == Offset(es, i - 1) && q == Offset(es, i) && next == Offset(es, i + 1)
    requires data == Image(es, 0)
    ensures Roomy(WithoutEntry(es, i))
    ensures p < q && next == q + es[i].span <= |data| && Write(data, q, Zeros(es[i].span))[p].Head?
    ensures SetOff(Write(data, q, Zeros(es[i].span)), p, next) == Image(WithoutEntry(es, i), 0)
  {
    hide Image, Block, RecLen, Record, Zeros, Write, SetOff, Roomy, Offset, WithoutEntry;
    WithoutEntryRoomy(es, i);
    MiddleBlocks(es, i);
    WithoutEntryBlocks(es, i);
    OffsetNext(es, i);
    Removed(Image(es[..i - 1], 0), es[i - 1], es[i], Image(es[i + 1..], next), data, p, q, next);
  }

  lemma MiddleBlocks(es: seq<Entry>, i: nat)
    requires 0 < i < |es| && Roomy(es)
    ensures var (a, p, q, c) := (es[..i - 1], Offset(es, i - 1), Offset(es, i), es[i + 1..]);
            && |Image(a, 0)| == p && q == p + es[i - 1].span && p < q
            && Image(es, 0) == Image(a, 0) + (Block(es[i - 1], p) + (Block(es[i], q) + Image(c, Offset(es, i + 1))))
            && RecLen(|es[i - 1].name|) <= es[i - 1].span && RecLen(|es[i].name|) <= es[i].span
  {
    hide Image, Block, Offset;
    Parts(es, i - 1);
    OffsetNext(es, i);
    assert es[i] in es;
    assert es[i..] == [es[i]] + es[i + 1..];
    ImageCons(es[i], es[i + 1..], Offset(es, i));
  }

  lemma WithoutEntryBlocks(es: seq<Entry>, i: nat)
    requires 0 < i < |es| && Roomy(es)
    ensures var (a, p, c) := (es[..i - 1], Offset(es, i - 1), es[i + 1..]);
            Image(WithoutEntry(es, i), 0)
            == Image(a, 0) + (Block(es[i - 1].(span := es[i - 1].span + es[i].span), p) + Image(c, Offset(es, i + 1)))
  {
    hide Image, Block;
    var now := es[i - 1].(span := es[i - 1].span + es[i].span);
    OffsetNext(es, i - 1);
    OffsetNext(es, i);
    ImageSplit(es[..i - 1], [now] + es[i + 1..], 0);
    ImageCons(now, es[i + 1..], Offset(es, i - 1));
  }

  // ---------------------------------------------------------------------------------
  // Histories
  // ---------------------------------------------------------------------------------

  // The names of the two records every directory starts with.  The second is not `..`: the
  // template puts a blank behind the two dots.
  const DOT := "."
  const DOTDOT := ".. "

  predicate Reserved(name: string) { name == DOT || name == DOTDOT }

  datatype Op = Insert(name: string, ino: nat, kind: nat) | Unlink(name: string)

  // The i-node, and the kind, last inserted under a name and not removed since, `first` being there at the start.
  function Owner(first: map<string, Node>, ops: seq<Op>, name: string): Option<Node> {
    if ops == [] then (if name in first then Some(first[name]) else None) else
      var (before, op) := (ops[..|ops| - 1], ops[|ops| - 1]);
      match op
      case Insert(n, ino, kind) =>
        if n == name then OrElse(Owner(first, before, name), Some(Node(ino, kind))) else Owner(first, before, name)
      case Unlink(n) => if n == name then None else Owner(first, before, name)
  }

  // The number of names in use.
  function Live(first: map<string, Node>, ops: seq<Op>): int {
    if ops == [] then |first| else
      var (before, op) := (ops[..|ops| - 1], ops[|ops| - 1]);
      var used := Owner(first, before, op.name).Some?;
      match op
      case Insert(_, _, _) => Live(first, before) + (if used then 0 else 1)
      case Unlink(_) => Live(first, before) - (if used then 1 else 0)
  }

  // What an operation returns after a history.
  function Result(first: map<string, Node>, before: seq<Op>, op: Op): int {
    var used := Owner(first, before, op.name).Some?;
    match op
    case Insert(_, _, _) => if used then -EEXIST else 0
    case Unlink(_) => if used then 0 else -ENOENT
  }

  // What a new directory holds.
  function Dots(ino: nat, parent: nat, kind: nat): map<string, Node> {
    map[DOT := Node(ino, kind), DOTDOT := Node(parent, kind)]
  }

  // The entries are what the history left.
  ghost predicate Follows(es: seq<Entry>, first: map<string, Node>, ops: seq<Op>) {
    |es| == Live(first, ops) && forall n :: Find(es, n) == Owner(first, ops, n)
  }

  class Directory {
    var data: seq<Cell>
    var nlink: nat
    ghost var es: seq<Entry>

    ghost predicate Valid()
      reads this
    {
      && Roomy(es) && Distinct(es) && Starts(es)
      && data == Image(es, 0)
      && nlink == |es|
    }

    /** `incore_directory_new`. */
    constructor (ino: nat, parent: nat, kind: nat)
      ensures Valid() && nlink == 2 && Follows(es, Dots(ino, parent, kind), [])
    {
      data := Record(ino, 24, DOT, kind) + Zeros(4) + Record(parent, 48, DOTDOT, kind) + Zeros(2);
      nlink := 2;
      es := [Entry(ino, DOT, kind, 24), Entry(parent, DOTDOT, kind, 24)];
      Template(ino, parent, kind);
    }

    // What the probe reads at record `i`.
    lemma RecordAt(i: nat)
      requires Valid() && i < |es|
      ensures var (p, e) := (Offset(es, i), es[i]);
              && p + HEADER + |e.name| + 1 < p + RecLen(|e.name|) <= Offset(es, i + 1) <= |data|
              && data[p] == Head(e.ino, Offset(es, i + 1), RecLen(|e.name|), e.kind)
              && data[p + HEADER..p + HEADER + |e.name|] == Chars(e.name)
              && data[p + HEADER + |e.name|] == Zero
      ensures Offset(es, |es|) == |data|
    {
      hide Image, Roomy, Distinct, RecLen, Zeros, Block, Offset, Span;
      var (p, e) := (Offset(es, i), es[i]);
      RoomyAt(es, i);
      OffsetNext(es, i);
      BlockAt(es, i);
      ChainRises(es, i);
      NameInBlock(e, p);
      SliceOfSlice(data, p, p + e.span, HEADER, HEADER + |e.name|);
    }

    // `incore_directory_match`: the name goes up to a NUL, or to the end of the record.
    method Matches(p: nat, name: string, ghost i: nat) returns (yes: bool)
      requires Valid() && i < |es| && p == Offset(es, i)
      ensures yes <==> es[i].name == name
    {
      hide Valid, RecLen;
      RecordAt(i);
      ghost var e := es[i];
      var end := p + data[p].reclen;
      var cp := p + HEADER;
      forall k | p + HEADER <= k < p + HEADER + |e.name| ensures data[k] != Zero {
        assert data[k] == data[p + HEADER..p + HEADER + |e.name|][k - p - HEADER];
      }
      while cp < end && data[cp] != Zero
        invariant p + HEADER <= cp <= p + HEADER + |e.name|
      {
        cp := cp + 1;
      }
      yes := |name| == cp - (p + HEADER) && data[p + HEADER..cp] == Chars(name);
      SameChars(e.name, name);
    }

    // `incore_directory_probe` with `incore_directory_match`: the record found, and the last one
    // looked at before it.
    method Probe(name: string) returns (found: bool, p: nat, last: nat, ghost i: nat)
      requires Valid()
      ensures found <==> Find(es, name).Some?
      ensures i < |es| && p == Offset(es, i)
      ensures found ==> es[i].name == name && (i > 0 ==> last == Offset(es, i - 1))
      ensures found ==> Find(es, name) == Some(NodeOf(es[i]))
      ensures !found ==> Find(es, name).None? && last == p && i == |es| - 1
    {
      hide Roomy, Image, Find, Distinct, Offset;
      i, last, p := 0, 0, 0;
      OffsetZero(es);
      while true
        invariant i < |es| && p == Offset(es, i) && (i > 0 ==> last == Offset(es, i - 1))
        invariant forall j :: 0 <= j < i ==> es[j].name != name
        decreases |es| - i
      {
        found := Matches(p, name, i);
        if found {
          FindAt(es, i);
          return;
        }
        last := p;
        RecordAt(i);
        var n := data[p].off;
        if n >= |data| {
          AtEnd(i);
          NotThere(es, name);
          return;
        }
        assert i + 1 < |es|;
        p, i := n, i + 1;
      }
    }

    lemma AtEnd(i: nat)
      requires Valid() && i < |es| && Offset(es, i + 1) >= |data|
      ensures i == |es| - 1
    {
      hide Roomy, Image, Distinct, Offset;
      if i + 1 < |es| {
        RecordAt(i + 1);
      }
    }

    /** The search of `_sysio_incore_dirop_lookup`. */
    method Lookup(name: string) returns (r: Option<nat>)
      requires Valid() && NUL !in name
      ensures r == match Find(es, name) case None => None case Some(x) => Some(x.ino)
    {
      hide Valid, Offset;
      var found, p, last, i := Probe(name);
      RecordAt(i);
      r := if found then Some(data[p].ino) else None;
    }

    // `incore_trunc` where it grows, clearing what it adds.
    method Grow(size: nat)
      requires |data| <= size
      modifies `data
      ensures data == old(data) + Zeros(size - |old(data)|)
    {
      data := data + Zeros(size - |data|);
    }

    /** `incore_directory_insert`: behind the last record, in the gap there or by growing as far as it
        must; the record gets all that is left behind it. */
    method InsertEntry(name: string, ino: nat, kind: nat) returns (err: int)
      requires Valid() && NUL !in name
      modifies this
      ensures Valid()
      ensures err == if old(Find(es, name)).Some? then -EEXIST else 0
      ensures forall n :: Find(es, n) == if err == 0 && n == name then Some(Node(ino, kind)) else old(Find(es, n))
      ensures nlink == old(nlink) + if err == 0 then 1 else 0
      ensures if err != 0 then data == old(data)
              else |data| == Max(|old(data)|, old(LastEnd(es)) + RecLen(|name|)) && es != [] &&
                   es[|es| - 1] == Entry(ino, name, kind, |data| - old(LastEnd(es)))
    {
      hide Roomy, Image, Find, Distinct, Offset, RecLen, Record, Zeros, WithEntry, Write, SetOff, DOT, DOTDOT;
      var reclen := RecLen(|name|);
      var found, p, last, i := Probe(name);
      if found {
        return -EEXIST;
      }
      ghost var (es0, data0) := (es, data);
      RecordAt(i);
      OffsetNext(es, i);
      var n := data[last].off;
      var q := last + data[last].reclen;
      if |data| == 0 || q + reclen > |data| {
        Grow(q + reclen);
        n := |data|;
      } else {
        NoZeros(data);
      }
      ghost var e := Entry(ino, name, kind, n - q);
      WithEntryImage(es0, e, n - |data0|, data, last, q, n);
      WithEntryNames(es0, e);
      WithEntryStarts(es0, e);
      data := SetOff(data, last, q);
      data := Write(data, q, Record(ino, n, name, kind));
      nlink := nlink + 1;
      es := WithEntry(es0, e);
      err := 0;
    }

    /** `incore_unlink_entry`; it asserts that the record is not one of the first two. */
    method UnlinkEntry(name: string) returns (err: int)
      requires Valid() && NUL !in name && !Reserved(name)
      modifies this
      ensures Valid()
      ensures err == if old(Find(es, name)).Some? then 0 else -ENOENT
      ensures forall n :: Find(es, n) == if n == name then None else old(Find(es, n))
      ensures nlink == old(nlink) - (if err == 0 then 1 else 0) && |data| == |old(data)|
    {
      hide Roomy, Image, Find, Distinct, Offset, RecLen, Record, Zeros, WithoutEntry, Write, SetOff, DOT, DOTDOT;
      var found, p, last, i := Probe(name);
      if !found {
        return -ENOENT;
      }
      assert i >= 2;
      RecordAt(i);
      OffsetNext(es, i);
      WithoutEntryImage(es, i, data, last, p, Offset(es, i + 1));
      WithoutEntryNames(es, i);
      WithoutEntryStarts(es, i);
      var off := data[p].off;
      var reclen := off - p;
      data := Write(data, p, Zeros(reclen));
      data := SetOff(data, last, off);
      nlink := nlink - 1;
      es := WithoutEntry(es, i);
      err := 0;
    }

    /** The test of `_sysio_incore_dirop_rmdir` finds exactly the directories in which nothing is. */
    method IsEmpty() returns (empty: bool)
      requires Valid()
      ensures empty <==> forall n :: Reserved(n) || Find(es, n).None?
    {
      hide Find, Distinct, Roomy, Image;
      empty := !(nlink > 2);
      OnlyReserved(es);
    }

    /** Any run: every call returns what the history calls for, lookups find the i-node last
        inserted and not removed, and the link count is the number of names in use. */
    method Run(ops: seq<Op>, ghost first: map<string, Node>) returns (results: seq<int>)
      requires Valid() && Follows(es, first, [])
      requires forall i :: 0 <= i < |ops| ==> NUL !in ops[i].name && (ops[i].Unlink? ==> !Reserved(ops[i].name))
      modifies this
      ensures Valid() && Follows(es, first, ops) && nlink == Live(first, ops)
      ensures |results| == |ops| && forall i :: 0 <= i < |ops| ==> results[i] == Result(first, ops[..i], ops[i])
    {
      hide Follows, Result, Owner, Live, Roomy, Distinct, Image, Starts;
      results := [];
      for i := 0 to |ops|
        invariant Valid() && Follows(es, first, ops[..i])
        invariant |results| == i && forall j :: 0 <= j < i ==> results[j] == Result(first, ops[..j], ops[j])
      {
        var err := Do(first, ops[..i], ops[i]);
        assert ops[..i + 1] == ops[..i] + [ops[i]];
        results := results + [err];
      }
      assert ops[..|ops|] == ops;
      LinksAreLive(es, first, ops);
    }

    method Do(ghost first: map<string, Node>, ghost before: seq<Op>, op: Op) returns (err: int)
      requires Valid() && Follows(es, first, before)
      requires NUL !in op.name && (op.Unlink? ==> !Reserved(op.name))
      modifies this
      ensures Valid() && Follows(es, first, before + [op]) && err == Result(first, before, op)
    {
      hide Roomy, Image, Distinct;
      assert (before + [op])[..|before|] == before;
      match op {
        case Insert(name, ino, kind) => err := InsertEntry(name, ino, kind);
        case Unlink(name) => err := UnlinkEntry(name);
      }
    }
  }

  ghost predicate Starts(es: seq<Entry>) { |es| >= 2 && es[0].name == DOT && es[1].name == DOTDOT }

  lemma Template(ino: nat, parent: nat, kind: nat)
    ensures var es := [Entry(ino, DOT, kind, 24), Entry(parent, DOTDOT, kind, 24)];
            && Roomy(es) && Distinct(es) && Starts(es) && Follows(es, Dots(ino, parent, kind), [])
            && Image(es, 0) == Record(ino, 24, DOT, kind) + Zeros(4) + Record(parent, 48, DOTDOT, kind) + Zeros(2)
  {
    var (x, y) := (Entry(ino, DOT, kind, 24), Entry(parent, DOTDOT, kind, 24));
    TwoBlocks(x, y, 0);
    hide Record, Zeros;
    assert [x, y][1..] == [y] && [y][1..] == [];
    assert DOTDOT != DOT;
    var none: seq<Entry> := [];
    assert Distinct(none) && Find(none, DOTDOT).None? && [y][1..] == none;
    assert Find([y], DOTDOT) == Some(Node(parent, kind)) && Find([y], DOT) == Find(none, DOT) == None;
    assert Distinct([y]) && Find([x, y][1..], DOT).None? && Distinct([x, y]);
    forall n
      ensures Find([x, y], n) == if n == DOT then Some(NodeOf(x)) else if n == DOTDOT then Some(NodeOf(y)) else None
    {
      assert Find([y], n) == if n == DOTDOT then Some(NodeOf(y)) else None;
    }
  }

  lemma SameChars(a: string, b: string)
    ensures |a| == |b| && Chars(a) == Chars(b) <==> a == b
  {
    if |a| == |b| && Chars(a) == Chars(b) {
      forall i | 0 <= i < |a| ensures a[i] == b[i] {
        assert Chars(a)[i] == Chars(b)[i];
      }
    }
  }

  lemma NameInBlock(e: Entry, at: nat)
    requires RecLen(|e.name|) <= e.span
    ensures |Block(e, at)| == e.span > HEADER + |e.name|
    ensures Block(e, at)[HEADER..HEADER + |e.name|] == Chars(e.name)
  {
    hide Zeros, RecLen;
    var (record, gap) := (Record(e.ino, at + e.span, e.name, e.kind), Zeros(e.span - HEADER - |e.name|));
    assert record == record[..HEADER] + Chars(e.name);
    Assoc(record[..HEADER], Chars(e.name), gap);
    Slices(record[..HEADER], Chars(e.name), gap);
  }

  lemma SliceOfSlice(data: seq<Cell>, lo: nat, hi: nat, i: nat, j: nat)
    requires lo <= hi <= |data| && i <= j <= hi - lo
    ensures data[lo + i..lo + j] == data[lo..hi][i..j]
  {
    var (a, b) := (data[lo + i..lo + j], data[lo..hi][i..j]);
    forall k | 0 <= k < j - i ensures a[k] == b[k] {
      assert b[k] == data[lo..hi][i + k] == data[lo + i + k];
    }
  }

  lemma OffsetZero(es: seq<Entry>)
    ensures Offset(es, 0) == 0
  {
  }

  lemma {:induction false} NotThere(es: seq<Entry>, name: string)
    requires forall j :: 0 <= j < |es| ==> es[j].name != name
    ensures Find(es, name).None?
  {
    if es != [] {
      NotThere(es[1..], name);
    }
  }

  lemma NoZeros(data: seq<Cell>)
    ensures data + Zeros(0) == data
  {
  }

  lemma WithEntryStarts(es: seq<Entry>, e: Entry)
    requires Starts(es)
    ensures Starts(WithEntry(es, e)) && |WithEntry(es, e)| == |es| + 1 && WithEntry(es, e)[|es|] == e
  {
  }

  lemma WithoutEntryStarts(es: seq<Entry>, i: nat)
    requires Starts(es) && 2 <= i < |es|
    ensures Starts(WithoutEntry(es, i))
  {
  }

  lemma {:induction false} DistinctAt(es: seq<Entry>, i: nat, j: nat)
    requires Distinct(es) && i < j < |es|
    ensures es[i].name != es[j].name
  {
    if i == 0 {
      FindAt(es[1..], j - 1);
    } else {
      DistinctAt(es[1..], i - 1, j - 1);
    }
  }

  lemma OnlyTwo(es: seq<Entry>, n: string)
    requires Starts(es) && |es| == 2 && !Reserved(n)
    ensures Find(es, n).None?
  {
    hide DOT, DOTDOT;
    assert es[1..][1..] == [];
    assert Find(es, n) == Find(es[1..], n) == Find(es[1..][1..], n);
  }

  lemma OnlyReserved(es: seq<Entry>)
    requires Starts(es) && Distinct(es)
    ensures |es| <= 2 ==> forall n :: Reserved(n) || Find(es, n).None?
    ensures |es| > 2 ==> !Reserved(es[2].name) && Find(es, es[2].name).Some?
  {
    hide Find, Distinct, DOT, DOTDOT;
    if |es| == 2 {
      forall n ensures Reserved(n) || Find(es, n).None? {
        if !Reserved(n) {
          OnlyTwo(es, n);
        }
      }
    } else {
      FindAt(es, 2);
      DistinctAt(es, 0, 2);
      DistinctAt(es, 1, 2);
    }
  }

  lemma LinksAreLive(es: seq<Entry>, first: map<string, Node>, ops: seq<Op>)
    requires Follows(es, first, ops)
    ensures |es| == Live(first, ops)
  {
  }

  /** A new directory has no `..`: it is not found, and it can be inserted. */
  method DotDotIsNotThere(ino: nat, parent: nat, kind: nat, other: nat) returns (found: Option<nat>, err: int)
    ensures found.None? && err == 0
  {
    var d := new Directory(ino, parent, kind);
    assert Owner(Dots(ino, parent, kind), [], "..").None?;
    found := d.Lookup("..");
    err := d.InsertEntry("..", other, kind);
  }
}
