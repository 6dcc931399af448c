/**
 The in-core driver's regular files (drivers/incore/fs_incore.c): a byte buffer that is
 reallocated and overwritten, and the two callbacks that `_sysio_doio` drives.
 */
module IncoreFile {
  import opened Basics
  import opened Reconcile

  // A byte of the buffer; `realloc` leaves what it adds uninitialised.
  datatype Cell = Raw | B(b: Byte)

  type Data = seq<Cell>

  // ---------------------------------------------------------------------------------
  // What the operations do to the buffer
  // ---------------------------------------------------------------------------------

  function Cells(n: nat, c: Cell): (d: Data)
    ensures |d| == n && forall i :: 0 <= i < n ==> d[i] == c
  {
    seq(n, _ => c)
  }

  /** `incore_trunc`: `realloc` keeps the common prefix; `clear` zeroes what was added. */
  function TruncData(d: Data, size: int, clear: bool): (r: (Data, int))
    ensures size < 0 ==> r == (d, -EINVAL)
    ensures size >= 0 ==> r.1 == 0 && |r.0| == size
    ensures forall i :: 0 <= i < |d| && i < size ==> r.0[i] == d[i]
    ensures clear ==> forall i :: |d| <= i < size ==> r.0[i] == B(0)
  {
    if size < 0 then (d, -EINVAL)
    else if size <= |d| then (d[..size], 0)
    else (d + Cells(size - |d|, if clear then B(0) else Raw), 0)
  }

  /** `incore_write`: refuses a hole, grows to exactly the end of the write, overwrites. */
  function WriteData(d: Data, bytes: seq<Byte>, off: int): (r: (Data, int))
    ensures off < 0 ==> r == (d, -EINVAL)
    ensures off >= 0 && (bytes == [] || off > |d|) ==> r == (d, 0)
    ensures 0 <= off <= |d| && bytes != [] ==>
              r.1 == |bytes| && |r.0| == (if off + |bytes| > |d| then off + |bytes| else |d|) &&
              forall i :: 0 <= i < |r.0| ==>
                r.0[i] == if off <= i < off + |bytes| then B(bytes[i - off]) else d[i]
  {
    if off < 0 then (d, -EINVAL)
    else if bytes == [] || off > |d| then (d, 0)
    else
      var pos := off + |bytes|;
      var g := if pos > |d| then TruncData(d, pos, false).0 else d;
      (g[..off] + seq(|bytes|, i requires 0 <= i < |bytes| => B(bytes[i])) + g[pos..], |bytes|)
  }

  /** `incore_read`: how many bytes there are from `off` on, at most `n`. */
  function ReadCount(d: Data, n: nat, off: int): int {
    if off < 0 then -EINVAL
    else if n == 0 || off > |d| then 0
    else Min(n, |d| - off)
  }

  class IncoreInode {
    var data: Data        // ici_data; its length is st_size
    var blocks: nat
    const blksize: nat

    ghost predicate Valid()
      reads this
    {
      blksize > 0
    }

    constructor (blksize: nat)
      requires blksize > 0
      ensures Valid() && data == []
    {
      data, blocks, this.blksize := [], 0, blksize;
    }

    method Trunc(size: int, clear: bool) returns (err: int)
      requires Valid()
      modifies this
      ensures Valid() && (data, err) == TruncData(old(data), size, clear)
      ensures err == 0 ==> |data| <= blocks * blksize < |data| + blksize
      ensures err != 0 ==> blocks == old(blocks)
    {
      if size < 0 {
        return -EINVAL;
      }
      if size == 0 {
        data := [];
      } else if size <= |data| {
        data := data[..size];
      } else {
        var add := size - |data|;
        data := data + Cells(add, Raw);
        if clear {
          data := data[..size - add] + Cells(add, B(0));
        }
      }
      blocks := (size + blksize - 1) / blksize;
      return 0;
    }

    method Write(bytes: seq<Byte>, off: int) returns (cc: int)
      requires Valid()
      modifies this
      ensures Valid() && (data, cc) == WriteData(old(data), bytes, off)
    {
      if off < 0 {
        return -EINVAL;
      }
      if bytes == [] || off > |data| {
        return 0;
      }
      var pos := off + |bytes|;
      if pos > |data| {
        var err := Trunc(pos, false);
      }
      data := data[..off] + seq(|bytes|, i requires 0 <= i < |bytes| => B(bytes[i])) + data[pos..];
      return |bytes|;
    }

    method Read(n: nat, off: int) returns (cc: int, buf: Data)
      ensures cc == ReadCount(data, n, off)
      ensures |buf| == if cc > 0 then cc else 0
      ensures forall i :: 0 <= i < |buf| ==> buf[i] == data[off + i]
    {
      if off < 0 {
        return -EINVAL, [];
      }
      if n == 0 || off > |data| {
        return 0, [];
      }
      cc := |data| - off;
      if cc > n {
        cc := n;
      }
      buf := data[off..off + cc];
    }
  }

  // ---------------------------------------------------------------------------------
  // Every byte below st_size is the last one written there, or a zero
  // ---------------------------------------------------------------------------------

  // The calls that change a file: `incore_write`, and `incore_trunc` from setattr (which clears).
  datatype Op = Write(bytes: seq<Byte>, off: int) | Truncate(size: int)

  function Run(h: seq<Op>): Data {
    if h == [] then []
    else
      var d := Run(h[..|h| - 1]);
      match h[|h| - 1]
      case Write(bytes, off) => WriteData(d, bytes, off).0
      case Truncate(size) => TruncData(d, size, true).0
  }

  // The history read backwards, without any buffer: how long the file is, ...
  function SizeOf(h: seq<Op>): nat {
    if h == [] then 0
    else
      var n := SizeOf(h[..|h| - 1]);
      match h[|h| - 1]
      case Write(bytes, off) => if 0 <= off <= n && off + |bytes| > n then off + |bytes| else n
      case Truncate(size) => if size >= 0 then size else n
  }

  // ... and the byte last written at `i`, or zero if the file was last cut off in front of it.
  function LastByte(h: seq<Op>, i: nat): Byte {
    if h == [] then 0
    else
      var p := h[..|h| - 1];
      match h[|h| - 1]
      case Write(bytes, off) =>
        if 0 <= off <= SizeOf(p) && off <= i < off + |bytes| then bytes[i - off] else LastByte(p, i)
      case Truncate(size) => if 0 <= size <= i then 0 else LastByte(p, i)
  }

  /** After any history the file is as long as its history says, and every byte of it is the
      last one written there or a zero: what `realloc` left uninitialised is never kept. */
  lemma {:induction false} ContentsAreHistory(h: seq<Op>)
    ensures |Run(h)| == SizeOf(h)
    ensures forall i: nat :: i < SizeOf(h) ==> Run(h)[i] == B(LastByte(h, i))
    ensures forall i: nat :: i >= SizeOf(h) ==> LastByte(h, i) == 0
  {
    if h != [] {
      ContentsAreHistory(h[..|h| - 1]);
    }
  }

  // ---------------------------------------------------------------------------------
  // The two driver callbacks
  // ---------------------------------------------------------------------------------

  type Memory = int -> Byte

  function Fetch(m: Memory, base: int, n: nat): (r: seq<Byte>)
    ensures |r| == n && forall i :: 0 <= i < n ==> r[i] == m(base + i)
  {
    seq(n, i => m(base + i))
  }

  // `incore_write` as a driver: it takes its bytes from memory and changes the file.
  function Writer(m: Memory): Driver<Data> {
    (d: Data, base: int, n: nat, off: int) => WriteData(d, Fetch(m, base, n), off)
  }

  // `incore_read` as a driver: the file stays, the caller's memory changes.
  function Reader(d: Data): Driver<map<int, Cell>> {
    (m: map<int, Cell>, base: int, n: nat, off: int) =>
      var cc := ReadCount(d, n, off);
      (if cc > 0 then Store(m, base, d[off..off + cc]) else m, cc)
  }

  function Store(m: map<int, Cell>, base: int, cells: seq<Cell>): map<int, Cell>
    decreases |cells|
  {
    if cells == [] then m else Store(m[base := cells[0]], base + 1, cells[1..])
  }

  lemma BothHonest(m: Memory, d: Data)
    ensures Honest(Writer(m)) && Honest(Reader(d))
  {
  }

  lemma {:induction false} RangeAt(start: int, len: nat, i: nat)
    requires i < len
    ensures Range(start, len)[i] == start + i
    decreases i
  {
    if i > 0 {
      RangeAt(start + 1, len - 1, i - 1);
    }
  }

  lemma {:induction false} Stored(m: map<int, Cell>, base: int, cells: seq<Cell>)
    ensures forall a :: base <= a < base + |cells| ==>
              a in Store(m, base, cells) && Store(m, base, cells)[a] == cells[a - base]
    ensures forall a :: a in m && !(base <= a < base + |cells|) ==>
              a in Store(m, base, cells) && Store(m, base, cells)[a] == m[a]
    decreases |cells|
  {
    if cells != [] {
      Stored(m[base := cells[0]], base + 1, cells[1..]);
    }
  }

  // No later place of the stream names what place `i` names.
  predicate Last(stream: seq<int>, i: nat)
    requires i < |stream|
  {
    forall j :: i < j < |stream| ==> stream[j] != stream[i]
  }

  // An element of a stream that is longer by a range.
  lemma AppendedAt(stream: seq<int>, start: int, len: nat, i: nat)
    requires i < |stream| + len
    ensures (stream + Range(start, len))[i] == if i < |stream| then stream[i] else start + (i - |stream|)
  {
    if i >= |stream| {
      RangeAt(start, len, i - |stream|);
    }
  }

  lemma LastAvoids(stream: seq<int>, start: int, len: nat, i: nat, k: nat)
    requires i < |stream| && Last(stream + Range(start, len), i) && k < len
    ensures stream[i] != start + k
  {
    AppendedAt(stream, start, len, |stream| + k);
  }

  // What `Last` becomes when the stream is longer by a range.
  lemma LastInPrefix(stream: seq<int>, start: int, len: nat, i: nat)
    requires i < |stream| && Last(stream + Range(start, len), i)
    ensures Last(stream, i) && !(start <= stream[i] < start + len)
  {
    var all := stream + Range(start, len);
    forall j | i < j < |stream|
      ensures stream[j] != stream[i]
    {
      assert all[j] == stream[j];
    }
    if start <= stream[i] < start + len {
      LastAvoids(stream, start, len, i, stream[i] - start);
    }
  }

  // What a run of writes has established: `file` was written from `mem`, last writer wins.
  ghost predicate Written(m: Memory, d: Data, mem: seq<int>, file: seq<int>) {
    |mem| == |file| &&
    forall i :: 0 <= i < |file| ==>
      0 <= file[i] < |d| && (Last(file, i) ==> d[file[i]] == B(m(mem[i])))
  }

  // `d'` is `d` with `n` bytes of memory written over it, at `off`.
  ghost predicate Overwritten(m: Memory, d: Data, d': Data, base: int, n: nat, off: int) {
    && 0 <= off <= |d| <= |d'| && off + n <= |d'|
    && (forall x :: off <= x < off + n ==> d'[x] == B(m(base + (x - off))))
    && (forall x :: 0 <= x < |d| && !(off <= x < off + n) ==> d'[x] == d[x])
  }

  lemma Overwrites(m: Memory, d: Data, base: int, n: nat, off: int)
    requires n > 0 && 0 <= off <= |d|
    ensures Overwritten(m, d, WriteData(d, Fetch(m, base, n), off).0, base, n, off)
  {
    assert Fetch(m, base, n) != [];
    hide WriteData;
  }

  lemma WrittenMore(m: Memory, d: Data, mem: seq<int>, file: seq<int>, base: int, n: nat, off: int)
    requires Written(m, d, mem, file) && n > 0 && 0 <= off <= |d|
    ensures Written(m, WriteData(d, Fetch(m, base, n), off).0, mem + Range(base, n), file + Range(off, n))
  {
    hide WriteData, Overwritten, Last, Range, Fetch;
    var d' := WriteData(d, Fetch(m, base, n), off).0;
    Overwrites(m, d, base, n, off);
    var (mem', file') := (mem + Range(base, n), file + Range(off, n));
    forall i | 0 <= i < |file'|
      ensures 0 <= file'[i] < |d'| && (Last(file', i) ==> d'[file'[i]] == B(m(mem'[i])))
    {
      AppendedAt(file, off, n, i);
      AppendedAt(mem, base, n, i);
      if i < |file| {
        WrittenBefore(m, d, d', mem, file, base, n, off, i);
      } else {
        WrittenNow(m, d, d', base, n, off, i - |file|);
      }
    }
  }

  lemma WrittenBefore(m: Memory, d: Data, d': Data, mem: seq<int>, file: seq<int>, base: int, n: nat, off: int, i: nat)
    requires Written(m, d, mem, file) && Overwritten(m, d, d', base, n, off) && i < |file|
    ensures 0 <= file[i] < |d'| && (Last(file + Range(off, n), i) ==> d'[file[i]] == B(m(mem[i])))
  {
    hide Last;
    if Last(file + Range(off, n), i) {
      LastInPrefix(file, off, n, i);
    }
  }

  lemma WrittenNow(m: Memory, d: Data, d': Data, base: int, n: nat, off: int, k: nat)
    requires Overwritten(m, d, d', base, n, off) && k < n
    ensures off + k < |d'| && d'[off + k] == B(m(base + k))
  {
  }

  /** A run of `incore_write` calls: the file never shrinks, every byte written is inside it,
      and holds what the last call to write there took from memory. */
  lemma {:induction false} WriteTrace(m: Memory, d: Data, t: Trace)
    requires Genuine(Writer(m), d, t)
    ensures |After(Writer(m), d, t)| >= |d|
    ensures Written(m, After(Writer(m), d, t), MemMoved(t), FileMoved(t))
    ensures EndsShort(t) ==> t.call.cc <= 0 &&
                             if t.call.off < 0 then t.call.cc == -EINVAL
                             else t.call.cc == 0 && t.call.off > |After(Writer(m), d, t)|
  {
    if t.Then? {
      var (p, c) := (t.before, t.call);
      WriteTrace(m, d, p);
      var d1 := After(Writer(m), d, p);
      assert After(Writer(m), d, t) == WriteData(d1, Fetch(m, c.base, c.n), c.off).0;
      assert c.cc == WriteData(d1, Fetch(m, c.base, c.n), c.off).1;
      assert Fetch(m, c.base, c.n) != [];
      hide WriteData;
      if c.cc > 0 {
        WrittenMore(m, d1, MemMoved(p), FileMoved(p), c.base, c.n, c.off);
      } else {
        NothingMore(MemMoved(p));
        NothingMore(FileMoved(p));
      }
    }
  }

  // What a run of reads has established: memory holds what `file` names, last store wins.
  ghost predicate Delivered(d: Data, m: map<int, Cell>, mem: seq<int>, file: seq<int>) {
    |mem| == |file| &&
    forall i :: 0 <= i < |file| ==>
      0 <= file[i] < |d| && (Last(mem, i) ==> mem[i] in m && m[mem[i]] == d[file[i]])
  }

  lemma DeliveredMore(d: Data, m: map<int, Cell>, mem: seq<int>, file: seq<int>, base: int, n: nat, off: int)
    requires Delivered(d, m, mem, file) && n > 0 && 0 <= off && off + n <= |d|
    ensures Delivered(d, Store(m, base, d[off..off + n]), mem + Range(base, n), file + Range(off, n))
  {
    var m' := Store(m, base, d[off..off + n]);
    Stored(m, base, d[off..off + n]);
    hide Store;
    var (mem', file') := (mem + Range(base, n), file + Range(off, n));
    forall i | 0 <= i < |file'|
      ensures 0 <= file'[i] < |d| && (Last(mem', i) ==> mem'[i] in m' && m'[mem'[i]] == d[file'[i]])
    {
      AppendedAt(file, off, n, i);
      AppendedAt(mem, base, n, i);
      if i < |file| && Last(mem', i) {
        LastInPrefix(mem, base, n, i);
      }
    }
  }

  /** A run of `incore_read` calls: every byte read is inside the file, and the caller's memory
      holds, at every address, what the last call to store there found in the file. */
  lemma {:induction false} ReadTrace(d: Data, m: map<int, Cell>, t: Trace)
    requires Genuine(Reader(d), m, t)
    ensures Delivered(d, After(Reader(d), m, t), MemMoved(t), FileMoved(t))
    ensures EndsShort(t) ==> var at := t.call.off + Count(t.call);
                             (t.call.cc <= 0 ==> t.call.cc == if t.call.off < 0 then -EINVAL else 0) &&
                             (at < 0 || at >= |d|)
  {
    if t.Then? {
      var (p, c) := (t.before, t.call);
      ReadTrace(d, m, p);
      hide Store, Delivered;
      assert After(Reader(d), m, t) ==
          if c.cc > 0 then Store(After(Reader(d), m, p), c.base, d[c.off..c.off + c.cc]) else After(Reader(d), m, p);
      if c.cc > 0 {
        DeliveredMore(d, After(Reader(d), m, p), MemMoved(p), FileMoved(p), c.base, c.cc, c.off);
      } else {
        NothingMore(MemMoved(p));
        NothingMore(FileMoved(p));
      }
    } else {
      assert Delivered(d, m, [], []);
    }
  }

  // ---------------------------------------------------------------------------------
  // Written through the strided interface, read back through it
  // ---------------------------------------------------------------------------------

  // Segment vectors of the same shape: the same lengths, wherever they are in memory.
  predicate SameShape(iov: seq<Segment>, iov': seq<Segment>) {
    |iov| == |iov'| && forall i :: 0 <= i < |iov| ==> iov[i].len == iov'[i].len
  }

  lemma {:induction false} ShapeDecidesLength(iov: seq<Segment>, iov': seq<Segment>)
    requires SameShape(iov, iov')
    ensures |MemBytes(iov)| == |MemBytes(iov')|
  {
    if iov != [] {
      ShapeDecidesLength(iov[1..], iov'[1..]);
    }
  }

  lemma {:induction false} ShapeDecidesFit(iov: seq<Segment>, iov': seq<Segment>, n: nat)
    requires SameShape(iov, iov')
    ensures FitStop(iov, n) == FitStop(iov', n)
  {
    if iov != [] && iov[0].len <= n {
      ShapeDecidesFit(iov[1..], iov'[1..], n - iov[0].len);
    }
  }

  lemma ShapeOfParts(iov: seq<Segment>, iov': seq<Segment>, n: nat)
    requires SameShape(iov, iov')
    ensures var g := FitStop(iov, n);
            FitStop(iov', n) == g && SameShape(iov[g..], iov'[g..]) &&
            |MemBytes(iov[..g])| == |MemBytes(iov'[..g])|
    ensures iov != [] ==> iov[0].len == iov'[0].len && SameShape(iov[1..], iov'[1..])
  {
    ShapeDecidesFit(iov, iov', n);
    ShapeDecidesLength(iov[..FitStop(iov, n)], iov'[..FitStop(iov, n)]);
  }

  lemma {:induction false} ShapeDecidesReach(run: nat, xtv: seq<Extent>, res: nat, iov: seq<Segment>,
                                             iov': seq<Segment>)
    requires SameShape(iov, iov')
    ensures Reach(run, xtv, res, iov) == Reach(run, xtv, res, iov')
    decreases |xtv| + |iov|, run + res, 1
  {
    assert |iov| == |iov'|;
    hide MemBytes, FileBytes, FitStop, RunStop, SameShape, Reach;
    ReachEnd(run, xtv);
    if run == 0 {
      if xtv != [] {
        ReachRun(xtv, res, iov);
        ReachRun(xtv, res, iov');
        var e := 1 + RunStop(xtv[1..], xtv[0].off + xtv[0].len);
        ShapeDecidesReach(|FileBytes(xtv[..e])|, xtv[e..], res, iov, iov');
      }
    } else if res > 0 {
      ReachSplit(run, xtv, res, iov, Min(run, res));
      ReachSplit(run, xtv, res, iov', Min(run, res));
      ShapeDecidesReach(run - Min(run, res), xtv, res - Min(run, res), iov, iov');
    } else if iov != [] {
      ShapeDecidesGroup(run, xtv, iov, iov');
    }
  }

  lemma {:induction false} ShapeDecidesGroup(run: nat, xtv: seq<Extent>, iov: seq<Segment>, iov': seq<Segment>)
    requires SameShape(iov, iov') && run > 0 && iov != [] && |iov| == |iov'|
    ensures Reach(run, xtv, 0, iov) == Reach(run, xtv, 0, iov')
    decreases |xtv| + |iov|, run, 0
  {
    hide MemBytes, FileBytes, FitStop, RunStop, SameShape, Reach;
    ReachGroup(run, xtv, iov);
    ReachGroup(run, xtv, iov');
    ShapeOfParts(iov, iov', run);
    var g := FitStop(iov, run);
    if g == 0 {
      ShapeDecidesReach(run, xtv, iov[0].len, iov[1..], iov'[1..]);
    } else if |MemBytes(iov[..g])| > 0 {
      ShapeDecidesReach(run - |MemBytes(iov[..g])|, xtv, 0, iov[g..], iov'[g..]);
    }
  }

  function Positive(r: int): nat { if r > 0 then r else 0 }

  // Every byte written is inside the file, and a write stops only outside it.
  lemma WriteStops(xtv: seq<Extent>, iov: seq<Segment>, m: Memory, d: Data, r: int, d': Data, t: Trace)
    requires Outcome(Writer(m), d, xtv, iov, r, d', t)
    ensures var (k, file) := (Positive(r), FileBytes(xtv));
            k <= |file| && (forall i :: 0 <= i < k ==> 0 <= file[i] < |d'|) &&
            (k < Reach(0, xtv, 0, iov) ==> k < |file| && (file[k] < 0 || file[k] > |d'|)) &&
            (r <= 0 ==> r == if k < Reach(0, xtv, 0, iov) && file[0] < 0 then -EINVAL else 0)
  {
    WriteTrace(m, d, t);
    var (k, file) := (Positive(r), FileBytes(xtv));
    forall i | 0 <= i < k
      ensures 0 <= file[i] < |d'|
    {
      assert FileMoved(t)[i] == file[i];
    }
  }

  // Every byte read is inside the file, and a read stops only outside it.
  lemma ReadStops(xtv: seq<Extent>, iov: seq<Segment>, d: Data, m: map<int, Cell>, r: int, m': map<int, Cell>, t: Trace)
    requires Outcome(Reader(d), m, xtv, iov, r, m', t)
    ensures var (k, file) := (Positive(r), FileBytes(xtv));
            k <= |file| && (forall i :: 0 <= i < k ==> 0 <= file[i] < |d|) &&
            (k < Reach(0, xtv, 0, iov) ==> k < |file| && (file[k] < 0 || file[k] >= |d|)) &&
            (r <= 0 ==> r == if k < Reach(0, xtv, 0, iov) && file[0] < 0 then -EINVAL else 0)
  {
    ReadTrace(d, m, t);
    var (k, file) := (Positive(r), FileBytes(xtv));
    forall i | 0 <= i < k
      ensures 0 <= file[i] < |d|
    {
      assert FileMoved(t)[i] == file[i];
    }
  }

  /** Write through `_sysio_doio`, then read the same extents into segments of the same shape:
      the counts (or the errors) agree, even if the write stopped at a hole. */
  lemma SameCount(xtv: seq<Extent>, iov: seq<Segment>, iov': seq<Segment>, m: Memory, d: Data, m': map<int, Cell>,
                  rw: int, dw: Data, tw: Trace, rr: int, mr: map<int, Cell>, tr: Trace)
    requires SameShape(iov, iov')
    requires Outcome(Writer(m), d, xtv, iov, rw, dw, tw)
    requires Outcome(Reader(dw), m', xtv, iov', rr, mr, tr)
    ensures rr == rw
  {
    ShapeDecidesReach(0, xtv, 0, iov, iov');
    WriteStops(xtv, iov, m, d, rw, dw, tw);
    ReadStops(xtv, iov', dw, m', rr, mr, tr);
  }

  function Take<T>(s: seq<T>, n: int): (r: seq<T>)
    ensures 0 <= n <= |s| ==> r == s[..n]
  {
    if 0 <= n <= |s| then s[..n] else s
  }

  /** ... and the bytes agree wherever no later byte of the extents, or of the destination,
      falls on the same place: with disjoint extents and segments that is everywhere. */
  lemma ReadsBackWhatWasWritten(xtv: seq<Extent>, iov: seq<Segment>, iov': seq<Segment>,
                                m: Memory, d: Data, m': map<int, Cell>,
                                rw: int, dw: Data, tw: Trace, rr: int, mr: map<int, Cell>, tr: Trace, i: nat)
    requires SameShape(iov, iov')
    requires Outcome(Writer(m), d, xtv, iov, rw, dw, tw)
    requires Outcome(Reader(dw), m', xtv, iov', rr, mr, tr)
    requires i < rw && i < |Take(MemBytes(iov'), rw)|
    requires Last(Take(FileBytes(xtv), rw), i) && Last(Take(MemBytes(iov'), rw), i)
    ensures var a := MemBytes(iov')[i]; a in mr && mr[a] == B(m(MemBytes(iov)[i]))
  {
    SameCount(xtv, iov, iov', m, d, m', rw, dw, tw, rr, mr, tr);
    WriteTrace(m, d, tw);
    ReadTrace(dw, m', tr);
  }

  predicate Disjoint(xtv: seq<Extent>) {
    forall i, j :: 0 <= i < j < |xtv| ==>
      xtv[i].off + xtv[i].len <= xtv[j].off || xtv[j].off + xtv[j].len <= xtv[i].off
  }

  lemma {:induction false} InSomeExtent(xtv: seq<Extent>, k: nat)
    requires k < |FileBytes(xtv)|
    ensures exists x :: 0 <= x < |xtv| && xtv[x].off <= FileBytes(xtv)[k] < xtv[x].off + xtv[x].len
  {
    if k < xtv[0].len {
      RangeAt(xtv[0].off, xtv[0].len, k);
    } else {
      InSomeExtent(xtv[1..], k - xtv[0].len);
      var x :| 0 <= x < |xtv[1..]| &&
          xtv[1..][x].off <= FileBytes(xtv[1..])[k - xtv[0].len] < xtv[1..][x].off + xtv[1..][x].len;
      assert xtv[x + 1] == xtv[1..][x];
    }
  }

  lemma {:induction false} DisjointExtentsNameOnce(xtv: seq<Extent>, i: nat, j: nat)
    requires Disjoint(xtv) && i < j < |FileBytes(xtv)|
    ensures FileBytes(xtv)[i] != FileBytes(xtv)[j]
  {
    var (e, rest) := (xtv[0], xtv[1..]);
    if i < e.len {
      RangeAt(e.off, e.len, i);
      if j < e.len {
        RangeAt(e.off, e.len, j);
      } else {
        InSomeExtent(rest, j - e.len);
        var x :| 0 <= x < |rest| && rest[x].off <= FileBytes(rest)[j - e.len] < rest[x].off + rest[x].len;
        assert xtv[x + 1] == rest[x];
      }
    } else {
      DisjointExtentsNameOnce(rest, i - e.len, j - e.len);
    }
  }

  // The same ranges, read as extents.
  function AsExtents(iov: seq<Segment>): seq<Extent> {
    seq(|iov|, i requires 0 <= i < |iov| => Extent(iov[i].base, iov[i].len))
  }

  lemma {:induction false} SameRanges(iov: seq<Segment>)
    ensures FileBytes(AsExtents(iov)) == MemBytes(iov)
  {
    if iov != [] {
      assert AsExtents(iov)[1..] == AsExtents(iov[1..]);
      SameRanges(iov[1..]);
    }
  }

  lemma DisjointMakesLast(xtv: seq<Extent>, k: int, i: nat)
    requires Disjoint(xtv) && i < k <= |FileBytes(xtv)|
    ensures Last(Take(FileBytes(xtv), k), i)
  {
    forall j | i < j < k
      ensures FileBytes(xtv)[j] != FileBytes(xtv)[i]
    {
      DisjointExtentsNameOnce(xtv, i, j);
    }
  }

  /** The round trip: pairwise disjoint extents, pairwise disjoint destination segments of the
      same shape as the source; both transfers return the same, and every byte written is
      back, in order, wherever the write stopped. */
  lemma RoundTrip(xtv: seq<Extent>, iov: seq<Segment>, iov': seq<Segment>, m: Memory, d: Data, m': map<int, Cell>,
                  rw: int, dw: Data, tw: Trace, rr: int, mr: map<int, Cell>, tr: Trace)
    requires Disjoint(xtv) && Disjoint(AsExtents(iov')) && SameShape(iov, iov')
    requires Outcome(Writer(m), d, xtv, iov, rw, dw, tw)
    requires Outcome(Reader(dw), m', xtv, iov', rr, mr, tr)
    ensures rr == rw
    ensures forall i :: 0 <= i < rw && i < |MemBytes(iov)| && i < |MemBytes(iov')| ==>
              MemBytes(iov')[i] in mr && mr[MemBytes(iov')[i]] == B(m(MemBytes(iov)[i]))
  {
    SameCount(xtv, iov, iov', m, d, m', rw, dw, tw, rr, mr, tr);
    ShapeDecidesLength(iov, iov');
    SameRanges(iov');
    forall i | 0 <= i < rw && i < |MemBytes(iov)| && i < |MemBytes(iov')|
      ensures MemBytes(iov')[i] in mr && mr[MemBytes(iov')[i]] == B(m(MemBytes(iov)[i]))
    {
      DisjointMakesLast(xtv, rw, i);
      DisjointMakesLast(AsExtents(iov'), rw, i);
      ReadsBackWhatWasWritten(xtv, iov, iov', m, d, m', rw, dw, tw, rr, mr, tr, i);
    }
  }

  /** The two transfers themselves: the extents are written from one set of segments and read back
      into another of the same shape.  Count and bytes agree. */
  method WriteThenRead(xtv: seq<Extent>, iov: seq<Segment>, iov': seq<Segment>, m: Memory, d: Data, m0: map<int, Cell>)
      returns (rw: int, dw: Data, rr: int, mr: map<int, Cell>)
    requires Disjoint(xtv) && Disjoint(AsExtents(iov')) && SameShape(iov, iov')
    ensures rr == rw <= Reach(0, xtv, 0, iov) && |d| <= |dw|
    ensures forall i :: 0 <= i < rw && i < |MemBytes(iov)| && i < |MemBytes(iov')| ==>
              MemBytes(iov')[i] in mr && mr[MemBytes(iov')[i]] == B(m(MemBytes(iov)[i]))
  {
    hide Outcome, Logged, Honest;
    BothHonest(m, d);
    ghost var tw, tr, log;
    rw, dw, tw, log := DoIO(xtv, iov, Writer(m), d);
    BothHonest(m, dw);
    rr, mr, tr, log := DoIO(xtv, iov', Reader(dw), m0);
    RoundTrip(xtv, iov, iov', m, d, m0, rw, dw, tw, rr, mr, tr);
    NeverShrinks(xtv, iov, m, d, rw, dw, tw);
  }

  lemma NeverShrinks(xtv: seq<Extent>, iov: seq<Segment>, m: Memory, d: Data, r: int, d': Data, t: Trace)
    requires Outcome(Writer(m), d, xtv, iov, r, d', t)
    ensures |d| <= |d'|
  {
    WriteTrace(m, d, t);
  }
}
