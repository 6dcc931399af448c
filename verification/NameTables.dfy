/**
 The names table of the name space cache (src/inode.c): base path nodes, the hashed index over
 their names, the lists of children, and the printing of a node's path.
 */
module NameTables {
  import opened Basics

  const NAMES_TABLE_LEN := 251

  datatype Base = Base(name: string, parent: Option<nat>)

  // The hash that `_sysio_next_component` collects, an `unsigned`.
  function Hash(name: string): (h: nat)
    ensures h < 0x1_0000_0000
  {
    if name == [] then 0 else (37 * Hash(name[..|name| - 1]) + name[|name| - 1] as int) % 0x1_0000_0000
  }

  function Slot(name: string): (h: nat)
    ensures h < NAMES_TABLE_LEN
  {
    Hash(name) % NAMES_TABLE_LEN
  }

  // A scan for the named child of `parent`, first to last.
  function Scan(nodes: map<nat, Base>, list: seq<nat>, k: Base): Option<nat> {
    if list == [] then None
    else if list[0] in nodes && nodes[list[0]] == k then Some(list[0])
    else Scan(nodes, list[1..], k)
  }

  lemma {:induction false} ScanFinds(nodes: map<nat, Base>, list: seq<nat>, k: Base)
    ensures Scan(nodes, list, k).Some? <==> exists b :: b in list && b in nodes && nodes[b] == k
    ensures Scan(nodes, list, k).Some? ==>
              var b := Scan(nodes, list, k).value; b in list && b in nodes && nodes[b] == k
  {
    if list != [] {
      ScanFinds(nodes, list[1..], k);
      if exists b :: b in list && b in nodes && nodes[b] == k {
        var b :| b in list && b in nodes && nodes[b] == k;
        assert b == list[0] || b in list[1..];
      }
    }
  }

  // No two children of a node have the same name.
  ghost predicate Unique(nodes: map<nat, Base>) {
    forall a, b :: a in nodes && b in nodes && nodes[a] == nodes[b] && nodes[a].parent.Some? ==> a == b
  }

  ghost predicate Bucketed(nodes: map<nat, Base>, buckets: seq<seq<nat>>) {
    forall h, b :: 0 <= h < |buckets| ==>
      (b in buckets[h] <==> b in nodes && nodes[b].name != [] && Slot(nodes[b].name) == h)
  }

  ghost predicate Listed(nodes: map<nat, Base>, children: map<nat, seq<nat>>) {
    && (forall p :: p in nodes ==> p in children)
    && (forall p, b :: p in nodes && p in children ==> (b in children[p] <==> b in nodes && nodes[b].parent == Some(p)))
  }

  // Nodes are made after their parents, which outlive them.
  ghost predicate Rooted(nodes: map<nat, Base>) {
    forall b :: b in nodes && nodes[b].parent.Some? ==> nodes[b].parent.value in nodes && nodes[b].parent.value < b
  }

  /** Where the table answers, it answers as a scan of the children would. */
  lemma BucketAnswersAsChildren(nodes: map<nat, Base>, buckets: seq<seq<nat>>, children: map<nat, seq<nat>>,
                                parent: nat, name: string)
    requires |buckets| == NAMES_TABLE_LEN && Bucketed(nodes, buckets) && Listed(nodes, children) && Unique(nodes)
    requires parent in nodes && name != []
    ensures Scan(nodes, buckets[Slot(name)], Base(name, Some(parent))) ==
              Scan(nodes, children[parent], Base(name, Some(parent)))
  {
    var k := Base(name, Some(parent));
    ScanFinds(nodes, buckets[Slot(name)], k);
    ScanFinds(nodes, children[parent], k);
  }

  function Shelve(buckets: seq<seq<nat>>, name: string, list: seq<nat>): seq<seq<nat>>
    requires |buckets| == NAMES_TABLE_LEN
  {
    if name == [] then buckets else buckets[Slot(name) := list]
  }

  lemma Made(nodes: map<nat, Base>, buckets: seq<seq<nat>>, children: map<nat, seq<nat>>, b: nat, k: Base)
    requires |buckets| == NAMES_TABLE_LEN && b !in nodes && forall c :: c in nodes ==> c < b
    requires Bucketed(nodes, buckets) && Listed(nodes, children) && Unique(nodes) && Rooted(nodes)
    requires k.parent.Some? ==> k.parent.value in nodes && forall c :: c in nodes ==> nodes[c] != k
    ensures k.parent.Some? ==> k.parent.value in children[b := []]
    ensures var now := nodes[b := k];
            && Bucketed(now, Shelve(buckets, k.name, [b] + buckets[Slot(k.name)]))
            && Unique(now) && Rooted(now)
    ensures var kids := children[b := []];
            Listed(nodes[b := k], if k.parent.Some? then kids[k.parent.value := [b] + kids[k.parent.value]] else kids)
  {
    ListedMade(nodes, children, b, k);
    hide Slot, Listed;
  }

  lemma ListedMade(nodes: map<nat, Base>, children: map<nat, seq<nat>>, b: nat, k: Base)
    requires b !in nodes && Listed(nodes, children) && Rooted(nodes) && (k.parent.Some? ==> k.parent.value in nodes)
    ensures k.parent.Some? ==> k.parent.value in children[b := []]
    ensures var kids := children[b := []];
            Listed(nodes[b := k], if k.parent.Some? then kids[k.parent.value := [b] + kids[k.parent.value]] else kids)
  {
  }

  lemma Destroyed(nodes: map<nat, Base>, buckets: seq<seq<nat>>, children: map<nat, seq<nat>>, b: nat)
    requires |buckets| == NAMES_TABLE_LEN && b in nodes
    requires Bucketed(nodes, buckets) && Listed(nodes, children) && Unique(nodes) && Rooted(nodes)
    requires children[b] == []
    ensures nodes[b].parent.Some? ==> nodes[b].parent.value in children
    ensures var now, name := nodes - {b}, nodes[b].name;
            && Bucketed(now, Shelve(buckets, name, Without(buckets[Slot(name)], b)))
            && Unique(now) && Rooted(now)
    ensures var p := nodes[b].parent;
            Listed(nodes - {b}, if p.Some? then children[p.value := Without(children[p.value], b)] else children)
  {
    ListedDestroyed(nodes, children, b);
    hide Slot, Without, Listed;
  }

  lemma ListedDestroyed(nodes: map<nat, Base>, children: map<nat, seq<nat>>, b: nat)
    requires b in nodes && Listed(nodes, children) && Rooted(nodes) && children[b] == []
    ensures forall c :: c in nodes ==> nodes[c].parent != Some(b)
    ensures nodes[b].parent.Some? ==> nodes[b].parent.value in children
    ensures var p := nodes[b].parent;
            Listed(nodes - {b}, if p.Some? then children[p.value := Without(children[p.value], b)] else children)
  {
    hide Without;
  }

  class NameTable {
    var nodes: map<nat, Base>             // the live base nodes
    const buckets: array<seq<nat>>        // names
    var children: map<nat, seq<nat>>      // pb_children
    var nNames: nat

    ghost predicate Valid()
      reads this, buckets
    {
      && buckets.Length == NAMES_TABLE_LEN
      && Bucketed(nodes, buckets[..]) && Listed(nodes, children) && Unique(nodes) && Rooted(nodes)
      && nNames == |nodes|
    }

    constructor ()
      ensures Valid() && nodes == map[] && fresh(buckets)
    {
      nodes, children, nNames := map[], map[], 0;
      buckets := new seq<nat>[NAMES_TABLE_LEN](_ => []);
    }

    /** `_sysio_pb_new`, the allocator handing out `b`: the new node is live, and nothing else has
        changed. */
    method PbNew(b: nat, name: string, parent: Option<nat>)
      requires Valid() && (parent.Some? ==> parent.value in nodes) && (forall c :: c in nodes ==> c < b)
      requires parent.Some? ==> forall c :: c in nodes ==> nodes[c] != Base(name, parent)
      modifies this, buckets
      ensures Valid() && nodes == old(nodes)[b := Base(name, parent)] && nNames == old(nNames) + 1
    {
      hide Slot, Bucketed, Listed, Unique, Rooted;
      Made(nodes, buckets[..], children, b, Base(name, parent));
      if name != [] {
        buckets[Slot(name)] := [b] + buckets[Slot(name)];
      }
      children := children[b := []];
      if parent.Some? {
        children := children[parent.value := [b] + children[parent.value]];
      }
      nodes := nodes[b := Base(name, parent)];
      nNames := nNames + 1;
    }

    /** `pb_destroy`, of a node that has no children. */
    method PbDestroy(b: nat)
      requires Valid() && b in nodes && children[b] == []
      modifies this, buckets
      ensures Valid() && nodes == old(nodes) - {b} && nNames == old(nNames) - 1
    {
      hide Slot, Without, Bucketed, Listed, Unique, Rooted;
      Destroyed(nodes, buckets[..], children, b);
      var name, parent := nodes[b].name, nodes[b].parent;
      nNames := nNames - 1;
      if name != [] {
        buckets[Slot(name)] := Without(buckets[Slot(name)], b);
      }
      if parent.Some? {
        children := children[parent.value := Without(children[parent.value], b)];
      }
      nodes := nodes - {b};
    }

    /** The lookup of `_sysio_p_find_alias`, through the table or, for the empty name, through the
        children: either way it finds what a scan of the children finds. */
    method FindChild(parent: nat, name: string) returns (r: Option<nat>)
      requires Valid() && parent in nodes
      ensures r == Scan(nodes, children[parent], Base(name, Some(parent)))
      ensures r.None? <==> forall b :: b in nodes ==> nodes[b] != Base(name, Some(parent))
      ensures r.Some? ==> r.value in nodes && nodes[r.value] == Base(name, Some(parent))
    {
      var k := Base(name, Some(parent));
      var list := if name != [] then buckets[Slot(name)] else children[parent];
      ghost var whole := list;
      ScanFinds(nodes, children[parent], k);
      if name != [] {
        BucketAnswersAsChildren(nodes, buckets[..], children, parent, name);
      }
      while list != [] && !(list[0] in nodes && nodes[list[0]] == k)
        invariant Scan(nodes, list, k) == Scan(nodes, whole, k)
        decreases |list|
      {
        list := list[1..];
      }
      r := if list == [] then None else Some(list[0]);
    }

    /** The first half of `_sysio_p_find_alias`: find the child or make it, at `spare`.  There is
        exactly one such node afterwards. */
    method GetChild(spare: nat, parent: nat, name: string) returns (b: nat)
      requires Valid() && parent in nodes && forall c :: c in nodes ==> c < spare
      modifies this, buckets
      ensures Valid() && b in nodes && nodes[b] == Base(name, Some(parent))
      ensures forall c :: c in nodes && nodes[c] == Base(name, Some(parent)) ==> c == b
      ensures if forall c :: c in old(nodes) ==> old(nodes)[c] != Base(name, Some(parent))
              then b == spare && nodes == old(nodes)[b := Base(name, Some(parent))] else nodes == old(nodes)
    {
      var r := FindChild(parent, name);
      if r.Some? {
        b := r.value;
      } else {
        b := spare;
        PbNew(b, name, Some(parent));
      }
    }

    /** `_sysio_pb_path`: one pass up the tree for the length, one to fill the buffer from its end.
        The buffer is filled exactly. */
    method PbPath(b: nat) returns (buf: array<char>)
      requires Valid() && b in nodes
      ensures fresh(buf) && buf[..] == Printed(nodes, b) + [NUL]
    {
      hide Valid, Text;
      RootedHere();
      var len := Measure(nodes, b);
      if len == 0 {
        len := len + 1;
      }
      buf := new char[len + 1];
      buf[0] := '/';
      buf[len] := NUL;
      FillPath(nodes, b, buf, len);
      assert buf[..] == buf[..len] + [buf[len]];
    }

    lemma RootedHere()
      requires Valid()
      ensures Rooted(nodes)
    {
    }
  }

  method Measure(nodes: map<nat, Base>, b: nat) returns (len: nat)
    requires Rooted(nodes) && b in nodes
    ensures len == |Text(nodes, b)|
  {
    len := 0;
    var tmp := Some(b);
    while tmp.Some?
      invariant tmp.Some? ==> tmp.value in nodes
      invariant len + |TextTo(nodes, tmp)| == |Text(nodes, b)|
      decreases if tmp.Some? then tmp.value + 1 else 0
    {
      var n := |nodes[tmp.value].name|;
      len := len + n;
      if n > 0 {
        len := len + 1;
      }
      tmp := nodes[tmp.value].parent;
    }
  }

  method FillPath(nodes: map<nat, Base>, b: nat, buf: array<char>, len: nat)
    requires Rooted(nodes) && b in nodes && len < buf.Length
    requires len == if Text(nodes, b) == [] then 1 else |Text(nodes, b)|
    modifies buf
    ensures Text(nodes, b) == [] ==> buf[..] == old(buf[..])
    ensures Text(nodes, b) != [] ==> buf[..len] == Text(nodes, b)
    ensures forall i :: len <= i < buf.Length ==> buf[i] == old(buf[i])
  {
    hide Rooted;
    var cp := len;
    var tmp := Some(b);
    ghost var text := Text(nodes, b);
    while tmp.Some?
      invariant tmp.Some? ==> tmp.value in nodes
      invariant text == [] ==> TextTo(nodes, tmp) == [] && buf[..] == old(buf[..])
      invariant text != [] ==> cp == |TextTo(nodes, tmp)| <= len && text == TextTo(nodes, tmp) + buf[cp..len]
      invariant forall i :: len <= i < buf.Length ==> buf[i] == old(buf[i])
      decreases if tmp.Some? then tmp.value + 1 else 0
    {
      var name := nodes[tmp.value].name;
      RootedAt(nodes, tmp.value);
      if name != [] {
        cp := Fill(buf, cp, len, name);
      }
      tmp := nodes[tmp.value].parent;
    }
  }

  lemma RootedAt(nodes: map<nat, Base>, b: nat)
    requires Rooted(nodes) && b in nodes
    ensures var p := nodes[b].parent; p.Some? ==> p.value in nodes && p.value < b
  {
  }

  // The name and the separator before it go in front of what is there.
  method Fill(buf: array<char>, cp: nat, len: nat, name: string) returns (at: nat)
    requires |name| < cp <= len <= buf.Length
    modifies buf
    ensures at == cp - |name| - 1
    ensures buf[at..len] == ['/'] + name + old(buf[cp..len])
    ensures forall i :: len <= i < buf.Length ==> buf[i] == old(buf[i])
  {
    at := cp - |name| - 1;
    forall i | 0 <= i < |name| { buf[cp - |name| + i] := name[i]; }
    buf[at] := '/';
  }

  // The path of a node; nothing for a node without a name.
  function Text(nodes: map<nat, Base>, b: nat): string
    requires Rooted(nodes) && b in nodes
    decreases b + 1, 0
  {
    TextTo(nodes, nodes[b].parent) + if nodes[b].name == [] then [] else ['/'] + nodes[b].name
  }

  function TextTo(nodes: map<nat, Base>, b: Option<nat>): string
    requires Rooted(nodes) && (b.Some? ==> b.value in nodes)
    decreases if b.Some? then b.value + 1 else 0, 1
  {
    match b case None => [] case Some(p) => Text(nodes, p)
  }

  function Printed(nodes: map<nat, Base>, b: nat): string
    requires Rooted(nodes) && b in nodes
  {
    if Text(nodes, b) == [] then "/" else Text(nodes, b)
  }
}
