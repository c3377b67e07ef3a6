/** Removing a key: a thin leaf borrows or merges before the key goes, and an internal node
    left with too few keys is repaired by its father (BPlusTreeNode.cpp, internalRemove and
    its helpers). */
module Removal {
  import opened Pages
  import opened Trees
  import opened Insertion

  // Two neighbours and the separator between them.
  datatype Pair = Pair(a: Tree, sep: Key, b: Tree)

  // How a father repairs two neighbouring children: shift one entry over, or merge them.
  datatype Repair =
    | Shift(j: nat, p: Pair, written: Ref)
    | Merge(j: nat, c: Tree, freed: Ref)

  // The left node takes the first entry or child of the right one.
  function FromRight(a: Tree, sep: Key, b: Tree): Pair {
    if a.Leaf? && b.Leaf? && |b.items| >= 2 then
      Pair(Leaf(a.id, a.items + [b.items[0]]), b.items[1].key, Leaf(b.id, b.items[1..]))
    else if a.Node? && b.Node? && |b.kids| == |b.keys| + 1 && |b.keys| >= 1 then
      Pair(Node(a.id, a.keys + [sep], a.kids + [b.kids[0]]), b.keys[0], Node(b.id, b.keys[1..], b.kids[1..]))
    else Pair(a, sep, b)
  }

  // The right node takes the last entry or child of the left one.
  function FromLeft(a: Tree, sep: Key, b: Tree): Pair {
    if a.Leaf? && b.Leaf? && |a.items| >= 1 then
      var n := |a.items| - 1;
      Pair(Leaf(a.id, a.items[..n]), a.items[n].key, Leaf(b.id, [a.items[n]] + b.items))
    else if a.Node? && b.Node? && |a.kids| == |a.keys| + 1 && |a.keys| >= 1 then
      var n := |a.keys| - 1;
      Pair(Node(a.id, a.keys[..n], a.kids[..n + 1]), a.keys[n], Node(b.id, [sep] + b.keys, [a.kids[n + 1]] + b.kids))
    else Pair(a, sep, b)
  }

  // One node on page id with the content of both; between internal nodes the separator comes down.
  function Fused(id: Ref, a: Tree, sep: Key, b: Tree): (t: Tree)
    ensures t.id == id
  {
    if a.Leaf? && b.Leaf? then Leaf(id, a.items + b.items)
    else if a.Node? && b.Node? then Node(id, a.keys + [sep] + b.keys, a.kids + b.kids)
    else Leaf(id, [])
  }

  // Child i is thin: the right sibling is asked first, then the left one; otherwise it
  // merges with the left sibling, or with the right one if it is the first child.
  function Choose(f: Tree, i: nat, d: nat): (r: Repair)
    requires f.Node? && |f.kids| == |f.keys| + 1 && |f.keys| >= 1 && i < |f.kids|
    ensures r.j < |f.keys| && r.j <= i <= r.j + 1
  {
    if i < |f.keys| && Size(f.kids[i + 1]) > d - 1 then
      Shift(i, FromRight(f.kids[i], f.keys[i], f.kids[i + 1]), f.kids[i + 1].id)
    else if i > 0 && Size(f.kids[i - 1]) > d - 1 then
      Shift(i - 1, FromLeft(f.kids[i - 1], f.keys[i - 1], f.kids[i]), f.kids[i - 1].id)
    else if i > 0 then
      Merge(i - 1, Fused(f.kids[i].id, f.kids[i - 1], f.keys[i - 1], f.kids[i]), f.kids[i - 1].id)
    else
      Merge(0, Fused(f.kids[0].id, f.kids[0], f.keys[0], f.kids[1]), f.kids[1].id)
  }

  function Apply(f: Tree, r: Repair): (t: Tree)
    requires f.Node? && |f.kids| == |f.keys| + 1 && r.j < |f.keys|
    ensures t.Node? && t.id == f.id && |t.kids| == |t.keys| + 1 && r.j < |t.kids|
    ensures r.Shift? ==> |t.kids| == |f.kids|
  {
    match r
    case Shift(j, p, _) => Node(f.id, f.keys[j := p.sep], f.kids[j := p.a][j + 1 := p.b])
    case Merge(j, c, _) => Node(f.id, RemoveAt(f.keys, j), f.kids[..j] + [c] + f.kids[j + 2..])
  }

  // The sibling is written back, or its page freed; the thin child itself is written later.
  function RepairDisk(r: Repair, i: nat, s: Disk): Disk {
    match r
    case Shift(j, p, id) => Flush(s, id, PageOf(if j == i then p.b else p.a))
    case Merge(_, _, id) => FreeNode(s, id)
  }

  // Where the thin child is after the repair.
  function RepairedAt(r: Repair, i: nat): nat {
    if r.Shift? then i else r.j
  }

  // Whether the key was there, its slot, the father afterwards, and the disk.
  datatype Dropped = Dropped(t: Tree, ok: bool, slot: Ref, disk: Disk)

  predicate Holds(c: Tree, k: Key) {
    c.Leaf? && var i := FirstGE(KeysOf(c.items), k); i < |c.items| && c.items[i].key == k
  }

  // Takes the entry out of a leaf and its slot to the free stack, and writes the leaf.
  ghost function DropEntry(c: Tree, k: Key, s: Disk): (r: Dropped)
    ensures r.ok == Holds(c, k) && r.t.id == c.id && r.disk.g == s.g
  {
    if !Holds(c, k) then Dropped(c, false, 0, s)
    else
      var i := FirstGE(KeysOf(c.items), k);
      var c1 := Leaf(c.id, RemoveAt(c.items, i));
      Dropped(c1, true, c.items[i].slot, Flush(s.(delValues := s.delValues + [c.items[i].slot]), c.id, PageOf(c1)))
  }

  ghost function WithKid(f: Tree, i: nat, c: Tree): (t: Tree)
    requires f.Node? && i < |f.kids|
    ensures t.Node? && t.id == f.id && t.keys == f.keys && |t.kids| == |f.kids|
  {
    Node(f.id, f.keys, f.kids[i := c])
  }

  // Removes k below child i of f. The page of f itself is left to the caller.
  ghost function RemoveIn(f: Tree, i: nat, k: Key, s: Disk): (r: Dropped)
    requires f.Node? && Shaped(f, s.g.degree) && i < |f.kids| && GeometryOK(s.g)
    ensures r.t.Node? && r.t.id == f.id && |r.t.kids| == |r.t.keys| + 1 && r.disk.g == s.g
    decreases f
  {
    var c := f.kids[i];
    if c.Leaf? then RemoveAtLeaf(f, i, k, s)
    else
      var r := RemoveIn(c, FirstGT(c.keys, k), k, s);
      var (f1, s1) := Settle(WithKid(f, i, r.t), i, r.disk);
      Dropped(f1, r.ok, r.slot, s1)
  }

  ghost function RemoveAtLeaf(f: Tree, i: nat, k: Key, s: Disk): (r: Dropped)
    requires f.Node? && |f.kids| == |f.keys| + 1 && |f.keys| >= 1 && i < |f.kids| && f.kids[i].Leaf?
    ensures r.t.Node? && r.t.id == f.id && |r.t.kids| == |r.t.keys| + 1 && r.disk.g == s.g
  {
    var c := f.kids[i];
    if !Holds(c, k) then Dropped(f, false, 0, s)
    else if |c.items| > s.g.degree - 1 then
      var e := DropEntry(c, k, s);
      Dropped(WithKid(f, i, e.t), true, e.slot, e.disk)
    else
      var r := Choose(f, i, s.g.degree);
      var f1, i1 := Apply(f, r), RepairedAt(r, i);
      var e := DropEntry(f1.kids[i1], k, RepairDisk(r, i, s));
      Dropped(WithKid(f1, i1, e.t), e.ok, e.slot, e.disk)
  }

  // After the removal below child i: repair it if it is thin, then write it.
  ghost function Settle(f: Tree, i: nat, s: Disk): (r: (Tree, Disk))
    requires f.Node? && |f.kids| == |f.keys| + 1 && |f.keys| >= 1 && i < |f.kids|
    ensures r.0.Node? && r.0.id == f.id && |r.0.kids| == |r.0.keys| + 1 && r.1.g == s.g
  {
    var d := s.g.degree;
    if Size(f.kids[i]) < d - 1 then
      var r := Choose(f, i, d);
      var f1, i1 := Apply(f, r), RepairedAt(r, i);
      (f1, Flush(RepairDisk(r, i, s), f1.kids[i1].id, PageOf(f1.kids[i1])))
    else (f, Flush(s, f.kids[i].id, PageOf(f.kids[i])))
  }

  // At the root: an empty internal root gives way to its only child.
  ghost function RemoveRoot(t: Tree, k: Key, s: Disk): Dropped
    requires Shaped(t, s.g.degree) && GeometryOK(s.g)
  {
    if t.Leaf? then
      DropEntry(t, k, s)
    else
      var r := RemoveIn(t, FirstGT(t.keys, k), k, s);
      var s1 := Flush(r.disk, t.id, PageOf(r.t));
      if r.ok && |r.t.keys| == 0 then
        Dropped(r.t.kids[0], true, r.slot, FreeNode(s1, t.id))
      else r.(disk := s1)
  }
}
