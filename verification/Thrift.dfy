/** Setting a key takes a new page only when the free stack is used up. */
module Thrift {
  import opened Pages
  import opened Trees
  import opened Accounts
  import opened Ownership
  import opened Insertion
  import opened InsertionDisk

  ghost predicate Thrifty(s: Disk, s1: Disk) {
    s1.delNodes == [] || (s1.pages.Keys == s.pages.Keys && |s1.delNodes| <= |s.delNodes|)
  }

  lemma AppendThrifty(s: Disk, page: Page)
    requires DiskOK(s)
    ensures Thrifty(s, AppendNode(s, page).0)
  {
    if s.delNodes != [] {
      PopBooks(s.delNodes);
    }
  }

  lemma LeafInsertThrifty(t: Tree, k: Key, v: Value, s: Disk)
    requires t.Leaf? && |t.items| <= 2 * s.g.degree - 1 && DiskOK(s) && t.id in s.pages
    ensures Thrifty(s, LeafInsert(t, k, v, s).disk)
  {
    hide FirstGE, KeysOf, InsertAt, LeafCut, SlotsOf;
    var i := FirstGE(KeysOf(t.items), k);
    if |t.items| == 2 * s.g.degree - 1 && !(i < |t.items| && t.items[i].key == k) {
      var s1 := AppendNode(s, LeafPage([], [])).0;
      AppendThrifty(s, LeafPage([], []));
      hide DiskOK;
      assert Thrifty(s, LeafSplit(t, i, k, v, s).disk);
    }
  }

  lemma RebuildThrifty(id: Ref, keys: seq<Key>, kids: seq<Tree>, m: nat, s: Disk)
    requires |kids| == |keys| + 1 && |keys| <= 2 * s.g.degree && (|keys| == 2 * s.g.degree ==> m < |keys|)
    requires DiskOK(s) && id in s.pages
    ensures Thrifty(s, Rebuild(id, keys, kids, m, s).1)
  {
    AppendThrifty(s, NodePage([], [0]));
  }

  lemma {:induction false} InsertThrifty(t: Tree, k: Key, v: Value, s: Disk)
    requires Shaped(t, s.g.degree) && DiskOK(s) && Apart(Ids(t), s) && SlotsLive(t, s)
    ensures Thrifty(s, Insert(t, k, v, s).disk)
  {
    hide Ids, IdsOf, Entries, Apart, HeldNode;
    OwnsRoot(t, s);
    if t.Leaf? {
      LeafInsertThrifty(t, k, v, s);
    } else {
      var i := FirstGT(t.keys, k);
      KidApart(t, i, s);
      KidSlotsLive(t, i, s);
      InsertThrifty(t.kids[i], k, v, s);
      InsertDisk(t.kids[i], k, v, s);
      NodeInsertThrifty(t, i, k, v, s);
    }
  }

  lemma OwnsRoot(t: Tree, s: Disk)
    requires Apart(Ids(t), s)
    ensures t.id in s.pages
  {
    Owns(Ids(t), s, t.id);
  }

  lemma NodeInsertThrifty(t: Tree, i: nat, k: Key, v: Value, s: Disk)
    requires t.Node? && Shaped(t, s.g.degree) && GeometryOK(s.g) && t.id in s.pages && i == FirstGT(t.keys, k)
    requires Thrifty(s, Insert(t.kids[i], k, v, s).disk)
    requires PlacedOK(Ids(t.kids[i]), s, Insert(t.kids[i], k, v, s), v)
    ensures Thrifty(s, Insert(t, k, v, s).disk)
  {
    hide DiskOK, HeldNode, Ids, IdsOf, Rebuild;
    var o := Insert(t.kids[i], k, v, s);
    if o.grown.Two? {
      var (l, sep, r) := (o.grown.l, o.grown.sep, o.grown.r);
      var p := FirstGT(t.keys, sep);
      RebuildThrifty(t.id, InsertAt(t.keys, p, sep), InsertAt(t.kids[i := l], p + 1, r), NodeCut(t.keys, sep, s.g.degree), o.disk);
    }
  }
}
