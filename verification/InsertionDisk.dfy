/** What setting a key does to the disk: every page and every slot keeps one owner, the
    new tree is stored, and pages and values of others are left alone. */
module InsertionDisk {
  import opened Pages
  import opened Trees
  import opened Accounts
  import opened Allocators
  import opened Ownership
  import opened Insertion

  function Owned(g: Grown): multiset<Ref> {
    match g
    case One(t) => Ids(t)
    case Two(l, _, r) => Ids(l) + Ids(r)
  }

  ghost predicate SlotsLive(t: Tree, s: Disk) {
    forall e :: e in Entries(t) ==> e.slot in s.values
  }

  ghost predicate PlacedOK(x: multiset<Ref>, s: Disk, o: Placed, v: Value) {
    DiskOK(o.disk) && NodesKept(x, s, Owned(o.grown), o.disk) && ValuePlaced(s, o.disk, o.slot, o.isNew, v)
  }

  lemma LeafInsertDisk(t: Tree, k: Key, v: Value, s: Disk)
    requires t.Leaf? && |t.items| <= 2 * s.g.degree - 1 && DiskOK(s) && t.id in s.pages && SlotsLive(t, s)
    ensures PlacedOK(Ids(t), s, LeafInsert(t, k, v, s), v)
  {
    var i := FirstGE(KeysOf(t.items), k);
    if i < |t.items| && t.items[i].key == k {
      assert t.items[i] in Entries(t);
      WriteValueBooks(s, t.items[i].slot, v);
    } else if |t.items| < 2 * s.g.degree - 1 {
      LeafAddDisk(t, i, k, v, s);
    } else {
      LeafSplitDisk(t, i, k, v, s);
    }
  }

  lemma DiskGeometry(s: Disk)
    requires DiskOK(s)
    ensures GeometryOK(s.g) && s.g.degree >= 2 && s.g.span > 0
  {
  }

  lemma LeafAddDisk(t: Tree, i: nat, k: Key, v: Value, s: Disk)
    requires t.Leaf? && i <= |t.items| && DiskOK(s) && t.id in s.pages
    ensures PlacedOK(Ids(t), s, LeafAdd(t, i, k, v, s), v)
  {
    hide DiskOK, GeometryOK, HeldNode, HeldSlot, NewValue, Flush, InsertAt;
    DiskGeometry(s);
    var o := LeafAdd(t, i, k, v, s);
    var (s1, slot) := NewValue(s, v);
    NewValueBooks(s, v);
    FlushBooks(Ids(t), s1, t.id, PageOf(o.grown.t));
    LeafAddSteps(Ids(t), s, s1, o.disk, slot, v);
  }

  lemma LeafSplitDisk(t: Tree, i: nat, k: Key, v: Value, s: Disk)
    requires t.Leaf? && i <= |t.items| == 2 * s.g.degree - 1 && DiskOK(s) && t.id in s.pages
    ensures PlacedOK(Ids(t), s, LeafSplit(t, i, k, v, s), v)
  {
    hide DiskOK, GeometryOK, HeldNode, HeldSlot, AppendNode, NewValue, Flush, InsertAt, LeafCut, KeysOf;
    DiskGeometry(s);
    var o := LeafSplit(t, i, k, v, s);
    var (s1, rid) := AppendNode(s, LeafPage([], []));
    AppendNodeBooks(Ids(t), s, LeafPage([], []));
    NewValueBooks(s1, v);
    var (s2, slot) := NewValue(s1, v);
    TwoFlushes(Ids(t) + multiset{rid}, s2, rid, PageOf(o.grown.r), t.id, PageOf(o.grown.l));
    LeafSplitSteps(Ids(t), rid, s, s1, s2, o.disk, slot, v);
    assert Owned(o.grown) == Ids(t) + multiset{rid};
  }

  lemma LeafAddSteps(x: multiset<Ref>, s: Disk, s1: Disk, s2: Disk, slot: Ref, v: Value)
    requires SameNodes(s, s1) && ValuePlaced(s, s1, slot, true, v)
    requires SameValues(s1, s2) && NodesKept(x, s1, x, s2)
    ensures NodesKept(x, s, x, s2) && ValuePlaced(s, s2, slot, true, v)
  {
    assert NodesKept(x, s, x, s1);
    NodesThen(x, s, x, s1, x, s2);
    forall p: Ref
      ensures HeldSlot(multiset{slot}, s2, p) == HeldSlot(multiset{}, s, p)
    {
      assert HeldSlot(multiset{slot}, s1, p) == HeldSlot(multiset{}, s, p);
    }
  }

  lemma LeafSplitSteps(x: multiset<Ref>, rid: Ref, s: Disk, s1: Disk, s2: Disk, s3: Disk, slot: Ref, v: Value)
    requires SameValues(s, s1) && NodesKept(x, s, x + multiset{rid}, s1)
    requires SameNodes(s1, s2) && ValuePlaced(s1, s2, slot, true, v)
    requires SameValues(s2, s3) && NodesKept(x + multiset{rid}, s2, x + multiset{rid}, s3)
    ensures NodesKept(x, s, x + multiset{rid}, s3) && ValuePlaced(s, s3, slot, true, v)
  {
    var y := x + multiset{rid};
    assert NodesKept(y, s1, y, s2);
    NodesThen(x, s, y, s1, y, s2);
    NodesThen(x, s, y, s2, y, s3);
    forall p: Ref
      ensures HeldSlot(multiset{slot}, s3, p) == HeldSlot(multiset{}, s, p)
    {
      assert HeldSlot(multiset{slot}, s2, p) == HeldSlot(multiset{}, s1, p);
    }
  }

  lemma TwoFlushes(x: multiset<Ref>, s: Disk, id: Ref, page: Page, id1: Ref, page1: Page)
    requires DiskOK(s) && id in s.pages && id1 in s.pages
    ensures var s1 := Flush(Flush(s, id, page), id1, page1);
            DiskOK(s1) && SameValues(s, s1) && NodesKept(x, s, x, s1)
  {
    FlushBooks(x, s, id, page);
    FlushBooks(x, Flush(s, id, page), id1, page1);
  }

  lemma RebuildDisk(id: Ref, keys: seq<Key>, kids: seq<Tree>, m: nat, s: Disk)
    requires |kids| == |keys| + 1 && |keys| <= 2 * s.g.degree && (|keys| == 2 * s.g.degree ==> m < |keys|)
    requires DiskOK(s) && id in s.pages
    ensures var (g, s1) := Rebuild(id, keys, kids, m, s); var x := multiset{id} + IdsOf(kids);
            DiskOK(s1) && SameValues(s, s1) && NodesKept(x, s, Owned(g), s1) && x <= Owned(g)
  {
    hide DiskOK, HeldNode, Owned, IdsOf;
    RebuildOwned(id, keys, kids, m, s);
    var x := multiset{id} + IdsOf(kids);
    var (g, sn) := Rebuild(id, keys, kids, m, s);
    if |keys| < 2 * s.g.degree {
      FlushBooks(x, s, id, PageOf(g.t));
    } else {
      var (s1, rid) := AppendNode(s, NodePage([], [0]));
      AppendNodeBooks(x, s, NodePage([], [0]));
      TwoFlushes(x + multiset{rid}, s1, rid, PageOf(g.r), id, PageOf(g.l));
      NodesThen(x, s, x + multiset{rid}, s1, x + multiset{rid}, sn);
    }
  }

  lemma RebuildOwned(id: Ref, keys: seq<Key>, kids: seq<Tree>, m: nat, s: Disk)
    requires |kids| == |keys| + 1 && |keys| <= 2 * s.g.degree && (|keys| == 2 * s.g.degree ==> m < |keys|)
    ensures |keys| < 2 * s.g.degree ==> Owned(Rebuild(id, keys, kids, m, s).0) == multiset{id} + IdsOf(kids)
    ensures |keys| == 2 * s.g.degree ==>
            Owned(Rebuild(id, keys, kids, m, s).0) == multiset{id} + IdsOf(kids) + multiset{AppendNode(s, NodePage([], [0])).1}
  {
    if |keys| == 2 * s.g.degree {
      var a, b := kids[..m + 1], kids[m + 1..];
      assert kids == a + b;
      IdsOfAppend(a, b);
    }
  }

  // The pages of a node whose child i has been replaced by c, or by two neighbours.
  lemma GrownKids(kids: seq<Tree>, i: nat, p: nat, l: Tree, r: Tree)
    requires i < |kids| && p < |kids|
    ensures IdsOf(InsertAt(kids[i := l], p + 1, r)) == IdsOf(RemoveAt(kids, i)) + (Ids(l) + Ids(r))
  {
    hide Ids, IdsOf;
    IdsInserted(kids[i := l], p + 1, r);
    IdsReplaced(kids, i, l);
    SumAssoc(IdsOf(RemoveAt(kids, i)), Ids(l), Ids(r));
  }

  // What happens to the pages of one child happens to the pages of the node.
  lemma KidKept(t: Tree, i: nat, s: Disk, y: multiset<Ref>, s1: Disk)
    requires t.Node? && i < |t.kids| && NodesKept(Ids(t.kids[i]), s, y, s1)
    ensures NodesKept(Ids(t), s, multiset{t.id} + (IdsOf(RemoveAt(t.kids, i)) + y), s1)
  {
    IdsWithout(t.kids, i);
    var rest, c := IdsOf(RemoveAt(t.kids, i)), Ids(t.kids[i]);
    KeptBeside(multiset{t.id}, rest, c, s, y, s1);
  }

  lemma KeptBeside(a: multiset<Ref>, b: multiset<Ref>, x: multiset<Ref>, s: Disk, y: multiset<Ref>, s1: Disk)
    requires NodesKept(x, s, y, s1)
    ensures NodesKept(a + (b + x), s, a + (b + y), s1)
  {
    forall p: Ref
      ensures HeldNode(a + (b + y), s1, p) == HeldNode(a + (b + x), s, p)
    {
      assert HeldNode(y, s1, p) == HeldNode(x, s, p);
    }
  }

  lemma KidApart(t: Tree, i: nat, s: Disk)
    requires t.Node? && i < |t.kids| && Apart(Ids(t), s)
    ensures Apart(Ids(t.kids[i]), s) && t.id in s.pages
  {
    IdsWithin(t.kids, i);
    ApartWithin(Ids(t.kids[i]), Ids(t), s);
    Owns(Ids(t), s, t.id);
  }

  lemma KidSlotsLive(t: Tree, i: nat, s: Disk)
    requires t.Node? && i < |t.kids| && SlotsLive(t, s)
    ensures SlotsLive(t.kids[i], s)
  {
    forall e | e in Entries(t.kids[i])
      ensures e.slot in s.values
    {
      EntriesWithin(t.kids, i, e);
    }
  }

  // Setting a key leaves every page and every slot with exactly one owner.
  lemma {:induction false} InsertDisk(t: Tree, k: Key, v: Value, s: Disk)
    requires Shaped(t, s.g.degree) && DiskOK(s) && Apart(Ids(t), s) && SlotsLive(t, s)
    ensures PlacedOK(Ids(t), s, Insert(t, k, v, s), v)
  {
    if t.Leaf? {
      Owns(Ids(t), s, t.id);
      LeafInsertDisk(t, k, v, s);
    } else {
      var i := FirstGT(t.keys, k);
      KidApart(t, i, s);
      KidSlotsLive(t, i, s);
      InsertDisk(t.kids[i], k, v, s);
      NodeInsertDisk(t, i, k, v, s);
    }
  }

  lemma NodeInsertDisk(t: Tree, i: nat, k: Key, v: Value, s: Disk)
    requires t.Node? && Shaped(t, s.g.degree) && DiskOK(s) && t.id in s.pages && i == FirstGT(t.keys, k)
    requires PlacedOK(Ids(t.kids[i]), s, Insert(t.kids[i], k, v, s), v)
    ensures PlacedOK(Ids(t), s, Insert(t, k, v, s), v)
  {
    hide HeldNode, HeldSlot, IdsOf, Widen, FirstGT, RemoveAt, DiskOK;
    DiskGeometry(s);
    var o, rest := Insert(t.kids[i], k, v, s), IdsOf(RemoveAt(t.kids, i));
    KidKept(t, i, s, Owned(o.grown), o.disk);
    match o.grown
    case One(c) =>
      IdsReplaced(t.kids, i, c);
    case Two(l, sep, r) =>
      WidenDisk(t, i, l, sep, r, o.disk);
      var w := Widen(t, i, l, sep, r, o.disk);
      NodesThen(Ids(t), s, multiset{t.id} + (rest + (Ids(l) + Ids(r))), o.disk, Owned(w.0), w.1);
      PlacedStill(s, o.disk, w.1, o.slot, o.isNew, v);
  }

  lemma WidenDisk(t: Tree, i: nat, l: Tree, sep: Key, r: Tree, s: Disk)
    requires t.Node? && |t.kids| == |t.keys| + 1 && i < |t.kids| && |t.keys| <= 2 * s.g.degree - 1 && s.g.degree >= 2
    requires DiskOK(s) && t.id in s.pages
    ensures var (g, s1) := Widen(t, i, l, sep, r, s);
            var x := multiset{t.id} + (IdsOf(RemoveAt(t.kids, i)) + (Ids(l) + Ids(r)));
            DiskOK(s1) && SameValues(s, s1) && NodesKept(x, s, Owned(g), s1) && x <= Owned(g)
  {
    hide HeldNode, IdsOf, Ids, DiskOK, Rebuild, InsertAt, RemoveAt, FirstGT, Owned;
    var p := FirstGT(t.keys, sep);
    GrownKids(t.kids, i, p, l, r);
    Longer(t.keys, p, sep);
    Longer(t.kids[i := l], p + 1, r);
    RebuildDisk(t.id, InsertAt(t.keys, p, sep), InsertAt(t.kids[i := l], p + 1, r), NodeCut(t.keys, sep, s.g.degree), s);
  }

  lemma PlacedStill(s: Disk, s1: Disk, s2: Disk, slot: Ref, isNew: bool, v: Value)
    requires ValuePlaced(s, s1, slot, isNew, v) && SameValues(s1, s2)
    ensures ValuePlaced(s, s2, slot, isNew, v)
  {
    if isNew {
      forall p: Ref
        ensures HeldSlot(multiset{slot}, s2, p) == HeldSlot(multiset{}, s, p)
      {
        assert HeldSlot(multiset{slot}, s1, p) == HeldSlot(multiset{}, s, p);
      }
    }
  }
}
