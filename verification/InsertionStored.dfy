/** After setting a key the disk stores the new tree, and pages outside it are untouched. */
module InsertionStored {
  import opened Pages
  import opened Trees
  import opened Accounts
  import opened Allocators
  import opened Ownership
  import opened Insertion
  import opened InsertionDisk

  ghost predicate GrownStored(g: Grown, pages: map<Ref, Page>) {
    match g
    case One(t) => Stored(t, pages)
    case Two(l, _, r) => Stored(l, pages) && Stored(r, pages)
  }

  // No page outside x has been changed.
  ghost predicate Others(x: multiset<Ref>, pages: map<Ref, Page>, pages1: map<Ref, Page>) {
    forall p: Ref :: p in pages && p !in x ==> p in pages1 && pages1[p] == pages[p]
  }

  // Writing an appended page and then the page of x leaves both stored.
  lemma TwoPages(pages: map<Ref, Page>, rid: Ref, e: Page, r: Page, id: Ref, l: Page, pages1: map<Ref, Page>)
    requires rid != id && pages1 == pages[rid := e][rid := r][id := l]
    ensures rid in pages1 && pages1[rid] == r && id in pages1 && pages1[id] == l
    ensures Others(multiset{id, rid}, pages, pages1)
  {
  }

  lemma LeafInsertStored(t: Tree, k: Key, v: Value, s: Disk)
    requires t.Leaf? && |t.items| <= 2 * s.g.degree - 1 && DiskOK(s) && Apart(Ids(t), s) && Stored(t, s.pages)
    ensures var o := LeafInsert(t, k, v, s);
            GrownStored(o.grown, o.disk.pages) && Others(Owned(o.grown), s.pages, o.disk.pages)
  {
    var i := FirstGE(KeysOf(t.items), k);
    if |t.items| == 2 * s.g.degree - 1 && !(i < |t.items| && t.items[i].key == k) {
      LeafSplitStored(t, i, k, v, s);
    }
  }

  lemma LeafSplitStored(t: Tree, i: nat, k: Key, v: Value, s: Disk)
    requires t.Leaf? && i <= |t.items| == 2 * s.g.degree - 1 && DiskOK(s) && Apart(Ids(t), s)
    ensures var o := LeafSplit(t, i, k, v, s);
            GrownStored(o.grown, o.disk.pages) && Others(Owned(o.grown), s.pages, o.disk.pages)
  {
    Owns(Ids(t), s, t.id);
    AppendNodeBooks(Ids(t), s, LeafPage([], []));
    var rid := AppendNode(s, LeafPage([], [])).1;
    LeafSplitWrites(t, i, k, v, s);
    var o := LeafSplit(t, i, k, v, s);
    TwoPages(s.pages, rid, LeafPage([], []), PageOf(o.grown.r), t.id, PageOf(o.grown.l), o.disk.pages);
    assert Owned(o.grown) == multiset{t.id, rid};
  }

  lemma LeafSplitWrites(t: Tree, i: nat, k: Key, v: Value, s: Disk)
    requires t.Leaf? && i <= |t.items| == 2 * s.g.degree - 1 && GeometryOK(s.g)
    ensures var o, rid := LeafSplit(t, i, k, v, s), AppendNode(s, LeafPage([], [])).1;
            && o.grown.Two? && o.grown.l.Leaf? && o.grown.r.Leaf? && o.grown.l.id == t.id && o.grown.r.id == rid
            && o.disk.pages == s.pages[rid := LeafPage([], [])][rid := PageOf(o.grown.r)][t.id := PageOf(o.grown.l)]
  {
  }

  lemma RebuildStored(id: Ref, keys: seq<Key>, kids: seq<Tree>, m: nat, s: Disk)
    requires |kids| == |keys| + 1 && |keys| <= 2 * s.g.degree && (|keys| == 2 * s.g.degree ==> m < |keys|)
    requires DiskOK(s) && Apart(multiset{id} + IdsOf(kids), s) && AllStored(kids, s.pages)
    ensures var (g, s1) := Rebuild(id, keys, kids, m, s);
            GrownStored(g, s1.pages) && Others(Owned(g), s.pages, s1.pages)
  {
    hide DiskOK;
    var x := multiset{id} + IdsOf(kids);
    Owns(x, s, id);
    assert IdsOf(kids)[id] == 0;
    if |keys| < 2 * s.g.degree {
      var s1 := Rebuild(id, keys, kids, m, s).1;
      AllStoredFrame(kids, s.pages, s1.pages);
      NodeStored(id, keys, kids, s1.pages);
    } else {
      SplitStored(id, keys, kids, m, s);
    }
  }

  lemma SplitStored(id: Ref, keys: seq<Key>, kids: seq<Tree>, m: nat, s: Disk)
    requires |kids| == |keys| + 1 && |keys| == 2 * s.g.degree && m < |keys|
    requires DiskOK(s) && Apart(multiset{id} + IdsOf(kids), s) && AllStored(kids, s.pages)
    ensures var (g, s1) := Rebuild(id, keys, kids, m, s);
            GrownStored(g, s1.pages) && Others(Owned(g), s.pages, s1.pages)
  {
    hide DiskOK, Apart;
    var x := multiset{id} + IdsOf(kids);
    var (g, s1) := Rebuild(id, keys, kids, m, s);
    var e := NodePage([], [0]);
    var rid := AppendNode(s, e).1;
    AppendNodeBooks(x, s, e);
    Owns(x, s, id);
    TwoPages(s.pages, rid, e, PageOf(g.r), id, PageOf(g.l), s1.pages);
    AllStoredBeside(id, rid, kids, s, s1.pages);
    NodeStored(id, keys[..m], kids[..m + 1], s1.pages);
    NodeStored(rid, keys[m + 1..], kids[m + 1..], s1.pages);
    assert id in Ids(g.l) && rid in Ids(g.r);
  }

  // Children stay stored when only the father's page and a page taken from the
  // allocator are written.
  lemma AllStoredBeside(id: Ref, rid: Ref, kids: seq<Tree>, s: Disk, pages1: map<Ref, Page>)
    requires Apart(multiset{id} + IdsOf(kids), s) && AllStored(kids, s.pages)
    requires rid in s.pages ==> rid in s.delNodes
    requires Others(multiset{id, rid}, s.pages, pages1)
    ensures AllStored(kids, pages1)
  {
    var x := multiset{id} + IdsOf(kids);
    forall p: Ref | p in IdsOf(kids) && p in s.pages
      ensures p in pages1 && pages1[p] == s.pages[p]
    {
      Owns(x, s, p);
    }
    AllStoredFrame(kids, s.pages, pages1);
  }

  // What is done below child i leaves pages of the rest of the tree alone.
  lemma Elsewhere(t: Tree, i: nat, s: Disk, y: multiset<Ref>, s1: Disk, p: Ref)
    requires t.Node? && i < |t.kids| && Apart(Ids(t), s) && NodesKept(Ids(t.kids[i]), s, y, s1)
    requires Ids(t)[p] > Ids(t.kids[i])[p]
    ensures p in s.pages && p !in y
  {
    assert HeldNode(Ids(t), s, p) <= 0;
    assert HeldNode(y, s1, p) == HeldNode(Ids(t.kids[i]), s, p);
  }

  lemma SiblingsStored(t: Tree, i: nat, s: Disk, y: multiset<Ref>, s1: Disk)
    requires t.Node? && i < |t.kids| && Apart(Ids(t), s) && KidsStored(t, s.pages)
    requires NodesKept(Ids(t.kids[i]), s, y, s1) && Others(y, s.pages, s1.pages)
    ensures forall j :: 0 <= j < |t.kids| && j != i ==> Stored(t.kids[j], s1.pages)
  {
    forall j | 0 <= j < |t.kids| && j != i
      ensures Stored(t.kids[j], s1.pages)
    {
      IdsOfPair(t.kids, i, j);
      forall p: Ref | p in Ids(t.kids[j]) && p in s.pages
        ensures p in s1.pages && s1.pages[p] == s.pages[p]
      {
        Elsewhere(t, i, s, y, s1, p);
      }
      StoredFrame(t.kids[j], s.pages, s1.pages);
    }
  }

  lemma {:induction false} InsertStored(t: Tree, k: Key, v: Value, s: Disk)
    requires Shaped(t, s.g.degree) && DiskOK(s) && Apart(Ids(t), s) && SlotsLive(t, s) && Stored(t, s.pages)
    ensures var o := Insert(t, k, v, s);
            GrownStored(o.grown, o.disk.pages) && Others(Owned(o.grown), s.pages, o.disk.pages)
  {
    if t.Leaf? {
      LeafInsertStored(t, k, v, s);
    } else {
      var i := FirstGT(t.keys, k);
      KidApart(t, i, s);
      KidSlotsLive(t, i, s);
      InsertStored(t.kids[i], k, v, s);
      InsertDisk(t.kids[i], k, v, s);
      var o := Insert(t.kids[i], k, v, s);
      SiblingsStored(t, i, s, Owned(o.grown), o.disk);
      NodeInsertStored(t, i, k, v, s);
    }
  }

  lemma NodeInsertStored(t: Tree, i: nat, k: Key, v: Value, s: Disk)
    requires t.Node? && Shaped(t, s.g.degree) && GeometryOK(s.g) && Apart(Ids(t), s) && Stored(t, s.pages)
    requires i == FirstGT(t.keys, k) && i < |t.kids|
    requires var o := Insert(t.kids[i], k, v, s);
             && PlacedOK(Ids(t.kids[i]), s, o, v)
             && GrownStored(o.grown, o.disk.pages) && Others(Owned(o.grown), s.pages, o.disk.pages)
             && forall j :: 0 <= j < |t.kids| && j != i ==> Stored(t.kids[j], o.disk.pages)
    ensures var o := Insert(t, k, v, s);
            GrownStored(o.grown, o.disk.pages) && Others(Owned(o.grown), s.pages, o.disk.pages)
  {
    hide DiskOK, HeldNode;
    var o := Insert(t.kids[i], k, v, s);
    match o.grown
    case One(c) =>
      SameNodeStored(t, i, c, s, o.disk);
    case Two(l, sep, r) =>
      WidenStored(t, i, l, sep, r, s, o.disk);
  }

  lemma SameNodeStored(t: Tree, i: nat, c: Tree, s: Disk, s1: Disk)
    requires t.Node? && i < |t.kids| && Apart(Ids(t), s) && c.id == t.kids[i].id
    requires t.id in s.pages && s.pages[t.id] == NodePage(t.keys, KidIds(t.kids))
    requires NodesKept(Ids(t.kids[i]), s, Ids(c), s1) && Others(Ids(c), s.pages, s1.pages)
    requires Stored(c, s1.pages) && forall j :: 0 <= j < |t.kids| && j != i ==> Stored(t.kids[j], s1.pages)
    ensures var t1 := Node(t.id, t.keys, t.kids[i := c]);
            Stored(t1, s1.pages) && Others(Ids(t1), s.pages, s1.pages)
  {
    hide HeldNode, IdsOf, Stored;
    IdsWithout(t.kids, i);
    IdsReplaced(t.kids, i, c);
    Elsewhere(t, i, s, Ids(c), s1, t.id);
    assert KidIds(t.kids[i := c]) == KidIds(t.kids);
    NodeStored(t.id, t.keys, t.kids[i := c], s1.pages);
  }

  lemma WidenStored(t: Tree, i: nat, l: Tree, sep: Key, r: Tree, s: Disk, s1: Disk)
    requires t.Node? && |t.kids| == |t.keys| + 1 && i < |t.kids| && |t.keys| <= 2 * s1.g.degree - 1 && s1.g.degree >= 2
    requires DiskOK(s1) && Apart(Ids(t), s)
    requires NodesKept(Ids(t.kids[i]), s, Ids(l) + Ids(r), s1) && Others(Ids(l) + Ids(r), s.pages, s1.pages)
    requires Stored(l, s1.pages) && Stored(r, s1.pages)
    requires forall j :: 0 <= j < |t.kids| && j != i ==> Stored(t.kids[j], s1.pages)
    ensures var (g, s2) := Widen(t, i, l, sep, r, s1);
            GrownStored(g, s2.pages) && Others(Owned(g), s.pages, s2.pages)
  {
    hide DiskOK, HeldNode, Ids, IdsOf, Rebuild, Stored, PageOf, FirstGT;
    var p := FirstGT(t.keys, sep);
    var keys, kids := InsertAt(t.keys, p, sep), InsertAt(t.kids[i := l], p + 1, r);
    var m, x := NodeCut(t.keys, sep, s1.g.degree), multiset{t.id} + IdsOf(kids);
    GrownKids(t.kids, i, p, l, r);
    KidKept(t, i, s, Ids(l) + Ids(r), s1);
    ApartKept(Ids(t), s, x, s1);
    Owns(x, s1, t.id);
    RebuildDisk(t.id, keys, kids, m, s1);
    RebuildStored(t.id, keys, kids, m, s1);
    var (g, s2) := Rebuild(t.id, keys, kids, m, s1);
    OthersThen(Ids(l) + Ids(r), x, s.pages, s1, Owned(g), s2);
  }

  lemma ApartKept(x: multiset<Ref>, s: Disk, x1: multiset<Ref>, s1: Disk)
    requires Apart(x, s) && NodesKept(x, s, x1, s1)
    ensures Apart(x1, s1)
  {
    forall p: Ref
      ensures HeldNode(x1, s1, p) <= 0
    {
      assert HeldNode(x1, s1, p) == HeldNode(x, s, p);
    }
  }

  // A page outside the final tree was outside the intermediate one, unless allocated in between.
  lemma OthersThen(y: multiset<Ref>, x1: multiset<Ref>, pages: map<Ref, Page>, s1: Disk, x2: multiset<Ref>, s2: Disk)
    requires y <= x1 && x1 <= x2
    requires Others(y, pages, s1.pages) && Others(x2, s1.pages, s2.pages)
    ensures Others(x2, pages, s2.pages)
  {
  }
}
