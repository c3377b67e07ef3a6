/** Setting a key: insertion at a leaf, splits on the way back up
    (BPlusTreeNode.cpp, internalInsert and its helpers). Each function threads the disk
    through the page and value writes in the order in which the program makes them. */
module Insertion {
  import opened Pages
  import opened Trees

  // What the caller gets back: the same node, or two nodes and the separator to add
  // to the father.
  datatype Grown = One(t: Tree) | Two(l: Tree, sep: Key, r: Tree)

  // The node that stays on its page.
  function Head(g: Grown): Tree {
    if g.One? then g.t else g.l
  }

  // slot holds the value of the key afterwards; isNew says that the key was absent.
  datatype Placed = Placed(grown: Grown, slot: Ref, isNew: bool, disk: Disk)

  ghost predicate Shaped(t: Tree, d: nat) {
    Size(t) <= 2 * d - 1 &&
    (t.Node? ==> |t.keys| >= 1 && |t.kids| == |t.keys| + 1 && forall i :: 0 <= i < |t.kids| ==> Shaped(t.kids[i], d))
  }

  ghost function LeafInsert(t: Tree, k: Key, v: Value, s: Disk): Placed
    requires t.Leaf? && |t.items| <= 2 * s.g.degree - 1 && GeometryOK(s.g)
  {
    var i := FirstGE(KeysOf(t.items), k);
    if i < |t.items| && t.items[i].key == k then
      Placed(One(t), t.items[i].slot, false, WriteValue(s, t.items[i].slot, v))
    else if |t.items| < 2 * s.g.degree - 1 then
      LeafAdd(t, i, k, v, s)
    else
      LeafSplit(t, i, k, v, s)
  }

  ghost function LeafAdd(t: Tree, i: nat, k: Key, v: Value, s: Disk): Placed
    requires t.Leaf? && i <= |t.items| && GeometryOK(s.g)
  {
    var (s1, slot) := NewValue(s, v);
    var t1 := Leaf(t.id, InsertAt(t.items, i, Entry(k, slot)));
    Placed(One(t1), slot, true, Flush(s1, t.id, PageOf(t1)))
  }

  // The right half goes to an appended node, then the value gets its slot.
  ghost function LeafSplit(t: Tree, i: nat, k: Key, v: Value, s: Disk): Placed
    requires t.Leaf? && i <= |t.items| == 2 * s.g.degree - 1 && GeometryOK(s.g)
  {
    var (s1, rid) := AppendNode(s, LeafPage([], []));
    var (s2, slot) := NewValue(s1, v);
    var (l, r) := CutLeaf(t.id, rid, InsertAt(t.items, i, Entry(k, slot)), LeafCut(t.items, k, s.g.degree));
    Placed(Two(l, r.items[0].key, r), slot, true, Flush(Flush(s2, rid, PageOf(r)), t.id, PageOf(l)))
  }

  // The old left half keeps d entries; the new one joins the half it belongs to.
  function LeafCut(items: seq<Entry>, k: Key, d: nat): nat
    requires 1 <= d <= |items|
  {
    if items[d - 1].key > k then d + 1 else d
  }

  function CutLeaf(id: Ref, rid: Ref, items: seq<Entry>, m: nat): (r: (Tree, Tree))
    requires m < |items|
    ensures r.0.Leaf? && r.1.Leaf? && |r.1.items| > 0 && r.0.id == id && r.1.id == rid
  {
    (Leaf(id, items[..m]), Leaf(rid, items[m..]))
  }

  ghost function Insert(t: Tree, k: Key, v: Value, s: Disk): Placed
    requires Shaped(t, s.g.degree) && GeometryOK(s.g)
    ensures Insert(t, k, v, s).disk.g == s.g
    ensures Head(Insert(t, k, v, s).grown).id == t.id
  {
    if t.Leaf? then LeafInsert(t, k, v, s)
    else
      var i := FirstGT(t.keys, k);
      var o := Insert(t.kids[i], k, v, s);
      match o.grown
      case One(c) => o.(grown := One(Node(t.id, t.keys, t.kids[i := c])))
      case Two(l, sep, r) => o.(grown := Widen(t, i, l, sep, r, o.disk).0, disk := Widen(t, i, l, sep, r, o.disk).1)
  }

  // Adds a separator and a right neighbour for child i.
  ghost function Widen(t: Tree, i: nat, l: Tree, sep: Key, r: Tree, s: Disk): (Grown, Disk)
    requires t.Node? && |t.kids| == |t.keys| + 1 && i < |t.kids| && |t.keys| <= 2 * s.g.degree - 1 && s.g.degree >= 2
  {
    var p := FirstGT(t.keys, sep);
    Rebuild(t.id, InsertAt(t.keys, p, sep), InsertAt(t.kids[i := l], p + 1, r), NodeCut(t.keys, sep, s.g.degree), s)
  }

  // A node that would exceed 2d-1 keys is cut at m.
  ghost function Rebuild(id: Ref, keys: seq<Key>, kids: seq<Tree>, m: nat, s: Disk): (Grown, Disk)
    requires |kids| == |keys| + 1 && |keys| <= 2 * s.g.degree && (|keys| == 2 * s.g.degree ==> m < |keys|)
  {
    if |keys| < 2 * s.g.degree then
      var t1 := Node(id, keys, kids);
      (One(t1), Flush(s, id, PageOf(t1)))
    else
      var (s1, rid) := AppendNode(s, NodePage([], [0]));
      var (a, b) := (Node(id, keys[..m], kids[..m + 1]), Node(rid, keys[m + 1..], kids[m + 1..]));
      (Two(a, keys[m], b), Flush(Flush(s1, rid, PageOf(b)), id, PageOf(a)))
  }

  // The key at d-1 is promoted; the new separator joins the half it belongs to.
  function NodeCut(keys: seq<Key>, sep: Key, d: nat): nat
    requires 1 <= d
  {
    if d <= |keys| && keys[d - 1] > sep then d else d - 1
  }

  // At the root, a split puts a new root above the two halves.
  ghost function InsertRoot(t: Tree, k: Key, v: Value, s: Disk): (r: (Tree, Placed))
    requires Shaped(t, s.g.degree) && GeometryOK(s.g)
  {
    var o := Insert(t, k, v, s);
    match o.grown
    case One(t1) => (t1, o)
    case Two(l, sep, r) =>
      var (s1, id) := AppendNode(o.disk, NodePage([], [0]));
      var t1 := Node(id, [sep], [l, r]);
      (t1, o.(disk := Flush(s1, id, PageOf(t1))))
  }

  // ----- order, occupancy and depth -----

  lemma {:induction false} WFShaped(t: Tree, d: nat, h: nat, lo: Key, hi: Key)
    requires WF(t, d, h, lo, hi) && d >= 2
    requires t.Node? ==> |t.keys| >= 1
    ensures Shaped(t, d)
    decreases h
  {
    if t.Node? {
      forall i | 0 <= i < |t.kids|
        ensures Shaped(t.kids[i], d)
      {
        WFShaped(t.kids[i], d, h - 1, Lo(t.keys, i, lo), Hi(t.keys, i, hi));
      }
    }
  }

  ghost predicate GrownWF(g: Grown, d: nat, h: nat, lo: Key, hi: Key) {
    match g
    case One(t) => WF(t, d, h, lo, hi)
    case Two(l, sep, r) =>
      lo < sep < hi && WF(l, d, h, lo, sep) && WF(r, d, h, sep, hi) && Size(l) >= d - 1 && Size(r) >= d - 1
  }

  lemma InOrderInsert(items: seq<Entry>, e: Entry, lo: Key, hi: Key)
    requires InOrder(items, lo, hi) && lo <= e.key < hi
    requires var i := FirstGE(KeysOf(items), e.key); i < |items| ==> items[i].key != e.key
    ensures InOrder(InsertAt(items, FirstGE(KeysOf(items), e.key), e), lo, hi)
  {
    var i, ks := FirstGE(KeysOf(items), e.key), KeysOf(items);
    forall j | 0 <= j < |items|
      ensures j < i ==> items[j].key < e.key
      ensures j >= i ==> e.key < items[j].key
    {
      assert ks[j] == items[j].key;
      assert j >= i ==> items[i].key <= items[j].key;
    }
    InOrderAround(items, i, e, lo, hi);
  }

  lemma InOrderAround(items: seq<Entry>, i: nat, e: Entry, lo: Key, hi: Key)
    requires InOrder(items, lo, hi) && lo <= e.key < hi && i <= |items|
    requires forall j :: 0 <= j < |items| ==> (j < i ==> items[j].key < e.key) && (j >= i ==> e.key < items[j].key)
    ensures InOrder(InsertAt(items, i, e), lo, hi)
  {
    var r := InsertAt(items, i, e);
    forall j | 0 <= j < |r|
      ensures r[j] == if j < i then items[j] else if j == i then e else items[j - 1]
    {
    }
  }

  lemma InOrderCut(items: seq<Entry>, m: nat, lo: Key, hi: Key)
    requires InOrder(items, lo, hi) && 0 < m < |items|
    ensures lo < items[m].key < hi
    ensures InOrder(items[..m], lo, items[m].key) && InOrder(items[m..], items[m].key, hi)
  {
    assert items[0].key < items[m].key;
  }

  lemma LeafInsertWF(t: Tree, k: Key, v: Value, s: Disk, lo: Key, hi: Key)
    requires t.Leaf? && GeometryOK(s.g) && WF(t, s.g.degree, 0, lo, hi) && lo <= k < hi
    ensures var g := LeafInsert(t, k, v, s).grown; GrownWF(g, s.g.degree, 0, lo, hi) && (g.One? ==> Size(g.t) >= Size(t))
  {
    var i := FirstGE(KeysOf(t.items), k);
    if !(i < |t.items| && t.items[i].key == k) {
      var slot := LeafInsert(t, k, v, s).slot;
      InOrderInsert(t.items, Entry(k, slot), lo, hi);
      if |t.items| == 2 * s.g.degree - 1 {
        InOrderCut(InsertAt(t.items, i, Entry(k, slot)), LeafCut(t.items, k, s.g.degree), lo, hi);
      }
    }
  }

  // A separator strictly inside the interval of child i is inserted at i.
  lemma RouteOfSep(keys: seq<Key>, i: nat, sep: Key, lo: Key, hi: Key)
    requires Sorted(keys) && i <= |keys| && Lo(keys, i, lo) < sep < Hi(keys, i, hi)
    ensures FirstGT(keys, sep) == i
  {
  }

  lemma WidenKids(kids: seq<Tree>, i: nat, l: Tree, r: Tree)
    requires i < |kids|
    ensures InsertAt(kids[i := l], i + 1, r) == kids[..i] + [l, r] + kids[i + 1..]
  {
  }

  lemma OccupiedSplit(kids: seq<Tree>, i: nat, l: Tree, r: Tree, d: nat)
    requires Occupied(kids, d) && i < |kids| && Size(l) >= d - 1 && Size(r) >= d - 1
    ensures Occupied(kids[..i] + [l, r] + kids[i + 1..], d)
  {
    var cs := kids[..i] + [l, r] + kids[i + 1..];
    forall j | 0 <= j < |cs|
      ensures Size(cs[j]) >= d - 1
    {
      if j < i {
        assert cs[j] == kids[j];
      } else if j > i + 1 {
        assert cs[j] == kids[j - 1];
      }
    }
  }

  lemma RebuildWF(id: Ref, keys: seq<Key>, kids: seq<Tree>, m: nat, s: Disk, h: nat, lo: Key, hi: Key)
    requires s.g.degree >= 2 && |keys| <= 2 * s.g.degree && s.g.degree - 1 <= m <= s.g.degree
    requires h > 0 && Inner(keys, kids, s.g.degree, h - 1, lo, hi) && Occupied(kids, s.g.degree)
    ensures var g := Rebuild(id, keys, kids, m, s).0;
            GrownWF(g, s.g.degree, h, lo, hi) && (g.One? ==> Size(g.t) == |keys|)
  {
    if |keys| == 2 * s.g.degree {
      CutInner(keys, kids, m, s.g.degree, h - 1, lo, hi);
    }
  }

  lemma WidenWF(t: Tree, i: nat, l: Tree, sep: Key, r: Tree, s: Disk, h: nat, lo: Key, hi: Key)
    requires s.g.degree >= 2 && t.Node? && |t.kids| == |t.keys| + 1 && i < |t.kids| && |t.keys| <= 2 * s.g.degree - 1
    requires h > 0 && Inner(t.keys, t.kids, s.g.degree, h - 1, lo, hi) && Occupied(t.kids, s.g.degree)
    requires GrownWF(Two(l, sep, r), s.g.degree, h - 1, Lo(t.keys, i, lo), Hi(t.keys, i, hi))
    ensures var g := Widen(t, i, l, sep, r, s).0; GrownWF(g, s.g.degree, h, lo, hi) && (g.One? ==> Size(g.t) >= Size(t))
  {
    var d := s.g.degree;
    RouteOfSep(t.keys, i, sep, lo, hi);
    WidenKids(t.kids, i, l, r);
    SplitKid(t.keys, t.kids, i, l, sep, r, d, h - 1, lo, hi);
    OccupiedSplit(t.kids, i, l, r, d);
    RebuildWF(t.id, InsertAt(t.keys, i, sep), InsertAt(t.kids[i := l], i + 1, r), NodeCut(t.keys, sep, d), s, h, lo, hi);
  }

  // Setting a key keeps the search-tree invariant; a node that is not split does not shrink.
  lemma {:induction false} InsertWF(t: Tree, k: Key, v: Value, s: Disk, h: nat, lo: Key, hi: Key)
    requires GeometryOK(s.g) && Shaped(t, s.g.degree) && WF(t, s.g.degree, h, lo, hi) && lo <= k < hi
    ensures var g := Insert(t, k, v, s).grown; GrownWF(g, s.g.degree, h, lo, hi) && (g.One? ==> Size(g.t) >= Size(t))
    decreases h
  {
    if t.Leaf? {
      LeafInsertWF(t, k, v, s, lo, hi);
    } else {
      var i := FirstGT(t.keys, k);
      InsertWF(t.kids[i], k, v, s, h - 1, Lo(t.keys, i, lo), Hi(t.keys, i, hi));
      var o := Insert(t.kids[i], k, v, s);
      match o.grown
      case One(c) => ReplaceKid(t.keys, t.kids, i, c, s.g.degree, h - 1, lo, hi);
      case Two(l, sep, r) => WidenWF(t, i, l, sep, r, o.disk, h, lo, hi);
    }
  }
}
