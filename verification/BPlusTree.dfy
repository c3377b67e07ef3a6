/** The store (BPlusTree.cpp): the root node in memory and the root named by the header page,
    over one file. To its caller it is a map. */
module BPlusTrees {
  import opened Pages
  import opened Trees
  import opened Order
  import opened Accounts
  import opened Address
  import opened FreeStacks
  import opened Files
  import opened Insertion
  import opened Removal
  import opened InsertionDisk
  import opened Store
  import opened StoreSteps
  import opened StoreRemoval
  import opened Counting
  import opened Runs
  import opened Reopening
  import opened Continuing
  import opened Nodes

  class BPlusTree {
    const metaData: MetaData
    const limit: Key // above every key code
    var root: BPlusTreeNode
    // What the header page on disk names: the root, and the value cursor of that moment.
    var headerRoot: Ref
    var headerCursor: Ref

    ghost var tree: Tree
    ghost var contents: map<Key, Value>
    ghost var peakKeys: nat
    ghost var peakNodes: nat

    ghost function Abs(): Store
      requires metaData.layout.OK()
      reads this, metaData, metaData.delNodePages, metaData.delValues
    {
      Store(tree, headerRoot, metaData.State(), headerCursor)
    }

    // The root is in memory and the tree below it on disk: enough to read the store.
    ghost predicate Readable()
      reads this, root, root.keys, root.childs, metaData, metaData.delNodePages, metaData.delValues
    {
      && metaData.Valid() && root.metaData == metaData && root.Holds(tree)
      && InTree(Abs(), limit) && Means(Abs(), contents)
    }

    ghost predicate Valid()
      reads this, root, root.keys, root.childs, metaData, metaData.delNodePages, metaData.delValues
    {
      && Readable() && Inv(Abs(), limit) && HeaderOK(Abs())
      && |metaData.pages| == peakNodes && |metaData.values| == peakKeys
    }

    // A new store.
    constructor (l: Layout, degree: nat, keyLimit: Key)
      requires l.OK() && degree >= 2
      ensures Valid() && fresh(metaData) && fresh(metaData.delNodePages) && fresh(metaData.delValues)
      ensures fresh(root) && fresh(root.keys) && fresh(root.childs)
      ensures limit == keyLimit && contents == map[] && peakKeys == 0 && peakNodes == 1
      ensures Abs() == New(Geometry(degree, l.Slots(), l.Span()))
    {
      var m := new MetaData(l, degree);
      var r := new BPlusTreeNode(m, LEAF_NODE);
      metaData, limit, root, headerRoot, headerCursor := m, keyLimit, r, 0, 0;
      tree, contents, peakKeys, peakNodes := Leaf(r.offSet, []), map[], 0, 1;
      new;
      LayoutGeometry(l, degree);
      NewInv(Geometry(degree, l.Slots(), l.Span()), keyLimit);
    }

    // A store opened again from the files that another one left.
    constructor Open(before: BPlusTree)
      requires before.Valid()
      ensures Readable() && fresh(metaData) && fresh(metaData.delNodePages) && fresh(metaData.delValues)
      ensures fresh(root) && fresh(root.keys) && fresh(root.childs)
      ensures limit == before.limit && contents == before.contents
      ensures Abs() == Reopened(before.Abs()) && (!Lagging(before.Abs()) ==> Valid())
    {
      hide Inv, Means, SlotOK, Layout.OK, HeaderOK, InTree, Lagging, DelNodeList.Valid, PageOf, BPlusTreeNode.View;
      ghost var st := before.Abs();
      SavedSlot(st, before.limit, before.metaData.layout);
      ReopenedReads(st, before.limit);
      ReopenedMeaning(st, before.contents);
      var b := before.metaData;
      b.delNodePages.WordsWritten();
      b.delValues.WordsWritten();
      var m := new MetaData.Open(b.layout, b.maxDegree, b.filePages, b.pages, b.values, before.headerCursor,
                                 b.delNodePages.words, b.delValues.words);
      RootReadable(st, before.limit);
      var r := BPlusTreeNode.GetNode(m, before.headerRoot);
      metaData, limit, root, headerRoot, headerCursor := m, before.limit, r, before.headerRoot, before.headerCursor;
      tree, contents, peakKeys, peakNodes := before.tree, before.contents, before.peakKeys, before.peakNodes;
      new;
      assert Abs() == Reopened(st);
      if !Lagging(st) {
        ReopenedInv(st, before.limit);
      }
    }

    // The header page names a new root and the cursor of that moment, or is as it was.
    predicate HeaderFollows(changed: bool, rootBefore: Ref, cursorBefore: Ref) reads this, root, metaData {
      if changed then headerRoot == root.offSet && headerCursor == metaData.emptyValueNode
      else headerRoot == rootBefore && headerCursor == cursorBefore
    }

    // The root in memory, and the header page, follow the tree.
    method UpdateRoot(newRoot: BPlusTreeNode, ghost st: Store, ghost m: map<Key, Value>)
      requires metaData.Valid() && newRoot.metaData == metaData && newRoot.Holds(st.root) && metaData.State() == st.disk
      requires st.header == (if newRoot == root then headerRoot else st.root.id)
      requires st.saved == (if newRoot == root then headerCursor else st.disk.cursor)
      requires Inv(st, limit) && HeaderOK(st) && Means(st, m)
      modifies this
      ensures Valid() && root == newRoot && tree == st.root && contents == m && Abs() == st
      ensures HeaderFollows(newRoot != old(root), old(headerRoot), old(headerCursor))
      ensures peakNodes == |st.disk.pages| && peakKeys == |st.disk.values|
    {
      hide Inv, Means, HeaderOK, InTree, MetaData.State, PageOf, DelNodeList.Valid, Layout.OK, SlotOK, BPlusTreeNode.View;
      InvReads(st, limit);
      if newRoot != root {
        root := newRoot;
        headerRoot, headerCursor := root.offSet, metaData.emptyValueNode;
      }
      tree, contents := st.root, m;
      peakNodes, peakKeys := |metaData.pages|, |metaData.values|;
      assert Abs() == st;
    }

    // Each operation also tells the nodes on its descent, one of each level.
    method Set(key: Key, value: Value) returns (ghost path: seq<Ref>)
      requires Valid() && 0 <= key < limit
      modifies this, root, root.keys, root.childs, metaData, metaData.delNodePages, metaData.delValues
      ensures Valid() && (root == old(root) || (fresh(root) && fresh(root.keys) && fresh(root.childs)))
      ensures contents == old(contents)[key := value] && Abs() == Step(old(Abs()), Op.Set(key, value)).0
      ensures HeaderFollows(root != old(root), old(headerRoot), old(headerCursor))
      ensures peakKeys == Max(old(peakKeys), |contents|) && peakNodes == Max(old(peakNodes), |Ids(tree)|)
      ensures path == Descent(old(tree), key) && |path| == Height(old(tree)) + 1
    {
      hide Inv, Means, HeaderOK, InTree, MetaData.State, Insert, InsertRoot, SetKey, PageOf, Shaped, GeometryOK, Removable, Ids,
        Max, Height, WF, Stored, DiskOK, SlotsLive, Ownership.Apart, DelNodeList.Valid, Layout.OK, SlotOK, Descent;
      ghost var st := Abs();
      SetReady(st, limit);
      SetOutcome(st, key, value, contents, limit);
      DescentLength(tree, key, st.disk.g.degree, Height(tree), 0, limit);
      var newRoot;
      newRoot, path := root.Insert(key, value, tree, Height(tree), 0, limit);
      UpdateRoot(newRoot, SetKey(st, key, value), contents[key := value]);
    }

    method Get(key: Key) returns (r: Option<Value>, ghost path: seq<Ref>)
      requires Readable()
      ensures r == if key in contents then Some(contents[key]) else None
      ensures path == Descent(tree, key) && |path| == Height(tree) + 1
    {
      hide Find, Height, WF, Stored, Descent;
      OpenTree(Abs(), limit);
      DescentLength(tree, key, metaData.maxDegree, Height(tree), 0, limit);
      r, path := root.Get(key, tree, Height(tree), 0, limit);
      assert r == GetKey(Abs(), key);
    }

    method Exist(key: Key) returns (r: bool, ghost path: seq<Ref>)
      requires Readable()
      ensures r == (key in contents)
      ensures path == Descent(tree, key) && |path| == Height(tree) + 1
    {
      hide Find, Height, WF, Stored, Descent;
      OpenTree(Abs(), limit);
      FoundLive(Abs(), key, limit);
      DescentLength(tree, key, metaData.maxDegree, Height(tree), 0, limit);
      r, path := root.Exist(key, tree, Height(tree), 0, limit);
      assert r == GetKey(Abs(), key).Some?;
    }

    method Remove(key: Key) returns (r: bool, ghost path: seq<Ref>)
      requires Valid()
      modifies this, root, root.keys, root.childs, metaData, metaData.delNodePages, metaData.delValues
      ensures Valid() && (root == old(root) || (fresh(root) && fresh(root.keys) && fresh(root.childs)))
      ensures r == (key in old(contents)) && contents == old(contents) - {key} && Abs() == Step(old(Abs()), Op.Remove(key)).0
      ensures HeaderFollows(root != old(root), old(headerRoot), old(headerCursor))
      ensures peakKeys == old(peakKeys) && peakNodes == old(peakNodes)
      ensures path == Descent(old(tree), key) && |path| == Height(old(tree)) + 1
    {
      hide Inv, Means, HeaderOK, InTree, MetaData.State, RemoveRoot, RemoveKey, PageOf, Shaped, GeometryOK, Removable, Height,
        WF, Stored, DiskOK, SlotsLive, DelNodeList.Valid, Layout.OK, SlotOK, Descent;
      ghost var st := Abs();
      SetReady(st, limit);
      RemoveOutcome(st, key, contents, limit);
      DescentLength(tree, key, st.disk.g.degree, Height(tree), 0, limit);
      var result;
      result, path := root.Remove(key, tree, Height(tree), 0, limit);
      if result != null && result != root {
        root.ClearChilds();
      }
      UpdateRoot(if result == null then root else result, RemoveKey(st, key).0, contents - {key});
      r := result != null;
    }

    // A root read back from the header and the pages alone is the root in memory.
    method RootOnDisk() returns (n: BPlusTreeNode)
      requires Valid()
      ensures fresh(n) && fresh(n.keys) && fresh(n.childs)
      ensures n.metaData == metaData && n.Holds(tree) && root.Holds(tree)
    {
      n := BPlusTreeNode.GetNode(metaData, headerRoot);
    }
  }

  // What reading needs of a store.
  ghost predicate InTree(st: Store, limit: Key) {
    && TreeOK(st.root, st.disk.g.degree, limit) && Stored(st.root, st.disk.pages) && st.header == st.root.id
    && SlotsLive(st.root, st.disk) && Shaped(st.root, st.disk.g.degree)
  }

  lemma InvReads(st: Store, limit: Key)
    requires Inv(st, limit)
    ensures InTree(st, limit)
  {
    InvOwns(st, limit);
    InvShaped(st, limit);
  }

  lemma OpenTree(st: Store, limit: Key)
    requires InTree(st, limit)
    ensures WF(st.root, st.disk.g.degree, Height(st.root), 0, limit) && KidsStored(st.root, st.disk.pages)
  {
  }

  lemma FoundLive(st: Store, k: Key, limit: Key)
    requires InTree(st, limit)
    ensures GetKey(st, k).Some? == Find(st.root, k).Some?
  {
    hide TreeOK, Stored, Find;
    if Find(st.root, k).Some? {
      Found(st, k, Find(st.root, k).value, limit);
    }
  }

  // The cursor of the header page is one that slots can be counted from.
  lemma SavedSlot(st: Store, limit: Key, l: Layout)
    requires Inv(st, limit) && HeaderOK(st) && l.OK() && st.disk.g.slots == l.Slots() && st.disk.g.span == l.Span()
    ensures SlotOK(l, st.saved)
  {
    hide TreeOK, Stored, HeldNode, HeldSlot, Issued, Covered;
    ZeroSlot(l);
  }

  lemma ReopenedReads(st: Store, limit: Key)
    requires Inv(st, limit)
    ensures InTree(Reopened(st), limit)
  {
    InvReads(st, limit);
  }

  lemma RootReadable(st: Store, limit: Key)
    requires Inv(st, limit)
    ensures st.header in st.disk.pages && st.disk.pages[st.header] == PageOf(st.root) && Fits(PageOf(st.root), st.disk.g.degree)
    ensures st.header == st.root.id
  {
    WFFits(st.root, st.disk.g.degree, Height(st.root), 0, limit);
  }

  // What the invariant gives the operations of the root node.
  lemma SetReady(st: Store, limit: Key)
    requires Inv(st, limit)
    ensures Ready(st, limit) && st.header == st.root.id && Stored(st.root, st.disk.pages)
    ensures Removable(st.root, st.disk, Height(st.root), 0, limit)
    ensures WF(st.root, st.disk.g.degree, Height(st.root), 0, limit) && DiskOK(st.disk)
    ensures Ownership.Apart(Ids(st.root), st.disk) && SlotsLive(st.root, st.disk)
  {
    InvShaped(st, limit);
    InvOwns(st, limit);
  }

  // One set, and one removal: the root after it, and what the store means then.
  lemma SetOutcome(st: Store, k: Key, v: Value, m: map<Key, Value>, limit: Key)
    requires Ready(st, limit) && 0 <= k < limit && Means(st, m)
    ensures var (t, o) := InsertRoot(st.root, k, v, st.disk); var st1 := SetKey(st, k, v);
            && st1.root == t && st1.disk == o.disk && st1.header == (if o.grown.One? then st.header else t.id)
            && st1.saved == (if o.grown.One? then st.saved else o.disk.cursor)
            && (o.grown.One? ==> t.id == st.root.id)
    ensures var st1 := SetKey(st, k, v);
            && Inv(st1, limit) && Means(st1, m[k := v]) && (HeaderOK(st) ==> HeaderOK(st1))
            && |st1.disk.pages| == Max(|st.disk.pages|, |Ids(st1.root)|)
            && |st1.disk.values| == Max(|st.disk.values|, |m[k := v]|)
  {
    hide Inv, Means, Insert, Shaped, GeometryOK, Ids;
    SetMeans(st, k, v, m, limit);
    StepSpace(st, Op.Set(k, v), limit);
    StepGrows(st, Op.Set(k, v), limit);
    KeysAreMapSize(SetKey(st, k, v), m[k := v], limit);
    InvHeader(SetKey(st, k, v), limit);
    InvHeader(st, limit);
  }

  lemma InvHeader(st: Store, limit: Key)
    requires Inv(st, limit)
    ensures st.header == st.root.id
  {
  }

  lemma RemoveOutcome(st: Store, k: Key, m: map<Key, Value>, limit: Key)
    requires Ready(st, limit) && Means(st, m)
    ensures var r := RemoveRoot(st.root, k, st.disk); var (st1, ok) := RemoveKey(st, k);
            && st1.root == r.t && st1.disk == r.disk && ok == r.ok
            && st1.header == (if ok && r.t.id != st.root.id then r.t.id else st.header)
            && st1.saved == (if ok && r.t.id != st.root.id then r.disk.cursor else st.saved)
    ensures var (st1, ok) := RemoveKey(st, k);
            && Inv(st1, limit) && Means(st1, m - {k}) && ok == (k in m) && (HeaderOK(st) ==> HeaderOK(st1))
            && |st1.disk.pages| == |st.disk.pages| && |st1.disk.values| == |st.disk.values|
  {
    hide Inv, Means, MetaData.State, RemoveRoot, Shaped, GeometryOK;
    RemoveMeans(st, k, m, limit);
    RemoveFacts(st, k, limit);
    if HeaderOK(st) {
      RemoveKeepsHeader(st, k, limit);
    }
  }

  lemma RemoveKeepsHeader(st: Store, k: Key, limit: Key)
    requires Ready(st, limit) && HeaderOK(st)
    ensures HeaderOK(RemoveKey(st, k).0)
  {
    hide DiskOK, RemoveRoot, Shaped, GeometryOK, Inv;
    RemoveDisk(st, k, limit);
    CursorIssued(RemoveKey(st, k).0.disk);
  }

  lemma LayoutGeometry(l: Layout, degree: nat)
    requires l.OK() && degree >= 2
    ensures GeometryOK(Geometry(degree, l.Slots(), l.Span()))
  {
  }
}
