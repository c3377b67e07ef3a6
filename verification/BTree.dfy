/** The B-tree store (BTree.cpp): a root in memory over the node file. To its caller it is an
    increasing sequence of keys. */
module BTreeStores {
  import opened Pages
  import opened BTrees
  import opened BTreeJoins
  import opened BTreeOrder
  import opened BTreeInsertion
  import opened BTreeRemoval
  import opened BTreeFiles
  import opened BTreeStored
  import opened BTreePages
  import opened BTreeNodes
  import BTreeRuns

  class BTree {
    const T: nat
    const limit: Key // above every key
    const file: NodeFile
    var root: BTreeNode?

    ghost var tree: Tree
    ghost var height: nat
    ghost var since: Ref // the next position when the store got its first key

    ghost function State(): BTreeRuns.BStore reads this, file {
      if root == null then BTreeRuns.Empty(file.State()) else BTreeRuns.Full(tree, height, since, file.State())
    }

    // The keys of the store, in order.
    ghost function Keys(): seq<Key> reads this {
      if root == null then [] else Content(tree)
    }

    // The root in memory is the tree on the file.
    ghost predicate OnDisk()
      reads this, file, root, if root == null then {} else {root.arrEntry}, if root == null then {} else {root.arrChild}
    {
      && T >= 2
      && (if root == null then file.deletedNodesPos == []
          else root.T == T && root.Holds(tree) && OnFile(tree, file.State()))
    }

    ghost predicate Valid()
      reads this, file, root, if root == null then {} else {root.arrEntry}, if root == null then {} else {root.arrChild}
    {
      OnDisk() && BTreeRuns.Inv(State(), T, limit)
    }

    // The next insertion of the key would take it out of its node and add it again.
    ghost predicate Doubles(key: Key) reads this, file requires T >= 2 {
      BTreeRuns.Doubles(State(), BTreeRuns.Insert(key), T)
    }

    // At every moment the keys are strictly increasing.
    lemma KeysIncrease()
      requires Valid()
      ensures Increasing(Keys(), -1, limit)
    {
      BTreeRuns.InvIncreasing(State(), T, limit);
    }

    constructor (maxDegree: nat, keyLimit: Key)
      requires maxDegree >= 2
      ensures Valid() && fresh(file) && State() == BTreeRuns.New() && T == maxDegree && limit == keyLimit
    {
      T, limit, root := maxDegree, keyLimit, null;
      file := new NodeFile();
    }

    // A new key is added; a present one stays, and only its value is overwritten, unless a
    // split on the way takes it out of its node: then it is added a second time.
    method Insert(key: Key)
      requires Valid() && 0 <= key < limit
      modifies this, file, root, if root == null then {} else {root.arrEntry}, if root == null then {} else {root.arrChild}
      ensures State() == BTreeRuns.Step(old(State()), BTreeRuns.Insert(key), T).0
      ensures root != null && OnDisk() && (Valid() || old(Doubles(key)))
      ensures root == old(root) || (fresh(root) && fresh(root.arrEntry) && fresh(root.arrChild))
      ensures if key in old(Keys()) && !old(Doubles(key)) then Keys() == old(Keys()) else Gains(old(Keys()), Keys(), key)
      ensures old(Doubles(key)) ==> key in old(Keys()) && !Sorted(Keys())
      ensures old(root) != null ==> Moved(old(tree), old(file.State()), tree, file.State())
    {
      hide Good, OnFile, Moved, Content, BTrees.InsertRoot, InsertNonFull, PageOf, Gains, BTreeNode.View, RootSplitOut, Sorted,
        BTreeRuns.Exact;
      BTreeRuns.InsertKeeps(State(), key, T, limit);
      if root == null {
        FirstInsert(key);
        return;
      }
      ghost var t, s, h := tree, file.State(), height;
      PageShape(t);
      root.ViewOK();
      InsertRootMoved(t, key, T, h, -1, limit, s);
      MovedOnFile(t, s, BTrees.InsertRoot(t, key, T, h, s).0, BTrees.InsertRoot(t, key, T, h, s).1);
      if root.nEntry == 2 * T - 1 {
        GrowAndInsert(key);
        height := h + 1;
      } else {
        RootEnters(t, key, T, h, -1, limit, s);
        root.InsertNonFull(file, key, t, h, -1, limit);
        RootInserted(t, key, T, h, s);
      }
      tree := BTrees.InsertRoot(t, key, T, h, s).0;
    }

    method FirstInsert(key: Key)
      requires Valid() && root == null && 0 <= key < limit
      modifies this, file
      ensures root != null && fresh(root) && fresh(root.arrEntry) && fresh(root.arrChild) && OnDisk()
      ensures State() == BTreeRuns.Inserted(old(State()), key, T)
    {
      BTreeRuns.FirstInv(file.State(), key, T, limit);
      since := file.nextPosNode;
      var pos := file.TakePos();
      root := new BTreeNode(true, T);
      root.arrEntry[0] := key;
      root.nEntry := 1;
      root.pos := pos;
      tree, height := Node(pos, [key], []), 0;
      assert root.View() == PageOf(tree);
      root.WriteNode(file);
    }

    // A full root gets a new root over it, and is split.
    method GrowAndInsert(key: Key)
      requires Valid() && root != null && |tree.keys| == 2 * T - 1 && 0 <= key < limit
      modifies this`root, file, root, root.arrEntry, root.arrChild
      ensures root != null && fresh(root) && fresh(root.arrEntry) && fresh(root.arrChild)
      ensures root.T == T && var (t1, s1) := BTrees.InsertRoot(old(tree), key, T, old(height), old(file.State()));
              root.Holds(t1) && file.State() == s1
    {
      hide Good, OnFile, Content, SplitChild, InsertNonFull, PageOf, BTreeNode.View, Readable, Take, Gains;
      ghost var t, s, h := tree, file.State(), height;
      RootGrows(t, key, T, h, -1, limit, s);
      PageShape(t);
      root.ViewOK();
      var newNode := new BTreeNode(false, T);
      newNode.pos := file.TakePos();
      newNode.arrChild[0] := root.pos;
      ghost var r := Node(newNode.pos, [], [t]);
      NewRootPage(newNode, r, t);
      newNode.SplitChild(file, 0, root, r);
      ghost var t1 := BTrees.SplitChild(r, 0, T, Take(s).0).0;
      ghost var s2 := file.State();
      newNode.ViewOK();
      PageShape(t1);
      var i := 0;
      if newNode.KeyAt(0) < key {
        i := 1;
      }
      var child := newNode.ReadChild(file, i, t1);
      child.InsertNonFull(file, key, t1.kids[i], h, Lo(t1.keys, i, -1), Ceiling(t1, i, key, limit));
      SamePage(t1, i, BTrees.InsertNonFull(t1.kids[i], key, T, h, s2).0);
      root := newNode;
    }

    method Search(key: Key) returns (r: bool)
      requires Valid() && 0 <= key < limit
      ensures r == (key in Keys())
    {
      r := false;
      if root != null && root.nEntry != 0 {
        SearchFinds(tree, key, height, -1, limit);
        r := root.Search(file, key, tree, height, -1, limit);
      }
    }

    method Remove(key: Key) returns (result: bool)
      requires Valid() && 0 <= key < limit
      modifies this, file, root, if root == null then {} else {root.arrEntry}, if root == null then {} else {root.arrChild}
      ensures Valid() && (State(), result) == BTreeRuns.Step(old(State()), BTreeRuns.Remove(key), T)
      ensures root == null || root == old(root) || (fresh(root) && fresh(root.arrEntry) && fresh(root.arrChild))
      ensures result == (key in old(Keys()))
      ensures if result then Gains(Keys(), old(Keys()), key) else Keys() == old(Keys())
      ensures root != null ==> Moved(old(tree), old(file.State()), tree, file.State())
    {
      hide Good, OnFile, Moved, Content, BTrees.Remove, RemoveRoot, PageOf, Gains, BTreeNode.View, Readable, Increasing,
        BTreeRuns.Exact, BTreeRuns.Removed;
      if root == null {
        return false;
      }
      ghost var t, s, h := tree, file.State(), height;
      BTreeRuns.RemoveKeeps(State(), key, T, limit);
      RemoveRootMoved(t, key, T, h, -1, limit, s);
      RootAfter(State(), key, T, limit);
      ghost var r := BTrees.Remove(t, key, T, h, s);
      result := root.Remove(file, key, t, h, -1, limit, true);
      PageShape(r.t);
      root.ViewOK();
      if root.nEntry == 0 {
        ShrinkRoot(r.t);
        height := if h > 0 then h - 1 else 0;
      }
      tree := if r.t.keys == [] && r.t.kids != [] then r.t.kids[0] else r.t;
    }

    // An empty root is given up: for its only child, or, if it is a leaf, with the whole file.
    method ShrinkRoot(ghost t: Tree)
      requires root != null && root.Holds(t) && root.T == T && T >= 2 && root.nEntry == 0 && root.flag != DELETED
      requires t.kids != [] ==> Readable(t.kids[0], T, file.pages)
      modifies this`root, file, root
      ensures t.kids == [] ==> root == null && file.State() == BFile(map[t.id := PageOf(t)], [], old(file.nextPosNode))
      ensures t.kids != [] ==>
        && root != null && fresh(root) && fresh(root.arrEntry) && fresh(root.arrChild)
        && root.T == T && root.Holds(t.kids[0])
        && file.State() == PutPage(old(file.State()).(freed := old(file.State()).freed + [t.id]), t.id, BDeleted)
    {
      PageShape(t);
      assert t.kids != [] ==> root.arrChild[..1] == KidIds(t.kids);
      var tmp := root;
      if root.flag == LEAF {
        root := null;
        file.pages, file.deletedNodesPos := map[], [];
      } else {
        root := BTreeNode.ReadNode(file, T, root.arrChild[0]);
        file.deletedNodesPos := file.deletedNodesPos + [tmp.pos];
        tmp.flag := DELETED;
      }
      tmp.WriteNode(file);
    }
  }

  // The new root, before its only child is split.
  lemma NewRootPage(n: BTreeNode, r: Tree, t: Tree)
    requires n.Valid() && n.flag == INTERNAL && n.nEntry == 0 && n.arrChild[0] == t.id && r == Node(n.pos, [], [t])
    ensures n.Holds(r)
  {
    assert n.arrChild[..1] == [t.id] == KidIds([t]);
  }

  lemma RootEnters(t: Tree, k: Key, T: nat, h: nat, lo: Key, hi: Key, s: BFile)
    requires T >= 2 && Good(t, T, h, lo, hi) && |t.keys| < 2 * T - 1 && lo < k < hi && OnFile(t, s)
    ensures InsertEnters(t, k, T, h, lo, hi, s)
  {
    NodeShape(t, T, h, lo, hi);
  }

  lemma RootInserted(t: Tree, k: Key, T: nat, h: nat, s: BFile)
    requires T >= 2 && |t.keys| < 2 * T - 1
    ensures BTrees.InsertRoot(t, k, T, h, s) == InsertNonFull(t, k, T, h, s)
  {
  }

  // After the split of a full root one half is entered.
  lemma RootGrows(t: Tree, k: Key, T: nat, h: nat, lo: Key, hi: Key, s: BFile)
    requires T >= 2 && Good(t, T, h, lo, hi) && |t.keys| == 2 * T - 1 && lo < k < hi && OnFile(t, s)
    ensures Row(t.keys, t.kids)
    ensures var (s1, id) := Take(s);
            var (t1, s2) := SplitChild(Node(id, [], [t]), 0, T, s1);
            var j := if t1.keys[0] < k then 1 else 0;
            && |t1.keys| == 1 && |t1.kids| == 2
            && InsertEnters(t1.kids[j], k, T, h, Lo(t1.keys, j, lo), Ceiling(t1, j, k, hi), s2)
  {
    hide Content, Ordered, Occupied, SplitChild, Stored, Ids, Moved, Flat, PageOf, BFits, Take, FirstGE, OnFile, Readable, Good,
      Apart, Row, Gains, SplitOut;
    NodeShape(t, T, h, lo, hi);
    var (s1, id) := Take(s);
    var r := Node(id, [], [t]);
    var (t1, s2) := SplitChild(r, 0, T, s1);
    var j := if t1.keys[0] < k then 1 else 0;
    NewRootSettled(t, T, s);
    RootEntersAny(t, k, T, h, lo, hi, s);
    MovedOnFile(t, s, t1, s2);
    KidOnFile(t1, j, s2);
    Openable(t1, T, h + 1, lo, hi, s2);
  }

  // What a removal leaves at the root: an empty leaf, an internal node with one child, or the root.
  lemma RootAfter(st: BTreeRuns.BStore, k: Key, T: nat, limit: Key)
    requires T >= 2 && BTreeRuns.Inv(st, T, limit) && st.Full? && 0 <= k < limit
    ensures var (t, h, s) := (st.tree, st.height, st.file);
            var r, q := BTrees.Remove(t, k, T, h, s), RemoveRoot(t, k, T, h, s);
            && (r.t.kids == [] <==> h == 0) && Row(r.t.keys, r.t.kids) && r.t.id == t.id
            && (h > 0 ==> |r.t.kids| >= 1 && Readable(r.t.kids[0], T, r.file.pages))
            && (q.t, q.file) == (if r.t.keys == [] && h > 0 then (r.t.kids[0], PutPage(r.file.(freed := r.file.freed + [t.id]), t.id, BDeleted))
                                 else (r.t, r.file))
            && BTreeRuns.Removed(st, k, T) == (
                 if r.t.keys == [] && h == 0 then BTreeRuns.Empty(BFile(map[r.t.id := PageOf(r.t)], [], r.file.next))
                 else BTreeRuns.Full(q.t, if r.t.keys == [] then h - 1 else h, st.since, q.file), r.ok)
  {
    hide Ordered, Occupied, Stored, Ids, Moved, PageOf, BFits, BTreeRuns.Exact, Content, BTrees.Remove;
    var (t, h, s) := (st.tree, st.height, st.file);
    RemoveGood(t, k, T, h, -1, limit, s, true);
    RemoveRootGood(t, k, T, h, -1, limit, s);
    RemoveSettled(t, k, T, h, -1, limit, s, true);
    var r := BTrees.Remove(t, k, T, h, s);
    MovedOnFile(t, s, r.t, r.file);
    NodeShape(r.t, T, h, -1, limit);
    if h > 0 {
      Openable(r.t, T, h, -1, limit, r.file);
    }
  }
}
