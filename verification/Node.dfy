/** A node of the B+ tree in memory (BPlusTreeNode.cpp): fixed arrays of keys and children,
    shifted in place, and written back to its page. */
module Nodes {
  import opened Pages
  import opened Trees
  import opened Order
  import opened Search
  import opened Accounts
  import opened Ownership
  import opened Files
  import opened FreeStacks
  import opened Insertion
  import opened InsertionDisk
  import opened InsertionStored
  import opened Removal
  import opened RemovalTree
  import opened RemovalContent
  import opened RemovalStored
  import opened Rows
  import opened Sequences

  datatype Flag = LEAF_NODE | INTERNAL_NODE | REMOVED_NODE

  // The separator and the page of a new right neighbour (the source's Entry).
  datatype Promoted = Promoted(key: Key, value: Ref)

  function EmptyPage(flag: Flag): Page {
    match flag
    case LEAF_NODE => LeafPage([], [])
    case INTERNAL_NODE => NodePage([], [0])
    case REMOVED_NODE => FreePage
  }

  function FlagOf(p: Page): Flag {
    match p
    case LeafPage(_, _) => LEAF_NODE
    case NodePage(_, _) => INTERNAL_NODE
    case FreePage => REMOVED_NODE
  }

  // A page that a node of degree d can hold.
  predicate Fits(p: Page, d: nat) {
    match p
    case LeafPage(keys, refs) => |keys| <= 2 * d - 1 && |refs| == |keys|
    case NodePage(keys, refs) => |keys| <= 2 * d - 1 && |refs| == |keys| + 1
    case FreePage => true
  }

  class BPlusTreeNode {
    const metaData: MetaData
    const keys: array<Key>
    const childs: array<Ref>
    var flag: Flag
    var size: nat
    var offSet: Ref

    ghost predicate Valid() reads this {
      && metaData.maxDegree >= 2
      && keys.Length == 2 * metaData.maxDegree - 1 && childs.Length == 2 * metaData.maxDegree
      && keys as object != childs
      && size <= keys.Length
    }

    // What the node's page holds when it is written. The slot after a leaf's last value, its
    // link to the next leaf, is not part of it.
    function View(): Page
      requires Valid()
      reads this, keys, childs
    {
      match flag
      case LEAF_NODE => LeafPage(keys[..size], childs[..size])
      case INTERNAL_NODE => NodePage(keys[..size], childs[..size + 1])
      case REMOVED_NODE => FreePage
    }

    lemma ViewOK()
      requires Valid()
      ensures flag == REMOVED_NODE <==> View() == FreePage
      ensures flag != REMOVED_NODE ==> |View().keys| == size && |View().refs| == (if flag == LEAF_NODE then size else size + 1)
      ensures View().LeafPage? == (flag == LEAF_NODE) && View().NodePage? == (flag == INTERNAL_NODE)
    {
    }

    function KeyAt(i: nat): (k: Key)
      requires Valid() && i < size && flag != REMOVED_NODE
      reads this, keys, childs
      ensures k == View().keys[i]
    {
      keys[i]
    }

    function ChildAt(i: nat): (r: Ref)
      requires Valid() && flag != REMOVED_NODE && i < (if flag == LEAF_NODE then size else size + 1)
      reads this, keys, childs
      ensures r == View().refs[i]
    {
      childs[i]
    }

    ghost predicate Distinct(n: BPlusTreeNode) {
      && n != this && n.keys != keys && n.childs != childs
      && n.keys as object != childs && n.childs as object != keys
    }

    // A new node takes a page.
    constructor (m: MetaData, f: Flag)
      requires m.Valid()
      modifies m, m.delNodePages
      ensures Valid() && fresh(keys) && fresh(childs) && metaData == m && flag == f && size == 0
      ensures forall j :: 0 <= j < childs.Length ==> childs[j] == 0
      ensures m.Valid() && (m.State(), offSet) == AppendNode(old(m.State()), EmptyPage(f))
    {
      metaData := m;
      keys := new Key[2 * m.maxDegree - 1](_ => 0);
      childs := new Ref[2 * m.maxDegree](_ => 0);
      flag := f;
      size := 0;
      offSet := 0;
      new;
      assert View() == EmptyPage(f) by { assert childs[..1] == [0]; }
      var id := m.AppendNodePageToFile(View());
      offSet := id;
    }

    // A node read back from its page.
    constructor FromPage(m: MetaData, page: Page, id: Ref)
      requires m.maxDegree >= 2 && Fits(page, m.maxDegree)
      ensures Valid() && fresh(keys) && fresh(childs) && metaData == m && offSet == id && View() == page
    {
      metaData := m;
      keys := new Key[2 * m.maxDegree - 1](_ => 0);
      childs := new Ref[2 * m.maxDegree](_ => 0);
      flag := FlagOf(page);
      size := if page.FreePage? then 0 else |page.keys|;
      offSet := id;
      new;
      if !page.FreePage? {
        var i := 0;
        while i < size
          modifies keys, childs
          invariant 0 <= i <= size == |page.keys|
          invariant keys[..i] == page.keys[..i] && childs[..i] == page.refs[..i]
        {
          keys[i], childs[i] := page.keys[i], page.refs[i];
          i := i + 1;
        }
        if page.NodePage? {
          childs[size] := page.refs[size];
        }
      }
    }

    // A new root over two halves. Its page is taken first and written by the caller.
    constructor NewRoot(key: Key, left: BPlusTreeNode, right: BPlusTreeNode)
      requires left.Valid() && left.metaData.Valid()
      modifies left.metaData, left.metaData.delNodePages
      ensures Valid() && fresh(keys) && fresh(childs) && metaData == left.metaData && metaData.Valid()
      ensures View() == NodePage([key], [left.offSet, right.offSet])
      ensures (metaData.State(), offSet) == AppendNode(old(left.metaData.State()), NodePage([], [0]))
    {
      metaData := left.metaData;
      keys := new Key[2 * left.metaData.maxDegree - 1](_ => 0);
      childs := new Ref[2 * left.metaData.maxDegree](_ => 0);
      flag := INTERNAL_NODE;
      size := 0;
      offSet := 0;
      new;
      assert View() == NodePage([], [0]) by { assert childs[..1] == [0]; }
      var id := metaData.AppendNodePageToFile(View());
      offSet := id;
      keys[0] := key;
      childs[0], childs[1] := left.offSet, right.offSet;
      size := 1;
      assert keys[..1] == [key] && childs[..2] == [left.offSet, right.offSet];
    }

    static method GetNode(m: MetaData, id: Ref) returns (n: BPlusTreeNode)
      requires m.Valid() && id in m.pages && Fits(m.pages[id], m.maxDegree)
      ensures fresh(n) && fresh(n.keys) && fresh(n.childs)
      ensures n.Valid() && n.metaData == m && n.offSet == id && n.View() == m.pages[id]
    {
      n := new BPlusTreeNode.FromPage(m, m.pages[id], id);
    }

    method FlushToFile()
      requires Valid() && metaData.Valid()
      modifies metaData`pages
      ensures metaData.Valid() && metaData.State() == Flush(old(metaData.State()), offSet, View())
    {
      metaData.FlushNodePageToFile(View(), offSet);
    }

    // ----- insertion -----

    // The entries above the key move right, and leave room for one at the result.
    method ShiftEntries(key: Key) returns (at: nat)
      requires Valid() && size < keys.Length && Sorted(keys[..size]) && key !in keys[..size]
      modifies keys, childs
      ensures at <= size && at == FirstGE(old(keys[..size]), key)
      ensures forall j :: 0 <= j < at ==> keys[j] == old(keys[j]) && childs[j] == old(childs[j])
      ensures forall j :: at < j <= size ==> keys[j] == old(keys[j - 1]) && childs[j] == old(childs[j - 1])
    {
      ghost var ks := keys[..size];
      childs[size + 1] := childs[size];
      var i := size - 1;
      while i >= 0 && keys[i] > key
        modifies keys, childs
        invariant -1 <= i < size
        invariant forall j :: 0 <= j <= i ==> keys[j] == old(keys[j]) && childs[j] == old(childs[j])
        invariant forall j :: i + 1 < j <= size ==> keys[j] == old(keys[j - 1]) && childs[j] == old(childs[j - 1])
        invariant i + 1 < size ==> ks[i + 1] > key
      {
        keys[i + 1] := keys[i];
        childs[i + 1] := childs[i];
        i := i - 1;
      }
      at := i + 1;
      assert i >= 0 ==> ks[i] <= key;
      InsertionPoint(ks, key, at);
    }

    // At a leaf: the value gets a slot, and the leaf is written.
    method InsertLeft(key: Key, value: Value)
      requires Valid() && metaData.Valid() && flag == LEAF_NODE && size < keys.Length
      requires Sorted(keys[..size]) && key !in keys[..size]
      modifies this, keys, childs, metaData, metaData.delValues
      ensures Valid() && metaData.Valid() && flag == LEAF_NODE && offSet == old(offSet)
      ensures var i := FirstGE(old(keys[..size]), key);
              var (s1, slot) := NewValue(old(metaData.State()), value);
              && View() == LeafPage(InsertAt(old(keys[..size]), i, key), InsertAt(old(childs[..size]), i, slot))
              && metaData.State() == Flush(s1, offSet, View())
    {
      hide NewValue, TakeSlot, FirstGE, InsertAt, Flush;
      ghost var ks, cs := keys[..size], childs[..size];
      var i := ShiftEntries(key);
      keys[i] := key;
      var slot := metaData.InsertNewValueToFile(value);
      childs[i] := slot;
      size := size + 1;
      IsInserted(keys[..size], ks, i, key);
      IsInserted(childs[..size], cs, i, slot);
      FlushToFile();
    }
  
    // The same at an internal node, whose children stand to the right of their keys.
    method ShiftSeparators(key: Key) returns (at: nat)
      requires Valid() && size < keys.Length && Sorted(keys[..size]) && key !in keys[..size]
      modifies keys, childs
      ensures at <= size && at == FirstGT(old(keys[..size]), key)
      ensures forall j :: 0 <= j < at ==> keys[j] == old(keys[j])
      ensures forall j :: at < j <= size ==> keys[j] == old(keys[j - 1])
      ensures forall j :: 0 <= j <= at ==> childs[j] == old(childs[j])
      ensures forall j :: at + 1 < j <= size + 1 ==> childs[j] == old(childs[j - 1])
    {
      ghost var ks := keys[..size];
      var i := size - 1;
      while i >= 0 && keys[i] > key
        modifies keys, childs
        invariant -1 <= i < size
        invariant forall j :: 0 <= j <= i ==> keys[j] == old(keys[j])
        invariant forall j :: i + 1 < j <= size ==> keys[j] == old(keys[j - 1])
        invariant forall j :: 0 <= j <= i + 1 ==> childs[j] == old(childs[j])
        invariant forall j :: i + 2 < j <= size + 1 ==> childs[j] == old(childs[j - 1])
        invariant i + 1 < size ==> ks[i + 1] > key
      {
        keys[i + 1] := keys[i];
        childs[i + 2] := childs[i + 1];
        i := i - 1;
      }
      at := i + 1;
      assert i >= 0 ==> ks[i] <= key;
      InsertionPoint(ks, key, at);
    }

    method InsertRight(key: Key, value: Ref)
      requires Valid() && metaData.Valid() && flag == INTERNAL_NODE && size < keys.Length
      requires Sorted(keys[..size]) && key !in keys[..size]
      modifies this, keys, childs, metaData`pages
      ensures Valid() && metaData.Valid() && flag == INTERNAL_NODE && offSet == old(offSet)
      ensures var i := FirstGT(old(keys[..size]), key);
              && View() == NodePage(InsertAt(old(keys[..size]), i, key), InsertAt(old(childs[..size + 1]), i + 1, value))
              && metaData.State() == Flush(old(metaData.State()), offSet, View())
    {
      hide FirstGT, InsertAt, Flush;
      ghost var ks, cs := keys[..size], childs[..size + 1];
      var i := ShiftSeparators(key);
      keys[i] := key;
      childs[i + 1] := value;
      size := size + 1;
      IsInserted(keys[..size], ks, i, key);
      IsInserted(childs[..size + 1], cs, i + 1, value);
      FlushToFile();
    }

    // ----- splits -----

    // The entries from l on move to an empty node, with the reference that follows them.
    method MoveTail(newNode: BPlusTreeNode, l: nat)
      requires Valid() && l <= size && newNode.Valid() && newNode.size == 0 && newNode.metaData == metaData
      requires Distinct(newNode)
      modifies newNode`size, newNode.keys, newNode.childs, keys, childs
      ensures newNode.size == size - l
      ensures forall j :: 0 <= j < size - l ==> newNode.keys[j] == old(keys[j + l])
      ensures forall j :: 0 <= j <= size - l ==> newNode.childs[j] == old(childs[j + l])
      ensures forall j :: 0 <= j < l ==> keys[j] == old(keys[j]) && childs[j] == old(childs[j])
    {
      var i := l;
      while i < size
        modifies newNode`size, newNode.keys, newNode.childs, keys, childs
        invariant l <= i <= size && newNode.size == i - l
        invariant forall j :: 0 <= j < i - l ==> newNode.keys[j] == old(keys[j + l]) && newNode.childs[j] == old(childs[j + l])
        invariant forall j :: 0 <= j < l || i <= j < size ==> keys[j] == old(keys[j])
        invariant forall j :: 0 <= j < l || i <= j <= size ==> childs[j] == old(childs[j])
      {
        newNode.keys[i - l] := keys[i];
        newNode.childs[i - l] := childs[i];
        keys[i] := 0;
        childs[i] := 0;
        newNode.size := newNode.size + 1;
        i := i + 1;
      }
      newNode.childs[i - l] := childs[i];
      childs[i] := 0;
    }

    method CopyPartOfNode(f: Flag, l: nat) returns (newNode: BPlusTreeNode)
      requires Valid() && metaData.Valid() && f != REMOVED_NODE && l <= size
      modifies keys, childs, metaData, metaData.delNodePages
      ensures Valid() && metaData.Valid()
      ensures fresh(newNode) && fresh(newNode.keys) && fresh(newNode.childs)
      ensures newNode.Valid() && newNode.metaData == metaData && newNode.flag == f && newNode.size == size - l
      ensures newNode.keys[..newNode.size] == old(keys[l..size])
      ensures newNode.childs[..newNode.size + 1] == old(childs[l..size + 1])
      ensures keys[..l] == old(keys[..l]) && childs[..l] == old(childs[..l])
      ensures (metaData.State(), newNode.offSet) == AppendNode(old(metaData.State()), EmptyPage(f))
    {
      hide AppendNode;
      newNode := new BPlusTreeNode(metaData, f);
      MoveTail(newNode, l);
    }
  
    // The entry joins the half it belongs to, and both halves are written.
    method InsertIntoHalf(right: BPlusTreeNode, key: Key, value: Value)
      requires Valid() && metaData.Valid() && flag == LEAF_NODE && 0 < size < keys.Length
      requires right.Valid() && right.metaData == metaData && right.flag == LEAF_NODE && right.size < right.keys.Length
      requires Distinct(right)
      requires Sorted(keys[..size]) && key !in keys[..size]
      requires Sorted(right.keys[..right.size]) && key !in right.keys[..right.size]
      modifies this, keys, childs, right, right.keys, right.childs, metaData, metaData.delValues
      ensures Valid() && right.Valid() && metaData.Valid() && offSet == old(offSet) && right.offSet == old(right.offSet)
      ensures flag == LEAF_NODE && right.flag == LEAF_NODE
      ensures var (s1, slot) := NewValue(old(metaData.State()), value);
              var (l, r) := HalfPages(old(keys[..size]), old(childs[..size]),
                                      old(right.keys[..right.size]), old(right.childs[..right.size]), key, slot);
              && View() == l && right.View() == r
              && metaData.State() == Flush(Flush(s1, right.offSet, r), offSet, l)
    {
      hide NewValue, Flush, FirstGE, InsertAt, DelNodeList.Valid, Address.Layout.OK, Address.SlotOK;
      ghost var s1 := NewValue(metaData.State(), value).0;
      if keys[size - 1] > key {
        InsertLeft(key, value);
      } else {
        right.InsertLeft(key, value);
      }
      right.FlushToFile();
      FlushToFile();
      FlushTwice(s1, offSet, View(), right.offSet, right.View());
    }

    // A full leaf is cut at d, and the new entry joins one of the halves.
    method InsertAndSplitLeaf(key: Key, value: Value) returns (p: Promoted)
      requires Valid() && metaData.Valid() && flag == LEAF_NODE && size == keys.Length
      requires Sorted(keys[..size]) && key !in keys[..size]
      modifies this, keys, childs, metaData, metaData.delValues, metaData.delNodePages
      ensures Valid() && metaData.Valid() && flag == LEAF_NODE && offSet == old(offSet)
      ensures var d := metaData.maxDegree;
              var ks, cs := old(keys[..size]), old(childs[..size]);
              var (s1, rid) := AppendNode(old(metaData.State()), LeafPage([], []));
              var (s2, slot) := NewValue(s1, value);
              var (l, r) := HalfPages(ks[..d], cs[..d], ks[d..], cs[d..], key, slot);
              && View() == l && |r.keys| > 0 && p == Promoted(r.keys[0], rid)
              && metaData.State() == Flush(Flush(s2, rid, r), offSet, l)
    {
      hide NewValue, AppendNode, Flush, FirstGE, DelNodeList.Valid, Address.Layout.OK, Address.SlotOK;
      var d := metaData.maxDegree;
      ghost var ks, cs := keys[..size], childs[..size];
      var newRightNode := CopyPartOfNode(LEAF_NODE, d);
      childs[size] := 0;
      size := d;
      assert keys[..size] == ks[..d] && childs[..size] == cs[..d];
      assert newRightNode.keys[..newRightNode.size] == ks[d..];
      assert newRightNode.childs[..newRightNode.size] == cs[d..];
      InsertIntoHalf(newRightNode, key, value);
      childs[size] := newRightNode.offSet;
      p := Promoted(newRightNode.keys[0], newRightNode.offSet);
    }
  
    method UpdateValueDuplicatedKey(index: nat, value: Value)
      requires Valid() && metaData.Valid() && index < size
      modifies metaData`values
      ensures metaData.Valid() && metaData.State() == WriteValue(old(metaData.State()), childs[index], value)
    {
      metaData.UpdateValueToFile(value, childs[index]);
    }

    // t is what this node holds, in memory, of the tree.
    ghost predicate Holds(t: Tree)
      reads this, keys, childs
    {
      Valid() && View() == PageOf(t) && offSet == t.id
    }

    method LeafInsert(key: Key, value: Value, ghost t: Tree) returns (p: Option<Promoted>)
      requires metaData.Valid() && t.Leaf? && Holds(t) && Sorted(KeysOf(t.items))
      modifies this, keys, childs, metaData, metaData.delValues, metaData.delNodePages
      ensures metaData.Valid()
      ensures var o := Insertion.LeafInsert(t, key, value, old(metaData.State()));
              Holds(Head(o.grown)) && metaData.State() == o.disk && p == PromotedOf(o.grown)
    {
      hide NewValue, AppendNode, LeafAdd, LeafSplit, HalfPages, InsertAt, Flush, FirstGE, WriteValue;
      var idxEqual := IndexNodeEqual(keys, size, key);
      assert keys[..size] == KeysOf(t.items) && childs[..size] == SlotsOf(t.items);
      Present(KeysOf(t.items), key);
      if idxEqual != -1 {
        UpdateValueDuplicatedKey(idxEqual, value);
        return None;
      }
      if size < 2 * metaData.maxDegree - 1 {
        LeafAddPages(t, key, value, metaData.State());
        InsertLeft(key, value);
        return None;
      } else {
        LeafSplitPages(t, key, value, metaData.State());
        var newEntry := InsertAndSplitLeaf(key, value);
        return Some(newEntry);
      }
    }
  
    // The separator joins the half it belongs to, and both halves are written.
    method InsertIntoNodeHalf(right: BPlusTreeNode, newKey: Key, key: Key, child: Ref)
      requires Valid() && metaData.Valid() && flag == INTERNAL_NODE && size < keys.Length
      requires right.Valid() && right.metaData == metaData && right.flag == INTERNAL_NODE && right.size < right.keys.Length
      requires Distinct(right)
      requires Sorted(keys[..size]) && key !in keys[..size]
      requires Sorted(right.keys[..right.size]) && key !in right.keys[..right.size]
      modifies this, keys, childs, right, right.keys, right.childs, metaData`pages
      ensures Valid() && right.Valid() && metaData.Valid() && offSet == old(offSet) && right.offSet == old(right.offSet)
      ensures flag == INTERNAL_NODE && right.flag == INTERNAL_NODE
      ensures var (l, r) := NodeHalves(old(keys[..size]), old(childs[..size + 1]), newKey,
                                       old(right.keys[..right.size]), old(right.childs[..right.size + 1]), key, child);
              && View() == l && right.View() == r
              && metaData.State() == Flush(Flush(old(metaData.State()), right.offSet, r), offSet, l)
    {
      hide Flush, FirstGT, InsertAt, DelNodeList.Valid, Address.Layout.OK, Address.SlotOK;
      ghost var s := metaData.State();
      if newKey > key {
        InsertRight(key, child);
      } else {
        right.InsertRight(key, child);
      }
      right.FlushToFile();
      FlushToFile();
      FlushTwice(s, offSet, View(), right.offSet, right.View());
    }

    // A full internal node is cut around the key at d-1, which is promoted.
    method InsertAndSplitInternal(key: Key, keyRightChild: Ref) returns (p: Promoted)
      requires Valid() && metaData.Valid() && flag == INTERNAL_NODE && size == keys.Length
      requires Sorted(keys[..size]) && key !in keys[..size]
      modifies this, keys, childs, metaData, metaData.delNodePages
      ensures Valid() && metaData.Valid() && flag == INTERNAL_NODE && offSet == old(offSet)
      ensures var d := metaData.maxDegree;
              var ks, cs := old(keys[..size]), old(childs[..size + 1]);
              var (s1, rid) := AppendNode(old(metaData.State()), NodePage([], [0]));
              var (l, r) := NodeHalves(ks[..d - 1], cs[..d], ks[d - 1], ks[d..], cs[d..], key, keyRightChild);
              && View() == l && p == Promoted(ks[d - 1], rid)
              && metaData.State() == Flush(Flush(s1, rid, r), offSet, l)
    {
      hide AppendNode, NodeHalves, Flush, FirstGT, InsertAt, View, DelNodeList.Valid, Address.Layout.OK, Address.SlotOK;
      var d := metaData.maxDegree;
      ghost var ks, cs := keys[..size], childs[..size + 1];
      var newRightNode := CopyPartOfNode(INTERNAL_NODE, d);
      var newKey := keys[d - 1];
      size := d - 1;
      assert keys[..d] == ks[..d];
      assert keys[..size] == ks[..d - 1];
      assert newRightNode.keys[..newRightNode.size] == ks[d..];
      assert newRightNode.childs[..newRightNode.size + 1] == cs[d..];
      assert childs[..size + 1] == cs[..d];
      assert forall x :: x in ks[..d - 1] || x in ks[d..] ==> x in ks;
      InsertIntoNodeHalf(newRightNode, newKey, key, keyRightChild);
      p := Promoted(newKey, newRightNode.offSet);
    }
  
    // Takes in the separator and the new neighbour of a child that was split.
    method InsertPromoted(e: Promoted, ghost t: Tree, ghost i: nat, ghost l: Tree, ghost r: Tree) returns (p: Option<Promoted>)
      requires metaData.Valid() && Holds(t) && t.Node? && |t.kids| == |t.keys| + 1 && i < |t.kids| && l.id == t.kids[i].id
      requires Sorted(t.keys) && e.key !in t.keys && e.value == r.id
      modifies this, keys, childs, metaData, metaData.delNodePages
      ensures metaData.Valid()
      ensures |t.keys| <= 2 * metaData.maxDegree - 1
      ensures var (g, s1) := Widen(t, i, l, e.key, r, old(metaData.State()));
              Holds(Head(g)) && metaData.State() == s1 && p == PromotedOf(g)
    {
      hide Widen, NodeHalves, AppendNode, Flush, FirstGT, InsertAt;
      assert keys[..size] == t.keys && childs[..size + 1] == KidIds(t.kids);
      WidenPages(t, i, l, e.key, r, metaData.State());
      if size == 2 * metaData.maxDegree - 1 {
        var newEntry := InsertAndSplitInternal(e.key, e.value);
        p := Some(newEntry);
      } else {
        InsertRight(e.key, e.value);
        p := None;
      }
    }

    // Reads the child that the key routes to.
    method ReadChild(key: Key, ghost t: Tree) returns (i: nat, child: BPlusTreeNode)
      requires metaData.Valid() && Holds(t) && t.Node? && Sorted(t.keys) && |t.keys| >= 1 && |t.kids| == |t.keys| + 1
      requires KidsReadable(t, metaData.maxDegree, metaData.pages)
      ensures i == FirstGT(t.keys, key) && fresh(child) && fresh(child.keys) && fresh(child.childs)
      ensures child.Holds(t.kids[i]) && child.metaData == metaData
    {
      assert keys[..size] == t.keys && childs[..size + 1] == KidIds(t.kids);
      i := IndexNodeLarger(keys, size, key);
      child := GetNode(metaData, childs[i]);
    }

    // Sets a key below this node. A split is reported to the caller.
    method InternalInsert(key: Key, value: Value, ghost t: Tree, ghost h: nat, ghost lo: Key, ghost hi: Key)
      returns (p: Option<Promoted>, ghost path: seq<Ref>)
      requires metaData.Valid() && Holds(t) && lo <= key < hi
      requires Shaped(t, metaData.maxDegree) && WF(t, metaData.maxDegree, h, lo, hi) && KidsStored(t, metaData.pages)
      modifies this, keys, childs, metaData, metaData.delValues, metaData.delNodePages
      ensures metaData.Valid()
      ensures var o := Insertion.Insert(t, key, value, old(metaData.State()));
              Holds(Head(o.grown)) && metaData.State() == o.disk && p == PromotedOf(o.grown)
      ensures path == Descent(t, key)
      decreases h
    {
      hide Widen, KidsStored, Insertion.LeafInsert, WF, Shaped, FirstGT, PageOf, DelNodeList.Valid, Address.SlotOK;
      path := [offSet];
      OpenNode(t, metaData.maxDegree, h, lo, hi, metaData.pages);
      if flag == LEAF_NODE {
        LeafFlag(t);
        p := LeafInsert(key, value, t);
        return;
      }
      LeafFlag(t);
      ghost var s := metaData.State();
      var i, childNode := ReadChild(key, t);
      ghost var c, lo1, hi1 := t.kids[i], Lo(t.keys, i, lo), Hi(t.keys, i, hi);
      OpenKid(t, i, metaData.maxDegree, h, lo, hi, metaData.pages);
      ghost var below;
      var returnEntry;
      returnEntry, below := childNode.InternalInsert(key, value, c, h - 1, lo1, hi1);
      path := path + below;
      InsertWF(c, key, value, s, h - 1, lo1, hi1);
      ghost var o := Insertion.Insert(c, key, value, s);
      if returnEntry.Some? {
        SepAbsent(t.keys, i, o.grown.sep, lo, hi);
        p := InsertPromoted(returnEntry.value, t, i, o.grown.l, o.grown.r);
      } else {
        SameIdsSamePage(t, i, o.grown.t);
        p := None;
      }
    }
  
    // Sets a key at the root; a split puts a new root on top.
    method Insert(key: Key, value: Value, ghost t: Tree, ghost h: nat, ghost lo: Key, ghost hi: Key)
      returns (root: BPlusTreeNode, ghost path: seq<Ref>)
      requires metaData.Valid() && Holds(t) && lo <= key < hi
      requires Shaped(t, metaData.maxDegree) && WF(t, metaData.maxDegree, h, lo, hi)
      requires Stored(t, metaData.pages) && DiskOK(metaData.State())
      requires Ownership.Apart(Ids(t), metaData.State()) && SlotsLive(t, metaData.State())
      modifies this, keys, childs, metaData, metaData.delValues, metaData.delNodePages
      ensures metaData.Valid() && root.metaData == metaData
      ensures root == this || (fresh(root) && fresh(root.keys) && fresh(root.childs))
      ensures path == Descent(t, key)
      ensures var (t1, o) := InsertRoot(t, key, value, old(metaData.State()));
              root.Holds(t1) && metaData.State() == o.disk && (root == this <==> o.grown.One?)
    {
      hide Insertion.Insert, KidsStored, Stored, WF, Shaped, DiskOK, Ids, Apart, SlotsLive, AppendNode, Flush, PageOf;
      ghost var s := metaData.State();
      StoredKids(t, s.pages);
      RightHalf(t, key, value, s, h, lo, hi);
      var rightEntry;
      rightEntry, path := InternalInsert(key, value, t, h, lo, hi);
      ghost var o := Insertion.Insert(t, key, value, s);
      root := this;
      if rightEntry.Some? {
        var rightChild := GetNode(metaData, rightEntry.value.value);
        root := new BPlusTreeNode.NewRoot(rightEntry.value.key, this, rightChild);
        RootPage(root.offSet, o.grown.l, o.grown.sep, o.grown.r);
        root.FlushToFile();
      }
    }

    // Reads the value of a key: one path to a leaf, then its slot.
    method Get(key: Key, ghost t: Tree, ghost h: nat, ghost lo: Key, ghost hi: Key)
      returns (r: Option<Value>, ghost path: seq<Ref>)
      requires metaData.Valid() && Holds(t)
      requires Shaped(t, metaData.maxDegree) && WF(t, metaData.maxDegree, h, lo, hi) && KidsStored(t, metaData.pages)
      requires SlotsLive(t, metaData.State())
      ensures var slot := Find(t, key);
              r == if slot.Some? && slot.value in metaData.values then Some(metaData.values[slot.value]) else None
      ensures path == Descent(t, key)
      decreases h
    {
      hide KidsStored, WF, Shaped, SlotsLive;
      path := [offSet];
      OpenNode(t, metaData.maxDegree, h, lo, hi, metaData.pages);
      LeafFlag(t);
      if flag == LEAF_NODE {
        assert keys[..size] == KeysOf(t.items) && childs[..size] == SlotsOf(t.items);
        var i := IndexNodeEqual(keys, size, key);
        Present(KeysOf(t.items), key);
        if i == -1 {
          r := None;
          return;
        }
        LeafSlotLive(t, i, metaData.State());
        r := Some(metaData.values[childs[i]]);
        return;
      }
      var i, bnode := ReadChild(key, t);
      OpenKid(t, i, metaData.maxDegree, h, lo, hi, metaData.pages);
      KidSlotsLive(t, i, metaData.State());
      ghost var below;
      r, below := bnode.Get(key, t.kids[i], h - 1, Lo(t.keys, i, lo), Hi(t.keys, i, hi));
      path := path + below;
    }

    method Exist(key: Key, ghost t: Tree, ghost h: nat, ghost lo: Key, ghost hi: Key) returns (r: bool, ghost path: seq<Ref>)
      requires metaData.Valid() && Holds(t)
      requires Shaped(t, metaData.maxDegree) && WF(t, metaData.maxDegree, h, lo, hi) && KidsStored(t, metaData.pages)
      ensures r == Find(t, key).Some? && path == Descent(t, key)
      decreases h
    {
      hide KidsStored, WF, Shaped;
      path := [offSet];
      OpenNode(t, metaData.maxDegree, h, lo, hi, metaData.pages);
      LeafFlag(t);
      if flag == LEAF_NODE {
        assert keys[..size] == KeysOf(t.items);
        Present(KeysOf(t.items), key);
        r := IsExisting(keys, size, key);
        return;
      }
      var i, bnode := ReadChild(key, t);
      OpenKid(t, i, metaData.maxDegree, h, lo, hi, metaData.pages);
      ghost var below;
      r, below := bnode.Exist(key, t.kids[i], h - 1, Lo(t.keys, i, lo), Hi(t.keys, i, hi));
      path := path + below;
    }
  
    // ----- removal -----

    // Closes the gap at index in both arrays.
    method CloseGap(index: nat)
      requires Valid() && index < size
      modifies keys, childs
      ensures forall j :: 0 <= j < index ==> keys[j] == old(keys[j]) && childs[j] == old(childs[j])
      ensures forall j :: index <= j < size - 1 ==> keys[j] == old(keys[j + 1])
      ensures forall j :: index <= j < size ==> childs[j] == old(childs[j + 1])
    {
      var i := index;
      while i < size - 1
        modifies keys, childs
        invariant index <= i <= size - 1
        invariant forall j :: 0 <= j < index || i <= j < size ==> keys[j] == old(keys[j])
        invariant forall j :: 0 <= j < index || i <= j <= size ==> childs[j] == old(childs[j])
        invariant forall j :: index <= j < i ==> keys[j] == old(keys[j + 1]) && childs[j] == old(childs[j + 1])
      {
        keys[i] := keys[i + 1];
        childs[i] := childs[i + 1];
        i := i + 1;
      }
      childs[size - 1] := childs[size];
      childs[size] := 0;
      keys[size - 1] := 0;
    }

    // Takes out a key with the reference to its left; at a leaf that slot is freed.
    method RemoveLeft(index: nat)
      requires Valid() && metaData.Valid() && index < size && flag != REMOVED_NODE
      modifies `size, keys, childs, metaData.delValues
      ensures Valid() && metaData.Valid()
      ensures var v := old(View());
              var ks, cs := RemoveAt(v.keys, index), RemoveAt(v.refs, index);
              View() == if flag == LEAF_NODE then LeafPage(ks, cs) else NodePage(ks, cs)
      ensures var s := old(metaData.State());
              metaData.State() == if flag == LEAF_NODE then s.(delValues := s.delValues + [old(childs[index])]) else s
    {
      ghost var v := View();
      if flag == LEAF_NODE {
        metaData.PushValue(childs[index]);
      }
      CloseGap(index);
      size := size - 1;
      IsRemoved(keys[..size], v.keys, index);
      IsRemoved(childs[..|v.refs| - 1], v.refs, index);
    }

    // The page is written as removed and goes to the free stack.
    method MarkDelete()
      requires Valid() && metaData.Valid()
      modifies this, childs, metaData`pages, metaData.delNodePages
      ensures Valid() && metaData.Valid() && metaData.State() == FreeNode(old(metaData.State()), offSet)
      ensures offSet == old(offSet)
    {
      ClearChilds();
      flag := REMOVED_NODE;
      FlushToFile();
      metaData.PushNodePage(offSet);
    }

    method ClearChilds()
      requires Valid()
      modifies `size, childs
      ensures Valid() && size == 0 && forall j :: 0 <= j < childs.Length ==> childs[j] == 0
    {
      size := 0;
      var i := 0;
      while i < childs.Length
        modifies childs
        invariant 0 <= i <= childs.Length
        invariant forall j :: 0 <= j < i ==> childs[j] == 0
      {
        childs[i] := 0;
        i := i + 1;
      }
    }

    // Everything moves one place to the left; the first key and reference are gone.
    method DropFirst()
      requires Valid() && size > 0
      modifies `size, keys, childs
      ensures Valid() && size == old(size) - 1
      ensures forall j :: 0 <= j < size ==> keys[j] == old(keys[j + 1])
      ensures forall j :: 0 <= j <= size ==> childs[j] == old(childs[j + 1])
    {
      var i := 1;
      while i < size
        modifies keys, childs
        invariant 1 <= i <= size
        invariant forall j :: 0 <= j < i - 1 ==> keys[j] == old(keys[j + 1]) && childs[j] == old(childs[j + 1])
        invariant forall j :: i - 1 < j < size ==> keys[j] == old(keys[j])
        invariant forall j :: i - 1 < j <= size ==> childs[j] == old(childs[j])
      {
        keys[i - 1] := keys[i];
        childs[i - 1] := childs[i];
        i := i + 1;
      }
      childs[size - 1] := childs[size];
      childs[size] := 0;
      keys[size - 1] := 0;
      size := size - 1;
    }

    // Everything moves one place to the right, leaving room for a first key and reference.
    method MakeFirst()
      requires Valid() && size < keys.Length
      modifies keys, childs
      ensures forall j :: 0 < j <= size ==> keys[j] == old(keys[j - 1])
      ensures forall j :: 0 < j <= size + 1 ==> childs[j] == old(childs[j - 1])
    {
      childs[size + 1] := childs[size];
      var i := size - 1;
      while i >= 0
        modifies keys, childs
        invariant -1 <= i < size
        invariant forall j :: 0 <= j <= i ==> keys[j] == old(keys[j]) && childs[j] == old(childs[j])
        invariant forall j :: i + 1 < j <= size ==> keys[j] == old(keys[j - 1]) && childs[j] == old(childs[j - 1])
        invariant childs[size + 1] == old(childs[size])
      {
        keys[i + 1] := keys[i];
        childs[i + 1] := childs[i];
        i := i - 1;
      }
    }
  
    // ----- borrowing and merging -----

    // A sibling gives away its first key and reference, and is written.
    method ShedFirst()
      requires Valid() && metaData.Valid() && size > 0 && flag != REMOVED_NODE
      modifies `size, keys, childs, metaData`pages
      ensures Valid() && metaData.Valid() && metaData.State() == Flush(old(metaData.State()), offSet, View())
      ensures var v := old(View());
              View() == if flag == LEAF_NODE then LeafPage(v.keys[1..], v.refs[1..]) else NodePage(v.keys[1..], v.refs[1..])
    {
      ghost var v := View();
      DropFirst();
      IsTail(keys[..size], v.keys);
      IsTail(childs[..|v.refs| - 1], v.refs);
      FlushToFile();
    }

    // A sibling gives away its last key and reference, and is written.
    method ShedLast()
      requires Valid() && metaData.Valid() && size > 0 && flag != REMOVED_NODE
      modifies `size, keys, childs, metaData`pages
      ensures Valid() && metaData.Valid() && metaData.State() == Flush(old(metaData.State()), offSet, View())
      ensures var v := old(View());
              var n, m := |v.keys| - 1, |v.refs| - 1;
              View() == if flag == LEAF_NODE then LeafPage(v.keys[..n], v.refs[..m]) else NodePage(v.keys[..n], v.refs[..m])
    {
      ghost var v := View();
      if flag == LEAF_NODE {
        childs[size - 1] := childs[size];
      }
      keys[size - 1] := 0;
      childs[size] := 0;
      size := size - 1;
      assert keys[..size] == v.keys[..|v.keys| - 1];
      assert childs[..|v.refs| - 1] == v.refs[..|v.refs| - 1];
      FlushToFile();
    }

    method PutFirst(key: Key, ref: Ref)
      requires Valid() && size < keys.Length && flag != REMOVED_NODE
      modifies `size, keys, childs
      ensures Valid()
      ensures var v := old(View());
              View() == if flag == LEAF_NODE then LeafPage([key] + v.keys, [ref] + v.refs) else NodePage([key] + v.keys, [ref] + v.refs)
    {
      ghost var v := View();
      MakeFirst();
      keys[0] := key;
      childs[0] := ref;
      size := size + 1;
      IsInFront(keys[..size], v.keys, key);
      IsInFront(childs[..|v.refs| + 1], v.refs, ref);
    }

    method PutLast(key: Key, ref: Ref)
      requires Valid() && size < keys.Length && flag != REMOVED_NODE
      modifies `size, keys, childs
      ensures Valid()
      ensures var v := old(View());
              View() == if flag == LEAF_NODE then LeafPage(v.keys + [key], v.refs + [ref]) else NodePage(v.keys + [key], v.refs + [ref])
    {
      keys[size] := key;
      if flag == LEAF_NODE {
        childs[size] := ref;
      } else {
        childs[size + 1] := ref;
      }
      size := size + 1;
    }

    method SetKeyAt(index: nat, key: Key)
      requires Valid() && index < size && flag == INTERNAL_NODE
      modifies keys
      ensures View() == NodePage(old(View()).keys[index := key], old(View()).refs)
    {
      keys[index] := key;
      assert keys[..size] == old(keys[..size])[index := key];
    }

    // Three nodes of one tree, the sibling next to this one below the father.
    ghost predicate Family(father: BPlusTreeNode, sibling: BPlusTreeNode, f: Flag)
      reads this, father, sibling
    {
      && Valid() && father.Valid() && sibling.Valid()
      && father.metaData == metaData && sibling.metaData == metaData
      && Distinct(father) && Distinct(sibling) && father.Distinct(sibling)
      && flag == f && sibling.flag == f && father.flag == INTERNAL_NODE
    }

    // From left to right through the father, between internal nodes.
    method SwapClockWiseItn(father: BPlusTreeNode, nodeIndex: nat, left: BPlusTreeNode)
      requires metaData.Valid() && Family(father, left, INTERNAL_NODE)
      requires 0 < nodeIndex <= father.size && size < keys.Length && left.size > 0
      modifies `size, keys, childs, father.keys, left`size, left.keys, left.childs, metaData`pages
      ensures Valid() && metaData.Valid()
      ensures var (n, l, f) := (old(View()), old(left.View()), old(father.View()));
              var m := |l.keys| - 1;
              && View() == NodePage([f.keys[nodeIndex - 1]] + n.keys, [l.refs[m + 1]] + n.refs)
              && father.View() == NodePage(f.keys[nodeIndex - 1 := l.keys[m]], f.refs)
              && metaData.State() == Flush(old(metaData.State()), left.offSet, NodePage(l.keys[..m], l.refs[..m + 1]))
    {
      hide Flush, View;
      ViewOK();
      left.ViewOK();
      father.ViewOK();
      PutFirst(father.KeyAt(nodeIndex - 1), left.ChildAt(left.size));
      father.SetKeyAt(nodeIndex - 1, left.KeyAt(left.size - 1));
      left.ShedLast();
    }

    // From right to left through the father, between internal nodes.
    method SwapCounterClockWiseItn(father: BPlusTreeNode, nodeIndex: nat, right: BPlusTreeNode)
      requires metaData.Valid() && Family(father, right, INTERNAL_NODE)
      requires nodeIndex < father.size && size < keys.Length && right.size > 0
      modifies `size, keys, childs, father.keys, right`size, right.keys, right.childs, metaData`pages
      ensures Valid() && metaData.Valid()
      ensures var (n, r, f) := (old(View()), old(right.View()), old(father.View()));
              && View() == NodePage(n.keys + [f.keys[nodeIndex]], n.refs + [r.refs[0]])
              && father.View() == NodePage(f.keys[nodeIndex := r.keys[0]], f.refs)
              && metaData.State() == Flush(old(metaData.State()), right.offSet, NodePage(r.keys[1..], r.refs[1..]))
    {
      hide Flush, View;
      ViewOK();
      right.ViewOK();
      father.ViewOK();
      PutLast(father.KeyAt(nodeIndex), right.ChildAt(0));
      father.SetKeyAt(nodeIndex, right.KeyAt(0));
      right.ShedFirst();
    }

    // The left leaf's last entry becomes the first one here, and the separator.
    method SwapClockWiseLeaf(father: BPlusTreeNode, nodeIndex: nat, left: BPlusTreeNode)
      requires metaData.Valid() && Family(father, left, LEAF_NODE)
      requires 0 < nodeIndex <= father.size && size < keys.Length && left.size > 0
      modifies `size, keys, childs, father.keys, left`size, left.keys, left.childs, metaData`pages
      ensures Valid() && metaData.Valid()
      ensures var (n, l, f) := (old(View()), old(left.View()), old(father.View()));
              var m := |l.keys| - 1;
              && View() == LeafPage([l.keys[m]] + n.keys, [l.refs[m]] + n.refs)
              && father.View() == NodePage(f.keys[nodeIndex - 1 := l.keys[m]], f.refs)
              && metaData.State() == Flush(old(metaData.State()), left.offSet, LeafPage(l.keys[..m], l.refs[..m]))
    {
      hide Flush, View;
      ViewOK();
      left.ViewOK();
      father.ViewOK();
      PutFirst(left.KeyAt(left.size - 1), left.ChildAt(left.size - 1));
      father.SetKeyAt(nodeIndex - 1, left.KeyAt(left.size - 1));
      left.ShedLast();
    }

    // The right leaf's first entry becomes the last one here; its next one is the separator.
    method SwapCounterClockWiseLeaf(father: BPlusTreeNode, nodeIndex: nat, right: BPlusTreeNode)
      requires metaData.Valid() && Family(father, right, LEAF_NODE)
      requires nodeIndex < father.size && size < keys.Length && right.size > 1
      modifies `size, keys, childs, father.keys, right`size, right.keys, right.childs, metaData`pages
      ensures Valid() && metaData.Valid()
      ensures var (n, r, f) := (old(View()), old(right.View()), old(father.View()));
              && View() == LeafPage(n.keys + [r.keys[0]], n.refs + [r.refs[0]])
              && father.View() == NodePage(f.keys[nodeIndex := r.keys[1]], f.refs)
              && metaData.State() == Flush(old(metaData.State()), right.offSet, LeafPage(r.keys[1..], r.refs[1..]))
    {
      hide Flush, View;
      ViewOK();
      right.ViewOK();
      father.ViewOK();
      PutLast(right.KeyAt(0), right.ChildAt(0));
      right.ShedFirst();
      right.ViewOK();
      father.SetKeyAt(nodeIndex, right.KeyAt(0));
    }
  
    // Everything moves n places to the right, from the front: nothing is lost as n >= size.
    method ShiftBy(n: nat)
      requires Valid() && size <= n && n + size <= keys.Length
      modifies keys, childs
      ensures keys[n..n + size] == old(keys[..size]) && childs[n..n + size + 1] == old(childs[..size + 1])
    {
      childs[n + size] := childs[size];
      var i := 0;
      while i < size
        modifies keys, childs
        invariant 0 <= i <= size
        invariant forall j :: 0 <= j < size ==> keys[j] == old(keys[j]) && childs[j] == old(childs[j])
        invariant forall j :: 0 <= j < i ==> keys[n + j] == old(keys[j]) && childs[n + j] == old(childs[j])
        invariant childs[n + size] == old(childs[size])
      {
        keys[n + i] := keys[i];
        childs[n + i] := childs[i];
        i := i + 1;
      }
    }

    // Copies the keys of a sibling, and the reference to the left of each.
    method CopyEntries(src: BPlusTreeNode, at: nat)
      requires Valid() && src.Valid() && Distinct(src) && at + src.size <= keys.Length
      modifies keys, childs
      ensures keys[..] == old(keys[..at]) + src.keys[..src.size] + old(keys[at + src.size..])
      ensures childs[..] == old(childs[..at]) + src.childs[..src.size] + old(childs[at + src.size..])
    {
      var i := 0;
      while i < src.size
        modifies keys, childs
        invariant 0 <= i <= src.size
        invariant keys[..at + i] == old(keys[..at]) + src.keys[..i] && keys[at + i..] == old(keys[at + i..])
        invariant childs[..at + i] == old(childs[..at]) + src.childs[..i] && childs[at + i..] == old(childs[at + i..])
      {
        keys[at + i] := src.keys[i];
        childs[at + i] := src.childs[i];
        i := i + 1;
      }
      assert keys[..] == keys[..at + i] + keys[at + i..];
      assert childs[..] == childs[..at + i] + childs[at + i..];
    }

    // The arrays after a leaf's left sibling has been put in front,
    method FrontLeaf(left: BPlusTreeNode)
      requires Valid() && left.Valid() && Distinct(left) && size <= left.size && left.size + size <= keys.Length
      modifies keys, childs
      ensures keys[..left.size + size] == left.keys[..left.size] + old(keys[..size])
      ensures childs[..left.size + size] == left.childs[..left.size] + old(childs[..size])
    {
      ghost var n := left.size;
      ShiftBy(left.size);
      ghost var k, c := keys[..], childs[..];
      CopyEntries(left, 0);
      Overlaid(keys[..], left.keys[..n], k, old(keys[..size]));
      Overlaid(childs[..], left.childs[..n], c, old(childs[..size]));
    }

    // and an internal node's, with the separator between.
    method FrontItn(left: BPlusTreeNode, sep: Key)
      requires Valid() && left.Valid() && Distinct(left) && size <= left.size && left.size + size + 1 <= keys.Length
      modifies keys, childs
      ensures keys[..left.size + 1 + size] == left.keys[..left.size] + [sep] + old(keys[..size])
      ensures childs[..left.size + size + 2] == left.childs[..left.size + 1] + old(childs[..size + 1])
    {
      ghost var n := left.size;
      ShiftBy(left.size + 1);
      keys[left.size] := sep;
      ghost var k, c := keys[..], childs[..];
      CopyEntries(left, 0);
      FrontRow(keys[..], left.keys[..n], k, sep, old(keys[..size]));
      ghost var c1 := childs[..];
      childs[left.size] := left.childs[left.size];
      assert childs[..] == c1[n := left.childs[n]];
      FrontRow(childs[..], left.childs[..n], c, left.childs[n], old(childs[..size + 1]));
      assert left.childs[..n + 1] == left.childs[..n] + [left.childs[n]];
    }

    // The content of the left sibling is put in front.
    method TakeLeftLeaf(left: BPlusTreeNode)
      requires Valid() && left.Valid() && Distinct(left) && flag == left.flag == LEAF_NODE
      requires size <= left.size
      requires left.size + size <= keys.Length
      modifies `size, keys, childs
      ensures Valid()
      ensures var (n, l) := (old(View()), left.View()); View() == LeafPage(l.keys + n.keys, l.refs + n.refs)
    {
      FrontLeaf(left);
      size := size + left.size;
    }

    // The content of the left sibling is put in front, with the separator between.
    method TakeLeftItn(left: BPlusTreeNode, sep: Key)
      requires Valid() && left.Valid() && Distinct(left) && flag == left.flag == INTERNAL_NODE
      requires size <= left.size
      requires left.size + size + 1 <= keys.Length
      modifies `size, keys, childs
      ensures Valid()
      ensures var (n, l) := (old(View()), left.View()); View() == NodePage(l.keys + [sep] + n.keys, l.refs + n.refs)
    {
      FrontItn(left, sep);
      size := size + left.size + 1;
    }

    // The content of the right sibling is put behind.
    method TakeRightLeaf(right: BPlusTreeNode)
      requires Valid() && right.Valid() && Distinct(right) && flag == right.flag == LEAF_NODE
      requires right.size + size <= keys.Length
      modifies `size, keys, childs
      ensures Valid()
      ensures var (n, r) := (old(View()), right.View()); View() == LeafPage(n.keys + r.keys, n.refs + r.refs)
    {
      CopyEntries(right, size);
      assert keys[..size + right.size] == old(keys[..size]) + right.keys[..right.size];
      assert childs[..size + right.size] == old(childs[..size]) + right.childs[..right.size];
      childs[size + right.size] := right.childs[right.size];
      size := size + right.size;
    }

    // The content of the right sibling is put behind, with the separator between.
    method TakeRightItn(right: BPlusTreeNode, sep: Key)
      requires Valid() && right.Valid() && Distinct(right) && flag == right.flag == INTERNAL_NODE
      requires right.size + size + 1 <= keys.Length
      modifies `size, keys, childs
      ensures Valid()
      ensures var (n, r) := (old(View()), right.View()); View() == NodePage(n.keys + [sep] + r.keys, n.refs + r.refs)
    {
      BackItn(right, sep);
      size := size + right.size + 1;
    }

    method BackItn(right: BPlusTreeNode, sep: Key)
      requires Valid() && right.Valid() && Distinct(right) && right.size + size + 1 <= keys.Length
      modifies keys, childs
      ensures keys[..size + 1 + right.size] == old(keys[..size]) + [sep] + right.keys[..right.size]
      ensures childs[..size + right.size + 2] == old(childs[..size + 1]) + right.childs[..right.size + 1]
    {
      ghost var n := size + 1;
      CopyEntries(right, size + 1);
      assert keys[..n + right.size] == old(keys[..n]) + right.keys[..right.size];
      assert childs[..n + right.size] == old(childs[..n]) + right.childs[..right.size];
      childs[size + 1 + right.size] := right.childs[right.size];
      assert childs[..n + right.size + 1] == old(childs[..n]) + (right.childs[..right.size] + [right.childs[right.size]]);
      keys[size] := sep;
      assert keys[..n] == old(keys[..size]) + [sep];
    }

    // The father loses the separator at j and the child to its left; the child that takes
    // its place is this node.
    method ReplaceInFather(father: BPlusTreeNode, j: nat)
      requires metaData.Valid() && father.Valid() && father.metaData == metaData && Distinct(father)
      requires father.flag == INTERNAL_NODE && j < father.size
      modifies father`size, father.keys, father.childs
      ensures father.Valid() && metaData.Valid() && metaData.State() == old(metaData.State())
      ensures var f := old(father.View());
              father.View() == NodePage(RemoveAt(f.keys, j), RemoveAt(f.refs, j)[j := offSet])
    {
      ghost var f := father.View();
      father.CloseGap(j);
      father.size := father.size - 1;
      IsRemoved(father.keys[..father.size], f.keys, j);
      IsRemoved(father.childs[..father.size + 1], f.refs, j);
      father.childs[j] := offSet;
      assert father.childs[..father.size + 1] == RemoveAt(f.refs, j)[j := offSet];
    }

    // This node takes over a sibling, whose page is freed.
    method LeftMergeItn(father: BPlusTreeNode, nodeIndex: nat, left: BPlusTreeNode)
      requires metaData.Valid() && Family(father, left, INTERNAL_NODE)
      requires 0 < nodeIndex <= father.size && size <= left.size && left.size + size + 1 <= keys.Length
      modifies `size, keys, childs, father`size, father.keys, father.childs
      modifies left, left.keys, left.childs, metaData`pages, metaData.delNodePages
      ensures Valid() && father.Valid() && metaData.Valid()
      ensures var (n, l, f) := (old(View()), old(left.View()), old(father.View()));
              && View() == NodePage(l.keys + [f.keys[nodeIndex - 1]] + n.keys, l.refs + n.refs)
              && father.View() == NodePage(RemoveAt(f.keys, nodeIndex - 1), RemoveAt(f.refs, nodeIndex - 1)[nodeIndex - 1 := offSet])
              && metaData.State() == FreeNode(old(metaData.State()), old(left.offSet))
    {
      hide FreeNode;
      TakeLeftItn(left, father.keys[nodeIndex - 1]);
      ReplaceInFather(father, nodeIndex - 1);
      left.MarkDelete();
    }

    method LeftMergeLeaf(father: BPlusTreeNode, nodeIndex: nat, left: BPlusTreeNode)
      requires metaData.Valid() && Family(father, left, LEAF_NODE)
      requires 0 < nodeIndex <= father.size && size <= left.size && left.size + size <= keys.Length
      modifies `size, keys, childs, father`size, father.keys, father.childs
      modifies left, left.keys, left.childs, metaData`pages, metaData.delNodePages
      ensures Valid() && father.Valid() && metaData.Valid()
      ensures var (n, l, f) := (old(View()), old(left.View()), old(father.View()));
              && View() == LeafPage(l.keys + n.keys, l.refs + n.refs)
              && father.View() == NodePage(RemoveAt(f.keys, nodeIndex - 1), RemoveAt(f.refs, nodeIndex - 1)[nodeIndex - 1 := offSet])
              && metaData.State() == FreeNode(old(metaData.State()), old(left.offSet))
    {
      hide FreeNode;
      TakeLeftLeaf(left);
      ReplaceInFather(father, nodeIndex - 1);
      left.MarkDelete();
    }

    method RightMergeItn(father: BPlusTreeNode, nodeIndex: nat, right: BPlusTreeNode)
      requires metaData.Valid() && Family(father, right, INTERNAL_NODE)
      requires nodeIndex < father.size && right.size + size + 1 <= keys.Length
      modifies `size, keys, childs, father`size, father.keys, father.childs
      modifies right, right.keys, right.childs, metaData`pages, metaData.delNodePages
      ensures Valid() && father.Valid() && metaData.Valid()
      ensures var (n, r, f) := (old(View()), old(right.View()), old(father.View()));
              && View() == NodePage(n.keys + [f.keys[nodeIndex]] + r.keys, n.refs + r.refs)
              && father.View() == NodePage(RemoveAt(f.keys, nodeIndex), RemoveAt(f.refs, nodeIndex)[nodeIndex := offSet])
              && metaData.State() == FreeNode(old(metaData.State()), old(right.offSet))
    {
      hide FreeNode;
      TakeRightItn(right, father.keys[nodeIndex]);
      ReplaceInFather(father, nodeIndex);
      right.MarkDelete();
    }

    method RightMergeLeaf(father: BPlusTreeNode, nodeIndex: nat, right: BPlusTreeNode)
      requires metaData.Valid() && Family(father, right, LEAF_NODE)
      requires nodeIndex < father.size && right.size + size <= keys.Length
      modifies `size, keys, childs, father`size, father.keys, father.childs
      modifies right, right.keys, right.childs, metaData`pages, metaData.delNodePages
      ensures Valid() && father.Valid() && metaData.Valid()
      ensures var (n, r, f) := (old(View()), old(right.View()), old(father.View()));
              && View() == LeafPage(n.keys + r.keys, n.refs + r.refs)
              && father.View() == NodePage(RemoveAt(f.keys, nodeIndex), RemoveAt(f.refs, nodeIndex)[nodeIndex := offSet])
              && metaData.State() == FreeNode(old(metaData.State()), old(right.offSet))
    {
      hide FreeNode;
      TakeRightLeaf(right);
      ReplaceInFather(father, nodeIndex);
      right.MarkDelete();
    }
  
    // This node and its father hold child i of f, and f; the siblings can be read.
    ghost predicate Under(father: BPlusTreeNode, i: nat, f: Tree)
      reads this, keys, childs, father, father.keys, father.childs, metaData, metaData.delNodePages, metaData.delValues
    {
      && metaData.Valid() && father.metaData == metaData && Distinct(father)
      && Repairable(f, i, metaData.maxDegree) && father.Holds(f) && Holds(f.kids[i])
      && SiblingsReadable(f, i, metaData.maxDegree, metaData.pages)
    }

    // n holds the sibling j of this node, below the father.
    ghost predicate Beside(father: BPlusTreeNode, n: BPlusTreeNode, j: nat, f: Tree)
      requires f.Node?
      reads this, father, n, n.keys, n.childs
    {
      && j < |f.kids| && Family(father, n, flag) && n.View() == PageOf(f.kids[j]) && n.offSet == f.kids[j].id
      && n.size == Size(f.kids[j]) >= metaData.maxDegree - 1
    }

    // A sibling, read back from its page.
    method ReadSibling(father: BPlusTreeNode, i: nat, j: nat, ghost f: Tree) returns (n: BPlusTreeNode)
      requires Under(father, i, f) && j < |f.kids| && j != i
      ensures fresh(n) && fresh(n.keys) && fresh(n.childs)
      ensures Beside(father, n, j, f) && n.size == Size(f.kids[j])
    {
      assert father.childs[..father.size + 1] == KidIds(f.kids);
      n := GetNode(metaData, father.childs[j]);
    }

    // This node holds the thin child i of f.
    ghost predicate Thin(father: BPlusTreeNode, i: nat, f: Tree)
      reads this, keys, childs, father, father.keys, father.childs
    {
      && metaData.maxDegree >= 2 && Repairable(f, i, metaData.maxDegree) && father.Holds(f) && Holds(f.kids[i])
      && size <= (if f.kids[i].Leaf? then metaData.maxDegree - 1 else metaData.maxDegree - 2)
    }

    // The right sibling has a key to spare.
    method BorrowRight(father: BPlusTreeNode, nodeIndex: nat, right: BPlusTreeNode, ghost f: Tree)
      requires metaData.Valid() && Thin(father, nodeIndex, f)
      requires Beside(father, right, nodeIndex + 1, f)
      requires right.size > metaData.maxDegree - 1
      modifies `size, keys, childs, father`size, father.keys, father.childs
      modifies right, right.keys, right.childs, metaData`pages, metaData.delNodePages
      ensures Valid() && father.Valid() && metaData.Valid()
      ensures RepairIs(f, nodeIndex, metaData.maxDegree, old(metaData.State()), View(), father.View(), metaData.State())
    {
      hide RepairIs, Choose, Apply, RepairDisk, PageOf, Flush, FreeNode, KidIds, Alike, RemoveAt;
      FatherPage(f, nodeIndex);
      BorrowRightPages(f, nodeIndex, metaData.maxDegree, metaData.State());
      if flag == LEAF_NODE {
        SwapCounterClockWiseLeaf(father, nodeIndex, right);
      } else {
        SwapCounterClockWiseItn(father, nodeIndex, right);
      }
    }

    // The left one has, and the right one has not.
    method BorrowLeft(father: BPlusTreeNode, nodeIndex: nat, left: BPlusTreeNode, ghost f: Tree)
      requires metaData.Valid() && Thin(father, nodeIndex, f)
      requires nodeIndex > 0 && Beside(father, left, nodeIndex - 1, f)
      requires left.size > metaData.maxDegree - 1 && !(nodeIndex < |f.keys| && Size(f.kids[nodeIndex + 1]) > metaData.maxDegree - 1)
      modifies `size, keys, childs, father`size, father.keys, father.childs
      modifies left, left.keys, left.childs, metaData`pages, metaData.delNodePages
      ensures Valid() && father.Valid() && metaData.Valid()
      ensures RepairIs(f, nodeIndex, metaData.maxDegree, old(metaData.State()), View(), father.View(), metaData.State())
    {
      hide RepairIs, Choose, Apply, RepairDisk, PageOf, Flush, FreeNode, KidIds, Alike, RemoveAt;
      FatherPage(f, nodeIndex);
      BorrowLeftPages(f, nodeIndex, metaData.maxDegree, metaData.State());
      if flag == LEAF_NODE {
        SwapClockWiseLeaf(father, nodeIndex, left);
      } else {
        SwapClockWiseItn(father, nodeIndex, left);
      }
    }

    // Neither has: the left sibling is taken in,
    method MergeLeft(father: BPlusTreeNode, nodeIndex: nat, left: BPlusTreeNode, ghost f: Tree)
      requires metaData.Valid() && Thin(father, nodeIndex, f)
      requires nodeIndex > 0 && Beside(father, left, nodeIndex - 1, f)
      requires left.size <= metaData.maxDegree - 1 && !(nodeIndex < |f.keys| && Size(f.kids[nodeIndex + 1]) > metaData.maxDegree - 1)
      modifies `size, keys, childs, father`size, father.keys, father.childs
      modifies left, left.keys, left.childs, metaData`pages, metaData.delNodePages
      ensures Valid() && father.Valid() && metaData.Valid()
      ensures RepairIs(f, nodeIndex, metaData.maxDegree, old(metaData.State()), View(), father.View(), metaData.State())
    {
      hide RepairIs, Choose, Apply, RepairDisk, PageOf, Flush, FreeNode, KidIds, Alike, RemoveAt;
      FatherPage(f, nodeIndex);
      MergePages(f, nodeIndex, metaData.maxDegree, metaData.State());
      if flag == LEAF_NODE {
        LeftMergeLeaf(father, nodeIndex, left);
      } else {
        LeftMergeItn(father, nodeIndex, left);
      }
    }

    // or the right one, by the first child.
    method MergeRight(father: BPlusTreeNode, nodeIndex: nat, right: BPlusTreeNode, ghost f: Tree)
      requires metaData.Valid() && Thin(father, nodeIndex, f)
      requires nodeIndex == 0 && Beside(father, right, 1, f)
      requires right.size <= metaData.maxDegree - 1
      modifies `size, keys, childs, father`size, father.keys, father.childs
      modifies right, right.keys, right.childs, metaData`pages, metaData.delNodePages
      ensures Valid() && father.Valid() && metaData.Valid()
      ensures RepairIs(f, nodeIndex, metaData.maxDegree, old(metaData.State()), View(), father.View(), metaData.State())
    {
      hide RepairIs, Choose, Apply, RepairDisk, PageOf, Flush, FreeNode, KidIds, Alike, RemoveAt;
      FatherPage(f, nodeIndex);
      MergePages(f, nodeIndex, metaData.maxDegree, metaData.State());
      if flag == LEAF_NODE {
        RightMergeLeaf(father, nodeIndex, right);
      } else {
        RightMergeItn(father, nodeIndex, right);
      }
    }

    // redistributeFromLeaf and redistributeFromInternal, which differ in the swaps and merges they call.
    method Redistribute(father: BPlusTreeNode, nodeIndex: nat, ghost f: Tree)
      requires Under(father, nodeIndex, f) && Thin(father, nodeIndex, f)
      modifies `size, keys, childs, father`size, father.keys, father.childs, metaData`pages, metaData.delNodePages
      ensures Valid() && father.Valid() && metaData.Valid()
      ensures RepairIs(f, nodeIndex, metaData.maxDegree, old(metaData.State()), View(), father.View(), metaData.State())
    {
      hide RepairIs, Alike, SiblingsReadable, Beside, Thin, Size;
      FatherPage(f, nodeIndex);
      var rightSibling: BPlusTreeNode?, leftSibling: BPlusTreeNode? := null, null;
      if nodeIndex != father.size {
        rightSibling := ReadSibling(father, nodeIndex, nodeIndex + 1, f);
      }
      if nodeIndex != 0 {
        leftSibling := ReadSibling(father, nodeIndex, nodeIndex - 1, f);
      }
      if rightSibling != null && rightSibling.size > metaData.maxDegree - 1 {
        BorrowRight(father, nodeIndex, rightSibling, f);
      } else if leftSibling != null && leftSibling.size > metaData.maxDegree - 1 {
        BorrowLeft(father, nodeIndex, leftSibling, f);
      } else if leftSibling != null {
        MergeLeft(father, nodeIndex, leftSibling, f);
      } else {
        MergeRight(father, nodeIndex, rightSibling, f);
      }
    }

    // Takes the key out of this leaf, frees its slot and writes the leaf.
    method RemoveKeyLeft(key: Key, ghost c: Tree)
      requires metaData.Valid() && Holds(c) && Removal.Holds(c, key) && Sorted(KeysOf(c.items))
      modifies `size, keys, childs, metaData`pages, metaData.delValues
      ensures metaData.Valid()
      ensures var e := DropEntry(c, key, old(metaData.State())); Holds(e.t) && metaData.State() == e.disk
    {
      hide RemoveAt;
      assert keys[..size] == KeysOf(c.items) && childs[..size] == SlotsOf(c.items);
      Present(KeysOf(c.items), key);
      var index := IndexNodeEqual(keys, size, key);
      DroppedPage(c, index);
      RemoveLeft(index);
      FlushToFile();
    }

    // At the root, a leaf may become thin or empty.
    method LeafRemoveRoot(key: Key, ghost t: Tree) returns (r: bool)
      requires metaData.Valid() && Holds(t) && t.Leaf? && Sorted(KeysOf(t.items))
      modifies `size, keys, childs, metaData`pages, metaData.delValues
      ensures metaData.Valid()
      ensures var e := DropEntry(t, key, old(metaData.State())); Holds(e.t) && metaData.State() == e.disk && r == e.ok
    {
      assert keys[..size] == KeysOf(t.items);
      Present(KeysOf(t.items), key);
      r := IsExisting(keys, size, key);
      if r {
        RemoveKeyLeft(key, t);
      }
    }

    // Below a father, a thin leaf is topped up first.
    method LeafRemove(father: BPlusTreeNode, nodeIndex: nat, key: Key, ghost f: Tree, ghost lo: Key, ghost hi: Key)
      returns (r: bool)
      requires Under(father, nodeIndex, f) && f.kids[nodeIndex].Leaf? && WF(f, metaData.maxDegree, 1, lo, hi)
      modifies `size, keys, childs, father`size, father.keys, father.childs
      modifies metaData`pages, metaData.delNodePages, metaData.delValues
      ensures metaData.Valid()
      ensures var e := RemoveAtLeaf(f, nodeIndex, key, old(metaData.State()));
              father.Holds(e.t) && metaData.State() == e.disk && r == e.ok
    {
      hide WF, Choose, Apply, RepairDisk, PageOf, RemoveAt, DropEntry, Alike, SiblingsReadable, Occupied, FirstGE;
      ghost var d, i, s, c := metaData.maxDegree, nodeIndex, metaData.State(), f.kids[nodeIndex];
      KidInOrder(f, i, d, lo, hi);
      LeafPageOf(c);
      assert keys[..size] == KeysOf(c.items);
      Present(KeysOf(c.items), key);
      r := IsExisting(keys, size, key);
      if !r {
        return;
      }
      ghost var f1, i1 := f, i;
      if size <= metaData.maxDegree - 1 {
        RepairHolds(f, i, key, d, lo, hi);
        RepairedInOrder(f, i, d, lo, hi);
        Redistribute(father, nodeIndex, f);
        f1, i1 := Apply(f, Choose(f, i, d)), RepairedAt(Choose(f, i, d), i);
      }
      ghost var e := DropEntry(f1.kids[i1], key, metaData.State());
      RemoveKeyLeft(key, f1.kids[i1]);
      SameIdsSamePage(f1, i1, e.t);
    }

    // Removes a key below this node; a thin child is topped up by its father on the way back.
    method InternalRemove(father: BPlusTreeNode, nodeIndex: nat, key: Key, ghost f: Tree, ghost h: nat, ghost lo: Key, ghost hi: Key)
      returns (r: bool, ghost path: seq<Ref>)
      requires metaData.Valid() && father.metaData == metaData && Distinct(father)
      requires f.Node? && father.Holds(f) && Removable(f, metaData.State(), h, lo, hi)
      requires nodeIndex < |f.kids| && Holds(f.kids[nodeIndex])
      modifies `size, keys, childs, father`size, father.keys, father.childs
      modifies metaData`pages, metaData.delNodePages, metaData.delValues
      ensures metaData.Valid()
      ensures var e := RemoveIn(f, nodeIndex, key, old(metaData.State()));
              father.Holds(e.t) && metaData.State() == e.disk && r == e.ok
      ensures path == Descent(f.kids[nodeIndex], key)
      decreases h
    {
      hide Removable, WF, Shaped, RemoveAtLeaf, Settle, PageOf, Alike, SiblingsReadable, FirstGT, Apart, SlotsLive, DiskOK;
      path := [offSet];
      ghost var d, i, s, c := metaData.maxDegree, nodeIndex, metaData.State(), f.kids[nodeIndex];
      LeafFlag(c);
      OpenRemovable(f, i, s, h, lo, hi);
      if flag == LEAF_NODE {
        r := LeafRemove(father, nodeIndex, key, f, lo, hi);
        return;
      }
      var childIndex, child := ReadChild(key, c);
      ghost var e := RemoveIn(c, childIndex, key, s);
      ghost var below;
      r, below := child.InternalRemove(this, childIndex, key, c, h - 1, Lo(f.keys, i, lo), Hi(f.keys, i, hi));
      path := path + below;
      ghost var f0 := WithKid(f, i, e.t);
      SameIdsSamePage(f, i, e.t);
      AfterRemoval(f, i, key, s, h, lo, hi);
      TopUp(father, nodeIndex, f0);
    }

    // Once a key below this internal node is gone: it is repaired if it is thin, and written.
    method TopUp(father: BPlusTreeNode, nodeIndex: nat, ghost f: Tree)
      requires Under(father, nodeIndex, f) && f.kids[nodeIndex].Node? && |f.kids[nodeIndex].keys| >= metaData.maxDegree - 2
      modifies `size, keys, childs, father`size, father.keys, father.childs, metaData`pages, metaData.delNodePages
      ensures metaData.Valid()
      ensures var (f1, s1) := Settle(f, nodeIndex, old(metaData.State())); father.Holds(f1) && metaData.State() == s1
    {
      hide Choose, Apply, RepairDisk, PageOf, Alike, SiblingsReadable;
      LeafFlag(f.kids[nodeIndex]);
      FatherPage(f, nodeIndex);
      if size < metaData.maxDegree - 1 {
        Redistribute(father, nodeIndex, f);
      }
      FlushToFile();
    }

    // The same without a father: an empty internal root keeps the one child it has left.
    method InternalRemoveRoot(key: Key, ghost t: Tree, ghost h: nat, ghost lo: Key, ghost hi: Key)
      returns (r: bool, ghost path: seq<Ref>)
      requires metaData.Valid() && Holds(t) && Removable(t, metaData.State(), h, lo, hi)
      modifies `size, keys, childs, metaData`pages, metaData.delNodePages, metaData.delValues
      ensures metaData.Valid()
      ensures var e := RootRemoved(t, key, old(metaData.State())); Holds(e.t) && metaData.State() == e.disk && r == e.ok
      ensures path == Descent(t, key)
    {
      hide Removable, WF, Shaped, DropEntry, RemoveIn, PageOf, FirstGT, Apart, SlotsLive, DiskOK;
      path := [offSet];
      ghost var s := metaData.State();
      LeafFlag(t);
      OpenRoot(t, s, h, lo, hi);
      if flag == LEAF_NODE {
        r := LeafRemoveRoot(key, t);
        return;
      }
      var childIndex, child := ReadChild(key, t);
      ghost var below;
      r, below := child.InternalRemove(this, childIndex, key, t, h, lo, hi);
      path := path + below;
      LastChild(t, childIndex, key, s);
      LeafFlag(RemoveIn(t, childIndex, key, s).t);
      if size == 0 {
        assert child.offSet == t.kids[childIndex].id;
        assert View().refs == [child.offSet];
        childs[0] := child.offSet;
        assert childs[..1] == [child.offSet];
      }
      FlushToFile();
    }

    // An empty internal root gives way to its only child, and its page is freed.
    method GiveUp(ghost c: Tree) returns (root: BPlusTreeNode)
      requires metaData.Valid() && Valid() && flag == INTERNAL_NODE && size == 0
      requires childs[0] == c.id && KidReadable(c, metaData.maxDegree, metaData.pages)
      modifies this, childs, metaData`pages, metaData.delNodePages
      ensures fresh(root) && fresh(root.keys) && fresh(root.childs) && root.metaData == metaData && root.Holds(c)
      ensures Valid() && metaData.Valid() && metaData.State() == FreeNode(old(metaData.State()), old(offSet))
    {
      root := GetNode(metaData, childs[0]);
      MarkDelete();
    }

    // Removes a key at the root. The result is null when the key was not there.
    method Remove(key: Key, ghost t: Tree, ghost h: nat, ghost lo: Key, ghost hi: Key)
      returns (root: BPlusTreeNode?, ghost path: seq<Ref>)
      requires metaData.Valid() && Holds(t) && Removable(t, metaData.State(), h, lo, hi)
      modifies this, keys, childs, metaData`pages, metaData.delNodePages, metaData.delValues
      ensures Valid() && metaData.Valid()
      ensures root == null || root == this || (fresh(root) && fresh(root.keys) && fresh(root.childs))
      ensures var e := RemoveRoot(t, key, old(metaData.State()));
              && metaData.State() == e.disk && (root == null <==> !e.ok)
              && (if root == null then Holds(e.t) else root.Holds(e.t) && root.metaData == metaData)
              && (root == null || (root == this <==> e.t.id == t.id))
      ensures path == Descent(t, key)
    {
      hide Removable, WF, Shaped, RootRemoved, RemoveRoot, PageOf, FreeNode, KidReadable, DelNodeList.Valid;
      ghost var s := metaData.State();
      OpenRoot(t, s, h, lo, hi);
      RootAfter(t, key, s, h, lo, hi);
      RootGivenUp(t, key, s);
      ghost var e := RootRemoved(t, key, s);
      var result;
      result, path := InternalRemoveRoot(key, t, h, lo, hi);
      LeafFlag(e.t);
      if !result {
        root := null;
        return;
      }
      if size == 0 {
        assert flag == INTERNAL_NODE ==> childs[..1] == PageOf(e.t).refs;
        if flag != LEAF_NODE {
          root := GiveUp(e.t.kids[0]);
          return;
        } else {
          ClearChilds();
        }
      }
      root := this;
    }
  }

  // The siblings of child i of f can be read, are of its kind and occupied.
  ghost predicate SiblingsReadable(f: Tree, i: nat, d: nat, pages: map<Ref, Page>)
    requires f.Node? && i < |f.kids|
  {
    forall j :: 0 <= j < |f.kids| && j != i ==> KidReadable(f.kids[j], d, pages) && Size(f.kids[j]) >= d - 1
  }

  lemma FatherPage(f: Tree, i: nat)
    requires f.Node? && i < |f.kids|
    ensures PageOf(f) == NodePage(f.keys, KidIds(f.kids)) && |PageOf(f.kids[i]).keys| == Size(f.kids[i])
    ensures PageOf(f.kids[i]).LeafPage? == f.kids[i].Leaf? && PageOf(f.kids[i]).NodePage? == f.kids[i].Node?
  {
  }

  // A removal at the root, before an empty root is given up.
  ghost function RootRemoved(t: Tree, k: Key, s: Disk): Dropped
    requires Shaped(t, s.g.degree) && GeometryOK(s.g)
  {
    if t.Leaf? then DropEntry(t, k, s)
    else
      var r := RemoveIn(t, FirstGT(t.keys, k), k, s);
      r.(disk := Flush(r.disk, t.id, PageOf(r.t)))
  }

  lemma RootGivenUp(t: Tree, k: Key, s: Disk)
    requires Shaped(t, s.g.degree) && GeometryOK(s.g)
    ensures var e := RootRemoved(t, k, s);
            RemoveRoot(t, k, s) ==
              if e.t.Node? && t.Node? && e.ok && |e.t.keys| == 0 && |e.t.kids| > 0 then
                e.(t := e.t.kids[0], disk := FreeNode(e.disk, t.id))
              else e
  {
    hide RemoveIn, DropEntry, Flush, FreeNode;
  }

  // When the father has no key left, its only child is the one below which the key was.
  lemma LastChild(f: Tree, i: nat, k: Key, s: Disk)
    requires f.Node? && Shaped(f, s.g.degree) && i < |f.kids| && GeometryOK(s.g)
    ensures var r := RemoveIn(f, i, k, s);
            |r.t.keys| == 0 ==> r.t.kids[0].id == f.kids[i].id && PageOf(r.t) == NodePage([], [f.kids[i].id])
  {
    hide FromLeft, FromRight, Fused, FreeNode, Flush, FirstGT, FirstGE, Shaped, GeometryOK;
    var r := RemoveIn(f, i, k, s);
    assert |r.t.keys| == 0 ==> KidIds(r.t.kids) == [r.t.kids[0].id];
  }

  lemma OpenRoot(t: Tree, s: Disk, h: nat, lo: Key, hi: Key)
    requires Removable(t, s, h, lo, hi)
    ensures GeometryOK(s.g) && Shaped(t, s.g.degree)
    ensures t.Leaf? ==> Sorted(KeysOf(t.items))
    ensures t.Node? ==> Sorted(t.keys) && |t.keys| >= 1 && |t.kids| == |t.keys| + 1 && KidsReadable(t, s.g.degree, s.pages)
  {
    hide Ids, IdsOf, HeldNode, Ownership.Apart, SlotsLive, PageOf;
    OpenNode(t, s.g.degree, h, lo, hi, s.pages);
  }

  // After a removal at the root its children can be read, and none of them lies on its page.
  lemma RootAfter(t: Tree, k: Key, s: Disk, h: nat, lo: Key, hi: Key)
    requires Removable(t, s, h, lo, hi)
    ensures GeometryOK(s.g) && Shaped(t, s.g.degree)
    ensures var e := RootRemoved(t, k, s);
            && e.t.Leaf? == t.Leaf? && e.t.id == t.id
            && (e.t.Node? ==>
                  && |e.t.kids| == |e.t.keys| + 1 && KidReadable(e.t.kids[0], s.g.degree, e.disk.pages)
                  && e.t.kids[0].id != t.id && PageOf(e.t).refs != [] && PageOf(e.t).refs[0] == e.t.kids[0].id)
  {
    hide Ids, IdsOf, HeldNode, Ownership.Apart, SlotsLive, PageOf, RemoveIn, DiskOK;
    OpenRoot(t, s, h, lo, hi);
    if t.Node? {
      var i, d := FirstGT(t.keys, k), s.g.degree;
      KidsOf(t, s.pages);
      RemoveInStored(t, i, k, s, h, lo, hi);
      RemoveInWF(t, i, k, s, h, lo, hi);
      var f1 := RemoveIn(t, i, k, s).t;
      assert Inner(f1.keys, f1.kids, d, h - 1, lo, hi);
      assert WF(f1.kids[0], d, h - 1, Lo(f1.keys, 0, lo), Hi(f1.keys, 0, hi));
      FatherPage(f1, 0);
      WFFits(f1.kids[0], d, h - 1, Lo(f1.keys, 0, lo), Hi(f1.keys, 0, hi));
      IdsWithin(f1.kids, 0);
      OwnId(f1.kids[0]);
      RootApart(t, s);
    }
  }

  // The root's page is not one of its children's.
  lemma RootApart(t: Tree, s: Disk)
    requires t.Node? && Ownership.Apart(Ids(t), s)
    ensures t.id !in IdsOf(t.kids)
  {
    hide IdsOf;
    Owns(Ids(t), s, t.id);
  }

  // Everything a removal below f relies on.
  ghost predicate Removable(f: Tree, s: Disk, h: nat, lo: Key, hi: Key) {
    && DiskOK(s) && Ownership.Apart(Ids(f), s) && SlotsLive(f, s) && KidsStored(f, s.pages)
    && Shaped(f, s.g.degree) && WF(f, s.g.degree, h, lo, hi)
  }

  lemma LeafPageOf(c: Tree)
    ensures c.Leaf? ==> PageOf(c) == LeafPage(KeysOf(c.items), SlotsOf(c.items))
  {
  }

  lemma DroppedPage(c: Tree, i: nat)
    requires c.Leaf? && i < |c.items|
    ensures PageOf(Leaf(c.id, RemoveAt(c.items, i))) == LeafPage(RemoveAt(KeysOf(c.items), i), RemoveAt(SlotsOf(c.items), i))
  {
    assert KeysOf(RemoveAt(c.items, i)) == RemoveAt(KeysOf(c.items), i);
    assert SlotsOf(RemoveAt(c.items, i)) == RemoveAt(SlotsOf(c.items), i);
  }

  lemma KidInOrder(f: Tree, i: nat, d: nat, lo: Key, hi: Key)
    requires f.Node? && WF(f, d, 1, lo, hi) && i < |f.kids|
    ensures f.kids[i].Leaf? && Sorted(KeysOf(f.kids[i].items)) && |f.kids[i].items| >= d - 1
  {
    assert WF(f.kids[i], d, 0, Lo(f.keys, i, lo), Hi(f.keys, i, hi));
  }

  lemma RepairedInOrder(f: Tree, i: nat, d: nat, lo: Key, hi: Key)
    requires Repairable(f, i, d) && WF(f, d, 1, lo, hi) && Size(f.kids[i]) == d - 1
    ensures var r := Choose(f, i, d); var c := Apply(f, r).kids[RepairedAt(r, i)]; c.Leaf? && Sorted(KeysOf(c.items))
  {
    var r := Choose(f, i, d);
    var f1, i1 := Apply(f, r), RepairedAt(r, i);
    RepairWF(f, i, d - 1, d, 0, lo, hi);
    assert WF(f1.kids[i1], d, 0, Lo(f1.keys, i1, lo), Hi(f1.keys, i1, hi));
  }

  lemma ReadableBut(f: Tree, i: nat, d: nat, h: nat, lo: Key, hi: Key, pages: map<Ref, Page>)
    requires d >= 2 && h > 0 && f.Node? && |f.keys| >= 1 && i < |f.kids| && Inner(f.keys, f.kids, d, h - 1, lo, hi)
    requires StoredBut(f.kids, i, pages) && forall j :: 0 <= j < |f.kids| && j != i ==> Size(f.kids[j]) >= d - 1
    ensures Repairable(f, i, d) && SiblingsReadable(f, i, d, pages) && (f.kids[i].Leaf? <==> h == 1)
  {
    forall j | 0 <= j < |f.kids|
      ensures f.kids[j].Leaf? == (h == 1) && (f.kids[j].Node? ==> |f.kids[j].kids| == |f.kids[j].keys| + 1)
      ensures j != i ==> KidReadable(f.kids[j], d, pages)
    {
      assert WF(f.kids[j], d, h - 1, Lo(f.keys, j, lo), Hi(f.keys, j, hi));
      WFFits(f.kids[j], d, h - 1, Lo(f.keys, j, lo), Hi(f.keys, j, hi));
    }
  }

  // What a removal below child i of f relies on, of f and of that child.
  lemma OpenRemovable(f: Tree, i: nat, s: Disk, h: nat, lo: Key, hi: Key)
    requires f.Node? && i < |f.kids| && Removable(f, s, h, lo, hi)
    ensures h > 0 && Repairable(f, i, s.g.degree) && SiblingsReadable(f, i, s.g.degree, s.pages)
    ensures f.kids[i].Leaf? <==> h == 1
    ensures f.kids[i].Node? ==>
      && Removable(f.kids[i], s, h - 1, Lo(f.keys, i, lo), Hi(f.keys, i, hi))
      && Sorted(f.kids[i].keys) && |f.kids[i].keys| >= 1 && |f.kids[i].kids| == |f.kids[i].keys| + 1
      && KidsReadable(f.kids[i], s.g.degree, s.pages) && Shaped(f.kids[i], s.g.degree) && Size(f.kids[i]) >= s.g.degree - 1
    ensures GeometryOK(s.g) && Shaped(f, s.g.degree) && WF(f, s.g.degree, h, lo, hi)
  {
    hide Ids, IdsOf, HeldNode, Ownership.Apart, SlotsLive, PageOf;
    var d, lo1, hi1 := s.g.degree, Lo(f.keys, i, lo), Hi(f.keys, i, hi);
    KidsOf(f, s.pages);
    forall j | 0 <= j < |f.kids|
      ensures KidsStored(f.kids[j], s.pages)
    {
      StoredBelow(f.kids[j], s.pages);
    }
    ReadableBut(f, i, d, h, lo, hi, s.pages);
    OpenKid(f, i, d, h, lo, hi, s.pages);
    KidApart(f, i, s);
    KidSlotsLive(f, i, s);
    OpenNode(f.kids[i], d, h - 1, lo1, hi1, s.pages);
  }

  // After the removal below child i the father can repair it.
  lemma AfterRemoval(f: Tree, i: nat, k: Key, s: Disk, h: nat, lo: Key, hi: Key)
    requires f.Node? && i < |f.kids| && f.kids[i].Node? && Removable(f, s, h, lo, hi)
    ensures GeometryOK(s.g) && Shaped(f.kids[i], s.g.degree) && FirstGT(f.kids[i].keys, k) < |f.kids[i].kids|
    ensures var e := RemoveIn(f.kids[i], FirstGT(f.kids[i].keys, k), k, s);
            var f0 := WithKid(f, i, e.t);
            && Repairable(f0, i, s.g.degree) && SiblingsReadable(f0, i, s.g.degree, e.disk.pages)
            && |e.t.keys| >= s.g.degree - 2
  {
    hide Ids, IdsOf, HeldNode, Ownership.Apart, DiskOK, SlotsLive, PageOf, RemoveIn;
    OpenRemovable(f, i, s, h, lo, hi);
    var d, c, lo1, hi1 := s.g.degree, f.kids[i], Lo(f.keys, i, lo), Hi(f.keys, i, hi);
    var j := FirstGT(c.keys, k);
    KidsOf(f, s.pages);
    KidsOf(c, s.pages);
    RemoveInStored(c, j, k, s, h - 1, lo1, hi1);
    RemoveInWF(c, j, k, s, h - 1, lo1, hi1);
    var e := RemoveIn(c, j, k, s);
    BesideStored(f, i, s, e.t, e.disk);
    ReplaceKid(f.keys, f.kids, i, e.t, d, h - 1, lo, hi);
    ReadableBut(WithKid(f, i, e.t), i, d, h, lo, hi, e.disk.pages);
  }

  lemma StoredKids(t: Tree, pages: map<Ref, Page>)
    requires Stored(t, pages)
    ensures KidsStored(t, pages)
  {
  }

  lemma LeafSlotLive(t: Tree, i: nat, s: Disk)
    requires t.Leaf? && i < |t.items| && SlotsLive(t, s)
    ensures SlotsOf(t.items)[i] in s.values
  {
    assert t.items[i] in Entries(t);
  }

  // After a split at the root the new right half can be read back.
  lemma RightHalf(t: Tree, k: Key, v: Value, s: Disk, h: nat, lo: Key, hi: Key)
    requires GeometryOK(s.g) && Shaped(t, s.g.degree) && WF(t, s.g.degree, h, lo, hi) && lo <= k < hi
    requires Stored(t, s.pages) && DiskOK(s) && Apart(Ids(t), s) && SlotsLive(t, s)
    ensures var o := Insertion.Insert(t, k, v, s);
            o.grown.Two? ==> KidReadable(o.grown.r, s.g.degree, o.disk.pages)
  {
    hide DiskOK, Apart, SlotsLive, Ids, HeldNode, Shaped, Insertion.Insert;
    InsertStored(t, k, v, s);
    InsertWF(t, k, v, s, h, lo, hi);
    var o := Insertion.Insert(t, k, v, s);
    if o.grown.Two? {
      WFFits(o.grown.r, s.g.degree, h, o.grown.sep, hi);
    }
  }

  lemma WFFits(t: Tree, d: nat, h: nat, lo: Key, hi: Key)
    requires WF(t, d, h, lo, hi)
    ensures Fits(PageOf(t), d)
  {
  }

  lemma RootPage(id: Ref, l: Tree, sep: Key, r: Tree)
    ensures PageOf(Node(id, [sep], [l, r])) == NodePage([sep], [l.id, r.id])
  {
    assert KidIds([l, r]) == [l.id, r.id];
  }

  lemma LeafFlag(t: Tree)
    ensures PageOf(t).LeafPage? == t.Leaf? && PageOf(t).NodePage? == t.Node? && |PageOf(t).keys| == Size(t)
  {
  }

  // What one level of the invariant says.
  lemma OpenNode(t: Tree, d: nat, h: nat, lo: Key, hi: Key, pages: map<Ref, Page>)
    requires Shaped(t, d) && WF(t, d, h, lo, hi) && KidsStored(t, pages)
    ensures t.Leaf? ==> Sorted(KeysOf(t.items))
    ensures t.Node? ==> h > 0 && Sorted(t.keys) && |t.keys| >= 1 && |t.kids| == |t.keys| + 1 && KidsReadable(t, d, pages)
  {
    if t.Node? {
      forall i | 0 <= i < |t.kids|
        ensures KidReadable(t.kids[i], d, pages)
      {
        KidPage(t, i, d, pages);
      }
    }
  }

  lemma OpenKid(t: Tree, i: nat, d: nat, h: nat, lo: Key, hi: Key, pages: map<Ref, Page>)
    requires t.Node? && h > 0 && i < |t.kids| == |t.keys| + 1
    requires Shaped(t, d) && WF(t, d, h, lo, hi) && KidsStored(t, pages)
    ensures Shaped(t.kids[i], d) && WF(t.kids[i], d, h - 1, Lo(t.keys, i, lo), Hi(t.keys, i, hi)) && KidsStored(t.kids[i], pages)
  {
    KidPage(t, i, d, pages);
  }

  ghost predicate KidReadable(c: Tree, d: nat, pages: map<Ref, Page>) {
    c.id in pages && pages[c.id] == PageOf(c) && Fits(PageOf(c), d)
  }

  ghost predicate KidsReadable(t: Tree, d: nat, pages: map<Ref, Page>) requires t.Node? {
    forall i :: 0 <= i < |t.kids| ==> KidReadable(t.kids[i], d, pages)
  }

  // The page of a child is one that a node can hold.
  lemma KidPage(t: Tree, i: nat, d: nat, pages: map<Ref, Page>)
    requires t.Node? && i < |t.kids| && Shaped(t, d) && KidsStored(t, pages)
    ensures KidReadable(t.kids[i], d, pages) && KidsStored(t.kids[i], pages) && Shaped(t.kids[i], d)
  {
  }

  ghost function PromotedOf(g: Grown): Option<Promoted> {
    if g.One? then None else Some(Promoted(g.sep, g.r.id))
  }
}
