/** The in-order content of a search tree: sorted, and reached by routing. */
module Order {
  import opened Pages
  import opened Trees

  lemma InOrderAppend(a: seq<Entry>, b: seq<Entry>, lo: Key, mid: Key, hi: Key)
    requires lo <= mid <= hi && InOrder(a, lo, mid) && InOrder(b, mid, hi)
    ensures InOrder(a + b, lo, hi)
  {
  }

  // The content of a search tree is strictly increasing and stays in its interval.
  lemma {:induction false} ContentInOrder(t: Tree, d: nat, h: nat, lo: Key, hi: Key)
    requires WF(t, d, h, lo, hi)
    ensures InOrder(Entries(t), lo, hi)
    decreases h, 0
  {
    if t.Node? {
      KidsInOrder(t.keys, t.kids, d, h - 1, lo, hi);
    }
  }

  lemma {:induction false} KidsInOrder(keys: seq<Key>, kids: seq<Tree>, d: nat, h: nat, lo: Key, hi: Key)
    requires Inner(keys, kids, d, h, lo, hi)
    ensures InOrder(EntriesOf(kids), lo, hi)
    decreases h, 1, |keys|
  {
    ContentInOrder(kids[0], d, h, lo, Hi(keys, 0, hi));
    if keys == [] {
      assert kids == [kids[0]];
      EntriesOfOne(kids[0]);
    } else {
      CutInner(keys, kids, 0, d, h, lo, hi);
      KidsInOrder(keys[1..], kids[1..], d, h, keys[0], hi);
      InOrderAppend(Entries(kids[0]), EntriesOf(kids[1..]), lo, keys[0], hi);
    }
  }

  // The children left of i hold only smaller keys, those right of i only larger ones.
  lemma Around(keys: seq<Key>, kids: seq<Tree>, i: nat, d: nat, h: nat, lo: Key, hi: Key)
    requires Inner(keys, kids, d, h, lo, hi) && i < |kids|
    ensures EntriesOf(kids) == EntriesOf(kids[..i]) + Entries(kids[i]) + EntriesOf(kids[i + 1..])
    ensures forall e :: e in EntriesOf(kids[..i]) ==> e.key < Lo(keys, i, lo)
    ensures forall e :: e in EntriesOf(kids[i + 1..]) ==> e.key >= Hi(keys, i, hi)
  {
    assert kids == kids[..i] + [kids[i]] + kids[i + 1..];
    EntriesOfThree(kids[..i], [kids[i]], kids[i + 1..]);
    EntriesOfOne(kids[i]);
    if i > 0 {
      CutInner(keys, kids, i - 1, d, h, lo, hi);
      KidsInOrder(keys[..i - 1], kids[..i], d, h, lo, keys[i - 1]);
    }
    if i < |keys| {
      CutInner(keys, kids, i, d, h, lo, hi);
      KidsInOrder(keys[i + 1..], kids[i + 1..], d, h, keys[i], hi);
    }
  }

  datatype Option<T> = None | Some(value: T)

  // The slot that get reads: one root-to-leaf path, then a search in the leaf.
  function Find(t: Tree, k: Key): Option<Ref> {
    match t
    case Leaf(_, items) =>
      var i := FirstGE(KeysOf(items), k);
      if i < |items| && items[i].key == k then Some(items[i].slot) else None
    case Node(_, keys, kids) =>
      var i := FirstGT(keys, k);
      if i < |kids| then Find(kids[i], k) else None
  }

  // Routing finds exactly the entries of the tree.
  lemma {:induction false} FindIsMember(t: Tree, k: Key, slot: Ref, d: nat, h: nat, lo: Key, hi: Key)
    requires WF(t, d, h, lo, hi)
    ensures Find(t, k) == Some(slot) <==> Entry(k, slot) in Entries(t)
    decreases h
  {
    match t
    case Leaf(_, items) =>
      var i := FirstGE(KeysOf(items), k);
      if Entry(k, slot) in items {
        var j :| 0 <= j < |items| && items[j] == Entry(k, slot);
      }
    case Node(_, keys, kids) =>
      var i := FirstGT(keys, k);
      FindIsMember(kids[i], k, slot, d, h - 1, Lo(keys, i, lo), Hi(keys, i, hi));
      Around(keys, kids, i, d, h - 1, lo, hi);
      if !(lo <= k < hi) {
        ContentInOrder(t, d, h, lo, hi);
        ContentInOrder(kids[i], d, h - 1, Lo(keys, i, lo), Hi(keys, i, hi));
      }
  }

  // The nodes visited by get, exist and the descents of set and remove.
  function Descent(t: Tree, k: Key): seq<Ref> {
    if t.Leaf? then [t.id]
    else
      var i := FirstGT(t.keys, k);
      if i < |t.kids| then [t.id] + Descent(t.kids[i], k) else [t.id]
  }

  // These are the pages on a way down from t to a leaf, each node a child of the one before.
  ghost predicate WayDown(t: Tree, path: seq<Ref>, leaf: Tree) {
    && path != [] && path[0] == t.id
    && match t
       case Leaf(_, _) => |path| == 1 && leaf == t
       case Node(_, _, kids) => exists i :: 0 <= i < |kids| && WayDown(kids[i], path[1..], leaf)
  }

  // The descent is a way down to the leaf in whose interval the key is, which has its entry if the tree has.
  lemma {:induction false} DescentWay(t: Tree, k: Key, d: nat, h: nat, lo: Key, hi: Key) returns (leaf: Tree, a: Key, b: Key)
    requires WF(t, d, h, lo, hi) && lo <= k < hi
    ensures WayDown(t, Descent(t, k), leaf) && WF(leaf, d, 0, a, b) && a <= k < b
    ensures forall slot :: Entry(k, slot) in Entries(t) <==> Entry(k, slot) in Entries(leaf)
    decreases h
  {
    if t.Leaf? {
      leaf, a, b := t, lo, hi;
    } else {
      var i := FirstGT(t.keys, k);
      var lo1, hi1 := Lo(t.keys, i, lo), Hi(t.keys, i, hi);
      leaf, a, b := DescentWay(t.kids[i], k, d, h - 1, lo1, hi1);
      assert Descent(t, k)[1..] == Descent(t.kids[i], k);
      forall slot
        ensures Entry(k, slot) in Entries(t) <==> Entry(k, slot) in Entries(t.kids[i])
      {
        FindIsMember(t, k, slot, d, h, lo, hi);
        FindIsMember(t.kids[i], k, slot, d, h - 1, lo1, hi1);
      }
    }
  }

  lemma {:induction false} DescentLength(t: Tree, k: Key, d: nat, h: nat, lo: Key, hi: Key)
    requires WF(t, d, h, lo, hi)
    ensures |Descent(t, k)| == h + 1
    decreases h
  {
    if t.Node? {
      var i := FirstGT(t.keys, k);
      DescentLength(t.kids[i], k, d, h - 1, Lo(t.keys, i, lo), Hi(t.keys, i, hi));
    }
  }
}
