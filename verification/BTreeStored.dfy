/** Insertion and removal leave the file storing the new B-tree, keep account of every
    position, and touch no page of anyone else. */
module BTreeStored {
  import opened Pages
  import opened BTrees
  import opened BTreeJoins
  import opened BTreeOrder
  import opened BTreeInsertion
  import opened BTreeRemoval
  import opened BTreeFiles

  // The whole state: a B-tree stored on a file that counts every position once.
  ghost predicate OnFile(t: Tree, s: BFile) {
    Stored(t, s.pages) && Apart(Ids(t), s)
  }

  lemma MovedOnFile(t: Tree, s: BFile, t1: Tree, s1: BFile)
    requires OnFile(t, s) && Moved(t, s, t1, s1)
    ensures OnFile(t1, s1)
  {
    KeptApart(Ids(t), s, Ids(t1), s1);
  }

  lemma KidOnFile(t: Tree, j: nat, s: BFile)
    requires OnFile(t, s) && j < |t.kids|
    ensures OnFile(t.kids[j], s)
  {
    KidApart(t, j, s);
    StoredNode(t, s.pages);
  }

  // Writing the page of a node whose children are stored.
  lemma WriteSettled(t: Tree, t1: Tree, s: BFile)
    requires OnFile(t, s) && t1.id == t.id && t1.kids == t.kids
    ensures Settled(t, s, t1, Write(s, t1))
  {
    hide IdsOf, Stored;
    StoredNode(t, s.pages);
    Owns(Ids(t), s, t.id);
    AllStoredFrame(t.kids, s.pages, Write(s, t1).pages);
    StoredNode(t1, Write(s, t1).pages);
  }

  // ----- insertion -----

  lemma {:induction false} InsertSettled(t: Tree, k: Key, T: nat, h: nat, lo: Key, hi: Key, s: BFile)
    requires T >= 2 && Good(t, T, h, lo, hi) && |t.keys| < 2 * T - 1 && lo < k < hi && OnFile(t, s)
    ensures var (t1, s1) := InsertNonFull(t, k, T, h, s); Settled(t, s, t1, s1)
    decreases h
  {
    hide Occupied, Content, Ordered, SplitChild, FirstGE, Stored, Ids, Apart, Moved, Write, SplitOut;
    OrderedRow(t, h, lo, hi);
    var i := FirstGE(t.keys, k);
    if i < |t.keys| && t.keys[i] == k {
      Unchanged(t, s);
    } else if h == 0 {
      WriteSettled(t, Node(t.id, InsertAt(t.keys, i, k), t.kids), s);
    } else {
      var (t1, s1) := if |t.kids[i].keys| == 2 * T - 1 then SplitChild(t, i, T, s) else (t, s);
      var j := if |t1.keys| > |t.keys| && t1.keys[i] < k then i + 1 else i;
      PrepareSettled(t, i, T, s);
      EntersAny(t, k, T, h, lo, hi, s);
      MovedOnFile(t, s, t1, s1);
      KidOnFile(t1, j, s1);
      InsertSettled(t1.kids[j], k, T, h - 1, Lo(t1.keys, j, lo), Ceiling(t1, j, k, hi), s1);
      var (c, s2) := InsertNonFull(t1.kids[j], k, T, h - 1, s1);
      SettledBelow(t1, j, s1, c, s2);
      SettledThen(t, s, t1, s1, WithKid(t1, j, c), s2);
    }
  }

  lemma Unchanged(t: Tree, s: BFile)
    requires OnFile(t, s)
    ensures Settled(t, s, t, s)
  {
  }

  lemma PrepareSettled(t: Tree, i: nat, T: nat, s: BFile)
    requires T >= 2 && |t.kids| == |t.keys| + 1 && i < |t.kids| && OnFile(t, s)
    ensures var (t1, s1) := if |t.kids[i].keys| == 2 * T - 1 then SplitChild(t, i, T, s) else (t, s); Settled(t, s, t1, s1)
  {
    hide Ids, SplitChild;
    if |t.kids[i].keys| == 2 * T - 1 {
      SplitSettled(t, i, T, s);
    }
  }

  lemma InsertRootMoved(t: Tree, k: Key, T: nat, h: nat, lo: Key, hi: Key, s: BFile)
    requires T >= 2 && Good(t, T, h, lo, hi) && lo < k < hi && OnFile(t, s)
    ensures var (t1, s1) := InsertRoot(t, k, T, h, s); Moved(t, s, t1, s1)
  {
    hide Content, Ordered, Occupied, SplitChild, InsertNonFull, Stored, Ids, Apart, Flat, SplitOut;
    if |t.keys| < 2 * T - 1 {
      InsertSettled(t, k, T, h, lo, hi, s);
    } else {
      var (s1, id) := Take(s);
      var r := Node(id, [], [t]);
      var (t1, s2) := SplitChild(r, 0, T, s1);
      var j := if t1.keys[0] < k then 1 else 0;
      NewRootSettled(t, T, s);
      RootEntersAny(t, k, T, h, lo, hi, s);
      MovedOnFile(t, s, t1, s2);
      KidOnFile(t1, j, s2);
      InsertSettled(t1.kids[j], k, T, h, Lo(t1.keys, j, lo), Ceiling(t1, j, k, hi), s2);
      var (c, s3) := InsertNonFull(t1.kids[j], k, T, h, s2);
      SettledBelow(t1, j, s2, c, s3);
      MovedThen(t, s, t1, s2, WithKid(t1, j, c), s3);
    }
  }

  lemma MovedThen(t: Tree, s: BFile, t1: Tree, s1: BFile, t2: Tree, s2: BFile)
    requires Moved(t, s, t1, s1) && Moved(t1, s1, t2, s2)
    ensures Moved(t, s, t2, s2)
  {
    hide Ids, Stored;
    forall p: Ref
      ensures Held(Ids(t2), s2, p) == Held(Ids(t), s, p)
      ensures p !in Ids(t) && p !in s.freed && p < s.next && p in s.pages ==> p in s2.pages && s2.pages[p] == s.pages[p]
    {
      assert Held(Ids(t1), s1, p) == Held(Ids(t), s, p);
    }
  }

  // The new root over a full one, after the split.
  lemma NewRootSettled(t: Tree, T: nat, s: BFile)
    requires T >= 2 && |t.keys| == 2 * T - 1 && OnFile(t, s)
    ensures var (s1, id) := Take(s);
            var (t1, s2) := SplitChild(Node(id, [], [t]), 0, T, s1);
            Moved(t, s, t1, s2)
  {
    hide SplitChild, Stored;
    var (s1, id) := Take(s);
    var r := Node(id, [], [t]);
    TakeKept(Ids(t), s);
    IdsOfOne(t);
    assert Ids(r) == Ids(t) + multiset{id};
    KeptApart(Ids(t), s, Ids(r), s1);
    SplitSettled(r, 0, T, s1);
    var (t1, s2) := SplitChild(r, 0, T, s1);
    forall p: Ref
      ensures Held(Ids(t1), s2, p) == Held(Ids(t), s, p)
    {
      assert Held(Ids(r), s1, p) == Held(Ids(t), s, p);
    }
  }

  // ----- removal -----

  lemma {:induction false} RemoveSettled(t: Tree, k: Key, T: nat, h: nat, lo: Key, hi: Key, s: BFile, root: bool)
    requires T >= 2 && Good(t, T, h, lo, hi) && lo < k < hi && Enterable(t, T, h, root) && OnFile(t, s)
    ensures var r := Remove(t, k, T, h, s); Settled(t, s, r.t, r.file)
    decreases h, 1
  {
    hide Content, Ordered, FirstGE, Occupied, FillNode, RemoveFromNonLeaf, Stored, Ids, Apart, Moved, Write;
    OrderedRow(t, h, lo, hi);
    var i := FirstGE(t.keys, k);
    if h == 0 {
      LeafSettled(t, k, s);
    } else if i < |t.keys| && t.keys[i] == k {
      RemoveNonLeafSettled(t, i, T, h, lo, hi, s);
    } else {
      var (f, s1) := if |t.kids[i].keys| < T then FillNode(t, i, T, s) else (t, s);
      var j := if i == |t.keys| && i > |f.keys| then i - 1 else i;
      FilledSettled(t, i, T, s);
      FillNeeded(t, i, k, T, h, lo, hi, s);
      KidGood(f, j, T, h, lo, hi);
      Routed(f, k, h, lo, hi);
      MovedOnFile(t, s, f, s1);
      KidOnFile(f, j, s1);
      RemoveSettled(f.kids[j], k, T, h - 1, Lo(f.keys, j, lo), Hi(f.keys, j, hi), s1, false);
      var r := Remove(f.kids[j], k, T, h - 1, s1);
      SettledBelow(f, j, s1, r.t, r.file);
      SettledThen(t, s, f, s1, WithKid(f, j, r.t), r.file);
    }
  }

  lemma FilledSettled(t: Tree, i: nat, T: nat, s: BFile)
    requires T >= 2 && |t.kids| == |t.keys| + 1 && |t.keys| >= 1 && i < |t.kids| && OnFile(t, s)
    ensures var (f, s1) := if |t.kids[i].keys| < T then FillNode(t, i, T, s) else (t, s); Settled(t, s, f, s1)
  {
    hide Ids, FillNode;
    if |t.kids[i].keys| < T {
      FillSettled(t, i, T, s);
    }
  }

  lemma LeafSettled(t: Tree, k: Key, s: BFile)
    requires OnFile(t, s)
    ensures var r := RemoveFromLeaf(t, k, s); Settled(t, s, r.t, r.file)
  {
    hide Ids, Write;
    var r := RemoveFromLeaf(t, k, s);
    if r.ok {
      WriteSettled(t, r.t, s);
    }
  }

  lemma {:induction false} RemoveNonLeafSettled(t: Tree, i: nat, T: nat, h: nat, lo: Key, hi: Key, s: BFile)
    requires T >= 2 && Good(t, T, h, lo, hi) && Inner(t, h) && i < |t.keys| && OnFile(t, s)
    ensures var r := RemoveFromNonLeaf(t, i, T, h, s); Settled(t, s, r.t, r.file)
    decreases h, 0
  {
    hide Content, Ordered, Occupied, Remove, MergeNodes, LastKey, FirstKey, Stored, Ids, Apart, Moved, Replaced;
    var a, b := t.kids[i], t.kids[i + 1];
    RemoveNonLeafGood(t, i, T, h, lo, hi, s);
    KidGood(t, i, T, h, lo, hi);
    KidGood(t, i + 1, T, h, lo, hi);
    if |a.keys| >= T {
      var k := LastKey(a);
      LastWithin(a, T, h - 1, Lo(t.keys, i, lo), t.keys[i]);
      KidOnFile(t, i, s);
      RemoveSettled(a, k, T, h - 1, Lo(t.keys, i, lo), t.keys[i], s, false);
      ReplacedOk(Node(t.id, t.keys[i := k], t.kids), i, Remove(a, k, T, h - 1, s));
      ReplacedSettled(t, Node(t.id, t.keys[i := k], t.kids), i, s, Remove(a, k, T, h - 1, s));
    } else if |b.keys| >= T {
      var k := FirstKey(b);
      FirstWithin(b, T, h - 1, t.keys[i], Hi(t.keys, i + 1, hi));
      KidOnFile(t, i + 1, s);
      RemoveSettled(b, k, T, h - 1, t.keys[i], Hi(t.keys, i + 1, hi), s, false);
      ReplacedOk(Node(t.id, t.keys[i := k], t.kids), i + 1, Remove(b, k, T, h - 1, s));
      ReplacedSettled(t, Node(t.id, t.keys[i := k], t.kids), i + 1, s, Remove(b, k, T, h - 1, s));
    } else {
      MergedSettled(t, i, T, h, lo, hi, s);
    }
  }

  lemma MergedSettled(t: Tree, i: nat, T: nat, h: nat, lo: Key, hi: Key, s: BFile)
    requires T >= 2 && Good(t, T, h, lo, hi) && Inner(t, h) && i < |t.keys| && OnFile(t, s)
    requires |t.kids[i].keys| < T && |t.kids[i + 1].keys| < T && RemoveFromNonLeaf(t, i, T, h, s).ok
    ensures var r := RemoveFromNonLeaf(t, i, T, h, s); Settled(t, s, r.t, r.file)
    decreases h, 0, 0
  {
    hide Content, Ordered, Occupied, Remove, MergeNodes, LastKey, FirstKey, Stored, Ids, Apart, Moved, Replaced;
    var (f, s1) := MergeNodes(t, i, s);
    var k, lo1, hi1 := t.keys[i], Lo(f.keys, i, lo), Hi(f.keys, i, hi);
    MergeGood(t, i, T, h, lo, hi, s);
    MergeSettled(t, i, s);
    MovedOnFile(t, s, f, s1);
    KidGood(f, i, T, h, lo, hi);
    KeyBounds(f.kids[i], T - 1, h - 1, lo1, hi1);
    KidOnFile(f, i, s1);
    RemoveSettled(f.kids[i], k, T, h - 1, lo1, hi1, s1, false);
    var r := Remove(f.kids[i], k, T, h - 1, s1);
    ReplacedOk(f, i, r);
    ReplacedSettled(f, f, i, s1, r);
    SettledThen(t, s, f, s1, Replaced(f, i, r).t, Replaced(f, i, r).file);
  }

  lemma ReplacedOk(f: Tree, i: nat, r: Removed)
    requires i < |f.kids|
    ensures Replaced(f, i, r).ok == r.ok
  {
  }

  // After the removal below child i, the child and the node, with its new key, are written.
  lemma ReplacedSettled(t: Tree, f: Tree, i: nat, s: BFile, r: Removed)
    requires i < |t.kids| && OnFile(t, s) && f.id == t.id && f.kids == t.kids
    requires Settled(t.kids[i], s, r.t, r.file) && r.ok
    ensures var q := Replaced(f, i, r); Settled(t, s, q.t, q.file)
  {
    hide Stored, Ids;
    SettledBelow(t, i, s, r.t, r.file);
    var t1 := WithKid(t, i, r.t);
    MovedOnFile(t, s, t1, r.file);
    StoredNode(r.t, r.file.pages);
    assert Write(r.file, r.t) == r.file;
    WriteSettled(t1, WithKid(f, i, r.t), r.file);
    SettledThen(t, s, t1, r.file, WithKid(f, i, r.t), Write(r.file, WithKid(f, i, r.t)));
  }

  lemma RemoveRootMoved(t: Tree, k: Key, T: nat, h: nat, lo: Key, hi: Key, s: BFile)
    requires T >= 2 && Good(t, T, h, lo, hi) && lo < k < hi && |t.keys| >= 1 && OnFile(t, s)
    ensures var r := RemoveRoot(t, k, T, h, s); Moved(t, s, r.t, r.file)
  {
    hide Content, Ordered, Occupied, Remove, Stored, Ids, Apart, Flat, Moved;
    RemoveSettled(t, k, T, h, lo, hi, s, true);
    RemoveGood(t, k, T, h, lo, hi, s, true);
    var r := Remove(t, k, T, h, s);
    if |r.t.keys| == 0 && |r.t.kids| > 0 {
      OrderedRow(r.t, h, lo, hi);
      MovedOnFile(t, s, r.t, r.file);
      RootFreed(r.t, r.file);
      var q := RemoveRoot(t, k, T, h, s);
      MovedThen(t, s, r.t, r.file, q.t, q.file);
    }
  }

  // An empty root gives its position back.
  lemma RootFreed(t: Tree, s: BFile)
    requires |t.kids| == 1 && OnFile(t, s)
    ensures Moved(t, s, t.kids[0], s.(freed := s.freed + [t.id], pages := s.pages[t.id := BDeleted]))
  {
    hide Stored;
    var c, s1 := t.kids[0], s.(freed := s.freed + [t.id], pages := s.pages[t.id := BDeleted]);
    assert t.kids == [c];
    IdsOfOne(c);
    assert Ids(t) == multiset{t.id} + Ids(c);
    Owns(Ids(t), s, t.id);
    StoredNode(t, s.pages);
    assert Stored(t.kids[0], s.pages);
    StoredFrame(c, s.pages, s1.pages);
    forall p: Ref
      ensures Held(Ids(c), s1, p) == Held(Ids(t), s, p)
    {
    }
  }
}
