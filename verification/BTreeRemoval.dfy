/** Removing a key in one downward pass keeps the B-tree and takes away exactly that key. */
module BTreeRemoval {
  import opened Pages
  import opened BTrees
  import opened BTreeJoins
  import opened BTreeOrder
  import opened BTreeInsertion

  // ----- filling a thin child -----

  // f1 is f after a rearrangement of its children.
  ghost predicate Rearranged(f: Tree, f1: Tree, T: nat, h: nat, lo: Key, hi: Key) {
    && Ordered(f1, h, lo, hi) && Occupied(f1.kids, T) && Content(f1) == Content(f)
    && |f.keys| - 1 <= |f1.keys| <= |f.keys| && |f1.kids| == |f1.keys| + 1
  }

  // A borrow is a join followed by a cut elsewhere.
  lemma ShiftGood(f: Tree, i: nat, m: nat, id: Ref, T: nat, h: nat, lo: Key, hi: Key)
    requires T >= 2 && Ordered(f, h, lo, hi) && h > 0 && Occupied(f.kids, T) && i < |f.keys| && |f.kids| == |f.keys| + 1
    requires var n := |f.kids[i].keys| + 1 + |f.kids[i + 1].keys|; T - 1 <= m <= 2 * T - 1 && T - 1 <= n - 1 - m <= 2 * T - 1
    ensures var f1 := Part(Join(f, i), i, m, id);
            Rearranged(f, f1, T, h, lo, hi) && |f1.keys| == |f.keys| && |f1.kids[i].keys| == m
            && |f1.kids[i + 1].keys| == |f.kids[i].keys| + |f.kids[i + 1].keys| - m
            && (forall x :: 0 <= x < |f.keys| && x != i ==> f1.keys[x] == f.keys[x])
            && f1.keys[i] == (f.kids[i].keys + [f.keys[i]] + f.kids[i + 1].keys)[m]
  {
    JoinOrdered(f, i, h, lo, hi);
    JoinOccupied(f, i, T);
    JoinContent(f, i);
    var g := Join(f, i);
    PartOrdered(g, i, m, id, h, lo, hi);
    PartOccupied(g, i, m, id, T);
    PartContent(g, i, m, id);
  }

  lemma MergeGood(f: Tree, i: nat, T: nat, h: nat, lo: Key, hi: Key, s: BFile)
    requires T >= 2 && Ordered(f, h, lo, hi) && h > 0 && Occupied(f.kids, T) && i < |f.keys| && |f.kids| == |f.keys| + 1
    requires |f.kids[i].keys| + |f.kids[i + 1].keys| <= 2 * T - 2
    ensures var f1 := MergeNodes(f, i, s).0;
            && Rearranged(f, f1, T, h, lo, hi)
            && |f1.kids[i].keys| == 2 * T - 1 && f1.kids[i].keys[T - 1] == f.keys[i]
            && f1.keys == RemoveAt(f.keys, i)
  {
    assert |f.kids[i].keys| >= T - 1 && |f.kids[i + 1].keys| >= T - 1;
    JoinOrdered(f, i, h, lo, hi);
    JoinOccupied(f, i, T);
    JoinContent(f, i);
  }

  // After filling, the key routes to a child with at least T keys.
  ghost predicate Entered(f: Tree, j: nat, k: Key, T: nat) {
    && j < |f.kids| == |f.keys| + 1 && |f.kids[j].keys| >= T
    && j == FirstGE(f.keys, k) && (j < |f.keys| ==> f.keys[j] != k)
  }

  lemma FillGood(f: Tree, i: nat, k: Key, T: nat, h: nat, lo: Key, hi: Key, s: BFile)
    requires T >= 2 && Ordered(f, h, lo, hi) && h > 0 && Occupied(f.kids, T) && |f.kids| == |f.keys| + 1 && |f.keys| >= 1
    requires i == FirstGE(f.keys, k) && (i < |f.keys| ==> f.keys[i] != k) && |f.kids[i].keys| < T
    ensures var f1 := FillNode(f, i, T, s).0;
            var j := if i == |f.keys| && i > |f1.keys| then i - 1 else i;
            Rearranged(f, f1, T, h, lo, hi) && Entered(f1, j, k, T)
  {
    hide Flat, Ordered, Content, FirstGE, Occupied, BorrowFromPrev, BorrowFromNext, MergeNodes;
    KidSize(f, i, T);
    if i != 0 && |f.kids[i - 1].keys| >= T {
      FillFromPrev(f, i, k, T, h, lo, hi, s);
    } else if i != |f.keys| && |f.kids[i + 1].keys| >= T {
      FillFromNext(f, i, k, T, h, lo, hi, s);
    } else {
      FillByMerge(f, i, if i != |f.keys| then i else i - 1, k, T, h, lo, hi, s);
    }
  }

  lemma FillByMerge(f: Tree, i: nat, x: nat, k: Key, T: nat, h: nat, lo: Key, hi: Key, s: BFile)
    requires T >= 2 && Ordered(f, h, lo, hi) && h > 0 && Occupied(f.kids, T) && |f.kids| == |f.keys| + 1
    requires i == FirstGE(f.keys, k) && (i < |f.keys| ==> f.keys[i] != k) && |f.kids[i].keys| < T
    requires x < |f.keys| && (if x == i then |f.kids[i + 1].keys| < T else x + 1 == i == |f.keys| && |f.kids[x].keys| < T)
    ensures var f1 := MergeNodes(f, x, s).0; Rearranged(f, f1, T, h, lo, hi) && Entered(f1, x, k, T) && |f1.keys| == |f.keys| - 1
  {
    hide Flat, Ordered, Content, Occupied;
    SortedKeys(f, h, lo, hi);
    MergeGood(f, x, T, h, lo, hi, s);
    var f1 := MergeNodes(f, x, s).0;
    SortedKeys(f1, h, lo, hi);
    assert x > 0 ==> f1.keys[x - 1] == f.keys[x - 1] < k;
    assert x < |f1.keys| ==> f1.keys[x] == f.keys[x + 1] && f.keys[x + 1] > f.keys[x];
    FirstGEIs(f1.keys, k, x);
  }

  lemma FillFromPrev(f: Tree, i: nat, k: Key, T: nat, h: nat, lo: Key, hi: Key, s: BFile)
    requires T >= 2 && Ordered(f, h, lo, hi) && h > 0 && Occupied(f.kids, T) && |f.kids| == |f.keys| + 1
    requires i == FirstGE(f.keys, k) && (i < |f.keys| ==> f.keys[i] != k) && |f.kids[i].keys| == T - 1
    requires i > 0 && |f.kids[i - 1].keys| >= T
    ensures var f1 := BorrowFromPrev(f, i, s).0; Rearranged(f, f1, T, h, lo, hi) && |f1.keys| == |f.keys| && Entered(f1, i, k, T)
  {
    hide Ordered, Occupied, Content, FirstGE;
    var p, n := f.kids[i - 1], |f.kids[i - 1].keys|;
    KidSize(f, i - 1, T);
    ShiftGood(f, i - 1, n - 1, f.kids[i].id, T, h, lo, hi);
    var f1 := BorrowFromPrev(f, i, s).0;
    assert f1.keys[i - 1] == p.keys[n - 1];
    KidGood(f, i - 1, T, h, lo, hi);
    KeyBounds(p, n - 1, h - 1, Lo(f.keys, i - 1, lo), f.keys[i - 1]);
    SortedKeys(f1, h, lo, hi);
    FirstGEIs(f1.keys, k, i);
  }

  lemma FillFromNext(f: Tree, i: nat, k: Key, T: nat, h: nat, lo: Key, hi: Key, s: BFile)
    requires T >= 2 && Ordered(f, h, lo, hi) && h > 0 && Occupied(f.kids, T) && |f.kids| == |f.keys| + 1
    requires i == FirstGE(f.keys, k) && i < |f.keys| && f.keys[i] != k && |f.kids[i].keys| == T - 1
    requires |f.kids[i + 1].keys| >= T
    ensures var f1 := BorrowFromNext(f, i, s).0; Rearranged(f, f1, T, h, lo, hi) && |f1.keys| == |f.keys| && Entered(f1, i, k, T)
  {
    hide Ordered, Occupied, Content, FirstGE;
    var q := f.kids[i + 1];
    KidSize(f, i + 1, T);
    ShiftGood(f, i, T, q.id, T, h, lo, hi);
    var f1 := BorrowFromNext(f, i, s).0;
    assert f1.keys[i] == q.keys[0];
    KidGood(f, i + 1, T, h, lo, hi);
    KeyBounds(q, 0, h - 1, f.keys[i], Hi(f.keys, i + 1, hi));
    SortedKeys(f1, h, lo, hi);
    FirstGEIs(f1.keys, k, i);
  }

  // ----- removal -----

  // t1 is t without k, if it was there, and at most one key shorter at the top.
  ghost predicate Dropped(t: Tree, t1: Tree, ok: bool, k: Key, T: nat, h: nat, lo: Key, hi: Key) {
    && Good(t1, T, h, lo, hi) && |t.keys| - 1 <= |t1.keys|
    && ok == (k in Content(t))
    && (if ok then Gains(Content(t1), Content(t), k) else Content(t1) == Content(t))
  }

  // What was removed from child j is removed from the whole node, which had the same content as t.
  lemma KidDropped(t: Tree, f: Tree, j: nat, c: Tree, ok: bool, k: Key, T: nat, h: nat, lo: Key, hi: Key)
    requires T >= 2 && h > 0 && Good(t, T, h, lo, hi) && Rearranged(t, f, T, h, lo, hi) && j < |f.kids|
    requires |f.kids[j].keys| >= T && (k in Content(f) <==> k in Content(f.kids[j]))
    requires Dropped(f.kids[j], c, ok, k, T, h - 1, Lo(f.keys, j, lo), Hi(f.keys, j, hi))
    ensures Dropped(t, WithKid(f, j, c), ok, k, T, h, lo, hi)
  {
    hide Flat, Before, After;
    WithKidOrdered(f, j, c, h, lo, hi);
    Around(f, j);
    SameAround(f, j, WithKid(f, j, c));
    if ok {
      GainsBetween(Before(f, j), Content(c), Content(f.kids[j]), After(f, j), k);
    }
  }

  // A removal enters the root, or a node with at least T keys.
  ghost predicate Enterable(t: Tree, T: nat, h: nat, root: bool) {
    if root then h > 0 ==> |t.keys| >= 1 else |t.keys| >= T
  }

  lemma {:induction false} RemoveGood(t: Tree, k: Key, T: nat, h: nat, lo: Key, hi: Key, s: BFile, root: bool)
    requires T >= 2 && Good(t, T, h, lo, hi) && lo < k < hi && Enterable(t, T, h, root)
    ensures var r := Remove(t, k, T, h, s); Dropped(t, r.t, r.ok, k, T, h, lo, hi)
    decreases h, 1
  {
    hide Flat, Content, Ordered, FirstGE, Occupied, Gains, Dropped, FillNode, RemoveFromNonLeaf, RemoveFromLeaf;
    OrderedRow(t, h, lo, hi);
    var i := FirstGE(t.keys, k);
    if h == 0 {
      LeafDropped(t, k, T, lo, hi, s);
    } else if i < |t.keys| && t.keys[i] == k {
      RemoveNonLeafGood(t, i, T, h, lo, hi, s);
    } else {
      var (f, s1) := if |t.kids[i].keys| < T then FillNode(t, i, T, s) else (t, s);
      var j := if i == |t.keys| && i > |f.keys| then i - 1 else i;
      FillNeeded(t, i, k, T, h, lo, hi, s);
      KidGood(f, j, T, h, lo, hi);
      Routed(f, k, h, lo, hi);
      RemoveGood(f.kids[j], k, T, h - 1, Lo(f.keys, j, lo), Hi(f.keys, j, hi), s1, false);
      var r := Remove(f.kids[j], k, T, h - 1, s1);
      KidDropped(t, f, j, r.t, r.ok, k, T, h, lo, hi);
    }
  }

  lemma FillNeeded(t: Tree, i: nat, k: Key, T: nat, h: nat, lo: Key, hi: Key, s: BFile)
    requires T >= 2 && Good(t, T, h, lo, hi) && h > 0 && |t.kids| == |t.keys| + 1 && |t.keys| >= 1
    requires i == FirstGE(t.keys, k) && (i < |t.keys| ==> t.keys[i] != k)
    ensures var f := if |t.kids[i].keys| < T then FillNode(t, i, T, s).0 else t;
            var j := if i == |t.keys| && i > |f.keys| then i - 1 else i;
            Rearranged(t, f, T, h, lo, hi) && Entered(f, j, k, T)
  {
    hide FillNode, Flat, Ordered, Occupied, FirstGE;
    if |t.kids[i].keys| < T {
      FillGood(t, i, k, T, h, lo, hi, s);
    }
  }

  lemma LeafWithout(t: Tree, i: nat, lo: Key, hi: Key)
    requires Ordered(t, 0, lo, hi) && i < |t.keys|
    ensures var t1 := Node(t.id, RemoveAt(t.keys, i), t.kids);
            Ordered(t1, 0, lo, hi) && Gains(Content(t1), Content(t), t.keys[i]) && t.keys[i] in Content(t)
  {
    var t1 := Node(t.id, RemoveAt(t.keys, i), t.kids);
    OrderedRow(t, 0, lo, hi);
    LeafContent(t);
    LeafContent(t1);
    assert t.keys == InsertAt(RemoveAt(t.keys, i), i, t.keys[i]);
    assert Content(t) == InsertAt(Content(t1), i, t.keys[i]);
  }

  lemma LeafDropped(t: Tree, k: Key, T: nat, lo: Key, hi: Key, s: BFile)
    requires T >= 2 && Good(t, T, 0, lo, hi)
    ensures var r := RemoveFromLeaf(t, k, s); Dropped(t, r.t, r.ok, k, T, 0, lo, hi)
  {
    var i, r := FirstGE(t.keys, k), RemoveFromLeaf(t, k, s);
    OrderedRow(t, 0, lo, hi);
    if r.ok {
      LeafWithout(t, i, lo, hi);
    } else {
      Missing(t.keys, k);
    }
  }

  // A key of an internal node goes, wherever its replacement comes from.
  lemma {:induction false} RemoveNonLeafGood(t: Tree, i: nat, T: nat, h: nat, lo: Key, hi: Key, s: BFile)
    requires T >= 2 && Good(t, T, h, lo, hi) && Inner(t, h) && i < |t.keys|
    ensures var r := RemoveFromNonLeaf(t, i, T, h, s); Dropped(t, r.t, r.ok, t.keys[i], T, h, lo, hi) && r.ok
    decreases h, 0
  {
    hide Flat, Content, Ordered, Occupied, Gains, Dropped, Remove, MergeNodes, LastKey, FirstKey;
    var a, b := t.kids[i], t.kids[i + 1];
    KidGood(t, i, T, h, lo, hi);
    KidGood(t, i + 1, T, h, lo, hi);
    if |a.keys| >= T {
      var k := LastKey(a);
      LastWithin(a, T, h - 1, Lo(t.keys, i, lo), t.keys[i]);
      RemoveGood(a, k, T, h - 1, Lo(t.keys, i, lo), t.keys[i], s, false);
      PredGood(t, i, Remove(a, k, T, h - 1, s), T, h, lo, hi);
    } else if |b.keys| >= T {
      var k := FirstKey(b);
      FirstWithin(b, T, h - 1, t.keys[i], Hi(t.keys, i + 1, hi));
      RemoveGood(b, k, T, h - 1, t.keys[i], Hi(t.keys, i + 1, hi), s, false);
      SuccGood(t, i, Remove(b, k, T, h - 1, s), T, h, lo, hi);
    } else {
      var (f, s1) := MergeNodes(t, i, s);
      var k := t.keys[i];
      MergeGood(t, i, T, h, lo, hi, s);
      KidGood(f, i, T, h, lo, hi);
      MergedHolds(f, i, T, h, lo, hi);
      KeyBounds(f.kids[i], T - 1, h - 1, Lo(f.keys, i, lo), Hi(f.keys, i, hi));
      RemoveGood(f.kids[i], k, T, h - 1, Lo(f.keys, i, lo), Hi(f.keys, i, hi), s1, false);
      var r := Remove(f.kids[i], k, T, h - 1, s1);
      KidDropped(t, f, i, r.t, r.ok, k, T, h, lo, hi);
      OkWithin(f.kids[i], r.t, r.ok, k, T, h - 1, Lo(f.keys, i, lo), Hi(f.keys, i, hi));
    }
  }

  lemma KeyBounds(t: Tree, i: nat, h: nat, lo: Key, hi: Key)
    requires Ordered(t, h, lo, hi) && i < |t.keys|
    ensures lo < t.keys[i] < hi
  {
  }

  lemma OkWithin(t: Tree, t1: Tree, ok: bool, k: Key, T: nat, h: nat, lo: Key, hi: Key)
    requires Dropped(t, t1, ok, k, T, h, lo, hi) && k in Content(t)
    ensures ok
  {
  }

  lemma MergedHolds(f: Tree, i: nat, T: nat, h: nat, lo: Key, hi: Key)
    requires T >= 2 && Ordered(f, h, lo, hi) && h > 0 && i < |f.kids| == |f.keys| + 1 && |f.kids[i].keys| == 2 * T - 1
    ensures f.kids[i].keys[T - 1] in Content(f.kids[i]) && f.kids[i].keys[T - 1] in Content(f)
  {
    assert Ordered(f.kids[i], h - 1, Lo(f.keys, i, lo), Hi(f.keys, i, hi));
    OrderedRow(f.kids[i], h - 1, Lo(f.keys, i, lo), Hi(f.keys, i, hi));
    KeyWithin(f.kids[i], T - 1);
    KidWithin(f, i);
    var x := f.kids[i].keys[T - 1];
    assert x in Content(f.kids[i]);
  }

  lemma LastWithin(t: Tree, T: nat, h: nat, lo: Key, hi: Key)
    requires T >= 2 && Good(t, T, h, lo, hi) && |t.keys| >= 1
    ensures LastKey(t) in Content(t) && lo < LastKey(t) < hi
  {
    LastKeyIs(t, T, h, lo, hi);
    TreeIncreasing(t, h, lo, hi);
  }

  lemma FirstWithin(t: Tree, T: nat, h: nat, lo: Key, hi: Key)
    requires T >= 2 && Good(t, T, h, lo, hi) && |t.keys| >= 1
    ensures FirstKey(t) in Content(t) && lo < FirstKey(t) < hi
  {
    FirstKeyIs(t, T, h, lo, hi);
    TreeIncreasing(t, h, lo, hi);
  }

  lemma BoundsAround(t: Tree, i: nat, h: nat, lo: Key, hi: Key)
    requires Ordered(t, h, lo, hi) && i < |t.keys|
    ensures Lo(t.keys, i, lo) < t.keys[i] < Hi(t.keys, i + 1, hi)
  {
  }

  // The predecessor moves up from child i.
  lemma PredGood(t: Tree, i: nat, r: Removed, T: nat, h: nat, lo: Key, hi: Key)
    requires T >= 2 && Good(t, T, h, lo, hi) && Inner(t, h) && i < |t.keys| && |t.kids[i].keys| >= T
    requires var a := t.kids[i]; LastKey(a) in Content(a) && Dropped(a, r.t, r.ok, LastKey(a), T, h - 1, Lo(t.keys, i, lo), t.keys[i])
    ensures var q := Replaced(Node(t.id, t.keys[i := LastKey(t.kids[i])], t.kids), i, r);
            Dropped(t, q.t, q.ok, t.keys[i], T, h, lo, hi) && q.ok
  {
    hide Flat, Occupied, Before, After, LastKey, Content, Ordered;
    var a, b, k, x, lo1, hi1 := t.kids[i], t.kids[i + 1], LastKey(t.kids[i]), t.keys[i], Lo(t.keys, i, lo), Hi(t.keys, i + 1, hi);
    KidGood(t, i, T, h, lo, hi);
    KidGood(t, i + 1, T, h, lo, hi);
    LastKeyIs(a, T, h - 1, lo1, x);
    TreeIncreasing(a, h - 1, lo1, x);
    TreeIncreasing(b, h - 1, x, hi1);
    BoundsAround(t, i, h, lo, hi);
    GainsAt(Content(r.t), Content(a), k, |Content(a)| - 1);
    Rebound(r.t, h - 1, lo1, x, lo1, k);
    Rebound(b, h - 1, x, hi1, k, hi1);
    Replacing(t, i, r.t, k, b, T, h, lo, hi);
    assert t.kids[i := r.t][i + 1 := b] == t.kids[i := r.t];
    assert Content(a) == Content(r.t) + [k];
    assert Content(r.t) + [k] + Content(b) == RemoveAt(Content(a) + [x] + Content(b), |Content(a)|);
    Without(t, i, Content(r.t) + [k] + Content(b), Content(Node(t.id, t.keys[i := k], t.kids[i := r.t])));
  }

  // The successor moves up from child i+1.
  lemma SuccGood(t: Tree, i: nat, r: Removed, T: nat, h: nat, lo: Key, hi: Key)
    requires T >= 2 && Good(t, T, h, lo, hi) && Inner(t, h) && i < |t.keys| && |t.kids[i + 1].keys| >= T
    requires var b := t.kids[i + 1];
             FirstKey(b) in Content(b) && Dropped(b, r.t, r.ok, FirstKey(b), T, h - 1, t.keys[i], Hi(t.keys, i + 1, hi))
    ensures var q := Replaced(Node(t.id, t.keys[i := FirstKey(t.kids[i + 1])], t.kids), i + 1, r);
            Dropped(t, q.t, q.ok, t.keys[i], T, h, lo, hi) && q.ok
  {
    hide Flat, Occupied, Before, After, FirstKey, Content, Ordered;
    var a, b, k, x, lo1, hi1 := t.kids[i], t.kids[i + 1], FirstKey(t.kids[i + 1]), t.keys[i], Lo(t.keys, i, lo), Hi(t.keys, i + 1, hi);
    KidGood(t, i, T, h, lo, hi);
    KidGood(t, i + 1, T, h, lo, hi);
    FirstKeyIs(b, T, h - 1, x, hi1);
    TreeIncreasing(a, h - 1, lo1, x);
    TreeIncreasing(b, h - 1, x, hi1);
    BoundsAround(t, i, h, lo, hi);
    GainsAt(Content(r.t), Content(b), k, 0);
    Rebound(r.t, h - 1, x, hi1, k, hi1);
    Rebound(a, h - 1, lo1, x, lo1, k);
    Replacing(t, i, a, k, r.t, T, h, lo, hi);
    assert t.kids[i := a][i + 1 := r.t] == t.kids[i + 1 := r.t];
    assert Content(b) == [k] + Content(r.t);
    assert Content(a) + [k] + Content(r.t) == RemoveAt(Content(a) + [x] + Content(b), |Content(a)|);
    Without(t, i, Content(a) + [k] + Content(r.t), Content(Node(t.id, t.keys[i := k], t.kids[i + 1 := r.t])));
  }

  // Two neighbours and the key between them may be replaced by two others around another key.
  lemma Replacing(t: Tree, i: nat, a: Tree, k: Key, b: Tree, T: nat, h: nat, lo: Key, hi: Key)
    requires T >= 2 && Good(t, T, h, lo, hi) && Inner(t, h) && i < |t.keys| && Lo(t.keys, i, lo) < k < Hi(t.keys, i + 1, hi)
    requires Good(a, T, h - 1, Lo(t.keys, i, lo), k) && Good(b, T, h - 1, k, Hi(t.keys, i + 1, hi))
    requires |a.keys| >= T - 1 && |b.keys| >= T - 1
    ensures var f := Node(t.id, t.keys[i := k], t.kids[i := a][i + 1 := b]);
            && Good(f, T, h, lo, hi)
            && Content(f) == Before(t, i) + (Content(a) + [k] + Content(b)) + After(t, i + 1)
  {
    var f := Node(t.id, t.keys[i := k], t.kids[i := a][i + 1 := b]);
    assert Body(t.keys, t.kids, h, lo, hi);
    SortedReplace(t.keys, i, k, lo, hi);
    forall j | 0 <= j < |f.kids|
      ensures Ordered(f.kids[j], h - 1, Lo(f.keys, j, lo), Hi(f.keys, j, hi))
      ensures T - 1 <= |f.kids[j].keys| <= 2 * T - 1 && Occupied(f.kids[j].kids, T)
    {
      if j < i || j > i + 1 {
        assert f.kids[j] == t.kids[j];
      }
    }
    AroundTwo(f, i);
    if i > 0 {
      assert f.keys[..i - 1] == t.keys[..i - 1] && LeftOf(f.kids, i - 1) == LeftOf(t.kids, i - 1);
    }
    if i + 1 < |t.keys| {
      assert f.keys[i + 2..] == t.keys[i + 2..] && RightOf(f.kids, i + 1) == RightOf(t.kids, i + 1);
    }
  }

  lemma SortedReplace(keys: seq<Key>, i: nat, x: Key, lo: Key, hi: Key)
    requires Sorted(keys) && (forall j :: 0 <= j < |keys| ==> lo < keys[j] < hi)
    requires i < |keys| && Lo(keys, i, lo) < x < Hi(keys, i + 1, hi)
    ensures var r := keys[i := x]; Sorted(r) && forall j :: 0 <= j < |r| ==> lo < r[j] < hi
  {
  }

  // The content around child i and i+1, without the key between them.
  lemma Without(t: Tree, i: nat, mid: seq<Key>, all: seq<Key>)
    requires |t.kids| == |t.keys| + 1 && i < |t.keys| && Row(t.keys, t.kids)
    requires var (a, b) := (Content(t.kids[i]), Content(t.kids[i + 1])); mid == RemoveAt(a + [t.keys[i]] + b, |a|)
    requires all == Before(t, i) + mid + After(t, i + 1)
    ensures Gains(all, Content(t), t.keys[i]) && t.keys[i] in Content(t)
  {
    hide Flat, Before, After, Content;
    var a, b := Content(t.kids[i]), Content(t.kids[i + 1]);
    var one := a + [t.keys[i]] + b;
    assert one == InsertAt(mid, |a|, t.keys[i]);
    GainsBetween(Before(t, i), mid, one, After(t, i + 1), t.keys[i]);
    AroundTwo(t, i);
    KeyWithin(t, i);
  }

  // At the root: an empty root gives way, one level is gone, and nothing else changes.
  lemma RemoveRootGood(t: Tree, k: Key, T: nat, h: nat, lo: Key, hi: Key, s: BFile)
    requires T >= 2 && Good(t, T, h, lo, hi) && lo < k < hi && |t.keys| >= 1
    ensures var r, r0 := RemoveRoot(t, k, T, h, s), Remove(t, k, T, h, s);
            var h1 := if h > 0 && |r0.t.keys| == 0 then h - 1 else h;
            && Good(r.t, T, h1, lo, hi) && (h > 0 ==> |r.t.keys| >= 1)
            && r.ok == (k in Content(t))
            && (if r.ok then Gains(Content(r.t), Content(t), k) else Content(r.t) == Content(t))
  {
    RemoveGood(t, k, T, h, lo, hi, s, true);
    var r := Remove(t, k, T, h, s);
    if h > 0 && |r.t.keys| == 0 {
      assert Body(r.t.keys, r.t.kids, h, lo, hi);
      assert Content(r.t) == Content(r.t.kids[0]);
      assert Ordered(r.t.kids[0], h - 1, lo, hi);
    }
  }
}
