/** Inserting a key in one downward pass keeps the B-tree: an absent key is added, a present one
    stays, unless a split on the way takes the key out of its node. */
module BTreeInsertion {
  import opened Pages
  import opened BTrees
  import opened BTreeJoins
  import opened BTreeOrder

  // Splitting a full child moves its middle key up and nothing else.
  lemma SplitGood(f: Tree, i: nat, T: nat, h: nat, lo: Key, hi: Key, s: BFile)
    requires T >= 2 && Ordered(f, h, lo, hi) && h > 0 && Occupied(f.kids, T) && i < |f.kids| == |f.keys| + 1
    requires |f.kids[i].keys| == 2 * T - 1
    ensures var f1 := SplitChild(f, i, T, s).0;
            && Ordered(f1, h, lo, hi) && Occupied(f1.kids, T) && Content(f1) == Content(f)
            && f1.keys == InsertAt(f.keys, i, f.kids[i].keys[T - 1])
            && |f1.kids[i].keys| == T - 1 && |f1.kids[i + 1].keys| == T - 1
  {
    hide Flat, Content, Take, PutPage, Sorted;
    var (s1, id) := Take(s);
    KidSize(f, i, T);
    PartOrdered(f, i, T - 1, id, h, lo, hi);
    PartOccupied(f, i, T - 1, id, T);
    PartContent(f, i, T - 1, id);
  }

  // The tree after an insertion of k: a B-tree with k, and its root at most one fuller.
  ghost predicate Inserted(t: Tree, t1: Tree, k: Key, T: nat, h: nat, lo: Key, hi: Key) {
    && Good(t1, T, h, lo, hi) && |t.keys| <= |t1.keys| <= |t.keys| + 1
    && (if k in Content(t) then Content(t1) == Content(t) else Gains(Content(t), Content(t1), k))
  }

  // The node an insertion enters is not full. Unless the key is split out of its node on the
  // way, an absent key is added and a present one stays.
  lemma {:induction false} InsertGood(t: Tree, k: Key, T: nat, h: nat, lo: Key, hi: Key, s: BFile)
    requires T >= 2 && Good(t, T, h, lo, hi) && |t.keys| < 2 * T - 1
    requires lo < k < hi && !SplitOut(t, k, T, h)
    ensures Inserted(t, InsertNonFull(t, k, T, h, s).0, k, T, h, lo, hi)
    decreases h
  {
    hide Occupied, Flat, Content, Ordered, SplitChild, Gains, FirstGE, SplitOut;
    OrderedRow(t, h, lo, hi);
    var i := FirstGE(t.keys, k);
    if i < |t.keys| && t.keys[i] == k {
      KeyWithin(t, i);
    } else if h == 0 {
      SortedKeys(t, h, lo, hi);
      Missing(t.keys, k);
      LeafContent(t);
      LeafGains(t, k, lo, hi);
    } else {
      var (t1, s1) := if |t.kids[i].keys| == 2 * T - 1 then SplitChild(t, i, T, s) else (t, s);
      var j := if |t1.keys| > |t.keys| && t1.keys[i] < k then i + 1 else i;
      Prepared(t, k, T, h, lo, hi, s);
      Routed(t1, k, h, lo, hi);
      KidGood(t1, j, T, h, lo, hi);
      InsertGood(t1.kids[j], k, T, h - 1, Lo(t1.keys, j, lo), Hi(t1.keys, j, hi), s1);
      var c := InsertNonFull(t1.kids[j], k, T, h - 1, s1).0;
      KidInserted(t1, j, c, k, T, h, lo, hi);
    }
  }

  lemma LeafGains(t: Tree, k: Key, lo: Key, hi: Key)
    requires Ordered(t, 0, lo, hi) && lo < k < hi && k !in Content(t)
    ensures var t1 := Node(t.id, InsertAt(t.keys, FirstGE(t.keys, k), k), t.kids);
            Ordered(t1, 0, lo, hi) && Gains(Content(t), Content(t1), k)
  {
    var i := FirstGE(t.keys, k);
    assert i < |t.keys| ==> t.keys[i] in t.keys;
    SortedInsert(t.keys, i, k, lo, hi);
    assert InsertAt(t.keys, i, k) == Content(Node(t.id, InsertAt(t.keys, i, k), t.kids));
  }

  lemma KidGood(t: Tree, j: nat, T: nat, h: nat, lo: Key, hi: Key)
    requires Ordered(t, h, lo, hi) && Occupied(t.kids, T) && h > 0 && j < |t.kids| == |t.keys| + 1
    ensures Good(t.kids[j], T, h - 1, Lo(t.keys, j, lo), Hi(t.keys, j, hi)) && |t.kids[j].keys| >= T - 1
  {
  }

  // After a full child has been split, the key routes to a child that is not full.
  lemma Prepared(t: Tree, k: Key, T: nat, h: nat, lo: Key, hi: Key, s: BFile)
    requires T >= 2 && Good(t, T, h, lo, hi) && h > 0 && |t.kids| == |t.keys| + 1 && lo < k < hi
    requires var i := FirstGE(t.keys, k); i < |t.keys| ==> t.keys[i] != k
    requires |t.keys| < 2 * T - 1 && !SplitOut(t, k, T, h)
    ensures var i := FirstGE(t.keys, k);
            var t1 := if |t.kids[i].keys| == 2 * T - 1 then SplitChild(t, i, T, s).0 else t;
            var j := if |t1.keys| > |t.keys| && t1.keys[i] < k then i + 1 else i;
            && Ordered(t1, h, lo, hi) && Occupied(t1.kids, T) && Content(t1) == Content(t)
            && |t.keys| <= |t1.keys| <= |t.keys| + 1 && |t1.kids| == |t1.keys| + 1
            && j == FirstGE(t1.keys, k) && (j < |t1.keys| ==> t1.keys[j] != k)
            && |t1.kids[j].keys| < 2 * T - 1 && !SplitOut(t1.kids[j], k, T, h - 1)
  {
    hide Occupied, Flat, Content, Ordered, FirstGE;
    var i := FirstGE(t.keys, k);
    KidSize(t, i, T);
    SortedKeys(t, h, lo, hi);
    if |t.kids[i].keys| == 2 * T - 1 {
      SplitGood(t, i, T, h, lo, hi, s);
      var t1 := SplitChild(t, i, T, s).0;
      SortedKeys(t1, h, lo, hi);
      var j := if t1.keys[i] < k then i + 1 else i;
      assert t1.keys[i] == t.kids[i].keys[T - 1];
      assert i < |t.keys| ==> t1.keys[i + 1] == t.keys[i];
      assert i > 0 ==> t1.keys[i - 1] == t.keys[i - 1];
      FirstGEIs(t1.keys, k, j);
      KidGood(t, i, T, h, lo, hi);
      HalfSplitOut(t.kids[i], k, T, h - 1, Lo(t.keys, i, lo), Hi(t.keys, i, hi), Take(s).1);
    }
  }

  // Either half of a split node holds the key as the whole node did, if it was not the middle one.
  lemma HalfSplitOut(c: Tree, k: Key, T: nat, h: nat, lo: Key, hi: Key, id: Ref)
    requires T >= 2 && Ordered(c, h, lo, hi) && |c.keys| == 2 * T - 1 && c.keys[T - 1] != k
    ensures k < c.keys[T - 1] ==> SplitOut(Node(c.id, c.keys[..T - 1], LeftOf(c.kids, T - 1)), k, T, h) == SplitOut(c, k, T, h)
    ensures k > c.keys[T - 1] ==> SplitOut(Node(id, c.keys[T..], RightOf(c.kids, T - 1)), k, T, h) == SplitOut(c, k, T, h)
  {
    hide Ordered, SplitOut;
    OrderedRow(c, h, lo, hi);
    SortedKeys(c, h, lo, hi);
    if k < c.keys[T - 1] {
      LowerSplitOut(c, k, T, h, c.id);
    } else {
      UpperSplitOut(c, k, T, h, id);
    }
  }

  lemma LowerSplitOut(c: Tree, k: Key, T: nat, h: nat, id: Ref)
    requires T >= 2 && Sorted(c.keys) && Row(c.keys, c.kids) && |c.keys| == 2 * T - 1 && k < c.keys[T - 1]
    ensures SplitOut(Node(id, c.keys[..T - 1], LeftOf(c.kids, T - 1)), k, T, h) == SplitOut(c, k, T, h)
  {
    hide FirstGE, Sorted;
    FirstGEOfPrefix(c.keys, k, T - 1);
  }

  lemma UpperSplitOut(c: Tree, k: Key, T: nat, h: nat, id: Ref)
    requires T >= 2 && Sorted(c.keys) && Row(c.keys, c.kids) && |c.keys| == 2 * T - 1 && k > c.keys[T - 1]
    ensures SplitOut(Node(id, c.keys[T..], RightOf(c.kids, T - 1)), k, T, h) == SplitOut(c, k, T, h)
  {
    hide FirstGE, Sorted;
    FirstGEOfSuffix(c.keys, k, T);
  }

  lemma FirstGEBelow(s: seq<Key>, k: Key, m: nat)
    requires m < |s| && k <= s[m]
    ensures FirstGE(s, k) <= m
  {
  }

  lemma FirstGEOfPrefix(s: seq<Key>, k: Key, m: nat)
    requires Sorted(s) && m < |s| && k < s[m]
    ensures FirstGE(s[..m], k) == FirstGE(s, k) <= m
  {
    FirstGEBelow(s, k, m);
    FirstGEIs(s[..m], k, FirstGE(s, k));
  }

  lemma FirstGEOfSuffix(s: seq<Key>, k: Key, m: nat)
    requires Sorted(s) && 0 < m <= |s| && s[m - 1] < k
    ensures FirstGE(s, k) == m + FirstGE(s[m..], k)
  {
    FirstGEIs(s, k, m + FirstGE(s[m..], k));
  }

  lemma SortedKeys(t: Tree, h: nat, lo: Key, hi: Key)
    requires Ordered(t, h, lo, hi)
    ensures Sorted(t.keys)
  {
  }

  lemma KidSize(t: Tree, i: nat, T: nat)
    requires Occupied(t.kids, T) && i < |t.kids|
    ensures T - 1 <= |t.kids[i].keys| <= 2 * T - 1
  {
  }

  // What the insertion did to child j it did to the whole node.
  lemma KidInserted(t: Tree, j: nat, c: Tree, k: Key, T: nat, h: nat, lo: Key, hi: Key)
    requires T >= 2 && Ordered(t, h, lo, hi) && Occupied(t.kids, T) && h > 0 && j < |t.kids| == |t.keys| + 1
    requires |t.kids[j].keys| < 2 * T - 1 && (k in Content(t) <==> k in Content(t.kids[j]))
    requires Inserted(t.kids[j], c, k, T, h - 1, Lo(t.keys, j, lo), Hi(t.keys, j, hi))
    ensures var t1 := WithKid(t, j, c);
            && Ordered(t1, h, lo, hi) && Occupied(t1.kids, T)
            && (if k in Content(t) then Content(t1) == Content(t) else Gains(Content(t), Content(t1), k))
  {
    hide Flat;
    WithKidOrdered(t, j, c, h, lo, hi);
    if k !in Content(t) {
      KidGains(t, j, c, k);
    } else {
      Around(t, j);
      SameAround(t, j, WithKid(t, j, c));
    }
  }

  lemma KidGains(t: Tree, j: nat, c: Tree, k: Key)
    requires j < |t.kids| == |t.keys| + 1 && Gains(Content(t.kids[j]), Content(c), k)
    ensures Gains(Content(t), Content(WithKid(t, j, c)), k)
  {
    hide Flat, Before, After, Content;
    Around(t, j);
    SameAround(t, j, WithKid(t, j, c));
    GainsBetween(Before(t, j), Content(t.kids[j]), Content(c), After(t, j), k);
  }

  // ----- at the root -----

  // A split adds one level; the new root has one key.
  lemma InsertRootGood(t: Tree, k: Key, T: nat, h: nat, lo: Key, hi: Key, s: BFile)
    requires T >= 2 && Good(t, T, h, lo, hi) && lo < k < hi && |t.keys| >= 1 && !RootSplitOut(t, k, T, h)
    ensures var (t1, s1) := InsertRoot(t, k, T, h, s);
            var h1 := if |t.keys| == 2 * T - 1 then h + 1 else h;
            && Good(t1, T, h1, lo, hi) && |t1.keys| >= 1
            && (if k in Content(t) then Content(t1) == Content(t) else Gains(Content(t), Content(t1), k))
  {
    hide Good, Content, Gains, SplitOut;
    if |t.keys| == 2 * T - 1 {
      GrownGood(t, k, T, h, lo, hi, s);
    } else {
      GoodSize(t, T, h, lo, hi);
      InsertGood(t, k, T, h, lo, hi, s);
    }
  }

  lemma GoodSize(t: Tree, T: nat, h: nat, lo: Key, hi: Key)
    requires Good(t, T, h, lo, hi)
    ensures |t.keys| <= 2 * T - 1
  {
  }

  lemma GrownGood(t: Tree, k: Key, T: nat, h: nat, lo: Key, hi: Key, s: BFile)
    requires T >= 2 && Good(t, T, h, lo, hi) && lo < k < hi && |t.keys| == 2 * T - 1 && !RootSplitOut(t, k, T, h)
    ensures var t1 := InsertRoot(t, k, T, h, s).0;
            && Good(t1, T, h + 1, lo, hi) && |t1.keys| >= 1
            && (if k in Content(t) then Content(t1) == Content(t) else Gains(Content(t), Content(t1), k))
  {
    hide Flat, InsertNonFull, SplitChild, Content, Gains, SplitOut;
    var (s1, id) := Take(s);
    var r := Node(id, [], [t]);
    var (t1, s2) := SplitChild(r, 0, T, s1);
    var j := if t1.keys[0] < k then 1 else 0;
    RootSplit(t, k, T, h, lo, hi, s);
    Routed(t1, k, h + 1, lo, hi);
    KidGood(t1, j, T, h + 1, lo, hi);
    InsertGood(t1.kids[j], k, T, h, Lo(t1.keys, j, lo), Hi(t1.keys, j, hi), s2);
    KidInserted(t1, j, InsertNonFull(t1.kids[j], k, T, h, s2).0, k, T, h + 1, lo, hi);
  }

  // The new root over the two halves of a full one, and the half the key routes to.
  lemma RootSplit(t: Tree, k: Key, T: nat, h: nat, lo: Key, hi: Key, s: BFile)
    requires T >= 2 && Good(t, T, h, lo, hi) && |t.keys| == 2 * T - 1
    ensures var (s1, id) := Take(s);
            var t1 := SplitChild(Node(id, [], [t]), 0, T, s1).0;
            var j := if t1.keys[0] < k then 1 else 0;
            && Ordered(t1, h + 1, lo, hi) && Occupied(t1.kids, T) && Content(t1) == Content(t)
            && t1.keys == [t.keys[T - 1]] && |t1.kids| == 2 && |t1.kids[j].keys| == T - 1
            && (!RootSplitOut(t, k, T, h) ==>
                  j == FirstGE(t1.keys, k) && (j < 1 ==> t1.keys[j] != k) && !SplitOut(t1.kids[j], k, T, h))
  {
    hide Flat, Content, SplitOut;
    var (s1, id) := Take(s);
    var r := Node(id, [], [t]);
    var t1 := SplitChild(r, 0, T, s1).0;
    RootOver(t, id, T, h, lo, hi);
    SplitGood(r, 0, T, h + 1, lo, hi, s1);
    if !RootSplitOut(t, k, T, h) {
      FirstGEIs(t1.keys, k, if t1.keys[0] < k then 1 else 0);
      HalfSplitOut(t, k, T, h, lo, hi, Take(s1).1);
    }
  }

  lemma RootOver(t: Tree, id: Ref, T: nat, h: nat, lo: Key, hi: Key)
    requires T >= 2 && Good(t, T, h, lo, hi) && |t.keys| == 2 * T - 1
    ensures var r := Node(id, [], [t]); Ordered(r, h + 1, lo, hi) && Occupied(r.kids, T) && Content(r) == Content(t)
  {
  }

  // ----- which keys the condition is about -----

  // An absent key is not split out of anything,
  lemma {:induction false} AbsentStays(t: Tree, k: Key, T: nat, h: nat, lo: Key, hi: Key)
    requires T >= 2 && Good(t, T, h, lo, hi) && lo < k < hi && k !in Content(t)
    ensures !RootSplitOut(t, k, T, h)
    decreases h
  {
    OrderedRow(t, h, lo, hi);
    if IsMiddle(t, k, T) {
      KeyWithin(t, T - 1);
    }
    var i := FirstGE(t.keys, k);
    if h > 0 && !(i < |t.keys| && t.keys[i] == k) {
      Routed(t, k, h, lo, hi);
      KidGood(t, i, T, h, lo, hi);
      AbsentStays(t.kids[i], k, T, h - 1, Lo(t.keys, i, lo), Hi(t.keys, i, hi));
    }
  }

  // and a present key that is split out ends up in the tree twice: the search below its old
  // node goes to the left of it, and adds it again there.
  lemma {:induction false} SplitOutDoubles(t: Tree, k: Key, T: nat, h: nat, lo: Key, hi: Key, s: BFile)
    requires T >= 2 && Good(t, T, h, lo, hi) && |t.keys| < 2 * T - 1 && lo < k < hi && SplitOut(t, k, T, h)
    ensures k in Content(t) && Gains(Content(t), Content(InsertNonFull(t, k, T, h, s).0), k)
    decreases h
  {
    hide Occupied, Flat, Content, Ordered, SplitChild, Gains, FirstGE;
    OrderedRow(t, h, lo, hi);
    var i := FirstGE(t.keys, k);
    var (t1, s1) := if |t.kids[i].keys| == 2 * T - 1 then SplitChild(t, i, T, s) else (t, s);
    var j := if |t1.keys| > |t.keys| && t1.keys[i] < k then i + 1 else i;
    KidGood(t, i, T, h, lo, hi);
    if IsMiddle(t.kids[i], k, T) {
      SplitGood(t, i, T, h, lo, hi, s);
      MiddleWithin(t, i, T, h, lo, hi);
      AddedLeftOf(t1, i, k, T, h, lo, hi, s1);
    } else {
      PreparedAgain(t, k, T, h, lo, hi, s);
      KidGood(t1, j, T, h, lo, hi);
      SplitOutDoubles(t1.kids[j], k, T, h - 1, Lo(t1.keys, j, lo), Hi(t1.keys, j, hi), s1);
      KidWithin(t1, j);
      KidGains(t1, j, InsertNonFull(t1.kids[j], k, T, h - 1, s1).0, k);
    }
  }

  lemma MiddleWithin(t: Tree, i: nat, T: nat, h: nat, lo: Key, hi: Key)
    requires T >= 2 && Ordered(t, h, lo, hi) && h > 0 && i < |t.kids| == |t.keys| + 1 && |t.kids[i].keys| == 2 * T - 1
    ensures t.kids[i].keys[T - 1] in Content(t)
  {
    assert Ordered(t.kids[i], h - 1, Lo(t.keys, i, lo), Hi(t.keys, i, hi));
    OrderedRow(t.kids[i], h - 1, Lo(t.keys, i, lo), Hi(t.keys, i, hi));
    KeyWithin(t.kids[i], T - 1);
    KidWithin(t, i);
    var k := t.kids[i].keys[T - 1];
    assert k in Content(t.kids[i]);
  }

  // The key stands at place i, and is added again below the child to its left.
  lemma AddedLeftOf(t: Tree, i: nat, k: Key, T: nat, h: nat, lo: Key, hi: Key, s: BFile)
    requires T >= 2 && Ordered(t, h, lo, hi) && Occupied(t.kids, T) && h > 0 && i < |t.keys| && |t.kids| == |t.keys| + 1
    requires t.keys[i] == k && |t.kids[i].keys| < 2 * T - 1
    ensures Gains(Content(t), Content(WithKid(t, i, InsertNonFull(t.kids[i], k, T, h - 1, s).0)), k)
  {
    hide Occupied, Flat, Content, Ordered, Gains;
    var c, lo1 := t.kids[i], Lo(t.keys, i, lo);
    KidGood(t, i, T, h, lo, hi);
    TreeIncreasing(c, h - 1, lo1, k);
    Rebound(c, h - 1, lo1, k, lo1, k + 1);
    LoBelow(t, i, h, lo, hi);
    AbsentStays(c, k, T, h - 1, lo1, k + 1);
    InsertGood(c, k, T, h - 1, lo1, k + 1, s);
    KidGains(t, i, InsertNonFull(c, k, T, h - 1, s).0, k);
  }

  lemma LoBelow(t: Tree, i: nat, h: nat, lo: Key, hi: Key)
    requires Ordered(t, h, lo, hi) && i < |t.keys|
    ensures Lo(t.keys, i, lo) < t.keys[i]
  {
  }

  lemma PreparedAgain(t: Tree, k: Key, T: nat, h: nat, lo: Key, hi: Key, s: BFile)
    requires T >= 2 && Good(t, T, h, lo, hi) && h > 0 && |t.kids| == |t.keys| + 1 && lo < k < hi && |t.keys| < 2 * T - 1
    requires SplitOut(t, k, T, h) && !IsMiddle(t.kids[FirstGE(t.keys, k)], k, T)
    ensures var i := FirstGE(t.keys, k);
            var t1 := if |t.kids[i].keys| == 2 * T - 1 then SplitChild(t, i, T, s).0 else t;
            var j := if |t1.keys| > |t.keys| && t1.keys[i] < k then i + 1 else i;
            && Ordered(t1, h, lo, hi) && Occupied(t1.kids, T) && Content(t1) == Content(t) && |t1.kids| == |t1.keys| + 1
            && j < |t1.kids| && |t1.kids[j].keys| < 2 * T - 1 && SplitOut(t1.kids[j], k, T, h - 1)
            && Lo(t1.keys, j, lo) < k < Hi(t1.keys, j, hi)
  {
    hide Occupied, Flat, Content, Ordered, FirstGE;
    var i := FirstGE(t.keys, k);
    KidSize(t, i, T);
    SortedKeys(t, h, lo, hi);
    if |t.kids[i].keys| == 2 * T - 1 {
      SplitGood(t, i, T, h, lo, hi, s);
      KidGood(t, i, T, h, lo, hi);
      HalfSplitOut(t.kids[i], k, T, h - 1, Lo(t.keys, i, lo), Hi(t.keys, i, hi), Take(s).1);
    }
  }

  // The same at the root. So an insertion keeps the tree free of duplicates exactly when the
  // key is not split out.
  lemma RootDoubles(t: Tree, k: Key, T: nat, h: nat, lo: Key, hi: Key, s: BFile)
    requires T >= 2 && Good(t, T, h, lo, hi) && lo < k < hi && RootSplitOut(t, k, T, h)
    ensures k in Content(t) && Gains(Content(t), Content(InsertRoot(t, k, T, h, s).0), k)
  {
    hide Flat, InsertNonFull, SplitChild, Content, Gains, SplitOut;
    if |t.keys| < 2 * T - 1 {
      SplitOutDoubles(t, k, T, h, lo, hi, s);
    } else {
      GrownDoubles(t, k, T, h, lo, hi, s);
    }
  }

  lemma GrownDoubles(t: Tree, k: Key, T: nat, h: nat, lo: Key, hi: Key, s: BFile)
    requires T >= 2 && Good(t, T, h, lo, hi) && lo < k < hi && RootSplitOut(t, k, T, h) && |t.keys| == 2 * T - 1
    ensures k in Content(t) && Gains(Content(t), Content(InsertRoot(t, k, T, h, s).0), k)
  {
    hide Flat, InsertNonFull, SplitChild, Content, Gains, SplitOut, Ordered, Occupied;
    OrderedRow(t, h, lo, hi);
    var (s1, id) := Take(s);
    var (t1, s2) := SplitChild(Node(id, [], [t]), 0, T, s1);
    var j := if t1.keys[0] < k then 1 else 0;
    RootSplit(t, k, T, h, lo, hi, s);
    if IsMiddle(t, k, T) {
      KeyWithin(t, T - 1);
      AddedLeftOf(t1, 0, k, T, h + 1, lo, hi, s2);
    } else {
      HalvesOf(t, id, T, s1);
      HalfSplitOut(t, k, T, h, lo, hi, Take(s1).1);
      KidGood(t1, j, T, h + 1, lo, hi);
      SplitOutDoubles(t1.kids[j], k, T, h, Lo(t1.keys, j, lo), Hi(t1.keys, j, hi), s2);
      KidWithin(t1, j);
      KidGains(t1, j, InsertNonFull(t1.kids[j], k, T, h, s2).0, k);
    }
  }

  lemma HalvesOf(t: Tree, id: Ref, T: nat, s: BFile)
    requires T >= 2 && |t.keys| == 2 * T - 1
    ensures var t1 := SplitChild(Node(id, [], [t]), 0, T, s).0;
            && |t1.kids| == 2 && t1.kids[0] == Node(t.id, t.keys[..T - 1], LeftOf(t.kids, T - 1))
            && t1.kids[1] == Node(Take(s).1, t.keys[T..], RightOf(t.kids, T - 1))
  {
  }

  // Both cases of an insertion below a node that is not full,
  lemma InsertOutcome(t: Tree, k: Key, T: nat, h: nat, lo: Key, hi: Key, s: BFile)
    requires T >= 2 && Good(t, T, h, lo, hi) && |t.keys| < 2 * T - 1 && lo < k < hi
    ensures var t1 := InsertNonFull(t, k, T, h, s).0;
            if SplitOut(t, k, T, h) then k in Content(t) && Gains(Content(t), Content(t1), k)
            else Inserted(t, t1, k, T, h, lo, hi)
  {
    hide Good, InsertNonFull, Content, Gains, Inserted, SplitOut;
    if SplitOut(t, k, T, h) {
      SplitOutDoubles(t, k, T, h, lo, hi, s);
    } else {
      InsertGood(t, k, T, h, lo, hi, s);
    }
  }

  // and at the root: the keys stay distinct exactly if the key is not split out.
  lemma InsertRootOutcome(t: Tree, k: Key, T: nat, h: nat, lo: Key, hi: Key, s: BFile)
    requires T >= 2 && Good(t, T, h, lo, hi) && |t.keys| >= 1 && lo < k < hi
    ensures var t1 := InsertRoot(t, k, T, h, s).0;
            var h1 := if |t.keys| == 2 * T - 1 then h + 1 else h;
            && (if RootSplitOut(t, k, T, h) then k in Content(t) && Gains(Content(t), Content(t1), k)
                else Good(t1, T, h1, lo, hi) && |t1.keys| >= 1
                     && (if k in Content(t) then Content(t1) == Content(t) else Gains(Content(t), Content(t1), k)))
            && (Sorted(Content(t1)) <==> !RootSplitOut(t, k, T, h))
  {
    hide Good, InsertRoot, Content, Gains, RootSplitOut;
    if RootSplitOut(t, k, T, h) {
      RootDoubles(t, k, T, h, lo, hi, s);
      TwiceIn(Content(t), Content(InsertRoot(t, k, T, h, s).0), k);
    } else {
      InsertRootGood(t, k, T, h, lo, hi, s);
      GoodIncreasing(InsertRoot(t, k, T, h, s).0, T, if |t.keys| == 2 * T - 1 then h + 1 else h, lo, hi);
    }
  }

  lemma GoodIncreasing(t: Tree, T: nat, h: nat, lo: Key, hi: Key)
    requires Good(t, T, h, lo, hi)
    ensures Increasing(Content(t), lo, hi)
  {
    TreeIncreasing(t, h, lo, hi);
  }

  lemma TwiceIn(a: seq<Key>, b: seq<Key>, k: Key)
    requires k in a && Gains(a, b, k)
    ensures !Sorted(b)
  {
    var p: nat :| p <= |a| && b == InsertAt(a, p, k);
    var i :| 0 <= i < |a| && a[i] == k;
    assert b[p] == k && b[if i < p then i else i + 1] == k;
  }

  // The child an insertion enters, whatever the key: a B-tree that is not full, and whose bounds
  // the key meets, where a key that was just split out counts as the next lower child's.
  lemma EntersAny(t: Tree, k: Key, T: nat, h: nat, lo: Key, hi: Key, s: BFile)
    requires T >= 2 && Good(t, T, h, lo, hi) && h > 0 && |t.kids| == |t.keys| + 1 && lo < k < hi && |t.keys| < 2 * T - 1
    requires var i := FirstGE(t.keys, k); i < |t.keys| ==> t.keys[i] != k
    ensures var i := FirstGE(t.keys, k);
            var t1 := if |t.kids[i].keys| == 2 * T - 1 then SplitChild(t, i, T, s).0 else t;
            var j := if |t1.keys| > |t.keys| && t1.keys[i] < k then i + 1 else i;
            && j <= |t1.keys| == |t1.kids| - 1 && Ordered(t1, h, lo, hi) && Occupied(t1.kids, T)
            && Enters(t1, j, k, T, h, lo, hi)
  {
    hide Occupied, Flat, Content, Ordered, SplitChild, FirstGE, SplitOut;
    var i := FirstGE(t.keys, k);
    var t1 := if |t.kids[i].keys| == 2 * T - 1 then SplitChild(t, i, T, s).0 else t;
    var j := if |t1.keys| > |t.keys| && t1.keys[i] < k then i + 1 else i;
    if !SplitOut(t, k, T, h) {
      Prepared(t, k, T, h, lo, hi, s);
      Routed(t1, k, h, lo, hi);
      KidGood(t1, j, T, h, lo, hi);
    } else if !IsMiddle(t.kids[i], k, T) {
      PreparedAgain(t, k, T, h, lo, hi, s);
      KidGood(t1, j, T, h, lo, hi);
    } else {
      SplitGood(t, i, T, h, lo, hi, s);
      LeftEntered(t1, i, k, T, h, lo, hi);
    }
  }

  // The upper bound of child j for the key k.
  ghost function Ceiling(t: Tree, j: nat, k: Key, hi: Key): Key requires j <= |t.keys| {
    if j < |t.keys| && t.keys[j] == k then k + 1 else Hi(t.keys, j, hi)
  }

  ghost predicate Enters(t: Tree, j: nat, k: Key, T: nat, h: nat, lo: Key, hi: Key)
    requires h > 0 && j <= |t.keys| && j < |t.kids|
  {
    && Lo(t.keys, j, lo) < k < Ceiling(t, j, k, hi) && |t.kids[j].keys| < 2 * T - 1
    && Good(t.kids[j], T, h - 1, Lo(t.keys, j, lo), Ceiling(t, j, k, hi))
  }

  lemma LeftEntered(t: Tree, i: nat, k: Key, T: nat, h: nat, lo: Key, hi: Key)
    requires T >= 2 && Ordered(t, h, lo, hi) && Occupied(t.kids, T) && h > 0 && i < |t.keys| && |t.kids| == |t.keys| + 1
    requires t.keys[i] == k && |t.kids[i].keys| < 2 * T - 1
    ensures Enters(t, i, k, T, h, lo, hi)
  {
    hide Occupied, Flat, Content, Ordered;
    KidGood(t, i, T, h, lo, hi);
    TreeIncreasing(t.kids[i], h - 1, Lo(t.keys, i, lo), k);
    Rebound(t.kids[i], h - 1, Lo(t.keys, i, lo), k, Lo(t.keys, i, lo), k + 1);
    LoBelow(t, i, h, lo, hi);
  }

  // The same below a new root.
  lemma RootEntersAny(t: Tree, k: Key, T: nat, h: nat, lo: Key, hi: Key, s: BFile)
    requires T >= 2 && Good(t, T, h, lo, hi) && |t.keys| == 2 * T - 1 && lo < k < hi
    ensures var (s1, id) := Take(s);
            var t1 := SplitChild(Node(id, [], [t]), 0, T, s1).0;
            var j := if t1.keys[0] < k then 1 else 0;
            |t1.keys| == 1 && |t1.kids| == 2 && Ordered(t1, h + 1, lo, hi) && Occupied(t1.kids, T) && Enters(t1, j, k, T, h + 1, lo, hi)
  {
    hide Occupied, Flat, Content, Ordered, SplitChild, SplitOut;
    var (s1, id) := Take(s);
    var t1 := SplitChild(Node(id, [], [t]), 0, T, s1).0;
    var j := if t1.keys[0] < k then 1 else 0;
    RootSplit(t, k, T, h, lo, hi, s);
    KidGood(t1, j, T, h + 1, lo, hi);
    if t1.keys[0] == k {
      LeftEntered(t1, 0, k, T, h + 1, lo, hi);
    }
  }

  // The smallest case: a full leaf of degree 2, and its middle key set again.
  lemma SetTwice(s: BFile)
    ensures Content(InsertRoot(Node(0, [1, 2, 3], []), 2, 2, 0, s).0) == [1, 2, 2, 3]
  {
    hide Take, PutPage;
    var t := Node(0, [1, 2, 3], []);
    var (s1, id) := Take(s);
    var (t1, s2) := SplitChild(Node(id, [], [t]), 0, 2, s1);
    assert t1.keys == [2] && t1.kids[0] == Node(0, [1], []) && t1.kids[1].keys == [3] && t1.kids[1].kids == [];
    var (c, s3) := InsertNonFull(t1.kids[0], 2, 2, 0, s2);
    assert FirstGE([1], 2) == 1;
    assert c == Node(0, [1, 2], []);
    var t2 := WithKid(t1, 0, c);
    assert t2.keys[1..] == [] && t2.kids[1..] == [t1.kids[1]];
    LeafContent(c);
    LeafContent(t1.kids[1]);
    assert Flat([], [t1.kids[1]]) == [3];
    assert Content(t2) == [1, 2] + [2] + [3];
  }
}
