/** What the B-tree's steps do to the pages of a node and its children, and what the
    invariant says about the pages that a descent reads. */
module BTreePages {
  import opened Pages
  import opened BTrees
  import opened BTreeJoins
  import opened BTreeOrder
  import opened BTreeInsertion
  import opened BTreeRemoval
  import opened BTreeFiles
  import opened BTreeStored

  // A page that a node of degree T can hold.
  predicate BFits(p: BPage, T: nat) {
    p.BPage? && |p.keys| <= 2 * T - 1 && (if p.leaf then p.refs == [] else |p.refs| == |p.keys| + 1)
  }

  // ----- what the steps do to pages -----

  predicate PageOK(p: BPage) {
    p.BPage? && (if p.leaf then p.refs == [] else |p.refs| == |p.keys| + 1)
  }

  // The keys left of key m, and those right of it.
  function LowerPart(p: BPage, m: nat): BPage requires PageOK(p) && m < |p.keys| {
    BPage(p.leaf, p.keys[..m], if p.leaf then [] else p.refs[..m + 1])
  }

  function UpperPart(p: BPage, m: nat): BPage requires PageOK(p) && m < |p.keys| {
    BPage(p.leaf, p.keys[m + 1..], if p.leaf then [] else p.refs[m + 1..])
  }

  // A key comes in, with a child to its right; or goes, with the child to its right.
  function WithKey(p: BPage, i: nat, key: Key, child: Ref): BPage requires PageOK(p) && i <= |p.keys| {
    BPage(p.leaf, InsertAt(p.keys, i, key), if p.leaf then [] else InsertAt(p.refs, i + 1, child))
  }

  function WithoutKey(p: BPage, i: nat): BPage requires PageOK(p) && i < |p.keys| {
    BPage(p.leaf, RemoveAt(p.keys, i), if p.leaf then [] else RemoveAt(p.refs, i + 1))
  }

  function WithKeyAt(p: BPage, i: nat, key: Key): BPage requires PageOK(p) && i < |p.keys| {
    BPage(p.leaf, p.keys[i := key], p.refs)
  }

  // A key comes in at one end, with the nearest child of the neighbour.
  function WithLast(a: BPage, key: Key, b: BPage): BPage requires PageOK(a) && PageOK(b) && a.leaf == b.leaf {
    BPage(a.leaf, a.keys + [key], if a.leaf then [] else a.refs + [b.refs[0]])
  }

  function WithFirst(b: BPage, key: Key, a: BPage): BPage requires PageOK(a) && PageOK(b) && a.leaf == b.leaf {
    BPage(b.leaf, [key] + b.keys, if b.leaf then [] else [a.refs[|a.keys|]] + b.refs)
  }

  function WithoutFirst(p: BPage): BPage requires PageOK(p) && |p.keys| > 0 {
    BPage(p.leaf, p.keys[1..], if p.leaf then [] else p.refs[1..])
  }

  function WithoutLast(p: BPage): BPage requires PageOK(p) && |p.keys| > 0 {
    LowerPart(p, |p.keys| - 1)
  }

  function Fused(a: BPage, key: Key, b: BPage): BPage requires PageOK(a) && PageOK(b) {
    BPage(a.leaf, a.keys + [key] + b.keys, a.refs + b.refs)
  }

  ghost predicate Readable(t: Tree, T: nat, pages: map<Ref, BPage>) {
    t.id in pages && pages[t.id] == PageOf(t) && BFits(PageOf(t), T)
  }

  lemma PageShape(t: Tree)
    ensures PageOf(t) == BPage(t.kids == [], t.keys, KidIds(t.kids))
    ensures Row(t.keys, t.kids) ==> PageOK(PageOf(t))
  {
  }

  lemma KeyAtPage(t: Tree, i: nat, k: Key)
    requires i < |t.keys| && Row(t.keys, t.kids)
    ensures PageOK(PageOf(t)) && WithKeyAt(PageOf(t), i, k) == PageOf(Node(t.id, t.keys[i := k], t.kids))
  {
  }

  lemma SplitChildIs(f: Tree, i: nat, T: nat, s: BFile)
    requires T >= 2 && i < |f.kids| && i <= |f.keys| && |f.kids[i].keys| == 2 * T - 1
    ensures var (s0, id) := Take(s);
            var f1 := Part(f, i, T - 1, id);
            BTrees.SplitChild(f, i, T, s) ==
              (f1, PutPage(PutPage(PutPage(s0, f1.kids[i].id, PageOf(f1.kids[i])), f1.id, PageOf(f1)), f1.kids[i + 1].id, PageOf(f1.kids[i + 1])))
  {
  }

  // The pages after a child has been parted,
  lemma PartPages(f: Tree, i: nat, m: nat, id: Ref)
    requires i < |f.kids| == |f.keys| + 1 && m < |f.kids[i].keys| && Row(f.kids[i].keys, f.kids[i].kids)
    ensures PageOK(PageOf(f)) && PageOK(PageOf(f.kids[i]))
    ensures var (f1, c) := (Part(f, i, m, id), PageOf(f.kids[i]));
            && PageOf(f1) == WithKey(PageOf(f), i, c.keys[m], id)
            && PageOf(f1.kids[i]) == LowerPart(c, m) && PageOf(f1.kids[i + 1]) == UpperPart(c, m)
            && f1.kids[i].id == f.kids[i].id && f1.kids[i + 1].id == id
  {
    var f1, c := Part(f, i, m, id), f.kids[i];
    assert KidIds(f1.kids) == InsertAt(KidIds(f.kids), i + 1, id);
    if c.kids != [] {
      assert KidIds(LeftOf(c.kids, m)) == KidIds(c.kids)[..m + 1];
      assert KidIds(RightOf(c.kids, m)) == KidIds(c.kids)[m + 1..];
    }
  }

  // after two children have been joined,
  lemma JoinPages(f: Tree, i: nat)
    requires i < |f.keys| && |f.kids| == |f.keys| + 1 && Alike(f, i)
    ensures PageOK(PageOf(f)) && PageOK(PageOf(f.kids[i])) && PageOK(PageOf(f.kids[i + 1]))
    ensures var (f1, a, b) := (Join(f, i), PageOf(f.kids[i]), PageOf(f.kids[i + 1]));
            && PageOf(f1) == WithoutKey(PageOf(f), i) && PageOf(f1.kids[i]) == Fused(a, f.keys[i], b)
            && f1.kids[i].id == f.kids[i].id && Row(f1.kids[i].keys, f1.kids[i].kids)
  {
    var f1 := Join(f, i);
    assert KidIds(f1.kids) == RemoveAt(KidIds(f.kids), i + 1);
    assert KidIds(f.kids[i].kids + f.kids[i + 1].kids) == KidIds(f.kids[i].kids) + KidIds(f.kids[i + 1].kids);
  }

  // and after both, which is a borrow.
  lemma BorrowNextPages(f: Tree, i: nat)
    requires i < |f.keys| && |f.kids| == |f.keys| + 1 && Alike(f, i) && |f.kids[i + 1].keys| >= 1
    ensures |Join(f, i).kids[i].keys| > |f.kids[i].keys| + 1
    ensures PageOK(PageOf(f)) && PageOK(PageOf(f.kids[i])) && PageOK(PageOf(f.kids[i + 1]))
    ensures PageOf(f.kids[i]).leaf == PageOf(f.kids[i + 1]).leaf
    ensures var (f1, a, b) := (Part(Join(f, i), i, |f.kids[i].keys| + 1, f.kids[i + 1].id), PageOf(f.kids[i]), PageOf(f.kids[i + 1]));
            && PageOf(f1) == WithKeyAt(PageOf(f), i, b.keys[0])
            && PageOf(f1.kids[i]) == WithLast(a, f.keys[i], b) && PageOf(f1.kids[i + 1]) == WithoutFirst(b)
            && f1.kids[i].id == f.kids[i].id && f1.kids[i + 1].id == f.kids[i + 1].id
  {
    hide Join, Part, KidIds, PageOf, Fused, LowerPart, UpperPart, WithKey, WithoutKey, WithKeyAt, WithLast, WithoutFirst;
    var a, b := PageOf(f.kids[i]), PageOf(f.kids[i + 1]);
    PageShape(f);
    PageShape(f.kids[i]);
    PageShape(f.kids[i + 1]);
    JoinPages(f, i);
    JoinedKeys(f, i);
    PartPages(Join(f, i), i, |f.kids[i].keys| + 1, f.kids[i + 1].id);
    CutAfter(a, f.keys[i], b);
    KeyReplaced(PageOf(f), i, b.keys[0], f.kids[i + 1].id);
  }

  lemma JoinedKeys(f: Tree, i: nat)
    requires i < |f.keys| && |f.kids| == |f.keys| + 1
    ensures |Join(f, i).kids[i].keys| == |f.kids[i].keys| + 1 + |f.kids[i + 1].keys|
  {
  }

  // A joined page cut one key later, or one earlier, than it was joined.
  lemma CutAfter(a: BPage, x: Key, b: BPage)
    requires PageOK(a) && PageOK(b) && a.leaf == b.leaf && |b.keys| >= 1
    ensures var s := Fused(a, x, b); var m := |a.keys| + 1;
            PageOK(s) && m < |s.keys| && s.keys[m] == b.keys[0] && LowerPart(s, m) == WithLast(a, x, b) && UpperPart(s, m) == WithoutFirst(b)
  {
  }

  lemma CutBefore(a: BPage, x: Key, b: BPage)
    requires PageOK(a) && PageOK(b) && a.leaf == b.leaf && |a.keys| >= 1
    ensures var s := Fused(a, x, b); var m := |a.keys| - 1;
            PageOK(s) && m < |s.keys| && s.keys[m] == a.keys[m] && LowerPart(s, m) == WithoutLast(a) && UpperPart(s, m) == WithFirst(b, x, a)
  {
    var s, m := Fused(a, x, b), |a.keys| - 1;
    JoinedCut(a.keys, m, [x] + b.keys);
    assert s.keys == a.keys + ([x] + b.keys) && a.keys[m..] == [a.keys[m]];
    if !a.leaf {
      JoinedCut(a.refs, m, b.refs);
      assert a.refs[m + 1..] == [a.refs[m + 1]];
    }
  }

  lemma JoinedCut<X>(a: seq<X>, m: nat, b: seq<X>)
    requires m < |a|
    ensures (a + b)[..m] == a[..m] && (a + b)[..m + 1] == a[..m + 1] && (a + b)[m] == a[m] && (a + b)[m + 1..] == a[m + 1..] + b
  {
  }

  // Taking out a key and its right child, and putting in another with that child.
  lemma KeyReplaced(p: BPage, i: nat, k: Key, child: Ref)
    requires PageOK(p) && i < |p.keys| && (!p.leaf ==> p.refs[i + 1] == child)
    ensures var q := WithoutKey(p, i); PageOK(q) && i <= |q.keys| && WithKey(q, i, k, child) == WithKeyAt(p, i, k)
  {
    hide InsertAt, RemoveAt;
    PutBack(p.keys, i, k);
    if !p.leaf {
      PutBack(p.refs, i + 1, child);
    }
  }

  lemma PutBack<X>(s: seq<X>, i: nat, x: X)
    requires i < |s|
    ensures |RemoveAt(s, i)| == |s| - 1 && InsertAt(RemoveAt(s, i), i, x) == s[i := x]
  {
  }

  lemma BorrowPrevPages(f: Tree, i: nat)
    requires 0 < i < |f.kids| == |f.keys| + 1 && Alike(f, i - 1) && |f.kids[i - 1].keys| >= 1
    ensures |Join(f, i - 1).kids[i - 1].keys| >= |f.kids[i - 1].keys|
    ensures PageOK(PageOf(f)) && PageOK(PageOf(f.kids[i - 1])) && PageOK(PageOf(f.kids[i]))
    ensures PageOf(f.kids[i - 1]).leaf == PageOf(f.kids[i]).leaf
    ensures var n := |f.kids[i - 1].keys| - 1;
            var (f1, a, b) := (Part(Join(f, i - 1), i - 1, n, f.kids[i].id), PageOf(f.kids[i - 1]), PageOf(f.kids[i]));
            && PageOf(f1) == WithKeyAt(PageOf(f), i - 1, a.keys[n])
            && PageOf(f1.kids[i - 1]) == WithoutLast(a) && PageOf(f1.kids[i]) == WithFirst(b, f.keys[i - 1], a)
            && f1.kids[i - 1].id == f.kids[i - 1].id && f1.kids[i].id == f.kids[i].id
  {
    hide Join, Part, KidIds, PageOf, Fused, LowerPart, UpperPart, WithKey, WithoutKey, WithKeyAt, WithoutLast, WithFirst;
    var a, b := PageOf(f.kids[i - 1]), PageOf(f.kids[i]);
    PageShape(f);
    PageShape(f.kids[i - 1]);
    PageShape(f.kids[i]);
    JoinPages(f, i - 1);
    JoinedKeys(f, i - 1);
    PartPages(Join(f, i - 1), i - 1, |f.kids[i - 1].keys| - 1, f.kids[i].id);
    CutBefore(a, f.keys[i - 1], b);
    KeyReplaced(PageOf(f), i - 1, a.keys[|a.keys| - 1], f.kids[i].id);
  }

  // ----- descending -----

  // Every child of f can be read, and is of its siblings' kind.
  ghost predicate Opened(f: Tree, T: nat, pages: map<Ref, BPage>) {
    && |f.kids| == |f.keys| + 1
    && (forall j :: 0 <= j < |f.kids| ==>
         Readable(f.kids[j], T, pages) && T - 1 <= |f.kids[j].keys| && Row(f.kids[j].keys, f.kids[j].kids))
    && (forall j :: 0 <= j < |f.keys| ==> Alike(f, j))
  }

  lemma Openable(t: Tree, T: nat, h: nat, lo: Key, hi: Key, s: BFile)
    requires T >= 2 && Good(t, T, h, lo, hi) && h > 0 && OnFile(t, s)
    ensures Opened(t, T, s.pages)
  {
    assert Body(t.keys, t.kids, h, lo, hi);
    StoredNode(t, s.pages);
    forall j | 0 <= j < |t.kids|
      ensures Readable(t.kids[j], T, s.pages) && Row(t.kids[j].keys, t.kids[j].kids) && (t.kids[j].kids == [] <==> h == 1)
    {
      assert Ordered(t.kids[j], h - 1, Lo(t.keys, j, lo), Hi(t.keys, j, hi));
      OrderedRow(t.kids[j], h - 1, Lo(t.keys, j, lo), Hi(t.keys, j, hi));
      StoredNode(t.kids[j], s.pages);
    }
  }

  lemma NodeShape(t: Tree, T: nat, h: nat, lo: Key, hi: Key)
    requires Good(t, T, h, lo, hi)
    ensures Sorted(t.keys) && Row(t.keys, t.kids) && (t.kids == [] <==> h == 0)
  {
    assert Body(t.keys, t.kids, h, lo, hi);
  }

  // What an insertion enters: a child that is not full.
  ghost predicate InsertEnters(c: Tree, k: Key, T: nat, h: nat, lo: Key, hi: Key, s: BFile) {
    && Good(c, T, h, lo, hi) && |c.keys| < 2 * T - 1 && lo < k < hi
    && OnFile(c, s) && Readable(c, T, s.pages)
  }

  lemma InsertDescends(t: Tree, k: Key, T: nat, h: nat, lo: Key, hi: Key, s: BFile)
    requires T >= 2 && h > 0 && Good(t, T, h, lo, hi) && |t.keys| < 2 * T - 1 && lo < k < hi && OnFile(t, s)
    requires k !in t.keys
    ensures FirstGE(t.keys, k) < |t.kids| == |t.keys| + 1
    ensures var i := FirstGE(t.keys, k);
            var (t1, s1) := if |t.kids[i].keys| == 2 * T - 1 then SplitChild(t, i, T, s) else (t, s);
            var j := if |t1.keys| > |t.keys| && t1.keys[i] < k then i + 1 else i;
            j <= |t1.keys| == |t1.kids| - 1 && InsertEnters(t1.kids[j], k, T, h - 1, Lo(t1.keys, j, lo), Ceiling(t1, j, k, hi), s1)
  {
    hide Content, Ordered, Occupied, SplitChild, FirstGE, Stored, Ids, Moved, PageOf, BFits;
    NodeShape(t, T, h, lo, hi);
    var i := FirstGE(t.keys, k);
    assert i < |t.keys| ==> t.keys[i] in t.keys;
    var (t1, s1) := if |t.kids[i].keys| == 2 * T - 1 then SplitChild(t, i, T, s) else (t, s);
    var j := if |t1.keys| > |t.keys| && t1.keys[i] < k then i + 1 else i;
    PrepareSettled(t, i, T, s);
    EntersAny(t, k, T, h, lo, hi, s);
    MovedOnFile(t, s, t1, s1);
    KidOnFile(t1, j, s1);
    Openable(t1, T, h, lo, hi, s1);
  }

  // What a removal enters: a child with at least T keys.
  ghost predicate RemoveEnters(c: Tree, k: Key, T: nat, h: nat, lo: Key, hi: Key, s: BFile) {
    Good(c, T, h, lo, hi) && |c.keys| >= T && lo < k < hi && OnFile(c, s) && Readable(c, T, s.pages)
  }

  // The cases of a removal.
  lemma RemoveHere(t: Tree, k: Key, T: nat, h: nat, s: BFile)
    requires T >= 2 && var i := FirstGE(t.keys, k); Inner(t, h) ==> i < |t.keys| && t.keys[i] == k
    ensures Remove(t, k, T, h, s) == if Inner(t, h) then RemoveFromNonLeaf(t, FirstGE(t.keys, k), T, h, s) else RemoveFromLeaf(t, k, s)
  {
  }

  lemma RemoveBelow(t: Tree, k: Key, T: nat, h: nat, s: BFile, f: Tree, s1: BFile, j: nat)
    requires T >= 2 && Inner(t, h) && var i := FirstGE(t.keys, k); i < |t.keys| ==> t.keys[i] != k
    requires var i := FirstGE(t.keys, k);
             && (f, s1) == (if |t.kids[i].keys| < T then FillNode(t, i, T, s) else (t, s))
             && j == (if i == |t.keys| && i > |f.keys| then i - 1 else i)
    ensures var r := Remove(f.kids[j], k, T, h - 1, s1); Remove(t, k, T, h, s) == Removed(WithKid(f, j, r.t), r.ok, r.file)
  {
    hide FillNode, FirstGE;
  }

  lemma RemoveDescends(t: Tree, k: Key, T: nat, h: nat, lo: Key, hi: Key, s: BFile)
    requires T >= 2 && h > 0 && Good(t, T, h, lo, hi) && lo < k < hi && |t.keys| >= 1 && OnFile(t, s)
    requires var i := FirstGE(t.keys, k); i < |t.keys| ==> t.keys[i] != k
    ensures FirstGE(t.keys, k) < |t.kids| == |t.keys| + 1
    ensures var i := FirstGE(t.keys, k);
            var (f, s1) := if |t.kids[i].keys| < T then FillNode(t, i, T, s) else (t, s);
            var j := if i == |t.keys| && i > |f.keys| then i - 1 else i;
            j <= |f.keys| == |f.kids| - 1 && RemoveEnters(f.kids[j], k, T, h - 1, Lo(f.keys, j, lo), Hi(f.keys, j, hi), s1)
  {
    hide Content, Ordered, Occupied, FillNode, FirstGE, Stored, Ids, Moved, PageOf, BFits;
    NodeShape(t, T, h, lo, hi);
    var i := FirstGE(t.keys, k);
    var (f, s1) := if |t.kids[i].keys| < T then FillNode(t, i, T, s) else (t, s);
    var j := if i == |t.keys| && i > |f.keys| then i - 1 else i;
    FilledSettled(t, i, T, s);
    FillNeeded(t, i, k, T, h, lo, hi, s);
    KidGood(f, j, T, h, lo, hi);
    Routed(f, k, h, lo, hi);
    MovedOnFile(t, s, f, s1);
    KidOnFile(f, j, s1);
    Openable(f, T, h, lo, hi, s1);
  }

  // Both neighbours of key i of an internal node, and what they merge into.
  lemma ReplaceDescends(t: Tree, i: nat, T: nat, h: nat, lo: Key, hi: Key, s: BFile)
    requires T >= 2 && Good(t, T, h, lo, hi) && Inner(t, h) && i < |t.keys| && OnFile(t, s)
    ensures var a := t.kids[i];
            |a.keys| >= T ==> RemoveEnters(a, LastKey(a), T, h - 1, Lo(t.keys, i, lo), Hi(t.keys, i, hi), s)
                              && Remove(a, LastKey(a), T, h - 1, s).ok
    ensures var b := t.kids[i + 1];
            |b.keys| >= T ==> RemoveEnters(b, FirstKey(b), T, h - 1, Lo(t.keys, i + 1, lo), Hi(t.keys, i + 1, hi), s)
                              && (|t.kids[i].keys| < T ==> Remove(b, FirstKey(b), T, h - 1, s).ok)
    ensures |t.kids[i].keys| < T && |t.kids[i + 1].keys| < T ==>
              var (f, s1) := MergeNodes(t, i, s);
              && i < |f.kids| && i <= |f.keys| && T - 1 < |f.kids[i].keys| && f.kids[i].keys[T - 1] == t.keys[i]
              && |f.kids| == |f.keys| + 1
              && RemoveEnters(f.kids[i], t.keys[i], T, h - 1, Lo(f.keys, i, lo), Hi(f.keys, i, hi), s1)
              && Remove(f.kids[i], t.keys[i], T, h - 1, s1).ok
  {
    hide Content, Ordered, Occupied, LastKey, FirstKey, MergeNodes, Remove, Stored, Ids, Moved, PageOf, BFits, Dropped;
    RemoveNonLeafGood(t, i, T, h, lo, hi, s);
    KidGood(t, i, T, h, lo, hi);
    KidGood(t, i + 1, T, h, lo, hi);
    Openable(t, T, h, lo, hi, s);
    KidOnFile(t, i, s);
    KidOnFile(t, i + 1, s);
    if |t.kids[i].keys| >= T {
      LastWithin(t.kids[i], T, h - 1, Lo(t.keys, i, lo), t.keys[i]);
    }
    if |t.kids[i + 1].keys| >= T {
      FirstWithin(t.kids[i + 1], T, h - 1, t.keys[i], Hi(t.keys, i + 1, hi));
    }
    if |t.kids[i].keys| < T && |t.kids[i + 1].keys| < T {
      var (f, s1) := MergeNodes(t, i, s);
      MergeGood(t, i, T, h, lo, hi, s);
      MergeSettled(t, i, s);
      MovedOnFile(t, s, f, s1);
      KidGood(f, i, T, h, lo, hi);
      KeyBounds(f.kids[i], T - 1, h - 1, Lo(f.keys, i, lo), Hi(f.keys, i, hi));
      KidOnFile(f, i, s1);
      Openable(f, T, h, lo, hi, s1);
    }
  }

  // A child on the way to the last or first key of a tree.
  lemma EndDescends(c: Tree, i: nat, T: nat, h: nat, lo: Key, hi: Key, s: BFile)
    requires T >= 2 && Good(c, T, h, lo, hi) && h > 0 && OnFile(c, s) && i < |c.kids|
    ensures |c.kids| == |c.keys| + 1 && Readable(c.kids[i], T, s.pages)
    ensures Good(c.kids[i], T, h - 1, Lo(c.keys, i, lo), Hi(c.keys, i, hi)) && |c.kids[i].keys| >= 1 && OnFile(c.kids[i], s)
  {
    hide Ordered, Occupied, Stored, Ids, PageOf, BFits;
    NodeShape(c, T, h, lo, hi);
    KidGood(c, i, T, h, lo, hi);
    Openable(c, T, h, lo, hi, s);
    KidOnFile(c, i, s);
  }

  // A child's keys are not on the page of its father.
  lemma SamePage(t: Tree, i: nat, c: Tree)
    requires i < |t.kids| && c.id == t.kids[i].id
    ensures PageOf(WithKid(t, i, c)) == PageOf(t)
  {
    assert KidIds(t.kids[i := c]) == KidIds(t.kids);
  }
}
