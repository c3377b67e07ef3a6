/** Freed pages stay empty: what the operations write outside the tree. */
module CleanPages {
  import opened Pages
  import opened Trees
  import opened Accounts
  import opened Ownership
  import opened Insertion
  import opened InsertionDisk
  import opened Removal
  import opened RemovalTree
  import opened RemovalContent
  import opened RemovalDisk
  import opened Store
  import opened StoreRemoval
  import opened Runs

  ghost predicate Clean(s: Disk) {
    forall id :: id in s.delNodes && id in s.pages ==> s.pages[id] == FreePage
  }

  // From s to s1 every page outside x was made empty, or left as it was and not freed.
  ghost predicate Wrote(s: Disk, x: multiset<Ref>, s1: Disk) {
    forall id: Ref :: id in s1.pages && id !in x ==>
      s1.pages[id] == FreePage
      || (id in s.pages && s1.pages[id] == s.pages[id] && (id in s1.delNodes ==> id in s.delNodes))
  }

  lemma WroteThen(s: Disk, x: multiset<Ref>, s1: Disk, x1: multiset<Ref>, s2: Disk)
    requires Wrote(s, x, s1) && Wrote(s1, x1, s2)
    requires forall id: Ref :: id in x && id in s2.pages ==> id in x1 || s2.pages[id] == FreePage
    ensures Wrote(s, x1, s2)
  {
  }

  lemma WroteMore(s: Disk, x: multiset<Ref>, s1: Disk, x1: multiset<Ref>)
    requires Wrote(s, x, s1) && x <= x1
    ensures Wrote(s, x1, s1)
  {
  }

  // ----- insertion -----

  lemma {:induction false} InsertWrote(t: Tree, k: Key, v: Value, s: Disk)
    requires Shaped(t, s.g.degree) && GeometryOK(s.g)
    ensures Wrote(s, Owned(Insert(t, k, v, s).grown), Insert(t, k, v, s).disk)
  {
    hide LeafInsert, Widen, Ids, IdsOf, Wrote, FirstGT;
    if t.Leaf? {
      LeafInsertWrote(t, k, v, s);
    } else {
      var i := FirstGT(t.keys, k);
      InsertWrote(t.kids[i], k, v, s);
      var o := Insert(t.kids[i], k, v, s);
      match o.grown
      case One(c) =>
        KidOwned(t, i, c);
        WroteMore(s, Ids(c), o.disk, Ids(Node(t.id, t.keys, t.kids[i := c])));
      case Two(l, sep, r) =>
        WidenWrote(t, i, l, sep, r, o.disk);
        WroteOn(s, Ids(l) + Ids(r), o.disk, Owned(Widen(t, i, l, sep, r, o.disk).0), Widen(t, i, l, sep, r, o.disk).1);
    }
  }

  lemma WroteOn(s: Disk, x: multiset<Ref>, s1: Disk, x1: multiset<Ref>, s2: Disk)
    requires Wrote(s, x, s1) && Wrote(s1, x1, s2) && x <= x1
    ensures Wrote(s, x1, s2)
  {
  }

  lemma KidOwned(t: Tree, i: nat, c: Tree)
    requires t.Node? && i < |t.kids|
    ensures Ids(c) <= Ids(Node(t.id, t.keys, t.kids[i := c]))
  {
    IdsWithin(t.kids[i := c], i);
  }

  lemma LeafInsertWrote(t: Tree, k: Key, v: Value, s: Disk)
    requires t.Leaf? && |t.items| <= 2 * s.g.degree - 1 && GeometryOK(s.g)
    ensures Wrote(s, Owned(LeafInsert(t, k, v, s).grown), LeafInsert(t, k, v, s).disk)
  {
    hide InsertAt, FirstGE, LeafCut, TakeSlot, KeysOf, SlotsOf;
    NewValueKeeps(s, v);
    NewValueKeeps(AppendNode(s, LeafPage([], [])).0, v);
  }

  lemma NewValueKeeps(s: Disk, v: Value)
    requires s.g.span > 0
    ensures var s1 := NewValue(s, v).0; s1.pages == s.pages && s1.delNodes == s.delNodes
  {
  }

  lemma WidenWrote(t: Tree, i: nat, l: Tree, sep: Key, r: Tree, s: Disk)
    requires t.Node? && |t.kids| == |t.keys| + 1 && i < |t.kids| && |t.keys| <= 2 * s.g.degree - 1 && s.g.degree >= 2
    ensures var (g, s1) := Widen(t, i, l, sep, r, s); Wrote(s, Owned(g), s1) && Ids(l) + Ids(r) <= Owned(g)
  {
    hide IdsOf, Ids, Rebuild, InsertAt, RemoveAt, FirstGT, Wrote;
    var p := FirstGT(t.keys, sep);
    var keys, kids, m := InsertAt(t.keys, p, sep), InsertAt(t.kids[i := l], p + 1, r), NodeCut(t.keys, sep, s.g.degree);
    GrownKids(t.kids, i, p, l, r);
    Longer(t.keys, p, sep);
    Longer(t.kids[i := l], p + 1, r);
    RebuildOwned(t.id, keys, kids, m, s);
    RebuildWrote(t.id, keys, kids, m, s);
  }

  lemma RebuildWrote(id: Ref, keys: seq<Key>, kids: seq<Tree>, m: nat, s: Disk)
    requires |kids| == |keys| + 1 && |keys| <= 2 * s.g.degree && (|keys| == 2 * s.g.degree ==> m < |keys|)
    ensures var (g, s1) := Rebuild(id, keys, kids, m, s); Wrote(s, Owned(g), s1)
  {
    hide IdsOf;
  }

  lemma SetWrote(st: Store, k: Key, v: Value)
    requires Shaped(st.root, st.disk.g.degree) && GeometryOK(st.disk.g)
    ensures var st1 := SetKey(st, k, v); Wrote(st.disk, Ids(st1.root), st1.disk)
  {
    hide Insert, Shaped, IdsOf;
    InsertWrote(st.root, k, v, st.disk);
    var o := Insert(st.root, k, v, st.disk);
    if o.grown.Two? {
      var t1 := SetKey(st, k, v).root;
      IdsWithin(t1.kids, 0);
      IdsWithin(t1.kids, 1);
    }
  }

  // ----- removal -----

  lemma DropEntryWrote(c: Tree, k: Key, s: Disk)
    ensures Wrote(s, multiset{c.id}, DropEntry(c, k, s).disk)
  {
    hide FirstGE, KeysOf, SlotsOf;
  }

  // A repair writes one of the two children, or frees it.
  lemma RepairWrote(f: Tree, i: nat, s: Disk)
    requires f.Node? && |f.kids| == |f.keys| + 1 && |f.keys| >= 1 && i < |f.kids| && SameKind(f.kids)
    ensures var r := Choose(f, i, s.g.degree); var f1, s1 := Apply(f, r), RepairDisk(r, i, s);
            && Wrote(s, Ids(f1), s1)
            && (forall id: Ref :: id in Ids(f) && id in s1.pages ==> id in Ids(f1) || s1.pages[id] == FreePage)
  {
    hide Ids, IdsOf, FromLeft, FromRight, Fused, Apply;
    var r := Choose(f, i, s.g.degree);
    var f1, s1 := Apply(f, r), RepairDisk(r, i, s);
    RepairIds(f, i, s.g.degree);
    match r
    case Shift(j, p, id) =>
      assert Ids(f1) == Ids(f);
      SiblingOwned(f, i, s.g.degree);
    case Merge(_, _, id) =>
  }

  lemma SiblingOwned(f: Tree, i: nat, d: nat)
    requires f.Node? && |f.kids| == |f.keys| + 1 && |f.keys| >= 1 && i < |f.kids|
    ensures var r := Choose(f, i, d); r.Shift? ==> r.written in Ids(f)
  {
    hide FromLeft, FromRight, Fused, Size;
    if i + 1 < |f.kids| {
      IdsWithin(f.kids, i + 1);
    }
    if i > 0 {
      IdsWithin(f.kids, i - 1);
    }
  }

  lemma KidWithin(f: Tree, i: nat)
    requires f.Node? && i < |f.kids|
    ensures f.kids[i].id in Ids(f)
  {
    IdsWithin(f.kids, i);
  }

  lemma WroteOne(s: Disk, id: Ref, s1: Disk, x: multiset<Ref>)
    requires Wrote(s, multiset{id}, s1) && id in x
    ensures Wrote(s, x, s1)
  {
  }

  lemma RemoveAtLeafWrote(f: Tree, i: nat, k: Key, s: Disk)
    requires f.Node? && |f.kids| == |f.keys| + 1 && |f.keys| >= 1 && i < |f.kids| && f.kids[i].Leaf? && SameKind(f.kids)
    ensures var r := RemoveAtLeaf(f, i, k, s); Wrote(s, Ids(r.t), r.disk)
  {
    hide Wrote, Ids, IdsOf, Choose, Apply, RepairDisk, DropEntry, Holds;
    if !Holds(f.kids[i], k) {
      NothingWrote(s, Ids(f));
    } else if |f.kids[i].items| > s.g.degree - 1 {
      var e := DropEntry(f.kids[i], k, s);
      DropEntryWrote(f.kids[i], k, s);
      KidWithin(WithKid(f, i, e.t), i);
      WroteOne(s, f.kids[i].id, e.disk, Ids(WithKid(f, i, e.t)));
    } else {
      var r := Choose(f, i, s.g.degree);
      var f1, i1, s1 := Apply(f, r), RepairedAt(r, i), RepairDisk(r, i, s);
      var e := DropEntry(f1.kids[i1], k, s1);
      RepairWrote(f, i, s);
      DropEntryWrote(f1.kids[i1], k, s1);
      KidWithin(WithKid(f1, i1, e.t), i1);
      WroteOne(s1, f1.kids[i1].id, e.disk, Ids(WithKid(f1, i1, e.t)));
      DropEntryIds(f1.kids[i1], k, s1);
      SameIds(f1, i1, e.t);
      WroteOn(s, Ids(f1), s1, Ids(WithKid(f1, i1, e.t)), e.disk);
    }
  }

  lemma NothingWrote(s: Disk, x: multiset<Ref>)
    ensures Wrote(s, x, s)
  {
  }

  lemma DropEntryIds(c: Tree, k: Key, s: Disk)
    ensures Ids(DropEntry(c, k, s).t) == Ids(c)
  {
  }

  lemma {:induction false} RemoveInWrote(f: Tree, i: nat, k: Key, s: Disk, h: nat, lo: Key, hi: Key)
    requires f.Node? && Shaped(f, s.g.degree) && GeometryOK(s.g) && WF(f, s.g.degree, h, lo, hi) && i < |f.kids|
    ensures var r := RemoveIn(f, i, k, s); Wrote(s, Ids(r.t), r.disk)
    decreases h
  {
    hide Wrote, Ids, IdsOf, Settle, RemoveAtLeaf;
    var d := s.g.degree;
    var c, lo1, hi1 := f.kids[i], Lo(f.keys, i, lo), Hi(f.keys, i, hi);
    assert WF(c, d, h - 1, lo1, hi1);
    LeavesSameKind(f, d, h, lo, hi);
    if c.Leaf? {
      RemoveAtLeafWrote(f, i, k, s);
    } else {
      var j := FirstGT(c.keys, k);
      RemoveInWrote(c, j, k, s, h - 1, lo1, hi1);
      RemoveInWF(c, j, k, s, h - 1, lo1, hi1);
      SettleWrote(f, i, s, RemoveIn(c, j, k, s), d, h, lo, hi);
    }
  }

  lemma SettleWrote(f: Tree, i: nat, s: Disk, r: Dropped, d: nat, h: nat, lo: Key, hi: Key)
    requires d == r.disk.g.degree && d >= 2 && f.Node? && |f.keys| >= 1 && |f.kids| == |f.keys| + 1 && i < |f.kids| && h >= 2
    requires WF(f, d, h, lo, hi) && WF(r.t, d, h - 1, Lo(f.keys, i, lo), Hi(f.keys, i, hi)) && Wrote(s, Ids(r.t), r.disk)
    ensures var (f1, s1) := Settle(WithKid(f, i, r.t), i, r.disk); Wrote(s, Ids(f1), s1)
  {
    hide Wrote, Ids, IdsOf, Choose, Apply, RepairDisk, Occupied, InOrder;
    var f0 := WithKid(f, i, r.t);
    IdsWithin(f0.kids, i);
    IdsOfNode(f0);
    WroteMore(s, Ids(r.t), r.disk, Ids(f0));
    ReplaceKid(f.keys, f.kids, i, r.t, d, h - 1, lo, hi);
    LeavesSameKind(f0, d, h, lo, hi);
    if Size(r.t) < d - 1 {
      var p := Choose(f0, i, d);
      var f1, i1, s1 := Apply(f0, p), RepairedAt(p, i), RepairDisk(p, i, r.disk);
      RepairWrote(f0, i, r.disk);
      WroteThen(s, Ids(f0), r.disk, Ids(f1), s1);
      KidWithin(f1, i1);
      FlushWrote(s, Ids(f1), s1, f1.kids[i1].id, PageOf(f1.kids[i1]));
    } else {
      KidWithin(f0, i);
      FlushWrote(s, Ids(f0), r.disk, r.t.id, PageOf(r.t));
    }
  }

  lemma FlushWrote(s: Disk, x: multiset<Ref>, s1: Disk, id: Ref, p: Page)
    requires Wrote(s, x, s1) && id in x
    ensures Wrote(s, x, Flush(s1, id, p))
  {
  }

  lemma RemoveWrote(st: Store, k: Key, limit: Key)
    requires Ready(st, limit)
    ensures var st1 := RemoveKey(st, k).0; Wrote(st.disk, Ids(st1.root), st1.disk)
  {
    hide Wrote, Ids, IdsOf, DropEntry, RemoveIn, DiskOK, Stored, HeldNode, HeldSlot;
    var t, s := st.root, st.disk;
    if t.Leaf? {
      DropEntryWrote(t, k, s);
      var e := DropEntry(t, k, s);
      assert e.t.id in Ids(e.t) by { LeafOwn(e.t); }
      WroteOne(s, t.id, e.disk, Ids(e.t));
    } else {
      var i, h := FirstGT(t.keys, k), Height(st.root);
      RemoveInWrote(t, i, k, s, h, 0, limit);
      RemoveInWF(t, i, k, s, h, 0, limit);
      var r := RemoveIn(t, i, k, s);
      IdsOfNode(r.t);
      FlushWrote(s, Ids(r.t), r.disk, t.id, PageOf(r.t));
      if r.ok && |r.t.keys| == 0 {
        RemoveInContent(t, i, k, s, h, 0, limit);
        OnlyKid(r.t, s.g.degree, h, limit);
        FreedWrote(s, Ids(r.t.kids[0]), t.id, Flush(r.disk, t.id, PageOf(r.t)));
      }
    }
  }

  lemma LeafOwn(t: Tree)
    ensures t.id in Ids(t)
  {
  }

  lemma FreedWrote(s: Disk, x: multiset<Ref>, id: Ref, s1: Disk)
    requires Wrote(s, x + multiset{id}, s1)
    ensures Wrote(s, x, FreeNode(s1, id))
  {
  }

  // ----- runs -----

  lemma StepClean(st: Store, op: Op, limit: Key)
    requires Ready(st, limit) && 0 <= op.key < limit && Clean(st.disk) && Inv(Step(st, op).0, limit)
    ensures Clean(Step(st, op).0.disk)
  {
    hide DiskOK, Ids, SetKey, RemoveKey, TreeOK, Stored, HeldSlot, Shaped, GeometryOK;
    var st1 := Step(st, op).0;
    match op
    case Set(k, v) =>
      SetWrote(st, k, v);
      WroteClean(st.disk, Ids(st1.root), st1.disk);
    case Remove(k) =>
      RemoveWrote(st, k, limit);
      WroteClean(st.disk, Ids(st1.root), st1.disk);
    case _ =>
  }

  lemma WroteClean(s: Disk, x: multiset<Ref>, s1: Disk)
    requires Clean(s) && Wrote(s, x, s1) && forall p: Ref :: HeldNode(x, s1, p) == 0
    ensures Clean(s1)
  {
    forall id | id in s1.delNodes && id in s1.pages
      ensures s1.pages[id] == FreePage
    {
      assert HeldNode(x, s1, id) == 0;
      assert id in multiset(s1.delNodes);
    }
  }
}
