/** set and remove keep the invariant of the store, and change the stored map as they should. */
module StoreSteps {
  import opened Pages
  import opened Trees
  import opened Order
  import opened Accounts
  import opened Allocators
  import opened Ownership
  import opened Insertion
  import opened InsertionContent
  import opened InsertionDisk
  import opened InsertionStored
  import opened RemovalDisk
  import opened Store

  // ----- set -----

  lemma SetTree(st: Store, k: Key, v: Value, limit: Key)
    requires TreeOK(st.root, st.disk.g.degree, limit) && 0 <= k < limit && Shaped(st.root, st.disk.g.degree) && GeometryOK(st.disk.g)
    ensures TreeOK(SetKey(st, k, v).root, st.disk.g.degree, limit)
    ensures Height(st.root) <= Height(SetKey(st, k, v).root) <= Height(st.root) + 1
  {
    hide DiskOK, HeldNode, HeldSlot, Insert;
    var t, d, h := st.root, st.disk.g.degree, Height(st.root);
    InsertWF(t, k, v, st.disk, h, 0, limit);
    var g := Insert(t, k, v, st.disk).grown;
    var t1 := SetKey(st, k, v).root;
    match g
    case One(t0) =>
      WFHeight(t0, d, h, 0, limit);
      SameKindOfNode(t, t0, d, h, limit);
    case Two(l, sep, r) =>
      assert WF(t1, d, h + 1, 0, limit);
      WFHeight(t1, d, h + 1, 0, limit);
  }

  lemma SameKindOfNode(t: Tree, t0: Tree, d: nat, h: nat, limit: Key)
    requires WF(t, d, h, 0, limit) && WF(t0, d, h, 0, limit) && Size(t0) >= Size(t)
    ensures t.Node? && |t.keys| >= 1 ==> t0.Node? && |t0.keys| >= 1
    ensures t0.Node? ==> t.Node?
  {
  }

  // The disk, books and pages under the new root.
  lemma SetDisk(st: Store, k: Key, v: Value, limit: Key)
    requires Inv(st, limit) && Shaped(st.root, st.disk.g.degree) && GeometryOK(st.disk.g)
    ensures var st1 := SetKey(st, k, v); var o := Insert(st.root, k, v, st.disk);
            && DiskOK(st1.disk) && NodesKept(Ids(st.root), st.disk, Ids(st1.root), st1.disk)
            && ValuePlaced(st.disk, st1.disk, o.slot, o.isNew, v)
            && Stored(st1.root, st1.disk.pages) && st1.header == st1.root.id
  {
    InvOwns(st, limit);
    InsertDisk(st.root, k, v, st.disk);
    InsertStored(st.root, k, v, st.disk);
    var o := Insert(st.root, k, v, st.disk);
    assert st.header == st.root.id;
    if o.grown.Two? {
      NewRootDisk(Ids(st.root), st.disk, o, v);
    }
  }

  lemma NewRootDisk(x: multiset<Ref>, s: Disk, o: Placed, v: Value)
    requires o.grown.Two? && PlacedOK(x, s, o, v) && GrownStored(o.grown, o.disk.pages) && Apart(x, s)
    ensures var (s1, id) := AppendNode(o.disk, NodePage([], [0]));
            var t := Node(id, [o.grown.sep], [o.grown.l, o.grown.r]);
            var s2 := Flush(s1, id, PageOf(t));
            DiskOK(s2) && NodesKept(x, s, Ids(t), s2) && ValuePlaced(s, s2, o.slot, o.isNew, v) && Stored(t, s2.pages)
  {
    hide DiskOK, HeldNode, Ids, IdsOf, Stored, PageOf;
    var l, r, e := o.grown.l, o.grown.r, NodePage([], [0]);
    var y := Ids(l) + Ids(r);
    var (s1, id) := AppendNode(o.disk, e);
    var t := Node(id, [o.grown.sep], [l, r]);
    var s2 := Flush(s1, id, PageOf(t));
    AppendNodeBooks(y, o.disk, e);
    FlushBooks(y + multiset{id}, s1, id, PageOf(t));
    NodesThen(x, s, y, o.disk, y + multiset{id}, s1);
    NodesThen(x, s, y + multiset{id}, s1, y + multiset{id}, s2);
    PlacedStill(s, o.disk, s2, o.slot, o.isNew, v);
    IdsOfTwo(l, r);
    IdsOfNode(t);
    assert Ids(t) == y + multiset{id};
    ApartKept(x, s, y, o.disk);
    KidsBeside(id, [l, r], o.disk, s2.pages);
    PageOfNode(t);
    NodeStored(id, t.keys, t.kids, s2.pages);
  }

  lemma PageOfNode(t: Tree)
    requires t.Node?
    ensures PageOf(t) == NodePage(t.keys, KidIds(t.kids))
  {
  }

  // Trees stay stored when a page taken from the allocator is written.
  lemma KidsBeside(id: Ref, kids: seq<Tree>, s: Disk, pages1: map<Ref, Page>)
    requires Apart(IdsOf(kids), s) && AllStored(kids, s.pages)
    requires (id in s.pages ==> id in s.delNodes) && Others(multiset{id}, s.pages, pages1)
    ensures AllStored(kids, pages1)
  {
    hide Stored, IdsOf;
    forall p: Ref | p in IdsOf(kids) && p in s.pages
      ensures p in pages1 && pages1[p] == s.pages[p]
    {
      Owns(IdsOf(kids), s, p);
    }
    AllStoredFrame(kids, s.pages, pages1);
  }

  // The root's content gains one entry, or stays as it is.
  lemma SetContent(st: Store, k: Key, v: Value, limit: Key)
    requires TreeOK(st.root, st.disk.g.degree, limit) && 0 <= k < limit && Shaped(st.root, st.disk.g.degree) && GeometryOK(st.disk.g)
    ensures var o := Insert(st.root, k, v, st.disk);
            var es, es1 := Entries(st.root), Entries(SetKey(st, k, v).root);
            if o.isNew then Gains(es, es1, Entry(k, o.slot)) else es1 == es && Entry(k, o.slot) in es
  {
    hide DiskOK, HeldNode, HeldSlot, Insert;
    InsertContent(st.root, k, v, st.disk, Height(st.root), 0, limit);
    var g := Insert(st.root, k, v, st.disk).grown;
    if g.Two? {
      EntriesOfTwo(g.l, g.r);
    }
  }

  lemma GainsSlots(a: seq<Entry>, b: seq<Entry>, e: Entry)
    requires Gains(a, b, e)
    ensures multiset(SlotsOf(b)) == multiset(SlotsOf(a)) + multiset{e.slot}
    ensures forall x :: x in b <==> x in a || x == e
    ensures |b| == |a| + 1
  {
    var p: nat :| p <= |a| && b == InsertAt(a, p, e);
    var s := SlotsOf(a);
    assert SlotsOf(b) == s[..p] + [e.slot] + s[p..];
    assert s == s[..p] + s[p..];
    assert a == a[..p] + a[p..];
  }

  // set keeps the invariant.
  lemma SetInv(st: Store, k: Key, v: Value, limit: Key)
    requires Inv(st, limit) && 0 <= k < limit && Shaped(st.root, st.disk.g.degree) && GeometryOK(st.disk.g)
    ensures Inv(SetKey(st, k, v), limit)
  {
    hide DiskOK, Insert, SetKey, Entries, Ids, Stored, TreeOK, HeldNode, HeldSlot;
    var st1, o := SetKey(st, k, v), Insert(st.root, k, v, st.disk);
    SetTree(st, k, v, limit);
    SetDisk(st, k, v, limit);
    SetContent(st, k, v, limit);
    if o.isNew {
      GainsSlots(Entries(st.root), Entries(st1.root), Entry(k, o.slot));
      NewSlotHeld(Slots(st.root), st.disk, o.slot, st1.disk);
    } else {
      OldSlotHeld(Slots(st.root), st.disk, st1.disk, o.slot, v);
    }
  }

  lemma OldSlotHeld(x: multiset<Ref>, s: Disk, s1: Disk, slot: Ref, v: Value)
    requires ValuePlaced(s, s1, slot, false, v) && forall p: Ref :: HeldSlot(x, s, p) == 0
    ensures forall p: Ref :: HeldSlot(x, s1, p) == 0
  {
    forall p: Ref
      ensures HeldSlot(x, s1, p) == 0
    {
      assert HeldSlot(x, s, p) == 0;
    }
  }

  lemma NewSlotHeld(x: multiset<Ref>, s: Disk, slot: Ref, s1: Disk)
    requires SlotTaken(s, s1, slot) && forall p: Ref :: HeldSlot(x, s, p) == 0
    ensures forall p: Ref :: HeldSlot(x + multiset{slot}, s1, p) == 0
  {
    forall p: Ref
      ensures HeldSlot(x + multiset{slot}, s1, p) == 0
    {
      assert HeldSlot(x, s, p) == 0;
      assert HeldSlot(multiset{slot}, s1, p) == HeldSlot(multiset{}, s, p);
    }
  }

  // An entry of the tree is what routing finds.
  lemma Found(st: Store, k: Key, slot: Ref, limit: Key)
    requires TreeOK(st.root, st.disk.g.degree, limit)
    ensures Find(st.root, k) == Some(slot) <==> Entry(k, slot) in Entries(st.root)
  {
    FindIsMember(st.root, k, slot, st.disk.g.degree, Height(st.root), 0, limit);
  }

  // After set(k, v), get(k) is v and every other key reads as before.
  lemma SetGet(st: Store, k: Key, v: Value, limit: Key, k1: Key)
    requires Inv(st, limit) && 0 <= k < limit && Shaped(st.root, st.disk.g.degree) && GeometryOK(st.disk.g)
    ensures GetKey(SetKey(st, k, v), k1) == if k1 == k then Some(v) else GetKey(st, k1)
  {
    var st1, o := SetKey(st, k, v), Insert(st.root, k, v, st.disk);
    SetFacts(st, k, v, limit);
    hide DiskOK, Insert, SetKey, Entries, Ids, Stored, TreeOK, HeldNode, HeldSlot, Find, Inv;
    if k1 == k {
      Found(st1, k, o.slot, limit);
    } else {
      SetOther(st, st1, o, k, v, limit, k1);
    }
  }

  // What the lemmas above say about one set, in one place.
  lemma SetFacts(st: Store, k: Key, v: Value, limit: Key)
    requires Inv(st, limit) && 0 <= k < limit && Shaped(st.root, st.disk.g.degree) && GeometryOK(st.disk.g)
    ensures var st1, o := SetKey(st, k, v), Insert(st.root, k, v, st.disk);
            && Inv(st1, limit) && TreeOK(st.root, st.disk.g.degree, limit) && TreeOK(st1.root, st1.disk.g.degree, limit)
            && ValuePlaced(st.disk, st1.disk, o.slot, o.isNew, v)
            && (forall x :: x in Entries(st1.root) <==> x in Entries(st.root) || x == Entry(k, o.slot))
            && (!o.isNew ==> Entry(k, o.slot) in Entries(st.root))
            && |Entries(st1.root)| == |Entries(st.root)| + (if o.isNew then 1 else 0)
  {
    hide DiskOK, Insert, SetKey, Entries, Ids, Stored, TreeOK, HeldNode, HeldSlot;
    SetInv(st, k, v, limit);
    SetDisk(st, k, v, limit);
    SetContent(st, k, v, limit);
    var st1, o := SetKey(st, k, v), Insert(st.root, k, v, st.disk);
    if o.isNew {
      GainsSlots(Entries(st.root), Entries(st1.root), Entry(k, o.slot));
    }
  }

  lemma SetOther(st: Store, st1: Store, o: Placed, k: Key, v: Value, limit: Key, k1: Key)
    requires Inv(st, limit) && k1 != k && ValuePlaced(st.disk, st1.disk, o.slot, o.isNew, v)
    requires TreeOK(st.root, st.disk.g.degree, limit) && TreeOK(st1.root, st1.disk.g.degree, limit)
    requires forall x :: x in Entries(st1.root) <==> x in Entries(st.root) || x == Entry(k, o.slot)
    requires !o.isNew ==> Entry(k, o.slot) in Entries(st.root)
    ensures GetKey(st1, k1) == GetKey(st, k1)
  {
    hide DiskOK, Entries, Ids, Stored, TreeOK, HeldNode, HeldSlot, Find, Inv;
    var a, b := Find(st.root, k1), Find(st1.root, k1);
    if a.Some? { Found(st, k1, a.value, limit); Found(st1, k1, a.value, limit); }
    if b.Some? { Found(st, k1, b.value, limit); Found(st1, k1, b.value, limit); }
    if a.Some? {
      InvOwns(st, limit);
      if !o.isNew && a.value == o.slot {
        DistinctSlots(st, limit, Entry(k, o.slot), Entry(k1, a.value));
      }
    }
  }
}
