/** remove keeps the invariant of the store and takes exactly one key out of the stored map. */
module StoreRemoval {
  import opened Pages
  import opened Trees
  import opened Order
  import opened Accounts
  import opened Allocators
  import opened Ownership
  import opened Insertion
  import opened InsertionContent
  import opened InsertionDisk
  import opened InsertionStored
  import opened Removal
  import opened RemovalTree
  import opened RemovalContent
  import opened RemovalDisk
  import opened RemovalStored
  import opened Store
  import opened StoreSteps

  ghost predicate Ready(st: Store, limit: Key) {
    Inv(st, limit) && Shaped(st.root, st.disk.g.degree) && GeometryOK(st.disk.g)
  }

  // ----- shape -----

  lemma RemoveTree(st: Store, k: Key, limit: Key)
    requires Ready(st, limit)
    ensures TreeOK(RemoveKey(st, k).0.root, st.disk.g.degree, limit)
    ensures Height(st.root) - 1 <= Height(RemoveKey(st, k).0.root) <= Height(st.root)
  {
    hide DiskOK, HeldNode, HeldSlot, RemoveIn;
    var t, d, h := st.root, st.disk.g.degree, Height(st.root);
    if t.Leaf? {
      DropEntryWF(t, k, st.disk, d, 0, limit);
    } else {
      var i := FirstGT(t.keys, k);
      RemoveInWF(t, i, k, st.disk, h, 0, limit);
      var r := RemoveIn(t, i, k, st.disk);
      WFHeight(r.t, d, h, 0, limit);
      RemoveInContent(t, i, k, st.disk, h, 0, limit);
      if r.ok && |r.t.keys| == 0 {
        OnlyKid(r.t, d, h, limit);
      }
    }
  }

  // An internal root without keys has one child, which is a root in its own right.
  lemma OnlyKid(t: Tree, d: nat, h: nat, limit: Key)
    requires d >= 2 && t.Node? && WF(t, d, h, 0, limit) && |t.keys| == 0
    ensures |t.kids| == 1 && TreeOK(t.kids[0], d, limit) && Height(t.kids[0]) == h - 1
    ensures Entries(t) == Entries(t.kids[0]) && Ids(t) == Ids(t.kids[0]) + multiset{t.id}
  {
    assert WF(t.kids[0], d, h - 1, Lo(t.keys, 0, 0), Hi(t.keys, 0, limit));
    WFHeight(t.kids[0], d, h - 1, 0, limit);
    assert t.kids == [t.kids[0]];
    EntriesOfOne(t.kids[0]);
    IdsOfOne(t.kids[0]);
  }

  // ----- disk -----

  ghost predicate RemovedOK(st: Store, st1: Store, ok: bool, slot: Ref) {
    && DiskOK(st1.disk) && NodesKept(Ids(st.root), st.disk, Ids(st1.root), st1.disk)
    && SlotFreed(st.disk, st1.disk, ok, slot)
    && Stored(st1.root, st1.disk.pages) && st1.header == st1.root.id
  }

  lemma RemoveDisk(st: Store, k: Key, limit: Key)
    requires Ready(st, limit)
    ensures var (st1, ok) := RemoveKey(st, k);
            RemovedOK(st, st1, ok, RemoveRoot(st.root, k, st.disk).slot)
  {
    InvOwns(st, limit);
    var t := st.root;
    if t.Leaf? {
      RemoveLeafRoot(st, k, limit);
    } else {
      RemoveNodeRoot(st, k, limit);
    }
  }

  lemma RemoveLeafRoot(st: Store, k: Key, limit: Key)
    requires Ready(st, limit) && st.root.Leaf? && SlotsLive(st.root, st.disk)
    ensures var (st1, ok) := RemoveKey(st, k);
            RemovedOK(st, st1, ok, RemoveRoot(st.root, k, st.disk).slot)
  {
    hide DiskOK, HeldNode, HeldSlot;
    if Holds(st.root, k) {
      DropEntryBooks(Ids(st.root), st.root, k, st.disk);
      DropEntryPages(st.root, k, st.disk);
      var e := DropEntry(st.root, k, st.disk);
      assert RemoveKey(st, k).0 == Store(e.t, st.header, e.disk, st.saved);
      assert Ids(e.t) == Ids(st.root);
      assert DiskOK(e.disk);
      assert Stored(e.t, e.disk.pages);
    }
  }

  lemma RemoveNodeRoot(st: Store, k: Key, limit: Key)
    requires Ready(st, limit) && st.root.Node? && Apart(Ids(st.root), st.disk) && SlotsLive(st.root, st.disk)
    ensures var (st1, ok) := RemoveKey(st, k);
            RemovedOK(st, st1, ok, RemoveRoot(st.root, k, st.disk).slot)
  {
    hide DiskOK, HeldNode, HeldSlot, Ids, IdsOf, Entries, RemoveIn, Apart, Stored;
    var t, s, h := st.root, st.disk, Height(st.root);
    var i := FirstGT(t.keys, k);
    StoredRow(t, s.pages);
    RemoveInBooks(t, i, k, s, h, 0, limit);
    RemoveInStored(t, i, k, s, h, 0, limit);
    RemoveInContent(t, i, k, s, h, 0, limit);
    RemoveInWF(t, i, k, s, h, 0, limit);
    var r := RemoveIn(t, i, k, s);
    RootWritten(t, s, r);
    if r.ok && |r.t.keys| == 0 {
      OnlyKid(r.t, s.g.degree, h, limit);
      RootFreed(t, s, r, limit);
    }
  }

  lemma StoredRow(t: Tree, pages: map<Ref, Page>)
    requires t.Node? && Stored(t, pages)
    ensures AllStored(t.kids, pages) && t.id in pages
  {
  }

  // The root is written after its children.
  lemma RootWritten(t: Tree, s: Disk, r: Dropped)
    requires t.Node? && Apart(Ids(t), s) && t.id in s.pages && r.t.id == t.id
    requires DroppedOK(t, s, r) && RowStored(t, s, r.t, r.disk)
    ensures var s1 := Flush(r.disk, t.id, PageOf(r.t));
            && DroppedOK(t, s, r.(disk := s1)) && Stored(r.t, s1.pages) && AllStored(r.t.kids, s1.pages)
            && Apart(Ids(r.t), r.disk)
  {
    hide DiskOK, HeldNode, Ids, IdsOf, Apart, Stored, PageOf;
    var s1 := Flush(r.disk, t.id, PageOf(r.t));
    FlushBooks(Ids(r.t), r.disk, t.id, PageOf(r.t));
    NodesThen(Ids(t), s, Ids(r.t), r.disk, Ids(r.t), s1);
    ApartKept(Ids(t), s, Ids(r.t), r.disk);
    RootNotBelow(r.t, r.disk);
    AllStoredFrame(r.t.kids, r.disk.pages, s1.pages);
    PageOfNode(r.t);
    NodeStored(r.t.id, r.t.keys, r.t.kids, s1.pages);
  }

  lemma RootNotBelow(t: Tree, s: Disk)
    requires t.Node? && Apart(Ids(t), s)
    ensures t.id !in IdsOf(t.kids)
  {
    Owns(Ids(t), s, t.id);
  }

  // An empty root is freed; its only child stays stored.
  lemma RootFreed(t: Tree, s: Disk, r: Dropped, limit: Key)
    requires t.Node? && Apart(Ids(t), s) && r.t.Node? && |r.t.kids| == 1 && r.t.id == t.id
    requires var s1 := Flush(r.disk, t.id, PageOf(r.t));
             DroppedOK(t, s, r.(disk := s1)) && AllStored(r.t.kids, s1.pages) && Apart(Ids(r.t), r.disk)
    requires Ids(r.t) == Ids(r.t.kids[0]) + multiset{r.t.id}
    ensures var s2 := FreeNode(Flush(r.disk, t.id, PageOf(r.t)), t.id);
            && DroppedOK(t, s, Dropped(r.t.kids[0], r.ok, r.slot, s2)) && Stored(r.t.kids[0], s2.pages)
            && r.t.kids[0].id != t.id
  {
    hide DiskOK, HeldNode, Ids, IdsOf, Apart, Stored, PageOf;
    var c, s1 := r.t.kids[0], Flush(r.disk, t.id, PageOf(r.t));
    var s2 := FreeNode(s1, t.id);
    FreeNodeBooks(Ids(c), s1, t.id);
    NodesThen(Ids(t), s, Ids(r.t), s1, Ids(c), s2);
    RootNotBelow(r.t, r.disk);
    IdsWithin(r.t.kids, 0);
    OwnId(c);
    StoredFrame(c, s1.pages, s2.pages);
  }

  // ----- content -----

  lemma RemoveContent(st: Store, k: Key, limit: Key)
    requires Ready(st, limit)
    ensures var r := RemoveRoot(st.root, k, st.disk);
            && (if r.ok then Gains(Entries(r.t), Entries(st.root), Entry(k, r.slot)) else r.t == st.root)
            && r.ok == Find(st.root, k).Some?
  {
    hide DiskOK, HeldNode, HeldSlot, RemoveIn;
    var t, d, h := st.root, st.disk.g.degree, Height(st.root);
    if t.Leaf? {
      if Holds(t, k) {
        DropEntryContent(t, k, st.disk);
      }
    } else {
      var i := FirstGT(t.keys, k);
      RemoveInContent(t, i, k, st.disk, h, 0, limit);
      RemoveInWF(t, i, k, st.disk, h, 0, limit);
      var r := RemoveIn(t, i, k, st.disk);
      if r.ok && |r.t.keys| == 0 {
        OnlyKid(r.t, d, h, limit);
      }
    }
  }

  // remove keeps the invariant.
  lemma RemoveInv(st: Store, k: Key, limit: Key)
    requires Ready(st, limit)
    ensures Inv(RemoveKey(st, k).0, limit)
  {
    hide DiskOK, RemoveRoot, Entries, Ids, Stored, TreeOK, HeldNode, HeldSlot;
    RemoveTree(st, k, limit);
    RemoveDisk(st, k, limit);
    RemoveContent(st, k, limit);
    var (st1, ok) := RemoveKey(st, k);
    var r := RemoveRoot(st.root, k, st.disk);
    if ok {
      GainsSlots(Entries(st1.root), Entries(st.root), Entry(k, r.slot));
      assert Slots(st.root) == Slots(st1.root) + multiset{r.slot};
      FreedSlotHeld(Slots(st1.root), r.slot, st.disk, st1.disk);
    } else {
      KeptSlotsHeld(Slots(st.root), st.disk, st1.disk);
    }
  }

  lemma FreedSlotHeld(x: multiset<Ref>, slot: Ref, s: Disk, s1: Disk)
    requires SlotFreed(s, s1, true, slot) && forall p: Ref :: HeldSlot(x + multiset{slot}, s, p) == 0
    ensures forall p: Ref :: HeldSlot(x, s1, p) == 0
  {
    forall p: Ref
      ensures HeldSlot(x, s1, p) == 0
    {
      assert HeldSlot(x + multiset{slot}, s, p) == 0;
      assert multiset(s.delValues + [slot]) == multiset(s.delValues) + multiset{slot};
    }
  }

  lemma KeptSlotsHeld(x: multiset<Ref>, s: Disk, s1: Disk)
    requires s1.values == s.values && s1.delValues == s.delValues && forall p: Ref :: HeldSlot(x, s, p) == 0
    ensures forall p: Ref :: HeldSlot(x, s1, p) == 0
  {
    forall p: Ref
      ensures HeldSlot(x, s1, p) == 0
    {
      assert HeldSlot(x, s, p) == 0;
    }
  }

  lemma RemoveFacts(st: Store, k: Key, limit: Key)
    requires Ready(st, limit)
    ensures var (st1, ok) := RemoveKey(st, k); var slot := RemoveRoot(st.root, k, st.disk).slot;
            && Inv(st1, limit) && TreeOK(st.root, st.disk.g.degree, limit) && TreeOK(st1.root, st1.disk.g.degree, limit)
            && SlotFreed(st.disk, st1.disk, ok, slot)
            && ok == Find(st.root, k).Some?
            && (if ok then Gains(Entries(st1.root), Entries(st.root), Entry(k, slot)) else st1.root == st.root)
  {
    RemoveInv(st, k, limit);
    RemoveDisk(st, k, limit);
    RemoveContent(st, k, limit);
  }

  // After remove(k), get(k) finds nothing and every other key reads as before; the result
  // says whether k was there.
  lemma RemoveGet(st: Store, k: Key, limit: Key, k1: Key)
    requires Ready(st, limit)
    ensures GetKey(RemoveKey(st, k).0, k1) == if k1 == k then None else GetKey(st, k1)
    ensures RemoveKey(st, k).1 == GetKey(st, k).Some?
  {
    hide DiskOK, RemoveRoot, RemoveKey, Entries, Ids, Stored, TreeOK, HeldNode, HeldSlot, Find, Inv;
    RemoveFacts(st, k, limit);
    InvOwns(st, limit);
    var (st1, ok) := RemoveKey(st, k);
    var slot := RemoveRoot(st.root, k, st.disk).slot;
    FindLive(st, k, limit);
    if ok {
      GainsSlots(Entries(st1.root), Entries(st.root), Entry(k, slot));
      var a, b := Find(st.root, k1), Find(st1.root, k1);
      if a.Some? { Found(st, k1, a.value, limit); Found(st1, k1, a.value, limit); }
      if b.Some? { Found(st, k1, b.value, limit); Found(st1, k1, b.value, limit); }
      RootInOrder(st, limit);
      OneEntry(Entries(st1.root), Entries(st.root), Entry(k, slot), 0, limit);
    }
  }

  lemma RootInOrder(st: Store, limit: Key)
    requires TreeOK(st.root, st.disk.g.degree, limit)
    ensures InOrder(Entries(st.root), 0, limit)
  {
    ContentInOrder(st.root, st.disk.g.degree, Height(st.root), 0, limit);
  }

  lemma FindLive(st: Store, k: Key, limit: Key)
    requires Inv(st, limit)
    ensures GetKey(st, k).Some? == Find(st.root, k).Some?
  {
    hide DiskOK, Entries, Ids, Stored, HeldNode, HeldSlot, Find;
    InvOwns(st, limit);
    var a := Find(st.root, k);
    if a.Some? { Found(st, k, a.value, limit); }
  }

  // The removed entry was the only one for its key.
  lemma OneEntry(a: seq<Entry>, b: seq<Entry>, e: Entry, lo: Key, hi: Key)
    requires InOrder(b, lo, hi) && Gains(a, b, e)
    ensures forall x :: x in a ==> x.key != e.key
  {
    var p: nat :| p <= |a| && b == InsertAt(a, p, e);
    forall x | x in a
      ensures x.key != e.key
    {
      var q :| 0 <= q < |a| && a[q] == x;
      assert b[p] == e && b[if q < p then q else q + 1] == x;
    }
  }

  // ----- the stored map -----

  lemma SetMeans(st: Store, k: Key, v: Value, m: map<Key, Value>, limit: Key)
    requires Ready(st, limit) && 0 <= k < limit && Means(st, m)
    ensures Inv(SetKey(st, k, v), limit) && Means(SetKey(st, k, v), m[k := v])
  {
    SetInv(st, k, v, limit);
    forall k1: Key
      ensures GetKey(SetKey(st, k, v), k1) == if k1 in m[k := v] then Some(m[k := v][k1]) else None
    {
      SetGet(st, k, v, limit, k1);
    }
  }

  lemma RemoveMeans(st: Store, k: Key, m: map<Key, Value>, limit: Key)
    requires Ready(st, limit) && Means(st, m)
    ensures var (st1, ok) := RemoveKey(st, k); Inv(st1, limit) && Means(st1, m - {k}) && ok == (k in m)
  {
    RemoveInv(st, k, limit);
    var st1 := RemoveKey(st, k).0;
    RemoveGet(st, k, limit, k);
    forall k1: Key
      ensures GetKey(st1, k1) == if k1 in m - {k} then Some((m - {k})[k1]) else None
    {
      RemoveGet(st, k, limit, k1);
    }
  }
}
