/** The whole store: a root, the root named by the header page, and the disk. Every
    operation keeps the invariant and does to the stored map what its name says. */
module Store {
  import opened Pages
  import opened Trees
  import opened Order
  import opened Accounts
  import opened Ownership
  import opened Insertion
  import opened InsertionDisk
  import opened Removal

  // header and saved are the root and the value cursor that the header page on disk names.
  datatype Store = Store(root: Tree, header: Ref, disk: Disk, saved: Ref)

  function Height(t: Tree): nat {
    if t.Node? && t.kids != [] then 1 + Height(t.kids[0]) else 0
  }

  lemma {:induction false} WFHeight(t: Tree, d: nat, h: nat, lo: Key, hi: Key)
    requires WF(t, d, h, lo, hi)
    ensures Height(t) == h
    decreases h
  {
    if t.Node? {
      assert WF(t.kids[0], d, h - 1, Lo(t.keys, 0, lo), Hi(t.keys, 0, hi));
      WFHeight(t.kids[0], d, h - 1, Lo(t.keys, 0, lo), Hi(t.keys, 0, hi));
    }
  }

  // A search tree over keys below limit whose root, if internal, has at least one key.
  ghost predicate TreeOK(t: Tree, d: nat, limit: Key) {
    WF(t, d, Height(t), 0, limit) && (t.Node? ==> |t.keys| >= 1)
  }

  ghost predicate Inv(st: Store, limit: Key) {
    && DiskOK(st.disk)
    && TreeOK(st.root, st.disk.g.degree, limit)
    && Stored(st.root, st.disk.pages)
    && st.header == st.root.id
    // every node page is in the tree or on the free stack, and no page twice
    && (forall p: Ref :: HeldNode(Ids(st.root), st.disk, p) == 0)
    // every issued slot holds the value of one key or is on the free stack, and no slot twice
    && (forall p: Ref :: HeldSlot(Slots(st.root), st.disk, p) == 0)
  }

  // ----- the operations; a new root has the header page written, with the cursor of that moment -----

  ghost function SetKey(st: Store, k: Key, v: Value): Store
    requires Shaped(st.root, st.disk.g.degree) && GeometryOK(st.disk.g)
  {
    var (t, o) := InsertRoot(st.root, k, v, st.disk);
    if o.grown.Two? then Store(t, t.id, o.disk, o.disk.cursor) else Store(t, st.header, o.disk, st.saved)
  }

  ghost function RemoveKey(st: Store, k: Key): (Store, bool)
    requires Shaped(st.root, st.disk.g.degree) && GeometryOK(st.disk.g)
  {
    var r := RemoveRoot(st.root, k, st.disk);
    if r.ok && r.t.id != st.root.id then (Store(r.t, r.t.id, r.disk, r.disk.cursor), r.ok)
    else (Store(r.t, st.header, r.disk, st.saved), r.ok)
  }

  ghost function GetKey(st: Store, k: Key): Option<Value> {
    var slot := Find(st.root, k);
    if slot.Some? && slot.value in st.disk.values then Some(st.disk.values[slot.value]) else None
  }

  // st stores exactly the map m.
  ghost predicate Means(st: Store, m: map<Key, Value>) {
    forall k: Key :: GetKey(st, k) == (if k in m then Some(m[k]) else None)
  }

  // The cursor in the header page was the cursor of some moment.
  ghost predicate HeaderOK(st: Store) {
    st.saved == 0 || st.saved in st.disk.values
  }

  // ----- the invariant gives every operation what it needs -----

  lemma InvShaped(st: Store, limit: Key)
    requires Inv(st, limit)
    ensures Shaped(st.root, st.disk.g.degree) && GeometryOK(st.disk.g)
  {
    WFShaped(st.root, st.disk.g.degree, Height(st.root), 0, limit);
  }

  lemma InvOwns(st: Store, limit: Key)
    requires Inv(st, limit)
    ensures Apart(Ids(st.root), st.disk)
    ensures SlotsLive(st.root, st.disk)
    ensures forall e :: e in Entries(st.root) ==> e.slot !in st.disk.delValues
  {
    hide DiskOK, Ids;
    var es := Entries(st.root);
    forall e | e in es
      ensures e.slot in st.disk.values && e.slot !in st.disk.delValues
    {
      var i :| 0 <= i < |es| && es[i] == e;
      assert SlotsOf(es)[i] == e.slot;
      assert HeldSlot(Slots(st.root), st.disk, e.slot) == 0;
    }
  }

  // Distinct entries have distinct slots.
  lemma DistinctSlots(st: Store, limit: Key, e: Entry, e1: Entry)
    requires Inv(st, limit) && e in Entries(st.root) && e1 in Entries(st.root) && e.slot == e1.slot
    ensures e == e1
  {
    hide DiskOK, Ids;
    var es := Entries(st.root);
    var ss := SlotsOf(es);
    var i :| 0 <= i < |es| && es[i] == e;
    var j :| 0 <= j < |es| && es[j] == e1;
    assert HeldSlot(Slots(st.root), st.disk, e.slot) == 0;
    if i != j {
      Twice(ss, i, j);
    }
  }

  lemma Twice(s: seq<Ref>, i: nat, j: nat)
    requires i < |s| && j < |s| && i != j && s[i] == s[j]
    ensures multiset(s)[s[i]] >= 2
  {
    var a, b := if i < j then i else j, if i < j then j else i;
    assert s == s[..a] + [s[a]] + s[a + 1..b] + [s[b]] + s[b + 1..];
  }
}
