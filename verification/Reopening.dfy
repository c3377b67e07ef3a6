/** Opening a store again from its files: what it answers, and what happens to it when it is
    changed with the value cursor that the header page names. */
module Reopening {
  import opened Pages
  import opened Trees
  import opened Order
  import opened Accounts
  import opened Allocators
  import opened Insertion
  import opened Store
  import opened StoreSteps
  import opened StoreRemoval
  import opened Runs

  // ----- reading -----

  // What the descent finds when it starts from a page on disk, as after opening the file.
  function DiskFind(pages: map<Ref, Page>, id: Ref, k: Key, depth: nat): Option<Ref>
    decreases depth
  {
    if id !in pages then None
    else match pages[id]
      case LeafPage(keys, refs) =>
        var i := FirstGE(keys, k);
        if i < |keys| && i < |refs| && keys[i] == k then Some(refs[i]) else None
      case NodePage(keys, refs) =>
        var i := FirstGT(keys, k);
        if depth > 0 && i < |refs| then DiskFind(pages, refs[i], k, depth - 1) else None
      case FreePage => None
  }

  // What get and exist return then.
  function DiskGet(pages: map<Ref, Page>, values: map<Ref, Value>, id: Ref, k: Key, depth: nat): Option<Value> {
    var slot := DiskFind(pages, id, k, depth);
    if slot.Some? && slot.value in values then Some(values[slot.value]) else None
  }

  function DiskExist(pages: map<Ref, Page>, id: Ref, k: Key, depth: nat): bool {
    DiskFind(pages, id, k, depth).Some?
  }

  // Any depth from the height on makes no difference.
  lemma {:induction false} DiskFindIsFind(t: Tree, pages: map<Ref, Page>, k: Key, d: nat, h: nat, lo: Key, hi: Key, depth: nat)
    requires Stored(t, pages) && WF(t, d, h, lo, hi) && depth >= h
    ensures DiskFind(pages, t.id, k, depth) == Find(t, k)
    decreases h
  {
    if t.Node? {
      var i := FirstGT(t.keys, k);
      assert KidIds(t.kids)[i] == t.kids[i].id;
      DiskFindIsFind(t.kids[i], pages, k, d, h - 1, Lo(t.keys, i, lo), Hi(t.keys, i, hi), depth - 1);
    }
  }

  // At the end of every run the pages and values alone, read from the header's root, answer get
  // and exist as the plain map does.
  lemma RunReopened(g: Geometry, ops: seq<Op>, sts: seq<Store>, rs: seq<Result>, limit: Key, k: Key, depth: nat)
    requires GeometryOK(g) && Allowed(ops, limit) && IsRun(g, ops, sts, rs) && depth >= Height(sts[|ops|].root)
    ensures var (st, m) := (sts[|ops|], MapRun(map[], ops).0);
            && DiskGet(st.disk.pages, st.disk.values, st.header, k, depth) == (if k in m then Some(m[k]) else None)
            && DiskExist(st.disk.pages, st.header, k, depth) == (k in m)
  {
    hide Step, New, Shaped, GeometryOK, DiskOK, HeldNode, HeldSlot, WF, Stored, DiskFind, Find, Height;
    RunRefinesMap(g, ops, sts, rs, limit);
    var st, m := sts[|ops|], MapRun(map[], ops).0;
    DiskFindIsFind(st.root, st.disk.pages, k, st.disk.g.degree, Height(st.root), 0, limit, depth);
    FindLive(st, k, limit);
    assert GetKey(st, k) == if k in m then Some(m[k]) else None;
  }

  // ----- changing -----

  // The store after opening it again: pages, values, free stacks and root are those on disk, and
  // the cursor is the one in the header page.
  ghost function Reopened(st: Store): Store {
    st.(disk := st.disk.(cursor := st.saved))
  }

  // The header's cursor is behind, and not at the last slot of its page.
  ghost predicate Lagging(st: Store) {
    && st.disk.g.span > 0
    && st.saved != 0 && st.saved != st.disk.cursor && st.saved % st.disk.g.span + 1 != st.disk.g.slots
  }

  // Besides, no freed slot is left, so that the very next value comes after that cursor.
  ghost predicate Stale(st: Store) {
    Lagging(st) && st.disk.delValues == []
  }

  // How an insertion chose the slot s1.
  ghost predicate Chosen(s: Disk, slot: Ref) requires s.g.span > 0 {
    exists n: nat :: n >= s.filePages && slot == TakeSlot(s.(filePages := n)).1
  }

  // What an insertion does to the free slots and the cursor.
  ghost predicate SlotStep(s: Disk, s1: Disk, slot: Ref, isNew: bool) requires s.g.span > 0 {
    if !isNew then s1.delValues == s.delValues && s1.cursor == s.cursor
    else if s.delValues != [] then
      var n := |s.delValues| - 1;
      slot == s.delValues[n] && s1.delValues == s.delValues[..n] && s1.cursor == s.cursor
    else s1.delValues == [] && s1.cursor == slot && Chosen(s, slot)
  }

  // An insertion writes exactly one value; a new key's slot is the next one of the allocator.
  lemma {:induction false} InsertValue(t: Tree, k: Key, v: Value, s: Disk)
    requires Shaped(t, s.g.degree) && GeometryOK(s.g)
    ensures var o := Insert(t, k, v, s);
            && o.disk.values == s.values[o.slot := v] && (o.isNew ==> Chosen(s, o.slot))
            && SlotStep(s, o.disk, o.slot, o.isNew)
  {
    hide Widen, LeafInsert, Chosen, FirstGT;
    if t.Leaf? {
      LeafInsertValue(t, k, v, s);
    } else {
      var i := FirstGT(t.keys, k);
      InsertValue(t.kids[i], k, v, s);
      var o := Insert(t.kids[i], k, v, s);
      if o.grown.Two? {
        WidenValue(t, i, o.grown.l, o.grown.sep, o.grown.r, o.disk);
      }
    }
  }

  lemma WidenValue(t: Tree, i: nat, l: Tree, sep: Key, r: Tree, s: Disk)
    requires t.Node? && |t.kids| == |t.keys| + 1 && i < |t.kids| && |t.keys| <= 2 * s.g.degree - 1 && s.g.degree >= 2
    ensures SameValues(s, Widen(t, i, l, sep, r, s).1)
  {
    hide InsertAt, FirstGT, NodeCut;
  }

  lemma LeafInsertValue(t: Tree, k: Key, v: Value, s: Disk)
    requires t.Leaf? && |t.items| <= 2 * s.g.degree - 1 && GeometryOK(s.g)
    ensures var o := LeafInsert(t, k, v, s);
            && o.disk.values == s.values[o.slot := v] && (o.isNew ==> Chosen(s, o.slot))
            && SlotStep(s, o.disk, o.slot, o.isNew)
  {
    hide InsertAt, FirstGE, KeysOf, SlotsOf, LeafCut;
    var o := LeafInsert(t, k, v, s);
    if o.isNew {
      var n := if o.grown.One? then s.filePages else AppendNode(s, LeafPage([], [])).0.filePages;
      assert n >= s.filePages && o.slot == TakeSlot(s.(filePages := n)).1;
    }
  }

  // Setting an absent key in the store opened again: its slot is in use exactly if the cursor is stale.
  lemma ReopenedSlot(st: Store, slot: Ref, limit: Key)
    requires Inv(st, limit) && Issued(st.disk) && HeaderOK(st) && st.disk.g.span > 0 && Chosen(Reopened(st).disk, slot)
    ensures (exists e :: e in Entries(st.root) && e.slot == slot) <==> Stale(st)
  {
    hide TreeOK, Stored, HeldNode, Entries, Issued, CursorOK, Covered, Ids;
    var s, c := st.disk, st.saved;
    var n: nat :| n >= s.filePages && slot == TakeSlot(s.(cursor := c, filePages := n)).1;
    InvOwns(st, limit);
    if s.delValues == [] {
      StaleCursor(s, c);
      InUse(st, slot, limit);
      AtLeast(s.filePages, n, s.g.span);
      if c == 0 || c % s.g.span + 1 == s.g.slots {
        assert slot == n * s.g.span;
      } else {
        assert slot == TakeSlot(s.(cursor := c)).1;
      }
    } else {
      assert slot in s.delValues;
    }
  }

  lemma AtLeast(a: nat, b: nat, c: nat)
    requires a <= b
    ensures a * c <= b * c
  {
    MulMono(a, b, c);
  }

  // While no slot is freed, the issued slots are those of the entries.
  lemma InUse(st: Store, slot: Ref, limit: Key)
    requires Inv(st, limit) && st.disk.delValues == []
    ensures slot in st.disk.values <==> exists e :: e in Entries(st.root) && e.slot == slot
  {
    hide DiskOK, TreeOK, Stored, HeldNode, Entries;
    var es := Entries(st.root);
    assert HeldSlot(Slots(st.root), st.disk, slot) == 0;
    if slot in st.disk.values {
      var i :| 0 <= i < |es| && SlotsOf(es)[i] == slot;
      assert es[i] in es;
    }
    forall e | e in es && e.slot == slot
      ensures slot in st.disk.values
    {
      var i :| 0 <= i < |es| && es[i] == e;
      assert SlotsOf(es)[i] == slot;
    }
  }

  // What every other key reads after an absent key has been set in the store opened again.
  lemma ReopenedSet(st: Store, k: Key, v: Value, limit: Key, k1: Key)
    requires Ready(st, limit) && 0 <= k < limit && GetKey(st, k) == None && k1 != k
    ensures var slot := Insert(st.root, k, v, Reopened(st).disk).slot;
            && Chosen(Reopened(st).disk, slot)
            && GetKey(SetKey(Reopened(st), k, v), k1) == (if Find(st.root, k1) == Some(slot) then Some(v) else GetKey(st, k1))
  {
    hide DiskOK, Entries, Ids, Stored, HeldNode, HeldSlot, TreeOK, Find, Insert, Shaped, GeometryOK;
    var r := Reopened(st);
    var o, r1 := Insert(st.root, k, v, r.disk), SetKey(r, k, v);
    SetTree(r, k, v, limit);
    SetContent(r, k, v, limit);
    InsertValue(st.root, k, v, r.disk);
    RootValue(r, k, v);
    InvOwns(st, limit);
    if !o.isNew {
      Found(st, k, o.slot, limit);
    }
    GainsSlots(Entries(st.root), Entries(r1.root), Entry(k, o.slot));
    var a, b := Find(st.root, k1), Find(r1.root, k1);
    if a.Some? { Found(st, k1, a.value, limit); Found(r1, k1, a.value, limit); }
    if b.Some? { Found(st, k1, b.value, limit); Found(r1, k1, b.value, limit); }
  }

  lemma RootValue(st: Store, k: Key, v: Value)
    requires Shaped(st.root, st.disk.g.degree) && GeometryOK(st.disk.g)
    ensures var (st1, o) := (SetKey(st, k, v), Insert(st.root, k, v, st.disk)); SameValues(o.disk, st1.disk) && st1.disk.g == st.disk.g
  {
    hide Insert, Shaped;
  }

  // The first set of an absent key in the store opened again changes what some other key reads,
  // for some new value, exactly if the cursor is stale.
  lemma ReopenedOverwrites(st: Store, k: Key, limit: Key)
    requires Ready(st, limit) && Issued(st.disk) && HeaderOK(st) && 0 <= k < limit && GetKey(st, k) == None
    ensures (exists v: Value, k1: Key :: k1 != k && GetKey(SetKey(Reopened(st), k, v), k1) != GetKey(st, k1)) <==> Stale(st)
  {
    hide DiskOK, Issued, Entries, Ids, Stored, HeldNode, HeldSlot, TreeOK, Find, Insert, Shaped, SetKey, GetKey, Chosen;
    if Stale(st) {
      Overwritten(st, k, limit);
    }
    forall v: Value, k1: Key | k1 != k && GetKey(SetKey(Reopened(st), k, v), k1) != GetKey(st, k1)
      ensures Stale(st)
    {
      ReopenedSet(st, k, v, limit, k1);
      var slot := Insert(st.root, k, v, Reopened(st).disk).slot;
      ReopenedSlot(st, slot, limit);
      InvTree(st, limit);
      Found(st, k1, slot, limit);
      assert Entry(k1, slot).slot == slot;
    }
  }

  // So it is at the end of every run.
  lemma RunOverwrites(g: Geometry, ops: seq<Op>, sts: seq<Store>, rs: seq<Result>, limit: Key, k: Key)
    requires GeometryOK(g) && Allowed(ops, limit) && IsRun(g, ops, sts, rs)
    requires 0 <= k < limit && k !in MapRun(map[], ops).0
    ensures var st := sts[|ops|];
            && Ready(st, limit)
            && ((exists v: Value, k1: Key :: k1 != k && GetKey(SetKey(Reopened(st), k, v), k1) != GetKey(st, k1)) <==> Stale(st))
  {
    hide Step, New, Shaped, GeometryOK, Inv, Issued, HeaderOK, GetKey, SetKey, Stale;
    RunRefinesMap(g, ops, sts, rs, limit);
    RunReady(g, ops, sts, rs, limit, |ops|);
    RunHeader(g, ops, sts, rs, limit, |ops|);
    var st, m := sts[|ops|], MapRun(map[], ops).0;
    assert GetKey(st, k) == None;
    ReopenedOverwrites(st, k, limit);
  }

  lemma InvTree(st: Store, limit: Key)
    requires Inv(st, limit)
    ensures TreeOK(st.root, st.disk.g.degree, limit) && st.disk.g.span > 0
  {
  }

  // The key whose slot is taken reads the new value.
  lemma Overwritten(st: Store, k: Key, limit: Key)
    requires Ready(st, limit) && Issued(st.disk) && HeaderOK(st) && 0 <= k < limit && GetKey(st, k) == None && Stale(st)
    ensures exists v: Value, k1: Key :: k1 != k && GetKey(SetKey(Reopened(st), k, v), k1) != GetKey(st, k1)
  {
    hide DiskOK, Issued, Entries, Ids, Stored, HeldNode, HeldSlot, TreeOK, Find, Insert, Shaped, SetKey, Chosen;
    ReopenedSet(st, k, "", limit, k + 1);
    var slot := Insert(st.root, k, "", Reopened(st).disk).slot;
    ReopenedSlot(st, slot, limit);
    InvTree(st, limit);
    InvOwns(st, limit);
    var e :| e in Entries(st.root) && e.slot == slot;
    assert Entry(e.key, slot) == e;
    Found(st, e.key, slot, limit);
    var old1 := GetKey(st, e.key);
    var v := old1.value + "x";
    ReopenedSet(st, k, v, limit, e.key);
    SameSlot(st, k, "", v, slot);
    assert GetKey(SetKey(Reopened(st), k, v), e.key) == Some(v) != old1;
  }

  // A stale cursor leaves no choice of the slot.
  lemma SameSlot(st: Store, k: Key, v: Value, v1: Value, slot: Ref)
    requires Shaped(st.root, st.disk.g.degree) && GeometryOK(st.disk.g) && Stale(st) && Chosen(Reopened(st).disk, slot)
    requires Chosen(Reopened(st).disk, Insert(st.root, k, v1, Reopened(st).disk).slot)
    ensures Insert(st.root, k, v1, Reopened(st).disk).slot == slot
  {
    hide Insert, Shaped;
  }

  // ----- a run after which the cursor is stale -----

  // A key above all others joins a root leaf that has room.
  lemma AppendedToRoot(st: Store, k: Key, v: Value)
    requires st.root.Leaf? && |st.root.items| < 2 * st.disk.g.degree - 1 && GeometryOK(st.disk.g)
    requires Sorted(KeysOf(st.root.items)) && forall e :: e in st.root.items ==> e.key < k
    ensures Shaped(st.root, st.disk.g.degree)
    ensures var (s, slot) := NewValue(st.disk, v); var t := Leaf(st.root.id, st.root.items + [Entry(k, slot)]);
            SetKey(st, k, v) == Store(t, st.header, Flush(s, t.id, PageOf(t)), st.saved) && Sorted(KeysOf(t.items))
  {
    hide NewValue, Flush, PageOf;
    var ks, n := KeysOf(st.root.items), |st.root.items|;
    assert forall i :: 0 <= i < n ==> st.root.items[i] in st.root.items;
    FirstGEIs(ks, k, n);
    assert InsertAt(st.root.items, n, Entry(k, NewValue(st.disk, v).1)) == st.root.items + [Entry(k, NewValue(st.disk, v).1)];
  }

  // A key above all others splits a full root leaf: the header page is written.
  lemma RootLeafSplit(st: Store, k: Key, v: Value)
    requires st.root.Leaf? && |st.root.items| == 2 * st.disk.g.degree - 1 && GeometryOK(st.disk.g)
    requires Sorted(KeysOf(st.root.items)) && (forall e :: e in st.root.items ==> e.key < k) && st.disk.delNodes == []
    ensures Shaped(st.root, st.disk.g.degree)
    ensures var d, n, p := st.disk.g.degree, st.disk.filePages, st.disk.g.span;
            var (s, slot) := NewValue(AppendNode(st.disk, LeafPage([], [])).0, v);
            var (l, r) := (Leaf(st.root.id, st.root.items[..d]), Leaf(n * p, st.root.items[d..] + [Entry(k, slot)]));
            var st1 := SetKey(st, k, v);
            && st1.root.Node? && st1.root.keys == [r.items[0].key] && st1.root.kids == [l, r]
            && st1.saved == st1.disk.cursor == s.cursor && st1.disk.delValues == s.delValues && st1.disk.delNodes == s.delNodes
            && st1.disk.g == st.disk.g
  {
    hide NewValue, PageOf, TakeSlot, WriteValue;
    var ks, d, m := KeysOf(st.root.items), st.disk.g.degree, |st.root.items|;
    assert forall i :: 0 <= i < m ==> st.root.items[i] in st.root.items;
    FirstGEIs(ks, k, m);
    var (s0, rid) := AppendNode(st.disk, LeafPage([], []));
    NewValueKeeps(s0, v);
    var e := Entry(k, NewValue(s0, v).1);
    var items := InsertAt(st.root.items, m, e);
    assert items == st.root.items + [e];
    assert items[..d] == st.root.items[..d] && items[d..] == st.root.items[d..] + [e];
  }

  lemma NewValueKeeps(s: Disk, v: Value)
    requires s.g.span > 0
    ensures var s1 := NewValue(s, v).0; s1.g == s.g && s1.delNodes == s.delNodes
  {
  }

  ghost predicate AfterFive(st: Store) {
    && st.disk.g == Geometry(2, 8, 8) && st.saved == 11 && st.disk.cursor == 12 && st.disk.delValues == []
    && st.root.Node? && st.root.keys == [3] && |st.root.kids| == 2 && Shaped(st.root, 2)
    && st.root.kids[1].Leaf? && st.root.kids[1].items == [Entry(3, 10), Entry(4, 11), Entry(5, 12)]
  }

  // Five sets with ascending keys, degree 2 and eight values to a page: the fourth one splits the
  // root and has the header page written; the fifth one issues a slot after that.
  lemma StaleRun(v: Value, limit: Key) returns (sts: seq<Store>, rs: seq<Result>)
    requires limit > 5
    ensures var ops := [Op.Set(1, v), Op.Set(2, v), Op.Set(3, v), Op.Set(4, v), Op.Set(5, v)];
            IsRun(Geometry(2, 8, 8), ops, sts, rs) && Stale(sts[5]) && AfterFive(sts[5])
  {
    hide SetKey, Shaped, AppendNode, NewValue;
    var g := Geometry(2, 8, 8);
    var ops := [Op.Set(1, v), Op.Set(2, v), Op.Set(3, v), Op.Set(4, v), Op.Set(5, v)];
    sts, rs := RunExists(g, ops, limit);
    Steps(g, ops, sts, rs);
    FirstThree(g, sts[0], sts[1], sts[2], sts[3], v);
    assert forall i :: 0 <= i < 5 ==> ops[i] == Op.Set(i + 1, v) && sts[i + 1] == SetKey(sts[i], i + 1, v);
    RootLeafSplit(sts[3], 4, v);
    FourthSlot(sts[3].disk, v);
    assert sts[3].root.items[2..] + [Entry(4, 11)] == [Entry(3, 10), Entry(4, 11)];
    FifthSet(sts[4], v);
    RunReady(g, ops, sts, rs, limit, 5);
  }

  lemma FirstThree(g: Geometry, st0: Store, st1: Store, st2: Store, st3: Store, v: Value)
    requires g == Geometry(2, 8, 8) && st0 == New(g)
    requires Shaped(st0.root, 2) && st1 == SetKey(st0, 1, v)
    requires Shaped(st1.root, st1.disk.g.degree) && GeometryOK(st1.disk.g) && st2 == SetKey(st1, 2, v)
    requires Shaped(st2.root, st2.disk.g.degree) && GeometryOK(st2.disk.g) && st3 == SetKey(st2, 3, v)
    ensures st3.root == Leaf(0, [Entry(1, 8), Entry(2, 9), Entry(3, 10)])
    ensures st3.disk.cursor == 10 && st3.disk.delValues == [] && st3.disk.delNodes == [] && st3.disk.g == g
  {
    hide SetKey, Shaped;
    assert st0.root == Leaf(0, []) && st0.disk.filePages == 1;
    AppendedToRoot(st0, 1, v);
    assert st1.root == Leaf(0, [Entry(1, 8)]) && st1.disk.cursor == 8;
    AppendedToRoot(st1, 2, v);
    assert st2.root == Leaf(0, [Entry(1, 8), Entry(2, 9)]) && st2.disk.cursor == 9;
    AppendedToRoot(st2, 3, v);
  }

  lemma FourthSlot(s: Disk, v: Value)
    requires s.g == Geometry(2, 8, 8) && s.delNodes == [] && s.delValues == [] && s.cursor == 10
    ensures var (s1, slot) := NewValue(AppendNode(s, LeafPage([], [])).0, v);
            slot == s1.cursor == 11 && s1.delValues == []
  {
  }

  lemma FifthSet(st: Store, v: Value)
    requires st.disk.g == Geometry(2, 8, 8) && st.disk.delValues == [] && st.disk.cursor == st.saved == 11
    requires st.root.Node? && st.root.keys == [3] && |st.root.kids| == 2
    requires st.root.kids[1].Leaf? && st.root.kids[1].items == [Entry(3, 10), Entry(4, 11)] && Shaped(st.root, 2)
    ensures Stale(SetKey(st, 5, v))
    ensures Shaped(SetKey(st, 5, v).root, 2) ==> AfterFive(SetKey(st, 5, v))
  {
    hide Flush, WriteValue, Shaped;
    var t, c := st.root, st.root.kids[1];
    assert FirstGT(t.keys, 5) == 1;
    assert Sorted(KeysOf(c.items));
    FirstGEIs(KeysOf(c.items), 5, 2);
    LeafShaped(t, 1);
    var o := Insert(t, 5, v, st.disk);
    assert Insert(c, 5, v, st.disk) == LeafInsert(c, 5, v, st.disk);
    assert o.isNew && o.grown.One?;
    InsertValue(t, 5, v, st.disk);
    var n: nat :| n >= st.disk.filePages && o.slot == TakeSlot(st.disk.(filePages := n)).1;
    assert o.slot == 12;
    assert InsertAt(c.items, 2, Entry(5, 12)) == [Entry(3, 10), Entry(4, 11), Entry(5, 12)];
  }

  lemma LeafShaped(t: Tree, i: nat)
    requires t.Node? && Shaped(t, 2) && i < |t.kids|
    ensures Shaped(t.kids[i], 2)
  {
  }

  lemma Steps(g: Geometry, ops: seq<Op>, sts: seq<Store>, rs: seq<Result>)
    requires IsRun(g, ops, sts, rs)
    ensures forall i :: 0 <= i < |ops| && ops[i].Set? ==>
              && Shaped(sts[i].root, sts[i].disk.g.degree) && GeometryOK(sts[i].disk.g)
              && sts[i + 1] == SetKey(sts[i], ops[i].key, ops[i].value)
  {
    hide SetKey, New, Shaped;
    forall i | 0 <= i < |ops| && ops[i].Set?
      ensures sts[i + 1] == SetKey(sts[i], ops[i].key, ops[i].value)
    {
      assert Step(sts[i], ops[i]) == (sts[i + 1], rs[i]);
    }
  }
}
