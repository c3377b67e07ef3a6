/** A store opened again and run on. It goes on as the map it stores exactly if the cursor of its
    header page is not lagging; if it is, one set of a new key more than there are freed slots
    makes two keys share a slot. */
module Continuing {
  import opened Pages
  import opened Trees
  import opened Order
  import opened Accounts
  import opened Allocators
  import opened Insertion
  import opened InsertionContent
  import opened Store
  import opened StoreSteps
  import opened StoreRemoval
  import opened Runs
  import opened Removal
  import opened Reopening

  // ----- a cursor that is not lagging -----

  lemma ReopenedInv(st: Store, limit: Key)
    requires Inv(st, limit) && HeaderOK(st) && !Lagging(st)
    ensures Inv(Reopened(st), limit) && HeaderOK(Reopened(st))
  {
    hide TreeOK, Stored, HeldNode, HeldSlot, CursorOK, Covered, Ids;
    var s, r := st.disk, Reopened(st).disk;
    CursorBack(s, st.saved);
    assert Covered(r) by { CoveredStill(s, st.saved); }
    forall p: Ref
      ensures HeldNode(Ids(st.root), r, p) == 0 && HeldSlot(Slots(st.root), r, p) == 0
    {
      assert HeldNode(Ids(st.root), s, p) == 0 && HeldSlot(Slots(st.root), s, p) == 0;
      SameHeld(st, p);
    }
  }

  lemma SameHeld(st: Store, p: Ref)
    ensures HeldNode(Ids(st.root), Reopened(st).disk, p) == HeldNode(Ids(st.root), st.disk, p)
    ensures HeldSlot(Slots(st.root), Reopened(st).disk, p) == HeldSlot(Slots(st.root), st.disk, p)
  {
  }

  lemma CoveredStill(s: Disk, c: Ref)
    requires s.g.span > 0 && Covered(s)
    ensures Covered(s.(cursor := c))
  {
  }

  // No slot after that cursor has been issued on its page.
  lemma CursorBack(s: Disk, c: Ref)
    requires DiskOK(s) && (c == 0 || c in s.values)
    requires c == 0 || c == s.cursor || c % s.g.span + 1 == s.g.slots
    ensures CursorOK(s.(cursor := c))
  {
    if c == 0 {
      assert Base(0, s.g.span) == 0;
    }
  }

  // Then every run from there behaves as the map that the store had before.
  lemma ReopenedRefines(st: Store, m: map<Key, Value>, ops: seq<Op>, sts: seq<Store>, rs: seq<Result>, limit: Key)
    requires Ready(st, limit) && HeaderOK(st) && Means(st, m) && !Lagging(st)
    requires Allowed(ops, limit) && IsRunFrom(Reopened(st), ops, sts, rs)
    ensures Inv(sts[|ops|], limit) && Means(sts[|ops|], MapRun(m, ops).0) && rs == MapRun(m, ops).1
  {
    hide Inv, Step, Shaped, GeometryOK, HeaderOK, Lagging, GetKey;
    ReopenedInv(st, limit);
    ReopenedMeaning(st, m);
    RunFromRefines(Reopened(st), m, ops, sts, rs, limit);
  }

  lemma ReopenedMeaning(st: Store, m: map<Key, Value>)
    requires Means(st, m)
    ensures Means(Reopened(st), m)
  {
    forall k: Key
      ensures GetKey(Reopened(st), k) == if k in m then Some(m[k]) else None
    {
      assert GetKey(st, k) == if k in m then Some(m[k]) else None;
    }
  }

  // ----- a lagging cursor -----

  // Sets of new keys, each a different one.
  ghost predicate NewKeys(t: Tree, ops: seq<Op>) {
    && (forall i :: 0 <= i < |ops| ==> ops[i].Set?)
    && (forall i, e :: 0 <= i < |ops| && e in Entries(t) ==> e.key != ops[i].key)
    && (forall i, j :: 0 <= i < j < |ops| ==> ops[i].key != ops[j].key)
  }

  // After the first sets: as many slots have come from the free stack, and the cursor is as it was.
  ghost predicate Drained(st: Store, ops: seq<Op>, i: nat, r: Store, limit: Key)
    requires i <= |ops| && i <= |st.disk.delValues|
  {
    var n := |st.disk.delValues|;
    && GeometryOK(r.disk.g) && r.disk.g == st.disk.g && TreeOK(r.root, r.disk.g.degree, limit)
    && r.disk.cursor == st.saved && r.disk.delValues == st.disk.delValues[..n - i]
    && multiset(SlotsOf(Entries(r.root))) + multiset(r.disk.delValues) == multiset(st.disk.values.Keys)
    && r.disk.values.Keys == st.disk.values.Keys
    && (forall e :: e in Entries(r.root) ==> e in Entries(st.root) || exists j :: 0 <= j < i && ops[j].key == e.key)
  }

  lemma DrainedNext(st: Store, ops: seq<Op>, i: nat, r: Store, limit: Key)
    requires NewKeys(st.root, ops) && i < |ops| && i < |st.disk.delValues| && 0 <= ops[i].key < limit
    requires Drained(st, ops, i, r, limit) && Shaped(r.root, r.disk.g.degree)
    ensures Drained(st, ops, i + 1, SetKey(r, ops[i].key, ops[i].value), limit)
  {
    hide TreeOK, Entries, Insert, Shaped, SetKey, GeometryOK, Gains;
    var k, v := ops[i].key, ops[i].value;
    var o, r1, n := Insert(r.root, k, v, r.disk), SetKey(r, k, v), |r.disk.delValues| - 1;
    NewSet(st, ops, i, r, limit);
    var d := r.disk.delValues;
    assert d == d[..n] + [d[n]] && d[n] in multiset(d);
    assert o.slot in r.disk.values.Keys by { assert o.slot in multiset(st.disk.values.Keys); }
    assert r1.disk.values.Keys == r.disk.values.Keys;
    assert st.disk.delValues[..|st.disk.delValues| - i][..n] == st.disk.delValues[..|st.disk.delValues| - (i + 1)];
    forall e | e in Entries(r1.root)
      ensures e in Entries(st.root) || exists j :: 0 <= j < i + 1 && ops[j].key == e.key
    {
      if e == Entry(k, o.slot) {
        assert ops[i].key == e.key;
      } else {
        assert e in Entries(r.root);
      }
    }
  }

  // What one more set of a new key does.
  lemma NewSet(st: Store, ops: seq<Op>, i: nat, r: Store, limit: Key)
    requires NewKeys(st.root, ops) && i < |ops| && i <= |st.disk.delValues| && 0 <= ops[i].key < limit
    requires Drained(st, ops, i, r, limit) && Shaped(r.root, r.disk.g.degree)
    ensures var o := Insert(r.root, ops[i].key, ops[i].value, r.disk); var r1 := SetKey(r, ops[i].key, ops[i].value);
            && o.isNew && r1.disk.values == r.disk.values[o.slot := ops[i].value] && SlotStep(r.disk, r1.disk, o.slot, true)
            && r1.disk.g == r.disk.g && TreeOK(r1.root, r1.disk.g.degree, limit)
            && multiset(SlotsOf(Entries(r1.root))) == multiset(SlotsOf(Entries(r.root))) + multiset{o.slot}
            && (forall x :: x in Entries(r1.root) <==> x in Entries(r.root) || x == Entry(ops[i].key, o.slot))
    ensures forall e :: e in Entries(r.root) ==> e.key != ops[i].key
  {
    hide TreeOK, Entries, Insert, Shaped, SetKey, Gains, Chosen;
    var k, v := ops[i].key, ops[i].value;
    var o, r1 := Insert(r.root, k, v, r.disk), SetKey(r, k, v);
    SetTree(r, k, v, limit);
    SetContent(r, k, v, limit);
    InsertValue(r.root, k, v, r.disk);
    RootValue(r, k, v);
    forall e | e in Entries(r.root)
      ensures e.key != k
    {
    }
    assert o.isNew;
    GainsSlots(Entries(r.root), Entries(r1.root), Entry(k, o.slot));
  }

  lemma {:induction false} DrainedRun(st: Store, ops: seq<Op>, sts: seq<Store>, rs: seq<Result>, limit: Key, i: nat)
    requires Ready(st, limit) && NewKeys(st.root, ops) && Allowed(ops, limit) && IsRunFrom(Reopened(st), ops, sts, rs)
    requires i <= |ops| && i <= |st.disk.delValues|
    ensures Drained(st, ops, i, sts[i], limit)
  {
    hide Inv, Step, NewKeys, Drained, GeometryOK, Shaped;
    if i == 0 {
      DrainedFirst(st, ops, limit);
    } else {
      DrainedRun(st, ops, sts, rs, limit, i - 1);
      assert Step(sts[i - 1], ops[i - 1]) == (sts[i], rs[i - 1]);
      SetStep(st, ops, sts[i - 1], i - 1);
      DrainedNext(st, ops, i - 1, sts[i - 1], limit);
    }
  }

  lemma SetStep(st: Store, ops: seq<Op>, r: Store, i: nat)
    requires NewKeys(st.root, ops) && i < |ops| && Shaped(r.root, r.disk.g.degree) && GeometryOK(r.disk.g)
    ensures ops[i].Set? && Step(r, ops[i]).0 == SetKey(r, ops[i].key, ops[i].value)
  {
    hide SetKey, Shaped;
  }

  lemma DrainedFirst(st: Store, ops: seq<Op>, limit: Key)
    requires Inv(st, limit)
    ensures Drained(st, ops, 0, Reopened(st), limit)
  {
    hide TreeOK, Stored, HeldNode, HeldSlot, CursorOK, Covered, Ids, Entries;
    SlotBooks(Slots(st.root), st.disk);
    var d := st.disk.delValues;
    assert d[..|d| - 0] == d;
  }

  // With a lagging cursor the first set of a new key after the freed slots are used up takes the
  // slot of another key: whoever has it reads the new value from then on.
  lemma LaggingShares(st: Store, ops: seq<Op>, sts: seq<Store>, rs: seq<Result>, limit: Key)
    requires Ready(st, limit) && HeaderOK(st) && Issued(st.disk) && Lagging(st)
    requires NewKeys(st.root, ops) && |ops| == |st.disk.delValues| + 1
    requires Allowed(ops, limit) && IsRunFrom(Reopened(st), ops, sts, rs)
    ensures var n := |ops| - 1;
            && Entry(ops[n].key, st.saved + 1) in Entries(sts[n + 1].root)
            && (exists e :: e in Entries(sts[n].root) && e.slot == st.saved + 1)
            && (forall e :: e in Entries(sts[n].root) && e.slot == st.saved + 1 ==>
                  && e.key != ops[n].key && e in Entries(sts[n + 1].root)
                  && GetKey(sts[n + 1], e.key) == Some(ops[n].value))
  {
    hide Inv, Step, GeometryOK, Shaped, TreeOK, Entries, Issued, GetKey, SetKey, Insert, NewKeys;
    var n, c := |ops| - 1, st.saved + 1;
    DrainedRun(st, ops, sts, rs, limit, n);
    assert Step(sts[n], ops[n]) == (sts[n + 1], rs[n]);
    SetStep(st, ops, sts[n], n);
    NewSet(st, ops, n, sts[n], limit);
    LagIssued(st, limit);
    var o, r, r1 := Insert(sts[n].root, ops[n].key, ops[n].value, sts[n].disk), sts[n], sts[n + 1];
    assert r.disk.delValues == [] && o.slot == c;
    assert c in multiset(st.disk.values.Keys);
    assert c in multiset(SlotsOf(Entries(r.root)));
    var j :| 0 <= j < |Entries(r.root)| && SlotsOf(Entries(r.root))[j] == c;
    assert Entries(r.root)[j] in Entries(r.root);
    forall e | e in Entries(r.root) && e.slot == c
      ensures e.key != ops[n].key && e in Entries(r1.root) && GetKey(r1, e.key) == Some(ops[n].value)
    {
      assert Entry(e.key, c) == e;
      ReadsSlot(r1, e.key, c, ops[n].value, limit);
    }
  }

  lemma ReadsSlot(r: Store, k: Key, slot: Ref, v: Value, limit: Key)
    requires TreeOK(r.root, r.disk.g.degree, limit) && Entry(k, slot) in Entries(r.root)
    requires slot in r.disk.values && r.disk.values[slot] == v
    ensures GetKey(r, k) == Some(v)
  {
    hide TreeOK, Entries, Find;
    Found(r, k, slot, limit);
  }

  lemma LagIssued(st: Store, limit: Key)
    requires Inv(st, limit) && HeaderOK(st) && Issued(st.disk) && Lagging(st)
    ensures st.saved + 1 in st.disk.values
  {
    hide TreeOK, Stored, HeldNode, HeldSlot, Issued, CursorOK, Covered;
    NextIssued(st.disk, st.saved);
  }

  // ----- exactly -----

  // Every run of the store opened again stores what the map would become.
  ghost predicate Safe(st: Store, m: map<Key, Value>, limit: Key) {
    forall ops, sts, rs :: Allowed(ops, limit) && IsRunFrom(Reopened(st), ops, sts, rs) ==> Means(sts[|ops|], MapRun(m, ops).0)
  }

  // That is so exactly if the cursor is not lagging, as long as there are enough new keys.
  lemma SafeIff(st: Store, m: map<Key, Value>, ks: seq<Key>, limit: Key)
    requires Ready(st, limit) && HeaderOK(st) && Issued(st.disk) && Means(st, m)
    requires |ks| == |st.disk.delValues| + 1 && (forall i :: 0 <= i < |ks| ==> 0 <= ks[i] < limit && ks[i] !in m)
    requires forall i, j :: 0 <= i < j < |ks| ==> ks[i] != ks[j]
    ensures Safe(st, m, limit) <==> !Lagging(st)
  {
    hide Inv, Step, Shaped, GeometryOK, HeaderOK, Lagging, Means, Issued;
    if Lagging(st) {
      Unsafe(st, m, ks, limit);
    } else {
      forall ops, sts, rs | Allowed(ops, limit) && IsRunFrom(Reopened(st), ops, sts, rs)
        ensures Means(sts[|ops|], MapRun(m, ops).0)
      {
        ReopenedRefines(st, m, ops, sts, rs, limit);
      }
    }
  }

  // It is so at the end of every run from a new store.
  lemma RunSafeIff(g: Geometry, ops: seq<Op>, sts: seq<Store>, rs: seq<Result>, ks: seq<Key>, limit: Key)
    requires GeometryOK(g) && Allowed(ops, limit) && IsRun(g, ops, sts, rs)
    requires var m := MapRun(map[], ops).0; forall i :: 0 <= i < |ks| ==> 0 <= ks[i] < limit && ks[i] !in m
    requires |ks| == |sts[|ops|].disk.delValues| + 1 && forall i, j :: 0 <= i < j < |ks| ==> ks[i] != ks[j]
    ensures Safe(sts[|ops|], MapRun(map[], ops).0, limit) <==> !Lagging(sts[|ops|])
  {
    hide Inv, Step, New, Shaped, GeometryOK, HeaderOK, Lagging, Means, Issued, Safe;
    RunRefinesMap(g, ops, sts, rs, limit);
    RunReady(g, ops, sts, rs, limit, |ops|);
    RunHeader(g, ops, sts, rs, limit, |ops|);
    SafeIff(sts[|ops|], MapRun(map[], ops).0, ks, limit);
  }

  // The sets of the keys ks, of which the last one has the value w.
  function SetsOf(ks: seq<Key>, w: Value): (ops: seq<Op>)
    ensures |ops| == |ks|
    ensures forall i :: 0 <= i < |ks| ==> ops[i] == Op.Set(ks[i], if i == |ks| - 1 then w else "")
  {
    seq(|ks|, i requires 0 <= i < |ks| => Op.Set(ks[i], if i == |ks| - 1 then w else ""))
  }

  lemma Unsafe(st: Store, m: map<Key, Value>, ks: seq<Key>, limit: Key)
    requires Ready(st, limit) && HeaderOK(st) && Issued(st.disk) && Means(st, m) && Lagging(st)
    requires |ks| == |st.disk.delValues| + 1 && (forall i :: 0 <= i < |ks| ==> 0 <= ks[i] < limit && ks[i] !in m)
    requires forall i, j :: 0 <= i < j < |ks| ==> ks[i] != ks[j]
    ensures !Safe(st, m, limit)
  {
    hide Inv, Step, Shaped, GeometryOK, HeaderOK, Lagging, Issued, Entries, GetKey, TreeOK, NewKeys, MapRun;
    var w := NewValueOf(m.Values);
    var ops := SetsOf(ks, w);
    KeysAreNew(st, m, ks, ops, limit);
    ReopenedTree(st, limit);
    var sts, rs := SetsRun(Reopened(st), ops, limit);
    LaggingShares(st, ops, sts, rs, limit);
    var n := |ops| - 1;
    var e :| e in Entries(sts[n].root) && e.slot == st.saved + 1;
    var last, k1 := sts[n + 1], e.key;
    assert GetKey(last, k1) == Some(w) && k1 != ks[n];
    MapOfSets(m, ks, w, |ks|, k1);
    assert ops[..|ks|] == ops;
    var m1 := MapRun(m, ops).0;
    assert GetKey(last, k1) != if k1 in m1 then Some(m1[k1]) else None;
  }

  lemma KeysAreNew(st: Store, m: map<Key, Value>, ks: seq<Key>, ops: seq<Op>, limit: Key)
    requires Inv(st, limit) && Means(st, m) && |ops| == |ks|
    requires forall i :: 0 <= i < |ks| ==> ops[i].Set? && ops[i].key == ks[i] && ks[i] !in m
    requires forall i, j :: 0 <= i < j < |ks| ==> ks[i] != ks[j]
    ensures NewKeys(st.root, ops)
  {
    hide DiskOK, Stored, HeldNode, TreeOK, Entries, Find;
    InvOwns(st, limit);
    InvTree(st, limit);
    forall i, e | 0 <= i < |ops| && e in Entries(st.root)
      ensures e.key != ops[i].key
    {
      assert Entry(e.key, e.slot) == e;
      Found(st, e.key, e.slot, limit);
      assert GetKey(st, e.key).Some?;
      assert GetKey(st, ks[i]) == None;
    }
  }

  lemma ReopenedTree(st: Store, limit: Key)
    requires Inv(st, limit)
    ensures TreeOK(Reopened(st).root, Reopened(st).disk.g.degree, limit) && GeometryOK(Reopened(st).disk.g)
  {
  }

  // Sets never get stuck.
  lemma {:induction false} SetsRun(st: Store, ops: seq<Op>, limit: Key) returns (sts: seq<Store>, rs: seq<Result>)
    requires TreeOK(st.root, st.disk.g.degree, limit) && GeometryOK(st.disk.g) && Allowed(ops, limit)
    requires forall i :: 0 <= i < |ops| ==> ops[i].Set?
    ensures IsRunFrom(st, ops, sts, rs)
    ensures var r := sts[|ops|]; TreeOK(r.root, r.disk.g.degree, limit) && GeometryOK(r.disk.g)
    decreases |ops|
  {
    hide TreeOK, Shaped, GeometryOK, SetKey;
    if ops == [] {
      sts, rs := [st], [];
    } else {
      var n := |ops| - 1;
      sts, rs := SetsRun(st, ops[..n], limit);
      var r := sts[n];
      TreeShaped(r, limit);
      SetTree(r, ops[n].key, ops[n].value, limit);
      SetGeometry(r, ops[n].key, ops[n].value);
      sts, rs := sts + [SetKey(r, ops[n].key, ops[n].value)], rs + [Done];
    }
  }

  lemma TreeShaped(r: Store, limit: Key)
    requires TreeOK(r.root, r.disk.g.degree, limit) && GeometryOK(r.disk.g)
    ensures Shaped(r.root, r.disk.g.degree)
  {
    WFShaped(r.root, r.disk.g.degree, Height(r.root), 0, limit);
  }

  // What the map has after these sets.
  lemma {:induction false} MapOfSets(m: map<Key, Value>, ks: seq<Key>, w: Value, i: nat, k: Key)
    requires i <= |ks| && ks != [] && k != ks[|ks| - 1]
    ensures var m1 := MapRun(m, SetsOf(ks, w)[..i]).0; k in m1 ==> m1[k] == "" || (k in m && m1[k] == m[k])
    decreases i
  {
    if i > 0 {
      MapOfSets(m, ks, w, i - 1, k);
      assert SetsOf(ks, w)[..i][..i - 1] == SetsOf(ks, w)[..i - 1];
    } else {
      assert SetsOf(ks, w)[..0] == [];
    }
  }

  // A value that is none of these, nor empty.
  lemma {:induction false} NewValueOf(vs: set<Value>) returns (w: Value)
    ensures w !in vs && w != "" && forall v :: v in vs ==> |v| < |w|
  {
    if vs == {} {
      w := "x";
    } else {
      var v :| v in vs;
      var w1 := NewValueOf(vs - {v});
      w := w1 + v + "x";
    }
  }

  // ----- a run to a lagging cursor behind a freed slot -----

  // After the five sets, removing the last key frees slot 12 and leaves the header as it was.
  // Opened again, the store gives key 6 that slot, comes to it again for key 7, and then key 6
  // reads the value of key 7.
  lemma LaggingRun(v: Value, v6: Value, v7: Value, limit: Key)
    returns (sts: seq<Store>, rs: seq<Result>, more: seq<Store>, rs1: seq<Result>)
    requires limit > 7
    ensures var ops := [Op.Set(1, v), Op.Set(2, v), Op.Set(3, v), Op.Set(4, v), Op.Set(5, v), Op.Remove(5)];
            IsRun(Geometry(2, 8, 8), ops, sts, rs)
    ensures Lagging(sts[6]) && sts[6].disk.delValues == [12] && sts[6].saved == 11 && !Stale(sts[6])
    ensures IsRunFrom(Reopened(sts[6]), [Op.Set(6, v6), Op.Set(7, v7)], more, rs1) && GetKey(more[2], 6) == Some(v7)
  {
    hide SetKey, RemoveKey, Shaped, New, Means, HeaderOK, Issued, Inv, TreeOK, GetKey, Find, Entries, NewKeys;
    var g := Geometry(2, 8, 8);
    var ops := [Op.Set(1, v), Op.Set(2, v), Op.Set(3, v), Op.Set(4, v), Op.Set(5, v), Op.Remove(5)];
    sts, rs := SixSteps(v, limit);
    RunRefinesMap(g, ops, sts, rs, limit);
    RunReady(g, ops, sts, rs, limit, 6);
    RunHeader(g, ops, sts, rs, limit, 6);
    SixMap(ops, v);
    var next := [Op.Set(6, v6), Op.Set(7, v7)];
    KeysAreNew(sts[6], MapRun(map[], ops).0, [6, 7], next, limit);
    ReopenedTree(sts[6], limit);
    more, rs1 := SetsRun(Reopened(sts[6]), next, limit);
    SixReadsSeven(sts[6], v6, v7, more, rs1, limit);
  }

  lemma SixMap(ops: seq<Op>, v: Value)
    requires ops == [Op.Set(1, v), Op.Set(2, v), Op.Set(3, v), Op.Set(4, v), Op.Set(5, v), Op.Remove(5)]
    ensures 6 !in MapRun(map[], ops).0 && 7 !in MapRun(map[], ops).0
  {
    NotSet(ops, 6);
    NotSet(ops, 7);
  }

  lemma {:induction false} NotSet(ops: seq<Op>, k: Key)
    requires forall i :: 0 <= i < |ops| ==> ops[i].key != k
    ensures k !in MapRun(map[], ops).0
    decreases |ops|
  {
    if ops != [] {
      NotSet(ops[..|ops| - 1], k);
    }
  }

  lemma SixSteps(v: Value, limit: Key) returns (sts: seq<Store>, rs: seq<Result>)
    requires limit > 7
    ensures var ops := [Op.Set(1, v), Op.Set(2, v), Op.Set(3, v), Op.Set(4, v), Op.Set(5, v), Op.Remove(5)];
            IsRun(Geometry(2, 8, 8), ops, sts, rs)
            && Lagging(sts[6]) && sts[6].disk.delValues == [12] && sts[6].saved == 11
  {
    hide SetKey, RemoveKey, Shaped, AfterFive, New;
    var g := Geometry(2, 8, 8);
    var five := [Op.Set(1, v), Op.Set(2, v), Op.Set(3, v), Op.Set(4, v), Op.Set(5, v)];
    var ops := five + [Op.Remove(5)];
    sts, rs := StaleRun(v, limit);
    RunReady(g, five, sts, rs, limit, 5);
    var (st, r) := Step(sts[5], Op.Remove(5));
    FifthRemoved(sts[5]);
    sts, rs := sts + [st], rs + [r];
    assert ops == [Op.Set(1, v), Op.Set(2, v), Op.Set(3, v), Op.Set(4, v), Op.Set(5, v), Op.Remove(5)];
  }

  lemma FifthRemoved(st: Store)
    requires AfterFive(st) && GeometryOK(st.disk.g)
    ensures var st1 := RemoveKey(st, 5).0;
            st1.saved == 11 && st1.disk.cursor == 12 && st1.disk.delValues == [12] && st1.disk.g == st.disk.g
  {
    hide Shaped;
    var t, c := st.root, st.root.kids[1];
    assert FirstGT(t.keys, 5) == 1;
    assert Sorted(KeysOf(c.items));
    FirstGEIs(KeysOf(c.items), 5, 2);
    assert RemoveIn(t, 1, 5, st.disk) == RemoveAtLeaf(t, 1, 5, st.disk);
  }

  lemma SixReadsSeven(st: Store, v6: Value, v7: Value, sts: seq<Store>, rs: seq<Result>, limit: Key)
    requires Ready(st, limit) && HeaderOK(st) && Issued(st.disk) && Lagging(st) && limit > 7
    requires st.disk.delValues == [12] && st.saved == 11 && NewKeys(st.root, [Op.Set(6, v6), Op.Set(7, v7)])
    requires IsRunFrom(Reopened(st), [Op.Set(6, v6), Op.Set(7, v7)], sts, rs)
    ensures GetKey(sts[2], 6) == Some(v7)
  {
    hide Inv, Step, GeometryOK, Shaped, TreeOK, Entries, Issued, GetKey, SetKey, Insert, NewKeys, Lagging;
    var ops := [Op.Set(6, v6), Op.Set(7, v7)];
    LaggingShares(st, ops, sts, rs, limit);
    DrainedRun(st, ops, sts, rs, limit, 0);
    assert Step(sts[0], ops[0]) == (sts[1], rs[0]);
    SetStep(st, ops, sts[0], 0);
    NewSet(st, ops, 0, sts[0], limit);
    assert Entry(6, 12) in Entries(sts[1].root);
    assert Entry(6, 12).slot == st.saved + 1;
  }
}
