/** How many keys, slots and pages a store holds. */
module Counting {
  import opened Pages
  import opened Trees
  import opened Order
  import opened Accounts
  import opened Ownership
  import opened Insertion
  import opened InsertionDisk
  import opened Thrift
  import opened Removal
  import opened Store
  import opened StoreSteps
  import opened StoreRemoval

  function Max(a: nat, b: nat): nat {
    if a < b then b else a
  }

  // Nodes reachable from the root.
  function Nodes(st: Store): nat {
    |Ids(st.root)|
  }

  function Keys(st: Store): nat {
    |Entries(st.root)|
  }

  lemma {:induction false} CardinalityOfSet(s: set<Ref>)
    ensures |multiset(s)| == |s|
  {
    if s != {} {
      var x :| x in s;
      CardinalityOfSet(s - {x});
      assert multiset(s) == multiset(s - {x}) + multiset{x};
      assert s == (s - {x}) + {x};
    }
  }

  // Every allocated page is a reachable node or free; every issued slot is live or free.
  lemma Census(st: Store, limit: Key)
    requires Inv(st, limit)
    ensures |st.disk.pages| == Nodes(st) + |st.disk.delNodes|
    ensures |st.disk.values| == Keys(st) + |st.disk.delValues|
    ensures multiset(st.disk.pages.Keys) == Ids(st.root) + multiset(st.disk.delNodes)
    ensures multiset(st.disk.values.Keys) == Slots(st.root) + multiset(st.disk.delValues)
  {
    hide DiskOK, Ids, Entries, TreeOK, Stored;
    NodeBooks(Ids(st.root), st.disk);
    SlotBooks(Slots(st.root), st.disk);
    CardinalityOfSet(st.disk.pages.Keys);
    CardinalityOfSet(st.disk.values.Keys);
    assert |st.disk.pages.Keys| == |st.disk.pages| && |st.disk.values.Keys| == |st.disk.values|;
  }

  // ----- the number of keys is the size of the stored map -----

  function KeySet(es: seq<Entry>): set<Key> {
    set e | e in es :: e.key
  }

  lemma {:induction false} DistinctKeys(es: seq<Entry>, lo: Key, hi: Key)
    requires InOrder(es, lo, hi)
    ensures |KeySet(es)| == |es|
  {
    hide InOrder, KeySet;
    if es == [] {
      NoKeys();
    } else {
      var n := |es| - 1;
      FrontInOrder(es, lo, hi);
      DistinctKeys(es[..n], lo, hi);
      LastKeyIsNew(es, lo, hi);
      KeysWithLast(es[..n], es[n]);
      assert es == es[..n] + [es[n]];
    }
  }

  lemma NoKeys()
    ensures KeySet([]) == {}
  {
  }

  lemma FrontInOrder(es: seq<Entry>, lo: Key, hi: Key)
    requires es != [] && InOrder(es, lo, hi)
    ensures InOrder(es[..|es| - 1], lo, hi)
  {
  }

  lemma KeysWithLast(a: seq<Entry>, e: Entry)
    ensures KeySet(a + [e]) == KeySet(a) + {e.key}
  {
    assert e in a + [e];
    forall x | x in a
      ensures x.key in KeySet(a + [e])
    {
      assert x in a + [e];
    }
  }

  lemma LastKeyIsNew(es: seq<Entry>, lo: Key, hi: Key)
    requires es != [] && InOrder(es, lo, hi)
    ensures es[|es| - 1].key !in KeySet(es[..|es| - 1])
  {
  }

  lemma KeysAreMapSize(st: Store, m: map<Key, Value>, limit: Key)
    requires Inv(st, limit) && Means(st, m)
    ensures Keys(st) == |m|
  {
    hide DiskOK, Ids, Entries, Stored, HeldNode, HeldSlot, Find, GetKey;
    var es := Entries(st.root);
    RootInOrder(st, limit);
    DistinctKeys(es, 0, limit);
    var ks := KeySet(es);
    forall k: Key
      ensures k in ks <==> k in m
    {
      assert GetKey(st, k) == (if k in m then Some(m[k]) else None);
      FindLive(st, k, limit);
      if Find(st.root, k).Some? { Found(st, k, Find(st.root, k).value, limit); }
      if e :| e in es && e.key == k { Found(st, k, e.slot, limit); }
    }
    assert ks == m.Keys;
  }

  // ----- space: a page or slot is taken from the end of the file only when none is free -----

  lemma SetThrifty(st: Store, k: Key, v: Value, limit: Key)
    requires Ready(st, limit)
    ensures Thrifty(st.disk, SetKey(st, k, v).disk)
  {
    hide Ids, IdsOf, Entries, TreeOK, Stored, HeldNode, HeldSlot, Apart;
    InvOwns(st, limit);
    InsertThrifty(st.root, k, v, st.disk);
    InsertDisk(st.root, k, v, st.disk);
    var o := Insert(st.root, k, v, st.disk);
    if o.grown.Two? {
      AppendThrifty(o.disk, NodePage([], [0]));
    }
  }

  // After set the file has as many node pages and value slots as before, or as many as
  // there are nodes and keys now, whichever is more.
  lemma SetSpace(st: Store, k: Key, v: Value, limit: Key)
    requires Ready(st, limit) && 0 <= k < limit
    ensures var st1 := SetKey(st, k, v);
            && |st1.disk.pages| == Max(|st.disk.pages|, Nodes(st1))
            && |st1.disk.values| == Max(|st.disk.values|, Keys(st1))
  {
    hide DiskOK, Ids, Entries, TreeOK, Stored, HeldNode, HeldSlot, SetKey, Insert;
    var st1, o := SetKey(st, k, v), Insert(st.root, k, v, st.disk);
    SetFacts(st, k, v, limit);
    SetDisk(st, k, v, limit);
    SetThrifty(st, k, v, limit);
    Census(st, limit);
    Census(st1, limit);
    PagesOnlyGrow(st.disk, st1.disk);
    if o.slot in st.disk.values {
      assert st1.disk.values.Keys == st.disk.values.Keys;
    } else {
      assert st1.disk.values.Keys == st.disk.values.Keys + {o.slot};
    }
    assert |st1.disk.values.Keys| == |st1.disk.values| && |st.disk.values.Keys| == |st.disk.values|;
  }

  lemma PagesOnlyGrow(s: Disk, s1: Disk)
    requires forall p: Ref :: p in s.pages ==> p in s1.pages
    ensures |s1.pages| >= |s.pages|
    ensures s1.pages.Keys == s.pages.Keys ==> |s1.pages| == |s.pages|
  {
    assert s.pages.Keys <= s1.pages.Keys;
    SubsetSize(s.pages.Keys, s1.pages.Keys);
    assert |s.pages.Keys| == |s.pages| && |s1.pages.Keys| == |s1.pages|;
  }

  lemma SubsetSize(a: set<Ref>, b: set<Ref>)
    requires a <= b
    ensures |a| <= |b|
  {
    assert b == a + (b - a);
  }

  lemma RemoveSpace(st: Store, k: Key, limit: Key)
    requires Ready(st, limit)
    ensures var st1 := RemoveKey(st, k).0;
            && |st1.disk.pages| == Max(|st.disk.pages|, Nodes(st1))
            && |st1.disk.values| == Max(|st.disk.values|, Keys(st1))
  {
    hide DiskOK, Ids, Entries, TreeOK, Stored, HeldNode, HeldSlot, RemoveKey, RemoveRoot;
    var st1 := RemoveKey(st, k).0;
    RemoveFacts(st, k, limit);
    Census(st, limit);
    Census(st1, limit);
    assert st1.disk.pages.Keys == st.disk.pages.Keys;
    assert |st1.disk.pages.Keys| == |st1.disk.pages| && |st.disk.pages.Keys| == |st.disk.pages|;
  }

  // ----- height -----

  // The least number of keys below a node, other than the root, at height h.
  function LeastKeys(d: nat, h: nat): nat requires d >= 1 {
    if h == 0 then d - 1 else d * LeastKeys(d, h - 1)
  }

  function Power(b: nat, n: nat): nat {
    if n == 0 then 1 else b * Power(b, n - 1)
  }

  lemma {:induction false} LeastKeysIsPower(d: nat, h: nat)
    requires d >= 1
    ensures LeastKeys(d, h) == Power(d, h) * (d - 1)
  {
    if h > 0 {
      LeastKeysIsPower(d, h - 1);
      Regrouped(d, Power(d, h - 1), d - 1);
    }
  }

  lemma Regrouped(a: int, b: int, c: int)
    ensures a * (b * c) == (a * b) * c
  {
  }

  // A row of n children, each with at least the least number of keys, holds n times as many.
  lemma {:induction false} RowKeys(kids: seq<Tree>, n: nat)
    requires forall i :: 0 <= i < |kids| ==> |Entries(kids[i])| >= n
    ensures |EntriesOf(kids)| >= |kids| * n
  {
    if kids != [] {
      forall i | 0 <= i < |kids[1..]|
        ensures |Entries(kids[1..][i])| >= n
      {
        assert kids[1..][i] == kids[i + 1];
      }
      RowKeys(kids[1..], n);
      assert |kids| * n == n + |kids[1..]| * n;
    }
  }

  lemma {:induction false} SubtreeKeys(t: Tree, d: nat, h: nat, lo: Key, hi: Key)
    requires d >= 2 && WF(t, d, h, lo, hi) && Size(t) >= d - 1
    ensures |Entries(t)| >= LeastKeys(d, h)
    decreases h
  {
    if t.Node? {
      KidsKeys(t, d, h, lo, hi);
      MulMono(d, |t.kids|, LeastKeys(d, h - 1));
    }
  }

  lemma KidsKeys(t: Tree, d: nat, h: nat, lo: Key, hi: Key)
    requires d >= 2 && t.Node? && WF(t, d, h, lo, hi)
    ensures h > 0 && |Entries(t)| >= |t.kids| * LeastKeys(d, h - 1)
    decreases h, 0
  {
    forall i | 0 <= i < |t.kids|
      ensures |Entries(t.kids[i])| >= LeastKeys(d, h - 1)
    {
      SubtreeKeys(t.kids[i], d, h - 1, Lo(t.keys, i, lo), Hi(t.keys, i, hi));
    }
    RowKeys(t.kids, LeastKeys(d, h - 1));
  }

  lemma RootKeys(t: Tree, d: nat, h: nat, hi: Key)
    requires d >= 2 && h >= 1 && WF(t, d, h, 0, hi) && Size(t) >= 1
    ensures |Entries(t)| >= 2 * LeastKeys(d, h - 1)
  {
    KidsKeys(t, d, h, 0, hi);
    MulMono(2, |t.kids|, LeastKeys(d, h - 1));
  }

  // A tree with two or more levels holds at least 2 * d^(levels-2) * (d-1) keys.
  lemma HeightBound(st: Store, limit: Key)
    requires Inv(st, limit) && Height(st.root) >= 1
    ensures Keys(st) >= 2 * (Power(st.disk.g.degree, Height(st.root) - 1) * (st.disk.g.degree - 1))
  {
    hide HeldNode, HeldSlot, Stored, Ids, WF, Power, LeastKeys, Entries;
    RootKeys(st.root, st.disk.g.degree, Height(st.root), limit);
    LeastKeysIsPower(st.disk.g.degree, Height(st.root) - 1);
  }

  // A store without keys is one empty leaf; every other page and every slot is free.
  lemma EmptyStore(st: Store, limit: Key)
    requires Inv(st, limit) && Keys(st) == 0
    ensures st.root == Leaf(st.header, [])
    ensures multiset(st.disk.pages.Keys) == multiset{st.header} + multiset(st.disk.delNodes)
    ensures multiset(st.disk.values.Keys) == multiset(st.disk.delValues)
  {
    hide HeldNode, HeldSlot, Stored;
    Census(st, limit);
    if st.root.Node? {
      HeightBound(st, limit);
      PowerPositive(st.disk.g.degree, Height(st.root) - 1);
      Positive(Power(st.disk.g.degree, Height(st.root) - 1), st.disk.g.degree - 1);
    }
  }

  lemma {:induction false} PowerPositive(b: nat, n: nat)
    requires b >= 1
    ensures Power(b, n) >= 1
  {
    if n > 0 {
      PowerPositive(b, n - 1);
      Positive(b, Power(b, n - 1));
    }
  }

  lemma Positive(a: nat, b: nat)
    requires a >= 1 && b >= 1
    ensures a * b >= 1
  {
  }
}
