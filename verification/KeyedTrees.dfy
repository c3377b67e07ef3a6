/** Every key in a tree, separators included, is the code of a string that fits a key buffer. */
module KeyedTrees {
  import opened Pages
  import opened Trees
  import opened KeyCodes
  import opened Insertion
  import opened Removal
  import opened Store
  import opened Runs

  ghost predicate IsKey(k: Key, keySize: nat) {
    exists s :: FitsKey(s, keySize) && Code(s, keySize) == k
  }

  ghost predicate Keyed(t: Tree, keySize: nat) {
    match t
    case Leaf(_, items) => forall e :: e in items ==> IsKey(e.key, keySize)
    case Node(_, keys, kids) =>
      (forall k :: k in keys ==> IsKey(k, keySize)) && forall i :: 0 <= i < |kids| ==> Keyed(kids[i], keySize)
  }

  ghost predicate GrownKeyed(g: Grown, n: nat) {
    match g
    case One(t) => Keyed(t, n)
    case Two(l, sep, r) => Keyed(l, n) && IsKey(sep, n) && Keyed(r, n)
  }

  // ----- insertion -----

  lemma {:induction false} InsertKeyed(t: Tree, k: Key, v: Value, s: Disk, n: nat)
    requires Shaped(t, s.g.degree) && GeometryOK(s.g) && Keyed(t, n) && IsKey(k, n)
    ensures GrownKeyed(Insert(t, k, v, s).grown, n)
  {
    hide IsKey, LeafInsert, Widen, FirstGT;
    if t.Leaf? {
      LeafInsertKeyed(t, k, v, s, n);
    } else {
      var i := FirstGT(t.keys, k);
      InsertKeyed(t.kids[i], k, v, s, n);
      var o := Insert(t.kids[i], k, v, s);
      match o.grown
      case One(c) =>
      case Two(l, sep, r) => WidenKeyed(t, i, l, sep, r, o.disk, n);
    }
  }

  lemma LeafInsertKeyed(t: Tree, k: Key, v: Value, s: Disk, n: nat)
    requires t.Leaf? && |t.items| <= 2 * s.g.degree - 1 && GeometryOK(s.g) && Keyed(t, n) && IsKey(k, n)
    ensures GrownKeyed(LeafInsert(t, k, v, s).grown, n)
  {
    hide IsKey, FirstGE, NewValue, AppendNode, InsertAt, CutLeaf;
    var i, o := FirstGE(KeysOf(t.items), k), LeafInsert(t, k, v, s);
    if o.isNew {
      var items := InsertAt(t.items, i, Entry(k, o.slot));
      AllKeyed(t.items, i, Entry(k, o.slot), n);
      if o.grown.Two? {
        CutKeyed(t.id, o.grown.r.id, items, LeafCut(t.items, k, s.g.degree), n);
      }
    }
  }

  lemma AllKeyed(items: seq<Entry>, i: nat, e: Entry, n: nat)
    requires i <= |items| && (forall x :: x in items ==> IsKey(x.key, n)) && IsKey(e.key, n)
    ensures |InsertAt(items, i, e)| == |items| + 1 && forall x :: x in InsertAt(items, i, e) ==> IsKey(x.key, n)
  {
    hide IsKey;
  }

  lemma CutKeyed(id: Ref, rid: Ref, items: seq<Entry>, m: nat, n: nat)
    requires m < |items| && forall x :: x in items ==> IsKey(x.key, n)
    ensures var (l, r) := CutLeaf(id, rid, items, m); Keyed(l, n) && Keyed(r, n) && |r.items| > 0 && IsKey(r.items[0].key, n)
  {
    hide IsKey;
    assert items[m] in items;
  }

  lemma WidenKeyed(t: Tree, i: nat, l: Tree, sep: Key, r: Tree, s: Disk, n: nat)
    requires t.Node? && |t.kids| == |t.keys| + 1 && i < |t.kids| && |t.keys| <= 2 * s.g.degree - 1 && s.g.degree >= 2
    requires Keyed(t, n) && Keyed(l, n) && IsKey(sep, n) && Keyed(r, n)
    ensures GrownKeyed(Widen(t, i, l, sep, r, s).0, n)
  {
    hide IsKey, FirstGT, Keyed, InsertAt, Rebuild, GrownKeyed;
    var p := FirstGT(t.keys, sep);
    var keys, kids, m := InsertAt(t.keys, p, sep), InsertAt(t.kids[i := l], p + 1, r), NodeCut(t.keys, sep, s.g.degree);
    assert t == Node(t.id, t.keys, t.kids);
    RowInsert(t.keys, t.kids, i, p, l, sep, r, t.id, n);
    Longer(t.keys, p, sep);
    Longer(t.kids[i := l], p + 1, r);
    RebuildKeyed(t.id, keys, kids, m, s, n);
  }

  lemma RowInsert(keys: seq<Key>, kids: seq<Tree>, i: nat, p: nat, l: Tree, sep: Key, r: Tree, id: Ref, n: nat)
    requires |kids| == |keys| + 1 && i < |kids| && p <= |keys| && Keyed(Node(id, keys, kids), n)
    requires Keyed(l, n) && IsKey(sep, n) && Keyed(r, n)
    ensures Keyed(Node(id, InsertAt(keys, p, sep), InsertAt(kids[i := l], p + 1, r)), n)
  {
    hide IsKey;
    var ks := kids[i := l];
    var row := InsertAt(ks, p + 1, r);
    assert forall j :: 0 <= j < |row| ==> row[j] == if j <= p then ks[j] else if j == p + 1 then r else ks[j - 1];
  }

  lemma RebuildKeyed(id: Ref, keys: seq<Key>, kids: seq<Tree>, m: nat, s: Disk, n: nat)
    requires |kids| == |keys| + 1 && |keys| <= 2 * s.g.degree && (|keys| == 2 * s.g.degree ==> m < |keys|)
    requires Keyed(Node(id, keys, kids), n)
    ensures GrownKeyed(Rebuild(id, keys, kids, m, s).0, n)
  {
    hide IsKey, AppendNode;
  }

  lemma SetKeyed(st: Store, k: Key, v: Value, n: nat)
    requires Shaped(st.root, st.disk.g.degree) && GeometryOK(st.disk.g) && Keyed(st.root, n) && IsKey(k, n)
    ensures Keyed(SetKey(st, k, v).root, n)
  {
    hide IsKey, Insert, Shaped;
    InsertKeyed(st.root, k, v, st.disk, n);
  }

  // ----- removal -----

  lemma DropEntryKeyed(c: Tree, k: Key, s: Disk, n: nat)
    requires Keyed(c, n)
    ensures Keyed(DropEntry(c, k, s).t, n)
  {
    hide IsKey, FirstGE, KeysOf;
  }

  lemma RepairKeyed(f: Tree, i: nat, d: nat, n: nat)
    requires f.Node? && |f.kids| == |f.keys| + 1 && |f.keys| >= 1 && i < |f.kids| && Keyed(f, n)
    ensures Keyed(Apply(f, Choose(f, i, d)), n)
  {
    hide IsKey, FromLeft, FromRight, Fused;
    var r := Choose(f, i, d);
    assert forall j :: 0 <= j < |f.keys| ==> f.keys[j] in f.keys;
    var j := r.j;
    FromRightKeyed(f.kids[j], f.keys[j], f.kids[j + 1], n);
    FromLeftKeyed(f.kids[j], f.keys[j], f.kids[j + 1], n);
    FusedKeyed(f.kids[i].id, f.kids[j], f.keys[j], f.kids[j + 1], n);
    ApplyKeyed(f, r, n);
  }

  ghost predicate PairKeyed(p: Pair, n: nat) {
    Keyed(p.a, n) && IsKey(p.sep, n) && Keyed(p.b, n)
  }

  lemma ApplyKeyed(f: Tree, r: Repair, n: nat)
    requires f.Node? && |f.kids| == |f.keys| + 1 && r.j < |f.keys| && Keyed(f, n)
    requires if r.Shift? then PairKeyed(r.p, n) else Keyed(r.c, n)
    ensures Keyed(Apply(f, r), n)
  {
    hide IsKey;
  }

  lemma FromRightKeyed(a: Tree, sep: Key, b: Tree, n: nat)
    requires Keyed(a, n) && IsKey(sep, n) && Keyed(b, n)
    ensures PairKeyed(FromRight(a, sep, b), n)
  {
    hide IsKey;
  }

  lemma FromLeftKeyed(a: Tree, sep: Key, b: Tree, n: nat)
    requires Keyed(a, n) && IsKey(sep, n) && Keyed(b, n)
    ensures PairKeyed(FromLeft(a, sep, b), n)
  {
    hide IsKey;
  }

  lemma FusedKeyed(id: Ref, a: Tree, sep: Key, b: Tree, n: nat)
    requires Keyed(a, n) && IsKey(sep, n) && Keyed(b, n)
    ensures Keyed(Fused(id, a, sep, b), n)
  {
    hide IsKey;
  }

  lemma WithKidKeyed(f: Tree, i: nat, c: Tree, n: nat)
    requires f.Node? && i < |f.kids| && Keyed(f, n) && Keyed(c, n)
    ensures Keyed(WithKid(f, i, c), n)
  {
    hide IsKey;
  }

  lemma RemoveAtLeafKeyed(f: Tree, i: nat, k: Key, s: Disk, n: nat)
    requires f.Node? && |f.kids| == |f.keys| + 1 && |f.keys| >= 1 && i < |f.kids| && f.kids[i].Leaf? && Keyed(f, n)
    ensures Keyed(RemoveAtLeaf(f, i, k, s).t, n)
  {
    hide IsKey, Choose, Apply, RepairDisk, DropEntry, Holds;
    DropEntryKeyed(f.kids[i], k, s, n);
    WithKidKeyed(f, i, DropEntry(f.kids[i], k, s).t, n);
    var r := Choose(f, i, s.g.degree);
    var f1, i1, s1 := Apply(f, r), RepairedAt(r, i), RepairDisk(r, i, s);
    RepairKeyed(f, i, s.g.degree, n);
    DropEntryKeyed(f1.kids[i1], k, s1, n);
    WithKidKeyed(f1, i1, DropEntry(f1.kids[i1], k, s1).t, n);
  }

  lemma {:induction false} RemoveInKeyed(f: Tree, i: nat, k: Key, s: Disk, n: nat)
    requires f.Node? && Shaped(f, s.g.degree) && i < |f.kids| && GeometryOK(s.g) && Keyed(f, n)
    ensures Keyed(RemoveIn(f, i, k, s).t, n)
    decreases f
  {
    hide IsKey, RemoveAtLeaf, Choose, Apply, FirstGT;
    var c := f.kids[i];
    if c.Leaf? {
      RemoveAtLeafKeyed(f, i, k, s, n);
    } else {
      RemoveInKeyed(c, FirstGT(c.keys, k), k, s, n);
      var r := RemoveIn(c, FirstGT(c.keys, k), k, s);
      WithKidKeyed(f, i, r.t, n);
      RepairKeyed(WithKid(f, i, r.t), i, r.disk.g.degree, n);
    }
  }

  lemma RemoveKeyed(st: Store, k: Key, n: nat)
    requires Shaped(st.root, st.disk.g.degree) && GeometryOK(st.disk.g) && Keyed(st.root, n)
    ensures Keyed(RemoveKey(st, k).0.root, n)
  {
    hide IsKey, RemoveIn, DropEntry, FirstGT;
    if st.root.Leaf? {
      DropEntryKeyed(st.root, k, st.disk, n);
    } else {
      RemoveInKeyed(st.root, FirstGT(st.root.keys, k), k, st.disk, n);
    }
  }

  lemma StepKeyed(st: Store, op: Op, n: nat)
    requires Shaped(st.root, st.disk.g.degree) && GeometryOK(st.disk.g) && Keyed(st.root, n) && (op.Set? ==> IsKey(op.key, n))
    ensures Keyed(Step(st, op).0.root, n)
  {
    hide IsKey, Shaped, SetKey, RemoveKey, Keyed;
    match op
    case Set(k, v) => SetKeyed(st, k, v, n);
    case Remove(k) => RemoveKeyed(st, k, n);
    case _ =>
  }
}
