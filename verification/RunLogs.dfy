/** Every run has writes to perform: whatever is set, as long as it has bytes, each page and each
    value of each state can be written; and a get on the bytes alone answers as the map does. */
module RunLogs {
  import opened Pages
  import opened Trees
  import opened Order
  import opened Accounts
  import opened Address
  import opened KeyCodes
  import opened Codec
  import opened PageIO
  import opened Ownership
  import opened Insertion
  import opened Store
  import opened StoreRemoval
  import opened Runs
  import opened Reopening
  import opened CleanPages
  import opened KeyedTrees
  import opened ByteFiles

  // ----- what can be written -----

  ghost predicate ValueOK(v: Value, valueSize: nat) {
    |v| < valueSize && forall i :: 0 <= i < |v| ==> v[i] as int < 256
  }

  lemma ValueBytes(v: Value, valueSize: nat) returns (b: seq<byte>)
    requires ValueOK(v, valueSize)
    ensures ValueStands(b, v, valueSize)
  {
    b := seq(valueSize, i requires 0 <= i < valueSize => if i < |v| then v[i] as int as byte else 0);
  }

  // Those values, and no others, can stand in a slot.
  lemma ValueOKIff(v: Value, valueSize: nat)
    ensures ValueOK(v, valueSize) <==> exists b :: ValueStands(b, v, valueSize)
  {
    if ValueOK(v, valueSize) {
      var b := ValueBytes(v, valueSize);
    }
  }

  ghost predicate Writable(page: Page, fm: Format) requires fm.OK() {
    exists p :: Stands(p, page, fm)
  }

  // The strings of some keys.
  lemma {:induction false} Strings(keys: seq<Key>, n: nat) returns (strs: seq<seq<byte>>)
    requires forall k :: k in keys ==> IsKey(k, n)
    ensures |strs| == |keys| && (forall i :: 0 <= i < |strs| ==> FitsKey(strs[i], n)) && Codes(strs, n) == keys
  {
    if keys == [] {
      strs := [];
    } else {
      assert IsKey(keys[0], n);
      var s :| FitsKey(s, n) && Code(s, n) == keys[0];
      var rest := Strings(keys[1..], n);
      strs := [s] + rest;
      CodesAfter(s, rest, keys, n);
    }
  }

  lemma CodesAfter(s: seq<byte>, rest: seq<seq<byte>>, keys: seq<Key>, n: nat)
    requires keys != [] && Code(s, n) == keys[0] && Codes(rest, n) == keys[1..]
    ensures Codes([s] + rest, n) == keys
  {
    hide Code;
    var c := Codes([s] + rest, n);
    assert |c| == |keys|;
    forall i | 0 <= i < |keys|
      ensures c[i] == keys[i]
    {
      if i > 0 {
        assert Codes(rest, n)[i - 1] == keys[1..][i - 1];
      }
    }
  }

  // A row of keys with one reference more.
  lemma RowWritable(flag: byte, keys: seq<Key>, childs: seq<Ref>, fm: Format)
    requires fm.OK() && 2 * fm.degree <= Pow256(2) && flag in {LEAF_FLAG, INTERNAL_FLAG, REMOVED_FLAG}
    requires |keys| <= 2 * fm.degree - 1 && |childs| == |keys| + 1
    requires (forall k :: k in keys ==> IsKey(k, fm.keySize)) && forall i :: 0 <= i < |childs| ==> childs[i] < Pow256(8)
    ensures flag == LEAF_FLAG ==> Writable(LeafPage(keys, childs[..|keys|]), fm)
    ensures flag == INTERNAL_FLAG ==> Writable(Page.NodePage(keys, childs), fm)
    ensures flag == REMOVED_FLAG ==> Writable(FreePage, fm)
  {
    hide Stands, IsKey, Pow256, Code, Layout.OK, FitsKey, Codec.ToNodePage;
    var strs := Strings(keys, fm.keySize);
    var n := NodeContent(flag, strs, childs);
    var scratch := seq(2 * fm.degree - 1, _ => seq(fm.keySize, _ => 0 as byte));
    MadeStands(n, scratch, fm);
  }

  // The page of a node.
  lemma NodeWritable(t: Tree, fm: Format, h: nat, lo: Key, hi: Key)
    requires fm.OK() && 2 * fm.degree <= Pow256(2) && WF(t, fm.degree, h, lo, hi) && Keyed(t, fm.keySize)
    requires forall e :: e in Entries(t) ==> e.slot < Pow256(8)
    requires t.Node? ==> forall i :: 0 <= i < |t.kids| ==> t.kids[i].id < Pow256(8)
    ensures Writable(PageOf(t), fm)
  {
    hide IsKey, Pow256, Layout.OK, Writable;
    match t
    case Leaf(_, items) =>
      var slots := SlotsOf(items) + [0];
      assert forall i :: 0 <= i < |items| ==> items[i] in items;
      assert slots[..|items|] == SlotsOf(items);
      SmallZero();
      RowWritable(LEAF_FLAG, KeysOf(items), slots, fm);
    case Node(_, keys, kids) =>
      RowWritable(INTERNAL_FLAG, keys, KidIds(kids), fm);
  }

  lemma SmallZero()
    ensures 0 < Pow256(8)
  {
  }

  lemma FreeWritable(fm: Format)
    requires fm.OK() && 2 * fm.degree <= Pow256(2)
    ensures Writable(FreePage, fm)
  {
    hide Pow256, Layout.OK, Writable;
    SmallZero();
    RowWritable(REMOVED_FLAG, [], [0], fm);
  }

  // Every page of a tree on disk.
  lemma {:induction false} TreeWritable(t: Tree, pages: map<Ref, Page>, fm: Format, h: nat, lo: Key, hi: Key, id: Ref)
    requires fm.OK() && 2 * fm.degree <= Pow256(2) && WF(t, fm.degree, h, lo, hi) && Keyed(t, fm.keySize) && Stored(t, pages)
    requires (forall e :: e in Entries(t) ==> e.slot < Pow256(8)) && (forall x :: x in Ids(t) ==> x < Pow256(8))
    requires id in Ids(t)
    ensures id in pages && Writable(pages[id], fm)
    decreases h
  {
    hide Pow256, Layout.OK, Writable, IdsOf, EntriesOf, IsKey, Ids;
    OwnOrBelow(t, id);
    if t.Node? {
      forall i | 0 <= i < |t.kids|
        ensures t.kids[i].id < Pow256(8)
      {
        KidRefs(t, i);
      }
      if id != t.id {
        var i := InRow(t.kids, id);
        KidRefs(t, i);
        KidEntries(t.kids, i);
        assert WF(t.kids[i], fm.degree, h - 1, Lo(t.keys, i, lo), Hi(t.keys, i, hi));
        TreeWritable(t.kids[i], pages, fm, h - 1, Lo(t.keys, i, lo), Hi(t.keys, i, hi), id);
      }
    }
    NodeWritable(t, fm, h, lo, hi);
  }

  lemma KidRefs(t: Tree, i: nat)
    requires t.Node? && i < |t.kids|
    ensures t.kids[i].id in Ids(t) && forall x :: x in Ids(t.kids[i]) ==> x in Ids(t)
  {
    hide IdsOf;
    IdsWithin(t.kids, i);
    LeafOwn(t.kids[i]);
    forall x | x in Ids(t.kids[i])
      ensures x in Ids(t)
    {
      assert IdsOf(t.kids)[x] >= Ids(t.kids[i])[x];
    }
  }

  lemma OwnOrBelow(t: Tree, id: Ref)
    requires id in Ids(t)
    ensures id == t.id || (t.Node? && id in IdsOf(t.kids))
  {
  }

  lemma KidEntries(kids: seq<Tree>, i: nat)
    requires i < |kids|
    ensures forall e :: e in Entries(kids[i]) ==> e in EntriesOf(kids)
  {
    forall e | e in Entries(kids[i])
      ensures e in EntriesOf(kids)
    {
      EntriesWithin(kids, i, e);
    }
  }

  lemma {:induction false} InRow(kids: seq<Tree>, id: Ref) returns (i: nat)
    requires id in IdsOf(kids)
    ensures i < |kids| && id in Ids(kids[i])
  {
    if id in Ids(kids[0]) {
      i := 0;
    } else {
      var j := InRow(kids[1..], id);
      i := j + 1;
    }
  }

  // ----- the states of a run -----

  ghost predicate Fit(st: Store, fm: Format) {
    && Keyed(st.root, fm.keySize) && Clean(st.disk)
    && forall v :: v in st.disk.values ==> ValueOK(st.disk.values[v], fm.l.valueSize)
  }

  ghost predicate OpFits(op: Op, fm: Format) {
    op.Set? ==> IsKey(op.key, fm.keySize) && ValueOK(op.value, fm.l.valueSize)
  }

  lemma StepFit(st: Store, op: Op, fm: Format, limit: Key)
    requires Ready(st, limit) && 0 <= op.key < limit && Fit(st, fm) && OpFits(op, fm) && Inv(Step(st, op).0, limit)
    ensures Fit(Step(st, op).0, fm)
  {
    hide Inv, Shaped, GeometryOK, Keyed, Clean, IsKey, ValueOK, Layout.OK, SetKey, RemoveKey;
    StepClean(st, op, limit);
    StepKeyed(st, op, fm.keySize);
    StepValues(st, op, fm, limit);
  }

  lemma StepValues(st: Store, op: Op, fm: Format, limit: Key)
    requires Ready(st, limit) && 0 <= op.key < limit && OpFits(op, fm)
    requires forall v :: v in st.disk.values ==> ValueOK(st.disk.values[v], fm.l.valueSize)
    ensures var s1 := Step(st, op).0.disk; forall v :: v in s1.values ==> ValueOK(s1.values[v], fm.l.valueSize)
  {
    hide Inv, Shaped, GeometryOK, IsKey, ValueOK, Layout.OK, RemoveKey, Insert, SetKey, Chosen;
    match op
    case Set(k, v) =>
      InsertValue(st.root, k, v, st.disk);
      RootValue(st, k, v);
    case Remove(k) => RemoveFacts(st, k, limit);
    case _ =>
  }

  lemma {:induction false} RunFit(ops: seq<Op>, sts: seq<Store>, rs: seq<Result>, limit: Key, fm: Format, i: nat)
    requires fm.OK() && Allowed(ops, limit) && IsRun(GeometryOf(fm), ops, sts, rs) && i <= |ops|
    requires forall j :: 0 <= j < |ops| ==> OpFits(ops[j], fm)
    ensures Fit(sts[i], fm)
  {
    hide Inv, Step, Shaped, GeometryOK, Layout.OK, OpFits, Fit, New;
    if i == 0 {
      NewFit(fm);
    } else {
      FormatGeometry(fm);
      RunFit(ops, sts, rs, limit, fm, i - 1);
      RunReady(GeometryOf(fm), ops, sts, rs, limit, i - 1);
      RunReady(GeometryOf(fm), ops, sts, rs, limit, i);
      assert Step(sts[i - 1], ops[i - 1]) == (sts[i], rs[i - 1]);
      StepFit(sts[i - 1], ops[i - 1], fm, limit);
    }
  }

  lemma NewFit(fm: Format)
    requires fm.OK()
    ensures Fit(New(GeometryOf(fm)), fm)
  {
  }

  // All pages of a state can be written, if all its references fit a word of 64 bits.
  lemma StateWritable(st: Store, fm: Format, limit: Key, id: Ref)
    requires fm.OK() && 2 * fm.degree <= Pow256(2) && Ready(st, limit) && Fit(st, fm) && st.disk.g == GeometryOf(fm)
    requires (forall x :: x in st.disk.pages ==> x < Pow256(8)) && (forall v :: v in st.disk.values ==> v < Pow256(8))
    requires id in st.disk.pages
    ensures Writable(st.disk.pages[id], fm)
  {
    hide Pow256, Layout.OK, Writable, Ids, Entries, Keyed, DiskOK, Stored, HeldSlot, Shaped, GeometryOK;
    assert HeldNode(Ids(st.root), st.disk, id) == 0;
    if id in Ids(st.root) {
      InvOwns(st, limit);
      forall x | x in Ids(st.root)
        ensures x < Pow256(8)
      {
        assert HeldNode(Ids(st.root), st.disk, x) == 0;
      }
      TreeWritable(st.root, st.disk.pages, fm, Height(st.root), 0, limit, id);
    } else {
      assert id in multiset(st.disk.delNodes);
      FreeWritable(fm);
    }
  }

  // ----- logs -----

  lemma {:induction false} LoggedAppend(pages: map<Ref, Page>, values: map<Ref, Value>, a: seq<Write>, b: seq<Write>)
    ensures var (p, v) := Logged(pages, values, a); Logged(pages, values, a + b) == Logged(p, v, b)
    decreases |a|
  {
    if a == [] {
      assert a + b == b;
    } else {
      assert (a + b)[1..] == a[1..] + b;
      match a[0]
      case NodeWrite(id, page, _, _) => LoggedAppend(pages[id := page], values, a[1..], b);
      case ValueWrite(slot, v, _) => LoggedAppend(pages, values[slot := v], a[1..], b);
    }
  }

  ghost function Part<X>(m: map<Ref, X>, todo: set<Ref>): map<Ref, X> requires todo <= m.Keys {
    map id | id in todo :: m[id]
  }

  // Writes that bring the pages in `todo` to what they are in p1.
  lemma {:induction false} PagesLog(p0: map<Ref, Page>, values: map<Ref, Value>, p1: map<Ref, Page>, todo: set<Ref>, fm: Format)
    returns (log: seq<Write>)
    requires fm.OK() && todo <= p1.Keys && forall id :: id in todo ==> Writable(p1[id], fm)
    ensures LogOK(log, fm) && Logged(p0, values, log) == (p0 + Part(p1, todo), values)
    decreases |todo|
  {
    hide Stands, Layout.OK;
    if todo == {} {
      log := [];
      assert p0 + Part(p1, todo) == p0;
    } else {
      var x :| x in todo;
      var p :| Stands(p, p1[x], fm);
      var w := NodeWrite(x, p1[x], p, 0);
      var rest := PagesLog(p0[x := p1[x]], values, p1, todo - {x}, fm);
      log := [w] + rest;
      assert log[1..] == rest;
      assert p0[x := p1[x]] + Part(p1, todo - {x}) == p0 + Part(p1, todo);
    }
  }

  lemma {:induction false} ValuesLog(pages: map<Ref, Page>, v0: map<Ref, Value>, v1: map<Ref, Value>, todo: set<Ref>, fm: Format)
    returns (log: seq<Write>)
    requires fm.OK() && todo <= v1.Keys && forall x :: x in todo ==> ValueOK(v1[x], fm.l.valueSize)
    ensures LogOK(log, fm) && Logged(pages, v0, log) == (pages, v0 + Part(v1, todo))
    decreases |todo|
  {
    hide Stands, Layout.OK, ValueOK, ValueStands;
    if todo == {} {
      log := [];
      assert v0 + Part(v1, todo) == v0;
    } else {
      var x :| x in todo;
      var b := ValueBytes(v1[x], fm.l.valueSize);
      var rest := ValuesLog(pages, v0[x := v1[x]], v1, todo - {x}, fm);
      log := [ValueWrite(x, v1[x], b)] + rest;
      assert log[1..] == rest;
      assert v0[x := v1[x]] + Part(v1, todo - {x}) == v0 + Part(v1, todo);
    }
  }

  lemma LogBetween(p0: map<Ref, Page>, v0: map<Ref, Value>, p1: map<Ref, Page>, v1: map<Ref, Value>, fm: Format) returns (log: seq<Write>)
    requires fm.OK() && p0.Keys <= p1.Keys && v0.Keys <= v1.Keys
    requires forall id :: id in p1 ==> Writable(p1[id], fm)
    requires forall x :: x in v1 ==> ValueOK(v1[x], fm.l.valueSize)
    ensures LogOK(log, fm) && Logged(p0, v0, log) == (p1, v1)
  {
    hide Layout.OK, Writable, ValueOK, Logged;
    var a := PagesLog(p0, v0, p1, p1.Keys, fm);
    assert p0 + Part(p1, p1.Keys) == p1;
    var b := ValuesLog(p1, v0, v1, v1.Keys, fm);
    assert v0 + Part(v1, v1.Keys) == v1;
    LoggedAppend(p0, v0, a, b);
    log := a + b;
  }

  // The references of the whole run fit a word, so they do in each of its states.
  lemma SmallRefs(ops: seq<Op>, sts: seq<Store>, rs: seq<Result>, limit: Key, fm: Format, i: nat)
    requires fm.OK() && Allowed(ops, limit) && IsRun(GeometryOf(fm), ops, sts, rs) && i <= |ops|
    requires sts[|ops|].disk.filePages * fm.l.Span() <= Pow256(8)
    ensures var s := sts[i].disk; (forall x :: x in s.pages ==> x < Pow256(8)) && (forall v :: v in s.values ==> v < Pow256(8))
  {
    hide Step, Shaped, GeometryOK, Layout.OK, New, Pow256, TreeOK, Stored, HeldNode, HeldSlot, CursorOK, Covered, Pow2;
    FormatGeometry(fm);
    RunGrows(GeometryOf(fm), ops, sts, rs, limit, i, |ops|);
    RunReady(GeometryOf(fm), ops, sts, rs, limit, |ops|);
  }

  // Every run of keys that are strings and values that fit has writes to perform.
  lemma RunHasLogs(ops: seq<Op>, sts: seq<Store>, rs: seq<Result>, limit: Key, fm: Format) returns (logs: seq<seq<Write>>)
    requires fm.OK() && 2 * fm.degree <= Pow256(2) && Allowed(ops, limit) && IsRun(GeometryOf(fm), ops, sts, rs)
    requires sts[|ops|].disk.filePages * fm.l.Span() <= Pow256(8)
    requires forall j :: 0 <= j < |ops| ==> OpFits(ops[j], fm)
    ensures LoggedRun(ops, sts, rs, logs, fm)
  {
    hide Step, Shaped, GeometryOK, Layout.OK, New, Pow256, OpFits, StepLogged, LogOK, Logged;
    logs := LogsUpTo(ops, sts, rs, limit, fm, |ops|);
  }

  lemma {:induction false} LogsUpTo(ops: seq<Op>, sts: seq<Store>, rs: seq<Result>, limit: Key, fm: Format, n: nat)
    returns (logs: seq<seq<Write>>)
    requires fm.OK() && 2 * fm.degree <= Pow256(2) && Allowed(ops, limit) && IsRun(GeometryOf(fm), ops, sts, rs) && n <= |ops|
    requires sts[|ops|].disk.filePages * fm.l.Span() <= Pow256(8)
    requires forall j :: 0 <= j < |ops| ==> OpFits(ops[j], fm)
    ensures |logs| == n + 1 && LogOK(logs[0], fm) && Logged(map[], map[], logs[0]) == (sts[0].disk.pages, sts[0].disk.values)
    ensures forall i :: 0 <= i < n ==> StepLogged(sts[i], sts[i + 1], logs[i + 1], fm)
  {
    hide Step, Shaped, GeometryOK, Layout.OK, New, Pow256, OpFits, LogOK, Logged, Inv;
    FormatGeometry(fm);
    StateFits(ops, sts, rs, limit, fm, n);
    if n == 0 {
      var log := LogBetween(map[], map[], sts[0].disk.pages, sts[0].disk.values, fm);
      logs := [log];
    } else {
      var before := LogsUpTo(ops, sts, rs, limit, fm, n - 1);
      RunGrows(GeometryOf(fm), ops, sts, rs, limit, n - 1, n);
      var s, s1 := sts[n - 1].disk, sts[n].disk;
      var log := LogBetween(s.pages, s.values, s1.pages, s1.values, fm);
      logs := before + [log];
    }
  }

  lemma StateFits(ops: seq<Op>, sts: seq<Store>, rs: seq<Result>, limit: Key, fm: Format, i: nat)
    requires fm.OK() && 2 * fm.degree <= Pow256(2) && Allowed(ops, limit) && IsRun(GeometryOf(fm), ops, sts, rs) && i <= |ops|
    requires sts[|ops|].disk.filePages * fm.l.Span() <= Pow256(8)
    requires forall j :: 0 <= j < |ops| ==> OpFits(ops[j], fm)
    ensures forall id :: id in sts[i].disk.pages ==> Writable(sts[i].disk.pages[id], fm)
    ensures forall v :: v in sts[i].disk.values ==> ValueOK(sts[i].disk.values[v], fm.l.valueSize)
  {
    hide Step, Shaped, GeometryOK, Layout.OK, New, Pow256, OpFits, Inv, Writable, ValueOK, Keyed, Clean;
    FormatGeometry(fm);
    RunFit(ops, sts, rs, limit, fm, i);
    RunReady(GeometryOf(fm), ops, sts, rs, limit, i);
    SmallRefs(ops, sts, rs, limit, fm, i);
    forall id | id in sts[i].disk.pages
      ensures Writable(sts[i].disk.pages[id], fm)
    {
      StateWritable(sts[i], fm, limit, id);
    }
  }

  // ----- a get on the bytes -----

  // The codes of a node's keys, and the page that it stands for.
  lemma StoodFor(p: Codec.NodePage, t: Tree, fm: Format)
    requires fm.OK() && Stands(p, PageOf(t), fm)
    ensures (p.flag == LEAF_FLAG) == t.Leaf? && p.size <= |p.keys|
    ensures var codes := seq(p.size, i requires 0 <= i < p.size => Code(CStr(p.keys[i]), fm.keySize));
            codes == if t.Leaf? then KeysOf(t.items) else t.keys
    ensures t.Leaf? ==> |t.items| == p.size <= |p.childs| && forall i :: 0 <= i < |t.items| ==> p.childs[i] == t.items[i].slot
    ensures t.Node? ==> |t.kids| <= |p.childs| && forall i :: 0 <= i < |t.kids| ==> p.childs[i] == t.kids[i].id
  {
    hide Code, CStr, FitsKey, Layout.OK;
    if t.Leaf? {
      assert p.childs[..|t.items|] == SlotsOf(t.items);
    } else {
      assert p.childs[..|t.kids|] == KidIds(t.kids);
    }
  }

  // The descent reads one node after the other from the bytes, and at last the value.
  method GetOnBytes(file: array<byte>, offset: Ref, key: seq<byte>, fm: Format, ghost t: Tree, ghost pages: map<Ref, Page>,
                    ghost values: map<Ref, Value>, ghost h: nat, ghost lo: Key, ghost hi: Key)
    returns (r: Option<seq<byte>>)
    requires fm.OK() && fm.NodeSize() <= fm.l.pageSize && !Straddles(fm.NodeSize()) && ReadFits(fm.degree, fm.keySize)
    requires Represents(file[..], pages, values, fm) && Stored(t, pages) && offset == t.id
    requires WF(t, fm.degree, h, lo, hi) && forall e :: e in Entries(t) ==> e.slot in values
    ensures var slot := Find(t, Code(key, fm.keySize));
            if slot.Some? then slot.value in values && r.Some? && ValueStands(r.value, values[slot.value], fm.l.valueSize) else r == None
    decreases h
  {
    hide Represents, Stands, Code, CStr, Layout.OK, RealOffset, MaxDegree.NodeBytes, Straddles, ReadFits, ValueStands, Occupied, InOrder, EntriesOf;
    PageThere(file[..], t, pages, values, fm);
    var q := GetNodePage(file, offset, PageOf(t), fm);
    var p := q.page;
    StoodFor(p, t, fm);
    var k := Code(key, fm.keySize);
    var codes := seq(p.size, i requires 0 <= i < p.size => Code(CStr(p.keys[i]), fm.keySize));
    if p.flag == LEAF_FLAG {
      var i := FirstGE(codes, k);
      if i < |codes| && codes[i] == k {
        assert t.items[i] in Entries(t);
        r := GetValue(file, p.childs[i], fm, pages, values);
      } else {
        r := None;
      }
    } else {
      var i := FirstGT(codes, k);
      ghost var c := t.kids[i];
      KidEntries(t.kids, i);
      r := GetOnBytes(file, p.childs[i], key, fm, c, pages, values, h - 1, Lo(t.keys, i, lo), Hi(t.keys, i, hi));
    }
  }

  lemma PageThere(f: seq<byte>, t: Tree, pages: map<Ref, Page>, values: map<Ref, Value>, fm: Format)
    requires fm.OK() && Represents(f, pages, values, fm) && Stored(t, pages)
    ensures NodeAt(f, t.id, PageOf(t), fm)
  {
  }

  method GetValue(file: array<byte>, offset: Ref, fm: Format, ghost pages: map<Ref, Page>, ghost values: map<Ref, Value>)
    returns (r: Option<seq<byte>>)
    requires fm.OK() && Represents(file[..], pages, values, fm) && offset in values
    ensures r.Some? && ValueStands(r.value, values[offset], fm.l.valueSize)
  {
    hide RealOffset, ValueStands, NodeAt;
    var at := RealOffset(fm.l, offset);
    assert ValueAt(file[..], offset, values[offset], fm);
    var value := GetValueFromFile(file, at, fm.l.valueSize);
    r := Some(value[..]);
    assert file[..][at..at + fm.l.valueSize] == file[at..at + fm.l.valueSize];
  }

  // After a run has been performed on the bytes of a file, whatever they were, a get that starts
  // from the header's root returns the value that the plain map has, as a string, or nothing.
  method GetAfterRun(file: array<byte>, root: Ref, key: seq<byte>, fm: Format, ghost ops: seq<Op>, ghost sts: seq<Store>,
                     ghost rs: seq<Result>, ghost limit: Key, ghost logs: seq<seq<Write>>, ghost f: seq<byte>)
    returns (r: Option<seq<byte>>)
    requires fm.OK() && Allowed(ops, limit) && LoggedRun(ops, sts, rs, logs, fm)
    requires fm.NodeSize() <= fm.l.pageSize && !Straddles(fm.NodeSize()) && ReadFits(fm.degree, fm.keySize)
    requires |f| >= fm.l.header + sts[|ops|].disk.filePages * fm.l.pageSize
    requires file[..] == PerformedRun(f, logs, fm.l) && root == sts[|ops|].header
    ensures var m, k := MapRun(map[], ops).0, Code(key, fm.keySize);
            if k in m then
              r.Some? && ValueStands(r.value, m[k], fm.l.valueSize) && (ZeroFree(m[k]) ==> Text(CStr(r.value)) == m[k])
            else r == None
  {
    hide Step, New, Shaped, GeometryOK, DiskOK, HeldNode, HeldSlot, WF, Stored, Find, Height, Code, Layout.OK, RealOffset,
      MaxDegree.NodeBytes, Straddles, ReadFits, ValueStands, StepLogged, LogOK, Logged, Represents;
    FormatGeometry(fm);
    RunBytes(ops, sts, rs, limit, logs, f, fm);
    RunRefinesMap(GeometryOf(fm), ops, sts, rs, limit);
    ghost var st, m, k := sts[|ops|], MapRun(map[], ops).0, Code(key, fm.keySize);
    InvOwns(st, limit);
    FindLive(st, k, limit);
    assert GetKey(st, k) == if k in m then Some(m[k]) else None;
    r := GetOnBytes(file, root, key, fm, st.root, st.disk.pages, st.disk.values, Height(st.root), 0, limit);
    if k in m && ZeroFree(m[k]) {
      ValueAsString(r.value, m[k], fm.l.valueSize);
    }
  }
}
