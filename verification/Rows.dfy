/** Facts about the rows of keys and references that node arrays hold. */
module Rows {
  import opened Pages
  import opened Trees
  import opened Insertion
  import opened Removal

  // Where a right-to-left shift stops.
  lemma InsertionPoint(s: seq<Key>, k: Key, i: nat)
    requires Sorted(s) && k !in s && i <= |s|
    requires i > 0 ==> s[i - 1] <= k
    requires i < |s| ==> s[i] > k
    ensures FirstGE(s, k) == i && FirstGT(s, k) == i
  {
    assert i > 0 ==> s[i - 1] in s;
  }

  // Cutting a row after an insertion is inserting into one of its halves.
  lemma CutInsert<T>(s: seq<T>, i: nat, x: T, d: nat)
    requires i <= |s| && d <= |s|
    ensures i <= d ==> InsertAt(s, i, x)[..d + 1] == InsertAt(s[..d], i, x) && InsertAt(s, i, x)[d + 1..] == s[d..]
    ensures i >= d ==> InsertAt(s, i, x)[..d] == s[..d] && InsertAt(s, i, x)[d..] == InsertAt(s[d..], i - d, x)
  {
  }

  lemma FirstGECut(s: seq<Key>, k: Key, d: nat)
    requires Sorted(s) && d <= |s|
    ensures FirstGE(s, k) <= d ==> FirstGE(s[..d], k) == FirstGE(s, k)
    ensures FirstGE(s, k) >= d ==> FirstGE(s[d..], k) == FirstGE(s, k) - d
  {
    hide FirstGE;
    var i := FirstGE(s, k);
    if i <= d { FirstGEIs(s[..d], k, i); }
    if i >= d { FirstGEIs(s[d..], k, i - d); }
  }

  lemma FirstGTIs(s: seq<Key>, k: Key, i: nat)
    requires Sorted(s) && i <= |s| && (i > 0 ==> s[i - 1] <= k) && (i < |s| ==> k < s[i])
    ensures FirstGT(s, k) == i
  {
  }

  lemma FirstGTCut(s: seq<Key>, k: Key, d: nat)
    requires Sorted(s) && d <= |s|
    ensures FirstGT(s, k) <= d ==> FirstGT(s[..d], k) == FirstGT(s, k)
    ensures FirstGT(s, k) >= d ==> FirstGT(s[d..], k) == FirstGT(s, k) - d
  {
    hide FirstGT;
    var i := FirstGT(s, k);
    if i <= d { FirstGTIs(s[..d], k, i); }
    if i >= d { FirstGTIs(s[d..], k, i - d); }
  }

  // Writing a half before and after its neighbour is writing it once.
  lemma FlushTwice(s: Disk, a: Ref, p: Page, b: Ref, q: Page)
    ensures Flush(Flush(Flush(s, a, p), b, q), a, p) == Flush(Flush(s, b, q), a, p)
    ensures Flush(Flush(Flush(s, b, q), b, q), a, p) == Flush(Flush(s, b, q), a, p)
  {
  }

  // The two halves of a leaf after an entry has joined one of them.
  ghost function HalfPages(lk: seq<Key>, lc: seq<Ref>, rk: seq<Key>, rc: seq<Ref>, key: Key, slot: Ref): (r: (Page, Page))
    requires 0 < |lk| == |lc| && |rk| == |rc|
    ensures r.0.LeafPage? && r.1.LeafPage?
  {
    if lk[|lk| - 1] > key then
      (LeafPage(InsertAt(lk, FirstGE(lk, key), key), InsertAt(lc, FirstGE(lk, key), slot)), LeafPage(rk, rc))
    else
      (LeafPage(lk, lc), LeafPage(InsertAt(rk, FirstGE(rk, key), key), InsertAt(rc, FirstGE(rk, key), slot)))
  }

  // Both halves of the page of a leaf are the pages of the halves of the leaf.
  lemma HalvesOfLeaf(items: seq<Entry>, k: Key, slot: Ref, d: nat, id: Ref, rid: Ref)
    requires d >= 2 && |items| == 2 * d - 1 && Sorted(KeysOf(items)) && k !in KeysOf(items)
    ensures var (ks, cs) := (KeysOf(items), SlotsOf(items));
            var i := FirstGE(ks, k);
            var (l, r) := CutLeaf(id, rid, InsertAt(items, i, Entry(k, slot)), LeafCut(items, k, d));
            HalfPages(ks[..d], cs[..d], ks[d..], cs[d..], k, slot) == (PageOf(l), PageOf(r))
  {
    hide InsertAt, FirstGE, KeysOf, SlotsOf;
    var ks, cs := KeysOf(items), SlotsOf(items);
    var i := FirstGE(ks, k);
    assert items[d - 1].key == ks[d - 1] && ks[d - 1] != k;
    FirstGECut(ks, k, d);
    CutInsert(ks, i, k, d);
    CutInsert(cs, i, slot, d);
    HalvesCut(items, i, Entry(k, slot), LeafCut(items, k, d));
  }

  lemma HalvesCut(items: seq<Entry>, i: nat, e: Entry, m: nat)
    requires i <= |items| && m <= |items| + 1
    ensures var es := InsertAt(items, i, e); var ks, cs := InsertAt(KeysOf(items), i, e.key), InsertAt(SlotsOf(items), i, e.slot);
            && KeysOf(es) == ks && SlotsOf(es) == cs
            && KeysOf(es[..m]) == ks[..m] && SlotsOf(es[..m]) == cs[..m]
            && KeysOf(es[m..]) == ks[m..] && SlotsOf(es[m..]) == cs[m..]
  {
    var es := InsertAt(items, i, e);
    assert KeysOf(es) == InsertAt(KeysOf(items), i, e.key);
    assert SlotsOf(es) == InsertAt(SlotsOf(items), i, e.slot);
  }

  // A leaf split, told in pages.
  lemma LeafSplitPages(t: Tree, k: Key, v: Value, s: Disk)
    requires t.Leaf? && GeometryOK(s.g) && |t.items| == 2 * s.g.degree - 1
    requires Sorted(KeysOf(t.items)) && k !in KeysOf(t.items)
    ensures var d, ks, cs := s.g.degree, KeysOf(t.items), SlotsOf(t.items);
            var o := LeafSplit(t, FirstGE(ks, k), k, v, s);
            var (s1, rid) := AppendNode(s, LeafPage([], []));
            var (s2, slot) := NewValue(s1, v);
            var (l, r) := HalfPages(ks[..d], cs[..d], ks[d..], cs[d..], k, slot);
            && o.grown.Two? && PageOf(o.grown.l) == l && o.grown.l.id == t.id && o.grown.r.id == rid
            && |r.keys| > 0 && o.grown.sep == r.keys[0]
            && o.disk == Flush(Flush(s2, rid, r), t.id, l)
  {
    hide NewValue, AppendNode, HalfPages;
    var (s1, rid) := AppendNode(s, LeafPage([], []));
    HalvesOfLeaf(t.items, k, NewValue(s1, v).1, s.g.degree, t.id, rid);
  }

  lemma LeafAddPages(t: Tree, k: Key, v: Value, s: Disk)
    requires t.Leaf? && GeometryOK(s.g)
    ensures var ks, cs := KeysOf(t.items), SlotsOf(t.items);
            var i := FirstGE(ks, k);
            var o := LeafAdd(t, i, k, v, s);
            var (s1, slot) := NewValue(s, v);
            var p := LeafPage(InsertAt(ks, i, k), InsertAt(cs, i, slot));
            o.grown.One? && PageOf(o.grown.t) == p && o.grown.t.id == t.id && o.disk == Flush(s1, t.id, p)
  {
    hide NewValue;
    var i := FirstGE(KeysOf(t.items), k);
    HalvesCut(t.items, i, Entry(k, NewValue(s, v).1), 0);
  }

  // ----- internal nodes -----

  // The two halves of an internal node, after a separator has joined one of them.
  ghost function NodeHalves(lk: seq<Key>, lc: seq<Ref>, mid: Key, rk: seq<Key>, rc: seq<Ref>, key: Key, child: Ref): (r: (Page, Page))
    requires |lc| == |lk| + 1 && |rc| == |rk| + 1
    ensures r.0.NodePage? && r.1.NodePage?
  {
    if mid > key then
      (NodePage(InsertAt(lk, FirstGT(lk, key), key), InsertAt(lc, FirstGT(lk, key) + 1, child)), NodePage(rk, rc))
    else
      (NodePage(lk, lc), NodePage(InsertAt(rk, FirstGT(rk, key), key), InsertAt(rc, FirstGT(rk, key) + 1, child)))
  }

  lemma HalvesOfRow(ks: seq<Key>, cs: seq<Ref>, sep: Key, child: Ref, d: nat)
    requires d >= 2 && |ks| == 2 * d - 1 && |cs| == 2 * d && Sorted(ks) && sep !in ks
    ensures var p, m := FirstGT(ks, sep), NodeCut(ks, sep, d);
            var k, c := InsertAt(ks, p, sep), InsertAt(cs, p + 1, child);
            && k[m] == ks[d - 1]
            && NodeHalves(ks[..d - 1], cs[..d], ks[d - 1], ks[d..], cs[d..], sep, child)
               == (NodePage(k[..m], c[..m + 1]), NodePage(k[m + 1..], c[m + 1..]))
  {
    hide FirstGT, InsertAt;
    assert ks[d - 1] != sep && ks[d - 1] in ks;
    if ks[d - 1] > sep {
      LeftHalfOfRow(ks, cs, sep, child, d);
    } else {
      RightHalfOfRow(ks, cs, sep, child, d);
    }
  }

  lemma LeftHalfOfRow(ks: seq<Key>, cs: seq<Ref>, sep: Key, child: Ref, d: nat)
    requires d >= 2 && |ks| == 2 * d - 1 && |cs| == 2 * d && Sorted(ks) && ks[d - 1] > sep
    ensures var p := FirstGT(ks, sep);
            var k, c := InsertAt(ks, p, sep), InsertAt(cs, p + 1, child);
            && k[d] == ks[d - 1]
            && FirstGT(ks[..d - 1], sep) == p && InsertAt(ks[..d - 1], p, sep) == k[..d] && ks[d..] == k[d + 1..]
            && InsertAt(cs[..d], p + 1, child) == c[..d + 1] && cs[d..] == c[d + 1..]
  {
    hide FirstGT, InsertAt;
    var p := FirstGT(ks, sep);
    FirstGTCut(ks, sep, d - 1);
    CutInsert(cs, p + 1, child, d);
    CutLeft(ks, p, sep, d - 1);
  }

  lemma RightHalfOfRow(ks: seq<Key>, cs: seq<Ref>, sep: Key, child: Ref, d: nat)
    requires d >= 2 && |ks| == 2 * d - 1 && |cs| == 2 * d && Sorted(ks) && ks[d - 1] < sep
    ensures var p := FirstGT(ks, sep);
            var k, c := InsertAt(ks, p, sep), InsertAt(cs, p + 1, child);
            && p >= d && k[d - 1] == ks[d - 1] && ks[..d - 1] == k[..d - 1] && cs[..d] == c[..d]
            && FirstGT(ks[d..], sep) == p - d && InsertAt(ks[d..], p - d, sep) == k[d..]
            && InsertAt(cs[d..], p - d + 1, child) == c[d..]
  {
    hide FirstGT, InsertAt;
    var p := FirstGT(ks, sep);
    FirstGTCut(ks, sep, d);
    CutInsert(cs, p + 1, child, d);
    CutRight(ks, p, sep, d - 1);
  }

  lemma CutLeft(ks: seq<Key>, p: nat, x: Key, n: nat)
    requires p <= n < |ks|
    ensures var k := InsertAt(ks, p, x); k[..n + 1] == InsertAt(ks[..n], p, x) && k[n + 1] == ks[n] && k[n + 2..] == ks[n + 1..]
  {
  }

  lemma CutRight(ks: seq<Key>, p: nat, x: Key, n: nat)
    requires n < p <= |ks|
    ensures var k := InsertAt(ks, p, x); k[..n] == ks[..n] && k[n] == ks[n] && k[n + 1..] == InsertAt(ks[n + 1..], p - n - 1, x)
  {
  }

  // The page of a widened row of children, and of its two parts.
  lemma WidenedIds(kids: seq<Tree>, i: nat, p: nat, l: Tree, r: Tree, m: nat)
    requires i < |kids| && p < |kids| && l.id == kids[i].id && m <= |kids| + 1
    ensures var (c, ids) := (InsertAt(kids[i := l], p + 1, r), InsertAt(KidIds(kids), p + 1, r.id));
            KidIds(c) == ids && KidIds(c[..m]) == ids[..m] && KidIds(c[m..]) == ids[m..]
  {
    var c, ids := InsertAt(kids[i := l], p + 1, r), InsertAt(KidIds(kids), p + 1, r.id);
    assert KidIds(c) == ids;
    assert KidIds(c[..m]) == ids[..m];
    assert KidIds(c[m..]) == ids[m..];
  }

  lemma CutInRange(keys: seq<Key>, sep: Key, d: nat)
    requires d >= 2 && |keys| <= 2 * d - 1
    ensures |keys| == 2 * d - 1 ==> NodeCut(keys, sep, d) < |keys|
  {
  }

  // Widening, told in pages.
  lemma WidenPages(t: Tree, i: nat, l: Tree, sep: Key, r: Tree, s: Disk)
    requires t.Node? && |t.kids| == |t.keys| + 1 && i < |t.kids| && |t.keys| <= 2 * s.g.degree - 1 && s.g.degree >= 2
    requires l.id == t.kids[i].id && Sorted(t.keys) && sep !in t.keys
    ensures var (g, s1) := Widen(t, i, l, sep, r, s); var d, ks, cs := s.g.degree, t.keys, KidIds(t.kids);
            Head(g).id == t.id &&
            if |ks| < 2 * d - 1 then
              var p := NodePage(InsertAt(ks, FirstGT(ks, sep), sep), InsertAt(cs, FirstGT(ks, sep) + 1, r.id));
              g.One? && PageOf(g.t) == p && s1 == Flush(s, t.id, p)
            else
              var (sa, rid) := AppendNode(s, NodePage([], [0]));
              var (a, b) := NodeHalves(ks[..d - 1], cs[..d], ks[d - 1], ks[d..], cs[d..], sep, r.id);
              g.Two? && PageOf(g.l) == a && g.r.id == rid && g.sep == ks[d - 1] && s1 == Flush(Flush(sa, rid, b), t.id, a)
  {
    hide AppendNode, NodeHalves, FirstGT, InsertAt, NodeCut, Flush;
    CutInRange(t.keys, sep, s.g.degree);
    Longer(t.keys, FirstGT(t.keys, sep), sep);
    Longer(t.kids[i := l], FirstGT(t.keys, sep) + 1, r);
    Longer(KidIds(t.kids), FirstGT(t.keys, sep) + 1, r.id);
    var m := NodeCut(t.keys, sep, s.g.degree);
    WidenedIds(t.kids, i, FirstGT(t.keys, sep), l, r, if m + 1 <= |t.kids| + 1 then m + 1 else 0);
    if |t.keys| == 2 * s.g.degree - 1 {
      HalvesOfRow(t.keys, KidIds(t.kids), sep, r.id, s.g.degree);
    }
  }

  lemma SepAbsent(keys: seq<Key>, i: nat, sep: Key, lo: Key, hi: Key)
    requires Sorted(keys) && i <= |keys| && Lo(keys, i, lo) < sep < Hi(keys, i, hi)
    ensures sep !in keys
  {
  }

  lemma SameIdsSamePage(t: Tree, i: nat, c: Tree)
    requires t.Node? && i < |t.kids| && c.id == t.kids[i].id
    ensures PageOf(Node(t.id, t.keys, t.kids[i := c])) == PageOf(t)
  {
    assert KidIds(t.kids[i := c]) == KidIds(t.kids);
  }

  // ----- repairs, told in pages -----

  lemma FromRightPages(a: Tree, sep: Key, b: Tree)
    requires (a.Leaf? && b.Leaf? && |b.items| >= 2) || (a.Node? && b.Node? && |b.kids| == |b.keys| + 1 && |b.keys| >= 1)
    ensures var (p, x, y) := (FromRight(a, sep, b), PageOf(a), PageOf(b));
            && p.a.id == a.id && p.b.id == b.id
            && (if a.Leaf? then
                  PageOf(p.a) == LeafPage(x.keys + [y.keys[0]], x.refs + [y.refs[0]])
                  && PageOf(p.b) == LeafPage(y.keys[1..], y.refs[1..]) && p.sep == y.keys[1]
                else
                  PageOf(p.a) == NodePage(x.keys + [sep], x.refs + [y.refs[0]])
                  && PageOf(p.b) == NodePage(y.keys[1..], y.refs[1..]) && p.sep == y.keys[0])
  {
  }

  lemma FromLeftPages(a: Tree, sep: Key, b: Tree)
    requires (a.Leaf? && b.Leaf? && |a.items| >= 1) || (a.Node? && b.Node? && |a.kids| == |a.keys| + 1 && |a.keys| >= 1)
    ensures var (p, x, y) := (FromLeft(a, sep, b), PageOf(a), PageOf(b)); var n := |x.keys| - 1;
            && p.a.id == a.id && p.b.id == b.id
            && (if a.Leaf? then
                  PageOf(p.a) == LeafPage(x.keys[..n], x.refs[..n])
                  && PageOf(p.b) == LeafPage([x.keys[n]] + y.keys, [x.refs[n]] + y.refs) && p.sep == x.keys[n]
                else
                  PageOf(p.a) == NodePage(x.keys[..n], x.refs[..n + 1])
                  && PageOf(p.b) == NodePage([sep] + y.keys, [x.refs[n + 1]] + y.refs) && p.sep == x.keys[n])
  {
  }

  lemma FusedPages(id: Ref, a: Tree, sep: Key, b: Tree)
    requires a.Leaf? == b.Leaf?
    ensures a.Leaf? ==>
              PageOf(Fused(id, a, sep, b)) == LeafPage(PageOf(a).keys + PageOf(b).keys, PageOf(a).refs + PageOf(b).refs)
    ensures a.Node? ==>
              PageOf(Fused(id, a, sep, b)) == NodePage(PageOf(a).keys + [sep] + PageOf(b).keys, PageOf(a).refs + PageOf(b).refs)
  {
  }

  lemma ShiftedFather(f: Tree, j: nat, p: Pair, w: Ref)
    requires f.Node? && |f.kids| == |f.keys| + 1 && j < |f.keys| && p.a.id == f.kids[j].id && p.b.id == f.kids[j + 1].id
    ensures PageOf(Apply(f, Shift(j, p, w))) == NodePage(f.keys[j := p.sep], KidIds(f.kids))
  {
    assert KidIds(f.kids[j := p.a][j + 1 := p.b]) == KidIds(f.kids);
  }

  lemma MergedFather(f: Tree, j: nat, c: Tree, x: Ref)
    requires f.Node? && |f.kids| == |f.keys| + 1 && j < |f.keys|
    ensures PageOf(Apply(f, Merge(j, c, x))) == NodePage(RemoveAt(f.keys, j), RemoveAt(KidIds(f.kids), j)[j := c.id])
  {
    assert KidIds(f.kids[..j] + [c] + f.kids[j + 2..]) == RemoveAt(KidIds(f.kids), j)[j := c.id];
  }

  // The page of child i, and of the father, after a repair; and what was written.
  ghost predicate RepairIs(f: Tree, i: nat, d: nat, s: Disk, child: Page, father: Page, s1: Disk)
    requires f.Node? && |f.kids| == |f.keys| + 1 && |f.keys| >= 1 && i < |f.kids|
  {
    var r := Choose(f, i, d);
    var f1 := Apply(f, r);
    var c := f1.kids[RepairedAt(r, i)];
    PageOf(c) == child && c.id == f.kids[i].id && PageOf(f1) == father && RepairDisk(r, i, s) == s1
  }

  ghost predicate Repairable(f: Tree, i: nat, d: nat) {
    && d >= 2 && f.Node? && |f.kids| == |f.keys| + 1 && |f.keys| >= 1 && i < |f.kids| && Alike(f.kids, i)
  }

  // All are leaves or none is, and each has one child more than keys.
  ghost predicate Alike(kids: seq<Tree>, i: nat) requires i < |kids| {
    forall j :: 0 <= j < |kids| ==> kids[j].Leaf? == kids[i].Leaf? && (kids[j].Node? ==> |kids[j].kids| == |kids[j].keys| + 1)
  }

  lemma BorrowRightPages(f: Tree, i: nat, d: nat, s: Disk)
    requires Repairable(f, i, d) && i < |f.keys| && Size(f.kids[i + 1]) > d - 1
    ensures var (n, y) := (PageOf(f.kids[i]), PageOf(f.kids[i + 1])); var id := f.kids[i + 1].id;
            if f.kids[i].Leaf? then
              RepairIs(f, i, d, s, LeafPage(n.keys + [y.keys[0]], n.refs + [y.refs[0]]),
                NodePage(f.keys[i := y.keys[1]], KidIds(f.kids)), Flush(s, id, LeafPage(y.keys[1..], y.refs[1..])))
            else
              RepairIs(f, i, d, s, NodePage(n.keys + [f.keys[i]], n.refs + [y.refs[0]]),
                NodePage(f.keys[i := y.keys[0]], KidIds(f.kids)), Flush(s, id, NodePage(y.keys[1..], y.refs[1..])))
  {
    hide FromRight, FromLeft, Fused, Flush;
    FromRightPages(f.kids[i], f.keys[i], f.kids[i + 1]);
    ShiftedFather(f, i, Choose(f, i, d).p, f.kids[i + 1].id);
  }

  lemma BorrowLeftPages(f: Tree, i: nat, d: nat, s: Disk)
    requires Repairable(f, i, d) && !(i < |f.keys| && Size(f.kids[i + 1]) > d - 1)
    requires i > 0 && Size(f.kids[i - 1]) > d - 1
    ensures var (n, x) := (PageOf(f.kids[i]), PageOf(f.kids[i - 1])); var id, m := f.kids[i - 1].id, |x.keys| - 1;
            if f.kids[i].Leaf? then
              RepairIs(f, i, d, s, LeafPage([x.keys[m]] + n.keys, [x.refs[m]] + n.refs),
                NodePage(f.keys[i - 1 := x.keys[m]], KidIds(f.kids)), Flush(s, id, LeafPage(x.keys[..m], x.refs[..m])))
            else
              RepairIs(f, i, d, s, NodePage([f.keys[i - 1]] + n.keys, [x.refs[m + 1]] + n.refs),
                NodePage(f.keys[i - 1 := x.keys[m]], KidIds(f.kids)), Flush(s, id, NodePage(x.keys[..m], x.refs[..m + 1])))
  {
    hide FromRight, FromLeft, Fused, Flush;
    FromLeftPages(f.kids[i - 1], f.keys[i - 1], f.kids[i]);
    ShiftedFather(f, i - 1, Choose(f, i, d).p, f.kids[i - 1].id);
  }

  lemma MergePages(f: Tree, i: nat, d: nat, s: Disk)
    requires Repairable(f, i, d) && !(i < |f.keys| && Size(f.kids[i + 1]) > d - 1)
    requires !(i > 0 && Size(f.kids[i - 1]) > d - 1)
    ensures var j := if i > 0 then i - 1 else 0;
            var (x, y) := (PageOf(f.kids[j]), PageOf(f.kids[j + 1]));
            var freed := if i > 0 then f.kids[j].id else f.kids[j + 1].id;
            RepairIs(f, i, d, s,
              if f.kids[i].Leaf? then LeafPage(x.keys + y.keys, x.refs + y.refs)
              else NodePage(x.keys + [f.keys[j]] + y.keys, x.refs + y.refs),
              NodePage(RemoveAt(f.keys, j), RemoveAt(KidIds(f.kids), j)[j := f.kids[i].id]), FreeNode(s, freed))
  {
    hide FromRight, FromLeft, Fused, FreeNode;
    var j := if i > 0 then i - 1 else 0;
    FusedPages(f.kids[i].id, f.kids[j], f.keys[j], f.kids[j + 1]);
    MergedFather(f, j, Fused(f.kids[i].id, f.kids[j], f.keys[j], f.kids[j + 1]), if i > 0 then f.kids[j].id else f.kids[j + 1].id);
  }
}
