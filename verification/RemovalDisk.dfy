/** What removing a key does to the disk: the books stay balanced, and the disk stores the
    new tree. */
module RemovalDisk {
  import opened Pages
  import opened Trees
  import opened Accounts
  import opened Allocators
  import opened Ownership
  import opened Insertion
  import opened InsertionDisk
  import opened InsertionStored
  import opened Removal
  import opened RemovalTree
  import opened RemovalContent

  // ----- pages owned before and after a repair -----

  lemma FromRightIds(a: Tree, sep: Key, b: Tree)
    ensures var p := FromRight(a, sep, b); Ids(p.a) + Ids(p.b) == Ids(a) + Ids(b)
  {
    if a.Node? && b.Node? && |b.kids| == |b.keys| + 1 && |b.keys| >= 1 {
      assert b.kids == [b.kids[0]] + b.kids[1..];
      MovedIds(a.kids, [b.kids[0]], b.kids[1..]);
      TwoNodes(a.id, IdsOf(a.kids), b.id, IdsOf(b.kids), IdsOf(a.kids + [b.kids[0]]), IdsOf(b.kids[1..]));
    }
  }

  lemma MovedIds(a: seq<Tree>, m: seq<Tree>, b: seq<Tree>)
    ensures IdsOf(a + m) + IdsOf(b) == IdsOf(a) + IdsOf(m + b)
  {
    hide IdsOf;
    IdsOfAppend(a, m);
    IdsOfAppend(m, b);
  }

  lemma TwoNodes(i: Ref, x: multiset<Ref>, j: Ref, y: multiset<Ref>, x1: multiset<Ref>, y1: multiset<Ref>)
    requires x1 + y1 == x + y
    ensures (multiset{i} + x1) + (multiset{j} + y1) == (multiset{i} + x) + (multiset{j} + y)
  {
    assert (multiset{i} + x1) + (multiset{j} + y1) == multiset{i} + multiset{j} + (x1 + y1);
  }

  lemma FromLeftIds(a: Tree, sep: Key, b: Tree)
    ensures var p := FromLeft(a, sep, b); Ids(p.a) + Ids(p.b) == Ids(a) + Ids(b)
  {
    if a.Node? && b.Node? && |a.kids| == |a.keys| + 1 && |a.keys| >= 1 {
      var n := |a.keys|;
      assert a.kids == a.kids[..n] + [a.kids[n]];
      MovedIds(a.kids[..n], [a.kids[n]], b.kids);
      TwoNodes(a.id, IdsOf(a.kids), b.id, IdsOf(b.kids), IdsOf(a.kids[..n]), IdsOf([a.kids[n]] + b.kids));
    }
  }

  lemma FusedIds(id: Ref, freed: Ref, a: Tree, sep: Key, b: Tree)
    requires a.Leaf? == b.Leaf? && multiset{id, freed} == multiset{a.id, b.id}
    ensures Ids(Fused(id, a, sep, b)) + multiset{freed} == Ids(a) + Ids(b)
  {
    if a.Node? {
      IdsOfAppend(a.kids, b.kids);
      FusedSum(id, freed, a.id, IdsOf(a.kids), b.id, IdsOf(b.kids));
    }
  }

  lemma FusedSum(id: Ref, freed: Ref, i: Ref, x: multiset<Ref>, j: Ref, y: multiset<Ref>)
    requires multiset{id, freed} == multiset{i, j}
    ensures (multiset{id} + (x + y)) + multiset{freed} == (multiset{i} + x) + (multiset{j} + y)
  {
    assert (multiset{id} + (x + y)) + multiset{freed} == multiset{id, freed} + (x + y);
    assert (multiset{i} + x) + (multiset{j} + y) == multiset{i, j} + (x + y);
  }

  function Freed(r: Repair): multiset<Ref> {
    if r.Shift? then multiset{} else multiset{r.freed}
  }

  lemma ChooseIds(f: Tree, i: nat, d: nat)
    requires f.Node? && |f.kids| == |f.keys| + 1 && |f.keys| >= 1 && i < |f.kids| && SameKind(f.kids)
    ensures var r := Choose(f, i, d);
            var x := Ids(f.kids[r.j]) + Ids(f.kids[r.j + 1]);
            if r.Shift? then Ids(r.p.a) + Ids(r.p.b) == x else Ids(r.c) + multiset{r.freed} == x
  {
    hide FromRight, FromLeft, Fused, Ids;
    var r := Choose(f, i, d);
    var a, sep, b := f.kids[r.j], f.keys[r.j], f.kids[r.j + 1];
    if r.Shift? {
      if r.j == i { FromRightIds(a, sep, b); } else { FromLeftIds(a, sep, b); }
    } else {
      FusedIds(r.c.id, r.freed, a, sep, b);
    }
  }

  lemma RepairIds(f: Tree, i: nat, d: nat)
    requires f.Node? && |f.kids| == |f.keys| + 1 && |f.keys| >= 1 && i < |f.kids| && SameKind(f.kids)
    ensures var r := Choose(f, i, d); Ids(Apply(f, r)) + Freed(r) == Ids(f)
  {
    hide Choose, Ids, IdsOf;
    var r := Choose(f, i, d);
    ChooseIds(f, i, d);
    var j := r.j;
    var L, R := f.kids[..j], f.kids[j + 2..];
    assert f.kids == L + [f.kids[j], f.kids[j + 1]] + R;
    IdsOfThree(L, [f.kids[j], f.kids[j + 1]], R);
    IdsOfTwo(f.kids[j], f.kids[j + 1]);
    IdsOfNode(f);
    IdsOfNode(Apply(f, r));
    match r
    case Shift(_, p, _) =>
      assert Apply(f, r).kids == L + [p.a, p.b] + R;
      IdsOfThree(L, [p.a, p.b], R);
      IdsOfTwo(p.a, p.b);
    case Merge(_, c, _) =>
      IdsOfThree(L, [c], R);
      IdsOfOne(c);
      MergedSum(multiset{f.id}, IdsOf(L), Ids(c), IdsOf(R), multiset{r.freed});
  }

  lemma MergedSum(n: multiset<Ref>, l: multiset<Ref>, c: multiset<Ref>, r: multiset<Ref>, x: multiset<Ref>)
    ensures (n + (l + c + r)) + x == n + (l + (c + x) + r)
  {
  }

  lemma IdsOfNode(t: Tree)
    requires t.Node?
    ensures Ids(t) == multiset{t.id} + IdsOf(t.kids)
  {
  }

  // ----- the books -----

  // The pages involved in a repair belong to f.
  lemma KidPages(f: Tree, i: nat, s: Disk)
    requires f.Node? && i < |f.kids| && Apart(Ids(f), s)
    ensures f.kids[i].id in s.pages
  {
    IdsWithin(f.kids, i);
    Owns(Ids(f), s, f.kids[i].id);
  }

  lemma RepairBooks(f: Tree, i: nat, s: Disk)
    requires f.Node? && |f.kids| == |f.keys| + 1 && |f.keys| >= 1 && i < |f.kids| && SameKind(f.kids)
    requires DiskOK(s) && Apart(Ids(f), s)
    ensures var r := Choose(f, i, s.g.degree);
            var s1 := RepairDisk(r, i, s);
            && DiskOK(s1) && SameValues(s, s1) && NodesKept(Ids(f), s, Ids(Apply(f, r)), s1)
            && s1.pages.Keys == s.pages.Keys
  {
    hide Ids, IdsOf, DiskOK, HeldNode, Apart, Apply, FromLeft, FromRight, Fused;
    var r := Choose(f, i, s.g.degree);
    KidPages(f, r.j, s);
    KidPages(f, r.j + 1, s);
    RepairIds(f, i, s.g.degree);
    match r
    case Shift(j, p, id) =>
      FlushBooks(Ids(f), s, id, PageOf(if j == i then p.b else p.a));
      assert Ids(Apply(f, r)) == Ids(f);
    case Merge(_, _, id) =>
      FreeNodeBooks(Ids(Apply(f, r)), s, id);
  }

  // Pages were rewritten or freed and at most one slot was freed; nothing was allocated.
  ghost predicate SlotFreed(s: Disk, s1: Disk, ok: bool, slot: Ref) {
    && s1.g == s.g && s1.pages.Keys == s.pages.Keys && s1.values == s.values && s1.cursor == s.cursor
    && s1.delValues == (if ok then s.delValues + [slot] else s.delValues)
  }

  lemma PushSlot(s: Disk, slot: Ref)
    requires DiskOK(s) && slot in s.values
    ensures DiskOK(s.(delValues := s.delValues + [slot]))
    ensures forall x, p: Ref :: HeldNode(x, s.(delValues := s.delValues + [slot]), p) == HeldNode(x, s, p)
  {
  }

  lemma DropEntryBooks(x: multiset<Ref>, c: Tree, k: Key, s: Disk)
    requires DiskOK(s) && Holds(c, k) && c.id in s.pages && SlotsLive(c, s)
    ensures var e := DropEntry(c, k, s);
            DiskOK(e.disk) && NodesKept(x, s, x, e.disk) && SlotFreed(s, e.disk, true, e.slot)
  {
    hide DiskOK;
    var e := DropEntry(c, k, s);
    var i := FirstGE(KeysOf(c.items), k);
    assert c.items[i] in Entries(c);
    PushSlot(s, e.slot);
    var s1 := s.(delValues := s.delValues + [e.slot]);
    FlushBooks(x, s1, c.id, PageOf(e.t));
    NodesThen(x, s, x, s1, x, e.disk);
  }

  // The result of a removal below f, on disk.
  ghost predicate DroppedOK(f: Tree, s: Disk, r: Dropped) {
    DiskOK(r.disk) && NodesKept(Ids(f), s, Ids(r.t), r.disk) && SlotFreed(s, r.disk, r.ok, r.slot)
  }

  lemma SameIds(f: Tree, i: nat, c: Tree)
    requires f.Node? && i < |f.kids| && Ids(c) == Ids(f.kids[i])
    ensures Ids(WithKid(f, i, c)) == Ids(f)
  {
    hide Ids, IdsOf;
    IdsOfNode(f);
    IdsOfNode(WithKid(f, i, c));
    IdsWithout(f.kids, i);
    IdsReplaced(f.kids, i, c);
  }

  lemma DropKidBooks(f: Tree, i: nat, k: Key, s: Disk)
    requires f.Node? && i < |f.kids| && DiskOK(s) && Apart(Ids(f), s) && Holds(f.kids[i], k) && SlotsLive(f.kids[i], s)
    ensures var e := DropEntry(f.kids[i], k, s);
            DiskOK(e.disk) && NodesKept(Ids(f), s, Ids(WithKid(f, i, e.t)), e.disk) && SlotFreed(s, e.disk, true, e.slot)
  {
    hide DiskOK, HeldNode, Apart, IdsOf;
    var c := f.kids[i];
    KidPages(f, i, s);
    DropEntryBooks(Ids(f), c, k, s);
    SameIds(f, i, DropEntry(c, k, s).t);
  }

  lemma RemoveAtLeafBooks(f: Tree, i: nat, k: Key, s: Disk, lo: Key, hi: Key)
    requires DiskOK(s) && Apart(Ids(f), s) && SlotsLive(f, s)
    requires f.Node? && WF(f, s.g.degree, 1, lo, hi) && |f.kids| == |f.keys| + 1
    requires |f.keys| >= 1 && i < |f.kids| && f.kids[i].Leaf?
    ensures DroppedOK(f, s, RemoveAtLeaf(f, i, k, s))
  {
    hide DropEntry, Choose, Apply, Ids, HeldNode;
    var d := s.g.degree;
    if Holds(f.kids[i], k) {
      if |f.kids[i].items| > d - 1 {
        KidSlotsLive(f, i, s);
        DropKidBooks(f, i, k, s);
      } else {
        ThinLeafBooks(f, i, k, s, lo, hi);
      }
    }
  }

  lemma ThinLeafBooks(f: Tree, i: nat, k: Key, s: Disk, lo: Key, hi: Key)
    requires DiskOK(s) && Apart(Ids(f), s) && SlotsLive(f, s)
    requires f.Node? && WF(f, s.g.degree, 1, lo, hi) && |f.kids| == |f.keys| + 1
    requires |f.keys| >= 1 && i < |f.kids| && Holds(f.kids[i], k) && Size(f.kids[i]) <= s.g.degree - 1
    ensures DroppedOK(f, s, RemoveAtLeaf(f, i, k, s))
  {
    var d := s.g.degree;
    assert d >= 2;
    hide DropEntry, Choose, Apply, Ids, Entries, DiskOK, HeldNode, Apart;
    var r := Choose(f, i, d);
    var f1, i1, s1 := Apply(f, r), RepairedAt(r, i), RepairDisk(r, i, s);
    LeavesSameKind(f, d, 1, lo, hi);
    RepairBooks(f, i, s);
    ApartKept(Ids(f), s, Ids(f1), s1);
    RepairContent(f, i, d);
    KidSlotsLive(f1, i1, s1);
    RepairHolds(f, i, k, d, lo, hi);
    DropKidBooks(f1, i1, k, s1);
    var e := DropEntry(f1.kids[i1], k, s1);
    NodesThen(Ids(f), s, Ids(f1), s1, Ids(WithKid(f1, i1, e.t)), e.disk);
  }

  // Removing a key leaves every page and every slot with exactly one owner.
  lemma {:induction false} RemoveInBooks(f: Tree, i: nat, k: Key, s: Disk, h: nat, lo: Key, hi: Key)
    requires DiskOK(s) && Apart(Ids(f), s) && SlotsLive(f, s)
    requires f.Node? && Shaped(f, s.g.degree) && WF(f, s.g.degree, h, lo, hi) && i < |f.kids|
    ensures DroppedOK(f, s, RemoveIn(f, i, k, s))
    decreases h
  {
    hide Ids, Entries, HeldNode, Apart, Settle;
    var d := s.g.degree;
    var c, lo1, hi1 := f.kids[i], Lo(f.keys, i, lo), Hi(f.keys, i, hi);
    assert WF(c, d, h - 1, lo1, hi1);
    if c.Leaf? {
      assert h == 1;
      RemoveAtLeafBooks(f, i, k, s, lo, hi);
    } else {
      var j := FirstGT(c.keys, k);
      KidApart(f, i, s);
      KidSlotsLive(f, i, s);
      RemoveInBooks(c, j, k, s, h - 1, lo1, hi1);
      RemoveInWF(c, j, k, s, h - 1, lo1, hi1);
      SettleBooks(f, i, s, RemoveIn(c, j, k, s), d, h, lo, hi);
    }
  }

  lemma WithKidKept(f: Tree, i: nat, s: Disk, c: Tree, s1: Disk)
    requires f.Node? && i < |f.kids| && NodesKept(Ids(f.kids[i]), s, Ids(c), s1)
    ensures NodesKept(Ids(f), s, Ids(WithKid(f, i, c)), s1)
  {
    hide Ids, IdsOf, HeldNode;
    KidKept(f, i, s, Ids(c), s1);
    IdsReplaced(f.kids, i, c);
    IdsOfNode(WithKid(f, i, c));
  }

  lemma SettleBooks(f: Tree, i: nat, s: Disk, r: Dropped, d: nat, h: nat, lo: Key, hi: Key)
    requires d == s.g.degree && d >= 2 && f.Node? && |f.keys| >= 1 && |f.kids| == |f.keys| + 1 && i < |f.kids| && h >= 2
    requires WF(f, d, h, lo, hi) && Apart(Ids(f), s) && DroppedOK(f.kids[i], s, r)
    requires WF(r.t, d, h - 1, Lo(f.keys, i, lo), Hi(f.keys, i, hi))
    ensures var (f1, s1) := Settle(WithKid(f, i, r.t), i, r.disk); DroppedOK(f, s, Dropped(f1, r.ok, r.slot, s1))
  {
    hide Ids, Apart, HeldNode, DiskOK, Choose, Apply, RepairDisk;
    var f0 := WithKid(f, i, r.t);
    WithKidKept(f, i, s, r.t, r.disk);
    ApartKept(Ids(f), s, Ids(f0), r.disk);
    ReplaceKid(f.keys, f.kids, i, r.t, d, h - 1, lo, hi);
    LeavesSameKind(f0, d, h, lo, hi);
    var p := Choose(f0, i, d);
    if Size(r.t) < d - 1 {
      RepairBooks(f0, i, r.disk);
      var f1, i1, s1 := Apply(f0, p), RepairedAt(p, i), RepairDisk(p, i, r.disk);
      NodesThen(Ids(f), s, Ids(f0), r.disk, Ids(f1), s1);
      ApartKept(Ids(f0), r.disk, Ids(f1), s1);
      KidPages(f1, i1, s1);
      FlushBooks(Ids(f1), s1, f1.kids[i1].id, PageOf(f1.kids[i1]));
      NodesThen(Ids(f), s, Ids(f1), s1, Ids(f1), Flush(s1, f1.kids[i1].id, PageOf(f1.kids[i1])));
    } else {
      KidPages(f0, i, r.disk);
      FlushBooks(Ids(f0), r.disk, r.t.id, PageOf(r.t));
      NodesThen(Ids(f), s, Ids(f0), r.disk, Ids(f0), Flush(r.disk, r.t.id, PageOf(r.t)));
    }
  }
}
