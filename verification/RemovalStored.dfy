/** After removing a key the disk stores the new tree, and pages outside it are untouched. */
module RemovalStored {
  import opened Pages
  import opened Trees
  import opened Accounts
  import opened Ownership
  import opened Insertion
  import opened InsertionDisk
  import opened InsertionStored
  import opened Removal
  import opened RemovalTree
  import opened RemovalContent
  import opened RemovalDisk

  // Everything below f is on disk, except that the page of child i itself may be out of date.
  ghost predicate StoredBut(kids: seq<Tree>, i: nat, pages: map<Ref, Page>) {
    forall j :: 0 <= j < |kids| ==> KidsStored(kids[j], pages) && (j != i ==> Stored(kids[j], pages))
  }

  // Writing the page of child y disturbs no other page below f.
  lemma WriteKid(f: Tree, y: nat, s: Disk, pages1: map<Ref, Page>, x: nat)
    requires f.Node? && y < |f.kids| && x < |f.kids| && Apart(Ids(f), s)
    requires Others(multiset{f.kids[y].id}, s.pages, pages1)
    ensures KidsStored(f.kids[x], s.pages) ==> KidsStored(f.kids[x], pages1)
    ensures x != y && Stored(f.kids[x], s.pages) ==> Stored(f.kids[x], pages1)
  {
    hide Stored, KidsStored, IdsOf;
    var c, id := f.kids[x], f.kids[y].id;
    NotBelow(f, x, y, s);
    if x != y && Stored(c, s.pages) {
      StoredFrame(c, s.pages, pages1);
    }
    KidsOf(c, s.pages);
    KidsOf(c, pages1);
    if KidsStored(c, s.pages) && c.Node? {
      AllStoredFrame(c.kids, s.pages, pages1);
    }
  }

  lemma KidsOf(t: Tree, pages: map<Ref, Page>)
    ensures KidsStored(t, pages) <==> (t.Node? ==> AllStored(t.kids, pages))
  {
  }

  // The page of child y occurs once below f.
  lemma NotBelow(f: Tree, x: nat, y: nat, s: Disk)
    requires f.Node? && y < |f.kids| && x < |f.kids| && Apart(Ids(f), s)
    ensures x != y ==> f.kids[y].id !in Ids(f.kids[x])
    ensures f.kids[x].Node? ==> f.kids[y].id !in IdsOf(f.kids[x].kids)
  {
    hide IdsOf;
    var id := f.kids[y].id;
    IdsWithin(f.kids, y);
    Owns(Ids(f), s, id);
    if x != y {
      IdsOfPair(f.kids, x, y);
    }
  }

  // ----- repairs -----

  lemma FromRightStored(a: Tree, sep: Key, b: Tree, pages: map<Ref, Page>)
    requires KidsStored(a, pages) && KidsStored(b, pages)
    ensures var p := FromRight(a, sep, b); KidsStored(p.a, pages) && KidsStored(p.b, pages)
  {
  }

  lemma FromLeftStored(a: Tree, sep: Key, b: Tree, pages: map<Ref, Page>)
    requires KidsStored(a, pages) && KidsStored(b, pages)
    ensures var p := FromLeft(a, sep, b); KidsStored(p.a, pages) && KidsStored(p.b, pages)
  {
  }

  lemma FusedStored(id: Ref, a: Tree, sep: Key, b: Tree, pages: map<Ref, Page>)
    requires KidsStored(a, pages) && KidsStored(b, pages)
    ensures KidsStored(Fused(id, a, sep, b), pages)
  {
  }

  lemma ChooseStored(f: Tree, i: nat, d: nat, pages: map<Ref, Page>)
    requires f.Node? && |f.kids| == |f.keys| + 1 && |f.keys| >= 1 && i < |f.kids|
    requires forall j :: 0 <= j < |f.kids| ==> KidsStored(f.kids[j], pages)
    ensures var r := Choose(f, i, d);
            if r.Shift? then KidsStored(r.p.a, pages) && KidsStored(r.p.b, pages) else KidsStored(r.c, pages)
  {
    hide FromRight, FromLeft, Fused, KidsStored;
    var r := Choose(f, i, d);
    var a, sep, b := f.kids[r.j], f.keys[r.j], f.kids[r.j + 1];
    if r.Shift? {
      if r.j == i { FromRightStored(a, sep, b, pages); } else { FromLeftStored(a, sep, b, pages); }
    } else {
      FusedStored(r.c.id, a, sep, b, pages);
    }
  }

  // The sibling of the thin child, whose page the repair writes or frees.
  function SiblingOf(r: Repair, i: nat): nat {
    if r.j == i then i + 1 else r.j
  }

  lemma ChooseSibling(f: Tree, i: nat, d: nat)
    requires f.Node? && |f.kids| == |f.keys| + 1 && |f.keys| >= 1 && i < |f.kids|
    ensures var r := Choose(f, i, d); var y := SiblingOf(r, i);
            && y < |f.kids| && y != i
            && f.kids[y].id == (if r.Shift? then r.written else r.freed)
            && (r.Shift? ==> r.p.a.id == f.kids[r.j].id && r.p.b.id == f.kids[r.j + 1].id)
            && (r.Merge? ==> r.c.id == f.kids[i].id)
  {
    hide FromRight, FromLeft;
    var r := Choose(f, i, d);
    if r.Shift? {
      FromRightContent(f.kids[r.j], f.keys[r.j], f.kids[r.j + 1]);
      FromLeftContent(f.kids[r.j], f.keys[r.j], f.kids[r.j + 1]);
    }
  }

  // After a repair only the page of the thin child is out of date.
  lemma RepairStored(f: Tree, i: nat, s: Disk)
    requires f.Node? && |f.kids| == |f.keys| + 1 && |f.keys| >= 1 && i < |f.kids|
    requires Apart(Ids(f), s) && StoredBut(f.kids, i, s.pages)
    ensures var r := Choose(f, i, s.g.degree);
            var f1, i1, s1 := Apply(f, r), RepairedAt(r, i), RepairDisk(r, i, s);
            && StoredBut(f1.kids, i1, s1.pages) && f1.kids[i1].id == f.kids[i].id
            && Others(IdsOf(f.kids), s.pages, s1.pages)
  {
    hide Choose, KidsStored, Stored, Ids, IdsOf, Apart;
    var r := Choose(f, i, s.g.degree);
    var f1, i1, s1 := Apply(f, r), RepairedAt(r, i), RepairDisk(r, i, s);
    var y := SiblingOf(r, i);
    ChooseSibling(f, i, s.g.degree);
    forall x | 0 <= x < |f.kids|
      ensures KidsStored(f.kids[x], s1.pages) && (x != i && x != y ==> Stored(f.kids[x], s1.pages))
    {
      WriteKid(f, y, s, s1.pages, x);
    }
    ChooseStored(f, i, s.g.degree, s1.pages);
    IdsWithin(f.kids, y);
    OwnId(f.kids[y]);
    RepairedStored(f, i, r, s1.pages);
  }

  lemma OwnId(t: Tree)
    ensures t.id in Ids(t)
  {
  }

  lemma RepairedStored(f: Tree, i: nat, r: Repair, pages: map<Ref, Page>)
    requires f.Node? && |f.kids| == |f.keys| + 1 && i < |f.kids| && r.j < |f.keys| && r.j <= i <= r.j + 1
    requires forall x :: 0 <= x < |f.kids| ==>
      KidsStored(f.kids[x], pages) && (x != i && x != SiblingOf(r, i) ==> Stored(f.kids[x], pages))
    requires if r.Shift? then KidsStored(r.p.a, pages) && KidsStored(r.p.b, pages) else KidsStored(r.c, pages)
    requires r.Shift? ==> var c := (if r.j == i then r.p.b else r.p.a); c.id in pages && pages[c.id] == PageOf(c)
    ensures StoredBut(Apply(f, r).kids, RepairedAt(r, i), pages)
  {
    hide PageOf;
    var f1 := Apply(f, r);
    forall x | 0 <= x < |f1.kids|
      ensures KidsStored(f1.kids[x], pages) && (x != RepairedAt(r, i) ==> Stored(f1.kids[x], pages))
    {
      if r.Merge? {
        if x < r.j {
          assert f1.kids[x] == f.kids[x];
        } else if x > r.j {
          assert f1.kids[x] == f.kids[x + 1];
        }
      }
    }
  }

  // ----- removal -----

  // Writing child i, as c, brings the whole row up to date.
  lemma WriteBack(f: Tree, i: nat, c: Tree, s: Disk, pages1: map<Ref, Page>)
    requires f.Node? && i < |f.kids| && Apart(Ids(f), s) && StoredBut(f.kids, i, s.pages)
    requires c.id == f.kids[i].id && (c.Leaf? || c == f.kids[i]) && pages1 == s.pages[c.id := PageOf(c)]
    ensures AllStored(f.kids[i := c], pages1) && Others(IdsOf(f.kids), s.pages, pages1)
  {
    hide PageOf, Ids, IdsOf, Apart;
    var kids := f.kids[i := c];
    forall x | 0 <= x < |kids|
      ensures Stored(kids[x], pages1)
    {
      WriteKid(f, i, s, pages1, x);
    }
    IdsWithin(f.kids, i);
    OwnId(f.kids[i]);
  }

  lemma AllBut(kids: seq<Tree>, i: nat, pages: map<Ref, Page>)
    requires AllStored(kids, pages)
    ensures StoredBut(kids, i, pages)
  {
  }

  lemma OthersBoth(x: multiset<Ref>, y: multiset<Ref>, pages: map<Ref, Page>, pages1: map<Ref, Page>, pages2: map<Ref, Page>)
    requires Others(x, pages, pages1) && Others(y, pages1, pages2) && (forall p: Ref :: p in y ==> p in x)
    ensures Others(x, pages, pages2)
  {
  }

  ghost predicate NoNewPages(f: Tree, f1: Tree) requires f.Node? && f1.Node? {
    forall p: Ref :: p in IdsOf(f1.kids) ==> p in IdsOf(f.kids)
  }

  // The children of the father after a removal are stored, and nothing above or beside them changed.
  ghost predicate RowStored(f: Tree, s: Disk, f1: Tree, s1: Disk) {
    && f.Node? && f1.Node? && AllStored(f1.kids, s1.pages) && Others(IdsOf(f.kids), s.pages, s1.pages)
    && NoNewPages(f, f1)
  }

  lemma DropEntryPages(c: Tree, k: Key, s: Disk)
    requires Holds(c, k)
    ensures var e := DropEntry(c, k, s);
            e.t.Leaf? && e.t.id == c.id && e.disk.pages == s.pages[c.id := PageOf(e.t)]
  {
  }

  lemma RemoveAtLeafStored(f: Tree, i: nat, k: Key, s: Disk, lo: Key, hi: Key)
    requires f.Node? && DiskOK(s) && Apart(Ids(f), s) && AllStored(f.kids, s.pages)
    requires WF(f, s.g.degree, 1, lo, hi) && |f.kids| == |f.keys| + 1
    requires |f.keys| >= 1 && i < |f.kids| && f.kids[i].Leaf?
    ensures RowStored(f, s, RemoveAtLeaf(f, i, k, s).t, RemoveAtLeaf(f, i, k, s).disk)
  {
    hide DropEntry, Choose, Apply, RepairDisk, Ids, IdsOf, HeldNode, Stored, PageOf;
    var d, c := s.g.degree, f.kids[i];
    if Holds(c, k) {
      AllBut(f.kids, i, s.pages);
      if |c.items| > d - 1 {
        DropEntryPages(c, k, s);
        WriteBack(f, i, DropEntry(c, k, s).t, s, DropEntry(c, k, s).disk.pages);
        LeafSamePages(f, i, DropEntry(c, k, s).t);
      } else {
        ThinLeafStored(f, i, k, s, lo, hi);
      }
    }
  }

  lemma ThinLeafStored(f: Tree, i: nat, k: Key, s: Disk, lo: Key, hi: Key)
    requires f.Node? && DiskOK(s) && Apart(Ids(f), s) && StoredBut(f.kids, i, s.pages)
    requires WF(f, s.g.degree, 1, lo, hi) && |f.kids| == |f.keys| + 1
    requires |f.keys| >= 1 && i < |f.kids| && Holds(f.kids[i], k) && Size(f.kids[i]) <= s.g.degree - 1
    ensures RowStored(f, s, RemoveAtLeaf(f, i, k, s).t, RemoveAtLeaf(f, i, k, s).disk)
  {
    var d := s.g.degree;
    assert d >= 2;
    hide DropEntry, Choose, Apply, RepairDisk, Ids, IdsOf, DiskOK, HeldNode, Apart, Stored, PageOf;
    var r := Choose(f, i, d);
    var f1, i1, s1 := Apply(f, r), RepairedAt(r, i), RepairDisk(r, i, s);
    LeavesSameKind(f, d, 1, lo, hi);
    RepairBooks(f, i, s);
    ApartKept(Ids(f), s, Ids(f1), s1);
    RepairHolds(f, i, k, d, lo, hi);
    RepairStored(f, i, s);
    DropEntryPages(f1.kids[i1], k, s1);
    var e := DropEntry(f1.kids[i1], k, s1);
    WriteBack(f1, i1, e.t, s1, e.disk.pages);
    RepairedPages(f, i, d);
    LeafSamePages(f1, i1, e.t);
    OthersBoth(IdsOf(f.kids), IdsOf(f1.kids), s.pages, s1.pages, e.disk.pages);
  }

  lemma LeafSamePages(f: Tree, i: nat, c: Tree)
    requires f.Node? && i < |f.kids| && f.kids[i].Leaf? && c.Leaf? && c.id == f.kids[i].id
    ensures NoNewPages(f, WithKid(f, i, c))
  {
    hide IdsOf;
    IdsWithout(f.kids, i);
    IdsReplaced(f.kids, i, c);
  }

  // A repair adds no page to the father's children.
  lemma RepairedPages(f: Tree, i: nat, d: nat)
    requires f.Node? && |f.kids| == |f.keys| + 1 && |f.keys| >= 1 && i < |f.kids| && SameKind(f.kids)
    ensures NoNewPages(f, Apply(f, Choose(f, i, d)))
  {
    hide Choose, Ids, IdsOf;
    RepairIds(f, i, d);
    IdsOfNode(f);
    var f1 := Apply(f, Choose(f, i, d));
    IdsOfNode(f1);
    var x, x1, y := IdsOf(f.kids), IdsOf(f1.kids), Freed(Choose(f, i, d));
    forall p: Ref | p in x1
      ensures p in x
    {
      assert (multiset{f.id} + x1 + y)[p] == (multiset{f.id} + x)[p];
    }
  }

  lemma {:induction false} RemoveInStored(f: Tree, i: nat, k: Key, s: Disk, h: nat, lo: Key, hi: Key)
    requires f.Node? && DiskOK(s) && Apart(Ids(f), s) && SlotsLive(f, s) && AllStored(f.kids, s.pages)
    requires Shaped(f, s.g.degree) && WF(f, s.g.degree, h, lo, hi) && i < |f.kids|
    ensures RowStored(f, s, RemoveIn(f, i, k, s).t, RemoveIn(f, i, k, s).disk)
    decreases h
  {
    hide Ids, IdsOf, Entries, HeldNode, Apart, Settle, PageOf;
    var d := s.g.degree;
    var c, lo1, hi1 := f.kids[i], Lo(f.keys, i, lo), Hi(f.keys, i, hi);
    assert WF(c, d, h - 1, lo1, hi1);
    if c.Leaf? {
      assert h == 1;
      RemoveAtLeafStored(f, i, k, s, lo, hi);
    } else {
      var j := FirstGT(c.keys, k);
      KidApart(f, i, s);
      KidSlotsLive(f, i, s);
      StoredBelow(c, s.pages);
      KidsOf(c, s.pages);
      RemoveInStored(c, j, k, s, h - 1, lo1, hi1);
      RemoveInBooks(c, j, k, s, h - 1, lo1, hi1);
      RemoveInWF(c, j, k, s, h - 1, lo1, hi1);
      SettleStored(f, i, s, RemoveIn(c, j, k, s), d, h, lo, hi);
    }
  }

  // The removal below child i leaves the siblings' pages alone.
  lemma BesideStored(f: Tree, i: nat, s: Disk, c: Tree, s1: Disk)
    requires f.Node? && i < |f.kids| && Apart(Ids(f), s) && AllStored(f.kids, s.pages)
    requires c.id == f.kids[i].id && RowStored(f.kids[i], s, c, s1)
    ensures StoredBut(WithKid(f, i, c).kids, i, s1.pages) && Others(IdsOf(f.kids), s.pages, s1.pages)
  {
    hide Ids, IdsOf, Apart, Stored;
    IdsOfNode(f.kids[i]);
    IdsWithin(f.kids, i);
    var kids := WithKid(f, i, c).kids;
    forall x | 0 <= x < |kids|
      ensures KidsStored(kids[x], s1.pages) && (x != i ==> Stored(kids[x], s1.pages))
    {
      if x != i {
        DisjointKids(f, i, x, s);
        StoredFrame(f.kids[x], s.pages, s1.pages);
        StoredBelow(kids[x], s1.pages);
      }
    }
  }

  lemma StoredBelow(t: Tree, pages: map<Ref, Page>)
    requires Stored(t, pages)
    ensures KidsStored(t, pages)
  {
  }

  lemma DisjointKids(f: Tree, x: nat, y: nat, s: Disk)
    requires f.Node? && y < |f.kids| && x < |f.kids| && x != y && Apart(Ids(f), s)
    ensures forall p: Ref :: p in Ids(f.kids[y]) ==> p !in Ids(f.kids[x])
  {
    hide IdsOf;
    IdsOfPair(f.kids, x, y);
    forall p: Ref | p in Ids(f.kids[y])
      ensures p !in Ids(f.kids[x])
    {
      Owns(Ids(f), s, p);
    }
  }

  lemma SettleStored(f: Tree, i: nat, s: Disk, r: Dropped, d: nat, h: nat, lo: Key, hi: Key)
    requires d == s.g.degree && d >= 2 && f.Node? && |f.keys| >= 1 && |f.kids| == |f.keys| + 1 && i < |f.kids| && h >= 2
    requires WF(f, d, h, lo, hi) && Apart(Ids(f), s) && AllStored(f.kids, s.pages) && DroppedOK(f.kids[i], s, r)
    requires r.t.id == f.kids[i].id && RowStored(f.kids[i], s, r.t, r.disk)
    requires WF(r.t, d, h - 1, Lo(f.keys, i, lo), Hi(f.keys, i, hi))
    ensures var (f1, s1) := Settle(WithKid(f, i, r.t), i, r.disk); RowStored(f, s, f1, s1)
  {
    hide Ids, IdsOf, Apart, HeldNode, DiskOK, Choose, Apply, RepairDisk, PageOf, Stored;
    var f0 := WithKid(f, i, r.t);
    assert NoNewPages(f.kids[i], r.t);
    BesideStored(f, i, s, r.t, r.disk);
    WithKidKept(f, i, s, r.t, r.disk);
    ApartKept(Ids(f), s, Ids(f0), r.disk);
    WithKidPages(f, i, r.t);
    if Size(r.t) < d - 1 {
      ReplaceKid(f.keys, f.kids, i, r.t, d, h - 1, lo, hi);
      LeavesSameKind(f0, d, h, lo, hi);
      var p := Choose(f0, i, d);
      var f1, i1, s1 := Apply(f0, p), RepairedAt(p, i), RepairDisk(p, i, r.disk);
      RepairBooks(f0, i, r.disk);
      RepairStored(f0, i, r.disk);
      RepairedPages(f0, i, d);
      OthersBoth(IdsOf(f.kids), IdsOf(f0.kids), s.pages, r.disk.pages, s1.pages);
      ApartKept(Ids(f0), r.disk, Ids(f1), s1);
      var s2 := Flush(s1, f1.kids[i1].id, PageOf(f1.kids[i1]));
      WriteBack(f1, i1, f1.kids[i1], s1, s2.pages);
      assert f1.kids[i1 := f1.kids[i1]] == f1.kids;
      OthersBoth(IdsOf(f.kids), IdsOf(f1.kids), s.pages, s1.pages, s2.pages);
    } else {
      var s2 := Flush(r.disk, r.t.id, PageOf(r.t));
      WriteBack(f0, i, r.t, r.disk, s2.pages);
      assert f0.kids[i := r.t] == f0.kids;
      OthersBoth(IdsOf(f.kids), IdsOf(f0.kids), s.pages, r.disk.pages, s2.pages);
    }
  }

  lemma WithKidPages(f: Tree, i: nat, c: Tree)
    requires f.Node? && i < |f.kids| && f.kids[i].Node? && c.Node? && c.id == f.kids[i].id && NoNewPages(f.kids[i], c)
    ensures NoNewPages(f, WithKid(f, i, c))
  {
    hide Ids, IdsOf;
    IdsWithout(f.kids, i);
    IdsReplaced(f.kids, i, c);
    IdsOfNode(c);
    IdsOfNode(f.kids[i]);
  }
}
