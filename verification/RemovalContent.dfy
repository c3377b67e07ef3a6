/** What removing a key does to the content of the tree. */
module RemovalContent {
  import opened Pages
  import opened Trees
  import opened Order
  import opened Insertion
  import opened InsertionContent
  import opened Removal
  import opened RemovalTree

  // ----- the eight rebalancing routines keep the father's in-order content -----

  lemma FromRightContent(a: Tree, sep: Key, b: Tree)
    ensures var p := FromRight(a, sep, b); Entries(p.a) + Entries(p.b) == Entries(a) + Entries(b)
    ensures FromRight(a, sep, b).a.id == a.id && FromRight(a, sep, b).b.id == b.id
  {
    if a.Node? && b.Node? && |b.kids| == |b.keys| + 1 && |b.keys| >= 1 {
      assert b.kids == [b.kids[0]] + b.kids[1..];
      MovedContent(a.kids, [b.kids[0]], b.kids[1..]);
    }
  }

  lemma MovedContent(a: seq<Tree>, m: seq<Tree>, b: seq<Tree>)
    ensures EntriesOf(a + m) + EntriesOf(b) == EntriesOf(a) + EntriesOf(m + b)
  {
    EntriesOfAppend(a, m);
    EntriesOfAppend(m, b);
  }

  lemma FromLeftContent(a: Tree, sep: Key, b: Tree)
    ensures var p := FromLeft(a, sep, b); Entries(p.a) + Entries(p.b) == Entries(a) + Entries(b)
    ensures FromLeft(a, sep, b).a.id == a.id && FromLeft(a, sep, b).b.id == b.id
  {
    if a.Leaf? && b.Leaf? && |a.items| >= 1 {
      assert a.items == a.items[..|a.items| - 1] + [a.items[|a.items| - 1]];
    } else if a.Node? && b.Node? && |a.kids| == |a.keys| + 1 && |a.keys| >= 1 {
      var n := |a.keys|;
      assert a.kids == a.kids[..n] + [a.kids[n]];
      MovedContent(a.kids[..n], [a.kids[n]], b.kids);
    }
  }

  lemma FusedContent(id: Ref, a: Tree, sep: Key, b: Tree)
    requires a.Leaf? == b.Leaf?
    ensures Entries(Fused(id, a, sep, b)) == Entries(a) + Entries(b)
  {
    if a.Node? {
      EntriesOfAppend(a.kids, b.kids);
    }
  }

  ghost predicate SameKind(kids: seq<Tree>) {
    forall i, j :: 0 <= i < |kids| && 0 <= j < |kids| ==> kids[i].Leaf? == kids[j].Leaf?
  }

  lemma ChooseContent(f: Tree, i: nat, d: nat)
    requires f.Node? && |f.kids| == |f.keys| + 1 && |f.keys| >= 1 && i < |f.kids| && SameKind(f.kids)
    ensures var r := Choose(f, i, d);
            var e := Entries(f.kids[r.j]) + Entries(f.kids[r.j + 1]);
            if r.Shift? then Entries(r.p.a) + Entries(r.p.b) == e else Entries(r.c) == e
  {
    hide FromRight, FromLeft, Fused, Entries;
    var r := Choose(f, i, d);
    var a, sep, b := f.kids[r.j], f.keys[r.j], f.kids[r.j + 1];
    if r.Shift? {
      if r.j == i { FromRightContent(a, sep, b); } else { FromLeftContent(a, sep, b); }
    } else {
      FusedContent(r.c.id, a, sep, b);
    }
  }

  // Borrowing and merging move nothing out of order and lose nothing.
  lemma RepairContent(f: Tree, i: nat, d: nat)
    requires f.Node? && |f.kids| == |f.keys| + 1 && |f.keys| >= 1 && i < |f.kids| && SameKind(f.kids)
    ensures Entries(Apply(f, Choose(f, i, d))) == Entries(f)
  {
    var r := Choose(f, i, d);
    ChooseContent(f, i, d);
    hide Choose, Entries, EntriesOf;
    var j := r.j;
    assert f.kids == f.kids[..j] + [f.kids[j], f.kids[j + 1]] + f.kids[j + 2..];
    EntriesOfThree(f.kids[..j], [f.kids[j], f.kids[j + 1]], f.kids[j + 2..]);
    EntriesOfTwo(f.kids[j], f.kids[j + 1]);
    match r
    case Shift(_, p, _) =>
      assert Apply(f, r).kids == f.kids[..j] + [p.a, p.b] + f.kids[j + 2..];
      EntriesOfThree(f.kids[..j], [p.a, p.b], f.kids[j + 2..]);
      EntriesOfTwo(p.a, p.b);
    case Merge(_, c, _) =>
      EntriesOfThree(f.kids[..j], [c], f.kids[j + 2..]);
      EntriesOfOne(c);
    EntriesOfNode(f);
    EntriesOfNode(Apply(f, r));
  }

  lemma EntriesOfNode(t: Tree)
    requires t.Node?
    ensures Entries(t) == EntriesOf(t.kids)
  {
  }

  // ----- removal -----

  lemma HoldsMember(c: Tree, k: Key, d: nat, lo: Key, hi: Key)
    requires c.Leaf? && WF(c, d, 0, lo, hi)
    ensures Holds(c, k) <==> exists e :: e in c.items && e.key == k
  {
    if e :| e in c.items && e.key == k {
      FindIsMember(c, k, e.slot, d, 0, lo, hi);
    }
  }

  lemma DropEntryContent(c: Tree, k: Key, s: Disk)
    requires Holds(c, k)
    ensures var e := DropEntry(c, k, s); Gains(Entries(e.t), Entries(c), Entry(k, e.slot))
  {
    var i := FirstGE(KeysOf(c.items), k);
    assert c.items == InsertAt(RemoveAt(c.items, i), i, c.items[i]);
  }

  // Dropping an entry from one child drops it from the father.
  lemma KidGains(f: Tree, i: nat, c: Tree, e: Entry)
    requires f.Node? && i < |f.kids| && Gains(Entries(c), Entries(f.kids[i]), e)
    ensures Gains(Entries(WithKid(f, i, c)), Entries(f), e)
  {
    hide Entries, EntriesOf;
    ReplacedContent(f.kids, i, c);
    ReplacedContent(f.kids, i, f.kids[i]);
    assert f.kids[i := f.kids[i]] == f.kids;
    EntriesOfNode(f);
    EntriesOfNode(WithKid(f, i, c));
    GainsBetween(EntriesOf(f.kids[..i]), Entries(c), Entries(f.kids[i]), EntriesOf(f.kids[i + 1..]), e);
  }

  // The thin leaf still holds its key after the repair.
  lemma RepairHolds(f: Tree, i: nat, k: Key, d: nat, lo: Key, hi: Key)
    requires d >= 2 && f.Node? && |f.kids| == |f.keys| + 1 && |f.keys| >= 1 && i < |f.kids|
    requires WF(f, d, 1, lo, hi) && Size(f.kids[i]) == d - 1 && Holds(f.kids[i], k)
    ensures var r := Choose(f, i, d); Holds(Apply(f, r).kids[RepairedAt(r, i)], k)
  {
    var r := Choose(f, i, d);
    var f1, i1 := Apply(f, r), RepairedAt(r, i);
    RepairWF(f, i, d - 1, d, 0, lo, hi);
    var c, c1 := f.kids[i], f1.kids[i1];
    HoldsMember(c, k, d, Lo(f.keys, i, lo), Hi(f.keys, i, hi));
    var e :| e in c.items && e.key == k;
    RepairItems(f, i, d, lo, hi, e);
    HoldsMember(c1, k, d, Lo(f1.keys, i1, lo), Hi(f1.keys, i1, hi));
  }

  lemma RepairItems(f: Tree, i: nat, d: nat, lo: Key, hi: Key, e: Entry)
    requires d >= 2 && f.Node? && |f.kids| == |f.keys| + 1 && |f.keys| >= 1 && i < |f.kids|
    requires WF(f, d, 1, lo, hi) && f.kids[i].Leaf? && e in f.kids[i].items
    ensures var r := Choose(f, i, d); var c := Apply(f, r).kids[RepairedAt(r, i)];
            c.Leaf? && e in c.items
  {
    var r := Choose(f, i, d);
    assert forall j :: 0 <= j < |f.kids| ==> WF(f.kids[j], d, 0, Lo(f.keys, j, lo), Hi(f.keys, j, hi));
    assert f.kids[r.j].Leaf? && f.kids[r.j + 1].Leaf?;
  }

  ghost predicate Drops(f: Tree, r: Dropped, k: Key) {
    if r.ok then Gains(Entries(r.t), Entries(f), Entry(k, r.slot)) else r.t == f
  }

  lemma LeavesSameKind(f: Tree, d: nat, h: nat, lo: Key, hi: Key)
    requires f.Node? && h > 0 && Inner(f.keys, f.kids, d, h - 1, lo, hi)
    ensures SameKind(f.kids)
  {
    forall i | 0 <= i < |f.kids|
      ensures f.kids[i].Leaf? <==> h == 1
    {
      assert WF(f.kids[i], d, h - 1, Lo(f.keys, i, lo), Hi(f.keys, i, hi));
    }
  }

  lemma RemoveAtLeafContent(f: Tree, i: nat, k: Key, s: Disk, lo: Key, hi: Key)
    requires GeometryOK(s.g) && f.Node? && WF(f, s.g.degree, 1, lo, hi) && |f.kids| == |f.keys| + 1
    requires |f.keys| >= 1 && i < |f.kids| && f.kids[i].Leaf?
    ensures var r := RemoveAtLeaf(f, i, k, s); Drops(f, r, k) && r.ok == Find(f.kids[i], k).Some?
  {
    var d := s.g.degree;
    var c := f.kids[i];
    if Holds(c, k) {
      if |c.items| > d - 1 {
        DropEntryContent(c, k, s);
        KidGains(f, i, DropEntry(c, k, s).t, Entry(k, DropEntry(c, k, s).slot));
      } else {
        ThinLeafContent(f, i, k, s, lo, hi);
      }
    }
  }

  lemma ThinLeafContent(f: Tree, i: nat, k: Key, s: Disk, lo: Key, hi: Key)
    requires GeometryOK(s.g) && f.Node? && WF(f, s.g.degree, 1, lo, hi) && |f.kids| == |f.keys| + 1
    requires |f.keys| >= 1 && i < |f.kids| && Holds(f.kids[i], k) && Size(f.kids[i]) <= s.g.degree - 1
    ensures var r := RemoveAtLeaf(f, i, k, s); r.ok && Drops(f, r, k)
  {
    var d := s.g.degree;
    LeavesSameKind(f, d, 1, lo, hi);
    RepairHolds(f, i, k, d, lo, hi);
    RepairContent(f, i, d);
    hide Choose, Apply, Entries, WF, Holds, Gains;
    var r := Choose(f, i, d);
    var f1, i1 := Apply(f, r), RepairedAt(r, i);
    var s1 := RepairDisk(r, i, s);
    DropEntryContent(f1.kids[i1], k, s1);
    KidGains(f1, i1, DropEntry(f1.kids[i1], k, s1).t, Entry(k, DropEntry(f1.kids[i1], k, s1).slot));
  }

  // Removing a key takes exactly its entry out of the in-order content, or changes nothing
  // if the key is absent; the result says which.
  lemma {:induction false} RemoveInContent(f: Tree, i: nat, k: Key, s: Disk, h: nat, lo: Key, hi: Key)
    requires GeometryOK(s.g) && f.Node? && Shaped(f, s.g.degree) && WF(f, s.g.degree, h, lo, hi) && i < |f.kids|
    ensures var r := RemoveIn(f, i, k, s); Drops(f, r, k) && r.ok == Find(f.kids[i], k).Some?
    decreases h
  {
    var d := s.g.degree;
    var c, lo1, hi1 := f.kids[i], Lo(f.keys, i, lo), Hi(f.keys, i, hi);
    assert WF(c, d, h - 1, lo1, hi1);
    if c.Leaf? {
      assert h == 1;
      RemoveAtLeafContent(f, i, k, s, lo, hi);
    } else {
      var j := FirstGT(c.keys, k);
      RemoveInContent(c, j, k, s, h - 1, lo1, hi1);
      RemoveInWF(c, j, k, s, h - 1, lo1, hi1);
      var r := RemoveIn(c, j, k, s);
      SettleContent(f, i, r, k, d, h, lo, hi);
    }
  }

  lemma SettleContent(f: Tree, i: nat, r: Dropped, k: Key, d: nat, h: nat, lo: Key, hi: Key)
    requires d >= 2 && d == r.disk.g.degree && f.Node? && |f.keys| >= 1 && |f.kids| == |f.keys| + 1 && i < |f.kids| && h >= 2
    requires WF(f, d, h, lo, hi) && Drops(f.kids[i], r, k)
    requires WF(r.t, d, h - 1, Lo(f.keys, i, lo), Hi(f.keys, i, hi))
    ensures Drops(f, Dropped(Settle(WithKid(f, i, r.t), i, r.disk).0, r.ok, r.slot, Settle(WithKid(f, i, r.t), i, r.disk).1), k)
  {
    var f1 := WithKid(f, i, r.t);
    ReplaceKid(f.keys, f.kids, i, r.t, d, h - 1, lo, hi);
    LeavesSameKind(f1, d, h, lo, hi);
    if r.ok {
      KidGains(f, i, r.t, Entry(k, r.slot));
      RepairContent(f1, i, d);
    } else {
      assert f1.kids == f.kids;
    }
  }
}
