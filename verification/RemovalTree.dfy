/** Removal keeps the search-tree invariant. */
module RemovalTree {
  import opened Pages
  import opened Trees
  import opened Insertion
  import opened Removal

  // Two neighbouring bodies joined over their separator and cut again elsewhere.
  lemma Recut(k1: seq<Key>, c1: seq<Tree>, sep: Key, k2: seq<Key>, c2: seq<Tree>, m: nat, d: nat, h: nat, lo: Key, hi: Key)
    requires lo < sep < hi && Inner(k1, c1, d, h, lo, sep) && Inner(k2, c2, d, h, sep, hi)
    requires m < |k1| + 1 + |k2|
    ensures var k, c := k1 + [sep] + k2, c1 + c2;
            && lo < k[m] < hi
            && Inner(k[..m], c[..m + 1], d, h, lo, k[m]) && Inner(k[m + 1..], c[m + 1..], d, h, k[m], hi)
  {
    JoinInner(k1, c1, sep, k2, c2, d, h, lo, hi);
    CutInner(k1 + [sep] + k2, c1 + c2, m, d, h, lo, hi);
  }

  lemma OccupiedJoin(c1: seq<Tree>, c2: seq<Tree>, d: nat)
    requires Occupied(c1, d) && Occupied(c2, d)
    ensures Occupied(c1 + c2, d)
    ensures forall m :: 0 <= m <= |c1| + |c2| ==> Occupied((c1 + c2)[..m], d) && Occupied((c1 + c2)[m..], d)
  {
  }

  // p stands in for the neighbours a, b with one entry moved.
  ghost predicate Shifted(p: Pair, n: int, m: int, d: nat, h: nat, lo: Key, hi: Key) {
    && lo < p.sep < hi && WF(p.a, d, h, lo, p.sep) && WF(p.b, d, h, p.sep, hi)
    && Size(p.a) == n && Size(p.b) == m
  }

  lemma FromRightWF(a: Tree, sep: Key, b: Tree, d: nat, h: nat, lo: Key, hi: Key)
    requires d >= 2 && lo < sep < hi && WF(a, d, h, lo, sep) && WF(b, d, h, sep, hi)
    requires Size(a) <= d - 1 && Size(b) >= d
    ensures Shifted(FromRight(a, sep, b), Size(a) + 1, Size(b) - 1, d, h, lo, hi)
  {
    hide FromRight, Shifted;
    if a.Node? {
      Recut(a.keys, a.kids, sep, b.keys, b.kids, |a.keys| + 1, d, h - 1, lo, hi);
      OccupiedJoin(a.kids, b.kids, d);
      FromRightNodes(a, sep, b, d, h, lo, hi);
    } else {
      FromRightLeaves(a, sep, b, d, lo, hi);
    }
  }

  lemma FromRightLeaves(a: Tree, sep: Key, b: Tree, d: nat, lo: Key, hi: Key)
    requires d >= 2 && lo < sep < hi && a.Leaf? && b.Leaf? && InOrder(a.items, lo, sep) && InOrder(b.items, sep, hi)
    requires |a.items| <= d - 1 && d <= |b.items| <= 2 * d - 1
    ensures Shifted(FromRight(a, sep, b), |a.items| + 1, |b.items| - 1, d, 0, lo, hi)
  {
  }

  lemma FromRightNodes(a: Tree, sep: Key, b: Tree, d: nat, h: nat, lo: Key, hi: Key)
    requires h > 0 && a.Node? && b.Node? && |a.kids| == |a.keys| + 1 && |b.kids| == |b.keys| + 1
    requires |a.keys| < 2 * d - 1 && 1 <= |b.keys| <= 2 * d
    requires var (k, c, m) := (a.keys + [sep] + b.keys, a.kids + b.kids, |a.keys| + 1);
             RecutOK(k, c, m, d, h - 1, lo, hi)
    ensures Shifted(FromRight(a, sep, b), |a.keys| + 1, |b.keys| - 1, d, h, lo, hi)
  {
    hide Inner, Occupied;
    var k, c, m := a.keys + [sep] + b.keys, a.kids + b.kids, |a.keys| + 1;
    assert k[..m] == a.keys + [sep] && k[m + 1..] == b.keys[1..];
    assert c[..m + 1] == a.kids + [b.kids[0]] && c[m + 1..] == b.kids[1..];
  }

  // A joined row cut at m: both parts are in order and occupied.
  ghost predicate RecutOK(k: seq<Key>, c: seq<Tree>, m: nat, d: nat, h: nat, lo: Key, hi: Key)
    requires m < |k| && m < |c|
  {
    && lo < k[m] < hi
    && Inner(k[..m], c[..m + 1], d, h, lo, k[m]) && Inner(k[m + 1..], c[m + 1..], d, h, k[m], hi)
    && Occupied(c[..m + 1], d) && Occupied(c[m + 1..], d)
  }

  lemma FromLeftWF(a: Tree, sep: Key, b: Tree, d: nat, h: nat, lo: Key, hi: Key)
    requires d >= 2 && lo < sep < hi && WF(a, d, h, lo, sep) && WF(b, d, h, sep, hi)
    requires Size(b) <= d - 1 && Size(a) >= d
    ensures Shifted(FromLeft(a, sep, b), Size(a) - 1, Size(b) + 1, d, h, lo, hi)
  {
    hide FromLeft, Shifted;
    if a.Node? {
      Recut(a.keys, a.kids, sep, b.keys, b.kids, |a.keys| - 1, d, h - 1, lo, hi);
      OccupiedJoin(a.kids, b.kids, d);
      FromLeftNodes(a, sep, b, d, h, lo, hi);
    } else {
      FromLeftLeaves(a, sep, b, d, lo, hi);
    }
  }

  lemma FromLeftLeaves(a: Tree, sep: Key, b: Tree, d: nat, lo: Key, hi: Key)
    requires d >= 2 && lo < sep < hi && a.Leaf? && b.Leaf? && InOrder(a.items, lo, sep) && InOrder(b.items, sep, hi)
    requires |b.items| <= d - 1 && d <= |a.items| <= 2 * d - 1
    ensures Shifted(FromLeft(a, sep, b), |a.items| - 1, |b.items| + 1, d, 0, lo, hi)
  {
    assert a.items[|a.items| - 2].key < a.items[|a.items| - 1].key;
  }

  lemma FromLeftNodes(a: Tree, sep: Key, b: Tree, d: nat, h: nat, lo: Key, hi: Key)
    requires h > 0 && a.Node? && b.Node? && |a.kids| == |a.keys| + 1 && |b.kids| == |b.keys| + 1
    requires 1 <= |a.keys| <= 2 * d && |b.keys| < 2 * d - 1
    requires var (k, c, m) := (a.keys + [sep] + b.keys, a.kids + b.kids, |a.keys| - 1);
             RecutOK(k, c, m, d, h - 1, lo, hi)
    ensures Shifted(FromLeft(a, sep, b), |a.keys| - 1, |b.keys| + 1, d, h, lo, hi)
  {
    hide Inner, Occupied;
    var k, c, m := a.keys + [sep] + b.keys, a.kids + b.kids, |a.keys| - 1;
    assert k[..m] == a.keys[..m] && k[m] == a.keys[m] && k[m + 1..] == [sep] + b.keys;
    assert c[..m + 1] == a.kids[..m + 1] && c[m + 1..] == [a.kids[m + 1]] + b.kids;
  }

  lemma FusedWF(id: Ref, a: Tree, sep: Key, b: Tree, d: nat, h: nat, lo: Key, hi: Key)
    requires d >= 2 && lo < sep < hi && WF(a, d, h, lo, sep) && WF(b, d, h, sep, hi)
    requires Size(a) + Size(b) + (if h == 0 then 0 else 1) <= 2 * d - 1
    ensures WF(Fused(id, a, sep, b), d, h, lo, hi)
    ensures Size(Fused(id, a, sep, b)) == Size(a) + Size(b) + (if h == 0 then 0 else 1)
  {
    if a.Node? {
      JoinInner(a.keys, a.kids, sep, b.keys, b.kids, d, h - 1, lo, hi);
      OccupiedJoin(a.kids, b.kids, d);
    }
  }

  // All children but child x have at least d-1 keys, and x has at least n.
  ghost predicate OccupiedBut(kids: seq<Tree>, x: nat, n: int, d: nat) {
    forall i :: 0 <= i < |kids| ==> Size(kids[i]) >= (if i == x then n else d - 1)
  }

  // The repair r of the neighbours r.j, r.j + 1 of f fits in their place: child i has grown,
  // its sibling keeps at least d-1 keys.
  ghost predicate RepairFits(f: Tree, i: nat, r: Repair, n: int, d: nat, h: nat, lo: Key, hi: Key)
    requires f.Node? && r.j < |f.keys|
  {
    var lo1, hi1 := Lo(f.keys, r.j, lo), Hi(f.keys, r.j + 1, hi);
    match r
    case Shift(j, p, _) =>
      && Shifted(p, Size(p.a), Size(p.b), d, h, lo1, hi1)
      && (if i == j then Size(p.a) >= n + 1 && Size(p.b) >= d - 1 else i == j + 1 && Size(p.a) >= d - 1 && Size(p.b) >= n + 1)
    case Merge(_, c, _) =>
      WF(c, d, h, lo1, hi1) && Size(c) >= n + 1 && Size(c) >= d - 1
  }

  lemma ChooseFits(f: Tree, i: nat, n: int, d: nat, h: nat, lo: Key, hi: Key)
    requires d >= 2 && f.Node? && |f.kids| == |f.keys| + 1 && |f.keys| >= 1 && i < |f.kids|
    requires Inner(f.keys, f.kids, d, h, lo, hi) && OccupiedBut(f.kids, i, n, d)
    requires n == Size(f.kids[i]) == (if h == 0 then d - 1 else d - 2)
    ensures RepairFits(f, i, Choose(f, i, d), n, d, h, lo, hi)
  {
    hide FromLeft, FromRight, Fused;
    var r := Choose(f, i, d);
    var j := r.j;
    var lo1, hi1 := Lo(f.keys, j, lo), Hi(f.keys, j + 1, hi);
    var a, b := f.kids[j], f.kids[j + 1];
    assert WF(a, d, h, lo1, f.keys[j]) && WF(b, d, h, f.keys[j], hi1);
    match r
    case Shift(_, p, _) =>
      if j == i { FromRightWF(a, f.keys[j], b, d, h, lo1, hi1); }
      else { FromLeftWF(a, f.keys[j], b, d, h, lo1, hi1); }
    case Merge(_, c, _) =>
      FusedWF(c.id, a, f.keys[j], b, d, h, lo1, hi1);
  }

  lemma ApplyFits(f: Tree, i: nat, r: Repair, n: int, d: nat, h: nat, lo: Key, hi: Key)
    requires f.Node? && |f.kids| == |f.keys| + 1 && r.j < |f.keys| && r.j <= i <= r.j + 1
    requires Inner(f.keys, f.kids, d, h, lo, hi) && OccupiedBut(f.kids, i, n, d) && RepairFits(f, i, r, n, d, h, lo, hi)
    ensures var f1 := Apply(f, r);
            && |f.keys| - 1 <= |f1.keys| <= |f.keys|
            && Inner(f1.keys, f1.kids, d, h, lo, hi)
            && OccupiedBut(f1.kids, RepairedAt(r, i), n + 1, d)
  {
    var j := r.j;
    match r
    case Shift(_, p, _) =>
      ReplacePair(f.keys, f.kids, j, p.a, p.sep, p.b, d, h, lo, hi);
    case Merge(_, c, _) =>
      FusePair(f.keys, f.kids, j, c, d, h, lo, hi);
      var kids := Apply(f, r).kids;
      forall x | 0 <= x < |kids|
        ensures Size(kids[x]) >= (if x == j then n + 1 else d - 1)
      {
        if x < j {
          assert kids[x] == f.kids[x];
        } else if x > j {
          assert kids[x] == f.kids[x + 1];
        }
      }
  }

  // A repair brings a thin child back to at least one more key and hurts no sibling.
  lemma RepairWF(f: Tree, i: nat, n: int, d: nat, h: nat, lo: Key, hi: Key)
    requires d >= 2 && f.Node? && |f.kids| == |f.keys| + 1 && |f.keys| >= 1 && i < |f.kids|
    requires Inner(f.keys, f.kids, d, h, lo, hi) && OccupiedBut(f.kids, i, n, d)
    requires n == Size(f.kids[i]) == (if h == 0 then d - 1 else d - 2)
    ensures var r := Choose(f, i, d);
            var f1 := Apply(f, r);
            && |f.keys| - 1 <= |f1.keys| <= |f.keys|
            && Inner(f1.keys, f1.kids, d, h, lo, hi)
            && OccupiedBut(f1.kids, RepairedAt(r, i), n + 1, d)
  {
    ChooseFits(f, i, n, d, h, lo, hi);
    ApplyFits(f, i, Choose(f, i, d), n, d, h, lo, hi);
  }

  lemma DropEntryWF(c: Tree, k: Key, s: Disk, d: nat, lo: Key, hi: Key)
    requires c.Leaf? && WF(c, d, 0, lo, hi)
    ensures var r := DropEntry(c, k, s); WF(r.t, d, 0, lo, hi) && Size(r.t) >= Size(c) - 1
  {
  }

  // The father after a removal below one of its children: still in order and occupied, with
  // at most one key less.
  ghost predicate Repaired(f: Tree, f1: Tree, d: nat, h: nat, lo: Key, hi: Key) {
    f.Node? && f1.Node? && WF(f1, d, h, lo, hi) && |f.keys| - 1 <= |f1.keys| <= |f.keys|
  }

  lemma RemoveAtLeafWF(f: Tree, i: nat, k: Key, s: Disk, lo: Key, hi: Key)
    requires GeometryOK(s.g) && f.Node? && WF(f, s.g.degree, 1, lo, hi) && |f.kids| == |f.keys| + 1
    requires |f.keys| >= 1 && i < |f.kids| && f.kids[i].Leaf?
    ensures Repaired(f, RemoveAtLeaf(f, i, k, s).t, s.g.degree, 1, lo, hi)
  {
    var d := s.g.degree;
    var c := f.kids[i];
    if Holds(c, k) {
      if |c.items| > d - 1 {
        var e := DropEntry(c, k, s);
        DropEntryWF(c, k, s, d, Lo(f.keys, i, lo), Hi(f.keys, i, hi));
        ReplaceKid(f.keys, f.kids, i, e.t, d, 0, lo, hi);
      } else {
        var r := Choose(f, i, d);
        RepairWF(f, i, d - 1, d, 0, lo, hi);
        var f1, i1, s1 := Apply(f, r), RepairedAt(r, i), RepairDisk(r, i, s);
        DropInRepaired(f1, i1, k, s1, d, lo, hi);
      }
    }
  }

  lemma DropInRepaired(f: Tree, i: nat, k: Key, s: Disk, d: nat, lo: Key, hi: Key)
    requires f.Node? && |f.kids| == |f.keys| + 1 && i < |f.kids| && |f.keys| <= 2 * d - 1
    requires Inner(f.keys, f.kids, d, 0, lo, hi) && OccupiedBut(f.kids, i, d, d)
    ensures WF(WithKid(f, i, DropEntry(f.kids[i], k, s).t), d, 1, lo, hi)
  {
    var e := DropEntry(f.kids[i], k, s);
    DropEntryWF(f.kids[i], k, s, d, Lo(f.keys, i, lo), Hi(f.keys, i, hi));
    ReplaceKid(f.keys, f.kids, i, e.t, d, 0, lo, hi);
  }

  // Removing a key keeps the search-tree invariant; the only node that may end up with
  // fewer than d-1 keys is the father itself, by one key.
  lemma {:induction false} RemoveInWF(f: Tree, i: nat, k: Key, s: Disk, h: nat, lo: Key, hi: Key)
    requires GeometryOK(s.g) && f.Node? && Shaped(f, s.g.degree) && WF(f, s.g.degree, h, lo, hi) && i < |f.kids|
    ensures Repaired(f, RemoveIn(f, i, k, s).t, s.g.degree, h, lo, hi)
    decreases h
  {
    var d := s.g.degree;
    var c, lo1, hi1 := f.kids[i], Lo(f.keys, i, lo), Hi(f.keys, i, hi);
    assert WF(c, d, h - 1, lo1, hi1);
    if c.Leaf? {
      assert h == 1;
      RemoveAtLeafWF(f, i, k, s, lo, hi);
    } else {
      RemoveInWF(c, FirstGT(c.keys, k), k, s, h - 1, lo1, hi1);
      var r := RemoveIn(c, FirstGT(c.keys, k), k, s);
      SettleWF(f, i, r.t, r.disk, h, lo, hi);
    }
  }

  lemma SettleWF(f: Tree, i: nat, c: Tree, s: Disk, h: nat, lo: Key, hi: Key)
    requires GeometryOK(s.g) && f.Node? && |f.keys| >= 1 && |f.kids| == |f.keys| + 1 && i < |f.kids| && h >= 2
    requires WF(f, s.g.degree, h, lo, hi)
    requires WF(c, s.g.degree, h - 1, Lo(f.keys, i, lo), Hi(f.keys, i, hi)) && Size(c) >= s.g.degree - 2
    ensures Repaired(f, Settle(WithKid(f, i, c), i, s).0, s.g.degree, h, lo, hi)
  {
    var d := s.g.degree;
    ReplaceKid(f.keys, f.kids, i, c, d, h - 1, lo, hi);
    if Size(c) < d - 1 {
      RepairWF(WithKid(f, i, c), i, d - 2, d, h - 1, lo, hi);
    }
  }
}
