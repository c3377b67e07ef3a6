/** Joining two neighbours and parting one in two: order, content, occupancy and pages. */
module BTreeJoins {
  import opened Pages
  import opened BTrees

  // ----- concatenation -----

  ghost predicate Row(keys: seq<Key>, kids: seq<Tree>) {
    kids == [] || |kids| == |keys| + 1
  }

  // The content of a node is what lies left of key m, that key, and what lies right of it.
  lemma {:induction false} FlatSplit(keys: seq<Key>, kids: seq<Tree>, m: nat)
    requires Row(keys, kids) && m < |keys|
    ensures Flat(keys, kids) == Flat(keys[..m], LeftOf(kids, m)) + [keys[m]] + Flat(keys[m + 1..], RightOf(kids, m))
    decreases m
  {
    if kids != [] {
      var c := Content(kids[0]);
      if m == 0 {
        assert LeftOf(kids, 0) == [kids[0]] && keys[..0] == [];
      } else {
        FlatSplit(keys[1..], kids[1..], m - 1);
        FlatSplitTail(keys, kids, m);
      }
    }
  }

  lemma FlatSplitTail(keys: seq<Key>, kids: seq<Tree>, m: nat)
    requires |kids| == |keys| + 1 && 0 < m < |keys|
    requires Flat(keys[1..], kids[1..])
          == Flat(keys[1..][..m - 1], LeftOf(kids[1..], m - 1)) + [keys[m]] + Flat(keys[1..][m..], RightOf(kids[1..], m - 1))
    ensures Flat(keys, kids) == Flat(keys[..m], LeftOf(kids, m)) + [keys[m]] + Flat(keys[m + 1..], RightOf(kids, m))
  {
    var c, k, l := Content(kids[0]), keys[..m], LeftOf(kids, m);
    assert keys[1..][..m - 1] == k[1..] && keys[1..][m..] == keys[m + 1..];
    assert LeftOf(kids[1..], m - 1) == l[1..] && RightOf(kids[1..], m - 1) == RightOf(kids, m);
    assert Flat(k, l) == c + [keys[0]] + Flat(k[1..], l[1..]);
  }

  lemma FlatGlue(k1: seq<Key>, c1: seq<Tree>, x: Key, k2: seq<Key>, c2: seq<Tree>)
    requires Row(k1, c1) && Row(k2, c2) && (c1 == [] <==> c2 == [])
    ensures Flat(k1 + [x] + k2, c1 + c2) == Flat(k1, c1) + [x] + Flat(k2, c2)
  {
    var k, m := k1 + [x] + k2, |k1|;
    FlatSplit(k, c1 + c2, m);
    assert k[..m] == k1 && k[m + 1..] == k2;
    assert LeftOf(c1 + c2, m) == c1 && RightOf(c1 + c2, m) == c2;
  }

  // The content of a node around its child i.
  ghost function Before(f: Tree, i: nat): seq<Key> requires i <= |f.keys| {
    if i == 0 then [] else Flat(f.keys[..i - 1], LeftOf(f.kids, i - 1)) + [f.keys[i - 1]]
  }

  ghost function After(f: Tree, i: nat): seq<Key> requires i <= |f.keys| {
    if i == |f.keys| then [] else [f.keys[i]] + Flat(f.keys[i + 1..], RightOf(f.kids, i))
  }

  lemma Around(f: Tree, i: nat)
    requires |f.kids| == |f.keys| + 1 && i < |f.kids|
    ensures Content(f) == Before(f, i) + Content(f.kids[i]) + After(f, i)
  {
    var n := |f.keys|;
    if i > 0 {
      FlatSplit(f.keys, f.kids, i - 1);
      var k, c := f.keys[i..], f.kids[i..];
      assert RightOf(f.kids, i - 1) == c && c[0] == f.kids[i];
      if i < n {
        assert k[1..] == f.keys[i + 1..] && c[1..] == RightOf(f.kids, i);
        assert Flat(k, c) == Content(f.kids[i]) + [f.keys[i]] + Flat(k[1..], c[1..]);
      }
    } else if i < n {
      assert f.kids[1..] == RightOf(f.kids, 0);
    }
  }

  // Two trees that agree beside one child agree in what is before and after it.
  lemma SameAround(f: Tree, i: nat, g: Tree)
    requires |f.kids| == |f.keys| + 1 == |g.kids| == |g.keys| + 1 && i < |f.kids| && g.keys == f.keys
    requires forall j :: 0 <= j < |f.kids| && j != i ==> g.kids[j] == f.kids[j]
    ensures Content(g) == Before(f, i) + Content(g.kids[i]) + After(f, i)
  {
    Around(g, i);
    if i > 0 {
      assert LeftOf(g.kids, i - 1) == LeftOf(f.kids, i - 1);
    }
    assert RightOf(g.kids, i) == RightOf(f.kids, i);
  }

  // The content of a node around its children i and i+1.
  lemma AroundTwo(f: Tree, i: nat)
    requires |f.kids| == |f.keys| + 1 && i < |f.keys|
    ensures Content(f) == Before(f, i) + (Content(f.kids[i]) + [f.keys[i]] + Content(f.kids[i + 1])) + After(f, i + 1)
  {
    Around(f, i);
    var k, c := f.keys[i + 1..], RightOf(f.kids, i);
    assert c[0] == f.kids[i + 1];
    if i + 1 < |f.keys| {
      assert k[1..] == f.keys[i + 2..] && c[1..] == RightOf(f.kids, i + 1);
      assert Flat(k, c) == Content(f.kids[i + 1]) + [f.keys[i + 1]] + Flat(k[1..], c[1..]);
    }
  }

  ghost predicate Alike(f: Tree, i: nat)
    requires i < |f.keys| && |f.kids| == |f.keys| + 1
  {
    var a, b := f.kids[i], f.kids[i + 1];
    Row(a.keys, a.kids) && Row(b.keys, b.kids) && (a.kids == [] <==> b.kids == [])
  }

  lemma JoinContent(f: Tree, i: nat)
    requires i < |f.keys| && |f.kids| == |f.keys| + 1 && Alike(f, i)
    ensures Content(Join(f, i)) == Content(f)
  {
    var g, a, b := Join(f, i), f.kids[i], f.kids[i + 1];
    FlatGlue(a.keys, a.kids, f.keys[i], b.keys, b.kids);
    AroundTwo(f, i);
    Around(g, i);
    if i > 0 {
      assert g.keys[..i - 1] == f.keys[..i - 1] && LeftOf(g.kids, i - 1) == LeftOf(f.kids, i - 1);
    }
    if i < |g.keys| {
      assert g.keys[i + 1..] == f.keys[i + 2..] && RightOf(g.kids, i) == RightOf(f.kids, i + 1);
    }
  }

  lemma PartContent(f: Tree, i: nat, m: nat, id: Ref)
    requires |f.kids| == |f.keys| + 1 && i < |f.kids| && m < |f.kids[i].keys| && Row(f.kids[i].keys, f.kids[i].kids)
    ensures Content(Part(f, i, m, id)) == Content(f)
  {
    var g, c := Part(f, i, m, id), f.kids[i];
    FlatSplit(c.keys, c.kids, m);
    Around(f, i);
    AroundTwo(g, i);
    if i > 0 {
      assert g.keys[..i - 1] == f.keys[..i - 1] && LeftOf(g.kids, i - 1) == LeftOf(f.kids, i - 1);
    }
    if i < |f.keys| {
      assert g.keys[i + 2..] == f.keys[i + 1..] && RightOf(g.kids, i + 1) == RightOf(f.kids, i);
    }
  }

  // ----- order -----

  lemma JoinOrdered(f: Tree, i: nat, h: nat, lo: Key, hi: Key)
    requires Ordered(f, h, lo, hi) && h > 0 && i < |f.keys| && |f.kids| == |f.keys| + 1
    ensures Ordered(Join(f, i), h, lo, hi) && Alike(f, i)
  {
    var g, a, b := Join(f, i), f.kids[i], f.kids[i + 1];
    var lo1, x, hi1 := Lo(f.keys, i, lo), f.keys[i], Hi(f.keys, i + 1, hi);
    assert Ordered(a, h - 1, lo1, x) && Ordered(b, h - 1, x, hi1);
    OrderedRow(a, h - 1, lo1, x);
    OrderedRow(b, h - 1, x, hi1);
    Glued(a, x, b, h - 1, lo1, hi1);
    assert Ordered(g.kids[i], h - 1, lo1, hi1);
    forall j | 0 <= j < |g.kids|
      ensures Ordered(g.kids[j], h - 1, Lo(g.keys, j, lo), Hi(g.keys, j, hi))
    {
      if j < i {
        assert g.kids[j] == f.kids[j];
      } else if j > i {
        assert g.kids[j] == f.kids[j + 1];
      }
    }
  }

  lemma OrderedRow(t: Tree, h: nat, lo: Key, hi: Key)
    requires Ordered(t, h, lo, hi)
    ensures Row(t.keys, t.kids) && (t.kids == [] <==> h == 0)
  {
  }

  lemma Glued(a: Tree, x: Key, b: Tree, h: nat, lo: Key, hi: Key)
    requires Ordered(a, h, lo, x) && Ordered(b, h, x, hi) && lo < x < hi
    ensures Body(a.keys + [x] + b.keys, a.kids + b.kids, h, lo, hi)
  {
    var k, c := a.keys + [x] + b.keys, a.kids + b.kids;
    if h > 0 {
      forall j | 0 <= j < |c|
        ensures Ordered(c[j], h - 1, Lo(k, j, lo), Hi(k, j, hi))
      {
        if j < |a.kids| {
          assert c[j] == a.kids[j];
        } else {
          assert c[j] == b.kids[j - |a.kids|];
        }
      }
    }
  }

  lemma PartOrdered(f: Tree, i: nat, m: nat, id: Ref, h: nat, lo: Key, hi: Key)
    requires Ordered(f, h, lo, hi) && h > 0 && i < |f.kids| == |f.keys| + 1 && m < |f.kids[i].keys|
    ensures Ordered(Part(f, i, m, id), h, lo, hi) && Row(f.kids[i].keys, f.kids[i].kids)
  {
    var g, c := Part(f, i, m, id), f.kids[i];
    var lo1, hi1 := Lo(f.keys, i, lo), Hi(f.keys, i, hi);
    assert Ordered(c, h - 1, lo1, hi1);
    OrderedRow(c, h - 1, lo1, hi1);
    Halved(c, m, h - 1, lo1, hi1);
    SortedInsert(f.keys, i, c.keys[m], lo, hi);
    assert Ordered(g.kids[i], h - 1, lo1, c.keys[m]) && Ordered(g.kids[i + 1], h - 1, c.keys[m], hi1);
    forall j | 0 <= j < |g.kids|
      ensures Ordered(g.kids[j], h - 1, Lo(g.keys, j, lo), Hi(g.keys, j, hi))
    {
      if j < i {
        assert g.kids[j] == f.kids[j];
      } else if j > i + 1 {
        assert g.kids[j] == f.kids[j - 1];
      }
    }
  }

  lemma Halved(c: Tree, m: nat, h: nat, lo: Key, hi: Key)
    requires Ordered(c, h, lo, hi) && m < |c.keys|
    ensures Body(c.keys[..m], LeftOf(c.kids, m), h, lo, c.keys[m])
    ensures Body(c.keys[m + 1..], RightOf(c.kids, m), h, c.keys[m], hi)
    ensures lo < c.keys[m] < hi
  {
    if h > 0 {
      var k, r := c.keys[m + 1..], RightOf(c.kids, m);
      forall j | 0 <= j < |r|
        ensures Ordered(r[j], h - 1, Lo(k, j, c.keys[m]), Hi(k, j, hi))
      {
        assert r[j] == c.kids[m + 1 + j];
      }
    }
  }

  // A child may be replaced by another tree for the same interval.
  lemma WithKidOrdered(f: Tree, i: nat, c: Tree, h: nat, lo: Key, hi: Key)
    requires Ordered(f, h, lo, hi) && h > 0 && i < |f.kids| == |f.keys| + 1 && Ordered(c, h - 1, Lo(f.keys, i, lo), Hi(f.keys, i, hi))
    ensures Ordered(WithKid(f, i, c), h, lo, hi)
  {
  }

  // ----- occupancy -----

  // Children other than x are neither thin nor overfull, nor is anything below any child.
  ghost predicate OccupiedBut(kids: seq<Tree>, x: nat, T: nat) {
    forall i :: 0 <= i < |kids| ==> Occupied(kids[i].kids, T) && (i != x ==> T - 1 <= |kids[i].keys| <= 2 * T - 1)
  }

  lemma JoinOccupied(f: Tree, i: nat, T: nat)
    requires i < |f.keys| && |f.kids| == |f.keys| + 1 && Occupied(f.kids, T)
    ensures OccupiedBut(Join(f, i).kids, i, T)
    ensures |Join(f, i).kids[i].keys| == |f.kids[i].keys| + 1 + |f.kids[i + 1].keys|
  {
    var g := Join(f, i);
    forall j | 0 <= j < |g.kids|
      ensures Occupied(g.kids[j].kids, T) && (j != i ==> T - 1 <= |g.kids[j].keys| <= 2 * T - 1)
    {
      if j < i {
        assert g.kids[j] == f.kids[j];
      } else if j > i {
        assert g.kids[j] == f.kids[j + 1];
      }
    }
  }

  lemma PartOccupied(f: Tree, i: nat, m: nat, id: Ref, T: nat)
    requires i < |f.kids| && i <= |f.keys| && m < |f.kids[i].keys| && OccupiedBut(f.kids, i, T)
    requires T - 1 <= m <= 2 * T - 1 && T - 1 <= |f.kids[i].keys| - 1 - m <= 2 * T - 1
    ensures Occupied(Part(f, i, m, id).kids, T)
  {
    var g := Part(f, i, m, id);
    forall j | 0 <= j < |g.kids|
      ensures Occupied(g.kids[j].kids, T) && T - 1 <= |g.kids[j].keys| <= 2 * T - 1
    {
      if j < i {
        assert g.kids[j] == f.kids[j];
      } else if j > i + 1 {
        assert g.kids[j] == f.kids[j - 1];
      }
    }
  }
}
