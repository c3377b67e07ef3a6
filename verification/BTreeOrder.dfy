/** The content of a B-tree: strictly increasing, and found by routing. */
module BTreeOrder {
  import opened Pages
  import opened BTrees
  import opened BTreeJoins

  // b is a with one more key k, everything else in place.
  ghost predicate Gains(a: seq<Key>, b: seq<Key>, k: Key) {
    exists p: nat :: p <= |a| && b == InsertAt(a, p, k)
  }

  lemma GainsBetween(l: seq<Key>, a: seq<Key>, b: seq<Key>, r: seq<Key>, k: Key)
    requires Gains(a, b, k)
    ensures Gains(l + a + r, l + b + r, k)
  {
    var p: nat :| p <= |a| && b == InsertAt(a, p, k);
    assert l + b + r == InsertAt(l + a + r, |l| + p, k);
  }

  // In increasing content a key has only one place.
  lemma GainsAt(a: seq<Key>, b: seq<Key>, k: Key, i: nat)
    requires Sorted(b) && Gains(a, b, k) && i < |b| && b[i] == k
    ensures a == RemoveAt(b, i)
    ensures forall x :: x in a <==> x in b && x != k
  {
    var p: nat :| p <= |a| && b == InsertAt(a, p, k);
    assert b[p] == k;
    assert a == RemoveAt(b, i);
    OthersStay(a, b, i);
  }

  lemma OthersStay(a: seq<Key>, b: seq<Key>, i: nat)
    requires Sorted(b) && i < |b| && a == RemoveAt(b, i)
    ensures forall x :: x in a <==> x in b && x != b[i]
  {
    var k := b[i];
    forall x | x in b && x != k
      ensures x in a
    {
      var j :| 0 <= j < |b| && b[j] == x;
      assert x == if j < i then a[j] else a[j - 1];
    }
    forall x | x in a
      ensures x in b && x != k
    {
      var j :| 0 <= j < |a| && a[j] == x;
      assert x == if j < i then b[j] else b[j + 1];
    }
  }

  ghost predicate Increasing(s: seq<Key>, lo: Key, hi: Key) {
    Sorted(s) && forall x :: x in s ==> lo < x < hi
  }

  lemma IncreasingAround(a: seq<Key>, x: Key, b: seq<Key>, lo: Key, hi: Key)
    requires Increasing(a, lo, x) && Increasing(b, x, hi) && lo < x < hi
    ensures Increasing(a + [x] + b, lo, hi)
  {
    assert forall i :: 0 <= i < |a| ==> a[i] in a;
    assert forall i :: 0 <= i < |b| ==> b[i] in b;
  }

  // The content of an ordered tree is strictly increasing and stays in its interval.
  lemma {:induction false} ContentIncreasing(keys: seq<Key>, kids: seq<Tree>, h: nat, lo: Key, hi: Key)
    requires Body(keys, kids, h, lo, hi)
    ensures Increasing(Flat(keys, kids), lo, hi)
    decreases h, |keys|
  {
    if h == 0 {
      assert forall x :: x in keys ==> lo < x < hi;
    } else {
      var c := kids[0];
      assert Ordered(c, h - 1, lo, Hi(keys, 0, hi));
      ContentIncreasing(c.keys, c.kids, h - 1, lo, Hi(keys, 0, hi));
      if keys != [] {
        TailBody(keys, kids, h, lo, hi);
        ContentIncreasing(keys[1..], kids[1..], h, keys[0], hi);
        IncreasingAround(Content(c), keys[0], Flat(keys[1..], kids[1..]), lo, hi);
      }
    }
  }

  lemma TailBody(keys: seq<Key>, kids: seq<Tree>, h: nat, lo: Key, hi: Key)
    requires Body(keys, kids, h, lo, hi) && h > 0 && keys != []
    ensures Body(keys[1..], kids[1..], h, keys[0], hi)
  {
    var k, c := keys[1..], kids[1..];
    forall j | 0 <= j < |c|
      ensures Ordered(c[j], h - 1, Lo(k, j, keys[0]), Hi(k, j, hi))
    {
      assert c[j] == kids[j + 1];
    }
  }

  lemma TreeIncreasing(t: Tree, h: nat, lo: Key, hi: Key)
    requires Ordered(t, h, lo, hi)
    ensures Increasing(Content(t), lo, hi)
  {
    ContentIncreasing(t.keys, t.kids, h, lo, hi);
  }

  lemma KeyWithin(t: Tree, i: nat)
    requires Row(t.keys, t.kids) && i < |t.keys|
    ensures t.keys[i] in Content(t)
  {
    FlatSplit(t.keys, t.kids, i);
  }

  lemma KidWithin(t: Tree, i: nat)
    requires |t.kids| == |t.keys| + 1 && i < |t.kids|
    ensures forall x :: x in Content(t.kids[i]) ==> x in Content(t)
  {
    Around(t, i);
  }

  // Only the keys decide in which interval an ordered tree lies.
  lemma {:induction false} Rebound(t: Tree, h: nat, lo: Key, hi: Key, lo1: Key, hi1: Key)
    requires Ordered(t, h, lo, hi) && forall x :: x in Content(t) ==> lo1 < x < hi1
    ensures Ordered(t, h, lo1, hi1)
    decreases h
  {
    assert Body(t.keys, t.kids, h, lo, hi);
    forall i | 0 <= i < |t.keys|
      ensures lo1 < t.keys[i] < hi1
    {
      KeyWithin(t, i);
    }
    if h > 0 {
      forall i | 0 <= i < |t.kids|
        ensures Ordered(t.kids[i], h - 1, Lo(t.keys, i, lo1), Hi(t.keys, i, hi1))
      {
        var a, b := Lo(t.keys, i, lo), Hi(t.keys, i, hi);
        assert Ordered(t.kids[i], h - 1, a, b);
        TreeIncreasing(t.kids[i], h - 1, a, b);
        KidWithin(t, i);
        Rebound(t.kids[i], h - 1, a, b, Lo(t.keys, i, lo1), Hi(t.keys, i, hi1));
      }
    }
  }

  // A key that is not in the node is in the tree exactly if it is in the child it routes to.
  lemma Routed(t: Tree, k: Key, h: nat, lo: Key, hi: Key)
    requires Ordered(t, h, lo, hi) && h > 0 && |t.kids| == |t.keys| + 1 && lo < k < hi
    requires var i := FirstGE(t.keys, k); i < |t.keys| ==> t.keys[i] != k
    ensures var i := FirstGE(t.keys, k);
            (k in Content(t) <==> k in Content(t.kids[i])) && Lo(t.keys, i, lo) < k < Hi(t.keys, i, hi)
  {
    hide Flat, Before, After, LeftOf, RightOf;
    var i := FirstGE(t.keys, k);
    Around(t, i);
    BesideBounds(t, i, h, lo, hi);
  }

  // What lies before child i is at most its lower bound, what lies after at least its upper one.
  lemma BesideBounds(t: Tree, i: nat, h: nat, lo: Key, hi: Key)
    requires Ordered(t, h, lo, hi) && h > 0 && i < |t.kids| == |t.keys| + 1
    ensures forall x :: x in Before(t, i) ==> x <= Lo(t.keys, i, lo)
    ensures forall x :: x in After(t, i) ==> x >= Hi(t.keys, i, hi)
  {
    if i > 0 {
      Halved(t, i - 1, h, lo, hi);
      ContentIncreasing(t.keys[..i - 1], LeftOf(t.kids, i - 1), h, lo, t.keys[i - 1]);
    }
    if i < |t.keys| {
      Halved(t, i, h, lo, hi);
      ContentIncreasing(t.keys[i + 1..], RightOf(t.kids, i), h, t.keys[i], hi);
    }
  }

  // Search finds exactly the keys of the tree.
  lemma {:induction false} SearchFinds(t: Tree, k: Key, h: nat, lo: Key, hi: Key)
    requires Ordered(t, h, lo, hi) && lo < k < hi
    ensures Search(t, k, h) <==> k in Content(t)
    decreases h
  {
    var i := FirstGE(t.keys, k);
    OrderedRow(t, h, lo, hi);
    if i < |t.keys| && t.keys[i] == k {
      KeyWithin(t, i);
    } else if h > 0 {
      Routed(t, k, h, lo, hi);
      SearchFinds(t.kids[i], k, h - 1, Lo(t.keys, i, lo), Hi(t.keys, i, hi));
    } else {
      Missing(t.keys, k);
    }
  }

  lemma LeafContent(t: Tree)
    requires t.kids == []
    ensures Content(t) == t.keys
  {
  }

  lemma Missing(s: seq<Key>, k: Key)
    requires Sorted(s) && (FirstGE(s, k) < |s| ==> s[FirstGE(s, k)] != k)
    ensures k !in s
  {
    forall j | 0 <= j < |s|
      ensures s[j] != k
    {
      assert j > FirstGE(s, k) ==> s[FirstGE(s, k)] < s[j];
    }
  }

  // The ends of the content.
  lemma {:induction false} LastKeyIs(t: Tree, T: nat, h: nat, lo: Key, hi: Key)
    requires T >= 2 && Good(t, T, h, lo, hi) && |t.keys| >= 1
    ensures Content(t) != [] && Content(t)[|Content(t)| - 1] == LastKey(t)
    decreases h
  {
    assert Body(t.keys, t.kids, h, lo, hi);
    if h > 0 {
      var n := |t.keys|;
      Around(t, n);
      assert Ordered(t.kids[n], h - 1, Lo(t.keys, n, lo), hi);
      LastKeyIs(t.kids[n], T, h - 1, Lo(t.keys, n, lo), hi);
    }
  }

  lemma {:induction false} FirstKeyIs(t: Tree, T: nat, h: nat, lo: Key, hi: Key)
    requires T >= 2 && Good(t, T, h, lo, hi) && |t.keys| >= 1
    ensures Content(t) != [] && Content(t)[0] == FirstKey(t)
    decreases h
  {
    assert Body(t.keys, t.kids, h, lo, hi);
    if h > 0 {
      Around(t, 0);
      assert Ordered(t.kids[0], h - 1, lo, Hi(t.keys, 0, hi));
      FirstKeyIs(t.kids[0], T, h - 1, lo, Hi(t.keys, 0, hi));
    }
  }
}
