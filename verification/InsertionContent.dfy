/** What setting a key does to the content of the tree. */
module InsertionContent {
  import opened Pages
  import opened Trees
  import opened Order
  import opened Insertion

  function Content(g: Grown): seq<Entry> {
    match g
    case One(t) => Entries(t)
    case Two(l, _, r) => Entries(l) + Entries(r)
  }

  // b is a with one more entry e, everything else in place.
  ghost predicate Gains(a: seq<Entry>, b: seq<Entry>, e: Entry) {
    exists p: nat :: p <= |a| && b == InsertAt(a, p, e)
  }

  lemma GainsBetween(l: seq<Entry>, a: seq<Entry>, b: seq<Entry>, r: seq<Entry>, e: Entry)
    requires Gains(a, b, e)
    ensures Gains(l + a + r, l + b + r, e)
  {
    var p: nat :| p <= |a| && b == InsertAt(a, p, e);
    assert l + b + r == InsertAt(l + a + r, |l| + p, e);
  }

  lemma LeafInsertContent(t: Tree, k: Key, v: Value, s: Disk)
    requires t.Leaf? && |t.items| <= 2 * s.g.degree - 1 && GeometryOK(s.g)
    ensures Puts(t, LeafInsert(t, k, v, s), k)
  {
    hide NewValue, AppendNode, Flush, FirstGE;
    var o := LeafInsert(t, k, v, s);
    var i := FirstGE(KeysOf(t.items), k);
    if o.isNew {
      assert Content(o.grown) == InsertAt(t.items, i, Entry(k, o.slot));
    } else {
      assert t.items[i] == Entry(k, o.slot);
    }
  }

  // Cutting a node only cuts the row of children in two.
  lemma RebuildContent(id: Ref, keys: seq<Key>, kids: seq<Tree>, m: nat, s: Disk)
    requires |kids| == |keys| + 1 && |keys| <= 2 * s.g.degree && (|keys| == 2 * s.g.degree ==> m < |keys|)
    ensures Content(Rebuild(id, keys, kids, m, s).0) == EntriesOf(kids)
  {
    if |keys| == 2 * s.g.degree {
      EntriesOfAppend(kids[..m + 1], kids[m + 1..]);
      assert kids == kids[..m + 1] + kids[m + 1..];
    }
  }

  lemma WidenContent(t: Tree, i: nat, l: Tree, sep: Key, r: Tree, s: Disk)
    requires t.Node? && |t.kids| == |t.keys| + 1 && i < |t.kids| && |t.keys| <= 2 * s.g.degree - 1 && s.g.degree >= 2
    requires FirstGT(t.keys, sep) == i
    ensures Content(Widen(t, i, l, sep, r, s).0)
         == EntriesOf(t.kids[..i]) + (Entries(l) + Entries(r)) + EntriesOf(t.kids[i + 1..])
  {
    WidenKids(t.kids, i, l, r);
    EntriesOfThree(t.kids[..i], [l, r], t.kids[i + 1..]);
    EntriesOfTwo(l, r);
    RebuildContent(t.id, InsertAt(t.keys, i, sep), InsertAt(t.kids[i := l], i + 1, r), NodeCut(t.keys, sep, s.g.degree), s);
  }

  // A new key adds exactly one entry to the in-order content; a present key adds none
  // and its slot is the one written.
  ghost predicate Puts(t: Tree, o: Placed, k: Key) {
    if o.isNew then Gains(Entries(t), Content(o.grown), Entry(k, o.slot))
    else o.grown == One(t) && Entry(k, o.slot) in Entries(t)
  }

  lemma {:induction false} InsertContent(t: Tree, k: Key, v: Value, s: Disk, h: nat, lo: Key, hi: Key)
    requires GeometryOK(s.g) && Shaped(t, s.g.degree) && WF(t, s.g.degree, h, lo, hi) && lo <= k < hi
    ensures Puts(t, Insert(t, k, v, s), k)
    decreases h
  {
    if t.Leaf? {
      LeafInsertContent(t, k, v, s);
    } else {
      var i := FirstGT(t.keys, k);
      var c, lo1, hi1 := t.kids[i], Lo(t.keys, i, lo), Hi(t.keys, i, hi);
      InsertContent(c, k, v, s, h - 1, lo1, hi1);
      Around(t.keys, t.kids, i, s.g.degree, h - 1, lo, hi);
      var o := Insert(c, k, v, s);
      match o.grown
      case One(c1) =>
        OnePuts(t, i, o, k);
      case Two(l, sep, r) =>
        InsertWF(c, k, v, s, h - 1, lo1, hi1);
        RouteOfSep(t.keys, i, sep, lo, hi);
        WidenContent(t, i, l, sep, r, o.disk);
        GainsBetween(EntriesOf(t.kids[..i]), Entries(c), Content(o.grown), EntriesOf(t.kids[i + 1..]), Entry(k, o.slot));
    }
  }

  lemma OnePuts(t: Tree, i: nat, o: Placed, k: Key)
    requires t.Node? && i < |t.kids| && o.grown.One? && Puts(t.kids[i], o, k)
    requires EntriesOf(t.kids) == EntriesOf(t.kids[..i]) + Entries(t.kids[i]) + EntriesOf(t.kids[i + 1..])
    ensures Puts(t, o.(grown := One(Node(t.id, t.keys, t.kids[i := o.grown.t]))), k)
  {
    ReplacedContent(t.kids, i, o.grown.t);
    if o.isNew {
      GainsBetween(EntriesOf(t.kids[..i]), Entries(t.kids[i]), Entries(o.grown.t), EntriesOf(t.kids[i + 1..]), Entry(k, o.slot));
    } else {
      assert t.kids[i := t.kids[i]] == t.kids;
    }
  }

  lemma ReplacedContent(kids: seq<Tree>, i: nat, c: Tree)
    requires i < |kids|
    ensures EntriesOf(kids[i := c]) == EntriesOf(kids[..i]) + Entries(c) + EntriesOf(kids[i + 1..])
  {
    assert kids[i := c] == kids[..i] + [c] + kids[i + 1..];
    EntriesOfThree(kids[..i], [c], kids[i + 1..]);
    EntriesOfOne(c);
  }
}
