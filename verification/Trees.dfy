/** The ghost shape of a B+ tree on disk, and what it means for it to be one. */
module Trees {
  import opened Pages

  datatype Tree =
    | Leaf(id: Ref, items: seq<Entry>)
    | Node(id: Ref, keys: seq<Key>, kids: seq<Tree>)

  function Size(t: Tree): nat {
    if t.Leaf? then |t.items| else |t.keys|
  }

  function KidIds(kids: seq<Tree>): (r: seq<Ref>)
    ensures |r| == |kids|
    ensures forall i :: 0 <= i < |kids| ==> r[i] == kids[i].id
  {
    seq(|kids|, i requires 0 <= i < |kids| => kids[i].id)
  }

  // The page on which the root of t is stored.
  function PageOf(t: Tree): Page {
    match t
    case Leaf(_, items) => LeafPage(KeysOf(items), SlotsOf(items))
    case Node(_, keys, kids) => NodePage(keys, KidIds(kids))
  }

  // ----- content, left to right -----

  function Entries(t: Tree): seq<Entry> {
    match t
    case Leaf(_, items) => items
    case Node(_, _, kids) => EntriesOf(kids)
  }

  function EntriesOf(ts: seq<Tree>): seq<Entry> {
    if ts == [] then [] else Entries(ts[0]) + EntriesOf(ts[1..])
  }

  // ----- pages owned -----

  function Ids(t: Tree): multiset<Ref> {
    match t
    case Leaf(id, _) => multiset{id}
    case Node(id, _, kids) => multiset{id} + IdsOf(kids)
  }

  function IdsOf(ts: seq<Tree>): multiset<Ref> {
    if ts == [] then multiset{} else Ids(ts[0]) + IdsOf(ts[1..])
  }

  function Slots(t: Tree): multiset<Ref> {
    multiset(SlotsOf(Entries(t)))
  }

  // ----- the search-tree invariant -----

  // Every key of t lies in [lo, hi), t has height h, no node holds more than 2d-1
  // keys and no node below the root fewer than d-1.
  ghost predicate WF(t: Tree, d: nat, h: nat, lo: Key, hi: Key)
    decreases h, 0
  {
    match t
    case Leaf(_, items) =>
      h == 0 && |items| <= 2 * d - 1 && InOrder(items, lo, hi)
    case Node(_, keys, kids) =>
      h > 0 && |keys| <= 2 * d - 1 && Inner(keys, kids, d, h - 1, lo, hi) && Occupied(kids, d)
  }

  ghost predicate InOrder(items: seq<Entry>, lo: Key, hi: Key) {
    && (forall i :: 0 <= i < |items| ==> lo <= items[i].key < hi)
    && (forall i, j :: 0 <= i < j < |items| ==> items[i].key < items[j].key)
  }

  ghost predicate Inner(keys: seq<Key>, kids: seq<Tree>, d: nat, h: nat, lo: Key, hi: Key)
    decreases h, 1
  {
    && |kids| == |keys| + 1
    && Sorted(keys)
    && (forall i :: 0 <= i < |keys| ==> lo < keys[i] < hi)
    && (forall i :: 0 <= i < |kids| ==> WF(kids[i], d, h, Lo(keys, i, lo), Hi(keys, i, hi)))
  }

  ghost predicate Occupied(kids: seq<Tree>, d: nat) {
    forall i :: 0 <= i < |kids| ==> Size(kids[i]) >= d - 1
  }

  // ----- on disk -----

  ghost predicate Stored(t: Tree, pages: map<Ref, Page>)
    decreases t, 1
  {
    t.id in pages && pages[t.id] == PageOf(t) && KidsStored(t, pages)
  }

  ghost predicate KidsStored(t: Tree, pages: map<Ref, Page>)
    decreases t, 0
  {
    t.Node? ==> forall i :: 0 <= i < |t.kids| ==> Stored(t.kids[i], pages)
  }

  // ----- concatenation -----

  lemma {:induction false} EntriesOfAppend(a: seq<Tree>, b: seq<Tree>)
    ensures EntriesOf(a + b) == EntriesOf(a) + EntriesOf(b)
  {
    hide Entries;
    if a == [] {
      assert a + b == b;
    } else {
      EntriesOfAppend(a[1..], b);
      assert (a + b)[0] == a[0] && (a + b)[1..] == a[1..] + b;
      assert EntriesOf(a + b) == Entries(a[0]) + EntriesOf(a[1..] + b);
    }
  }

  lemma {:induction false} IdsOfAppend(a: seq<Tree>, b: seq<Tree>)
    ensures IdsOf(a + b) == IdsOf(a) + IdsOf(b)
  {
    hide Ids;
    if a == [] {
      assert a + b == b;
    } else {
      IdsOfAppend(a[1..], b);
      assert (a + b)[1..] == a[1..] + b;
      SumAssoc(Ids(a[0]), IdsOf(a[1..]), IdsOf(b));
    }
  }

  lemma EntriesOfOne(t: Tree)
    ensures EntriesOf([t]) == Entries(t)
  {
    assert EntriesOf([t]) == Entries(t) + EntriesOf([]);
  }

  lemma EntriesOfTwo(a: Tree, b: Tree)
    ensures EntriesOf([a, b]) == Entries(a) + Entries(b)
  {
    assert [a, b] == [a] + [b];
    EntriesOfAppend([a], [b]);
    EntriesOfOne(a);
    EntriesOfOne(b);
  }

  lemma IdsOfOne(t: Tree)
    ensures IdsOf([t]) == Ids(t)
  {
    assert IdsOf([t]) == Ids(t) + IdsOf([]);
  }

  lemma IdsOfTwo(a: Tree, b: Tree)
    ensures IdsOf([a, b]) == Ids(a) + Ids(b)
  {
    assert [a, b][1..] == [b];
    assert IdsOf([b]) == Ids(b) + IdsOf([]);
  }

  // Content and pages of three groups of siblings side by side.
  lemma EntriesOfThree(a: seq<Tree>, b: seq<Tree>, c: seq<Tree>)
    ensures EntriesOf(a + b + c) == EntriesOf(a) + EntriesOf(b) + EntriesOf(c)
  {
    EntriesOfAppend(a + b, c);
    EntriesOfAppend(a, b);
  }

  lemma IdsOfThree(a: seq<Tree>, b: seq<Tree>, c: seq<Tree>)
    ensures IdsOf(a + b + c) == IdsOf(a) + IdsOf(b) + IdsOf(c)
  {
    IdsOfAppend(a + b, c);
    IdsOfAppend(a, b);
  }

  // ----- cutting and joining the body of an internal node -----

  lemma CutInner(keys: seq<Key>, kids: seq<Tree>, m: nat, d: nat, h: nat, lo: Key, hi: Key)
    requires Inner(keys, kids, d, h, lo, hi) && m < |keys|
    ensures Inner(keys[..m], kids[..m + 1], d, h, lo, keys[m])
    ensures Inner(keys[m + 1..], kids[m + 1..], d, h, keys[m], hi)
  {
    var kr, cr := keys[m + 1..], kids[m + 1..];
    forall i | 0 <= i < |cr|
      ensures WF(cr[i], d, h, Lo(kr, i, keys[m]), Hi(kr, i, hi))
    {
      assert cr[i] == kids[m + 1 + i];
    }
  }

  lemma JoinInner(k1: seq<Key>, c1: seq<Tree>, sep: Key, k2: seq<Key>, c2: seq<Tree>, d: nat, h: nat, lo: Key, hi: Key)
    requires lo < sep < hi
    requires Inner(k1, c1, d, h, lo, sep) && Inner(k2, c2, d, h, sep, hi)
    ensures Inner(k1 + [sep] + k2, c1 + c2, d, h, lo, hi)
  {
    var k, c := k1 + [sep] + k2, c1 + c2;
    forall i | 0 <= i < |c|
      ensures WF(c[i], d, h, Lo(k, i, lo), Hi(k, i, hi))
    {
      if i < |c1| {
        assert c[i] == c1[i];
      } else {
        assert c[i] == c2[i - |c1|];
      }
    }
  }

  // A child may be replaced by another tree for the same interval.
  lemma ReplaceKid(keys: seq<Key>, kids: seq<Tree>, i: nat, c: Tree, d: nat, h: nat, lo: Key, hi: Key)
    requires Inner(keys, kids, d, h, lo, hi) && i < |kids|
    requires WF(c, d, h, Lo(keys, i, lo), Hi(keys, i, hi))
    ensures Inner(keys, kids[i := c], d, h, lo, hi)
  {
  }

  // Two neighbouring children may be replaced by two others with another separator,
  lemma ReplacePair(keys: seq<Key>, kids: seq<Tree>, j: nat, a: Tree, sep: Key, b: Tree, d: nat, h: nat, lo: Key, hi: Key)
    requires Inner(keys, kids, d, h, lo, hi) && j < |keys|
    requires Lo(keys, j, lo) < sep < Hi(keys, j + 1, hi)
    requires WF(a, d, h, Lo(keys, j, lo), sep) && WF(b, d, h, sep, Hi(keys, j + 1, hi))
    ensures Inner(keys[j := sep], kids[j := a][j + 1 := b], d, h, lo, hi)
  {
    var k, c := keys[j := sep], kids[j := a][j + 1 := b];
    forall i | 0 <= i < |c|
      ensures WF(c[i], d, h, Lo(k, i, lo), Hi(k, i, hi))
    {
      if i < j || i > j + 1 {
        assert c[i] == kids[i];
      }
    }
  }

  // or by one,
  lemma FusePair(keys: seq<Key>, kids: seq<Tree>, j: nat, c: Tree, d: nat, h: nat, lo: Key, hi: Key)
    requires Inner(keys, kids, d, h, lo, hi) && j < |keys|
    requires WF(c, d, h, Lo(keys, j, lo), Hi(keys, j + 1, hi))
    ensures Inner(RemoveAt(keys, j), kids[..j] + [c] + kids[j + 2..], d, h, lo, hi)
  {
    var k, cs := RemoveAt(keys, j), kids[..j] + [c] + kids[j + 2..];
    forall i | 0 <= i < |cs|
      ensures WF(cs[i], d, h, Lo(k, i, lo), Hi(k, i, hi))
    {
      if i < j {
        assert cs[i] == kids[i];
      } else if i > j {
        assert cs[i] == kids[i + 1];
      }
    }
  }

  // and one child by two.
  lemma SplitKid(keys: seq<Key>, kids: seq<Tree>, i: nat, a: Tree, sep: Key, b: Tree, d: nat, h: nat, lo: Key, hi: Key)
    requires Inner(keys, kids, d, h, lo, hi) && i < |kids|
    requires Lo(keys, i, lo) < sep < Hi(keys, i, hi)
    requires WF(a, d, h, Lo(keys, i, lo), sep) && WF(b, d, h, sep, Hi(keys, i, hi))
    ensures Inner(InsertAt(keys, i, sep), kids[..i] + [a, b] + kids[i + 1..], d, h, lo, hi)
  {
    var k, cs := InsertAt(keys, i, sep), kids[..i] + [a, b] + kids[i + 1..];
    SortedInsert(keys, i, sep, lo, hi);
    forall j | 0 <= j < |cs|
      ensures WF(cs[j], d, h, Lo(k, j, lo), Hi(k, j, hi))
    {
      if j < i {
        assert cs[j] == kids[j];
      } else if j > i + 1 {
        assert cs[j] == kids[j - 1];
      }
    }
  }
}
