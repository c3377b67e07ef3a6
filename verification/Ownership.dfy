/** Trees on disk: which pages a tree owns, and when a disk still stores it. */
module Ownership {
  import opened Pages
  import opened Trees
  import opened Accounts

  lemma {:induction false} IdsWithin(kids: seq<Tree>, i: nat)
    requires i < |kids|
    ensures Ids(kids[i]) <= IdsOf(kids)
  {
    if i > 0 {
      IdsWithin(kids[1..], i - 1);
      assert kids[1..][i - 1] == kids[i];
    }
  }

  lemma {:induction false} EntriesWithin(kids: seq<Tree>, i: nat, e: Entry)
    requires i < |kids| && e in Entries(kids[i])
    ensures e in EntriesOf(kids)
  {
    if i > 0 {
      EntriesWithin(kids[1..], i - 1, e);
      assert kids[1..][i - 1] == kids[i];
    }
  }

  lemma IdsInserted(kids: seq<Tree>, i: nat, c: Tree)
    requires i <= |kids|
    ensures IdsOf(InsertAt(kids, i, c)) == IdsOf(kids) + Ids(c)
  {
    assert InsertAt(kids, i, c) == kids[..i] + [c] + kids[i..];
    IdsOfThree(kids[..i], [c], kids[i..]);
    IdsOfOne(c);
    assert kids == kids[..i] + kids[i..];
    IdsOfAppend(kids[..i], kids[i..]);
  }

  // The pages of the other children, beside those of child i.
  lemma IdsReplaced(kids: seq<Tree>, i: nat, c: Tree)
    requires i < |kids|
    ensures IdsOf(kids[i := c]) == IdsOf(RemoveAt(kids, i)) + Ids(c)
  {
    var rest := RemoveAt(kids, i);
    assert kids[i := c] == InsertAt(rest, i, c);
    IdsInserted(rest, i, c);
  }

  lemma IdsWithout(kids: seq<Tree>, i: nat)
    requires i < |kids|
    ensures IdsOf(kids) == IdsOf(RemoveAt(kids, i)) + Ids(kids[i])
  {
    IdsReplaced(kids, i, kids[i]);
    assert kids[i := kids[i]] == kids;
  }

  lemma IdsOfPair(kids: seq<Tree>, i: nat, j: nat)
    requires i < |kids| && j < |kids| && i != j
    ensures Ids(kids[i]) + Ids(kids[j]) <= IdsOf(kids)
  {
    IdsWithout(kids, i);
    var j1 := if j < i then j else j - 1;
    assert RemoveAt(kids, i)[j1] == kids[j];
    IdsWithin(RemoveAt(kids, i), j1);
  }

  // x can be owned beside the free stack: distinct allocated pages, none of them free.
  ghost predicate Apart(x: multiset<Ref>, s: Disk) {
    forall p: Ref :: HeldNode(x, s, p) <= 0
  }

  lemma ApartWithin(x: multiset<Ref>, y: multiset<Ref>, s: Disk)
    requires Apart(y, s) && x <= y
    ensures Apart(x, s)
  {
    forall p: Ref
      ensures HeldNode(x, s, p) <= 0
    {
      assert HeldNode(y, s, p) <= 0;
    }
  }

  lemma Owns(x: multiset<Ref>, s: Disk, p: Ref)
    requires Apart(x, s) && p in x
    ensures p in s.pages && p !in s.delNodes && x[p] == 1
  {
    assert HeldNode(x, s, p) <= 0;
  }

  // ----- a tree survives writes to pages it does not own -----

  ghost predicate Agree(x: multiset<Ref>, pages: map<Ref, Page>, pages1: map<Ref, Page>) {
    forall p: Ref :: p in x && p in pages ==> p in pages1 && pages1[p] == pages[p]
  }

  lemma {:induction false} StoredFrame(t: Tree, pages: map<Ref, Page>, pages1: map<Ref, Page>)
    requires Stored(t, pages) && Agree(Ids(t), pages, pages1)
    ensures Stored(t, pages1)
  {
    if t.Node? {
      forall i | 0 <= i < |t.kids|
        ensures Stored(t.kids[i], pages1)
      {
        IdsWithin(t.kids, i);
        StoredFrame(t.kids[i], pages, pages1);
      }
    }
  }

  ghost predicate AllStored(kids: seq<Tree>, pages: map<Ref, Page>) {
    forall i :: 0 <= i < |kids| ==> Stored(kids[i], pages)
  }

  lemma AllStoredFrame(kids: seq<Tree>, pages: map<Ref, Page>, pages1: map<Ref, Page>)
    requires AllStored(kids, pages) && Agree(IdsOf(kids), pages, pages1)
    ensures AllStored(kids, pages1)
  {
    forall i | 0 <= i < |kids|
      ensures Stored(kids[i], pages1)
    {
      IdsWithin(kids, i);
      StoredFrame(kids[i], pages, pages1);
    }
  }

  lemma NodeStored(id: Ref, keys: seq<Key>, kids: seq<Tree>, pages: map<Ref, Page>)
    requires AllStored(kids, pages) && id in pages && pages[id] == NodePage(keys, KidIds(kids))
    ensures Stored(Node(id, keys, kids), pages)
  {
    var t := Node(id, keys, kids);
    assert KidsStored(t, pages);
    assert PageOf(t) == NodePage(keys, KidIds(kids));
  }
}
