/** The file of a B-tree: which positions a tree owns, and that every step leaves the file
    storing the new tree and leaves all other pages alone. */
module BTreeFiles {
  import opened Pages
  import opened BTrees
  import Accounts

  ghost predicate Stored(t: Tree, pages: map<Ref, BPage>) {
    t.id in pages && pages[t.id] == PageOf(t) && AllStored(t.kids, pages)
  }

  ghost predicate AllStored(kids: seq<Tree>, pages: map<Ref, BPage>) {
    forall i :: 0 <= i < |kids| ==> Stored(kids[i], pages)
  }

  // How many owners position p has too many, if x is owned beside the freed queue.
  ghost function Held(x: multiset<Ref>, s: BFile, p: Ref): int {
    (x[p] + multiset(s.freed)[p]) as int - (if p < s.next then 1 else 0)
  }

  ghost predicate Apart(x: multiset<Ref>, s: BFile) {
    forall p: Ref :: Held(x, s, p) <= 0
  }

  // No position is gained or lost on the way from s to s1.
  ghost predicate Kept(x: multiset<Ref>, s: BFile, x1: multiset<Ref>, s1: BFile) {
    forall p: Ref :: Held(x1, s1, p) == Held(x, s, p)
  }

  // Positions allocated before and owned by someone else than x read as before.
  ghost predicate Others(x: multiset<Ref>, s: BFile, s1: BFile) {
    forall p: Ref :: p !in x && p !in s.freed && p < s.next && p in s.pages ==> p in s1.pages && s1.pages[p] == s.pages[p]
  }

  // t on file s has become t1 on file s1.
  ghost predicate Settled(t: Tree, s: BFile, t1: Tree, s1: BFile) {
    t1.id == t.id && Moved(t, s, t1, s1)
  }

  ghost predicate Moved(t: Tree, s: BFile, t1: Tree, s1: BFile) {
    Stored(t1, s1.pages) && Kept(Ids(t), s, Ids(t1), s1) && Others(Ids(t), s, s1)
  }

  lemma Owns(x: multiset<Ref>, s: BFile, p: Ref)
    requires Apart(x, s) && p in x
    ensures x[p] == 1 && p !in s.freed && p < s.next
  {
    assert Held(x, s, p) <= 0;
  }

  lemma KeptApart(x: multiset<Ref>, s: BFile, x1: multiset<Ref>, s1: BFile)
    requires Apart(x, s) && Kept(x, s, x1, s1)
    ensures Apart(x1, s1)
  {
    forall p: Ref
      ensures Held(x1, s1, p) <= 0
    {
      assert Held(x1, s1, p) == Held(x, s, p);
    }
  }

  lemma SettledThen(t: Tree, s: BFile, t1: Tree, s1: BFile, t2: Tree, s2: BFile)
    requires Settled(t, s, t1, s1) && Settled(t1, s1, t2, s2)
    ensures Settled(t, s, t2, s2)
  {
    hide Ids, Stored;
    forall p: Ref
      ensures Held(Ids(t2), s2, p) == Held(Ids(t), s, p)
      ensures p !in Ids(t) && p !in s.freed && p < s.next && p in s.pages ==> p in s2.pages && s2.pages[p] == s.pages[p]
    {
      assert Held(Ids(t1), s1, p) == Held(Ids(t), s, p);
    }
  }

  // ----- concatenation -----

  lemma {:induction false} IdsOfAppend(a: seq<Tree>, b: seq<Tree>)
    ensures IdsOf(a + b) == IdsOf(a) + IdsOf(b)
  {
    hide Ids;
    if a == [] {
      assert a + b == b;
    } else {
      IdsOfAppend(a[1..], b);
      assert (a + b)[1..] == a[1..] + b;
      SumAssoc(Ids(a[0]), IdsOf(a[1..]), IdsOf(b));
    }
  }

  lemma IdsOfOne(t: Tree)
    ensures IdsOf([t]) == Ids(t)
  {
    assert [t][1..] == [];
  }

  lemma IdsOfThree(a: seq<Tree>, b: seq<Tree>, c: seq<Tree>)
    ensures IdsOf(a + b + c) == IdsOf(a) + IdsOf(b) + IdsOf(c)
  {
    IdsOfAppend(a + b, c);
    IdsOfAppend(a, b);
  }

  // Child i, and the others.
  lemma IdsAround(kids: seq<Tree>, i: nat)
    requires i < |kids|
    ensures IdsOf(kids) == IdsOf(kids[..i]) + Ids(kids[i]) + IdsOf(kids[i + 1..])
  {
    hide Ids, IdsOf;
    assert kids == kids[..i] + [kids[i]] + kids[i + 1..];
    IdsOfThree(kids[..i], [kids[i]], kids[i + 1..]);
    IdsOfOne(kids[i]);
  }

  lemma IdsWithin(kids: seq<Tree>, i: nat)
    requires i < |kids|
    ensures Ids(kids[i]) <= IdsOf(kids)
  {
    hide Ids, IdsOf;
    IdsAround(kids, i);
  }

  lemma IdsOfPair(kids: seq<Tree>, i: nat, j: nat)
    requires i < j < |kids|
    ensures Ids(kids[i]) + Ids(kids[j]) <= IdsOf(kids)
  {
    hide Ids, IdsOf;
    IdsAround(kids, i);
    assert kids[i + 1..][j - i - 1] == kids[j];
    IdsWithin(kids[i + 1..], j - i - 1);
  }

  // ----- a tree survives writes to other pages -----

  ghost predicate Agree(x: multiset<Ref>, pages: map<Ref, BPage>, pages1: map<Ref, BPage>) {
    forall p: Ref :: p in x && p in pages ==> p in pages1 && pages1[p] == pages[p]
  }

  lemma {:induction false} StoredFrame(t: Tree, pages: map<Ref, BPage>, pages1: map<Ref, BPage>)
    requires Stored(t, pages) && Agree(Ids(t), pages, pages1)
    ensures Stored(t, pages1)
  {
    forall i | 0 <= i < |t.kids|
      ensures Stored(t.kids[i], pages1)
    {
      IdsWithin(t.kids, i);
      StoredFrame(t.kids[i], pages, pages1);
    }
  }

  lemma AllStoredFrame(kids: seq<Tree>, pages: map<Ref, BPage>, pages1: map<Ref, BPage>)
    requires AllStored(kids, pages) && Agree(IdsOf(kids), pages, pages1)
    ensures AllStored(kids, pages1)
  {
    forall i | 0 <= i < |kids|
      ensures Stored(kids[i], pages1)
    {
      IdsWithin(kids, i);
      StoredFrame(kids[i], pages, pages1);
    }
  }

  lemma KidApart(f: Tree, j: nat, s: BFile)
    requires j < |f.kids| && Apart(Ids(f), s)
    ensures Apart(Ids(f.kids[j]), s)
  {
    hide IdsOf;
    IdsWithin(f.kids, j);
    forall p: Ref
      ensures Held(Ids(f.kids[j]), s, p) <= 0
    {
      assert Held(Ids(f), s, p) <= 0;
    }
  }

  // What a step does below child j it does below f.
  lemma SettledBelow(f: Tree, j: nat, s: BFile, c: Tree, s1: BFile)
    requires j < |f.kids| && Apart(Ids(f), s) && Stored(f, s.pages) && Settled(f.kids[j], s, c, s1)
    ensures Settled(f, s, WithKid(f, j, c), s1)
  {
    hide Stored, Ids, IdsOf;
    var g := WithKid(f, j, c);
    IdsAround(f.kids, j);
    IdsAround(g.kids, j);
    assert g.kids[..j] == f.kids[..j] && g.kids[j + 1..] == f.kids[j + 1..];
    IdsOfNode(f);
    IdsOfNode(g);
    forall p: Ref
      ensures Held(Ids(g), s1, p) == Held(Ids(f), s, p)
    {
      assert Held(Ids(c), s1, p) == Held(Ids(f.kids[j]), s, p);
    }
    BesideStored(f, j, s, c, s1);
    assert KidIds(g.kids) == KidIds(f.kids);
    StoredNode(g, s1.pages);
    StoredNode(f, s.pages);
    assert Stored(g, s1.pages);
    assert Others(Ids(f), s, s1);
    assert Kept(Ids(f), s, Ids(g), s1);
  }

  lemma IdsOfNode(t: Tree)
    ensures Ids(t) == multiset{t.id} + IdsOf(t.kids)
  {
  }

  lemma StoredNode(t: Tree, pages: map<Ref, BPage>)
    ensures Stored(t, pages) <==> t.id in pages && pages[t.id] == PageOf(t) && AllStored(t.kids, pages)
  {
  }

  lemma BesideStored(f: Tree, j: nat, s: BFile, c: Tree, s1: BFile)
    requires j < |f.kids| && Apart(Ids(f), s) && Stored(f, s.pages) && Settled(f.kids[j], s, c, s1)
    ensures AllStored(WithKid(f, j, c).kids, s1.pages) && f.id in s1.pages && s1.pages[f.id] == s.pages[f.id]
  {
    hide Stored, Ids, IdsOf;
    StoredNode(f, s.pages);
    IdsOfNode(f);
    Owns(Ids(f), s, f.id);
    IdsWithin(f.kids, j);
    var g := WithKid(f, j, c);
    forall x | 0 <= x < |g.kids|
      ensures Stored(g.kids[x], s1.pages)
    {
      if x != j {
        IdsOfPair(f.kids, if x < j then x else j, if x < j then j else x);
        forall p | p in Ids(f.kids[x]) && p in s.pages
          ensures p in s1.pages && s1.pages[p] == s.pages[p]
        {
          Owns(Ids(f), s, p);
        }
        StoredFrame(f.kids[x], s.pages, s1.pages);
      }
    }
  }

  // ----- rearranging the children of one node -----

  // Everything below f but child i itself, and but children i and i+1.
  ghost function RestOne(f: Tree, i: nat): seq<Tree> requires i < |f.kids| {
    f.kids[..i] + f.kids[i].kids + f.kids[i + 1..]
  }

  ghost function RestTwo(f: Tree, i: nat): seq<Tree> requires i + 1 < |f.kids| {
    f.kids[..i] + (f.kids[i].kids + f.kids[i + 1].kids) + f.kids[i + 2..]
  }

  lemma IdsRestOne(f: Tree, i: nat)
    requires i < |f.kids|
    ensures Ids(f) == multiset{f.id, f.kids[i].id} + IdsOf(RestOne(f, i))
  {
    hide IdsOf;
    IdsAround(f.kids, i);
    IdsOfThree(f.kids[..i], f.kids[i].kids, f.kids[i + 1..]);
    IdsOfNode(f);
    IdsOfNode(f.kids[i]);
  }

  lemma IdsRestTwo(f: Tree, i: nat)
    requires i + 1 < |f.kids|
    ensures Ids(f) == multiset{f.id, f.kids[i].id, f.kids[i + 1].id} + IdsOf(RestTwo(f, i))
  {
    hide IdsOf;
    IdsAround(f.kids, i);
    var r := f.kids[i + 1..];
    IdsAround(r, 0);
    assert r[..0] == [] && r[0] == f.kids[i + 1] && r[1..] == f.kids[i + 2..];
    IdsOfThree(f.kids[..i], f.kids[i].kids + f.kids[i + 1].kids, f.kids[i + 2..]);
    IdsOfAppend(f.kids[i].kids, f.kids[i + 1].kids);
    IdsOfNode(f);
    IdsOfNode(f.kids[i]);
    IdsOfNode(f.kids[i + 1]);
    NoIds();
  }

  lemma NoIds()
    ensures IdsOf([]) == multiset{}
  {
  }

  lemma JoinRest(f: Tree, i: nat)
    requires i < |f.keys| && |f.kids| == |f.keys| + 1
    ensures RestOne(Join(f, i), i) == RestTwo(f, i)
  {
    var g := Join(f, i);
    assert g.kids[..i] == f.kids[..i] && g.kids[i + 1..] == f.kids[i + 2..];
  }

  lemma PartRest(f: Tree, i: nat, m: nat, id: Ref)
    requires |f.kids| == |f.keys| + 1 && i < |f.kids| && m < |f.kids[i].keys|
    ensures RestTwo(Part(f, i, m, id), i) == RestOne(f, i)
  {
    var g, c := Part(f, i, m, id), f.kids[i];
    assert g.kids[..i] == f.kids[..i] && g.kids[i + 2..] == f.kids[i + 1..];
    assert LeftOf(c.kids, m) + RightOf(c.kids, m) == c.kids;
  }

  lemma RestStored(f: Tree, i: nat, pages: map<Ref, BPage>)
    requires i < |f.kids| && AllStored(f.kids, pages)
    ensures AllStored(RestOne(f, i), pages)
    ensures i + 1 < |f.kids| ==> AllStored(RestTwo(f, i), pages)
  {
    hide Stored;
    StoredNode(f.kids[i], pages);
    if i + 1 < |f.kids| {
      StoredNode(f.kids[i + 1], pages);
    }
  }

  // Every page of f but those at w is in the rest; if nothing else was written, f1 is stored.
  lemma OneStored(f: Tree, i: nat, pages: map<Ref, BPage>)
    requires i < |f.kids| && AllStored(RestOne(f, i), pages)
    requires f.id in pages && pages[f.id] == PageOf(f) && f.kids[i].id in pages && pages[f.kids[i].id] == PageOf(f.kids[i])
    ensures Stored(f, pages)
  {
    var r := RestOne(f, i);
    var n := |f.kids[i].kids|;
    forall x | 0 <= x < |f.kids|
      ensures Stored(f.kids[x], pages)
    {
      if x < i {
        assert r[x] == f.kids[x];
      } else if x > i {
        assert r[x - 1 + n] == f.kids[x];
      } else {
        forall y | 0 <= y < n
          ensures Stored(f.kids[i].kids[y], pages)
        {
          assert r[i + y] == f.kids[i].kids[y];
        }
      }
    }
  }

  lemma TwoStored(f: Tree, i: nat, pages: map<Ref, BPage>)
    requires i + 1 < |f.kids| && AllStored(RestTwo(f, i), pages)
    requires f.id in pages && pages[f.id] == PageOf(f)
    requires forall x :: i <= x <= i + 1 ==> f.kids[x].id in pages && pages[f.kids[x].id] == PageOf(f.kids[x])
    ensures Stored(f, pages)
  {
    var r := RestTwo(f, i);
    var n, m := |f.kids[i].kids|, |f.kids[i + 1].kids|;
    forall x | 0 <= x < |f.kids|
      ensures Stored(f.kids[x], pages)
    {
      if x < i {
        assert r[x] == f.kids[x];
      } else if x > i + 1 {
        assert r[x - 2 + n + m] == f.kids[x];
      } else {
        forall y | 0 <= y < |f.kids[x].kids|
          ensures Stored(f.kids[x].kids[y], pages)
        {
          assert r[if x == i then i + y else i + n + y] == f.kids[x].kids[y];
        }
      }
    }
  }

  // The pages in w are written or freed, and those in rest survive.
  lemma RestKept(x: multiset<Ref>, w: multiset<Ref>, rest: seq<Tree>, s: BFile, pages1: map<Ref, BPage>)
    requires Apart(x, s) && w + IdsOf(rest) == x && AllStored(rest, s.pages)
    requires forall p: Ref :: p !in w && p !in s.freed && p < s.next && p in s.pages ==> p in pages1 && pages1[p] == s.pages[p]
    ensures AllStored(rest, pages1)
  {
    hide IdsOf;
    forall p | p in IdsOf(rest) && p in s.pages
      ensures p in pages1 && pages1[p] == s.pages[p]
    {
      Owns(x, s, p);
      assert x[p] == w[p] + IdsOf(rest)[p];
    }
    AllStoredFrame(rest, s.pages, pages1);
  }

  lemma TakeKept(x: multiset<Ref>, s: BFile)
    requires Apart(x, s)
    ensures var (s1, id) := Take(s);
            && Kept(x, s, x + multiset{id}, s1) && s1.pages == s.pages && id !in x
            && (id in s.freed || id == s.next)
  {
    var (s1, id) := Take(s);
    assert Held(x, s, id) <= 0;
    if s.freed != [] {
      assert s.freed == [id] + s1.freed;
    }
  }

  lemma SplitSettled(f: Tree, i: nat, T: nat, s: BFile)
    requires T >= 2 && |f.kids| == |f.keys| + 1 && i < |f.kids| && |f.kids[i].keys| == 2 * T - 1
    requires Apart(Ids(f), s) && AllStored(f.kids, s.pages)
    ensures var (f1, s1) := SplitChild(f, i, T, s); Settled(f, s, f1, s1)
  {
    hide Stored, Ids, IdsOf, PageOf, Part, RestOne, RestTwo, SplitChild;
    var (s0, id) := Take(s);
    var (f1, s1) := SplitChild(f, i, T, s);
    var rest := RestOne(f, i);
    SplitPages(f, i, T, s);
    PartRest(f, i, T - 1, id);
    IdsRestOne(f, i);
    IdsRestTwo(f1, i);
    TakeKept(Ids(f), s);
    assert Ids(f1) == Ids(f) + multiset{id};
    RestStored(f, i, s.pages);
    RestKept(Ids(f), multiset{f.id, f.kids[i].id}, rest, s, s1.pages);
    ThreeApart(Ids(f1), s0, f1.id, f1.kids[i].id, id, IdsOf(rest));
    TwoStored(f1, i, s1.pages);
  }

  // The three pages that a split writes.
  lemma SplitPages(f: Tree, i: nat, T: nat, s: BFile)
    requires T >= 2 && |f.kids| == |f.keys| + 1 && i < |f.kids| && |f.kids[i].keys| == 2 * T - 1
    ensures var (s0, id) := Take(s); var (f1, s1) := SplitChild(f, i, T, s);
            && f1 == Part(f, i, T - 1, id) && f1.id == f.id && f1.kids[i].id == f.kids[i].id && f1.kids[i + 1].id == id
            && s1.freed == s0.freed && s1.next == s0.next
            && s1.pages == s0.pages[f1.kids[i].id := PageOf(f1.kids[i])][f1.id := PageOf(f1)][id := PageOf(f1.kids[i + 1])]
  {
    hide PageOf, Take;
  }

  lemma ThreeApart(x: multiset<Ref>, s: BFile, a: Ref, b: Ref, c: Ref, y: multiset<Ref>)
    requires (forall p: Ref :: x[p] <= 1) || Apart(x, s)
    requires x == multiset{a, b, c} + y
    ensures a != b && b != c && a != c
  {
    assert Held(x, s, a) <= 0 || x[a] <= 1;
    assert Held(x, s, b) <= 0 || x[b] <= 1;
  }

  ghost predicate Shifted(pages: map<Ref, BPage>, f: Tree, i: nat, pages1: map<Ref, BPage>) requires i + 1 < |f.kids| {
    var a, b := f.kids[i], f.kids[i + 1];
    var top: map<Ref, BPage> := pages[f.id := PageOf(f)];
    pages1 == top[a.id := PageOf(a)][b.id := PageOf(b)] || pages1 == top[b.id := PageOf(b)][a.id := PageOf(a)]
  }

  lemma ShiftIds(f: Tree, i: nat, m: nat, id: Ref)
    requires |f.kids| == |f.keys| + 1 && i < |f.keys| && m < |f.kids[i].keys| + 1 + |f.kids[i + 1].keys|
    ensures |Join(f, i).kids[i].keys| == |f.kids[i].keys| + 1 + |f.kids[i + 1].keys|
    ensures var f1 := Part(Join(f, i), i, m, id); f1.id == f.id && f1.kids[i].id == f.kids[i].id && f1.kids[i + 1].id == id
  {
  }

  // Both borrows: a join and a cut elsewhere, the three pages written in some order.
  lemma ShiftSettled(f: Tree, i: nat, m: nat, s: BFile, s1: BFile)
    requires |f.kids| == |f.keys| + 1 && i < |f.keys| && m < |f.kids[i].keys| + 1 + |f.kids[i + 1].keys|
    requires Apart(Ids(f), s) && Stored(f, s.pages) && s1.freed == s.freed && s1.next == s.next
    requires Shifted(s.pages, Part(Join(f, i), i, m, f.kids[i + 1].id), i, s1.pages)
    ensures Settled(f, s, Part(Join(f, i), i, m, f.kids[i + 1].id), s1)
  {
    hide Stored, Ids, IdsOf, PageOf, Join, Part, RestOne, RestTwo;
    var id := f.kids[i + 1].id;
    ShiftIds(f, i, m, id);
    var f1 := Part(Join(f, i), i, m, id);
    JoinRest(f, i);
    PartRest(Join(f, i), i, m, id);
    IdsRestTwo(f, i);
    IdsRestTwo(f1, i);
    assert Ids(f1) == Ids(f);
    StoredNode(f, s.pages);
    RestStored(f, i, s.pages);
    RestKept(Ids(f), multiset{f.id, f.kids[i].id, id}, RestTwo(f, i), s, s1.pages);
    ThreeApart(Ids(f), s, f.id, f.kids[i].id, id, IdsOf(RestTwo(f, i)));
    TwoStored(f1, i, s1.pages);
  }

  lemma MergeSettled(f: Tree, i: nat, s: BFile)
    requires |f.kids| == |f.keys| + 1 && i < |f.keys|
    requires Apart(Ids(f), s) && Stored(f, s.pages)
    ensures var (f1, s1) := MergeNodes(f, i, s); Settled(f, s, f1, s1)
  {
    hide Stored, Ids, IdsOf, PageOf;
    var id := f.kids[i + 1].id;
    var (f1, s1) := MergeNodes(f, i, s);
    JoinRest(f, i);
    IdsRestTwo(f, i);
    IdsRestOne(f1, i);
    assert Ids(f) == Ids(f1) + multiset{id};
    forall p: Ref
      ensures Held(Ids(f1), s1, p) == Held(Ids(f), s, p)
    {
    }
    StoredNode(f, s.pages);
    RestStored(f, i, s.pages);
    RestKept(Ids(f), multiset{f.id, f.kids[i].id, id}, RestTwo(f, i), s, s1.pages);
    ThreeApart(Ids(f), s, f.id, f.kids[i].id, id, IdsOf(RestTwo(f, i)));
    OneStored(f1, i, s1.pages);
  }

  lemma PrevSettled(f: Tree, i: nat, s: BFile)
    requires |f.kids| == |f.keys| + 1 && 0 < i <= |f.keys| && |f.kids[i - 1].keys| >= 1
    requires Apart(Ids(f), s) && Stored(f, s.pages)
    ensures var (f1, s1) := BorrowFromPrev(f, i, s); Settled(f, s, f1, s1)
  {
    hide Stored, Ids, IdsOf, PageOf, Settled, Apart, Join, Part;
    ShiftSettled(f, i - 1, |f.kids[i - 1].keys| - 1, s, BorrowFromPrev(f, i, s).1);
  }

  lemma NextSettled(f: Tree, i: nat, s: BFile)
    requires |f.kids| == |f.keys| + 1 && i < |f.keys| && |f.kids[i + 1].keys| >= 1
    requires Apart(Ids(f), s) && Stored(f, s.pages)
    ensures var (f1, s1) := BorrowFromNext(f, i, s); Settled(f, s, f1, s1)
  {
    hide Stored, Ids, IdsOf, PageOf, Settled, Apart, Join, Part;
    ShiftSettled(f, i, |f.kids[i].keys| + 1, s, BorrowFromNext(f, i, s).1);
  }

  lemma FillSettled(f: Tree, i: nat, T: nat, s: BFile)
    requires T >= 2 && |f.kids| == |f.keys| + 1 && |f.keys| >= 1 && i < |f.kids|
    requires Apart(Ids(f), s) && Stored(f, s.pages)
    ensures var (f1, s1) := FillNode(f, i, T, s); Settled(f, s, f1, s1)
  {
    hide Stored, Ids, IdsOf, PageOf, Settled, Apart, MergeNodes, BorrowFromPrev, BorrowFromNext;
    if i != 0 && |f.kids[i - 1].keys| >= T {
      PrevSettled(f, i, s);
    } else if i != |f.keys| && |f.kids[i + 1].keys| >= T {
      NextSettled(f, i, s);
    } else {
      MergeSettled(f, if i != |f.keys| then i else i - 1, s);
    }
  }

  // ----- the end of the file -----

  // A node is written in whole chunks of 512 bytes.
  const CHUNK: nat := 512

  function ChunkBytes(nodeBytes: nat): nat {
    (nodeBytes + CHUNK - 1) / CHUNK * CHUNK
  }

  // The fewest whole chunks that hold the node.
  lemma ChunksHold(nodeBytes: nat)
    ensures var c := ChunkBytes(nodeBytes); c % 512 == 0 && nodeBytes <= c < nodeBytes + 512
  {
  }

  // The position computed from the length of the file after its header.
  function NextPosition(end: nat, pageSize: nat): nat
    requires pageSize > 0
  {
    end / pageSize
  }

  // Before a split computes it, the page of the father f is written in full.
  function FatherFilled(end: nat, f: Ref, pageSize: nat): nat {
    if end < (f + 1) * pageSize then (f + 1) * pageSize else end
  }

  // For a file that ends with the node at p: for a new root the position computed is the next one,
  // as Take has it, exactly if the node's chunks fill its page, and do not reach over two; in a
  // split also if that node is the father. Otherwise, with fewer chunks, it is the node's own.
  lemma NextIffFilled(p: Ref, f: Ref, nodeBytes: nat, pageSize: nat)
    requires pageSize > 0 && f <= p
    ensures var c := ChunkBytes(nodeBytes); var end := p * pageSize + c;
            && c % 512 == 0 && nodeBytes <= c < nodeBytes + 512
            && (NextPosition(end, pageSize) == p + 1 <==> pageSize <= c < 2 * pageSize)
            && (NextPosition(end, pageSize) == p <==> c < pageSize)
            && (NextPosition(FatherFilled(end, f, pageSize), pageSize) == p + 1 <==> (f == p || pageSize <= c) && c < 2 * pageSize)
            && (NextPosition(FatherFilled(end, f, pageSize), pageSize) == p <==> f < p && c < pageSize)
  {
    hide ChunkBytes;
    var c := ChunkBytes(nodeBytes);
    ChunksHold(nodeBytes);
    Quotient(p, c, pageSize);
    Accounts.MulMono(f + 1, p, pageSize);
    if f == p {
      Accounts.ModUnique((p + 1) * pageSize, p + 1, 0, pageSize);
    }
  }

  lemma Quotient(p: nat, c: nat, d: nat)
    requires d > 0
    ensures (p * d + c) / d == p <==> c < d
    ensures (p * d + c) / d == p + 1 <==> d <= c < 2 * d
  {
    var q, r := c / d, c % d;
    Accounts.ModUnique(p * d + c, p + q, r, d);
    assert c == q * d + r;
    Accounts.MulMono(1, q, d);
    Accounts.MulMono(2, q, d);
  }
}
