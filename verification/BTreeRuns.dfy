/** Whole runs of a B-tree store: it behaves as a set of keys, no position is lost or shared,
    and the file is never longer than the fullest moment since the store was last empty needed. */
module BTreeRuns {
  import opened Pages
  import opened BTrees
  import opened BTreeOrder
  import opened BTreeInsertion
  import opened BTreeRemoval
  import opened BTreeFiles
  import opened BTreeStored

  // since is the next position at the time when the store got its first key.
  datatype BStore =
    | Empty(file: BFile)
    | Full(tree: Tree, height: nat, since: Ref, file: BFile)

  datatype Op = Insert(key: Key) | Search(key: Key) | Remove(key: Key)

  // The keys of the store, in order.
  function Keys(st: BStore): seq<Key> {
    if st.Empty? then [] else Content(st.tree)
  }

  function New(): BStore {
    Empty(BFile(map[], [], 0))
  }

  function Step(st: BStore, op: Op, T: nat): (BStore, bool)
    requires T >= 2
  {
    match op
    case Insert(k) => (Inserted(st, k, T), true)
    case Search(k) => (st, st.Full? && BTrees.Search(st.tree, k, st.height))
    case Remove(k) => if st.Empty? then (st, false) else Removed(st, k, T)
  }

  function Inserted(st: BStore, k: Key, T: nat): BStore
    requires T >= 2
  {
    match st
    case Empty(s) =>
      var (s1, pos) := Take(s);
      var t := Node(pos, [k], []);
      Full(t, 0, s.next, Write(s1, t))
    case Full(t, h, since, s) =>
      var (t1, s1) := InsertRoot(t, k, T, h, s);
      Full(t1, if |t.keys| == 2 * T - 1 then h + 1 else h, since, s1)
  }

  // Without its last key the store starts over on an empty file, to which the root is still written.
  function Removed(st: BStore, k: Key, T: nat): (BStore, bool)
    requires T >= 2 && st.Full?
  {
    var (t, h, s) := (st.tree, st.height, st.file);
    var r, r0 := RemoveRoot(t, k, T, h, s), BTrees.Remove(t, k, T, h, s);
    if |r.t.keys| == 0 then (Empty(BFile(map[r.t.id := PageOf(r.t)], [], r.file.next)), r.ok)
    else (Full(r.t, if h > 0 && |r0.t.keys| == 0 then h - 1 else h, st.since, r.file), r.ok)
  }

  // The same operation on a set.
  function SetStep(m: set<Key>, op: Op): (set<Key>, bool) {
    match op
    case Insert(k) => (m + {k}, true)
    case Search(k) => (m, k in m)
    case Remove(k) => (m - {k}, k in m)
  }

  function SetRun(m: set<Key>, ops: seq<Op>): (set<Key>, seq<bool>) {
    if ops == [] then (m, [])
    else
      var (m1, rs) := SetRun(m, ops[..|ops| - 1]);
      var (m2, r) := SetStep(m1, ops[|ops| - 1]);
      (m2, rs + [r])
  }

  // ----- the invariant -----

  // Every position handed out since then is a node of the tree or freed, and just once.
  ghost predicate Exact(x: multiset<Ref>, s: BFile, since: Ref) {
    forall p: Ref :: Held(x, s, p) == if p < since then -1 else 0
  }

  ghost predicate Inv(st: BStore, T: nat, limit: Key) {
    match st
    case Empty(s) => s.freed == []
    case Full(t, h, since, s) =>
      Good(t, T, h, -1, limit) && |t.keys| >= 1 && OnFile(t, s) && Exact(Ids(t), s, since)
  }

  // The insertion takes the key out of its node.
  predicate Doubles(st: BStore, op: Op, T: nat) {
    op.Insert? && st.Full? && RootSplitOut(st.tree, op.key, T, st.height)
  }

  // The store has the keys of m, each once.
  ghost predicate Means(st: BStore, m: set<Key>) {
    Sorted(Keys(st)) && forall k :: k in Keys(st) <==> k in m
  }

  lemma MovedExact(t: Tree, s: BFile, t1: Tree, s1: BFile, since: Ref)
    requires Moved(t, s, t1, s1) && Exact(Ids(t), s, since)
    ensures Exact(Ids(t1), s1, since)
  {
    hide Ids, Stored;
    forall p: Ref
      ensures Held(Ids(t1), s1, p) == if p < since then -1 else 0
    {
      assert Held(Ids(t1), s1, p) == Held(Ids(t), s, p);
    }
  }

  lemma FirstInv(s: BFile, k: Key, T: nat, limit: Key)
    requires T >= 2 && s.freed == [] && 0 <= k < limit
    ensures var st1 := Inserted(Empty(s), k, T); Inv(st1, T, limit) && Keys(st1) == [k]
  {
    var st1 := Inserted(Empty(s), k, T);
    var t := st1.tree;
    assert Content(t) == [k];
    assert t.kids == [] && Ids(t) == multiset{s.next};
    assert Body(t.keys, t.kids, 0, -1, limit);
    assert AllStored(t.kids, st1.file.pages);
  }

  lemma MembersGain(a: seq<Key>, b: seq<Key>, k: Key)
    requires Gains(a, b, k)
    ensures forall x :: x in b <==> x in a || x == k
  {
    var p: nat :| p <= |a| && b == InsertAt(a, p, k);
    assert b == a[..p] + [k] + a[p..] && a == a[..p] + a[p..];
  }

  // An insertion adds an absent key and keeps a present one, or doubles it.
  lemma InsertKeeps(st: BStore, k: Key, T: nat, limit: Key)
    requires T >= 2 && Inv(st, T, limit) && 0 <= k < limit
    ensures var st1 := Inserted(st, k, T);
            if Doubles(st, Insert(k), T) then k in Keys(st) && Gains(Keys(st), Keys(st1), k) && !Sorted(Keys(st1))
            else Inv(st1, T, limit) && (if k in Keys(st) then Keys(st1) == Keys(st) else Gains(Keys(st), Keys(st1), k))
  {
    hide Good, OnFile, Moved, Exact, Content, InsertRoot, Gains, RootSplitOut, Sorted;
    if st.Empty? {
      FirstInv(st.file, k, T, limit);
      FirstGains(k);
    } else {
      var (t, h, s) := (st.tree, st.height, st.file);
      InsertRootOutcome(t, k, T, h, -1, limit, s);
      InsertRootMoved(t, k, T, h, -1, limit, s);
      var (t1, s1) := InsertRoot(t, k, T, h, s);
      MovedOnFile(t, s, t1, s1);
      MovedExact(t, s, t1, s1, st.since);
    }
  }

  lemma FirstGains(k: Key)
    ensures Gains([], [k], k)
  {
    assert [k] == InsertAt([], 0, k);
  }

  // A removal takes out that key alone.
  lemma RemoveKeeps(st: BStore, k: Key, T: nat, limit: Key)
    requires T >= 2 && Inv(st, T, limit) && 0 <= k < limit && st.Full?
    ensures var (st1, ok) := Removed(st, k, T);
            && Inv(st1, T, limit) && ok == (k in Keys(st))
            && (if ok then Gains(Keys(st1), Keys(st), k) else Keys(st1) == Keys(st))
  {
    hide OnFile, Moved, Exact, Content, RemoveRoot, BTrees.Remove, Gains, Ordered, Occupied;
    var (t, h, s) := (st.tree, st.height, st.file);
    var r := RemoveRoot(t, k, T, h, s);
    RemoveRootGood(t, k, T, h, -1, limit, s);
    RemoveRootMoved(t, k, T, h, -1, limit, s);
    MovedOnFile(t, s, r.t, r.file);
    MovedExact(t, s, r.t, r.file, st.since);
    if |r.t.keys| == 0 {
      EmptyLeaf(r.t, T, -1, limit);
    }
  }

  lemma InvIncreasing(st: BStore, T: nat, limit: Key)
    requires Inv(st, T, limit)
    ensures Increasing(Keys(st), -1, limit)
  {
    hide OnFile, Exact, Content;
    if st.Full? {
      GoodIncreasing(st.tree, T, st.height, -1, limit);
    }
  }

  lemma EmptyLeaf(t: Tree, T: nat, lo: Key, hi: Key)
    requires Good(t, T, 0, lo, hi) && t.keys == []
    ensures Content(t) == []
  {
    assert Body(t.keys, t.kids, 0, lo, hi);
  }

  // A step keeps the invariant and does and answers what the set does, unless it doubles a key;
  lemma StepInv(st: BStore, op: Op, T: nat, m: set<Key>, limit: Key)
    requires T >= 2 && Inv(st, T, limit) && Means(st, m) && 0 <= op.key < limit && !Doubles(st, op, T)
    ensures var (st1, r) := Step(st, op, T); var (m1, r1) := SetStep(m, op);
            Inv(st1, T, limit) && Means(st1, m1) && r == r1
  {
    hide Inserted, Removed, Content, Sorted, Ordered, Occupied, OnFile, Exact, Gains;
    var st1 := Step(st, op, T).0;
    match op
    case Insert(k) =>
      InsertKeeps(st, k, T, limit);
      InvIncreasing(st1, T, limit);
      if k !in m {
        MembersGain(Keys(st), Keys(st1), k);
      }
    case Search(k) =>
      if st.Full? {
        SearchFinds(st.tree, k, st.height, -1, limit);
      }
    case Remove(k) =>
      if st.Full? {
        RemoveKeeps(st, k, T, limit);
        InvIncreasing(st1, T, limit);
        if k in m {
          var i :| 0 <= i < |Keys(st)| && Keys(st)[i] == k;
          GainsAt(Keys(st1), Keys(st), k, i);
        }
      }
  }

  // then the keys are not distinct any more.
  lemma StepDoubles(st: BStore, op: Op, T: nat, limit: Key)
    requires T >= 2 && Inv(st, T, limit) && 0 <= op.key < limit && Doubles(st, op, T)
    ensures op.key in Keys(st) && !Sorted(Keys(Step(st, op, T).0))
  {
    hide Inv, Content, Inserted, RootSplitOut, Sorted;
    InsertKeeps(st, op.key, T, limit);
  }

  // ----- runs -----

  predicate Allowed(ops: seq<Op>, limit: Key) {
    forall i :: 0 <= i < |ops| ==> 0 <= ops[i].key < limit
  }

  predicate IsRun(T: nat, ops: seq<Op>, sts: seq<BStore>, rs: seq<bool>)
    requires T >= 2
  {
    && |sts| == |ops| + 1 && |rs| == |ops| && sts[0] == New()
    && forall i :: 0 <= i < |ops| ==> Step(sts[i], ops[i], T) == (sts[i + 1], rs[i])
  }

  // No insertion of the first n operations takes a key out of its node.
  predicate Smooth(T: nat, ops: seq<Op>, sts: seq<BStore>, n: nat)
    requires n <= |ops| && |sts| == |ops| + 1
  {
    forall i :: 0 <= i < n ==> !Doubles(sts[i], ops[i], T)
  }

  lemma DropLast(T: nat, ops: seq<Op>, sts: seq<BStore>, rs: seq<bool>)
    requires T >= 2 && ops != [] && IsRun(T, ops, sts, rs)
    ensures IsRun(T, ops[..|ops| - 1], sts[..|ops|], rs[..|ops| - 1])
  {
    hide Step;
    var n := |ops| - 1;
    forall i | 0 <= i < n
      ensures Step(sts[..|ops|][i], ops[..n][i], T) == (sts[..|ops|][i + 1], rs[..n][i])
    {
      assert Step(sts[i], ops[i], T) == (sts[i + 1], rs[i]);
    }
  }

  // A run answers and holds what a set of keys would, and every position handed out since the
  // store was last empty has one owner.
  lemma {:induction false} RunRefinesSet(T: nat, ops: seq<Op>, sts: seq<BStore>, rs: seq<bool>, limit: Key)
    requires T >= 2 && Allowed(ops, limit) && IsRun(T, ops, sts, rs) && Smooth(T, ops, sts, |ops|)
    ensures Inv(sts[|ops|], T, limit) && Means(sts[|ops|], SetRun({}, ops).0) && rs == SetRun({}, ops).1
    decreases |ops|
  {
    hide Inv, Step, Means, Doubles;
    if ops == [] {
      NewInv(T, limit);
    } else {
      var n := |ops| - 1;
      DropLast(T, ops, sts, rs);
      RunRefinesSet(T, ops[..n], sts[..n + 1], rs[..n], limit);
      assert sts[..n + 1][n] == sts[n];
      StepInv(sts[n], ops[n], T, SetRun({}, ops[..n]).0, limit);
      assert rs == rs[..n] + [rs[n]];
    }
  }

  lemma NewInv(T: nat, limit: Key)
    ensures Inv(New(), T, limit) && Means(New(), {})
  {
  }

  lemma Prefix(T: nat, ops: seq<Op>, sts: seq<BStore>, rs: seq<bool>, n: nat)
    requires T >= 2 && IsRun(T, ops, sts, rs) && n <= |ops|
    ensures IsRun(T, ops[..n], sts[..n + 1], rs[..n])
    ensures Smooth(T, ops, sts, n) ==> Smooth(T, ops[..n], sts[..n + 1], n)
  {
    hide Step, Doubles;
    forall i | 0 <= i < n
      ensures Step(sts[..n + 1][i], ops[..n][i], T) == (sts[..n + 1][i + 1], rs[..n][i])
    {
      assert Step(sts[i], ops[i], T) == (sts[i + 1], rs[i]);
    }
  }

  // What holds after the first n operations of a run.
  lemma RunUpTo(T: nat, ops: seq<Op>, sts: seq<BStore>, rs: seq<bool>, limit: Key, n: nat)
    requires T >= 2 && Allowed(ops, limit) && IsRun(T, ops, sts, rs) && n <= |ops| && Smooth(T, ops, sts, n)
    ensures Inv(sts[n], T, limit) && Means(sts[n], SetRun({}, ops[..n]).0)
  {
    hide Inv, Step, Means, Doubles, SetRun;
    Prefix(T, ops, sts, rs, n);
    RunRefinesSet(T, ops[..n], sts[..n + 1], rs[..n], limit);
  }

  // The keys stay distinct throughout a run exactly if no insertion takes a key out of its node.
  lemma DistinctIffSmooth(T: nat, ops: seq<Op>, sts: seq<BStore>, rs: seq<bool>, limit: Key)
    requires T >= 2 && Allowed(ops, limit) && IsRun(T, ops, sts, rs)
    ensures Smooth(T, ops, sts, |ops|) <==> forall i :: 0 <= i <= |ops| ==> Sorted(Keys(sts[i]))
  {
    hide Inv, Step, Doubles, SetRun, Keys, Sorted;
    if Smooth(T, ops, sts, |ops|) {
      forall i | 0 <= i <= |ops|
        ensures Sorted(Keys(sts[i]))
      {
        RunUpTo(T, ops, sts, rs, limit, i);
      }
    } else {
      var i := FirstDoubling(T, ops, sts);
      RunUpTo(T, ops, sts, rs, limit, i);
      assert Step(sts[i], ops[i], T) == (sts[i + 1], rs[i]);
      StepDoubles(sts[i], ops[i], T, limit);
      assert !Sorted(Keys(sts[i + 1]));
    }
  }

  lemma FirstDoubling(T: nat, ops: seq<Op>, sts: seq<BStore>) returns (i: nat)
    requires |sts| == |ops| + 1 && !Smooth(T, ops, sts, |ops|)
    ensures i < |ops| && Smooth(T, ops, sts, i) && Doubles(sts[i], ops[i], T)
  {
    i := 0;
    while !Doubles(sts[i], ops[i], T)
      invariant i < |ops| && Smooth(T, ops, sts, i) && !Smooth(T, ops, sts, |ops|)
      decreases |ops| - i
    {
      i := i + 1;
    }
  }

  // The smallest such run, with nodes of degree 2.
  lemma TwiceRun() returns (sts: seq<BStore>, rs: seq<bool>)
    ensures var ops := [Insert(1), Insert(2), Insert(3), Insert(2)];
            IsRun(2, ops, sts, rs) && Doubles(sts[3], ops[3], 2) && Keys(sts[4]) == [1, 2, 2, 3]
  {
    hide PutPage, Content, InsertRoot;
    var st1 := Inserted(New(), 1, 2);
    var st2 := Inserted(st1, 2, 2);
    LastInLeaf(st1, 1, 2);
    assert st2.tree == Node(0, [1, 2], []);
    var st3 := Inserted(st2, 3, 2);
    LastInLeaf(st2, 2, 3);
    assert st3.tree == Node(0, [1, 2, 3], []);
    var st4 := Inserted(st3, 2, 2);
    SetTwice(st3.file);
    sts, rs := [New(), st1, st2, st3, st4], [true, true, true, true];
  }

  lemma LastInLeaf(st: BStore, n: nat, k: Key)
    requires st.Full? && st.tree.kids == [] && |st.tree.keys| == n < 3 && forall i :: 0 <= i < n ==> st.tree.keys[i] < k
    ensures var st1 := Inserted(st, k, 2); st1.Full? && st1.height == st.height && st1.tree == Node(st.tree.id, st.tree.keys + [k], [])
  {
    assert FirstGE(st.tree.keys, k) == n;
    assert InsertAt(st.tree.keys, n, k) == st.tree.keys + [k];
  }

  // No operation adds a key that is there already.
  predicate OnlyNew(ops: seq<Op>) {
    forall i :: 0 <= i < |ops| ==> ops[i].Insert? ==> ops[i].key !in SetRun({}, ops[..i]).0
  }

  // Such a run is the run of a set.
  lemma {:induction false} OnlyNewIsSmooth(T: nat, ops: seq<Op>, sts: seq<BStore>, rs: seq<bool>, limit: Key, n: nat)
    requires T >= 2 && Allowed(ops, limit) && IsRun(T, ops, sts, rs) && OnlyNew(ops) && n <= |ops|
    ensures Smooth(T, ops, sts, n)
  {
    hide Good, OnFile, Exact, Step, SetRun, Content, RootSplitOut;
    if n > 0 {
      OnlyNewIsSmooth(T, ops, sts, rs, limit, n - 1);
      RunUpTo(T, ops, sts, rs, limit, n - 1);
      var (st, op) := (sts[n - 1], ops[n - 1]);
      if op.Insert? && st.Full? {
        AbsentStays(st.tree, op.key, T, st.height, -1, limit);
      }
    }
  }

  // ----- space -----

  ghost function Nodes(st: BStore): nat {
    if st.Empty? then 0 else |Ids(st.tree)|
  }

  // The positions handed out since the store was last empty.
  function Positions(st: BStore): int {
    if st.Empty? then 0 else st.file.next - st.since
  }

  lemma {:induction false} CardinalityOfRange(x: multiset<Ref>, lo: Ref, hi: Ref)
    requires lo <= hi && forall p: Ref :: x[p] == if lo <= p < hi then 1 else 0
    ensures |x| == hi - lo
    decreases hi
  {
    if lo == hi {
      assert x == multiset{};
    } else {
      var y := x - multiset{hi - 1};
      CardinalityOfRange(y, lo, hi - 1);
      assert x == y + multiset{hi - 1};
    }
  }

  // Each of them is a node of the tree or freed.
  lemma Census(st: BStore, T: nat, limit: Key)
    requires Inv(st, T, limit) && st.Full?
    ensures Nodes(st) + |st.file.freed| == Positions(st)
  {
    hide Ids, OnFile, Good;
    var (x, s) := (Ids(st.tree), st.file);
    assert Held(x, s, s.next) == if s.next < st.since then -1 else 0;
    forall p: Ref
      ensures (x + multiset(s.freed))[p] == if st.since <= p < s.next then 1 else 0
    {
      assert Held(x, s, p) == if p < st.since then -1 else 0;
    }
    CardinalityOfRange(x + multiset(s.freed), st.since, s.next);
  }

  // A new position is taken only when no freed one is left.
  ghost predicate Frugal(s: BFile, s1: BFile) {
    s1.next >= s.next && |s1.freed| <= |s.freed| && (s1.next > s.next ==> s1.freed == [])
  }

  lemma {:induction false} InsertFrugal(t: Tree, k: Key, T: nat, h: nat, s: BFile)
    requires T >= 2
    ensures Frugal(s, InsertNonFull(t, k, T, h, s).1)
    decreases h
  {
    hide FirstGE;
    var i := FirstGE(t.keys, k);
    if !(i < |t.keys| && t.keys[i] == k) && !(t.kids == [] || h == 0 || i >= |t.kids|) {
      var (t1, s1) := if |t.kids[i].keys| == 2 * T - 1 then SplitChild(t, i, T, s) else (t, s);
      var j := if |t1.keys| > |t.keys| && t1.keys[i] < k then i + 1 else i;
      InsertFrugal(t1.kids[j], k, T, h - 1, s1);
    }
  }

  lemma InsertRootFrugal(t: Tree, k: Key, T: nat, h: nat, s: BFile)
    requires T >= 2
    ensures Frugal(s, InsertRoot(t, k, T, h, s).1)
  {
    hide InsertNonFull;
    if |t.keys| == 2 * T - 1 {
      var (s1, id) := Take(s);
      var (t1, s2) := SplitChild(Node(id, [], [t]), 0, T, s1);
      InsertFrugal(t1.kids[if t1.keys[0] < k then 1 else 0], k, T, h, s2);
    } else {
      InsertFrugal(t, k, T, h, s);
    }
  }

  // A removal takes no position.
  lemma {:induction false} RemoveTakesNone(t: Tree, k: Key, T: nat, h: nat, s: BFile)
    requires T >= 2
    ensures BTrees.Remove(t, k, T, h, s).file.next == s.next
    decreases h, 1
  {
    hide FirstGE, LastKey, FirstKey, Join, Part;
    var i := FirstGE(t.keys, k);
    if Inner(t, h) {
      if i < |t.keys| && t.keys[i] == k {
        RemoveNonLeafTakesNone(t, i, T, h, s);
      } else {
        var (f, s1) := if |t.kids[i].keys| < T then FillNode(t, i, T, s) else (t, s);
        RemoveTakesNone(f.kids[if i == |t.keys| && i > |f.keys| then i - 1 else i], k, T, h - 1, s1);
      }
    }
  }

  lemma {:induction false} RemoveNonLeafTakesNone(t: Tree, i: nat, T: nat, h: nat, s: BFile)
    requires T >= 2 && Inner(t, h) && i < |t.keys|
    ensures RemoveFromNonLeaf(t, i, T, h, s).file.next == s.next
    decreases h, 0
  {
    hide LastKey, FirstKey, Join;
    if |t.kids[i].keys| >= T {
      RemoveTakesNone(t.kids[i], LastKey(t.kids[i]), T, h - 1, s);
    } else if |t.kids[i + 1].keys| >= T {
      RemoveTakesNone(t.kids[i + 1], FirstKey(t.kids[i + 1]), T, h - 1, s);
    } else {
      var (f, s1) := MergeNodes(t, i, s);
      var c := f.kids[i];
      RemoveTakesNone(c, if T - 1 < |c.keys| then c.keys[T - 1] else 0, T, h - 1, s1);
    }
  }

  function Max(a: int, b: int): int {
    if a < b then b else a
  }

  // The positions become as many as the nodes if those were fewer, and start over with an empty store.
  lemma StepSpace(st: BStore, op: Op, T: nat, m: set<Key>, limit: Key)
    requires T >= 2 && Inv(st, T, limit) && Means(st, m) && 0 <= op.key < limit && !Doubles(st, op, T)
    ensures var st1 := Step(st, op, T).0;
            Positions(st1) == if st1.Empty? then 0 else Max(Positions(st), Nodes(st1))
  {
    hide Good, OnFile, Exact, Means, Content, InsertRoot, BTrees.Remove, BTrees.Search, RemoveRoot, RootSplitOut, Ids, Inv;
    var st1 := Step(st, op, T).0;
    StepInv(st, op, T, m, limit);
    if st1.Full? {
      Census(st1, T, limit);
    }
    if st.Full? {
      Census(st, T, limit);
      match op
      case Insert(k) => InsertRootFrugal(st.tree, k, T, st.height, st.file);
      case Search(k) =>
      case Remove(k) => RemoveRootTakesNone(st.tree, k, T, st.height, st.file);
    } else {
      FirstSpace(st.file, op, T, limit);
    }
  }

  lemma RemoveRootTakesNone(t: Tree, k: Key, T: nat, h: nat, s: BFile)
    requires T >= 2
    ensures RemoveRoot(t, k, T, h, s).file.next == s.next
  {
    RemoveTakesNone(t, k, T, h, s);
  }

  lemma FirstSpace(s: BFile, op: Op, T: nat, limit: Key)
    requires T >= 2 && Inv(Empty(s), T, limit)
    ensures var st1 := Step(Empty(s), op, T).0; st1.Full? ==> Positions(st1) == 1 && st1.file.freed == []
  {
  }

  // The most nodes that the store has held since it was last empty.
  ghost function PeakNodes(sts: seq<BStore>): int {
    if sts == [] || sts[|sts| - 1].Empty? then 0
    else Max(PeakNodes(sts[..|sts| - 1]), Nodes(sts[|sts| - 1]))
  }

  // The file is exactly as long as that.
  lemma {:induction false} RunSpace(T: nat, ops: seq<Op>, sts: seq<BStore>, rs: seq<bool>, limit: Key)
    requires T >= 2 && Allowed(ops, limit) && IsRun(T, ops, sts, rs) && Smooth(T, ops, sts, |ops|)
    ensures Positions(sts[|ops|]) == PeakNodes(sts)
    decreases |ops|
  {
    hide Inv, Step, Means, Doubles, Nodes, Positions;
    if ops == [] {
      NewSpace();
    } else {
      var n := |ops| - 1;
      DropLast(T, ops, sts, rs);
      RunSpace(T, ops[..n], sts[..n + 1], rs[..n], limit);
      RunUpTo(T, ops, sts, rs, limit, n);
      assert sts[..n + 1][n] == sts[n] && sts[..|sts| - 1] == sts[..n + 1];
      assert Step(sts[n], ops[n], T) == (sts[n + 1], rs[n]);
      StepSpace(sts[n], ops[n], T, SetRun({}, ops[..n]).0, limit);
    }
  }

  lemma NewSpace()
    ensures New().Empty? && Positions(New()) == 0
  {
  }
}
