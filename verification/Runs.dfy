/** Whole runs from a new store: the store behaves as a plain map, never leaks a page or a
    slot, and never takes more space than its fullest moment needed. */
module Runs {
  import opened Pages
  import opened Trees
  import opened Order
  import opened Accounts
  import opened Insertion
  import opened Store
  import opened StoreSteps
  import opened StoreRemoval
  import opened Counting

  datatype Op = Set(key: Key, value: Value) | Get(key: Key) | Exist(key: Key) | Remove(key: Key)

  datatype Result = Done | Answer(value: Option<Value>) | Flag(yes: bool)

  // The new store: one empty leaf on page 0.
  ghost function New(g: Geometry): Store {
    var s := Disk(g, 0, map[], map[], 0, [], []);
    var (s1, id) := AppendNode(s, LeafPage([], []));
    Store(Leaf(id, []), 0, s1, 0)
  }

  ghost function Step(st: Store, op: Op): (Store, Result)
    requires Shaped(st.root, st.disk.g.degree) && GeometryOK(st.disk.g)
  {
    match op
    case Set(k, v) => (SetKey(st, k, v), Done)
    case Get(k) => (st, Answer(GetKey(st, k)))
    case Exist(k) => (st, Flag(Find(st.root, k).Some?))
    case Remove(k) => (RemoveKey(st, k).0, Flag(RemoveKey(st, k).1))
  }

  // The same operation on a plain map.
  function MapStep(m: map<Key, Value>, op: Op): (map<Key, Value>, Result) {
    match op
    case Set(k, v) => (m[k := v], Done)
    case Get(k) => (m, Answer(if k in m then Some(m[k]) else None))
    case Exist(k) => (m, Flag(k in m))
    case Remove(k) => (m - {k}, Flag(k in m))
  }

  predicate Allowed(ops: seq<Op>, limit: Key) {
    forall i :: 0 <= i < |ops| ==> 0 <= ops[i].key < limit
  }

  function MapRun(m: map<Key, Value>, ops: seq<Op>): (map<Key, Value>, seq<Result>) {
    if ops == [] then (m, [])
    else
      var (m1, rs) := MapRun(m, ops[..|ops| - 1]);
      var (m2, r) := MapStep(m1, ops[|ops| - 1]);
      (m2, rs + [r])
  }

  // A run is the sequence of stores after each prefix of the operations.
  ghost predicate IsRunFrom(st: Store, ops: seq<Op>, sts: seq<Store>, rs: seq<Result>) {
    && |sts| == |ops| + 1 && |rs| == |ops| && sts[0] == st
    && forall i :: 0 <= i < |ops| ==>
         && Shaped(sts[i].root, sts[i].disk.g.degree) && GeometryOK(sts[i].disk.g)
         && Step(sts[i], ops[i]) == (sts[i + 1], rs[i])
  }

  ghost predicate IsRun(g: Geometry, ops: seq<Op>, sts: seq<Store>, rs: seq<Result>) {
    IsRunFrom(New(g), ops, sts, rs)
  }

  lemma NewInv(g: Geometry, limit: Key)
    requires GeometryOK(g)
    ensures Inv(New(g), limit) && Means(New(g), map[]) && New(g).disk.g == g
    ensures |New(g).disk.pages| == 1 && |New(g).disk.values| == 0 && Nodes(New(g)) == 1 && Keys(New(g)) == 0
  {
    var st := New(g);
    assert st.disk == Disk(g, 1, map[0 := LeafPage([], [])], map[], 0, [], []);
    assert PageOf(st.root) == LeafPage([], []);
  }

  lemma StepInv(st: Store, op: Op, m: map<Key, Value>, limit: Key)
    requires Ready(st, limit) && Means(st, m) && 0 <= op.key < limit
    ensures var (st1, r) := Step(st, op); var (m1, r1) := MapStep(m, op);
            Inv(st1, limit) && Means(st1, m1) && r == r1
  {
    hide Inv, SetKey, RemoveKey, GetKey, Find, Shaped, DiskOK;
    match op
    case Set(k, v) => SetMeans(st, k, v, m, limit);
    case Get(k) => assert GetKey(st, k) == (if k in m then Some(m[k]) else None);
    case Exist(k) =>
      assert GetKey(st, k) == (if k in m then Some(m[k]) else None);
      FindLive(st, k, limit);
    case Remove(k) => RemoveMeans(st, k, m, limit);
  }

  lemma StepSpace(st: Store, op: Op, limit: Key)
    requires Ready(st, limit) && 0 <= op.key < limit
    ensures var st1 := Step(st, op).0;
            && |st1.disk.pages| == Max(|st.disk.pages|, Nodes(st1))
            && |st1.disk.values| == Max(|st.disk.values|, Keys(st1))
            && st1.disk.g == st.disk.g
  {
    hide Inv, GetKey, Find, Shaped, DiskOK, SetKey, RemoveKey;
    match op
    case Set(k, v) => SetSpace(st, k, v, limit); SetGeometry(st, k, v);
    case Remove(k) => RemoveSpace(st, k, limit); RemoveGeometry(st, k, limit);
    case _ => Census(st, limit);
  }

  lemma SetGeometry(st: Store, k: Key, v: Value)
    requires Shaped(st.root, st.disk.g.degree) && GeometryOK(st.disk.g)
    ensures SetKey(st, k, v).disk.g == st.disk.g
  {
  }

  lemma RemoveGeometry(st: Store, k: Key, limit: Key)
    requires Ready(st, limit)
    ensures RemoveKey(st, k).0.disk.g == st.disk.g
  {
    hide Inv, RemoveKey;
    RemoveFacts(st, k, limit);
  }

  // ----- the theorems over runs -----

  lemma DropLast(st: Store, ops: seq<Op>, sts: seq<Store>, rs: seq<Result>)
    requires ops != [] && IsRunFrom(st, ops, sts, rs)
    ensures IsRunFrom(st, ops[..|ops| - 1], sts[..|ops|], rs[..|ops| - 1])
  {
    hide Step, New, Shaped;
    var n := |ops| - 1;
    forall i | 0 <= i < n
      ensures Step(sts[..|ops|][i], ops[..n][i]) == (sts[..|ops|][i + 1], rs[..n][i])
    {
      assert Step(sts[i], ops[i]) == (sts[i + 1], rs[i]);
    }
  }

  // From a store that stores the map m, every run keeps the invariant, stores what the map would
  // become, and answers every operation as the map does.
  lemma {:induction false} RunFromRefines(st: Store, m: map<Key, Value>, ops: seq<Op>, sts: seq<Store>, rs: seq<Result>, limit: Key)
    requires Inv(st, limit) && Means(st, m) && Allowed(ops, limit) && IsRunFrom(st, ops, sts, rs)
    ensures Inv(sts[|ops|], limit) && Means(sts[|ops|], MapRun(m, ops).0) && sts[|ops|].disk.g == st.disk.g
    ensures rs == MapRun(m, ops).1
    decreases |ops|
  {
    hide Inv, Step, New, Shaped, Means, GeometryOK;
    if ops != [] {
      var n := |ops| - 1;
      DropLast(st, ops, sts, rs);
      RunFromRefines(st, m, ops[..n], sts[..n + 1], rs[..n], limit);
      assert sts[..n + 1][n] == sts[n];
      StepInv(sts[n], ops[n], MapRun(m, ops[..n]).0, limit);
      StepSpace(sts[n], ops[n], limit);
      assert rs == rs[..n] + [rs[n]];
    }
  }

  // Every run from a new store behaves as a plain map.
  lemma RunRefinesMap(g: Geometry, ops: seq<Op>, sts: seq<Store>, rs: seq<Result>, limit: Key)
    requires GeometryOK(g) && Allowed(ops, limit) && IsRun(g, ops, sts, rs)
    ensures Inv(sts[|ops|], limit) && Means(sts[|ops|], MapRun(map[], ops).0) && sts[|ops|].disk.g == g
    ensures rs == MapRun(map[], ops).1
  {
    hide Inv, Step, New, Shaped, Means, GeometryOK;
    NewInv(g, limit);
    RunFromRefines(New(g), map[], ops, sts, rs, limit);
  }

  // Runs exist: no operation on allowed keys is ever refused.
  lemma {:induction false} RunExists(g: Geometry, ops: seq<Op>, limit: Key) returns (sts: seq<Store>, rs: seq<Result>)
    requires GeometryOK(g) && Allowed(ops, limit)
    ensures IsRun(g, ops, sts, rs)
    decreases |ops|
  {
    hide Inv, Step, New, Shaped, Means, DiskOK;
    if ops == [] {
      sts, rs := [New(g)], [];
    } else {
      var n := |ops| - 1;
      sts, rs := RunExists(g, ops[..n], limit);
      RunRefinesMap(g, ops[..n], sts, rs, limit);
      InvShaped(sts[n], limit);
      var (st, r) := Step(sts[n], ops[n]);
      sts, rs := sts + [st], rs + [r];
    }
  }

  // The most keys, and the most nodes, that the store has held so far.
  ghost function PeakKeys(sts: seq<Store>): nat {
    if sts == [] then 0 else Max(PeakKeys(sts[..|sts| - 1]), Keys(sts[|sts| - 1]))
  }

  ghost function PeakNodes(sts: seq<Store>): nat {
    if sts == [] then 0 else Max(PeakNodes(sts[..|sts| - 1]), Nodes(sts[|sts| - 1]))
  }

  // The value slots ever issued are exactly as many as the most keys ever held at once,
  // the node pages ever appended exactly as many as the most nodes ever reachable at once.
  lemma {:induction false} RunSpace(g: Geometry, ops: seq<Op>, sts: seq<Store>, rs: seq<Result>, limit: Key)
    requires GeometryOK(g) && Allowed(ops, limit) && IsRun(g, ops, sts, rs)
    ensures |sts[|ops|].disk.values| == PeakKeys(sts)
    ensures |sts[|ops|].disk.pages| == PeakNodes(sts)
    decreases |ops|
  {
    hide Inv, Step, New, Shaped, Means, GeometryOK, Keys, Nodes;
    if ops == [] {
      NewInv(g, limit);
      assert sts == [New(g)];
      assert PeakKeys(sts[..0]) == 0 && PeakNodes(sts[..0]) == 0;
    } else {
      var n := |ops| - 1;
      DropLast(New(g), ops, sts, rs);
      RunSpace(g, ops[..n], sts[..n + 1], rs[..n], limit);
      RunRefinesMap(g, ops[..n], sts[..n + 1], rs[..n], limit);
      assert sts[..n + 1][n] == sts[n] && sts[..|sts| - 1] == sts[..n + 1];
      assert Step(sts[n], ops[n]) == (sts[n + 1], rs[n]);
      StepSpace(sts[n], ops[n], limit);
    }
  }

  // ----- what one state of a run says about a later one -----

  // From one store to a later one pages and slots are only added.
  ghost predicate Grows(st: Store, st1: Store) {
    st.disk.pages.Keys <= st1.disk.pages.Keys && st.disk.values.Keys <= st1.disk.values.Keys
  }

  lemma StepGrows(st: Store, op: Op, limit: Key)
    requires Ready(st, limit) && 0 <= op.key < limit
    ensures var st1 := Step(st, op).0;
            Grows(st, st1) && (HeaderOK(st) ==> HeaderOK(st1)) && (Issued(st.disk) ==> Issued(st1.disk))
  {
    hide Shaped, GeometryOK, DiskOK, SetKey, RemoveKey, Inv, HeldNode, HeldSlot, Issued, Stored, Ids, Grows, HeaderOK;
    match op
    case Set(k, v) =>
      SetDisk(st, k, v, limit);
      HeaderKept(st, SetKey(st, k, v)) by { SavedMoves(st, k, v); }
    case Remove(k) =>
      RemoveDisk(st, k, limit);
      HeaderKept(st, RemoveKey(st, k).0) by { SavedMoves(st, k, ""); }
      IssuedKept(st.disk, RemoveKey(st, k).0.disk);
    case _ =>
      HeaderKept(st, st);
  }

  lemma IssuedKept(s: Disk, s1: Disk)
    requires s1.g == s.g && s1.values == s.values && s1.cursor == s.cursor
    ensures Issued(s) ==> Issued(s1)
  {
  }

  // The header's cursor is rewritten with the current one or not at all.
  lemma SavedMoves(st: Store, k: Key, v: Value)
    requires Shaped(st.root, st.disk.g.degree) && GeometryOK(st.disk.g)
    ensures var st1 := SetKey(st, k, v); st1.saved == st.saved || st1.saved == st1.disk.cursor
    ensures var st1 := RemoveKey(st, k).0; st1.saved == st.saved || st1.saved == st1.disk.cursor
  {
    hide InsertRoot, Shaped, GeometryOK;
  }

  lemma HeaderKept(st: Store, st1: Store)
    requires st.disk.values.Keys <= st1.disk.values.Keys && st.disk.pages.Keys <= st1.disk.pages.Keys
    requires st1.saved == st.saved || (DiskOK(st1.disk) && st1.saved == st1.disk.cursor)
    ensures Grows(st, st1) && (HeaderOK(st) ==> HeaderOK(st1))
  {
    hide DiskOK;
    if st1.saved != st.saved {
      CursorIssued(st1.disk);
    }
  }

  lemma CursorIssued(s: Disk)
    requires DiskOK(s)
    ensures s.cursor == 0 || s.cursor in s.values
  {
  }

  lemma Prefix(g: Geometry, ops: seq<Op>, sts: seq<Store>, rs: seq<Result>, i: nat)
    requires i <= |ops| && IsRun(g, ops, sts, rs)
    ensures IsRun(g, ops[..i], sts[..i + 1], rs[..i])
  {
    hide Step, New, Shaped;
    forall j | 0 <= j < i
      ensures Step(sts[..i + 1][j], ops[..i][j]) == (sts[..i + 1][j + 1], rs[..i][j])
    {
      assert Step(sts[j], ops[j]) == (sts[j + 1], rs[j]);
    }
  }

  // Every state of a run keeps the invariant.
  lemma RunReady(g: Geometry, ops: seq<Op>, sts: seq<Store>, rs: seq<Result>, limit: Key, i: nat)
    requires GeometryOK(g) && Allowed(ops, limit) && IsRun(g, ops, sts, rs) && i <= |ops|
    ensures Ready(sts[i], limit) && sts[i].disk.g == g
  {
    hide Inv, Step, New, Shaped, Means, GeometryOK;
    Prefix(g, ops, sts, rs, i);
    RunRefinesMap(g, ops[..i], sts[..i + 1], rs[..i], limit);
    InvShaped(sts[i], limit);
  }

  // Pages and slots once allocated stay allocated for the rest of the run.
  lemma {:induction false} RunGrows(g: Geometry, ops: seq<Op>, sts: seq<Store>, rs: seq<Result>, limit: Key, i: nat, j: nat)
    requires GeometryOK(g) && Allowed(ops, limit) && IsRun(g, ops, sts, rs) && i <= j <= |ops|
    ensures Grows(sts[i], sts[j])
    decreases j
  {
    hide Inv, Step, New, Shaped, Means, GeometryOK;
    if i < j {
      RunGrows(g, ops, sts, rs, limit, i, j - 1);
      RunReady(g, ops, sts, rs, limit, j - 1);
      assert Step(sts[j - 1], ops[j - 1]) == (sts[j], rs[j - 1]);
      StepGrows(sts[j - 1], ops[j - 1], limit);
    }
  }

  // No page ever changes between node and value use: a node page of one state is not the page of
  // a value in any state, earlier or later.
  lemma RunKeepsUse(g: Geometry, ops: seq<Op>, sts: seq<Store>, rs: seq<Result>, limit: Key, i: nat, j: nat, p: Ref, v: Ref)
    requires GeometryOK(g) && Allowed(ops, limit) && IsRun(g, ops, sts, rs) && i <= |ops| && j <= |ops|
    requires p in sts[i].disk.pages && v in sts[j].disk.values
    ensures Base(v, g.span) != p
  {
    hide Step, New, Shaped, Means, TreeOK, Stored, HeldNode, HeldSlot, Issued, Covered;
    var m := if i < j then j else i;
    RunGrows(g, ops, sts, rs, limit, i, m);
    RunGrows(g, ops, sts, rs, limit, j, m);
    RunReady(g, ops, sts, rs, limit, m);
  }

  // The header's cursor is unset or was issued; and the cursor in memory is never set back.
  lemma {:induction false} RunHeader(g: Geometry, ops: seq<Op>, sts: seq<Store>, rs: seq<Result>, limit: Key, i: nat)
    requires GeometryOK(g) && Allowed(ops, limit) && IsRun(g, ops, sts, rs) && i <= |ops|
    ensures HeaderOK(sts[i]) && Issued(sts[i].disk)
  {
    hide Inv, Step, New, Shaped, Means, GeometryOK, HeaderOK, Issued;
    if i == 0 {
      NewHeader(g);
    } else {
      RunHeader(g, ops, sts, rs, limit, i - 1);
      RunReady(g, ops, sts, rs, limit, i - 1);
      assert Step(sts[i - 1], ops[i - 1]) == (sts[i], rs[i - 1]);
      StepGrows(sts[i - 1], ops[i - 1], limit);
    }
  }

  lemma NewHeader(g: Geometry)
    requires GeometryOK(g)
    ensures HeaderOK(New(g)) && Issued(New(g).disk)
  {
    assert New(g).disk.values == map[];
  }

  // The allocated pages are exactly the reachable nodes, the free pages and the value pages,
  // each once; the issued slots are exactly the live and the free ones, each once; and the
  // issued slots fill the value pages up to the cursor.
  ghost predicate Accounted(st: Store) {
    && GeometryOK(st.disk.g)
    && multiset(st.disk.pages.Keys) == Ids(st.root) + multiset(st.disk.delNodes)
    && multiset(st.disk.values.Keys) == Slots(st.root) + multiset(st.disk.delValues)
    && (forall v :: v in st.disk.values ==> Base(v, st.disk.g.span) !in st.disk.pages)
    && Issued(st.disk) && CursorOK(st.disk) && Covered(st.disk)
  }

  lemma InvAccounted(st: Store, limit: Key)
    requires Inv(st, limit) && Issued(st.disk)
    ensures Accounted(st)
  {
    hide TreeOK, Stored, HeldNode, HeldSlot, Ids, Issued, CursorOK, Covered;
    Census(st, limit);
  }

  lemma RunOwnership(g: Geometry, ops: seq<Op>, sts: seq<Store>, rs: seq<Result>, limit: Key)
    requires GeometryOK(g) && Allowed(ops, limit) && IsRun(g, ops, sts, rs)
    ensures Accounted(sts[|ops|]) && Keys(sts[|ops|]) == |MapRun(map[], ops).0|
  {
    hide Step, New, Shaped, Means, Inv, Accounted, GeometryOK, Issued;
    RunRefinesMap(g, ops, sts, rs, limit);
    RunHeader(g, ops, sts, rs, limit, |ops|);
    InvAccounted(sts[|ops|], limit);
    KeysAreMapSize(sts[|ops|], MapRun(map[], ops).0, limit);
  }

  // When every key is gone, one empty leaf is left and all other pages and slots are free.
  lemma RunEmptied(g: Geometry, ops: seq<Op>, sts: seq<Store>, rs: seq<Result>, limit: Key)
    requires GeometryOK(g) && Allowed(ops, limit) && IsRun(g, ops, sts, rs) && MapRun(map[], ops).0 == map[]
    ensures var st := sts[|ops|];
            && st.root == Leaf(st.header, [])
            && multiset(st.disk.pages.Keys) == multiset{st.header} + multiset(st.disk.delNodes)
            && multiset(st.disk.values.Keys) == multiset(st.disk.delValues)
  {
    hide Step, New, Shaped, Inv, Means, GeometryOK;
    RunRefinesMap(g, ops, sts, rs, limit);
    KeysAreMapSize(sts[|ops|], map[], limit);
    EmptyStore(sts[|ops|], limit);
  }
}
