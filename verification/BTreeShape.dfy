/** The tree behind a B-tree file, and the B-tree algorithms on it (BTreeNode.cpp): full
    children are split on the way down for an insertion, thin ones are filled for a removal. */
module BTrees {
  import opened Pages

  // A leaf has no kids.
  datatype Tree = Node(id: Ref, keys: seq<Key>, kids: seq<Tree>)

  datatype BPage = BPage(leaf: bool, keys: seq<Key>, refs: seq<Ref>) | BDeleted

  // Node pages, the queue of freed positions, and the next position at the end of the file.
  datatype BFile = BFile(pages: map<Ref, BPage>, freed: seq<Ref>, next: Ref)

  function KidIds(kids: seq<Tree>): (r: seq<Ref>)
    ensures |r| == |kids|
    ensures forall i :: 0 <= i < |kids| ==> r[i] == kids[i].id
  {
    seq(|kids|, i requires 0 <= i < |kids| => kids[i].id)
  }

  function PageOf(t: Tree): BPage {
    BPage(t.kids == [], t.keys, KidIds(t.kids))
  }

  // ----- content, left to right -----

  function Content(t: Tree): seq<Key> {
    Flat(t.keys, t.kids)
  }

  function Flat(keys: seq<Key>, kids: seq<Tree>): seq<Key>
    decreases kids
  {
    if kids == [] then keys
    else if keys == [] then Content(kids[0])
    else Content(kids[0]) + [keys[0]] + Flat(keys[1..], kids[1..])
  }

  function Ids(t: Tree): multiset<Ref> {
    multiset{t.id} + IdsOf(t.kids)
  }

  function IdsOf(kids: seq<Tree>): multiset<Ref> {
    if kids == [] then multiset{} else Ids(kids[0]) + IdsOf(kids[1..])
  }

  // ----- the invariant -----

  // Keys in order between lo and hi, and every leaf h levels down.
  ghost predicate Body(keys: seq<Key>, kids: seq<Tree>, h: nat, lo: Key, hi: Key)
    decreases h, 0
  {
    && Sorted(keys) && (forall i :: 0 <= i < |keys| ==> lo < keys[i] < hi)
    && (if h == 0 then kids == []
        else |kids| == |keys| + 1 && forall i :: 0 <= i < |kids| ==> Ordered(kids[i], h - 1, Lo(keys, i, lo), Hi(keys, i, hi)))
  }

  ghost predicate Ordered(t: Tree, h: nat, lo: Key, hi: Key)
    decreases h, 1
  {
    Body(t.keys, t.kids, h, lo, hi)
  }

  // No node below is thin or overfull.
  ghost predicate Occupied(kids: seq<Tree>, T: nat) {
    forall i :: 0 <= i < |kids| ==> T - 1 <= |kids[i].keys| <= 2 * T - 1 && Occupied(kids[i].kids, T)
  }

  ghost predicate Good(t: Tree, T: nat, h: nat, lo: Key, hi: Key) {
    Ordered(t, h, lo, hi) && |t.keys| <= 2 * T - 1 && Occupied(t.kids, T)
  }

  // ----- joining two neighbours, and parting one in two -----

  function LeftOf(kids: seq<Tree>, m: nat): (r: seq<Tree>) {
    if m < |kids| then kids[..m + 1] else kids
  }

  function RightOf(kids: seq<Tree>, m: nat): (r: seq<Tree>) {
    if m < |kids| then kids[m + 1..] else []
  }

  // Children i and i+1 become one, with the key between them, on the page of child i.
  function Join(f: Tree, i: nat): (t: Tree)
    requires i < |f.keys| && |f.kids| == |f.keys| + 1
    ensures t.id == f.id && |t.keys| == |f.keys| - 1 && |t.kids| == |f.kids| - 1
  {
    var a, b := f.kids[i], f.kids[i + 1];
    Node(f.id, RemoveAt(f.keys, i), f.kids[..i] + [Node(a.id, a.keys + [f.keys[i]] + b.keys, a.kids + b.kids)] + f.kids[i + 2..])
  }

  // Child i becomes two, left and right of its key m, the right one on page id.
  function Part(f: Tree, i: nat, m: nat, id: Ref): (t: Tree)
    requires i < |f.kids| && i <= |f.keys| && m < |f.kids[i].keys|
    ensures t.id == f.id && |t.keys| == |f.keys| + 1 && |t.kids| == |f.kids| + 1
  {
    var c := f.kids[i];
    Node(f.id, InsertAt(f.keys, i, c.keys[m]),
      f.kids[..i] + [Node(c.id, c.keys[..m], LeftOf(c.kids, m)), Node(id, c.keys[m + 1..], RightOf(c.kids, m))] + f.kids[i + 1..])
  }

  // ----- the file -----

  function PutPage(s: BFile, id: Ref, p: BPage): BFile {
    s.(pages := s.pages[id := p])
  }

  function Write(s: BFile, t: Tree): BFile {
    PutPage(s, t.id, PageOf(t))
  }

  // A freed position is reused first, the oldest one.
  function Take(s: BFile): (r: (BFile, Ref)) {
    if s.freed != [] then (s.(freed := s.freed[1..]), s.freed[0]) else (s.(next := s.next + 1), s.next)
  }

  // ----- insertion -----

  function SplitChild(f: Tree, i: nat, T: nat, s: BFile): (r: (Tree, BFile))
    requires T >= 2 && i < |f.kids| && i <= |f.keys| && |f.kids[i].keys| == 2 * T - 1
    ensures |r.0.kids| == |f.kids| + 1 && |r.0.keys| == |f.keys| + 1 && r.0.id == f.id
  {
    var (s1, id) := Take(s);
    var f1 := Part(f, i, T - 1, id);
    (f1, Write(Write(Write(s1, f1.kids[i]), f1), f1.kids[i + 1]))
  }

  function WithKid(f: Tree, i: nat, c: Tree): (t: Tree)
    requires i < |f.kids|
    ensures t.id == f.id && t.keys == f.keys && |t.kids| == |f.kids|
  {
    Node(f.id, f.keys, f.kids[i := c])
  }

  // Adds a key below t, which is not full; a key that is met on the way stays as it is, and
  // only its value is overwritten.
  function InsertNonFull(t: Tree, k: Key, T: nat, h: nat, s: BFile): (r: (Tree, BFile))
    requires T >= 2
    ensures r.0.id == t.id
    decreases h
  {
    var i := FirstGE(t.keys, k);
    if i < |t.keys| && t.keys[i] == k then (t, s)
    else if t.kids == [] || h == 0 || i >= |t.kids| then
      var t1 := Node(t.id, InsertAt(t.keys, i, k), t.kids);
      (t1, Write(s, t1))
    else
      var (t1, s1) := if |t.kids[i].keys| == 2 * T - 1 then SplitChild(t, i, T, s) else (t, s);
      var j := if |t1.keys| > |t.keys| && t1.keys[i] < k then i + 1 else i;
      var (c, s2) := InsertNonFull(t1.kids[j], k, T, h - 1, s1);
      (WithKid(t1, j, c), s2)
  }

  predicate IsMiddle(c: Tree, k: Key, T: nat) {
    T >= 1 && |c.keys| == 2 * T - 1 && c.keys[T - 1] == k
  }

  // On its way to k an insertion splits the very node that holds k, and k is its middle key.
  predicate SplitOut(t: Tree, k: Key, T: nat, h: nat)
    decreases h
  {
    var i := FirstGE(t.keys, k);
    h > 0 && i < |t.kids| && !(i < |t.keys| && t.keys[i] == k) && (IsMiddle(t.kids[i], k, T) || SplitOut(t.kids[i], k, T, h - 1))
  }

  predicate RootSplitOut(t: Tree, k: Key, T: nat, h: nat) {
    IsMiddle(t, k, T) || SplitOut(t, k, T, h)
  }

  // At the root, which gets a new root over it when it is full.
  function InsertRoot(t: Tree, k: Key, T: nat, h: nat, s: BFile): (r: (Tree, BFile))
    requires T >= 2
  {
    if |t.keys| == 2 * T - 1 then
      var (s1, id) := Take(s);
      var (t1, s2) := SplitChild(Node(id, [], [t]), 0, T, s1);
      var j := if t1.keys[0] < k then 1 else 0;
      var (c, s3) := InsertNonFull(t1.kids[j], k, T, h, s2);
      (WithKid(t1, j, c), s3)
    else InsertNonFull(t, k, T, h, s)
  }

  // ----- removal -----

  function BorrowFromNext(f: Tree, i: nat, s: BFile): (r: (Tree, BFile))
    requires |f.kids| == |f.keys| + 1 && i < |f.keys| && |f.kids[i + 1].keys| >= 1
    ensures |r.0.keys| == |f.keys| && |r.0.kids| == |f.kids| && r.0.id == f.id
  {
    var f1 := Part(Join(f, i), i, |f.kids[i].keys| + 1, f.kids[i + 1].id);
    (f1, Write(Write(Write(s, f1), f1.kids[i]), f1.kids[i + 1]))
  }

  function BorrowFromPrev(f: Tree, i: nat, s: BFile): (r: (Tree, BFile))
    requires |f.kids| == |f.keys| + 1 && 0 < i <= |f.keys| && |f.kids[i - 1].keys| >= 1
    ensures |r.0.keys| == |f.keys| && |r.0.kids| == |f.kids| && r.0.id == f.id
  {
    var f1 := Part(Join(f, i - 1), i - 1, |f.kids[i - 1].keys| - 1, f.kids[i].id);
    (f1, Write(Write(Write(s, f1), f1.kids[i]), f1.kids[i - 1]))
  }

  // The page of child i+1 is marked deleted and freed.
  function MergeNodes(f: Tree, i: nat, s: BFile): (r: (Tree, BFile))
    requires |f.kids| == |f.keys| + 1 && i < |f.keys|
    ensures |r.0.keys| == |f.keys| - 1 && |r.0.kids| == |f.kids| - 1 && r.0.id == f.id
  {
    var f1, x := Join(f, i), f.kids[i + 1].id;
    var s1 := Write(s.(freed := s.freed + [x]), f1.kids[i]);
    (f1, Write(PutPage(s1, x, BDeleted), f1))
  }

  // Child i is thin: a key comes from the previous or the next child, or it merges with one.
  function FillNode(f: Tree, i: nat, T: nat, s: BFile): (r: (Tree, BFile))
    requires T >= 2 && |f.kids| == |f.keys| + 1 && |f.keys| >= 1 && i < |f.kids|
    ensures |f.keys| - 1 <= |r.0.keys| <= |f.keys| && |r.0.kids| == |r.0.keys| + 1 && r.0.id == f.id
  {
    if i != 0 && |f.kids[i - 1].keys| >= T then BorrowFromPrev(f, i, s)
    else if i != |f.keys| && |f.kids[i + 1].keys| >= T then BorrowFromNext(f, i, s)
    else if i != |f.keys| then MergeNodes(f, i, s)
    else MergeNodes(f, i - 1, s)
  }

  // The last key below t, and the first one.
  function LastKey(t: Tree): Key {
    if t.kids != [] then LastKey(t.kids[|t.kids| - 1]) else if t.keys != [] then t.keys[|t.keys| - 1] else 0
  }

  function FirstKey(t: Tree): Key {
    if t.kids != [] then FirstKey(t.kids[0]) else if t.keys != [] then t.keys[0] else 0
  }

  datatype Removed = Removed(t: Tree, ok: bool, file: BFile)

  predicate Inner(t: Tree, h: nat) {
    h > 0 && |t.kids| == |t.keys| + 1 && |t.keys| >= 1
  }

  // Removes a key below t, which is the root or has at least T keys.
  function Remove(t: Tree, k: Key, T: nat, h: nat, s: BFile): (r: Removed)
    requires T >= 2
    ensures r.t.id == t.id
    decreases h, 1
  {
    var i := FirstGE(t.keys, k);
    if !Inner(t, h) then RemoveFromLeaf(t, k, s)
    else if i < |t.keys| && t.keys[i] == k then RemoveFromNonLeaf(t, i, T, h, s)
    else
      var (f, s1) := if |t.kids[i].keys| < T then FillNode(t, i, T, s) else (t, s);
      var j := if i == |t.keys| && i > |f.keys| then i - 1 else i;
      var r := Remove(f.kids[j], k, T, h - 1, s1);
      Removed(WithKid(f, j, r.t), r.ok, r.file)
  }

  function RemoveFromLeaf(t: Tree, k: Key, s: BFile): (r: Removed)
    ensures r.t.id == t.id
  {
    var i := FirstGE(t.keys, k);
    if i < |t.keys| && t.keys[i] == k then
      var t1 := Node(t.id, RemoveAt(t.keys, i), t.kids);
      Removed(t1, true, Write(s, t1))
    else Removed(t, false, s)
  }

  // Key i of an internal node gives way to its predecessor or its successor, when a child
  // beside it can spare one; otherwise it goes down into the two children merged.
  function RemoveFromNonLeaf(t: Tree, i: nat, T: nat, h: nat, s: BFile): (r: Removed)
    requires T >= 2 && Inner(t, h) && i < |t.keys|
    ensures r.t.id == t.id
    decreases h, 0
  {
    if |t.kids[i].keys| >= T then
      var k := LastKey(t.kids[i]);
      Replaced(Node(t.id, t.keys[i := k], t.kids), i, Remove(t.kids[i], k, T, h - 1, s))
    else if |t.kids[i + 1].keys| >= T then
      var k := FirstKey(t.kids[i + 1]);
      Replaced(Node(t.id, t.keys[i := k], t.kids), i + 1, Remove(t.kids[i + 1], k, T, h - 1, s))
    else
      var (f, s1) := MergeNodes(t, i, s);
      var c := f.kids[i];
      var k := if T - 1 < |c.keys| then c.keys[T - 1] else 0;
      Replaced(f, i, Remove(c, k, T, h - 1, s1))
  }

  // The child and then the node itself are written once more.
  function Replaced(f: Tree, i: nat, r: Removed): (q: Removed)
    requires i < |f.kids|
    ensures q.t.id == f.id
  {
    var f1 := WithKid(f, i, r.t);
    Removed(f1, r.ok, if r.ok then Write(Write(r.file, r.t), f1) else r.file)
  }

  // At the root: an empty internal root gives way to its only child.
  function RemoveRoot(t: Tree, k: Key, T: nat, h: nat, s: BFile): (r: Removed)
    requires T >= 2
  {
    var r := Remove(t, k, T, h, s);
    if |r.t.keys| == 0 && |r.t.kids| > 0 then
      Removed(r.t.kids[0], r.ok, r.file.(freed := r.file.freed + [t.id], pages := r.file.pages[t.id := BDeleted]))
    else r
  }

  // ----- search -----

  function Search(t: Tree, k: Key, h: nat): bool
    decreases h
  {
    var i := FirstGE(t.keys, k);
    if i < |t.keys| && t.keys[i] == k then true
    else if h == 0 || i >= |t.kids| then false
    else Search(t.kids[i], k, h - 1)
  }
}
