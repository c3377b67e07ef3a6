/** The disk as the B+ tree sees it: node pages and value slots named by packed
    offsets, the cursor of the last issued value slot, and the two free stacks. */
module Pages {

  // A key is the order-preserving code of a C string (see module KeyCodes).
  type Key = int
  type Value = string
  // A packed offset: page number * span + slot index.
  type Ref = nat

  datatype Entry = Entry(key: Key, slot: Ref)

  datatype Page =
    | LeafPage(keys: seq<Key>, refs: seq<Ref>)
    | NodePage(keys: seq<Key>, refs: seq<Ref>)
    | FreePage

  // degree is the source's maxDegree; a page holds `slots` values; `span` is two to
  // the number of bits that the slot index takes in a packed offset.
  datatype Geometry = Geometry(degree: nat, slots: nat, span: nat)

  ghost predicate GeometryOK(g: Geometry) {
    g.degree >= 2 && 2 <= g.slots <= g.span
  }

  datatype Disk = Disk(
    g: Geometry,
    filePages: nat,
    pages: map<Ref, Page>,
    values: map<Ref, Value>,
    cursor: Ref,
    delNodes: seq<Ref>,
    delValues: seq<Ref>)

  // ----- sequences -----

  function InsertAt<T>(s: seq<T>, i: nat, x: T): (r: seq<T>)
    requires i <= |s|
  {
    s[..i] + [x] + s[i..]
  }

  function RemoveAt<T>(s: seq<T>, i: nat): (r: seq<T>)
    requires i < |s|
  {
    s[..i] + s[i + 1..]
  }

  ghost predicate Sorted(s: seq<Key>) {
    forall i, j :: 0 <= i < j < |s| ==> s[i] < s[j]
  }

  // The first index whose key is not below k.
  function FirstGE(s: seq<Key>, k: Key): (i: nat)
    ensures i <= |s|
    ensures forall j :: 0 <= j < i ==> s[j] < k
    ensures i < |s| ==> k <= s[i]
  {
    if s == [] || k <= s[0] then 0 else 1 + FirstGE(s[1..], k)
  }

  // The first index whose key is above k.
  function FirstGT(s: seq<Key>, k: Key): (i: nat)
    ensures i <= |s|
    ensures forall j :: 0 <= j < i ==> s[j] <= k
    ensures i < |s| ==> k < s[i]
  {
    if s == [] || k < s[0] then 0 else 1 + FirstGT(s[1..], k)
  }

  // The bounds of child i of a node with these keys.
  function Lo(keys: seq<Key>, i: nat, lo: Key): Key requires i <= |keys| {
    if i == 0 then lo else keys[i - 1]
  }

  function Hi(keys: seq<Key>, i: nat, hi: Key): Key requires i <= |keys| {
    if i == |keys| then hi else keys[i]
  }

  function KeysOf(e: seq<Entry>): (s: seq<Key>)
    ensures |s| == |e|
    ensures forall i :: 0 <= i < |e| ==> s[i] == e[i].key
  {
    seq(|e|, i requires 0 <= i < |e| => e[i].key)
  }

  function SlotsOf(e: seq<Entry>): (s: seq<Ref>)
    ensures |s| == |e|
    ensures forall i :: 0 <= i < |e| ==> s[i] == e[i].slot
  {
    seq(|e|, i requires 0 <= i < |e| => e[i].slot)
  }

  lemma Longer<T>(s: seq<T>, i: nat, x: T)
    requires i <= |s|
    ensures |InsertAt(s, i, x)| == |s| + 1
  {
  }

  // Its neighbours tell the first index.
  lemma FirstGEIs(s: seq<Key>, k: Key, i: nat)
    requires Sorted(s) && i <= |s| && (i > 0 ==> s[i - 1] < k) && (i < |s| ==> k <= s[i])
    ensures FirstGE(s, k) == i
  {
  }

  // A key may come in between its neighbours.
  lemma SortedInsert(keys: seq<Key>, i: nat, x: Key, lo: Key, hi: Key)
    requires Sorted(keys) && (forall j :: 0 <= j < |keys| ==> lo < keys[j] < hi)
    requires i <= |keys| && Lo(keys, i, lo) < x < Hi(keys, i, hi)
    ensures var r := InsertAt(keys, i, x); Sorted(r) && forall j :: 0 <= j < |r| ==> lo < r[j] < hi
  {
  }

  lemma SumAssoc(a: multiset<Ref>, b: multiset<Ref>, c: multiset<Ref>)
    ensures (a + b) + c == a + (b + c)
  {
  }

  // ----- page and slot allocation -----

  // A freed page is reused first; otherwise the file grows by one page.
  function TakePage(s: Disk): (r: (Disk, Ref)) {
    if s.delNodes != [] then
      (s.(delNodes := s.delNodes[..|s.delNodes| - 1]), s.delNodes[|s.delNodes| - 1])
    else
      (s.(filePages := s.filePages + 1), s.filePages * s.g.span)
  }

  function Flush(s: Disk, id: Ref, p: Page): (r: Disk) {
    s.(pages := s.pages[id := p])
  }

  function AppendNode(s: Disk, p: Page): (r: (Disk, Ref))
    ensures r.0.g == s.g
  {
    var (s1, id) := TakePage(s);
    (Flush(s1, id, p), id)
  }

  // Overwrites the page with an empty one and puts it on the free stack.
  function FreeNode(s: Disk, id: Ref): (r: Disk) {
    var s1 := Flush(s, id, FreePage);
    s1.(delNodes := s1.delNodes + [id])
  }

  // A freed slot is reused first; otherwise the next slot of the current value page,
  // or slot 0 of a new page when that page is full or none was issued yet.
  function TakeSlot(s: Disk): (r: (Disk, Ref)) requires s.g.span > 0 {
    if s.delValues != [] then
      (s.(delValues := s.delValues[..|s.delValues| - 1]), s.delValues[|s.delValues| - 1])
    else if s.cursor == 0 || s.cursor % s.g.span + 1 == s.g.slots then
      var c := s.filePages * s.g.span;
      (s.(filePages := s.filePages + 1, cursor := c), c)
    else
      (s.(cursor := s.cursor + 1), s.cursor + 1)
  }

  function WriteValue(s: Disk, slot: Ref, v: Value): (r: Disk) {
    s.(values := s.values[slot := v])
  }

  function NewValue(s: Disk, v: Value): (r: (Disk, Ref)) requires s.g.span > 0 {
    var (s1, slot) := TakeSlot(s);
    (WriteValue(s1, slot, v), slot)
  }
}
