/** The store's file as bytes: the page and value writes of a run, performed one after the other
    on the bytes, leave every node and every value readable at its address. */
module ByteFiles {
  import opened Pages
  import opened Insertion
  import opened Accounts
  import opened Address
  import opened KeyCodes
  import opened Codec
  import opened PageIO
  import opened Store
  import opened StoreRemoval
  import opened Runs

  const LEAF_FLAG: byte := 0
  const INTERNAL_FLAG: byte := 1
  const REMOVED_FLAG: byte := 3

  // Where things are, and how large a node and its keys are.
  datatype Format = Format(l: Layout, degree: nat, keySize: nat) {
    ghost predicate OK() {
      l.OK() && degree >= 2
    }

    function NodeSize(): nat requires degree >= 1 {
      MaxDegree.NodeBytes(degree, keySize)
    }
  }

  // The keys of a page are the codes of the strings in the key buffers.
  ghost predicate KeysStand(p: Codec.NodePage, keys: seq<Key>, keySize: nat) {
    && p.size == |keys| <= |p.keys|
    && forall i :: 0 <= i < |keys| ==> FitsKey(CStr(p.keys[i]), keySize) && Code(CStr(p.keys[i]), keySize) == keys[i]
  }

  // p, as it is written, stands for the page.
  ghost predicate Stands(p: Codec.NodePage, page: Page, fm: Format)
    requires fm.OK()
  {
    && Codec.PageOK(p, fm.degree, fm.keySize)
    && match page
       case LeafPage(keys, refs) => p.flag == LEAF_FLAG && KeysStand(p, keys, fm.keySize) && |refs| <= |p.childs| && p.childs[..|refs|] == refs
       case NodePage(keys, refs) => p.flag == INTERNAL_FLAG && KeysStand(p, keys, fm.keySize) && |refs| <= |p.childs| && p.childs[..|refs|] == refs
       case FreePage => p.flag == REMOVED_FLAG
  }

  // The flag's byte on disk: 0 for a leaf, 1 for an internal node, 3 for a removed one.
  lemma FlagOnDisk(p: Codec.NodePage, page: Page, fm: Format)
    requires fm.OK() && Stands(p, page, fm)
    ensures |Image(p)| == fm.NodeSize() >= 3
    ensures Image(p)[fm.NodeSize() - 3] == match page case LeafPage(_, _) => 0 case NodePage(_, _) => 1 case FreePage => 3
  {
    FieldsInImage(p, fm.degree, fm.keySize);
    ImageLength(p, fm.degree, fm.keySize);
  }

  // Pages of 4096 bytes with keys of 35 and values of 1024: the computed degree is 48, a node fills
  // its page, two bits tell the four slots, and a node goes through the buffer whole.
  lemma ShippedSizes(header: nat)
    ensures MaxDegree.Returns(48, 4096, 35) && MaxDegree.Right(48, 4096, 35)
    ensures var fm := Format(Layout(4096, 1024, 2, header), 48, 35);
            && fm.OK() && fm.NodeSize() == 4096 && fm.l.Slots() == 4 == fm.l.Span() && Pow2(1) < 4
            && WriteFits(48, 35) && ReadFits(48, 35) && !Straddles(4096)
  {
    MaxDegree.FilledPage(48, 4096, 35);
    OneBuffer(48, 35);
  }

  // A value's characters and a terminator, in a slot.
  ghost predicate ValueStands(b: seq<byte>, v: Value, valueSize: nat) {
    && |b| == valueSize && |v| < valueSize && b[|v|] == 0
    && forall i :: 0 <= i < |v| ==> b[i] as int == v[i] as int
  }

  // A C string.
  predicate ZeroFree(v: Value) {
    forall i :: 0 <= i < |v| ==> v[i] != '\0'
  }

  // The string in the slot is the value, character by character.
  lemma ValueAsString(b: seq<byte>, v: Value, valueSize: nat)
    requires ValueStands(b, v, valueSize) && ZeroFree(v)
    ensures Text(CStr(b)) == v
  {
    forall i | 0 <= i < |v|
      ensures b[i] != 0
    {
      assert v[i] as int != '\0' as int;
    }
    CStrIs(b, |v|);
  }

  function Text(s: seq<byte>): (v: Value)
    ensures |v| == |s| && forall i :: 0 <= i < |s| ==> v[i] as int == s[i] as int
  {
    seq(|s|, i requires 0 <= i < |s| => s[i] as int as char)
  }

  // ----- writes -----

  datatype Write = NodeWrite(id: Ref, page: Page, image: Codec.NodePage, beyond: byte) | ValueWrite(slot: Ref, value: Value, bytes: seq<byte>)

  ghost predicate WriteOK(w: Write, fm: Format) requires fm.OK() {
    match w
    case NodeWrite(_, page, p, _) => Stands(p, page, fm)
    case ValueWrite(_, v, b) => ValueStands(b, v, fm.l.valueSize)
  }

  // The pages and values of a disk after some writes.
  ghost function Logged(pages: map<Ref, Page>, values: map<Ref, Value>, log: seq<Write>): (map<Ref, Page>, map<Ref, Value>)
    decreases |log|
  {
    if log == [] then (pages, values)
    else match log[0]
      case NodeWrite(id, page, _, _) => Logged(pages[id := page], values, log[1..])
      case ValueWrite(slot, v, _) => Logged(pages, values[slot := v], log[1..])
  }

  function Put(f: seq<byte>, at: nat, b: seq<byte>): (r: seq<byte>)
    ensures |r| == |f|
  {
    if at + |b| <= |f| then f[..at] + b + f[at + |b|..] else f
  }

  // One write on the file; it is long enough for every page it has.
  function Performed(f: seq<byte>, w: Write, l: Layout): (r: seq<byte>)
    ensures |r| == |f|
  {
    match w
    case NodeWrite(id, _, p, beyond) => Put(f, RealOffset(l, id), AsWritten(Image(p), beyond))
    case ValueWrite(slot, _, b) => Put(f, RealOffset(l, slot), b)
  }

  function PerformedAll(f: seq<byte>, log: seq<Write>, l: Layout): (r: seq<byte>)
    ensures |r| == |f|
    decreases |log|
  {
    if log == [] then f else PerformedAll(Performed(f, log[0], l), log[1..], l)
  }

  // ----- what the bytes represent -----

  function Cut(f: seq<byte>, at: nat, n: nat): seq<byte> {
    if at + n <= |f| then f[at..at + n] else []
  }

  ghost predicate NodeAt(f: seq<byte>, id: Ref, page: Page, fm: Format) requires fm.OK() {
    RealOffset(fm.l, id) + fm.NodeSize() <= |f| &&
    exists p :: Stands(p, page, fm) && Cut(f, RealOffset(fm.l, id), fm.NodeSize()) == Image(p)
  }

  ghost predicate ValueAt(f: seq<byte>, slot: Ref, v: Value, fm: Format) requires fm.OK() {
    RealOffset(fm.l, slot) + fm.l.valueSize <= |f| && ValueStands(Cut(f, RealOffset(fm.l, slot), fm.l.valueSize), v, fm.l.valueSize)
  }

  ghost predicate Represents(f: seq<byte>, pages: map<Ref, Page>, values: map<Ref, Value>, fm: Format) requires fm.OK() {
    && (forall id :: id in pages ==> NodeAt(f, id, pages[id], fm))
    && (forall v :: v in values ==> ValueAt(f, v, values[v], fm))
  }

  // ----- a write far away -----

  lemma CutElsewhere(f: seq<byte>, at: nat, b: seq<byte>, from: nat, n: nat)
    requires Address.Apart(at, |b|, from, n)
    ensures Cut(Put(f, at, b), from, n) == Cut(f, from, n)
  {
    if at + |b| <= |f| && from + n <= |f| {
      var f1 := Put(f, at, b);
      assert forall i :: from <= i < from + n ==> f1[i] == f[i];
      assert f1[from..from + n] == f[from..from + n];
    }
  }

  lemma CutHere(f: seq<byte>, at: nat, b: seq<byte>)
    requires at + |b| <= |f|
    ensures Cut(Put(f, at, b), at, |b|) == b
  {
  }

  // The file holds every page of the disk s, each node fits on its page, and its size is not cut.
  ghost predicate Room(f: seq<byte>, s: Disk, fm: Format) requires fm.OK() {
    && DiskOK(s) && s.g == Geometry(fm.degree, fm.l.Slots(), fm.l.Span())
    && |f| >= fm.l.header + s.filePages * fm.l.pageSize && fm.NodeSize() <= fm.l.pageSize && !Straddles(fm.NodeSize())
  }

  // Every page and slot of the disk lies within the file.
  lemma PageInFile(f: seq<byte>, s: Disk, fm: Format, id: Ref)
    requires fm.OK() && Room(f, s, fm) && id % fm.l.Span() == 0 && id < s.filePages * fm.l.Span()
    ensures RealOffset(fm.l, id) + fm.l.pageSize <= |f|
  {
    hide DiskOK, Pow2;
    var q, span := id / fm.l.Span(), fm.l.Span();
    PackedParts(fm.l, id);
    if q >= s.filePages {
      MulMono(s.filePages, q, span);
      assert false;
    }
    MulMono(q + 1, s.filePages, fm.l.pageSize);
    assert (q + 1) * fm.l.pageSize == q * fm.l.pageSize + fm.l.pageSize;
  }

  lemma SlotInFile(f: seq<byte>, s: Disk, fm: Format, v: Ref)
    requires fm.OK() && Room(f, s, fm) && v in s.values
    ensures SlotOK(fm.l, v) && RealOffset(fm.l, v) + fm.l.valueSize <= |f|
  {
    hide Issued, Covered, Pow2, RealOffset;
    SlotInPage(fm.l, v);
    BaseAligned(fm.l, v);
    PageInFile(f, s, fm, Base(v, fm.l.Span()));
  }

  // One write keeps all nodes and values readable, for any pages and slots of the disk `top`.
  lemma NodeWritten(f: seq<byte>, id: Ref, page: Page, p: Codec.NodePage, pages: map<Ref, Page>, values: map<Ref, Value>, top: Disk, fm: Format)
    requires fm.OK() && Room(f, top, fm) && id in top.pages && Stands(p, page, fm)
    requires pages.Keys <= top.pages.Keys && values.Keys <= top.values.Keys && Represents(f, pages, values, fm)
    ensures Represents(Put(f, RealOffset(fm.l, id), Image(p)), pages[id := page], values, fm)
  {
    hide RealOffset, Image, Put, Cut, DiskOK, Stands, ValueStands, MaxDegree.NodeBytes, Layout.OK;
    var at := RealOffset(fm.l, id);
    var f1 := Put(f, at, Image(p));
    Written(p, page, f, id, top, fm);
    Separate(f, top, fm);
    var pages1 := pages[id := page];
    forall x | x in pages1
      ensures NodeAt(f1, x, pages1[x], fm)
    {
      if x == id {
        CutHere(f, at, Image(p));
      } else {
        CutElsewhere(f, at, Image(p), RealOffset(fm.l, x), fm.NodeSize());
        assert NodeAt(f, x, pages[x], fm);
      }
    }
    forall v | v in values
      ensures ValueAt(f1, v, values[v], fm)
    {
      CutElsewhere(f, at, Image(p), RealOffset(fm.l, v), fm.l.valueSize);
      assert ValueAt(f, v, values[v], fm);
    }
  }

  // A node's image has the size of a node and lies within the file.
  lemma Written(p: Codec.NodePage, page: Page, f: seq<byte>, id: Ref, top: Disk, fm: Format)
    requires fm.OK() && Room(f, top, fm) && id in top.pages && Stands(p, page, fm)
    ensures |Image(p)| == fm.NodeSize() && RealOffset(fm.l, id) + fm.NodeSize() <= |f|
  {
    hide Issued, Covered, RealOffset, MaxDegree.NodeBytes, Pow2, Image;
    ImageLength(p, fm.degree, fm.keySize);
    PageInFile(f, top, fm, id);
  }

  // Nodes and slots at different places do not meet.
  lemma Separate(f: seq<byte>, top: Disk, fm: Format)
    requires fm.OK() && Room(f, top, fm)
    ensures forall p, q :: p in top.pages && q in top.pages && p != q ==>
              Address.Apart(RealOffset(fm.l, p), fm.NodeSize(), RealOffset(fm.l, q), fm.NodeSize())
    ensures forall p, x :: p in top.pages && x in top.values ==>
              Address.Apart(RealOffset(fm.l, p), fm.NodeSize(), RealOffset(fm.l, x), fm.l.valueSize)
    ensures forall p, x :: p in top.pages && x in top.values ==>
              Address.Apart(RealOffset(fm.l, x), fm.l.valueSize, RealOffset(fm.l, p), fm.NodeSize())
    ensures forall x, y :: x in top.values && y in top.values && x != y ==>
              Address.Apart(RealOffset(fm.l, x), fm.l.valueSize, RealOffset(fm.l, y), fm.l.valueSize)
  {
    hide RealOffset, DiskOK, MaxDegree.NodeBytes, Layout.OK;
    DiskOwnBytes(fm.l, top);
  }

  lemma ValueWritten(f: seq<byte>, slot: Ref, v: Value, b: seq<byte>, pages: map<Ref, Page>, values: map<Ref, Value>, top: Disk, fm: Format)
    requires fm.OK() && Room(f, top, fm) && slot in top.values && ValueStands(b, v, fm.l.valueSize)
    requires pages.Keys <= top.pages.Keys && values.Keys <= top.values.Keys && Represents(f, pages, values, fm)
    ensures Represents(Put(f, RealOffset(fm.l, slot), b), pages, values[slot := v], fm)
  {
    hide RealOffset, Image, Put, Cut, DiskOK, Stands, MaxDegree.NodeBytes, Layout.OK;
    var at := RealOffset(fm.l, slot);
    var f1 := Put(f, at, b);
    SlotInFile(f, top, fm, slot);
    Separate(f, top, fm);
    forall x | x in pages
      ensures NodeAt(f1, x, pages[x], fm)
    {
      CutElsewhere(f, at, b, RealOffset(fm.l, x), fm.NodeSize());
      assert NodeAt(f, x, pages[x], fm);
    }
    var values1 := values[slot := v];
    forall x | x in values1
      ensures ValueAt(f1, x, values1[x], fm)
    {
      if x == slot {
        CutHere(f, at, b);
      } else {
        CutElsewhere(f, at, b, RealOffset(fm.l, x), fm.l.valueSize);
        assert ValueAt(f, x, values[x], fm);
      }
    }
  }

  // ----- whole logs -----

  ghost predicate LogOK(log: seq<Write>, fm: Format) requires fm.OK() {
    forall i :: 0 <= i < |log| ==> WriteOK(log[i], fm)
  }

  lemma {:induction false} LoggedGrows(pages: map<Ref, Page>, values: map<Ref, Value>, log: seq<Write>)
    ensures pages.Keys <= Logged(pages, values, log).0.Keys && values.Keys <= Logged(pages, values, log).1.Keys
    decreases |log|
  {
    if log != [] {
      match log[0]
      case NodeWrite(id, page, _, _) => LoggedGrows(pages[id := page], values, log[1..]);
      case ValueWrite(slot, v, _) => LoggedGrows(pages, values[slot := v], log[1..]);
    }
  }

  // Any writes that lead to pages and slots of the disk `top` leave the bytes representing them.
  lemma {:induction false} LogRepresents(f: seq<byte>, log: seq<Write>, pages: map<Ref, Page>, values: map<Ref, Value>, top: Disk, fm: Format)
    requires fm.OK() && Room(f, top, fm) && LogOK(log, fm) && Represents(f, pages, values, fm)
    requires var (p1, v1) := Logged(pages, values, log); p1.Keys <= top.pages.Keys && v1.Keys <= top.values.Keys
    ensures var (p1, v1) := Logged(pages, values, log); Represents(PerformedAll(f, log, fm.l), p1, v1, fm)
    decreases |log|
  {
    hide RealOffset, Image, Put, DiskOK, Stands, ValueStands, MaxDegree.NodeBytes, Layout.OK, Represents, Straddles;
    if log != [] {
      LoggedGrows(pages, values, log);
      assert WriteOK(log[0], fm);
      match log[0]
      case NodeWrite(id, page, p, _) =>
        LoggedGrows(pages[id := page], values, log[1..]);
        Written(p, page, f, id, top, fm);
        NodeWritten(f, id, page, p, pages, values, top, fm);
        LogRepresents(Performed(f, log[0], fm.l), log[1..], pages[id := page], values, top, fm);
      case ValueWrite(slot, v, b) =>
        LoggedGrows(pages, values[slot := v], log[1..]);
        ValueWritten(f, slot, v, b, pages, values, top, fm);
        LogRepresents(Performed(f, log[0], fm.l), log[1..], pages, values[slot := v], top, fm);
    }
  }

  // ----- runs -----

  // The writes of one step.
  ghost predicate StepLogged(st: Store, st1: Store, log: seq<Write>, fm: Format) requires fm.OK() {
    LogOK(log, fm) && Logged(st.disk.pages, st.disk.values, log) == (st1.disk.pages, st1.disk.values)
  }

  function PerformedRun(f: seq<byte>, logs: seq<seq<Write>>, l: Layout): (r: seq<byte>)
    ensures |r| == |f|
  {
    if logs == [] then f else PerformedAll(PerformedRun(f, logs[..|logs| - 1], l), logs[|logs| - 1], l)
  }

  // A run and the writes that it makes: first those of the new store, then those of each step.
  ghost predicate LoggedRun(ops: seq<Op>, sts: seq<Store>, rs: seq<Result>, logs: seq<seq<Write>>, fm: Format)
    requires fm.OK()
  {
    && IsRun(GeometryOf(fm), ops, sts, rs) && |logs| == |sts|
    && LogOK(logs[0], fm) && Logged(map[], map[], logs[0]) == (sts[0].disk.pages, sts[0].disk.values)
    && forall i :: 0 <= i < |ops| ==> StepLogged(sts[i], sts[i + 1], logs[i + 1], fm)
  }

  function GeometryOf(fm: Format): Geometry requires fm.l.valueSize > 0 {
    Geometry(fm.degree, fm.l.Slots(), fm.l.Span())
  }

  // If a node fits on its page, then after every run each page and each value can be read from
  // the bytes at its address, whatever the bytes were before.
  lemma RunBytes(ops: seq<Op>, sts: seq<Store>, rs: seq<Result>, limit: Key, logs: seq<seq<Write>>, f: seq<byte>, fm: Format)
    requires fm.OK() && Allowed(ops, limit) && LoggedRun(ops, sts, rs, logs, fm)
    requires fm.NodeSize() <= fm.l.pageSize && !Straddles(fm.NodeSize())
    requires |f| >= fm.l.header + sts[|ops|].disk.filePages * fm.l.pageSize
    ensures var s := sts[|ops|].disk; Represents(PerformedRun(f, logs, fm.l), s.pages, s.values, fm)
  {
    hide Inv, Step, New, Shaped, Means, MaxDegree.NodeBytes, StepLogged, LogOK;
    var n := |ops|;
    FormatGeometry(fm);
    RunReady(GeometryOf(fm), ops, sts, rs, limit, n);
    ReadyDisk(sts[n], limit);
    RunBytesUpTo(ops, sts, rs, limit, logs, f, fm, n);
    assert logs[..n + 1] == logs;
  }

  lemma FormatGeometry(fm: Format)
    requires fm.OK()
    ensures fm.l.valueSize > 0 && GeometryOK(GeometryOf(fm))
  {
  }

  lemma ReadyDisk(st: Store, limit: Key)
    requires Ready(st, limit)
    ensures DiskOK(st.disk)
  {
  }

  lemma {:induction false} RunBytesUpTo(ops: seq<Op>, sts: seq<Store>, rs: seq<Result>, limit: Key, logs: seq<seq<Write>>, f: seq<byte>, fm: Format, i: nat)
    requires fm.OK() && Allowed(ops, limit) && LoggedRun(ops, sts, rs, logs, fm)
    requires Room(f, sts[|ops|].disk, fm) && i <= |ops|
    ensures Represents(PerformedRun(f, logs[..i + 1], fm.l), sts[i].disk.pages, sts[i].disk.values, fm)
    decreases i
  {
    hide Inv, Step, New, Shaped, Means, MaxDegree.NodeBytes, DiskOK, LogOK, Represents, PerformedAll, Logged;
    var n := |ops|;
    FormatGeometry(fm);
    RunGrows(GeometryOf(fm), ops, sts, rs, limit, i, n);
    assert logs[..i + 1][..i] == logs[..i];
    if i == 0 {
      NothingRepresented(f, fm);
      LogRepresents(f, logs[0], map[], map[], sts[n].disk, fm);
      assert PerformedRun(f, logs[..0], fm.l) == f;
    } else {
      RunBytesUpTo(ops, sts, rs, limit, logs, f, fm, i - 1);
      assert StepLogged(sts[i - 1], sts[i], logs[i], fm);
      var s := sts[i - 1].disk;
      LogRepresents(PerformedRun(f, logs[..i], fm.l), logs[i], s.pages, s.values, sts[n].disk, fm);
    }
  }

  lemma NothingRepresented(f: seq<byte>, fm: Format)
    requires fm.OK()
    ensures Represents(f, map[], map[], fm)
  {
  }

  // And only then: with larger nodes, two pages side by side share bytes.
  lemma FitsIffApart(fm: Format)
    requires fm.OK()
    ensures fm.NodeSize() <= fm.l.pageSize <==>
            forall p: Ref, q: Ref :: p % fm.l.Span() == 0 && q % fm.l.Span() == 0 && p != q ==>
              Address.Apart(RealOffset(fm.l, p), fm.NodeSize(), RealOffset(fm.l, q), fm.NodeSize())
  {
    hide MaxDegree.NodeBytes, Pow2;
    var span := fm.l.Span();
    if fm.NodeSize() <= fm.l.pageSize {
      forall p: Ref, q: Ref | p % span == 0 && q % span == 0 && p != q
        ensures Address.Apart(RealOffset(fm.l, p), fm.NodeSize(), RealOffset(fm.l, q), fm.NodeSize())
      {
        PagesApart(fm.l, p, q);
      }
    } else {
      assert 0 % span == 0 && span % span == 0 && span / span == 1;
      assert RealOffset(fm.l, span) == RealOffset(fm.l, 0) + fm.l.pageSize;
      assert !Address.Apart(RealOffset(fm.l, 0), fm.NodeSize(), RealOffset(fm.l, span), fm.NodeSize());
    }
  }

  // ----- reading and writing one node -----

  function Codes(keys: seq<seq<byte>>, keySize: nat): seq<Key> {
    seq(|keys|, i requires 0 <= i < |keys| => Code(keys[i], keySize))
  }

  // The page that a node is, its last child being the next leaf at a leaf.
  function PageOfNode(n: NodeContent, keySize: nat): Page {
    if n.flag == LEAF_FLAG then LeafPage(Codes(n.keys, keySize), if |n.keys| <= |n.childs| then n.childs[..|n.keys|] else [])
    else if n.flag == INTERNAL_FLAG then Page.NodePage(Codes(n.keys, keySize), n.childs)
    else FreePage
  }

  // What is written for a node stands for its page.
  lemma MadeStands(n: NodeContent, scratch: seq<seq<byte>>, fm: Format)
    requires fm.OK() && NodeFits(n, fm.degree, fm.keySize) && |scratch| == 2 * fm.degree - 1
    requires n.flag in {LEAF_FLAG, INTERNAL_FLAG, REMOVED_FLAG}
    requires forall i :: 0 <= i < |scratch| ==> |scratch[i]| == fm.keySize
    ensures Stands(ToNodePage(n, scratch, fm.degree, fm.keySize), PageOfNode(n, fm.keySize), fm)
  {
    hide Pow256, Code;
    var p := ToNodePage(n, scratch, fm.degree, fm.keySize);
    ToAndFrom(n, scratch, fm.degree, fm.keySize);
    assert FromNodePage(p).keys == n.keys && FromNodePage(p).childs == n.childs;
    forall i | 0 <= i < |n.keys|
      ensures CStr(p.keys[i]) == n.keys[i]
    {
      assert FromNodePage(p).keys[i] == CStr(p.keys[i]);
    }
    assert p.childs[..|n.childs|] == n.childs;
    assert p.childs[..|n.keys|] == n.childs[..|n.keys|];
  }

  method FlushNodePage(file: array<byte>, offset: Ref, p: Codec.NodePage, beyond: byte, fm: Format) returns (ok: bool)
    requires fm.OK() && Codec.PageOK(p, fm.degree, fm.keySize)
    requires RealOffset(fm.l, offset) + fm.NodeSize() <= file.Length
    modifies file
    ensures ok == WriteFits(fm.degree, fm.keySize)
    ensures ok ==> forall page :: file[..] == Performed(old(file[..]), NodeWrite(offset, page, p, beyond), fm.l)
  {
    hide Image, AsWritten, RealOffset, WriteFits;
    ImageLength(p, fm.degree, fm.keySize);
    ok := WriteNodePageToFile(file, RealOffset(fm.l, offset), p, fm.degree, fm.keySize, beyond);
  }

  // A value goes, as strcpy leaves it in a buffer, into its slot.
  method UpdateValueToFile(file: array<byte>, offset: Ref, value: seq<byte>, scratch: seq<byte>, fm: Format)
    requires fm.OK() && CString(value) && |value| < |scratch| == fm.l.valueSize
    requires RealOffset(fm.l, offset) + fm.l.valueSize <= file.Length
    modifies file
    ensures var w := ValueWrite(offset, Text(value), StrCpy(value, scratch));
            WriteOK(w, fm) && ZeroFree(Text(value)) && file[..] == Performed(old(file[..]), w, fm.l)
  {
    hide RealOffset;
    MemCpy(file, RealOffset(fm.l, offset), StrCpy(value, scratch));
  }

  // A slot is read in pieces of at most one buffer.
  method GetValueFromFile(file: array<byte>, at: nat, valueSize: nat) returns (value: array<byte>)
    requires at + valueSize <= file.Length
    ensures fresh(value) && value[..] == file[at..at + valueSize]
  {
    value := new byte[valueSize];
    var readSize := 0;
    while readSize < valueSize
      invariant readSize <= valueSize && value[..readSize] == file[at..at + readSize]
    {
      var size := if IO_BUFFER_SIZE < valueSize - readSize then IO_BUFFER_SIZE else valueSize - readSize;
      var buffer := file[at + readSize..at + readSize + size];
      MemCpy(value, readSize, buffer);
      readSize := readSize + size;
    }
  }

  // A node that the bytes hold is read back, but for a size that is cut in two.
  method GetNodePage(file: array<byte>, offset: Ref, ghost page: Page, fm: Format) returns (q: ReadResult)
    requires fm.OK() && NodeAt(file[..], offset, page, fm) && fm.NodeSize() <= fm.l.pageSize
    ensures q.Read? <==> ReadFits(fm.degree, fm.keySize)
    ensures q.Read? && !Straddles(fm.NodeSize()) ==> Stands(q.page, page, fm)
    ensures q.Read? ==> exists p :: Stands(p, page, fm) && q.page == p.(size := q.page.size)
  {
    hide Image, RealOffset, MaxDegree.NodeBytes, Straddles, ReadFits;
    q := GetNodePageFromFile(file, RealOffset(fm.l, offset), fm.degree, fm.keySize, fm.l.pageSize);
    ghost var p :| Stands(p, page, fm) && Cut(file[..], RealOffset(fm.l, offset), fm.NodeSize()) == Image(p);
    if q.Read? {
      ImageLength(p, fm.degree, fm.keySize);
      ImageLength(q.page, fm.degree, fm.keySize);
      if !Straddles(fm.NodeSize()) {
        ImageDetermines(p, q.page, fm.degree, fm.keySize);
      } else {
        FrontDetermines(p, q.page, fm.degree, fm.keySize);
      }
    }
  }
}
