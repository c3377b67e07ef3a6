/** The allocators keep the books (fileUtils.cpp, appendNodePageToFile and insertNewValueToFile). */
module Allocators {
  import opened Pages
  import opened Accounts

  // s1 differs from s at most in the page contents, page allocation and free page stack.
  ghost predicate SameValues(s: Disk, s1: Disk) {
    s1.g == s.g && s1.values == s.values && s1.delValues == s.delValues && s1.cursor == s.cursor
  }

  ghost predicate SameNodes(s: Disk, s1: Disk) {
    s1.g == s.g && s1.pages == s.pages && s1.delNodes == s.delNodes
  }

  // From s to s1 the owner of x becomes the owner of x1; every page keeps one owner
  // and stays allocated.
  ghost predicate NodesKept(x: multiset<Ref>, s: Disk, x1: multiset<Ref>, s1: Disk) {
    && s1.g == s.g
    && (forall p: Ref :: HeldNode(x1, s1, p) == HeldNode(x, s, p))
    && (forall p: Ref :: p in s.pages ==> p in s1.pages)
  }

  lemma NodesThen(x: multiset<Ref>, s: Disk, x1: multiset<Ref>, s1: Disk, x2: multiset<Ref>, s2: Disk)
    requires NodesKept(x, s, x1, s1) && NodesKept(x1, s1, x2, s2)
    ensures NodesKept(x, s, x2, s2)
  {
    forall p: Ref
      ensures HeldNode(x2, s2, p) == HeldNode(x, s, p)
    {
      assert HeldNode(x1, s1, p) == HeldNode(x, s, p);
    }
  }

  // An appended node gets a page that nobody else owns.
  lemma AppendNodeBooks(x: multiset<Ref>, s: Disk, page: Page)
    requires DiskOK(s)
    ensures var (s1, id) := AppendNode(s, page);
            && DiskOK(s1) && SameValues(s, s1) && NodesKept(x, s, x + multiset{id}, s1)
            && s1.pages == s.pages[id := page]
            && (id in s.pages ==> id in s.delNodes)
  {
    if s.delNodes != [] {
      ReusedPage(s, page);
    } else {
      NewNodePage(s, page);
    }
  }

  lemma ReusedPage(s: Disk, page: Page)
    requires DiskOK(s) && s.delNodes != []
    ensures var (s1, id) := AppendNode(s, page);
            && DiskOK(s1) && id in s.delNodes
            && multiset(s.delNodes) == multiset(s1.delNodes) + multiset{id}
  {
    PopBooks(s.delNodes);
  }

  lemma NewNodePage(s: Disk, page: Page)
    requires DiskOK(s) && s.delNodes == []
    ensures DiskOK(AppendNode(s, page).0) && AppendNode(s, page).1 !in s.pages
  {
    GrowFile(s);
  }

  // Growing the file by a page leaves every allocated offset below the old end.
  lemma GrowFile(s: Disk)
    requires DiskOK(s)
    ensures var c := s.filePages * s.g.span;
            && c % s.g.span == 0 && Base(c, s.g.span) == c && c !in s.pages && c !in s.values
            && (s.filePages + 1) * s.g.span == c + s.g.span
  {
    EndOfFile(s.filePages, s.g.span);
  }

  lemma FlushBooks(x: multiset<Ref>, s: Disk, id: Ref, page: Page)
    requires DiskOK(s) && id in s.pages
    ensures DiskOK(Flush(s, id, page)) && SameValues(s, Flush(s, id, page))
    ensures NodesKept(x, s, x, Flush(s, id, page))
  {
  }

  // A freed page moves from the tree to the free stack.
  lemma FreeNodeBooks(x: multiset<Ref>, s: Disk, id: Ref)
    requires DiskOK(s) && id in s.pages
    ensures DiskOK(FreeNode(s, id)) && SameValues(s, FreeNode(s, id))
    ensures NodesKept(x + multiset{id}, s, x, FreeNode(s, id))
  {
    assert multiset(s.delNodes + [id]) == multiset(s.delNodes) + multiset{id};
  }

  // Exactly one value is written: into a new key's own slot, or into the slot that the
  // key already had.
  ghost predicate ValuePlaced(s: Disk, s1: Disk, slot: Ref, isNew: bool, v: Value) {
    && s1.g == s.g && s1.values == s.values[slot := v] && (Issued(s) ==> Issued(s1))
    && (if isNew then SlotTaken(s, s1, slot)
        else slot in s.values && s1.delValues == s.delValues && s1.cursor == s.cursor)
  }

  // The slot belonged to nobody and now has an owner outside the free stack.
  ghost predicate SlotTaken(s: Disk, s1: Disk, slot: Ref) {
    && (if slot in s.values then slot in s.delValues else s.delValues == [])
    && (forall p: Ref :: HeldSlot(multiset{slot}, s1, p) == HeldSlot(multiset{}, s, p))
  }

  // A new value gets a slot that nobody else owns.
  lemma NewValueBooks(s: Disk, v: Value)
    requires DiskOK(s)
    ensures var (s1, slot) := NewValue(s, v);
            DiskOK(s1) && SameNodes(s, s1) && ValuePlaced(s, s1, slot, true, v)
  {
    hide Issued;
    if Issued(s) {
      NewValueIssued(s, v);
    }
    if s.delValues != [] {
      ReusedSlotBooks(s, v);
    } else if s.cursor == 0 || s.cursor % s.g.span + 1 == s.g.slots {
      NewValuePage(s, v);
    } else {
      NextSlotBooks(s, v);
    }
  }

  lemma ReusedSlotBooks(s: Disk, v: Value)
    requires DiskOK(s) && s.delValues != []
    ensures var (s1, slot) := NewValue(s, v);
            && DiskOK(s1) && slot in s.delValues
            && multiset(s.delValues) == multiset(s1.delValues) + multiset{slot}
  {
    var (s1, slot) := NewValue(s, v);
    PopBooks(s.delValues);
    WriteValueBooks(s, slot, v);
  }

  lemma NewValuePage(s: Disk, v: Value)
    requires DiskOK(s) && s.delValues == []
    requires s.cursor == 0 || s.cursor % s.g.span + 1 == s.g.slots
    ensures var (s1, slot) := NewValue(s, v);
            DiskOK(s1) && slot !in s.values
  {
    GrowFile(s);
    assert s.filePages * s.g.span != 0;
    forall u | u in s.values
      ensures Base(u, s.g.span) != s.filePages * s.g.span
    {
      BaseBelow(u, s.g.span);
    }
  }

  lemma NextSlotBooks(s: Disk, v: Value)
    requires DiskOK(s) && s.delValues == []
    requires s.cursor != 0 && s.cursor % s.g.span + 1 != s.g.slots
    ensures var (s1, slot) := NewValue(s, v);
            DiskOK(s1) && slot !in s.values
  {
    NextSlot(s.cursor, s.g.span);
    InSamePage(s.cursor, s.filePages, s.g.span);
  }

  // With a cursor that was never set back, the slots issued stay those of the value pages.
  lemma NewValueIssued(s: Disk, v: Value)
    requires DiskOK(s) && Issued(s)
    ensures Issued(NewValue(s, v).0)
  {
    var s1 := NewValue(s, v).0;
    if s.delValues == [] && (s.cursor == 0 || s.cursor % s.g.span + 1 == s.g.slots) {
      GrowFile(s);
      assert s1.cursor != 0;
    } else if s.delValues == [] {
      NextSlot(s.cursor, s.g.span);
    }
    forall w, u | u in s1.values && OnPageOf(w, u, s1)
      ensures w in s1.values
    {
      PageIssued(s, v, w, u);
    }
  }

  lemma PageIssued(s: Disk, v: Value, w: Ref, u: Ref)
    requires DiskOK(s) && Issued(s)
    requires var s1 := NewValue(s, v).0; u in s1.values && OnPageOf(w, u, s1)
    ensures w in NewValue(s, v).0.values
  {
    var (s1, c) := NewValue(s, v);
    if s.delValues != [] {
      assert u in s.values ==> OnPageOf(w, u, s);
      assert u == c ==> c in s.values;
    } else if s.cursor == 0 || s.cursor % s.g.span + 1 == s.g.slots {
      GrowFile(s);
      if u != c {
        assert OnPageOf(w, u, s);
      } else {
        BaseBelow(w, s.g.span);
      }
    } else if w != c {
      NextSlot(s.cursor, s.g.span);
      assert u == c ==> OnPageOf(w, s.cursor, s);
      assert u != c ==> OnPageOf(w, u, s);
    }
  }

  lemma InSamePage(c: nat, pages: nat, span: nat)
    requires span > 0 && c < pages * span && c % span + 1 < span
    ensures c + 1 < pages * span
  {
    var q, r := c / span, c % span;
    MulMono(pages, q, span);
    MulMono(q + 1, pages, span);
    assert (q + 1) * span == q * span + span;
  }

  lemma WriteValueBooks(s: Disk, slot: Ref, v: Value)
    requires DiskOK(s) && slot in s.values
    ensures DiskOK(WriteValue(s, slot, v)) && SameNodes(s, WriteValue(s, slot, v))
    ensures forall x, p: Ref :: HeldSlot(x, WriteValue(s, slot, v), p) == HeldSlot(x, s, p)
    ensures Issued(s) ==> Issued(WriteValue(s, slot, v))
  {
    var s1 := WriteValue(s, slot, v);
    if Issued(s) {
      forall w, u | u in s1.values && OnPageOf(w, u, s1)
        ensures w in s1.values
      {
        assert OnPageOf(w, u, s);
      }
    }
  }

  // An issued slot that is neither the last one issued nor the last of its page has an issued
  // slot after it.
  lemma NextIssued(s: Disk, c: Ref)
    requires DiskOK(s) && Issued(s) && c in s.values && c != s.cursor && c % s.g.span + 1 != s.g.slots
    ensures c + 1 in s.values
  {
    NextSlot(c, s.g.span);
    assert OnPageOf(c + 1, c, s);
  }

  // A store opened again with the cursor c that its header page names, while cursor slots were
  // issued after that header was written: the next new value gets a slot that is in use exactly
  // if c is behind and not the last slot of its page.
  lemma StaleCursor(s: Disk, c: Ref)
    requires DiskOK(s) && Issued(s) && s.delValues == [] && (c == 0 || c in s.values)
    ensures TakeSlot(s.(cursor := c)).1 in s.values <==> c != 0 && c != s.cursor && c % s.g.span + 1 != s.g.slots
  {
    hide Issued, Covered;
    GrowFile(s);
    if c != 0 && c % s.g.span + 1 != s.g.slots {
      NextSlot(c, s.g.span);
      assert TakeSlot(s.(cursor := c)).1 == c + 1;
      if c != s.cursor {
        NextIssued(s, c);
      }
    }
  }
}
