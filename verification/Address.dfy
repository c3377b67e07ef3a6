/** Packed offsets and byte addresses (fileUtils.cpp). The shifts and masks of the program
    are read as multiplication, division and remainder by a power of two. */
module Address {
  import opened Pages
  import opened Accounts

  function Pow2(b: nat): (r: nat)
    ensures r > 0
  {
    if b == 0 then 1 else 2 * Pow2(b - 1)
  }

  method CountBits(n: nat) returns (count: nat)
    ensures n < Pow2(count)
    ensures n > 0 ==> count > 0 && Pow2(count - 1) <= n
    ensures n == 0 ==> count == 0
  {
    count := 0;
    var m := n;
    assert Within(n, 1, n);
    while m != 0
      invariant Within(m, Pow2(count), n)
      invariant m == 0 && n > 0 ==> count > 0 && Pow2(count - 1) <= n
      invariant n == 0 ==> m == 0 && count == 0
    {
      Halve(m, Pow2(count), n);
      count, m := count + 1, m / 2;
    }
    assert Within(0, Pow2(count), n);
  }

  // m is n with the low bits below p shifted out.
  ghost predicate Within(m: nat, p: nat, n: nat) {
    m * p <= n < (m + 1) * p
  }

  lemma Halve(m: nat, p: nat, n: nat)
    requires m > 0 && Within(m, p, n)
    ensures Within(m / 2, 2 * p, n) && p <= n
  {
    var q, r := m / 2, m % 2;
    assert m == 2 * q + r;
    assert (2 * q) * p == q * (2 * p);
    assert (2 * q + 2) * p == (q + 1) * (2 * p);
    MulMono(2 * q, m, p);
    MulMono(m + 1, 2 * q + 2, p);
    MulMono(1, m, p);
  }

  datatype Layout = Layout(pageSize: nat, valueSize: nat, bits: nat, header: nat) {
    ghost predicate OK() {
      valueSize > 0 && pageSize > 0 && pageSize % valueSize == 0 && 2 <= Slots() <= Span()
    }

    // How many values fit on a page.
    function Slots(): nat requires valueSize > 0 {
      pageSize / valueSize
    }

    function Span(): (r: nat) ensures r > 0 {
      Pow2(bits)
    }
  }

  // bSizeOfValueIdx: the fewest bits that are enough for every slot index of a page.
  method CalculateBitSizeValueIndex(pageSize: nat, valueSize: nat) returns (bits: nat)
    requires valueSize > 0
    ensures pageSize / valueSize <= Pow2(bits)
    ensures bits == 0 <==> pageSize / valueSize <= 1
    ensures bits > 0 ==> Pow2(bits - 1) < pageSize / valueSize
    ensures forall h: nat :: pageSize > 0 && pageSize % valueSize == 0 ==> (bits > 0 <==> Layout(pageSize, valueSize, bits, h).OK())
  {
    var n: int := pageSize / valueSize - 1;
    if n < 0 {
      return 0;
    }
    bits := CountBits(n);
  }

  function RealOffset(l: Layout, off: nat): nat {
    (off / l.Span()) * l.pageSize + (off % l.Span()) * l.valueSize + l.header
  }

  function PageNodeID(l: Layout, at: nat): nat requires at >= l.header && l.pageSize > 0 {
    ((at - l.header) / l.pageSize) * l.Span()
  }

  // The fewest bits are one number.
  lemma {:induction false} FewestBits(n: nat, a: nat, b: nat)
    requires n <= Pow2(a) && (a > 0 ==> Pow2(a - 1) < n)
    requires n <= Pow2(b) && (b > 0 ==> Pow2(b - 1) < n)
    ensures a == b
  {
    if a < b {
      Pow2Grows(a, b - 1);
    } else if b < a {
      Pow2Grows(b, a - 1);
    }
  }

  lemma {:induction false} Pow2Grows(a: nat, b: nat)
    requires a <= b
    ensures Pow2(a) <= Pow2(b)
    decreases b
  {
    if a < b {
      Pow2Grows(a, b - 1);
    }
  }

  // Pages follow each other behind the header, and slots on their page.
  lemma InAddressOrder(l: Layout, page: nat, i: nat)
    requires l.OK() && i < l.Span()
    ensures RealOffset(l, 0) == l.header
    ensures RealOffset(l, (page + 1) * l.Span()) == RealOffset(l, page * l.Span()) + l.pageSize
    ensures i + 1 < l.Span() ==> RealOffset(l, page * l.Span() + i + 1) == RealOffset(l, page * l.Span() + i) + l.valueSize
  {
    ModUnique(page * l.Span() + i, page, i, l.Span());
    ModUnique(page * l.Span(), page, 0, l.Span());
    ModUnique((page + 1) * l.Span(), page + 1, 0, l.Span());
    assert (page + 1) * l.pageSize == page * l.pageSize + l.pageSize;
    if i + 1 < l.Span() {
      ModUnique(page * l.Span() + i + 1, page, i + 1, l.Span());
      assert (i + 1) * l.valueSize == i * l.valueSize + l.valueSize;
    }
  }

  // A slot index that some page really has.
  ghost predicate SlotOK(l: Layout, off: nat) requires l.OK() {
    off % l.Span() < l.Slots()
  }

  lemma ZeroSlot(l: Layout)
    requires l.OK()
    ensures SlotOK(l, 0)
  {
  }

  lemma SlotBytes(l: Layout, i: nat)
    requires l.OK() && i < l.Slots()
    ensures (i + 1) * l.valueSize <= l.pageSize && i * l.valueSize < l.pageSize
  {
    MulMono(i + 1, l.Slots(), l.valueSize);
    assert l.Slots() * l.valueSize == l.pageSize;
    assert (i + 1) * l.valueSize == i * l.valueSize + l.valueSize;
  }

  // The page part and the slot index are recovered from the byte address.
  lemma Decode(l: Layout, off: nat)
    requires l.OK() && SlotOK(l, off)
    ensures var at := RealOffset(l, off);
            && at >= l.header
            && PageNodeID(l, at) == (off / l.Span()) * l.Span()
            && ((at - l.header) % l.pageSize) / l.valueSize == off % l.Span()
  {
    hide Pow2;
    var q, r := off / l.Span(), off % l.Span();
    SlotBytes(l, r);
    PageAndSlot(q, r, l.pageSize, l.valueSize);
    assert RealOffset(l, off) - l.header == q * l.pageSize + r * l.valueSize;
  }

  lemma PageAndSlot(q: nat, r: nat, pageSize: nat, valueSize: nat)
    requires pageSize > 0 && valueSize > 0 && r * valueSize < pageSize
    ensures (q * pageSize + r * valueSize) / pageSize == q
    ensures ((q * pageSize + r * valueSize) % pageSize) / valueSize == r
  {
    ModUnique(q * pageSize + r * valueSize, q, r * valueSize, pageSize);
    ModUnique(r * valueSize, r, 0, valueSize);
  }

  lemma PackedParts(l: Layout, off: nat)
    ensures off == (off / l.Span()) * l.Span() + off % l.Span()
    ensures (off / l.Span()) * l.Span() == Base(off, l.Span())
  {
  }

  // ----- disjointness of bytes -----

  // Bytes [a, a+n) and [b, b+m) do not meet.
  predicate Apart(a: nat, n: nat, b: nat, m: nat) {
    a + n <= b || b + m <= a
  }

  // The bytes of a slot stay on its page.
  lemma SlotInPage(l: Layout, off: nat)
    requires l.OK() && SlotOK(l, off)
    ensures var page := RealOffset(l, Base(off, l.Span()));
            page <= RealOffset(l, off) && RealOffset(l, off) + l.valueSize <= page + l.pageSize
  {
    var q, r := off / l.Span(), off % l.Span();
    PackedParts(l, off);
    ModUnique(q * l.Span(), q, 0, l.Span());
    SlotBytes(l, r);
    assert (r + 1) * l.valueSize == r * l.valueSize + l.valueSize;
  }

  lemma PagesApart(l: Layout, p: nat, q: nat)
    requires p % l.Span() == 0 && q % l.Span() == 0 && p != q
    ensures Apart(RealOffset(l, p), l.pageSize, RealOffset(l, q), l.pageSize)
  {
    PackedParts(l, p);
    PackedParts(l, q);
    var a, b := p / l.Span(), q / l.Span();
    if a < b {
      MulMono(a + 1, b, l.pageSize);
      assert (a + 1) * l.pageSize == a * l.pageSize + l.pageSize;
    } else {
      MulMono(b + 1, a, l.pageSize);
      assert (b + 1) * l.pageSize == b * l.pageSize + l.pageSize;
    }
  }

  // Distinct slots occupy disjoint bytes.
  lemma SlotsApart(l: Layout, x: nat, y: nat)
    requires l.OK() && SlotOK(l, x) && SlotOK(l, y) && x != y
    ensures Apart(RealOffset(l, x), l.valueSize, RealOffset(l, y), l.valueSize)
  {
    PackedParts(l, x);
    PackedParts(l, y);
    if Base(x, l.Span()) != Base(y, l.Span()) {
      BaseAligned(l, x);
      BaseAligned(l, y);
      PagesApart(l, Base(x, l.Span()), Base(y, l.Span()));
      SlotInPage(l, x);
      SlotInPage(l, y);
    } else {
      SamePageApart(l, x, y);
    }
  }

  lemma SamePageApart(l: Layout, x: nat, y: nat)
    requires x != y && Base(x, l.Span()) == Base(y, l.Span())
    ensures Apart(RealOffset(l, x), l.valueSize, RealOffset(l, y), l.valueSize)
  {
    PackedParts(l, x);
    PackedParts(l, y);
    var q, q1, span := x / l.Span(), y / l.Span(), l.Span();
    MulMono(q + 1, q1, span);
    MulMono(q1 + 1, q, span);
    assert (q + 1) * span == q * span + span && (q1 + 1) * span == q1 * span + span;
    assert q == q1;
    var i, j := x % span, y % span;
    if i < j {
      MulMono(i + 1, j, l.valueSize);
      assert (i + 1) * l.valueSize == i * l.valueSize + l.valueSize;
    } else {
      MulMono(j + 1, i, l.valueSize);
      assert (j + 1) * l.valueSize == j * l.valueSize + l.valueSize;
    }
  }

  lemma BaseAligned(l: Layout, x: nat)
    ensures Base(x, l.Span()) % l.Span() == 0
  {
    PackedParts(l, x);
    ModUnique((x / l.Span()) * l.Span(), x / l.Span(), 0, l.Span());
  }

  // A node page and a slot on another page occupy disjoint bytes.
  lemma PageAndSlotApart(l: Layout, p: nat, x: nat)
    requires l.OK() && p % l.Span() == 0 && SlotOK(l, x) && Base(x, l.Span()) != p
    ensures Apart(RealOffset(l, p), l.pageSize, RealOffset(l, x), l.valueSize)
  {
    BaseAligned(l, x);
    PagesApart(l, p, Base(x, l.Span()));
    SlotInPage(l, x);
  }

  // The allocator moves on after ceil(pageSize / valueSize) slots. All of them lie on the page
  // exactly when the value size divides the page size.
  function CeilSlots(pageSize: nat, valueSize: nat): nat requires valueSize > 0 {
    (pageSize + valueSize - 1) / valueSize
  }

  predicate SlotFits(i: nat, pageSize: nat, valueSize: nat) {
    (i + 1) * valueSize <= pageSize
  }

  lemma SlotsFitIffDivides(pageSize: nat, valueSize: nat)
    requires valueSize > 0
    ensures (forall i: nat :: i < CeilSlots(pageSize, valueSize) ==> SlotFits(i, pageSize, valueSize)) <==> pageSize % valueSize == 0
  {
    var q, r := pageSize / valueSize, pageSize % valueSize;
    assert pageSize == q * valueSize + r;
    assert (q + 1) * valueSize == q * valueSize + valueSize;
    if r == 0 {
      ModUnique(pageSize + valueSize - 1, q, valueSize - 1, valueSize);
      forall i: nat | i < q
        ensures SlotFits(i, pageSize, valueSize)
      {
        MulMono(i + 1, q, valueSize);
      }
    } else {
      ModUnique(pageSize + valueSize - 1, q + 1, r - 1, valueSize);
      assert !SlotFits(q, pageSize, valueSize);
    }
  }

  // Every node page and every issued slot has bytes of its own in the file.
  ghost predicate OwnBytes(l: Layout, s: Disk) {
    && (forall p, q :: p in s.pages && q in s.pages && p != q ==>
          Apart(RealOffset(l, p), l.pageSize, RealOffset(l, q), l.pageSize))
    && (forall x, y :: x in s.values && y in s.values && x != y ==>
          Apart(RealOffset(l, x), l.valueSize, RealOffset(l, y), l.valueSize))
    && (forall p, x :: p in s.pages && x in s.values ==>
          Apart(RealOffset(l, p), l.pageSize, RealOffset(l, x), l.valueSize))
  }

  lemma DiskOwnBytes(l: Layout, s: Disk)
    requires l.OK() && DiskOK(s) && s.g.slots == l.Slots() && s.g.span == l.Span()
    ensures OwnBytes(l, s)
  {
    hide RealOffset, Apart, Issued, Covered, Pow2;
    forall p, q | p in s.pages && q in s.pages && p != q
      ensures Apart(RealOffset(l, p), l.pageSize, RealOffset(l, q), l.pageSize)
    {
      PagesApart(l, p, q);
    }
    forall x, y | x in s.values && y in s.values && x != y
      ensures Apart(RealOffset(l, x), l.valueSize, RealOffset(l, y), l.valueSize)
    {
      SlotsApart(l, x, y);
    }
    forall p, x | p in s.pages && x in s.values
      ensures Apart(RealOffset(l, p), l.pageSize, RealOffset(l, x), l.valueSize)
    {
      PageAndSlotApart(l, p, x);
    }
  }
}
