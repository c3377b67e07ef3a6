/** Who owns which page and which value slot: the books that the allocators keep. */
module Accounts {
  import opened Pages

  // The first offset of the page that r lies on.
  function Base(r: Ref, span: nat): Ref requires span > 0 {
    BaseBelow(r, span);
    r - r % span
  }

  lemma BaseBelow(r: Ref, span: nat)
    requires span > 0
    ensures 0 <= r % span <= r
  {
    if r < span {
      assert r % span == r;
    }
  }

  ghost predicate DiskOK(s: Disk) {
    && GeometryOK(s.g)
    // node pages are whole pages of the file, value slots lie on other pages
    && (forall id :: id in s.pages ==> id % s.g.span == 0 && id < s.filePages * s.g.span)
    && (forall v :: v in s.values ==> v % s.g.span < s.g.slots && v < s.filePages * s.g.span && Base(v, s.g.span) !in s.pages)
    && 0 in s.pages
    // only allocated pages and slots are on the free stacks
    && (forall id :: id in s.delNodes ==> id in s.pages)
    && (forall v :: v in s.delValues ==> v in s.values)
    && CursorOK(s)
    && Covered(s)
  }

  // The cursor is unset or an issued slot, and no slot after it on its page has been issued.
  ghost predicate CursorOK(s: Disk) requires s.g.span > 0 {
    && (s.cursor == 0 || s.cursor in s.values)
    && (forall v :: v in s.values && Base(v, s.g.span) == Base(s.cursor, s.g.span) ==> v <= s.cursor)
  }

  // The slots issued are exactly the slots of the value pages, up to the cursor on its page.
  ghost predicate Issued(s: Disk) {
    && s.g.span > 0 && (s.cursor == 0 ==> s.values == map[])
    && (forall v, w :: v in s.values && OnPageOf(w, v, s) ==> w in s.values)
  }

  ghost predicate OnPageOf(w: Ref, v: Ref, s: Disk) requires s.g.span > 0 {
    && w % s.g.span < s.g.slots
    && Base(w, s.g.span) == Base(v, s.g.span)
    && (Base(v, s.g.span) == Base(s.cursor, s.g.span) ==> w <= s.cursor)
  }

  // Every page of the file is a node page or a value page.
  ghost predicate Covered(s: Disk) {
    forall p: nat {:trigger p * s.g.span} :: p < s.filePages ==> p * s.g.span in s.pages || p * s.g.span in s.values
  }

  // ----- the books -----

  // What x and the free stack claim of page p, minus what is there to claim.
  ghost function HeldNode(x: multiset<Ref>, s: Disk, p: Ref): int {
    x[p] as int + multiset(s.delNodes)[p] as int - (if p in s.pages then 1 else 0)
  }

  ghost function HeldSlot(x: multiset<Ref>, s: Disk, p: Ref): int {
    x[p] as int + multiset(s.delValues)[p] as int - (if p in s.values then 1 else 0)
  }

  // Balanced books: every allocated page has exactly one owner.
  lemma NodeBooks(x: multiset<Ref>, s: Disk)
    requires forall p: Ref :: HeldNode(x, s, p) == 0
    ensures multiset(s.pages.Keys) == x + multiset(s.delNodes)
    ensures forall p: Ref :: x[p] + multiset(s.delNodes)[p] <= 1
  {
    forall p: Ref
      ensures x[p] + multiset(s.delNodes)[p] <= 1
      ensures multiset(s.pages.Keys)[p] == (x + multiset(s.delNodes))[p]
    {
      assert HeldNode(x, s, p) == 0;
    }
  }

  lemma SlotBooks(x: multiset<Ref>, s: Disk)
    requires forall p: Ref :: HeldSlot(x, s, p) == 0
    ensures multiset(s.values.Keys) == x + multiset(s.delValues)
  {
    forall p: Ref
      ensures multiset(s.values.Keys)[p] == (x + multiset(s.delValues))[p]
    {
      assert HeldSlot(x, s, p) == 0;
    }
  }

  lemma PopBooks(xs: seq<Ref>)
    requires xs != []
    ensures multiset(xs) == multiset(xs[..|xs| - 1]) + multiset{xs[|xs| - 1]}
    ensures xs[|xs| - 1] in xs
  {
    assert xs == xs[..|xs| - 1] + [xs[|xs| - 1]];
  }

  // ----- arithmetic of packed offsets -----

  lemma EndOfFile(n: nat, span: nat)
    requires span > 0
    ensures (n * span) % span == 0 && (n + 1) * span == n * span + span
    ensures Base(n * span, span) == n * span
  {
    assert (0 + n * span) % span == 0 by {
      ModOfMultiple(n, span);
    }
  }

  lemma {:induction false} ModOfMultiple(n: nat, span: nat)
    requires span > 0
    ensures (n * span) % span == 0
  {
    if n > 0 {
      ModOfMultiple(n - 1, span);
      assert n * span == (n - 1) * span + span;
      ModStep((n - 1) * span, span);
    }
  }

  lemma ModStep(a: nat, span: nat)
    requires span > 0
    ensures (a + span) % span == a % span
  {
    var q := a / span;
    assert a + span == (q + 1) * span + a % span;
    ModUnique(a + span, q + 1, a % span, span);
  }

  lemma ModUnique(a: nat, q: nat, r: nat, span: nat)
    requires span > 0 && a == q * span + r && r < span
    ensures a % span == r && a / span == q
  {
    var q1 := a / span;
    MulMono(q + 1, q1, span);
    MulMono(q1 + 1, q, span);
  }

  lemma MulMono(a: nat, b: nat, c: nat)
    ensures a <= b ==> a * c <= b * c
  {
    if a <= b {
      assert (b - a) * c >= 0;
    }
  }

  lemma NextSlot(c: nat, span: nat)
    requires span > 0 && c % span + 1 < span
    ensures (c + 1) % span == c % span + 1 && Base(c + 1, span) == Base(c, span)
  {
    ModUnique(c + 1, c / span, c % span + 1, span);
  }
}
