/** The degree computed from the page and key sizes (fileUtils.cpp, calculateMaxDegree), in
    the source's 16-bit arithmetic: when the loop ends, and when its result is right. */
module MaxDegree {
  import opened Address

  const WORD: nat := 0x1_0000
  const SEGMENT_SIZE: nat := 8

  // The bytes of a serialized node of degree d: 2d children of 8 bytes, 2d-1 keys, one byte
  // of flag and two of size.
  function NodeBytes(d: nat, keySize: nat): nat
    requires d >= 1
  {
    16 * d + (2 * d - 1) * keySize + 3
  }

  function RoundUp(n: int): int {
    (n + 7) / 8 * 8
  }

  // What a node of degree d takes in whole segments.
  function Whole(d: nat, keySize: nat): (r: int)
    requires d >= 1
  {
    RoundUp(NodeBytes(d, keySize))
  }

  // A word's worth of an integer.
  function Word(n: int): nat {
    n % WORD
  }

  // What the loop compares with the page size, for a child pointer of 8 bytes.
  function PageNeed(d: nat, keySize: nat): nat
    requires d >= 1
  {
    var noOfKeys := Word(2 * d - 1);
    Padded(Word(2 * d * 8), noOfKeys * keySize)
  }

  // The children, the keys, and a padding that leaves room for flag and size.
  function Padded(children: nat, keys: nat): nat {
    var padding := SEGMENT_SIZE - keys % SEGMENT_SIZE;
    var withKeys := Word(children + keys);
    if padding >= 3 then Word(withKeys + padding) else Word(withKeys + padding + SEGMENT_SIZE)
  }

  // The loop leaves at degree d,
  ghost predicate FirstExit(d: nat, pageSize: nat, keySize: nat) {
    d >= 2 && PageNeed(d, keySize) >= pageSize && forall e :: 2 <= e < d ==> PageNeed(e, keySize) < pageSize
  }

  // with this result.
  ghost predicate Returns(r: nat, pageSize: nat, keySize: nat) {
    exists d: nat :: FirstExit(d, pageSize, keySize) && r == if PageNeed(d, keySize) == pageSize then d else d - 1
  }

  // The largest degree whose node, in whole segments, fits on the page, or 1 if none does.
  ghost predicate Right(r: nat, pageSize: nat, keySize: nat) {
    && r >= 1 && (r >= 2 ==> Whole(r, keySize) <= pageSize)
    && forall d :: d >= 2 && d > r ==> Whole(d, keySize) > pageSize
  }

  method CalculateMaxDegree(pageSize: nat, keySize: nat) returns (r: nat)
    requires pageSize <= MaxNeed(keySize) // otherwise the loop never ends
    ensures Returns(r, pageSize, keySize) && 1 <= r < WORD
  {
    ghost var stop := SomeExit(pageSize, keySize);
    var maxDeg := 2;
    while true
      invariant 2 <= maxDeg <= stop
      invariant forall e :: 2 <= e < maxDeg ==> PageNeed(e, keySize) < pageSize
      decreases stop - maxDeg
    {
      var need := PageNeed(maxDeg, keySize);
      if need > pageSize {
        return maxDeg - 1;
      }
      if need == pageSize {
        return maxDeg;
      }
      maxDeg := maxDeg + 1;
    }
  }

  // ----- the need is the node's size in whole segments, in a word -----

  lemma NeedIsWord(d: nat, keySize: nat)
    requires d >= 1
    ensures PageNeed(d, keySize) == Word(Whole(d, keySize))
  {
    hide Padded, Word, RoundUp, Whole;
    WordOf(2 * d * 8);
    WordOf(2 * d - 1);
    Product(Word(2 * d - 1), keySize);
    NeedOfParts(d, keySize, Word(2 * d * 8), Word(2 * d - 1), (2 * d * 8) / WORD, (2 * d - 1) / WORD);
  }

  lemma NeedOfParts(d: nat, keySize: nat, c: nat, w: nat, a: int, b: int)
    requires d >= 1 && 2 * d * 8 == WORD * a + c && 2 * d - 1 == WORD * b + w && c % 8 == 0 && w * keySize >= 0
    ensures Padded(c, w * keySize) == Word(Whole(d, keySize))
  {
    hide Padded, Word, RoundUp, NodeBytes;
    PaddedIsRounded(c, w * keySize);
    Distribute(2 * d - 1, w, b, keySize);
    Assembled(d, keySize, c, w * keySize, a, b * keySize);
    WordsApart(c + w * keySize + 3, a + b * keySize);
  }

  lemma Assembled(d: nat, keySize: nat, c: int, n: int, a: int, b: int)
    requires d >= 1 && 2 * d * 8 == WORD * a + c && (2 * d - 1) * keySize == n + WORD * b
    ensures NodeBytes(d, keySize) == (c + n + 3) + WORD * (a + b)
  {
  }

  lemma Distribute(x: int, y: int, b: int, k: int)
    requires x == y + WORD * b
    ensures x * k == y * k + WORD * (b * k)
  {
  }

  lemma Product(a: nat, b: nat)
    ensures a * b >= 0
  {
  }

  lemma WordOf(n: int)
    ensures n == WORD * (n / WORD) + Word(n) && Word(n) < WORD
    ensures n % 8 == Word(n) % 8
    ensures 0 <= n < WORD ==> Word(n) == n
  {
    var q, r := n / WORD, Word(n);
    assert n == WORD * q + r;
    SameClass(r, 8192 * q);
  }

  lemma SameClass(r: int, t: int)
    ensures (8 * t + r) % 8 == r % 8
  {
  }

  // Whole words make no difference.
  lemma WordsApart(n: int, t: int)
    ensures RoundUp(n + WORD * t) == RoundUp(n) + WORD * t
    ensures Word(n + WORD * t) == Word(n)
    ensures Word(RoundUp(n + WORD * t)) == Word(RoundUp(n))
  {
    hide Word;
    SegmentsApart(n, 8192 * t);
    WordTwice(n, t);
    WordTwice(RoundUp(n), t);
  }

  lemma WordTwice(n: int, t: int)
    ensures Word(n + WORD * t) == Word(n)
  {
  }

  lemma PaddedIsRounded(c: nat, n: nat)
    requires c % 8 == 0
    ensures Padded(c, n) == Word(RoundUp(c + n + 3))
  {
    hide Word;
    var p := SEGMENT_SIZE - n % SEGMENT_SIZE;
    var q := if p >= 3 then p else p + SEGMENT_SIZE;
    assert c + n + q == RoundUp(c + n + 3);
    WordOf(c + n);
    WordTwice(Word(c + n) + q, (c + n) / WORD);
  }

  lemma Linear(d: nat, keySize: nat)
    requires d >= 1
    ensures NodeBytes(d, keySize) == 3 - keySize + d * (16 + 2 * keySize)
  {
  }

  // After 32768 rounds the needs repeat, so a loop that ends ends before the degree wraps.
  lemma Periodic(d: nat, keySize: nat)
    requires d >= 1
    ensures PageNeed(d + 32768, keySize) == PageNeed(d, keySize)
  {
    hide RoundUp, Word, PageNeed;
    NeedIsWord(d, keySize);
    NeedIsWord(d + 32768, keySize);
    assert NodeBytes(d + 32768, keySize) == NodeBytes(d, keySize) + WORD * (8 + keySize);
    WordsApart(NodeBytes(d, keySize), 8 + keySize);
  }

  // ----- when the loop ends -----

  // The part of g that is a power of two, up to 2^n.
  function Pow2Part(g: nat, n: nat): (p: nat)
    ensures p >= 1
  {
    if n == 0 || g % 2 == 1 then 1 else 2 * Pow2Part(g / 2, n - 1)
  }

  // Successive needs differ by this, so all of them fall into one class modulo the step.
  function Step(keySize: nat): (m: nat)
    ensures m >= 8
  {
    var p := Pow2Part(16 + 2 * keySize, 16);
    if p >= 8 then p else 8
  }

  // The greatest need there is.
  function MaxNeed(keySize: nat): int {
    WORD - Step(keySize) + RoundUp(3 - keySize) % Step(keySize)
  }

  lemma {:induction false} PartDivides(g: nat, n: nat) returns (a: nat, b: nat)
    ensures g == Pow2Part(g, n) * a && Pow2(n) == Pow2Part(g, n) * b
    ensures Pow2Part(g, n) < 8 || (exists e: nat :: Pow2Part(g, n) == 8 * e)
  {
    if n == 0 || g % 2 == 1 {
      a, b := g, Pow2(n);
    } else {
      var p := Pow2Part(g / 2, n - 1);
      a, b := PartDivides(g / 2, n - 1);
      assert g == 2 * (g / 2) && 2 * (p * a) == (2 * p) * a && 2 * (p * b) == (2 * p) * b;
      if p >= 8 {
        var e: nat :| p == 8 * e;
        assert 2 * p == 8 * (2 * e);
      } else {
        PartsBelow8(g / 2, n - 1);
        assert 2 * p >= 8 ==> 2 * p == 8 * 1;
      }
    }
  }

  lemma {:induction false} PartsBelow8(g: nat, n: nat)
    ensures Pow2Part(g, n) < 8 ==> Pow2Part(g, n) in {1, 2, 4}
  {
    if n > 0 && g % 2 == 0 {
      PartsBelow8(g / 2, n - 1);
    }
  }

  // Multiples of an odd number reach every class modulo a power of two,
  lemma {:induction false} Odd(a: nat, t: int, n: nat) returns (d: nat, q: int)
    requires a % 2 == 1
    ensures d * a - t == Pow2(n) * q
  {
    if n == 0 {
      d, q := 0, -t;
    } else {
      var p := Pow2(n - 1);
      d, q := Odd(a, t, n - 1);
      if q % 2 == 0 {
        Halved(p, q);
        q := q / 2;
      } else {
        assert (d + p) * a - t == p * (q + a) by { assert (d + p) * a == d * a + p * a; }
        assert (q + a) % 2 == 0;
        Halved(p, q + a);
        d, q := d + p, (q + a) / 2;
      }
    }
  }

  lemma Halved(p: int, q: int)
    requires q % 2 == 0
    ensures p * q == (2 * p) * (q / 2)
  {
    var h := q / 2;
    assert q == 2 * h;
    assert p * (2 * h) == (2 * p) * h;
  }

  // and multiples of any number every class that is a multiple of its power of two.
  lemma {:induction false} Reached(g: nat, u: int, n: nat) returns (d: nat, q: int)
    ensures d * g - Pow2Part(g, n) * u == Pow2(n) * q
  {
    if n == 0 {
      d, q := 0, -u;
    } else if g % 2 == 1 {
      d, q := Odd(g, u, n);
    } else {
      var p := Pow2Part(g / 2, n - 1);
      d, q := Reached(g / 2, u, n - 1);
      Doubled(d, g / 2, p, u, Pow2(n - 1), q);
    }
  }

  lemma Doubled(d: int, g: int, p: int, u: int, w: int, q: int)
    requires d * g - p * u == w * q
    ensures d * (2 * g) - (2 * p) * u == (2 * w) * q
  {
  }

  lemma WordIsPow()
    ensures Pow2(16) == WORD
  {
    assert Pow2(4) == 16;
    assert Pow2(8) == 256;
    assert Pow2(12) == 4096;
  }

  // A number below a multiple of m stays below it by its class.
  lemma ClassBound(v: int, m: int, b: int, z: int, c: int)
    requires m > 0 && 0 <= c < m && v == m * z + c && v < m * b
    ensures v <= m * b - m + c
  {
    LessFactor(m, z, b);
    AtMostFactor(m, z, b - 1);
    Collect(m, b, -1, 0);
  }

  lemma LessFactor(m: int, z: int, b: int)
    requires m > 0 && m * z < m * b
    ensures z < b
  {
    if z >= b {
      AtMostFactor(m, b, z);
    }
  }

  lemma AtMostFactor(m: int, z: int, b: int)
    requires m > 0 && z <= b
    ensures m * z <= m * b
  {
    assert m * (b - z) >= 0;
    assert m * (b - z) == m * b - m * z;
  }

  lemma SegmentsApart(n: int, e: int)
    ensures RoundUp(n + 8 * e) == RoundUp(n) + 8 * e
  {
  }

  lemma NeverMore(d: nat, keySize: nat)
    requires d >= 1
    ensures PageNeed(d, keySize) <= MaxNeed(keySize)
  {
    hide RoundUp, Word, Pow2Part, PageNeed, Whole, NodeBytes;
    NeedIsWord(d, keySize);
    var p, r := Pow2Part(16 + 2 * keySize, 16), RoundUp(3 - keySize);
    WordOf(Whole(d, keySize));
    if p < 8 {
      SegmentsOfWhole(d, keySize);
      SegmentsOf(3 - keySize);
      SegmentsBelowWord(PageNeed(d, keySize));
    } else {
      var a, b := PartDivides(16 + 2 * keySize, 16);
      WordIsPow();
      WholeInSteps(d, keySize, p, a);
      var j := Whole(d, keySize) / WORD;
      Euclid(r, p);
      Grouped(p, b, j);
      Collect(p, r / p, d * a, b * j);
      ClassBound(PageNeed(d, keySize), p, b, r / p + d * a - b * j, r % p);
    }
  }

  lemma Grouped(p: int, b: int, j: int)
    ensures (p * b) * j == p * (b * j)
  {
  }

  // In steps of at least a segment, sizes grow by whole steps.
  lemma WholeInSteps(d: nat, keySize: nat, p: nat, a: nat)
    requires d >= 1 && 16 + 2 * keySize == p * a && exists e: nat :: p == 8 * e
    ensures Whole(d, keySize) == RoundUp(3 - keySize) + p * (d * a)
  {
    hide RoundUp;
    var e: nat :| p == 8 * e;
    Linear(d, keySize);
    Grouped(p, a, d);
    Grouped(8, e, d * a);
    assert d * (p * a) == p * (d * a) by { assert a * d == d * a; }
    SegmentsApart(3 - keySize, e * (d * a));
  }

  lemma Collect(p: int, x: int, y: int, z: int)
    ensures p * (x + y - z) == p * x + p * y - p * z
  {
  }

  lemma Euclid(r: int, p: int)
    requires p > 0
    ensures r == p * (r / p) + r % p && 0 <= r % p < p
  {
  }

  lemma SegmentsOf(n: int)
    ensures RoundUp(n) % 8 == 0
  {
  }

  lemma SegmentsOfWhole(d: nat, keySize: nat)
    requires d >= 1
    ensures Whole(d, keySize) % 8 == 0
  {
  }

  lemma SegmentsBelowWord(v: nat)
    requires v < WORD && v % 8 == 0
    ensures v <= WORD - 8
  {
  }

  // Some degree needs the greatest need.
  lemma Greatest(keySize: nat) returns (d: nat)
    ensures d >= 2 && PageNeed(d, keySize) == MaxNeed(keySize)
  {
    hide RoundUp, Word, Pow2Part, PageNeed, NodeBytes, MaxNeed;
    var g, p, r0 := 16 + 2 * keySize, Pow2Part(16 + 2 * keySize, 16), 3 - keySize;
    var a, b := PartDivides(g, 16);
    WordIsPow();
    var u := GreatestClass(keySize, b);
    var d0, q := Reached(g, u, 16);
    d := d0 + WORD;
    NeedIsWord(d, keySize);
    Linear(d, keySize);
    Shifted(d0, g, p * u, q);
    WordsApart(r0 + p * u, q + g);
    WordOf(MaxNeed(keySize));
    NeverMoreThanWord(keySize);
  }

  lemma Shifted(d: int, g: int, t: int, q: int)
    requires d * g - t == WORD * q
    ensures (d + WORD) * g == t + WORD * (q + g)
  {
    assert (d + WORD) * g == d * g + WORD * g;
  }

  lemma NeverMoreThanWord(keySize: nat)
    ensures MaxNeed(keySize) < WORD
  {
    Euclid(RoundUp(3 - keySize), Step(keySize));
  }

  // The class, among those that the sizes take modulo a word, that rounds up to the greatest need.
  lemma GreatestClass(keySize: nat, b: nat) returns (u: int)
    requires WORD == Pow2Part(16 + 2 * keySize, 16) * b
    ensures RoundUp(3 - keySize + Pow2Part(16 + 2 * keySize, 16) * u) == MaxNeed(keySize) >= 0
  {
    hide RoundUp, Pow2Part;
    var g, p, r0 := 16 + 2 * keySize, Pow2Part(16 + 2 * keySize, 16), 3 - keySize;
    if p < 8 {
      u := (WORD - 8 - r0) / p;
      SegmentsOf(r0);
      LastSegment(r0, p);
    } else {
      var a0, b0 := PartDivides(g, 16);
      var r := RoundUp(r0);
      Euclid(r, p);
      u := b - 1 - r / p;
      LastStep(r0, p, u);
      Collect(p, b, -1, r / p);
      Positive(p, b);
    }
  }

  lemma LastSegment(r0: int, p: nat)
    requires 1 <= p < 8
    ensures RoundUp(r0 + p * ((WORD - 8 - r0) / p)) == WORD - 8
  {
    Euclid(WORD - 8 - r0, p);
    SmallOffset(r0 + p * ((WORD - 8 - r0) / p));
  }

  lemma LastStep(r0: int, p: nat, u: int)
    requires exists e: nat :: p == 8 * e
    ensures RoundUp(r0 + p * u) == RoundUp(r0) + p * u
  {
    hide RoundUp;
    var e: nat :| p == 8 * e;
    Grouped(8, e, u);
    SegmentsApart(r0, e * u);
  }

  lemma Positive(p: int, b: int)
    requires p >= 1 && p * b >= 1
    ensures p * b >= p
  {
    LessFactor(p, 0, b);
    AtMostFactor(p, 1, b);
  }

  lemma SmallOffset(x: int)
    requires WORD - 16 < x <= WORD - 8
    ensures RoundUp(x) == WORD - 8
  {
  }

  // The loop ends exactly for the page sizes up to the greatest need.
  lemma EndsIff(pageSize: nat, keySize: nat)
    ensures (exists d :: FirstExit(d, pageSize, keySize)) <==> pageSize <= MaxNeed(keySize)
  {
    hide MaxNeed, PageNeed;
    if pageSize <= MaxNeed(keySize) {
      var stop := SomeExit(pageSize, keySize);
    }
    forall d | FirstExit(d, pageSize, keySize)
      ensures pageSize <= MaxNeed(keySize)
    {
      NeverMore(d, keySize);
    }
  }

  lemma SomeExit(pageSize: nat, keySize: nat) returns (d: nat)
    requires pageSize <= MaxNeed(keySize)
    ensures FirstExit(d, pageSize, keySize) && d < 32770
  {
    hide MaxNeed, PageNeed;
    var g := Greatest(keySize);
    d := LeastExit(g, pageSize, keySize);
    if d >= 32770 {
      Periodic(d - 32768, keySize);
      assert false;
    }
  }

  lemma {:induction false} LeastExit(e: nat, pageSize: nat, keySize: nat) returns (d: nat)
    requires e >= 2 && PageNeed(e, keySize) >= pageSize
    ensures FirstExit(d, pageSize, keySize) && d <= e
  {
    hide PageNeed;
    if x :| 2 <= x < e && PageNeed(x, keySize) >= pageSize {
      d := LeastExit(x, pageSize, keySize);
    } else {
      d := e;
    }
  }

  // ----- when the result is right -----

  // The first degree, from d on, whose node reaches the page size.
  function FirstReach(pageSize: nat, keySize: nat, d: nat): (r: nat)
    requires d >= 2
    ensures r >= d && Whole(r, keySize) >= pageSize
    ensures forall e :: d <= e < r ==> Whole(e, keySize) < pageSize
    decreases pageSize + 1 - d
  {
    Large(d, keySize);
    if Whole(d, keySize) >= pageSize then d else FirstReach(pageSize, keySize, d + 1)
  }

  lemma Large(d: nat, keySize: nat)
    requires d >= 1
    ensures Whole(d, keySize) >= 16 * d
  {
    Product(2 * d - 1, keySize);
  }

  lemma {:induction false} Growing(d: nat, e: nat, keySize: nat)
    requires 1 <= d < e
    ensures Whole(d, keySize) + 16 <= Whole(e, keySize) && NodeBytes(d, keySize) + 16 <= NodeBytes(e, keySize)
    decreases e
  {
    assert NodeBytes(e, keySize) == NodeBytes(e - 1, keySize) + 16 + 2 * keySize;
    if d < e - 1 {
      Growing(d, e - 1, keySize);
    }
  }

  // The result is right exactly if the first degree whose node reaches the page size does so
  // without leaving the word, or its remainder in the word still exceeds the page size.
  lemma RightIff(r: nat, pageSize: nat, keySize: nat)
    requires pageSize < WORD && Returns(r, pageSize, keySize)
    ensures var d0 := FirstReach(pageSize, keySize, 2);
            Right(r, pageSize, keySize) <==> Whole(d0, keySize) < WORD || PageNeed(d0, keySize) > pageSize
  {
    hide PageNeed, Whole, FirstReach;
    var d: nat :| FirstExit(d, pageSize, keySize) && r == if PageNeed(d, keySize) == pageSize then d else d - 1;
    var d0 := FirstReach(pageSize, keySize, 2);
    forall e | 2 <= e <= d0
      ensures Whole(e, keySize) < WORD ==> PageNeed(e, keySize) == Whole(e, keySize)
    {
      NeedIsWord(e, keySize);
      Large(e, keySize);
      WordOf(Whole(e, keySize));
    }
    assert d >= d0;
    forall e | e > d0
      ensures Whole(e, keySize) > Whole(d0, keySize)
    {
      Growing(d0, e, keySize);
    }
    if Right(r, pageSize, keySize) && Whole(d0, keySize) >= WORD {
      assert r < d0;
    }
  }

  // Where two keys are small beside a word, only the first condition can hold.
  lemma RightIffNoWrap(r: nat, pageSize: nat, keySize: nat)
    requires pageSize < WORD && Returns(r, pageSize, keySize) && Whole(2, keySize) < WORD
    ensures Right(r, pageSize, keySize) <==> Whole(FirstReach(pageSize, keySize, 2), keySize) < WORD
  {
    hide PageNeed, FirstReach, Word, Returns, Right;
    RightIff(r, pageSize, keySize);
    var d0 := FirstReach(pageSize, keySize, 2);
    if Whole(d0, keySize) >= WORD {
      OneDegreeMore(d0 - 1, keySize);
      NeedIsWord(d0, keySize);
      WrappedOnce(Whole(d0, keySize), Whole(d0 - 1, keySize), pageSize, keySize);
    }
  }

  lemma OneDegreeMore(d: nat, keySize: nat)
    requires d >= 1
    ensures Whole(d + 1, keySize) <= Whole(d, keySize) + 24 + 2 * keySize
  {
    assert NodeBytes(d + 1, keySize) == NodeBytes(d, keySize) + 16 + 2 * keySize;
  }

  lemma WrappedOnce(at: int, below: int, pageSize: nat, keySize: nat)
    requires below < pageSize < WORD <= at <= below + 24 + 2 * keySize && 3 * keySize + 35 < WORD
    ensures Word(at) <= pageSize
  {
  }

  // A right result names, on pages of whole segments, exactly the degrees whose nodes fit.
  lemma RightIsLargest(r: nat, pageSize: nat, keySize: nat)
    requires Right(r, pageSize, keySize)
    ensures r >= 2 ==> NodeBytes(r, keySize) <= pageSize
    ensures pageSize % 8 == 0 ==> forall d :: d >= 2 ==> (d <= r <==> NodeBytes(d, keySize) <= pageSize)
  {
    if r >= 2 {
      WholeSegments(r, keySize, pageSize);
    }
    if pageSize % 8 == 0 {
      forall d | d >= 2
        ensures d <= r <==> NodeBytes(d, keySize) <= pageSize
      {
        WholeSegments(d, keySize, pageSize);
        if d < r {
          Growing(d, r, keySize);
        }
      }
    }
  }

  // On other pages a degree whose node fits is refused exactly if it ends in the broken segment.
  lemma WholeSegments(d: nat, keySize: nat, pageSize: nat)
    requires d >= 1
    ensures Whole(d, keySize) <= pageSize ==> NodeBytes(d, keySize) <= pageSize
    ensures pageSize % 8 == 0 && NodeBytes(d, keySize) <= pageSize ==> Whole(d, keySize) <= pageSize
    ensures (NodeBytes(d, keySize) <= pageSize && Whole(d, keySize) > pageSize)
       <==> pageSize / 8 * 8 < NodeBytes(d, keySize) <= pageSize
  {
  }

  // ----- inputs -----

  lemma NonNegative(d: nat, keySize: nat)
    requires d >= 1
    ensures Whole(d, keySize) >= 0
  {
    assert (2 * d - 1) * keySize >= 0;
  }

  // A degree whose node fills the page to its last segment is returned, and is right.
  lemma FilledPage(d: nat, pageSize: nat, keySize: nat)
    requires d >= 2 && Whole(d, keySize) == pageSize < WORD
    ensures Returns(d, pageSize, keySize) && Right(d, pageSize, keySize)
  {
    hide PageNeed, RoundUp;
    forall e | e >= 2 && e != d
      ensures if e < d then Whole(e, keySize) < pageSize else Whole(e, keySize) > pageSize
    {
      if e < d {
        Growing(e, d, keySize);
      } else {
        Growing(d, e, keySize);
      }
    }
    forall e | 2 <= e <= d
      ensures PageNeed(e, keySize) == Whole(e, keySize)
    {
      NeedIsWord(e, keySize);
      NonNegative(e, keySize);
    }
    assert FirstExit(d, pageSize, keySize);
  }

  // With keys of 8 bytes the loop does not end for pages of 65512 bytes, but does, with the
  // right result, for pages of 65504.
  lemma EndsAt65504()
    ensures MaxNeed(8) == 65504
    ensures !exists d :: FirstExit(d, 65512, 8)
    ensures Returns(2047, 65504, 8) && Right(2047, 65504, 8)
  {
    hide PageNeed;
    Step8();
    EndsIff(65512, 8);
    forall d | 2 <= d <= 2047
      ensures PageNeed(d, 8) == 32 * d
    {
      NeedIsWord(d, 8);
    }
    assert FirstExit(2047, 65504, 8);
  }

  lemma Step8()
    ensures Step(8) == 32
  {
    assert Pow2Part(32, 16) == 2 * Pow2Part(16, 15);
    assert Pow2Part(16, 15) == 2 * Pow2Part(8, 14);
    assert Pow2Part(8, 14) == 2 * Pow2Part(4, 13);
    assert Pow2Part(4, 13) == 2 * Pow2Part(2, 12);
    assert Pow2Part(2, 12) == 2 * Pow2Part(1, 11) == 2;
  }

  // With keys of 1000 bytes and pages of 65000 the sum for degree 33 wraps to 0, the loop goes
  // on, and the result is 97, whose node takes 194555 bytes.
  lemma SpillsAt65000()
    ensures PageNeed(33, 1000) == 0 && NodeBytes(33, 1000) == 65531
    ensures Returns(97, 65000, 1000) && NodeBytes(97, 1000) == 194555 && !Right(97, 65000, 1000)
  {
    hide PageNeed, Word;
    Need1000(33, 1);
    Need1000(97, 2);
    Need1000(98, 2);
    forall d | 2 <= d < 98
      ensures PageNeed(d, 1000) < 65000
    {
      Need1000(d, if d < 33 then 0 else if d < 66 then 1 else 2);
    }
    assert FirstExit(98, 65000, 1000);
  }

  lemma Need1000(d: nat, wraps: nat)
    requires d >= 1 && wraps * WORD <= RoundUp(2016 * d - 997) < (wraps + 1) * WORD
    ensures PageNeed(d, 1000) == RoundUp(2016 * d - 997) - wraps * WORD
  {
    NeedIsWord(d, 1000);
    WordTwice(RoundUp(2016 * d - 997) - wraps * WORD, wraps);
  }
}
