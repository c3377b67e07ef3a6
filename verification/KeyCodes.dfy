/** Keys are C strings that fit in a key buffer, compared by strcmp. Their codes, the numbers
    with these bytes as base-256 digits padded with zeros, are in the same order. */
module KeyCodes {
  import opened Pages

  newtype byte = x: int | 0 <= x < 256

  // A C string: the bytes before the terminating zero.
  ghost predicate CString(s: seq<byte>) {
    forall i :: 0 <= i < |s| ==> s[i] != 0
  }

  // A string and its terminator fit in a buffer of keySize bytes.
  ghost predicate FitsKey(s: seq<byte>, keySize: nat) {
    CString(s) && |s| < keySize
  }

  // The first differing bytes decide; the terminator is the least byte.
  function Strcmp(a: seq<byte>, b: seq<byte>): int {
    if a == [] && b == [] then 0
    else if a == [] then -1
    else if b == [] then 1
    else if a[0] != b[0] then (a[0] as int) - (b[0] as int)
    else Strcmp(a[1..], b[1..])
  }

  // What the strings begin with in common does not matter; then the first bytes decide, or the end of one.
  lemma {:induction false} StrcmpAfter(p: seq<byte>, a: seq<byte>, b: seq<byte>)
    ensures Strcmp(p + a, p + b) == Strcmp(a, b)
    ensures a != [] && b != [] && a[0] != b[0] ==> Strcmp(p + a, p + b) == a[0] as int - b[0] as int
    ensures b != [] ==> Strcmp(p, p + b) < 0 < Strcmp(p + b, p)
    ensures Strcmp(p, p) == 0
  {
    if p == [] {
      assert p + a == a && p + b == b;
    } else {
      StrcmpAfter(p[1..], a, b);
      assert (p + a)[1..] == p[1..] + a && (p + b)[1..] == p[1..] + b;
    }
  }

  function Pow256(n: nat): (p: nat)
    ensures p > 0
  {
    if n == 0 then 1 else 256 * Pow256(n - 1)
  }

  function Digit(s: seq<byte>): nat {
    if s == [] then 0 else s[0] as nat
  }

  function Tail(s: seq<byte>): seq<byte> {
    if s == [] then [] else s[1..]
  }

  function Code(s: seq<byte>, n: nat): Key {
    if n == 0 then 0 else Digit(s) * Pow256(n - 1) + Code(Tail(s), n - 1)
  }

  lemma {:induction false} CodeBounds(s: seq<byte>, n: nat)
    ensures 0 <= Code(s, n) < Pow256(n)
  {
    if n > 0 {
      CodeBounds(Tail(s), n - 1);
      DigitRoom(Digit(s), Code(Tail(s), n - 1), Pow256(n - 1));
    }
  }

  lemma DigitRoom(d: nat, c: Key, p: nat)
    requires d < 256 && 0 <= c < p
    ensures 0 <= d * p + c < 256 * p
  {
    assert (255 - d) * p >= 0;
    assert d * p + (255 - d) * p == 255 * p;
  }

  // A smaller leading digit makes a smaller number.
  lemma DigitLess(d: nat, e: nat, c: Key, k: Key, p: nat)
    requires 0 <= c < p && 0 <= k < p && d < e
    ensures d * p + c < e * p + k
  {
    var gap := e - d - 1;
    assert e * p == d * p + p + gap * p;
    assert gap * p >= 0;
  }

  // Codes are ordered as strcmp orders the strings, and equal only for equal strings.
  lemma {:induction false} CodeOrder(a: seq<byte>, b: seq<byte>, n: nat)
    requires CString(a) && CString(b) && |a| <= n && |b| <= n
    ensures Strcmp(a, b) < 0 <==> Code(a, n) < Code(b, n)
    ensures Strcmp(a, b) == 0 <==> Code(a, n) == Code(b, n)
    ensures Code(a, n) == Code(b, n) <==> a == b
  {
    if n > 0 {
      CodeBounds(Tail(a), n - 1);
      CodeBounds(Tail(b), n - 1);
      CodeOrder(Tail(a), Tail(b), n - 1);
      var x, y := Code(Tail(a), n - 1), Code(Tail(b), n - 1);
      if Digit(a) < Digit(b) {
        DigitLess(Digit(a), Digit(b), x, y, Pow256(n - 1));
      } else if Digit(b) < Digit(a) {
        DigitLess(Digit(b), Digit(a), y, x, Pow256(n - 1));
      }
      HeadAndTail(a, b);
    }
  }

  lemma HeadAndTail(a: seq<byte>, b: seq<byte>)
    requires CString(a) && CString(b)
    ensures a == b <==> Digit(a) == Digit(b) && Tail(a) == Tail(b)
    ensures Strcmp(a, b) == if Digit(a) == Digit(b) then Strcmp(Tail(a), Tail(b))
                            else if a == [] then -1 else if b == [] then 1 else Digit(a) - Digit(b)
  {
    if a != [] && b != [] {
      assert a == [a[0]] + a[1..] && b == [b[0]] + b[1..];
    }
  }

  // The keys a store accepts have codes below its limit, distinct and in strcmp order.
  lemma KeysBelowLimit(a: seq<byte>, b: seq<byte>, keySize: nat)
    requires FitsKey(a, keySize) && FitsKey(b, keySize)
    ensures 0 <= Code(a, keySize) < Pow256(keySize)
    ensures Code(a, keySize) < Code(b, keySize) <==> Strcmp(a, b) < 0
    ensures Code(a, keySize) == Code(b, keySize) <==> a == b
  {
    CodeBounds(a, keySize);
    CodeOrder(a, b, keySize);
  }
}
