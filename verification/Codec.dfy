/** A node's page as bytes (fileUtils.cpp): children, keys, flag and size. */
module Codec {
  import opened KeyCodes
  import opened MaxDegree
  import Accounts

  datatype NodePage = NodePage(childs: seq<nat>, keys: seq<seq<byte>>, flag: byte, size: nat)

  ghost predicate PageOK(p: NodePage, d: nat, keySize: nat) {
    && |p.childs| == 2 * d && (forall i :: 0 <= i < |p.childs| ==> p.childs[i] < Pow256(8))
    && |p.keys| == 2 * d - 1 && (forall i :: 0 <= i < |p.keys| ==> |p.keys[i]| == keySize)
    && p.size < Pow256(2)
  }

  // ----- numbers, least byte first -----

  function Bytes(x: nat, n: nat): (r: seq<byte>)
    ensures |r| == n
  {
    if n == 0 then [] else [(x % 256) as byte] + Bytes(x / 256, n - 1)
  }

  function Value(b: seq<byte>): nat {
    if b == [] then 0 else b[0] as nat + 256 * Value(b[1..])
  }

  lemma {:induction false} ValueOfBytes(x: nat, n: nat)
    requires x < Pow256(n)
    ensures Value(Bytes(x, n)) == x
  {
    if n > 0 {
      ValueOfBytes(x / 256, n - 1);
    }
  }

  lemma {:induction false} BytesOfValue(b: seq<byte>)
    ensures Value(b) < Pow256(|b|) && Bytes(Value(b), |b|) == b
  {
    if b != [] {
      BytesOfValue(b[1..]);
      assert b == [b[0]] + b[1..];
      assert Value(b) % 256 == b[0] as nat && Value(b) / 256 == Value(b[1..]);
    }
  }

  // ----- the image of a page -----

  function ChildBytes(cs: seq<nat>): (r: seq<byte>)
    ensures |r| == 8 * |cs|
  {
    if cs == [] then [] else ChildBytes(cs[..|cs| - 1]) + Bytes(cs[|cs| - 1], 8)
  }

  function KeyBytes(ks: seq<seq<byte>>): seq<byte> {
    if ks == [] then [] else KeyBytes(ks[..|ks| - 1]) + ks[|ks| - 1]
  }

  lemma {:induction false} KeyBytesLength(ks: seq<seq<byte>>, keySize: nat)
    requires forall i :: 0 <= i < |ks| ==> |ks[i]| == keySize
    ensures |KeyBytes(ks)| == |ks| * keySize
  {
    if ks != [] {
      KeyBytesLength(ks[..|ks| - 1], keySize);
    }
  }

  function Image(p: NodePage): seq<byte> {
    ChildBytes(p.childs) + KeyBytes(p.keys) + ([p.flag] + Bytes(p.size, 2))
  }

  lemma ImageLength(p: NodePage, d: nat, keySize: nat)
    requires d >= 1 && PageOK(p, d, keySize)
    ensures |Image(p)| == NodeBytes(d, keySize)
  {
    KeyBytesLength(p.keys, keySize);
  }

  lemma {:induction false} SameChildren(a: seq<nat>, b: seq<nat>)
    requires |a| == |b| && ChildBytes(a) == ChildBytes(b)
    requires forall i :: 0 <= i < |a| ==> a[i] < Pow256(8) && b[i] < Pow256(8)
    ensures a == b
  {
    hide Bytes, Value, Pow256;
    if a != [] {
      var n := |a| - 1;
      SameEnds(ChildBytes(a[..n]), Bytes(a[n], 8), ChildBytes(b[..n]), Bytes(b[n], 8));
      ValueOfBytes(a[n], 8);
      ValueOfBytes(b[n], 8);
      SameChildren(a[..n], b[..n]);
      assert a == a[..n] + [a[n]] && b == b[..n] + [b[n]];
    }
  }

  lemma SameEnds(x: seq<byte>, u: seq<byte>, y: seq<byte>, w: seq<byte>)
    requires |x| == |y| && x + u == y + w
    ensures x == y && u == w
  {
    assert x == (x + u)[..|x|] && u == (x + u)[|x|..];
    assert y == (y + w)[..|y|] && w == (y + w)[|y|..];
  }

  lemma {:induction false} SameKeys(a: seq<seq<byte>>, b: seq<seq<byte>>, keySize: nat)
    requires |a| == |b| && KeyBytes(a) == KeyBytes(b)
    requires forall i :: 0 <= i < |a| ==> |a[i]| == keySize && |b[i]| == keySize
    ensures a == b
  {
    if a != [] {
      var n := |a| - 1;
      KeyBytesLength(a[..n], keySize);
      KeyBytesLength(b[..n], keySize);
      SameEnds(KeyBytes(a[..n]), a[n], KeyBytes(b[..n]), b[n]);
      SameKeys(a[..n], b[..n], keySize);
      assert a == a[..n] + [a[n]] && b == b[..n] + [b[n]];
    }
  }

  // Where each field is: children of eight bytes, keys, flag, and the size in two bytes.
  lemma FieldsInImage(p: NodePage, d: nat, keySize: nat)
    requires d >= 1 && PageOK(p, d, keySize)
    ensures |Image(p)| == 16 * d + (2 * d - 1) * keySize + 3
    ensures forall i :: 0 <= i < 2 * d ==> Image(p)[8 * i..8 * i + 8] == Bytes(p.childs[i], 8)
    ensures forall i :: 0 <= i < 2 * d - 1 ==> KeyIn(Image(p), 16 * d, i, keySize) == p.keys[i]
    ensures var n := |Image(p)|; Image(p)[n - 3] == p.flag && Image(p)[n - 2..] == Bytes(p.size, 2)
  {
    hide Bytes, ChildBytes, KeyBytes, KeyIn;
    ImageLength(p, d, keySize);
    KeyBytesLength(p.keys, keySize);
    var s, a, b, c := Image(p), ChildBytes(p.childs), KeyBytes(p.keys), [p.flag] + Bytes(p.size, 2);
    assert s == [] + a + (b + c) && s == a + b + c && s == (a + b) + c + [];
    forall i | 0 <= i < 2 * d
      ensures s[8 * i..8 * i + 8] == Bytes(p.childs[i], 8)
    {
      ChildAt(p.childs, i);
      CutMiddle(s, [], a, b + c, 8 * i, 8 * i + 8);
    }
    forall i | 0 <= i < 2 * d - 1
      ensures KeyIn(s, 16 * d, i, keySize) == p.keys[i]
    {
      KeyAt(p.keys, i, keySize);
      CutMiddle(s, a, b, c, i * keySize, i * keySize + keySize);
      KeyCut(s, 16 * d, i, keySize);
    }
    CutMiddle(s, a + b, c, [], 0, 1);
    CutMiddle(s, a + b, c, [], 1, 3);
  }

  lemma CutMiddle(s: seq<byte>, a: seq<byte>, b: seq<byte>, c: seq<byte>, i: nat, j: nat)
    requires s == a + b + c && i <= j <= |b|
    ensures |a| + j <= |s| && s[|a| + i..|a| + j] == b[i..j]
  {
  }

  lemma KeyCut(b: seq<byte>, from: nat, i: nat, keySize: nat)
    requires from + i * keySize + keySize <= |b|
    ensures KeyIn(b, from, i, keySize) == b[from + i * keySize..from + i * keySize + keySize]
  {
  }

  function KeyIn(b: seq<byte>, from: nat, i: nat, keySize: nat): seq<byte> {
    var at := from + i * keySize;
    if at + keySize <= |b| then b[at..at + keySize] else []
  }

  lemma CutIn(a: seq<byte>, b: seq<byte>, i: nat, j: nat)
    requires i <= j <= |a|
    ensures (a + b)[i..j] == a[i..j]
  {
  }

  lemma {:induction false} ChildAt(cs: seq<nat>, i: nat)
    requires i < |cs|
    ensures ChildBytes(cs)[8 * i..8 * i + 8] == Bytes(cs[i], 8)
  {
    hide Bytes;
    var n := |cs| - 1;
    if i < n {
      ChildAt(cs[..n], i);
      CutIn(ChildBytes(cs[..n]), Bytes(cs[n], 8), 8 * i, 8 * i + 8);
    }
  }

  lemma {:induction false} KeyAt(ks: seq<seq<byte>>, i: nat, keySize: nat)
    requires i < |ks| && forall j :: 0 <= j < |ks| ==> |ks[j]| == keySize
    ensures |KeyBytes(ks)| == |ks| * keySize && (i + 1) * keySize == i * keySize + keySize <= |ks| * keySize
    ensures KeyBytes(ks)[i * keySize..i * keySize + keySize] == ks[i]
  {
    var n := |ks| - 1;
    KeyBytesLength(ks, keySize);
    KeyBytesLength(ks[..n], keySize);
    RoomFor(i, |ks|, keySize);
    if i < n {
      KeyAt(ks[..n], i, keySize);
      CutIn(KeyBytes(ks[..n]), ks[n], i * keySize, i * keySize + keySize);
    }
  }

  // Byte i of a number, least byte first.
  lemma {:induction false} ByteOf(x: nat, n: nat, i: nat)
    requires i < n
    ensures Bytes(x, n)[i] as nat == x / Pow256(i) % 256
  {
    if i > 0 {
      ByteOf(x / 256, n - 1, i - 1);
      DivTwice(x, Pow256(i - 1));
    }
  }

  lemma DivTwice(x: nat, p: nat)
    requires p > 0
    ensures x / 256 / p == x / (256 * p)
  {
    var q, r := x / 256, x % 256;
    var u, w := q / p, q % p;
    assert x == 256 * (p * u + w) + r;
    assert x == u * (256 * p) + (256 * w + r);
    assert 256 * w + r < 256 * p;
    Accounts.ModUnique(x, u, 256 * w + r, 256 * p);
  }

  lemma Powers()
    ensures Pow256(0) == 1 && Pow256(1) == 256 && Pow256(2) == 65536 && Pow256(8) == 0x1_0000_0000_0000_0000
  {
    assert Pow256(4) == 65536 * 65536;
    assert Pow256(6) == 65536 * Pow256(4);
  }

  // The bytes determine the page.
  lemma ImageDetermines(p: NodePage, q: NodePage, d: nat, keySize: nat)
    requires d >= 1 && PageOK(p, d, keySize) && PageOK(q, d, keySize) && Image(p) == Image(q)
    ensures p == q
  {
    KeyBytesLength(p.keys, keySize);
    KeyBytesLength(q.keys, keySize);
    var a, b := |ChildBytes(p.childs)|, |ChildBytes(p.childs)| + |KeyBytes(p.keys)|;
    Pieces(ChildBytes(p.childs), KeyBytes(p.keys), [p.flag] + Bytes(p.size, 2));
    Pieces(ChildBytes(q.childs), KeyBytes(q.keys), [q.flag] + Bytes(q.size, 2));
    assert ([p.flag] + Bytes(p.size, 2))[0] == p.flag && ([q.flag] + Bytes(q.size, 2))[0] == q.flag;
    assert ([p.flag] + Bytes(p.size, 2))[1..] == Bytes(p.size, 2) && ([q.flag] + Bytes(q.size, 2))[1..] == Bytes(q.size, 2);
    SameChildren(p.childs, q.childs);
    SameKeys(p.keys, q.keys, keySize);
    ValueOfBytes(p.size, 2);
    ValueOfBytes(q.size, 2);
  }

  // All of them but the size are determined by the bytes before it.
  lemma FrontDetermines(p: NodePage, q: NodePage, d: nat, keySize: nat)
    requires d >= 1 && PageOK(p, d, keySize) && PageOK(q, d, keySize)
    requires var n := NodeBytes(d, keySize) - 2; |Image(p)| == |Image(q)| == n + 2 && Image(p)[..n] == Image(q)[..n]
    ensures q == p.(size := q.size)
  {
    hide ChildBytes, KeyBytes, Bytes, NodeBytes;
    FrontOfImage(p, d, keySize);
    FrontOfImage(q, d, keySize);
    PageWithSize(p, d, keySize);
    PageWithSize(q, d, keySize);
    ImageDetermines(p.(size := 0), q.(size := 0), d, keySize);
  }

  lemma FrontOfImage(p: NodePage, d: nat, keySize: nat)
    requires d >= 1 && PageOK(p, d, keySize)
    ensures |Image(p)| == NodeBytes(d, keySize) >= 2
    ensures Image(p.(size := 0)) == Image(p)[..|Image(p)| - 2] + Bytes(0, 2)
  {
    hide ChildBytes, KeyBytes, Bytes;
    ImageLength(p, d, keySize);
    var s := ChildBytes(p.childs) + KeyBytes(p.keys);
    assert Image(p) == (s + [p.flag]) + Bytes(p.size, 2);
    assert Image(p.(size := 0)) == (s + [p.flag]) + Bytes(0, 2);
  }

  lemma PageWithSize(p: NodePage, d: nat, keySize: nat)
    requires PageOK(p, d, keySize)
    ensures PageOK(p.(size := 0), d, keySize)
  {
  }

  lemma Pieces(a: seq<byte>, b: seq<byte>, c: seq<byte>)
    ensures (a + b + c)[..|a|] == a && (a + b + c)[|a|..|a| + |b|] == b && (a + b + c)[|a| + |b|..] == c
  {
  }

  lemma RoomFor(i: nat, n: nat, k: nat)
    requires i < n
    ensures (i + 1) * k == i * k + k <= n * k
  {
    assert (n - i - 1) * k >= 0;
    assert n * k == (i + 1) * k + (n - i - 1) * k;
  }

  lemma OneMoreChild(cs: seq<nat>, x: nat)
    ensures ChildBytes(cs + [x]) == ChildBytes(cs) + Bytes(x, 8)
  {
    hide Bytes;
    assert (cs + [x])[..|cs|] == cs;
  }

  lemma OneMoreKey(ks: seq<seq<byte>>, x: seq<byte>)
    ensures KeyBytes(ks + [x]) == KeyBytes(ks) + x
  {
    assert (ks + [x])[..|ks|] == ks;
  }

  // ----- a node on its page -----

  // A node as its methods see it: the keys are C strings.
  datatype NodeContent = NodeContent(flag: byte, keys: seq<seq<byte>>, childs: seq<nat>)

  ghost predicate NodeFits(n: NodeContent, d: nat, keySize: nat) {
    && |n.keys| <= 2 * d - 1 && |n.childs| == |n.keys| + 1 && |n.keys| < Pow256(2)
    && (forall i :: 0 <= i < |n.keys| ==> FitsKey(n.keys[i], keySize))
    && (forall i :: 0 <= i < |n.childs| ==> n.childs[i] < Pow256(8))
  }

  // strcpy into a buffer: the string, its terminator, and what was there before.
  function StrCpy(s: seq<byte>, buffer: seq<byte>): (r: seq<byte>)
    requires |s| < |buffer|
    ensures |r| == |buffer|
  {
    s + [0] + buffer[|s| + 1..]
  }

  // The string in a buffer.
  function CStr(buffer: seq<byte>): seq<byte> {
    if buffer == [] || buffer[0] == 0 then [] else [buffer[0]] + CStr(buffer[1..])
  }

  // It is the part before the first zero.
  lemma {:induction false} CStrIs(buffer: seq<byte>, n: nat)
    requires n <= |buffer| && (forall i :: 0 <= i < n ==> buffer[i] != 0) && (n < |buffer| ==> buffer[n] == 0)
    ensures CStr(buffer) == buffer[..n]
  {
    if n > 0 {
      CStrIs(buffer[1..], n - 1);
      assert buffer[..n] == [buffer[0]] + buffer[1..][..n - 1];
    }
  }

  lemma {:induction false} CStrOfStrCpy(s: seq<byte>, buffer: seq<byte>)
    requires CString(s) && |s| < |buffer|
    ensures CStr(StrCpy(s, buffer)) == s
  {
    if s != [] {
      CStrOfStrCpy(s[1..], buffer[1..]);
      assert StrCpy(s, buffer)[1..] == StrCpy(s[1..], buffer[1..]);
    }
  }

  // The strings that fit are those that some buffer holds with their terminator.
  lemma FitsIffHeld(s: seq<byte>, n: nat)
    ensures FitsKey(s, n) <==> exists b :: |b| == n && 0 in b && CStr(b) == s
  {
    if FitsKey(s, n) {
      var b := StrCpy(s, seq(n, _ => 0));
      CStrOfStrCpy(s, seq(n, _ => 0));
      assert b[|s|] == 0;
    }
    forall b | |b| == n && 0 in b && CStr(b) == s
      ensures FitsKey(s, n)
    {
      HeldFits(b);
    }
  }

  lemma {:induction false} HeldFits(b: seq<byte>)
    requires 0 in b
    ensures FitsKey(CStr(b), |b|)
  {
    if b[0] != 0 {
      HeldFits(b[1..]);
    }
  }

  // The page made for a node; scratch is what its fresh key buffers hold.
  ghost function ToNodePage(n: NodeContent, scratch: seq<seq<byte>>, d: nat, keySize: nat): NodePage
    requires d >= 1 && NodeFits(n, d, keySize) && |scratch| == 2 * d - 1
    requires forall i :: 0 <= i < |scratch| ==> |scratch[i]| == keySize
  {
    NodePage(
      n.childs + seq(2 * d - |n.childs|, i => 0),
      seq(2 * d - 1, i requires 0 <= i < 2 * d - 1 => if i < |n.keys| then StrCpy(n.keys[i], scratch[i]) else scratch[i]),
      n.flag, |n.keys|)
  }

  ghost function FromNodePage(p: NodePage): NodeContent
    requires p.size <= |p.keys| && p.size < |p.childs|
  {
    NodeContent(p.flag, seq(p.size, i requires 0 <= i < p.size => CStr(p.keys[i])), p.childs[..p.size + 1])
  }

  lemma ToAndFrom(n: NodeContent, scratch: seq<seq<byte>>, d: nat, keySize: nat)
    requires d >= 1 && NodeFits(n, d, keySize) && |scratch| == 2 * d - 1
    requires forall i :: 0 <= i < |scratch| ==> |scratch[i]| == keySize
    ensures var p := ToNodePage(n, scratch, d, keySize);
            PageOK(p, d, keySize) && p.size <= |p.keys| && p.size < |p.childs| && FromNodePage(p) == n
  {
    var p := ToNodePage(n, scratch, d, keySize);
    forall i | 0 <= i < |n.keys|
      ensures CStr(p.keys[i]) == n.keys[i]
    {
      CStrOfStrCpy(n.keys[i], scratch[i]);
    }
    assert FromNodePage(p).keys == n.keys;
    assert p.childs[..p.size + 1] == n.childs;
  }
}
