/** Writing a node's page to the file and reading it back through buffers of 4096 bytes
    (fileUtils.cpp). */
module PageIO {
  import opened KeyCodes
  import opened MaxDegree
  import opened Codec
  import Accounts

  const IO_BUFFER_SIZE: nat := 4096

  // src is copied into dst from position at on.
  method MemCpy(dst: array<byte>, at: nat, src: seq<byte>)
    requires at + |src| <= dst.Length
    modifies dst
    ensures dst[..] == old(dst[..at]) + src + old(dst[at + |src|..])
    ensures dst[..at + |src|] == old(dst[..at]) + src
  {
    var i := 0;
    while i < |src|
      invariant 0 <= i <= |src|
      invariant forall j :: 0 <= j < i ==> dst[at + j] == src[j]
      invariant forall j :: 0 <= j < dst.Length && !(at <= j < at + i) ==> dst[j] == old(dst[j])
    {
      dst[at + i] := src[i];
      i := i + 1;
    }
  }

  // ----- writing -----

  // The second byte of the size, if it alone comes after the last full buffer, is taken from
  // behind the size in memory.
  predicate Straddles(n: nat) {
    n % IO_BUFFER_SIZE == 1
  }

  function AsWritten(image: seq<byte>, beyond: byte): (r: seq<byte>)
    ensures |r| == |image|
  {
    if image != [] && Straddles(|image|) then image[..|image| - 1] + [beyond] else image
  }

  // Of s, all whole buffers are in the file, over f0 from at on, and the rest is in the buffer.
  ghost predicate Sent(f: seq<byte>, f0: seq<byte>, at: nat, buffer: seq<byte>, copied: nat, s: seq<byte>) {
    && copied <= |s| && copied <= IO_BUFFER_SIZE < |buffer| && (|s| - copied) % IO_BUFFER_SIZE == 0
    && at + |s| <= |f0| && buffer[..copied] == s[|s| - copied..]
    && f == f0[..at] + s[..|s| - copied] + f0[at + |s| - copied..]
  }

  lemma SentMore(f: seq<byte>, f0: seq<byte>, at: nat, b: seq<byte>, copied: nat, s: seq<byte>, b1: seq<byte>, x: seq<byte>)
    requires Sent(f, f0, at, b, copied, s) && |b1| == |b| && copied + |x| <= IO_BUFFER_SIZE && at + |s| + |x| <= |f0|
    requires b1[..copied + |x|] == b[..copied] + x
    ensures Sent(f, f0, at, b1, copied + |x|, s + x)
  {
    assert (s + x)[|s| - copied..] == s[|s| - copied..] + x;
    assert (s + x)[..|s| - copied] == s[..|s| - copied];
  }

  // A full buffer goes to the file.
  lemma SentBuffer(f: seq<byte>, f0: seq<byte>, at: nat, b: seq<byte>, copied: nat, s: seq<byte>, b1: seq<byte>, x: seq<byte>, f1: seq<byte>)
    requires Sent(f, f0, at, b, copied, s) && |b1| == |b| && copied + |x| == IO_BUFFER_SIZE && at + |s| + |x| <= |f0|
    requires b1[..IO_BUFFER_SIZE] == b[..copied] + x
    requires var from := at + |s| - copied; f1 == f[..from] + b1[..IO_BUFFER_SIZE] + f[from + IO_BUFFER_SIZE..]
    ensures Sent(f1, f0, at, b1, 0, s + x)
  {
    var from := at + |s| - copied;
    assert s + x == s[..|s| - copied] + b1[..IO_BUFFER_SIZE];
    assert f[from + IO_BUFFER_SIZE..] == f0[from + IO_BUFFER_SIZE..];
    assert f[..from] == f0[..at] + s[..|s| - copied];
  }

  // A field that does not go past the end of the buffer.
  method PutWhole(file: array<byte>, ghost f0: seq<byte>, ghost at: nat, buffer: array<byte>, copiedSize: nat, tmp: nat, x: seq<byte>, ghost s: seq<byte>)
    returns (copied: nat, tmp1: nat)
    requires file != buffer && Sent(file[..], f0, at, buffer[..], copiedSize, s) && copiedSize + |x| <= IO_BUFFER_SIZE
    requires at + |s| + |x| <= |f0| && tmp == at + |s| - copiedSize
    modifies file, buffer
    ensures Sent(file[..], f0, at, buffer[..], copied, s + x) && tmp1 == at + |s| + |x| - copied
    ensures copied == if copiedSize + |x| == IO_BUFFER_SIZE then 0 else copiedSize + |x|
  {
    MemCpy(buffer, copiedSize, x);
    copied, tmp1 := copiedSize + |x|, tmp;
    if copied == IO_BUFFER_SIZE {
      MemCpy(file, tmp, buffer[..IO_BUFFER_SIZE]);
      SentBuffer(old(file[..]), f0, at, old(buffer[..]), copiedSize, s, buffer[..], x, file[..]);
      copied, tmp1 := 0, tmp + IO_BUFFER_SIZE;
    } else {
      SentMore(old(file[..]), f0, at, old(buffer[..]), copiedSize, s, buffer[..], x);
    }
  }

  // A field whose first part fills the buffer.
  method PutInParts(file: array<byte>, ghost f0: seq<byte>, ghost at: nat, buffer: array<byte>, copiedSize: nat, tmp: nat,
                    x: seq<byte>, y: seq<byte>, ghost s: seq<byte>)
    returns (copied: nat, tmp1: nat)
    requires file != buffer && Sent(file[..], f0, at, buffer[..], copiedSize, s) && copiedSize + |x| == IO_BUFFER_SIZE
    requires |y| <= IO_BUFFER_SIZE && at + |s| + |x| + |y| <= |f0| && tmp == at + |s| - copiedSize
    modifies file, buffer
    ensures Sent(file[..], f0, at, buffer[..], copied, s + x + y) && tmp1 == at + |s| + |x| + |y| - copied && copied == |y|
  {
    hide Sent;
    copied, tmp1 := PutWhole(file, f0, at, buffer, copiedSize, tmp, x, s);
    PutFirst(file[..], f0, at, buffer, y, s + x);
    copied := |y|;
  }

  // The buffer is written from its beginning.
  method PutFirst(ghost f: seq<byte>, ghost f0: seq<byte>, ghost at: nat, buffer: array<byte>, y: seq<byte>, ghost s: seq<byte>)
    requires Sent(f, f0, at, buffer[..], 0, s) && |y| <= IO_BUFFER_SIZE && at + |s| + |y| <= |f0|
    modifies buffer
    ensures Sent(f, f0, at, buffer[..], |y|, s + y)
  {
    ghost var b := buffer[..];
    MemCpy(buffer, 0, y);
    assert b[..0] + y == y;
    SentMore(f, f0, at, b, 0, s, buffer[..], y);
  }

  method PutChildren(file: array<byte>, ghost f0: seq<byte>, at: nat, buffer: array<byte>, childs: seq<nat>) returns (copied: nat, tmp: nat)
    requires file != buffer && file[..] == f0 && buffer.Length == IO_BUFFER_SIZE + 1 && at + 8 * |childs| <= |f0|
    modifies file, buffer
    ensures Sent(file[..], f0, at, buffer[..], copied, ChildBytes(childs)) && tmp == at + 8 * |childs| - copied
    ensures copied == 8 * |childs| % IO_BUFFER_SIZE
  {
    hide Sent, Bytes, ChildBytes;
    copied, tmp := 0, at;
    NothingSent(f0, at, buffer[..]);
    var idx := 0;
    while idx < |childs|
      invariant 0 <= idx <= |childs| && copied % 8 == 0 && copied == 8 * idx % IO_BUFFER_SIZE && tmp == at + 8 * idx - copied
      invariant Sent(file[..], f0, at, buffer[..], copied, ChildBytes(childs[..idx]))
    {
      // A child never lies across the end of the buffer.
      copied, tmp := PutWhole(file, f0, at, buffer, copied, tmp, Bytes(childs[idx], 8), ChildBytes(childs[..idx]));
      OneMoreChild(childs[..idx], childs[idx]);
      OneLonger(childs, idx);
      idx := idx + 1;
      SentMod(file[..], f0, at, buffer[..], copied, ChildBytes(childs[..idx]));
      EightsFit(8 * idx);
      assert copied == 8 * idx % IO_BUFFER_SIZE;
    }
    assert childs[..idx] == childs;
  }

  lemma OneLonger(cs: seq<nat>, i: nat)
    requires i < |cs|
    ensures cs[..i + 1] == cs[..i] + [cs[i]]
  {
  }

  lemma NothingSent(f0: seq<byte>, at: nat, b: seq<byte>)
    requires |b| > IO_BUFFER_SIZE && at <= |f0|
    ensures Sent(f0, f0, at, b, 0, []) && ChildBytes([]) == []
  {
  }

  lemma SentMod(f: seq<byte>, f0: seq<byte>, at: nat, b: seq<byte>, copied: nat, s: seq<byte>)
    requires Sent(f, f0, at, b, copied, s)
    ensures copied <= IO_BUFFER_SIZE && copied <= |s| && copied % IO_BUFFER_SIZE == |s| % IO_BUFFER_SIZE
  {
    SameRest(|s|, copied);
  }

  lemma SameRest(n: nat, c: nat)
    requires c <= n && (n - c) % IO_BUFFER_SIZE == 0
    ensures c % IO_BUFFER_SIZE == n % IO_BUFFER_SIZE
  {
    var q := (n - c) / IO_BUFFER_SIZE;
    assert n == c + IO_BUFFER_SIZE * q;
  }

  lemma EightsFit(n: nat)
    requires n % 8 == 0
    ensures n % IO_BUFFER_SIZE % 8 == 0
  {
  }

  // Keys longer than a buffer fill more and more of it, and at last more than it has.
  predicate KeysFit(copiedSize: nat, n: nat, keySize: nat) {
    keySize <= IO_BUFFER_SIZE || copiedSize + n * (keySize - IO_BUFFER_SIZE) <= IO_BUFFER_SIZE
  }

  lemma KeyFits(copiedSize: nat, idx: nat, n: nat, keySize: nat)
    requires idx < n && keySize > IO_BUFFER_SIZE
    ensures (idx + 1) * (keySize - IO_BUFFER_SIZE) == idx * (keySize - IO_BUFFER_SIZE) + (keySize - IO_BUFFER_SIZE)
    ensures KeysFit(copiedSize, n, keySize) ==> KeysFit(copiedSize, idx + 1, keySize)
  {
    RoomFor(idx, n, keySize - IO_BUFFER_SIZE);
  }

  // The rest of a key that is larger than the buffer is written behind its end (if it is larger
  // by one byte, then the next field is).
  method PutKeys(file: array<byte>, ghost f0: seq<byte>, ghost at: nat, buffer: array<byte>, copiedSize: nat, tmp0: nat,
                 keys: seq<seq<byte>>, keySize: nat, ghost s: seq<byte>)
    returns (ok: bool, copied: nat, tmp: nat)
    requires file != buffer && Sent(file[..], f0, at, buffer[..], copiedSize, s) && tmp0 == at + |s| - copiedSize
    requires (forall i :: 0 <= i < |keys| ==> |keys[i]| == keySize) && at + |s| + |keys| * keySize <= |f0|
    modifies file, buffer
    ensures ok == KeysFit(copiedSize, |keys|, keySize)
    ensures ok ==> Sent(file[..], f0, at, buffer[..], copied, s + KeyBytes(keys)) && tmp == at + |s| + |keys| * keySize - copied
  {
    hide Sent, KeyBytes, KeysFit;
    ok, copied, tmp := true, copiedSize, tmp0;
    NoKeys(s);
    SentMod(file[..], f0, at, buffer[..], copied, s);
    FitStart(copiedSize, keySize);
    var idx := 0;
    while idx < |keys|
      invariant 0 <= idx <= |keys| && tmp == at + |s| + idx * keySize - copied && copied <= IO_BUFFER_SIZE
      invariant |KeyBytes(keys[..idx])| == idx * keySize
      invariant Sent(file[..], f0, at, buffer[..], copied, s + KeyBytes(keys[..idx]))
      invariant FitSoFar(copiedSize, copied, idx, keySize)
    {
      var key := keys[idx];
      ghost var s1 := s + KeyBytes(keys[..idx]);
      RoomFor(idx, |keys|, keySize);
      FitNext(copiedSize, copied, idx, |keys|, keySize);
      if copied + keySize > IO_BUFFER_SIZE {
        var part := IO_BUFFER_SIZE - copied;
        if keySize - part > IO_BUFFER_SIZE {
          return false, copied, tmp;
        }
        copied, tmp := PutInParts(file, f0, at, buffer, copied, tmp, key[..part], key[part..], s1);
        TwoParts(s1, key, part);
      } else {
        copied, tmp := PutWhole(file, f0, at, buffer, copied, tmp, key, s1);
      }
      OneMoreKey(keys[..idx], key);
      assert keys[..idx + 1] == keys[..idx] + [key];
      assert s1 + key == s + KeyBytes(keys[..idx + 1]);
      idx := idx + 1;
    }
    assert keys[..idx] == keys;
    FitEnd(copiedSize, copied, idx, keySize);
  }

  ghost predicate FitSoFar(copiedSize: nat, copied: int, idx: nat, keySize: nat) {
    keySize > IO_BUFFER_SIZE ==> copied == copiedSize + idx * (keySize - IO_BUFFER_SIZE)
  }

  lemma FitStart(copiedSize: nat, keySize: nat)
    ensures FitSoFar(copiedSize, copiedSize, 0, keySize)
  {
  }

  // What is left of the next key fits into the buffer, unless the keys do not.
  lemma FitNext(copiedSize: nat, copied: nat, idx: nat, n: nat, keySize: nat)
    requires idx < n && copied <= IO_BUFFER_SIZE && FitSoFar(copiedSize, copied, idx, keySize)
    ensures copied + keySize > 2 * IO_BUFFER_SIZE ==> !KeysFit(copiedSize, n, keySize)
    ensures FitSoFar(copiedSize, copied + keySize - IO_BUFFER_SIZE, idx + 1, keySize) || keySize <= IO_BUFFER_SIZE
  {
    if keySize > IO_BUFFER_SIZE {
      KeyFits(copiedSize, idx, n, keySize);
    }
  }

  lemma FitEnd(copiedSize: nat, copied: nat, n: nat, keySize: nat)
    requires copied <= IO_BUFFER_SIZE && FitSoFar(copiedSize, copied, n, keySize)
    ensures KeysFit(copiedSize, n, keySize)
  {
  }

  lemma NoKeys(s: seq<byte>)
    ensures KeyBytes([]) == [] && s + [] == s
  {
  }

  lemma TwoParts(s: seq<byte>, x: seq<byte>, m: nat)
    requires m <= |x|
    ensures s + x[..m] + x[m..] == s + x
  {
  }

  lemma SizeOf(p: NodePage, d: nat, keySize: nat)
    requires d >= 1 && PageOK(p, d, keySize)
    ensures |ChildBytes(p.childs)| == 16 * d && |KeyBytes(p.keys)| == |p.keys| * keySize == (2 * d - 1) * keySize
    ensures NodeBytes(d, keySize) == 16 * d + (2 * d - 1) * keySize + 3 == |Image(p)|
  {
    ImageLength(p, d, keySize);
    KeyBytesLength(p.keys, keySize);
  }

  lemma SizeStraddles(m: nat, copied: nat)
    requires copied < IO_BUFFER_SIZE && copied % IO_BUFFER_SIZE == m % IO_BUFFER_SIZE
    ensures copied + 2 > IO_BUFFER_SIZE <==> Straddles(m + 2)
  {
  }

  lemma LastField(p: NodePage, s: seq<byte>, beyond: byte, last: byte)
    requires s == ChildBytes(p.childs) + KeyBytes(p.keys)
    requires last == if Straddles(|s| + 3) then beyond else Bytes(p.size, 2)[1]
    ensures AsWritten(Image(p), beyond) == s + [p.flag] + Bytes(p.size, 2)[..1] + [last]
  {
    hide ChildBytes, KeyBytes, Bytes;
    var size := Bytes(p.size, 2);
    Fields(s, p.flag, size);
    assert Image(p) == s + ([p.flag] + size);
    var r := s + [p.flag] + size[..1];
    Replaced(Image(p), r, size[1], beyond);
  }

  lemma Fields(s: seq<byte>, flag: byte, size: seq<byte>)
    requires |size| == 2
    ensures s + ([flag] + size) == s + [flag] + size[..1] + [size[1]]
  {
    assert size == size[..1] + [size[1]];
  }

  lemma Replaced(b: seq<byte>, r: seq<byte>, x: byte, y: byte)
    requires b == r + [x]
    ensures b[..|b| - 1] + [y] == r + [y]
  {
  }

  lemma FlushRest(f: seq<byte>, f0: seq<byte>, at: nat, b: seq<byte>, copied: nat, s: seq<byte>)
    requires Sent(f, f0, at, b, copied, s)
    ensures copied <= |b| && var tmp := at + |s| - copied;
            f[..tmp] + b[..copied] + f[at + |s|..] == f0[..at] + s + f0[at + |s|..] && |f| == |f0|
  {
    var tmp := at + |s| - copied;
    assert f[..tmp] == f0[..at] + s[..|s| - copied];
    assert f[at + |s|..] == f0[at + |s|..];
    assert s == s[..|s| - copied] + b[..copied];
  }

  // Flag and size.
  method PutLast(file: array<byte>, ghost f0: seq<byte>, ghost at: nat, buffer: array<byte>, copiedSize: nat, tmp0: nat,
                 flag: byte, size: seq<byte>, beyond: byte, ghost s: seq<byte>)
    returns (copied: nat, tmp: nat)
    requires file != buffer && Sent(file[..], f0, at, buffer[..], copiedSize, s) && tmp0 == at + |s| - copiedSize
    requires |size| == 2 && at + |s| + 3 <= |f0|
    modifies file, buffer
    ensures tmp == at + |s| + 3 - copied
    ensures Sent(file[..], f0, at, buffer[..], copied, s + [flag] + size[..1] + [if Straddles(|s| + 3) then beyond else size[1]])
  {
    hide Sent, Straddles;
    SentMod(file[..], f0, at, buffer[..], copiedSize, s);
    if copiedSize + 1 > IO_BUFFER_SIZE {
      copied, tmp := PutInParts(file, f0, at, buffer, copiedSize, tmp0, [], [flag], s);
      assert s + [] + [flag] == s + [flag];
    } else {
      copied, tmp := PutWhole(file, f0, at, buffer, copiedSize, tmp0, [flag], s);
    }
    ghost var s1 := s + [flag];
    SentMod(file[..], f0, at, buffer[..], copied, s1);
    SizeStraddles(|s1|, copied);
    if copied + 2 > IO_BUFFER_SIZE {
      copied, tmp := PutInParts(file, f0, at, buffer, copied, tmp, size[..1], [beyond], s1);
    } else {
      copied, tmp := PutWhole(file, f0, at, buffer, copied, tmp, size, s1);
      TwoBytes(s1, size);
    }
  }

  lemma TwoBytes(s: seq<byte>, x: seq<byte>)
    requires |x| == 2
    ensures s + x == s + x[..1] + [x[1]]
  {
    assert x == x[..1] + [x[1]];
  }

  // What the buffers can take: keys no longer than a buffer, or few enough longer ones.
  predicate WriteFits(d: nat, keySize: nat) requires d >= 1 {
    KeysFit(16 * d % IO_BUFFER_SIZE, 2 * d - 1, keySize)
  }

  // The page is written as its image, but for that one byte.
  method WriteNodePageToFile(file: array<byte>, at: nat, p: NodePage, d: nat, keySize: nat, beyond: byte) returns (ok: bool)
    requires d >= 1 && PageOK(p, d, keySize)
    requires at + NodeBytes(d, keySize) <= file.Length
    modifies file
    ensures ok == WriteFits(d, keySize)
    ensures ok ==> file[..] == old(file[..at]) + AsWritten(Image(p), beyond) + old(file[at + NodeBytes(d, keySize)..])
  {
    hide Sent, KeyBytes, ChildBytes, Bytes, NodeBytes, Image, AsWritten, Straddles, KeysFit;
    ghost var f0, s := file[..], ChildBytes(p.childs) + KeyBytes(p.keys);
    SizeOf(p, d, keySize);
    var buffer := new byte[IO_BUFFER_SIZE + 1](_ => 0);
    var copied, tmp := PutChildren(file, f0, at, buffer, p.childs);
    ok, copied, tmp := PutKeys(file, f0, at, buffer, copied, tmp, p.keys, keySize, ChildBytes(p.childs));
    if !ok {
      return;
    }
    copied, tmp := PutLast(file, f0, at, buffer, copied, tmp, p.flag, Bytes(p.size, 2), beyond, s);
    LastField(p, s, beyond, if Straddles(|s| + 3) then beyond else Bytes(p.size, 2)[1]);
    PutRest(file, f0, at, buffer, copied, tmp, AsWritten(Image(p), beyond));
  }

  // What is left in the buffer goes last.
  method PutRest(file: array<byte>, ghost f0: seq<byte>, ghost at: nat, buffer: array<byte>, copied: nat, tmp: nat, ghost s: seq<byte>)
    requires file != buffer && Sent(file[..], f0, at, buffer[..], copied, s) && tmp == at + |s| - copied
    modifies file
    ensures file[..] == f0[..at] + s + f0[at + |s|..]
  {
    FlushRest(file[..], f0, at, buffer[..], copied, s);
    if copied != 0 {
      MemCpy(file, tmp, buffer[..copied]);
    }
  }

  // ----- reading -----

  // OVERRUN is not in the program: there it goes on behind the end of a buffer.
  datatype Stage = CHILDS | KEYS | FLAG | SIZE | NONE | OVERRUN

  // Bytes [from, from + |b|) of s are b, as far as s goes.
  ghost predicate Block(b: seq<byte>, s: seq<byte>, from: nat) {
    forall j :: 0 <= j < |b| && from + j < |s| ==> b[j] == s[from + j]
  }

  lemma BlockCut(b: seq<byte>, s: seq<byte>, from: nat, i: nat, j: nat)
    requires Block(b, s, from) && i <= j <= |b| && from + j <= |s|
    ensures b[i..j] == s[from + i..from + j]
  {
  }

  // What fread leaves in the buffer: behind the end of the file it stays as it was.
  method ReadBlock(file: array<byte>, from: nat, before: seq<byte>) returns (buffer: seq<byte>)
    requires |before| == IO_BUFFER_SIZE
    ensures |buffer| == IO_BUFFER_SIZE && Block(buffer, file[..], from)
  {
    if from > file.Length {
      return before;
    }
    var end := if from + IO_BUFFER_SIZE <= file.Length then from + IO_BUFFER_SIZE else file.Length;
    buffer := file[from..end] + before[end - from..];
  }

  ghost predicate ChildsRead(childs: seq<nat>, s: seq<byte>, n: nat) {
    && |childs| == n && 8 * n <= |s| && ChildBytes(childs) == s[..8 * n]
    && forall i :: 0 <= i < n ==> childs[i] < Pow256(8)
  }

  lemma OneChildRead(childs: seq<nat>, s: seq<byte>, b: seq<byte>)
    requires ChildsRead(childs, s, |childs|) && 8 * |childs| + 8 <= |s| && b == s[8 * |childs|..8 * |childs| + 8]
    ensures ChildsRead(childs + [Value(b)], s, |childs| + 1) && Value(b) < Pow256(8)
  {
    hide ChildBytes, Value, Bytes, Pow256;
    BytesOfValue(b);
    OneMoreChild(childs, Value(b));
    Further(s, 0, 8 * |childs|, 8);
  }

  // A buffer with children, but not the last one: only of the first one is anything taken.
  method ReadSome(buffer: seq<byte>, childs0: seq<nat>, ghost s: seq<byte>, ghost from: nat) returns (childs: seq<nat>)
    requires |buffer| == IO_BUFFER_SIZE && Block(buffer, s, from) && IO_BUFFER_SIZE <= |s|
    requires ChildsRead(childs0, s, |childs0|) && (if from == 0 then childs0 == [] else 8 * |childs0| == IO_BUFFER_SIZE)
    ensures 8 * |childs| == IO_BUFFER_SIZE && ChildsRead(childs, s, |childs|)
  {
    hide ChildsRead, Value, Block;
    childs := childs0;
    var pos := 0;
    while 8 * |childs| < IO_BUFFER_SIZE
      invariant 8 * |childs| <= IO_BUFFER_SIZE && ChildsRead(childs, s, |childs|) && (from == 0 ==> pos == 8 * |childs|)
      invariant from != 0 ==> 8 * |childs| == IO_BUFFER_SIZE
    {
      BlockCut(buffer, s, from, pos, pos + 8);
      OneChildRead(childs, s, buffer[pos..pos + 8]);
      childs, pos := childs + [Value(buffer[pos..pos + 8])], pos + 8;
    }
  }

  // Of the children behind the first n, those that the buffer held are in it.
  ghost predicate RestRead(childs: seq<nat>, n: nat, s: seq<byte>, from: nat) {
    forall i :: n <= i < |childs| && from + 8 * (i - n) + 8 <= |s| ==>
      childs[i] == Value(s[from + 8 * (i - n)..from + 8 * (i - n) + 8])
  }

  // The last buffer with children: all the missing ones are taken from its beginning on.
  method ReadRest(buffer: seq<byte>, childs0: seq<nat>, d: nat, ghost s: seq<byte>, ghost from: nat)
    returns (over: bool, childs: seq<nat>, pos: nat)
    requires |buffer| == IO_BUFFER_SIZE && Block(buffer, s, from) && |childs0| <= 2 * d && 16 * d <= |s|
    requires ChildsRead(childs0, s, |childs0|)
    ensures over <==> 8 * (2 * d - |childs0|) > IO_BUFFER_SIZE
    ensures |childs| == (if over then |childs0| + IO_BUFFER_SIZE / 8 else 2 * d) && pos == 8 * (|childs| - |childs0|)
    ensures childs[..|childs0|] == childs0 && RestRead(childs, |childs0|, s, from)
    ensures from == 8 * |childs0| && !over ==> ChildsRead(childs, s, 2 * d)
  {
    hide ChildsRead, Value, Block;
    over, childs, pos := false, childs0, 0;
    while |childs| < 2 * d
      invariant |childs0| <= |childs| <= 2 * d && pos == 8 * (|childs| - |childs0|) <= IO_BUFFER_SIZE
      invariant childs[..|childs0|] == childs0 && RestRead(childs, |childs0|, s, from)
      invariant from == 8 * |childs0| ==> ChildsRead(childs, s, |childs|)
      decreases 2 * d - |childs|
    {
      if pos + 8 > IO_BUFFER_SIZE {
        return true, childs, pos;
      }
      ghost var n := |childs|;
      if from + pos + 8 <= |s| {
        BlockCut(buffer, s, from, pos, pos + 8);
      }
      if from == 8 * |childs0| {
        OneChildRead(childs, s, buffer[pos..pos + 8]);
      }
      childs, pos := childs + [Value(buffer[pos..pos + 8])], pos + 8;
    }
  }

  lemma Further(s: seq<byte>, i: nat, j: nat, n: nat)
    requires i <= j && j + n <= |s|
    ensures s[i..j] + s[j..j + n] == s[i..j + n]
  {
  }

  // What has been read of the keys: idx of them whole, and the first `rest` bytes of the next.
  ghost predicate KeysSoFar(keys: seq<seq<byte>>, tmp: seq<byte>, keySize: nat, s: seq<byte>, start: nat, at: nat) {
    && start + |keys| * keySize + |tmp| == at <= |s| && KeyBytes(keys) == s[start..start + |keys| * keySize]
    && tmp == s[start + |keys| * keySize..at] && (forall i :: 0 <= i < |keys| ==> |keys[i]| == keySize)
  }

  lemma OneKeyFurther(keys: seq<seq<byte>>, tmp: seq<byte>, keySize: nat, s: seq<byte>, start: nat, at: nat, x: seq<byte>)
    requires KeysSoFar(keys, tmp, keySize, s, start, at) && |tmp| + |x| == keySize && at + |x| <= |s| && x == s[at..at + |x|]
    ensures KeysSoFar(keys + [tmp + x], [], keySize, s, start, at + |x|)
  {
    hide KeyBytes;
    OneMoreKey(keys, tmp + x);
    RoomFor(|keys|, |keys| + 1, keySize);
    var m := start + |keys| * keySize;
    assert s[start..m] + s[m..at] + s[at..at + |x|] == s[start..at + |x|];
  }

  lemma RestKept(keys: seq<seq<byte>>, keySize: nat, s: seq<byte>, start: nat, at: nat, x: seq<byte>)
    requires KeysSoFar(keys, [], keySize, s, start, at) && at + |x| <= |s| && x == s[at..at + |x|]
    ensures KeysSoFar(keys, x, keySize, s, start, at + |x|)
  {
  }

  // A key that begins with tmp and goes on in the buffer.
  method ReadKey(buffer: seq<byte>, keys0: seq<seq<byte>>, tmp: seq<byte>, pos0: nat, keySize: nat,
                 ghost s: seq<byte>, ghost start: nat, ghost from: nat)
    returns (keys: seq<seq<byte>>, pos: nat)
    requires Block(buffer, s, from) && |tmp| <= keySize && pos0 + keySize - |tmp| <= |buffer|
    requires KeysSoFar(keys0, tmp, keySize, s, start, from + pos0) && from + pos0 + keySize - |tmp| <= |s|
    ensures |keys| == |keys0| + 1 && pos == pos0 + keySize - |tmp| && KeysSoFar(keys, [], keySize, s, start, from + pos)
  {
    hide KeyBytes, Block, KeysSoFar;
    pos := pos0 + keySize - |tmp|;
    BlockCut(buffer, s, from, pos0, pos);
    OneKeyFurther(keys0, tmp, keySize, s, start, from + pos0, buffer[pos0..pos]);
    keys := keys0 + [tmp + buffer[pos0..pos]];
  }

  // The keys in one buffer. A key cut off at its end is kept for the next one. readSize is how
  // many bytes of the keys have come, with this buffer. The place for a cut off key is no larger
  // than a buffer.
  method ReadKeys(buffer: seq<byte>, keys0: seq<seq<byte>>, tmp0: seq<byte>, pos0: nat, readSize: nat, n: nat, keySize: nat,
                  ghost s: seq<byte>, ghost start: nat, ghost from: nat)
    returns (over: bool, keys: seq<seq<byte>>, tmp: seq<byte>, pos: nat)
    requires |buffer| == IO_BUFFER_SIZE && Block(buffer, s, from) && pos0 <= IO_BUFFER_SIZE
    requires KeysSoFar(keys0, tmp0, keySize, s, start, from + pos0) && |keys0| < n && |tmp0| <= keySize
    requires start + n * keySize <= |s| && start + readSize == from + IO_BUFFER_SIZE && (tmp0 != [] ==> pos0 == 0)
    ensures over <==> tmp0 != [] && keySize > IO_BUFFER_SIZE
    ensures !over ==> pos <= IO_BUFFER_SIZE
    ensures !over ==>
            if readSize < n * keySize then |keys| < n && |tmp| <= keySize && KeysSoFar(keys, tmp, keySize, s, start, from + IO_BUFFER_SIZE)
            else |keys| == n && tmp == [] && KeysSoFar(keys, [], keySize, s, start, from + pos) && keySize <= IO_BUFFER_SIZE
  {
    hide KeyBytes, Block, KeysSoFar;
    over, keys, tmp, pos := false, keys0, tmp0, pos0;
    SoFarSize(keys, tmp, keySize, s, start, from + pos);
    RoomFor(|keys|, n, keySize);
    if tmp != [] {
      if keySize > IO_BUFFER_SIZE {
        return true, keys, tmp, pos;
      }
      keys, pos := ReadKey(buffer, keys, tmp, pos, keySize, s, start, from);
      tmp := [];
    }
    if readSize < n * keySize {
      keys, pos := ReadWhole(buffer, keys, pos, readSize, n, keySize, s, start, from);
      tmp := buffer[pos..];
      SoFarSize(keys, [], keySize, s, start, from + pos);
      BlockCut(buffer, s, from, pos, IO_BUFFER_SIZE);
      RestKept(keys, keySize, s, start, from + pos, buffer[pos..IO_BUFFER_SIZE]);
      assert buffer[pos..IO_BUFFER_SIZE] == tmp;
    } else {
      keys, pos := ReadAll(buffer, keys, pos, n, keySize, s, start, from);
    }
  }

  // While a key and at least one more byte are left in the buffer.
  method ReadWhole(buffer: seq<byte>, keys0: seq<seq<byte>>, pos0: nat, readSize: nat, n: nat, keySize: nat,
                   ghost s: seq<byte>, ghost start: nat, ghost from: nat)
    returns (keys: seq<seq<byte>>, pos: nat)
    requires |buffer| == IO_BUFFER_SIZE && Block(buffer, s, from) && pos0 <= IO_BUFFER_SIZE && readSize < n * keySize
    requires KeysSoFar(keys0, [], keySize, s, start, from + pos0)
    requires start + n * keySize <= |s| && start + readSize == from + IO_BUFFER_SIZE
    ensures pos <= IO_BUFFER_SIZE && IO_BUFFER_SIZE - pos <= keySize && |keys| < n && KeysSoFar(keys, [], keySize, s, start, from + pos)
  {
    hide KeyBytes, Block, KeysSoFar;
    keys, pos := keys0, pos0;
    SoFarSize(keys, [], keySize, s, start, from + pos);
    MoreKeys(|keys|, n, keySize, readSize);
    while (|keys| + 1) * keySize < readSize
      invariant |keys| < n && pos <= IO_BUFFER_SIZE && KeysSoFar(keys, [], keySize, s, start, from + pos)
      decreases n - |keys|
    {
      SoFarSize(keys, [], keySize, s, start, from + pos);
      RoomFor(|keys|, n, keySize);
      MoreKeys(|keys| + 1, n, keySize, readSize);
      keys, pos := ReadKey(buffer, keys, [], pos, keySize, s, start, from);
    }
    SoFarSize(keys, [], keySize, s, start, from + pos);
    RoomFor(|keys|, n, keySize);
  }

  // All the keys that are left.
  method ReadAll(buffer: seq<byte>, keys0: seq<seq<byte>>, pos0: nat, n: nat, keySize: nat,
                 ghost s: seq<byte>, ghost start: nat, ghost from: nat)
    returns (keys: seq<seq<byte>>, pos: nat)
    requires |buffer| == IO_BUFFER_SIZE && Block(buffer, s, from) && pos0 <= IO_BUFFER_SIZE && |keys0| <= n
    requires KeysSoFar(keys0, [], keySize, s, start, from + pos0)
    requires start + n * keySize <= |s| && start + n * keySize <= from + IO_BUFFER_SIZE
    ensures pos <= IO_BUFFER_SIZE && |keys| == n && KeysSoFar(keys, [], keySize, s, start, from + pos)
  {
    hide KeyBytes, Block, KeysSoFar;
    keys, pos := keys0, pos0;
    while |keys| < n
      invariant |keys| <= n && pos <= IO_BUFFER_SIZE && KeysSoFar(keys, [], keySize, s, start, from + pos)
      decreases n - |keys|
    {
      SoFarSize(keys, [], keySize, s, start, from + pos);
      RoomFor(|keys|, n, keySize);
      keys, pos := ReadKey(buffer, keys, [], pos, keySize, s, start, from);
    }
  }

  lemma SoFarSize(keys: seq<seq<byte>>, tmp: seq<byte>, keySize: nat, s: seq<byte>, start: nat, at: nat)
    requires KeysSoFar(keys, tmp, keySize, s, start, at)
    ensures start + |keys| * keySize + |tmp| == at <= |s|
  {
  }

  lemma MoreKeys(i: nat, n: nat, k: nat, r: nat)
    requires r < n * k && i * k <= r
    ensures i < n
  {
    Accounts.MulMono(n, i, k);
  }

  // ----- the whole node -----

  // The variables that the program keeps from one buffer to the next.
  datatype Reading = Reading(stage: Stage, readSize: nat, childs: seq<nat>, keys: seq<seq<byte>>, tmp: seq<byte>, flag: byte, size: nat)

  // Where keys and flag end.
  function KeysEnd(d: nat, keySize: nat): (e: nat)
    requires d >= 1
    ensures e == 16 * d + (2 * d - 1) * keySize && e + 3 == NodeBytes(d, keySize)
  {
    NodeBytes(d, keySize) - 3
  }

  ghost predicate KeysRead(keys: seq<seq<byte>>, s: seq<byte>, d: nat, keySize: nat) requires d >= 1 {
    && |keys| == 2 * d - 1
    && KeysSoFar(keys, [], keySize, s, 16 * d, KeysEnd(d, keySize))
  }

  ghost predicate FlagRead(childs: seq<nat>, keys: seq<seq<byte>>, flag: byte, s: seq<byte>, d: nat, keySize: nat) requires d >= 1 {
    var e := KeysEnd(d, keySize);
    ChildsRead(childs, s, 2 * d) && KeysRead(keys, s, d, keySize) && e < |s| && flag == s[e]
  }

  // A size cut in two is lost: its last byte becomes the first.
  ghost predicate SizeRead(size: nat, s: seq<byte>) {
    && |s| >= 2 && size < Pow256(2)
    && (if Straddles(|s|) then size % 256 == s[|s| - 1] as nat else size == Value(s[|s| - 2..]))
  }

  // Nodes that are read without going behind the end of a buffer.
  predicate ReadFits(d: nat, keySize: nat) {
    16 * d <= 2 * IO_BUFFER_SIZE && keySize <= IO_BUFFER_SIZE
  }

  // The last buffer with children in it begins here.
  function LastChilds(d: nat): nat requires d >= 1 {
    (16 * d - 1) / IO_BUFFER_SIZE * IO_BUFFER_SIZE
  }

  // Children in more than two buffers: after those of the first buffer, as many as a buffer holds
  // have been taken from the beginning of the last one.
  ghost predicate ChildsOverrun(childs: seq<nat>, s: seq<byte>, d: nat) requires d >= 1 {
    var n := IO_BUFFER_SIZE / 8;
    |childs| == 2 * n && ChildsRead(childs[..n], s, n) && RestRead(childs, n, s, LastChilds(d))
  }

  // What has come of the node s after its first `at` bytes, in whole buffers.
  ghost predicate Progress(r: Reading, s: seq<byte>, at: nat, d: nat, keySize: nat) requires d >= 1 {
    var e := KeysEnd(d, keySize);
    && |s| == NodeBytes(d, keySize) && at % IO_BUFFER_SIZE == 0
    && match r.stage
       case CHILDS =>
         && r.keys == [] && r.tmp == [] && r.readSize == at && at < 16 * d
         && (if at == 0 then r.childs == [] else 8 * |r.childs| == IO_BUFFER_SIZE) && ChildsRead(r.childs, s, |r.childs|)
       case KEYS =>
         && ChildsRead(r.childs, s, 2 * d) && 16 * d + r.readSize == at < e && 16 * d <= 2 * IO_BUFFER_SIZE
         && |r.keys| < 2 * d - 1 && |r.tmp| <= keySize && KeysSoFar(r.keys, r.tmp, keySize, s, 16 * d, at)
       case FLAG =>
         && r.readSize == 0 && at == e && ChildsRead(r.childs, s, 2 * d) && KeysRead(r.keys, s, d, keySize) && ReadFits(d, keySize)
       case SIZE => r.readSize < 2 && at == e + 1 + r.readSize && FlagRead(r.childs, r.keys, r.flag, s, d, keySize) && ReadFits(d, keySize)
       case NONE => at >= |s| && FlagRead(r.childs, r.keys, r.flag, s, d, keySize) && SizeRead(r.size, s) && ReadFits(d, keySize)
       case OVERRUN => if 16 * d > 2 * IO_BUFFER_SIZE then ChildsOverrun(r.childs, s, d) else keySize > IO_BUFFER_SIZE
  }

  // One buffer: from the stage reached so far on to the next ones, as far as it goes.
  method ReadNext(r0: Reading, buffer: seq<byte>, d: nat, keySize: nat, ghost s: seq<byte>, ghost at: nat) returns (r: Reading)
    requires d >= 1
    requires |buffer| == IO_BUFFER_SIZE && Block(buffer, s, at) && Progress(r0, s, at, d, keySize)
    ensures Progress(r, s, at + IO_BUFFER_SIZE, d, keySize)
  {
    hide Block, KeysSoFar, NodeBytes, ChildsRead, KeysRead, FlagRead, SizeRead, ChildsOverrun, ReadFits;
    NextBuffer(at);
    r := r0.(readSize := r0.readSize + IO_BUFFER_SIZE);
    match r.stage
    case CHILDS => r := FromChilds(r, buffer, d, keySize, s, at);
    case KEYS => r := FromKeys(r, buffer, 0, d, keySize, s, at);
    case FLAG => r := FromFlag(r, buffer, 0, d, keySize, s, at);
    case SIZE => r := FromSize(r, buffer, 0, d, keySize, s, at);
    case NONE =>
    case OVERRUN =>
  }

  method FromChilds(r0: Reading, buffer: seq<byte>, d: nat, keySize: nat, ghost s: seq<byte>, ghost at: nat) returns (r: Reading)
    requires d >= 1 && |s| == NodeBytes(d, keySize)
    requires |buffer| == IO_BUFFER_SIZE && Block(buffer, s, at) && at % IO_BUFFER_SIZE == 0
    requires r0.stage == CHILDS && r0.keys == [] && r0.tmp == [] && r0.readSize == at + IO_BUFFER_SIZE && at < 16 * d
    requires (if at == 0 then r0.childs == [] else 8 * |r0.childs| == IO_BUFFER_SIZE) && ChildsRead(r0.childs, s, |r0.childs|)
    ensures Progress(r, s, at + IO_BUFFER_SIZE, d, keySize)
  {
    hide Block, KeyBytes, ChildBytes, KeysSoFar, KeysEnd, NodeBytes, Value, Pow256, KeysRead, FlagRead, SizeRead, ChildsRead,
      RestRead, LastChilds, ReadFits;
    ChildsEnd(d, keySize);
    NextBuffer(at);
    r := r0;
    if r.readSize < 16 * d {
      var first := ReadSome(buffer, r.childs, s, at);
      r := r.(childs := first);
      return;
    }
    ChildsLast(d, at);
    var over, childs, pos := ReadRest(buffer, r.childs, d, s, at);
    r := r.(childs := childs);
    if over {
      r := r.(stage := OVERRUN);
      return;
    }
    r := r.(stage := KEYS, readSize := r.readSize - 16 * d);
    NoKeyYet(keySize, s, 16 * d);
    r := FromKeys(r, buffer, pos, d, keySize, s, at);
  }

  // The buffer with the last child: the first or the second, or there are too many.
  lemma ChildsLast(d: nat, at: nat)
    requires d >= 1 && at % IO_BUFFER_SIZE == 0 && at < 16 * d <= at + IO_BUFFER_SIZE
    ensures at == LastChilds(d) && (16 * d <= 2 * IO_BUFFER_SIZE <==> at == 0 || at == IO_BUFFER_SIZE)
  {
    var q := at / IO_BUFFER_SIZE;
    assert at == q * IO_BUFFER_SIZE;
    assert (16 * d - 1) / IO_BUFFER_SIZE == q;
  }

  lemma ChildsEnd(d: nat, keySize: nat)
    requires d >= 1
    ensures 16 * d + 3 <= NodeBytes(d, keySize) && 16 * d <= KeysEnd(d, keySize) && 16 * d + (2 * d - 1) * keySize == KeysEnd(d, keySize)
  {
  }

  lemma NextBuffer(at: nat)
    requires at % IO_BUFFER_SIZE == 0
    ensures (at + IO_BUFFER_SIZE) % IO_BUFFER_SIZE == 0 && (at < IO_BUFFER_SIZE ==> at == 0)
  {
  }

  method FromKeys(r0: Reading, buffer: seq<byte>, pos0: nat, d: nat, keySize: nat, ghost s: seq<byte>, ghost at: nat) returns (r: Reading)
    requires d >= 1 && |s| == NodeBytes(d, keySize) && r0.stage == KEYS && 16 * d <= 2 * IO_BUFFER_SIZE
    requires |buffer| == IO_BUFFER_SIZE && Block(buffer, s, at) && at % IO_BUFFER_SIZE == 0 && pos0 <= IO_BUFFER_SIZE
    requires ChildsRead(r0.childs, s, 2 * d) && 16 * d + r0.readSize == at + IO_BUFFER_SIZE
    requires |r0.keys| < 2 * d - 1 && |r0.tmp| <= keySize && (r0.tmp != [] ==> pos0 == 0)
    requires KeysSoFar(r0.keys, r0.tmp, keySize, s, 16 * d, at + pos0)
    ensures Progress(r, s, at + IO_BUFFER_SIZE, d, keySize)
  {
    hide Block, KeysSoFar, KeysEnd, NodeBytes, ChildsRead, FlagRead, SizeRead;
    var keysSize := (2 * d - 1) * keySize;
    ChildsEnd(d, keySize);
    NextBuffer(at);
    var over, keys, tmp, pos := ReadKeys(buffer, r0.keys, r0.tmp, pos0, r0.readSize, 2 * d - 1, keySize, s, 16 * d, at);
    r := r0.(keys := keys, tmp := tmp);
    if over {
      r := r.(stage := OVERRUN);
    } else if r.readSize >= keysSize {
      SoFarSize(keys, [], keySize, s, 16 * d, at + pos);
      r := FromFlag(r.(stage := FLAG, readSize := r.readSize - keysSize), buffer, pos, d, keySize, s, at);
    }
  }

  lemma NoKeyYet(keySize: nat, s: seq<byte>, start: nat)
    requires start <= |s|
    ensures KeysSoFar([], [], keySize, s, start, start)
  {
  }

  method FromFlag(r0: Reading, buffer: seq<byte>, pos: nat, d: nat, keySize: nat, ghost s: seq<byte>, ghost at: nat) returns (r: Reading)
    requires d >= 1 && |s| == NodeBytes(d, keySize) && r0.stage == FLAG && ReadFits(d, keySize)
    requires |buffer| == IO_BUFFER_SIZE && Block(buffer, s, at) && at % IO_BUFFER_SIZE == 0 && pos <= IO_BUFFER_SIZE
    requires ChildsRead(r0.childs, s, 2 * d) && KeysRead(r0.keys, s, d, keySize) && at + pos == KeysEnd(d, keySize) && r0.readSize == IO_BUFFER_SIZE - pos
    ensures Progress(r, s, at + IO_BUFFER_SIZE, d, keySize)
  {
    hide KeysSoFar, NodeBytes, ChildsRead, KeysRead, SizeRead, Block, ReadFits, ChildsOverrun, RestRead, Straddles;
    FlagIn(buffer, s, at, pos, d, keySize);
    NextBuffer(at);
    r := r0;
    if r.readSize >= 1 {
      r := FromSize(r.(flag := buffer[pos], readSize := r.readSize - 1, stage := SIZE), buffer, pos + 1, d, keySize, s, at);
    }
  }

  lemma FlagIn(b: seq<byte>, s: seq<byte>, at: nat, pos: nat, d: nat, keySize: nat)
    requires d >= 1 && Block(b, s, at) && |s| == NodeBytes(d, keySize) && at + pos == KeysEnd(d, keySize)
    ensures at + pos < |s| && (pos < |b| ==> b[pos] == s[at + pos])
  {
  }

  // The rest of the buffer is where the size is, but for a size cut in two, of which only the
  // second byte is left.
  method FromSize(r0: Reading, buffer: seq<byte>, pos: nat, d: nat, keySize: nat, ghost s: seq<byte>, ghost at: nat) returns (r: Reading)
    requires d >= 1 && |s| == NodeBytes(d, keySize) && r0.stage == SIZE && ReadFits(d, keySize)
    requires |buffer| == IO_BUFFER_SIZE && Block(buffer, s, at) && at % IO_BUFFER_SIZE == 0 && pos <= IO_BUFFER_SIZE
    requires FlagRead(r0.childs, r0.keys, r0.flag, s, d, keySize) && at + IO_BUFFER_SIZE == KeysEnd(d, keySize) + 1 + r0.readSize
    requires at + pos == KeysEnd(d, keySize) + 1 || (pos == 0 && at == KeysEnd(d, keySize) + 2)
    ensures Progress(r, s, at + IO_BUFFER_SIZE, d, keySize)
  {
    hide ChildsRead, KeysRead, FlagRead, NodeBytes, Value, Pow256, Straddles, Block;
    r := r0;
    if r.readSize >= 2 {
      var size := buffer[pos..pos + 2];
      BytesOfValue(size);
      TwoByteValue(size);
      WhereSizeIs(|s|, at, pos);
      SizeFound(buffer, s, at, pos);
      r := r.(size := Value(size), stage := NONE);
    }
  }

  lemma SizeFound(b: seq<byte>, s: seq<byte>, at: nat, pos: nat)
    requires Block(b, s, at) && pos + 2 <= |b| && |s| >= 2 && (at + pos == |s| - 2 || at + pos == |s| - 1)
    ensures if at + pos == |s| - 1 then b[pos..pos + 2][0] == s[|s| - 1] else b[pos..pos + 2] == s[|s| - 2..]
  {
    if at + pos == |s| - 2 {
      BlockCut(b, s, at, pos, pos + 2);
      assert s[|s| - 2..|s|] == s[|s| - 2..];
    }
  }

  lemma WhereSizeIs(n: nat, at: nat, pos: nat)
    requires at % IO_BUFFER_SIZE == 0 && pos + 2 <= IO_BUFFER_SIZE && (at + pos == n - 2 || (pos == 0 && at == n - 1))
    ensures Straddles(n) <==> at == n - 1
  {
  }

  lemma TwoByteValue(b: seq<byte>)
    requires |b| == 2
    ensures Value(b) % 256 == b[0] as nat
  {
  }

  // The page, or the children so far when the program goes on behind the end of a buffer.
  datatype ReadResult = Read(page: NodePage) | Overrun(childs: seq<nat>)

  // That is so exactly for children in more than two buffers and for keys longer than one.
  method GetNodePageFromFile(file: array<byte>, at: nat, d: nat, keySize: nat, pageSize: nat) returns (q: ReadResult)
    requires d >= 1 && NodeBytes(d, keySize) <= pageSize && at + NodeBytes(d, keySize) <= file.Length
    ensures q.Read? <==> ReadFits(d, keySize)
    ensures q.Read? ==> PageOK(q.page, d, keySize) && ReadAs(q.page, file[at..at + NodeBytes(d, keySize)])
    ensures 16 * d > 2 * IO_BUFFER_SIZE ==> ChildsOverrun(q.childs, file[at..at + NodeBytes(d, keySize)], d)
  {
    hide Block, NodeBytes, Progress, PageOK, ReadAs, ChildsOverrun;
    ghost var s := file[at..at + NodeBytes(d, keySize)];
    var readTimes := (pageSize + IO_BUFFER_SIZE - 1) / IO_BUFFER_SIZE;
    var buffer := seq(IO_BUFFER_SIZE, _ => 0);
    var r := Reading(CHILDS, 0, [], [], [], 0, 0);
    Nothing(r, s, d, keySize);
    var i := 0;
    while i < readTimes && r.stage != OVERRUN
      invariant i <= readTimes && |buffer| == IO_BUFFER_SIZE && Progress(r, s, i * IO_BUFFER_SIZE, d, keySize)
    {
      buffer := ReadBlock(file, at + i * IO_BUFFER_SIZE, buffer);
      BlockWithin(buffer, file[..], at, NodeBytes(d, keySize), i * IO_BUFFER_SIZE);
      r := ReadNext(r, buffer, d, keySize, s, i * IO_BUFFER_SIZE);
      i := i + 1;
    }
    Complete(r, s, i * IO_BUFFER_SIZE, d, keySize);
    q := if r.stage == OVERRUN then Overrun(r.childs) else Read(NodePage(r.childs, r.keys, r.flag, r.size));
  }

  // The page that the bytes s of a node are read as.
  ghost predicate ReadAs(p: NodePage, s: seq<byte>) {
    |s| == |Image(p)| && |s| >= 2 &&
    if Straddles(|s|) then Image(p)[..|s| - 2] == s[..|s| - 2] && p.size % 256 == s[|s| - 1] as nat else Image(p) == s
  }

  lemma Nothing(r: Reading, s: seq<byte>, d: nat, keySize: nat)
    requires d >= 1 && r.stage == CHILDS && r.readSize == 0 && r.childs == [] && r.keys == [] && r.tmp == [] && |s| == NodeBytes(d, keySize)
    ensures Progress(r, s, 0, d, keySize)
  {
    assert s[..0] == [];
  }

  lemma BlockWithin(b: seq<byte>, f: seq<byte>, at: nat, n: nat, from: nat)
    requires at + n <= |f| && Block(b, f, at + from)
    ensures Block(b, f[at..at + n], from)
  {
  }

  lemma Complete(r: Reading, s: seq<byte>, at: nat, d: nat, keySize: nat)
    requires d >= 1 && Progress(r, s, at, d, keySize) && (at >= |s| || r.stage == OVERRUN)
    ensures r.stage != OVERRUN <==> ReadFits(d, keySize)
    ensures 16 * d > 2 * IO_BUFFER_SIZE ==> ChildsOverrun(r.childs, s, d)
    ensures var p := NodePage(r.childs, r.keys, r.flag, r.size); r.stage != OVERRUN ==> PageOK(p, d, keySize) && ReadAs(p, s)
  {
    hide NodeBytes, KeysEnd, ChildBytes, KeyBytes, Value, Bytes, Pow256, Straddles, ChildsOverrun;
    ChildsEnd(d, keySize);
    if r.stage != OVERRUN {
      CompletePage(r, s, at, d, keySize);
    }
  }

  lemma CompletePage(r: Reading, s: seq<byte>, at: nat, d: nat, keySize: nat)
    requires d >= 1 && Progress(r, s, at, d, keySize) && at >= |s| && r.stage == NONE
    ensures var p := NodePage(r.childs, r.keys, r.flag, r.size); PageOK(p, d, keySize) && ReadAs(p, s)
  {
    hide NodeBytes, KeysEnd, ChildBytes, KeyBytes, Value, Bytes, Pow256, Straddles, ChildsOverrun;
    ChildsEnd(d, keySize);
    var e, p := KeysEnd(d, keySize), NodePage(r.childs, r.keys, r.flag, r.size);
    Assembled(s, 16 * d, e, r.flag, Bytes(r.size, 2));
    assert Image(p) == ChildBytes(p.childs) + KeyBytes(p.keys) + ([p.flag] + Bytes(p.size, 2));
    if !Straddles(|s|) {
      BytesOfValue(s[e + 1..]);
    }
  }

  lemma Assembled(s: seq<byte>, i: nat, e: nat, flag: byte, size: seq<byte>)
    requires i <= e && |s| == e + 3 && flag == s[e] && |size| == 2
    ensures var b := s[..i] + s[i..e] + ([flag] + size); |b| == |s| && b[..e + 1] == s[..e + 1] && (size == s[e + 1..] ==> b == s)
  {
  }

  // ----- when the node read is the node written -----

  // Whatever the key buffers held and whatever lies around the page, the node read back from the
  // page is the node written to it, if its size is not cut in two. If it is, what is read as the
  // size begins with the byte that lay behind the size in memory.
  method WriteAndRead(file: array<byte>, at: nat, ghost n: NodeContent, p: NodePage, ghost scratch: seq<seq<byte>>, d: nat, keySize: nat,
                      pageSize: nat, beyond: byte)
    returns (ok: bool, q: ReadResult)
    requires d >= 1 && NodeFits(n, d, keySize) && |scratch| == 2 * d - 1
    requires forall i :: 0 <= i < |scratch| ==> |scratch[i]| == keySize
    requires p == ToNodePage(n, scratch, d, keySize)
    requires NodeBytes(d, keySize) <= pageSize && at + NodeBytes(d, keySize) <= file.Length
    modifies file
    ensures ok == WriteFits(d, keySize) && (q.Read? <==> ReadFits(d, keySize)) && (q.Read? ==> ok)
    ensures q.Read? && !Straddles(NodeBytes(d, keySize)) ==> q.page == p && FromNodePage(q.page) == n
    ensures q.Read? && Straddles(NodeBytes(d, keySize)) ==>
              q.page.size % 256 == beyond as nat && (q.page == p ==> p.size % 256 == beyond as nat)
  {
    hide NodeBytes, ReadAs, AsWritten, PageOK, Codec.ToNodePage, Image;
    ghost var size := NodeBytes(d, keySize);
    ToAndFrom(n, scratch, d, keySize);
    ImageLength(p, d, keySize);
    ok := WriteNodePageToFile(file, at, p, d, keySize, beyond);
    q := GetNodePageFromFile(file, at, d, keySize, pageSize);
    if q.Read? {
      assert file[at..at + size] == AsWritten(Image(p), beyond);
      ReadWritten(p, q.page, beyond, d, keySize);
    }
  }

  lemma ReadWritten(p: NodePage, q: NodePage, beyond: byte, d: nat, keySize: nat)
    requires d >= 1 && PageOK(p, d, keySize) && PageOK(q, d, keySize) && ReadAs(q, AsWritten(Image(p), beyond))
    ensures if Straddles(NodeBytes(d, keySize)) then q.size % 256 == beyond as nat else q == p
  {
    hide NodeBytes, Image, PageOK;
    ImageLength(p, d, keySize);
    if !Straddles(|Image(p)|) {
      ImageDetermines(p, q, d, keySize);
    }
  }

  // Nodes of up to 4096 bytes go through whole.
  lemma OneBuffer(d: nat, keySize: nat)
    requires d >= 1 && NodeBytes(d, keySize) <= 4096
    ensures WriteFits(d, keySize) && ReadFits(d, keySize) && !Straddles(NodeBytes(d, keySize))
  {
    Accounts.MulMono(1, 2 * d - 1, keySize);
  }

  // The sizes from which on they do not: 513 for the degree, 4097 for the key of a node that is
  // read and 5451 for one of degree 2 that is written, 4097 for the node.
  lemma FirstSizes()
    ensures ReadFits(512, 4096) && !ReadFits(513, 8) && !ReadFits(2, 4097)
    ensures WriteFits(2, 5450) && !WriteFits(2, 5451)
    ensures !Straddles(4096) && Straddles(4097) && !Straddles(4098)
  {
  }

  // Page and key sizes for which the computed degree is the right one, and either goes wrong at it.
  lemma AwkwardSizes()
    ensures Returns(114, 4104, 10) && Right(114, 4104, 10) && Straddles(NodeBytes(114, 10))
    ensures Returns(625, 20000, 8) && Right(625, 20000, 8) && !ReadFits(625, 8)
  {
    FilledPage(114, 4104, 10);
    FilledPage(625, 20000, 8);
  }
}
