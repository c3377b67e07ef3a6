/** The B-tree's file as bytes (DataFileIO.cpp): a node is packed into a buffer of 4096 bytes and
    written in chunks, and the next position is computed from the length of the file. */
module BTreeDisk {
  import opened KeyCodes
  import opened Codec
  import opened PageIO
  import opened Accounts
  import opened BTreeFiles

  const BUFFER: nat := 4096

  // A node with all its array places, used or not.
  datatype Block = Block(childs: seq<nat>, values: seq<nat>, keys: seq<seq<byte>>, flag: byte, nEntry: nat, pos: nat)

  ghost predicate BlockOK(n: Block, T: nat, keySize: nat) {
    && |n.childs| == 2 * T && (forall i :: 0 <= i < |n.childs| ==> n.childs[i] < Pow256(8))
    && |n.values| == 2 * T - 1 && (forall i :: 0 <= i < |n.values| ==> n.values[i] < Pow256(8))
    && |n.keys| == 2 * T - 1 && (forall i :: 0 <= i < |n.keys| ==> |n.keys[i]| == keySize)
    && n.nEntry < Pow256(2) && n.pos < Pow256(4)
  }

  function Last(n: Block): (r: seq<byte>) ensures |r| == 7 {
    [n.flag] + Bytes(n.nEntry, 2) + Bytes(n.pos, 4)
  }

  function BlockBytes(n: Block): seq<byte> {
    ChildBytes(n.childs) + ChildBytes(n.values) + KeyBytes(n.keys) + Last(n)
  }

  function BlockSize(T: nat, keySize: nat): nat requires T >= 1 {
    16 * T + 8 * (2 * T - 1) + (2 * T - 1) * keySize + 7
  }

  lemma BlockLength(n: Block, T: nat, keySize: nat)
    requires T >= 1 && BlockOK(n, T, keySize)
    ensures |KeyBytes(n.keys)| == (2 * T - 1) * keySize && |BlockBytes(n)| == BlockSize(T, keySize)
  {
    KeyBytesLength(n.keys, keySize);
  }

  // Where each field is: children and value positions of eight bytes, keys, then flag, size and
  // position in one, two and four.
  lemma FieldsInBlock(n: Block, T: nat, keySize: nat)
    requires T >= 1 && BlockOK(n, T, keySize)
    ensures |BlockBytes(n)| == BlockSize(T, keySize)
    ensures forall i :: 0 <= i < 2 * T ==> BlockBytes(n)[8 * i..8 * i + 8] == Bytes(n.childs[i], 8)
    ensures forall i :: 0 <= i < 2 * T - 1 ==> BlockBytes(n)[16 * T + 8 * i..16 * T + 8 * i + 8] == Bytes(n.values[i], 8)
    ensures forall i :: 0 <= i < 2 * T - 1 ==> KeyIn(BlockBytes(n), 16 * T + 8 * (2 * T - 1), i, keySize) == n.keys[i]
    ensures var s := |BlockBytes(n)|;
            BlockBytes(n)[s - 7..] == [n.flag] + Bytes(n.nEntry, 2) + Bytes(n.pos, 4)
  {
    hide Bytes, ChildBytes, KeyBytes, Last, BlockBytes, KeyIn;
    BlockLength(n, T, keySize);
    Parts(n);
    forall i | 0 <= i < 2 * T
      ensures BlockBytes(n)[8 * i..8 * i + 8] == Bytes(n.childs[i], 8)
    {
      ChildAt(n.childs, i);
      CutMiddle(BlockBytes(n), [], ChildBytes(n.childs), ChildBytes(n.values) + KeyBytes(n.keys) + Last(n), 8 * i, 8 * i + 8);
    }
    forall i | 0 <= i < 2 * T - 1
      ensures BlockBytes(n)[16 * T + 8 * i..16 * T + 8 * i + 8] == Bytes(n.values[i], 8)
    {
      ChildAt(n.values, i);
      CutMiddle(BlockBytes(n), ChildBytes(n.childs), ChildBytes(n.values), KeyBytes(n.keys) + Last(n), 8 * i, 8 * i + 8);
    }
    forall i | 0 <= i < 2 * T - 1
      ensures KeyIn(BlockBytes(n), 16 * T + 8 * (2 * T - 1), i, keySize) == n.keys[i]
    {
      KeyAt(n.keys, i, keySize);
      CutMiddle(BlockBytes(n), ChildBytes(n.childs) + ChildBytes(n.values), KeyBytes(n.keys), Last(n), i * keySize, i * keySize + keySize);
      KeyCut(BlockBytes(n), 16 * T + 8 * (2 * T - 1), i, keySize);
    }
    LastBytes(n);
  }

  lemma Parts(n: Block)
    ensures var (a, b, c, d) := (ChildBytes(n.childs), ChildBytes(n.values), KeyBytes(n.keys), Last(n));
            BlockBytes(n) == [] + a + (b + c + d) && BlockBytes(n) == a + b + (c + d) && BlockBytes(n) == (a + b) + c + d
  {
    hide ChildBytes, KeyBytes, Last;
    var (a, b, c, d) := (ChildBytes(n.childs), ChildBytes(n.values), KeyBytes(n.keys), Last(n));
    assert [] + a == a && a + (b + c + d) == a + b + c + d;
  }

  lemma LastBytes(n: Block)
    ensures var s := |BlockBytes(n)|; s >= 7 && BlockBytes(n)[s - 7..] == [n.flag] + Bytes(n.nEntry, 2) + Bytes(n.pos, 4)
  {
    hide Bytes, ChildBytes, KeyBytes;
  }

  // The bytes determine the node.
  lemma BlockDetermines(n: Block, m: Block, T: nat, keySize: nat)
    requires T >= 1 && BlockOK(n, T, keySize) && BlockOK(m, T, keySize) && BlockBytes(n) == BlockBytes(m)
    ensures n == m
  {
    hide ChildBytes, KeyBytes, Bytes;
    BlockLength(n, T, keySize);
    BlockLength(m, T, keySize);
    var (a, b, c) := (ChildBytes(n.childs), ChildBytes(n.values), KeyBytes(n.keys));
    var (u, v, w) := (ChildBytes(m.childs), ChildBytes(m.values), KeyBytes(m.keys));
    SameEnds(a + b + c, Last(n), u + v + w, Last(m));
    SameEnds(a + b, c, u + v, w);
    SameEnds(a, b, u, v);
    SameChildren(n.childs, m.childs);
    SameChildren(n.values, m.values);
    SameKeys(n.keys, m.keys, keySize);
    LastDetermines(n, m);
  }

  lemma LastDetermines(n: Block, m: Block)
    requires Last(n) == Last(m) && n.nEntry < Pow256(2) && m.nEntry < Pow256(2) && n.pos < Pow256(4) && m.pos < Pow256(4)
    ensures n.flag == m.flag && n.nEntry == m.nEntry && n.pos == m.pos
  {
    hide Bytes, Value, Pow256;
    SameEnds([n.flag] + Bytes(n.nEntry, 2), Bytes(n.pos, 4), [m.flag] + Bytes(m.nEntry, 2), Bytes(m.pos, 4));
    SameEnds([n.flag], Bytes(n.nEntry, 2), [m.flag], Bytes(m.nEntry, 2));
    ValueOfBytes(n.nEntry, 2);
    ValueOfBytes(m.nEntry, 2);
    ValueOfBytes(n.pos, 4);
    ValueOfBytes(m.pos, 4);
  }

  // ----- packing -----

  // x is copied behind what is in the buffer, as far as it has room.
  method Copy(buff: array<byte>, copied: nat, x: seq<byte>, ghost s: seq<byte>) returns (ok: bool, c: nat)
    requires copied == |s| <= buff.Length && buff[..copied] == s
    modifies buff
    ensures ok == (|s| + |x| <= buff.Length) && c == |s| + |x|
    ensures ok ==> buff[..c] == s + x
  {
    c := copied + |x|;
    ok := c <= buff.Length;
    if ok {
      MemCpy(buff, copied, x);
      assert buff[..c] == s + x;
    }
  }

  method CopyWords(buff: array<byte>, copied: nat, ws: seq<nat>, ghost s: seq<byte>) returns (ok: bool, c: nat)
    requires copied == |s| <= buff.Length && buff[..copied] == s
    modifies buff
    ensures ok == (|s| + 8 * |ws| <= buff.Length)
    ensures ok ==> c == |s| + 8 * |ws| && buff[..c] == s + ChildBytes(ws)
  {
    hide Bytes;
    ok, c := true, copied;
    assert s + ChildBytes([]) == s;
    for i := 0 to |ws|
      invariant ok && c == |s| + 8 * i <= buff.Length && buff[..c] == s + ChildBytes(ws[..i])
    {
      ok, c := Copy(buff, c, Bytes(ws[i], 8), s + ChildBytes(ws[..i]));
      if !ok {
        return;
      }
      assert ws[..i + 1] == ws[..i] + [ws[i]];
      OneMoreChild(ws[..i], ws[i]);
    }
    assert ws[..|ws|] == ws;
  }

  method CopyKeys(buff: array<byte>, copied: nat, ks: seq<seq<byte>>, keySize: nat, ghost s: seq<byte>) returns (ok: bool, c: nat)
    requires copied == |s| <= buff.Length && buff[..copied] == s && forall i :: 0 <= i < |ks| ==> |ks[i]| == keySize
    modifies buff
    ensures ok == (|s| + |ks| * keySize <= buff.Length)
    ensures ok ==> c == |s| + |ks| * keySize && buff[..c] == s + KeyBytes(ks)
  {
    ok, c := true, copied;
    assert s + KeyBytes([]) == s;
    for i := 0 to |ks|
      invariant ok && c == |s| + i * keySize <= buff.Length && buff[..c] == s + KeyBytes(ks[..i])
    {
      KeyBytesLength(ks[..i], keySize);
      RoomFor(i, |ks|, keySize);
      ok, c := Copy(buff, c, ks[i], s + KeyBytes(ks[..i]));
      if !ok {
        return;
      }
      assert ks[..i + 1] == ks[..i] + [ks[i]];
      OneMoreKey(ks[..i], ks[i]);
    }
    assert ks[..|ks|] == ks;
  }

  // The node's fields one after the other; not ok where the program goes on behind the buffer.
  method Pack(n: Block, buff: array<byte>, T: nat, keySize: nat) returns (ok: bool, byteCopied: nat)
    requires T >= 1 && BlockOK(n, T, keySize) && buff.Length == BUFFER
    modifies buff
    ensures ok == (BlockSize(T, keySize) <= BUFFER)
    ensures ok ==> byteCopied == BlockSize(T, keySize) && buff[..byteCopied] == BlockBytes(n)
  {
    hide ChildBytes, KeyBytes, Bytes, Last;
    BlockLength(n, T, keySize);
    ghost var a, b := ChildBytes(n.childs), ChildBytes(n.childs) + ChildBytes(n.values);
    assert [] + a == a;
    ok, byteCopied := CopyWords(buff, 0, n.childs, []);
    if ok {
      ok, byteCopied := CopyWords(buff, byteCopied, n.values, a);
    }
    if ok {
      ok, byteCopied := CopyKeys(buff, byteCopied, n.keys, keySize, b);
    }
    if ok {
      ok, byteCopied := Copy(buff, byteCopied, Last(n), b + KeyBytes(n.keys));
    }
  }

  // ----- unpacking -----

  method Words(b: seq<byte>, count: nat) returns (ws: seq<nat>)
    requires 8 * count <= |b|
    ensures |ws| == count && (forall i :: 0 <= i < count ==> ws[i] < Pow256(8)) && ChildBytes(ws) == b[..8 * count]
  {
    hide Value, Bytes, Pow256;
    ws := [];
    for i := 0 to count
      invariant |ws| == i && (forall j :: 0 <= j < i ==> ws[j] < Pow256(8)) && ChildBytes(ws) == b[..8 * i]
    {
      var x := b[8 * i..8 * i + 8];
      BytesOfValue(x);
      OneMoreChild(ws, Value(x));
      assert b[..8 * i + 8] == b[..8 * i] + x;
      ws := ws + [Value(x)];
    }
  }

  method Keys(b: seq<byte>, count: nat, keySize: nat) returns (ks: seq<seq<byte>>)
    requires count * keySize <= |b|
    ensures |ks| == count && (forall i :: 0 <= i < count ==> |ks[i]| == keySize) && KeyBytes(ks) == b[..count * keySize]
  {
    ks := [];
    for i := 0 to count
      invariant |ks| == i && (forall j :: 0 <= j < i ==> |ks[j]| == keySize) && KeyBytes(ks) == b[..i * keySize]
      invariant i * keySize <= count * keySize
    {
      RoomFor(i, count, keySize);
      var x := b[i * keySize..i * keySize + keySize];
      OneMoreKey(ks, x);
      assert b[..i * keySize + keySize] == b[..i * keySize] + x;
      ks := ks + [x];
    }
  }

  method Unpack(b: seq<byte>, T: nat, keySize: nat) returns (n: Block)
    requires T >= 1 && BlockSize(T, keySize) <= |b|
    ensures BlockOK(n, T, keySize) && BlockBytes(n) == b[..BlockSize(T, keySize)]
  {
    hide Value, Bytes, Pow256, ChildBytes, KeyBytes;
    var c1, c2 := 16 * T, 16 * T + 8 * (2 * T - 1);
    var c3 := c2 + (2 * T - 1) * keySize;
    var childs := Words(b, 2 * T);
    var values := Words(b[c1..], 2 * T - 1);
    var keys := Keys(b[c2..], 2 * T - 1, keySize);
    BytesOfValue(b[c3 + 1..c3 + 3]);
    BytesOfValue(b[c3 + 3..c3 + 7]);
    n := Block(childs, values, keys, b[c3], Value(b[c3 + 1..c3 + 3]), Value(b[c3 + 3..c3 + 7]));
    assert b[..c2] == b[..c1] + b[c1..][..8 * (2 * T - 1)];
    assert b[..c3] == b[..c2] + b[c2..][..(2 * T - 1) * keySize];
    assert b[..c3 + 7] == b[..c3] + ([b[c3]] + b[c3 + 1..c3 + 3] + b[c3 + 3..c3 + 7]);
  }

  // ----- the file -----

  // b over f from at on; a gap before it is filled up with zeros.
  function Over(f: seq<byte>, at: nat, b: seq<byte>): (r: seq<byte>)
    ensures |r| == if |f| < at + |b| then at + |b| else |f|
    ensures r[at..at + |b|] == b
    ensures forall i :: 0 <= i < |f| && !(at <= i < at + |b|) ==> r[i] == f[i]
  {
    var front := if at <= |f| then f[..at] else f + seq(at - |f|, _ => 0);
    front + b + (if at + |b| < |f| then f[at + |b|..] else [])
  }

  // Writing in two parts.
  lemma OverTwice(f: seq<byte>, at: nat, a: seq<byte>, b: seq<byte>)
    ensures Over(Over(f, at, a), at + |a|, b) == Over(f, at, a + b)
  {
  }

  // The file f after the first chunks of b.
  function PartSent(f: seq<byte>, at: nat, b: seq<byte>, chunk: nat): seq<byte> requires chunk <= |b| {
    if chunk == 0 then f else Over(f, at, b[..chunk])
  }

  lemma OneChunk(f: seq<byte>, at: nat, b: seq<byte>, chunk: nat)
    requires chunk % 512 == 0 && chunk < |b| && |b| % 512 == 0
    ensures chunk + 512 <= |b| && Over(PartSent(f, at, b, chunk), at + chunk, b[chunk..chunk + 512]) == PartSent(f, at, b, chunk + 512)
  {
    hide Over;
    if chunk > 0 {
      OverTwice(f, at, b[..chunk], b[chunk..chunk + 512]);
    }
    assert b[..chunk + 512] == b[..chunk] + b[chunk..chunk + 512];
  }

  lemma AllSent(f: seq<byte>, at: nat, b: seq<byte>, chunk: nat)
    requires chunk <= |b|
    ensures PartSent(f, at, b, chunk) == if chunk == 0 then f else Over(f, at, b[..chunk])
  {
  }

  lemma LastChunk(chunk: nat, nodeBytes: nat)
    requires chunk % 512 == 0 && nodeBytes <= chunk < nodeBytes + 512
    ensures chunk == ChunkBytes(nodeBytes)
  {
  }

  // Where page p begins.
  function PageStart(p: nat, header: nat, pageSize: nat): nat {
    p * pageSize + header
  }

  lemma PageEnds(p: nat, q: nat, header: nat, pageSize: nat)
    requires p < q
    ensures PageStart(p, header, pageSize) + pageSize <= PageStart(q, header, pageSize)
  {
    MulMono(p + 1, q, pageSize);
    assert (p + 1) * pageSize == p * pageSize + pageSize;
  }

  // The node's bytes are in the file from at on.
  ghost predicate BlockAt(f: seq<byte>, at: nat, n: Block) {
    var b := BlockBytes(n);
    at + |b| <= |f| && f[at..at + |b|] == b
  }

  lemma BlockPlaced(f: seq<byte>, at: nat, b: seq<byte>, n: Block)
    requires |BlockBytes(n)| <= |b| && b[..|BlockBytes(n)|] == BlockBytes(n)
    ensures BlockAt(Over(f, at, b), at, n)
  {
    hide Over, BlockBytes;
    var f1, m := Over(f, at, b), |BlockBytes(n)|;
    assert f1[at..at + m] == f1[at..at + |b|][..m];
  }

  lemma BlockStays(f: seq<byte>, at: nat, b: seq<byte>, from: nat, m: Block)
    requires BlockAt(f, from, m) && (at + |b| <= from || from + |BlockBytes(m)| <= at)
    ensures BlockAt(Over(f, at, b), from, m)
  {
    hide Over, BlockBytes;
    var f1, n := Over(f, at, b), |BlockBytes(m)|;
    assert f1[from..from + n] == f[from..from + n];
  }

  // Chunks written on one page leave the nodes on all others.
  lemma OthersStay(f: seq<byte>, p: nat, b: seq<byte>, T: nat, keySize: nat, header: nat, pageSize: nat)
    requires T >= 1 && BlockSize(T, keySize) <= |b| <= pageSize
    ensures forall q, m :: q != p && BlockOK(m, T, keySize) && BlockAt(f, PageStart(q, header, pageSize), m) ==>
              BlockAt(Over(f, PageStart(p, header, pageSize), b), PageStart(q, header, pageSize), m)
  {
    hide Over, BlockBytes, BlockSize, BlockOK, BlockAt, PageStart;
    forall q, m | q != p && BlockOK(m, T, keySize) && BlockAt(f, PageStart(q, header, pageSize), m)
      ensures BlockAt(Over(f, PageStart(p, header, pageSize), b), PageStart(q, header, pageSize), m)
    {
      BlockLength(m, T, keySize);
      if p < q {
        PageEnds(p, q, header, pageSize);
      } else {
        PageEnds(q, p, header, pageSize);
      }
      BlockStays(f, PageStart(p, header, pageSize), b, PageStart(q, header, pageSize), m);
    }
  }

  // The file and the place in it where it is read or written next.
  class DataFile {
    const header: nat
    const pageSize: nat
    var bytes: seq<byte>
    var place: nat

    function At(p: nat): nat {
      PageStart(p, header, pageSize)
    }

    method Seek(to: nat)
      modifies `place
      ensures place == to
    {
      place := to;
    }

    method Write(b: seq<byte>)
      modifies this
      ensures bytes == Over(old(bytes), old(place), b) && place == old(place) + |b|
    {
      bytes, place := Over(bytes, place, b), place + |b|;
    }

    // As much as there is goes into the beginning of the buffer.
    method Read(count: nat, buff: seq<byte>) returns (b: seq<byte>)
      requires count <= |buff|
      modifies `place
      ensures |b| == |buff| && forall i :: 0 <= i < count && old(place) + i < |bytes| ==> b[i] == bytes[old(place) + i]
    {
      var n := if place >= |bytes| then 0 else if |bytes| - place < count then |bytes| - place else count;
      b := if n == 0 then buff else bytes[place..place + n] + buff[n..];
      place := place + n;
    }

    // The buffer is written in chunks of 512 bytes until the node's bytes are out.
    method WriteChunks(buff: array<byte>, byteCopied: nat, at: nat)
      requires buff.Length == BUFFER && 0 < byteCopied <= BUFFER
      modifies this
      ensures ChunkBytes(byteCopied) <= BUFFER && place == 0
      ensures bytes == Over(old(bytes), at, buff[..ChunkBytes(byteCopied)])
    {
      hide Over, ChunkBytes, PartSent;
      ghost var before := bytes;
      Seek(at);
      var chunkSize, chunk := 512, 0;
      AllSent(before, at, buff[..], 0);
      while chunk < byteCopied
        invariant chunk % 512 == 0 && chunk < byteCopied + 512 && chunk <= BUFFER && place == at + chunk
        invariant bytes == PartSent(before, at, buff[..], chunk)
      {
        OneChunk(before, at, buff[..], chunk);
        Write(buff[chunk..chunk + chunkSize]);
        chunk := chunk + chunkSize;
      }
      LastChunk(chunk, byteCopied);
      AllSent(before, at, buff[..], chunk);
      assert buff[..][..chunk] == buff[..chunk];
      Seek(0);
    }

    // The node gets on its page, and no other page's node is touched if the chunks keep to one page.
    method WriteNode(n: Block, p: nat, T: nat, keySize: nat) returns (ok: bool)
      requires T >= 1 && BlockOK(n, T, keySize)
      modifies this
      ensures ok == (BlockSize(T, keySize) <= 4096) && (!ok ==> bytes == old(bytes))
      ensures ok ==> BlockAt(bytes, At(p), n)
      ensures ok ==> var end := At(p) + ChunkBytes(BlockSize(T, keySize));
                     |bytes| == if |old(bytes)| < end then end else |old(bytes)|
      ensures ok && ChunkBytes(BlockSize(T, keySize)) <= pageSize ==>
        forall q, m :: q != p && BlockOK(m, T, keySize) && BlockAt(old(bytes), At(q), m) ==>
          BlockAt(bytes, At(q), m)
    {
      hide Over, ChunkBytes, BlockBytes, BlockSize, BlockOK, BlockAt, PageStart;
      var buff := new byte[BUFFER];
      var byteCopied;
      ok, byteCopied := Pack(n, buff, T, keySize);
      if !ok {
        return;
      }
      ghost var before := bytes;
      var at := At(p);
      SomeBytes(T, keySize);
      ChunksHold(byteCopied);
      WriteChunks(buff, byteCopied, at);
      ghost var b := buff[..ChunkBytes(byteCopied)];
      assert b[..byteCopied] == buff[..byteCopied];
      BlockLength(n, T, keySize);
      BlockPlaced(before, at, b, n);
      if |b| <= pageSize {
        OthersStay(before, p, b, T, keySize, header, pageSize);
      }
    }

    // A node that is on its page is read back, if it keeps to it.
    method ReadNode(p: nat, T: nat, keySize: nat, scratch: seq<byte>) returns (ok: bool, n: Block)
      requires T >= 1 && |scratch| == BUFFER
      modifies `place
      ensures ok == (pageSize <= 4096 && BlockSize(T, keySize) <= 4096) && (ok ==> BlockOK(n, T, keySize))
      ensures ok && BlockSize(T, keySize) <= pageSize ==>
        forall m :: BlockOK(m, T, keySize) && BlockAt(bytes, At(p), m) ==> n == m
    {
      hide BlockBytes, BlockSize, BlockOK, PageStart;
      n := Block([], [], [], 0, 0, 0);
      ok := pageSize <= BUFFER && BlockSize(T, keySize) <= BUFFER;
      if !ok {
        return;
      }
      Seek(At(p));
      var buff := Read(pageSize, scratch);
      n := Unpack(buff, T, keySize);
      ghost var at, size := At(p), BlockSize(T, keySize);
      Seek(0);
      if size <= pageSize {
        forall m | BlockOK(m, T, keySize) && BlockAt(bytes, At(p), m)
          ensures n == m
        {
          BlockLength(m, T, keySize);
          assert buff[..size] == bytes[at..at + size];
          BlockDetermines(n, m, T, keySize);
        }
      }
    }

    // The father's page in full, as a split leaves it before it asks for the next position.
    method WriteEmptyBytes(p: nat, empty: seq<byte>)
      requires |empty| == pageSize
      modifies this
      ensures bytes == Over(old(bytes), At(p), empty) && place == 0
    {
      Seek(At(p));
      Write(empty);
      Seek(0);
    }

    method UpdateNextPosNode() returns (next: nat)
      requires pageSize > 0 && header <= |bytes|
      modifies `place
      ensures next == NextPosition(|bytes| - header, pageSize) && place == 0
    {
      Seek(|bytes|);
      var nextPos := place;
      Seek(0);
      next := (nextPos - header) / pageSize;
    }

    // For a new root, after the last node was written at p.
    method NextForRoot(n: Block, p: nat, T: nat, keySize: nat) returns (next: nat)
      requires T >= 1 && BlockOK(n, T, keySize) && BlockSize(T, keySize) <= 4096
      requires pageSize > 0 && header <= |bytes| <= At(p)
      modifies this
      ensures var c := ChunkBytes(BlockSize(T, keySize));
              (next == p + 1 <==> pageSize <= c < 2 * pageSize) && (next == p <==> c < pageSize)
    {
      hide ChunkBytes, BlockSize, BlockOK, BlockBytes;
      var ok := WriteNode(n, p, T, keySize);
      next := UpdateNextPosNode();
      NextIffFilled(p, p, BlockSize(T, keySize), pageSize);
    }

    // For the right half of a split node, after the last node was written at p: the page of the
    // father f is filled up first.
    method NextForHalf(n: Block, p: nat, T: nat, keySize: nat, f: nat, empty: seq<byte>) returns (next: nat)
      requires T >= 1 && BlockOK(n, T, keySize) && BlockSize(T, keySize) <= 4096 && f <= p && |empty| == pageSize
      requires pageSize > 0 && header <= |bytes| <= At(p)
      modifies this
      ensures var c := ChunkBytes(BlockSize(T, keySize));
              (next == p + 1 <==> (f == p || pageSize <= c) && c < 2 * pageSize) && (next == p <==> f < p && c < pageSize)
    {
      hide ChunkBytes, BlockSize, BlockOK, BlockBytes, Over;
      var ok := WriteNode(n, p, T, keySize);
      WriteEmptyBytes(f, empty);
      assert f * pageSize + header + pageSize == (f + 1) * pageSize + header;
      next := UpdateNextPosNode();
      NextIffFilled(p, f, BlockSize(T, keySize), pageSize);
    }
  }

  lemma SomeBytes(T: nat, keySize: nat)
    requires T >= 1
    ensures BlockSize(T, keySize) > 0
  {
  }

  // The chunks of any two positions are apart exactly if they keep to one page.
  lemma ChunksApartIff(chunks: nat, header: nat, pageSize: nat)
    requires chunks > 0
    ensures chunks <= pageSize <==>
            forall p: nat, q: nat :: p < q ==> PageStart(p, header, pageSize) + chunks <= PageStart(q, header, pageSize)
  {
    if chunks <= pageSize {
      forall p: nat, q: nat | p < q
        ensures PageStart(p, header, pageSize) + chunks <= PageStart(q, header, pageSize)
      {
        PageEnds(p, q, header, pageSize);
      }
    } else {
      var p, q := 0, 1;
      assert PageStart(p, header, pageSize) + chunks > PageStart(q, header, pageSize);
    }
  }

  // Degree 39 and keys of 37 bytes: a node fills a page of 4096 bytes, in eight chunks.
  lemma ShippedBlocks()
    ensures BlockSize(39, 37) == 4096 == ChunkBytes(4096) && BlockSize(34, 37) == 3566 && ChunkBytes(3566) == 3584
  {
  }
}
