/** A node of the B-tree in memory (BTreeNode.cpp): fixed arrays of keys and children, and
    the file its pages are read from and written to. */
module BTreeNodes {
  import opened Pages
  import opened BTrees
  import opened BTreeJoins
  import opened BTreeOrder
  import opened BTreeInsertion
  import opened BTreeRemoval
  import opened BTreeStored
  import opened BTreePages
  import opened Sequences

  // The node part of the B-tree file: READ_NODE and WRITE_NODE by position.
  class NodeFile {
    var pages: map<Ref, BPage>
    var deletedNodesPos: seq<Ref>
    var nextPosNode: Ref

    ghost function State(): BFile reads this {
      BFile(pages, deletedNodesPos, nextPosNode)
    }

    constructor ()
      ensures State() == BFile(map[], [], 0)
    {
      pages, deletedNodesPos, nextPosNode := map[], [], 0;
    }

    // A position for a new node.
    method TakePos() returns (pos: Ref)
      modifies this
      ensures (State(), pos) == Take(old(State()))
    {
      if deletedNodesPos != [] {
        pos := deletedNodesPos[0];
        deletedNodesPos := deletedNodesPos[1..];
      } else {
        pos := nextPosNode;
        nextPosNode := nextPosNode + 1;
      }
    }
  }

  datatype BFlag = LEAF | INTERNAL | DELETED

  class BTreeNode {
    const T: nat
    const arrEntry: array<Key>
    const arrChild: array<Ref>
    var flag: BFlag
    var nEntry: nat
    var pos: Ref

    ghost predicate Valid() reads this {
      && T >= 2 && arrEntry.Length == 2 * T - 1 && arrChild.Length == 2 * T && arrEntry as object != arrChild
      && nEntry <= arrEntry.Length
    }

    // What the node's page holds when it is written.
    function View(): BPage
      requires Valid()
      reads this, arrEntry, arrChild
    {
      if flag == DELETED then BDeleted
      else BPage(flag == LEAF, arrEntry[..nEntry], if flag == LEAF then [] else arrChild[..nEntry + 1])
    }

    lemma ViewOK()
      requires Valid()
      ensures flag == DELETED <==> View() == BDeleted
      ensures flag != DELETED ==> PageOK(View()) && View().keys == arrEntry[..nEntry] && View().leaf == (flag == LEAF)
    {
    }

    function KeyAt(i: nat): (k: Key)
      requires Valid() && i < nEntry && flag != DELETED
      reads this, arrEntry, arrChild
      ensures k == View().keys[i]
    {
      arrEntry[i]
    }

    // At a leaf the children are not used.
    function ChildAt(i: nat): (r: Ref)
      requires Valid() && i <= nEntry
      reads this, arrEntry, arrChild
      ensures flag == INTERNAL ==> r == View().refs[i]
    {
      arrChild[i]
    }

    ghost predicate Distinct(n: BTreeNode) {
      && n != this && n.arrEntry != arrEntry && n.arrChild != arrChild
      && n.arrEntry as object != arrChild && n.arrChild as object != arrEntry
    }

    ghost predicate Holds(t: Tree)
      reads this, arrEntry, arrChild
    {
      Valid() && View() == PageOf(t) && pos == t.id
    }

    constructor (isLeaf: bool, maxDegree: nat)
      requires maxDegree >= 2
      ensures Valid() && fresh(arrEntry) && fresh(arrChild) && T == maxDegree
      ensures nEntry == 0 && flag == (if isLeaf then LEAF else INTERNAL)
    {
      T := maxDegree;
      arrEntry := new Key[2 * maxDegree - 1](_ => 0);
      arrChild := new Ref[2 * maxDegree](_ => 0);
      flag := if isLeaf then LEAF else INTERNAL;
      nEntry, pos := 0, 0;
    }

    static method ReadNode(file: NodeFile, maxDegree: nat, p: Ref) returns (n: BTreeNode)
      requires maxDegree >= 2 && p in file.pages && BFits(file.pages[p], maxDegree)
      ensures fresh(n) && fresh(n.arrEntry) && fresh(n.arrChild)
      ensures n.Valid() && n.T == maxDegree && n.pos == p && n.View() == file.pages[p]
    {
      var page := file.pages[p];
      n := new BTreeNode(page.leaf, maxDegree);
      n.pos := p;
      n.nEntry := |page.keys|;
      var i := 0;
      while i < n.nEntry
        modifies n.arrEntry, n.arrChild
        invariant 0 <= i <= n.nEntry && n.nEntry == |page.keys|
        invariant n.arrEntry[..i] == page.keys[..i] && (!page.leaf ==> n.arrChild[..i] == page.refs[..i])
      {
        n.arrEntry[i] := page.keys[i];
        if !page.leaf {
          n.arrChild[i] := page.refs[i];
        }
        i := i + 1;
      }
      if !page.leaf {
        n.arrChild[i] := page.refs[i];
      }
    }

    method WriteNode(file: NodeFile)
      requires Valid()
      modifies file
      ensures file.State() == PutPage(old(file.State()), pos, View())
    {
      file.pages := file.pages[pos := View()];
    }

    // ----- the arrays -----

    // Opens a gap for key i and for the child to its right.
    method OpenGap(idx: nat)
      requires Valid() && idx <= nEntry < arrEntry.Length
      modifies arrEntry, arrChild
      ensures forall j :: 0 <= j < idx ==> arrEntry[j] == old(arrEntry[j])
      ensures forall j :: idx < j <= nEntry ==> arrEntry[j] == old(arrEntry[j - 1])
      ensures forall j :: 0 <= j <= idx ==> arrChild[j] == old(arrChild[j])
      ensures forall j :: idx + 1 < j <= nEntry + 1 ==> arrChild[j] == old(arrChild[j - 1])
    {
      var j := nEntry;
      while j >= idx + 1
        modifies arrChild
        invariant idx <= j <= nEntry
        invariant forall x :: 0 <= x <= j ==> arrChild[x] == old(arrChild[x])
        invariant forall x :: j + 1 < x <= nEntry + 1 ==> arrChild[x] == old(arrChild[x - 1])
      {
        arrChild[j + 1] := arrChild[j];
        j := j - 1;
      }
      var i := nEntry - 1;
      while i >= idx
        modifies arrEntry
        invariant idx - 1 <= i < nEntry
        invariant forall x :: 0 <= x <= i ==> arrEntry[x] == old(arrEntry[x])
        invariant forall x :: i + 1 < x <= nEntry ==> arrEntry[x] == old(arrEntry[x - 1])
      {
        arrEntry[i + 1] := arrEntry[i];
        i := i - 1;
      }
    }

    // A split child's upper key comes in at idx, with the new node to its right.
    method PutKey(idx: nat, key: Key, child: Ref)
      requires Valid() && idx <= nEntry < arrEntry.Length && flag == INTERNAL
      modifies this`nEntry, arrEntry, arrChild
      ensures Valid()
      ensures View() == WithKey(old(View()), idx, key, child)
    {
      ghost var v := View();
      OpenGap(idx);
      arrEntry[idx] := key;
      arrChild[idx + 1] := child;
      nEntry := nEntry + 1;
      IsInserted(arrEntry[..nEntry], v.keys, idx, key);
      IsInserted(arrChild[..nEntry + 1], v.refs, idx + 1, child);
    }

    // Key idx and the child to its right go away.
    method DropKey(idx: nat)
      requires Valid() && idx < nEntry && flag != DELETED
      modifies this`nEntry, arrEntry, arrChild
      ensures Valid()
      ensures View() == WithoutKey(old(View()), idx)
    {
      ghost var v := View();
      CloseGap(idx);
      nEntry := nEntry - 1;
      IsRemoved(arrEntry[..nEntry], v.keys, idx);
      if flag == INTERNAL {
        IsRemoved(arrChild[..nEntry + 1], v.refs, idx + 1);
      }
    }

    method CloseGap(idx: nat)
      requires Valid() && idx < nEntry
      modifies arrEntry, arrChild
      ensures forall j :: 0 <= j < idx ==> arrEntry[j] == old(arrEntry[j])
      ensures forall j :: idx <= j < nEntry - 1 ==> arrEntry[j] == old(arrEntry[j + 1])
      ensures forall j :: 0 <= j <= idx ==> arrChild[j] == old(arrChild[j])
      ensures forall j :: idx < j < nEntry ==> arrChild[j] == old(arrChild[j + 1])
    {
      var i := idx + 1;
      while i < nEntry
        modifies arrEntry
        invariant idx + 1 <= i <= nEntry
        invariant forall x :: 0 <= x < idx || i <= x < nEntry ==> arrEntry[x] == old(arrEntry[x])
        invariant forall x :: idx <= x < i - 1 ==> arrEntry[x] == old(arrEntry[x + 1])
      {
        arrEntry[i - 1] := arrEntry[i];
        i := i + 1;
      }
      var j := idx + 2;
      while j <= nEntry
        modifies arrChild
        invariant idx + 2 <= j <= nEntry + 1
        invariant forall x :: 0 <= x <= idx || j <= x <= nEntry ==> arrChild[x] == old(arrChild[x])
        invariant forall x :: idx < x < j - 1 ==> arrChild[x] == old(arrChild[x + 1])
      {
        arrChild[j - 1] := arrChild[j];
        j := j + 1;
      }
    }

    // A key and a child at the right end.
    method Append(key: Key, child: Ref)
      requires Valid() && nEntry < arrEntry.Length && flag != DELETED
      modifies this`nEntry, arrEntry, arrChild
      ensures Valid()
      ensures var v := old(View()); View() == BPage(v.leaf, v.keys + [key], if v.leaf then [] else v.refs + [child])
    {
      arrEntry[nEntry] := key;
      if flag != LEAF {
        arrChild[nEntry + 1] := child;
      }
      nEntry := nEntry + 1;
    }

    // A key and a child at the left end.
    method Prepend(key: Key, child: Ref)
      requires Valid() && nEntry < arrEntry.Length && flag != DELETED
      modifies this`nEntry, arrEntry, arrChild
      ensures Valid()
      ensures var v := old(View()); View() == BPage(v.leaf, [key] + v.keys, if v.leaf then [] else [child] + v.refs)
    {
      ghost var v := View();
      ShiftRight();
      arrEntry[0] := key;
      if flag != LEAF {
        arrChild[0] := child;
      }
      nEntry := nEntry + 1;
      IsInFront(arrEntry[..nEntry], v.keys, key);
      if flag != LEAF {
        IsInFront(arrChild[..nEntry + 1], v.refs, child);
      }
    }

    method ShiftRight()
      requires Valid() && nEntry < arrEntry.Length
      modifies arrEntry, arrChild
      ensures forall j :: 0 < j <= nEntry ==> arrEntry[j] == old(arrEntry[j - 1])
      ensures flag != LEAF ==> forall j :: 0 < j <= nEntry + 1 ==> arrChild[j] == old(arrChild[j - 1])
    {
      var i := nEntry - 1;
      while i >= 0
        modifies arrEntry
        invariant -1 <= i < nEntry
        invariant forall x :: 0 <= x <= i ==> arrEntry[x] == old(arrEntry[x])
        invariant forall x :: i + 1 < x <= nEntry ==> arrEntry[x] == old(arrEntry[x - 1])
      {
        arrEntry[i + 1] := arrEntry[i];
        i := i - 1;
      }
      if flag != LEAF {
        i := nEntry;
        while i >= 0
          modifies arrChild
          invariant -1 <= i <= nEntry
          invariant forall x :: 0 <= x <= i ==> arrChild[x] == old(arrChild[x])
          invariant forall x :: i + 1 < x <= nEntry + 1 ==> arrChild[x] == old(arrChild[x - 1])
        {
          arrChild[i + 1] := arrChild[i];
          i := i - 1;
        }
      }
    }

    // The first key and child go away.
    method DropFirst()
      requires Valid() && nEntry > 0 && flag != DELETED
      modifies this`nEntry, arrEntry, arrChild
      ensures Valid()
      ensures View() == WithoutFirst(old(View()))
    {
      ghost var v := View();
      ShiftLeft();
      nEntry := nEntry - 1;
      assert arrEntry[..nEntry] == v.keys[1..];
      assert flag != LEAF ==> arrChild[..nEntry + 1] == v.refs[1..];
    }

    method ShiftLeft()
      requires Valid() && nEntry > 0
      modifies arrEntry, arrChild
      ensures forall j :: 0 <= j < nEntry - 1 ==> arrEntry[j] == old(arrEntry[j + 1])
      ensures flag != LEAF ==> forall j :: 0 <= j < nEntry ==> arrChild[j] == old(arrChild[j + 1])
    {
      var i := 1;
      while i < nEntry
        modifies arrEntry
        invariant 1 <= i <= nEntry
        invariant forall x :: 0 <= x < i - 1 ==> arrEntry[x] == old(arrEntry[x + 1])
        invariant forall x :: i <= x < nEntry ==> arrEntry[x] == old(arrEntry[x])
      {
        arrEntry[i - 1] := arrEntry[i];
        i := i + 1;
      }
      if flag != LEAF {
        i := 1;
        while i <= nEntry
          modifies arrChild
          invariant 1 <= i <= nEntry + 1
          invariant forall x :: 0 <= x < i - 1 ==> arrChild[x] == old(arrChild[x + 1])
          invariant forall x :: i <= x <= nEntry ==> arrChild[x] == old(arrChild[x])
        {
          arrChild[i - 1] := arrChild[i];
          i := i + 1;
        }
      }
    }

    // The last key and child go away.
    method DropLast()
      requires Valid() && nEntry > 0 && flag != DELETED
      modifies this`nEntry
      ensures Valid()
      ensures View() == WithoutLast(old(View()))
    {
      nEntry := nEntry - 1;
    }

    method SetKeyAt(idx: nat, key: Key)
      requires Valid() && idx < nEntry && flag != DELETED
      modifies arrEntry
      ensures View() == WithKeyAt(old(View()), idx, key)
    {
      arrEntry[idx] := key;
      assert arrEntry[..nEntry] == old(arrEntry[..nEntry])[idx := key];
    }

    // A key and the whole of the next node are put behind the first T-1 keys.
    method TakeIn(key: Key, next: BTreeNode)
      requires Valid() && next.Valid() && Distinct(next) && next.T == T && next.flag == flag != DELETED
      requires nEntry == T - 1 && next.nEntry <= T - 1
      modifies this`nEntry, arrEntry, arrChild
      ensures Valid()
      ensures View() == Fused(old(View()), key, next.View())
    {
      TakeKeys(key, next);
      TakeChilds(next);
      nEntry := nEntry + next.nEntry + 1;
    }

    // The key goes behind the first T-1, and the next node's keys behind it,
    method TakeKeys(key: Key, next: BTreeNode)
      requires Valid() && next.Valid() && Distinct(next) && next.nEntry <= T - 1
      modifies arrEntry
      ensures arrEntry[..T + next.nEntry] == old(arrEntry[..T - 1]) + [key] + next.arrEntry[..next.nEntry]
    {
      arrEntry[T - 1] := key;
      var i := 0;
      while i < next.nEntry
        modifies arrEntry
        invariant 0 <= i <= next.nEntry
        invariant arrEntry[..T + i] == old(arrEntry[..T - 1]) + [key] + next.arrEntry[..i]
      {
        arrEntry[i + T] := next.arrEntry[i];
        i := i + 1;
      }
    }

    // and its children behind the first T.
    method TakeChilds(next: BTreeNode)
      requires Valid() && next.Valid() && Distinct(next) && next.nEntry <= T - 1
      modifies arrChild
      ensures flag != LEAF ==> arrChild[..T + next.nEntry + 1] == old(arrChild[..T]) + next.arrChild[..next.nEntry + 1]
    {
      if flag != LEAF {
        var i := 0;
        while i <= next.nEntry
          modifies arrChild
          invariant 0 <= i <= next.nEntry + 1
          invariant arrChild[..T + i] == old(arrChild[..T]) + next.arrChild[..i]
        {
          arrChild[i + T] := next.arrChild[i];
          i := i + 1;
        }
      }
    }

    // The upper T-1 keys of a full node move to a new one; the middle one is returned.
    method GiveUpper(newNode: BTreeNode) returns (mid: Key)
      requires Valid() && newNode.Valid() && Distinct(newNode) && newNode.T == T && newNode.flag == flag != DELETED
      requires nEntry == 2 * T - 1 && newNode.nEntry == 0
      modifies this`nEntry, newNode`nEntry, newNode.arrEntry, newNode.arrChild
      ensures Valid() && newNode.Valid()
      ensures var v := old(View());
              mid == v.keys[T - 1] && View() == LowerPart(v, T - 1) && newNode.View() == UpperPart(v, T - 1)
    {
      var j := 0;
      while j < T - 1
        modifies newNode.arrEntry
        invariant 0 <= j <= T - 1
        invariant newNode.arrEntry[..j] == arrEntry[T..T + j]
      {
        newNode.arrEntry[j] := arrEntry[j + T];
        j := j + 1;
      }
      if flag != LEAF {
        j := 0;
        while j < T
          modifies newNode.arrChild
          invariant 0 <= j <= T
          invariant newNode.arrChild[..j] == arrChild[T..T + j]
        {
          newNode.arrChild[j] := arrChild[j + T];
          j := j + 1;
        }
      }
      newNode.nEntry := T - 1;
      nEntry := T - 1;
      mid := arrEntry[T - 1];
    }

    // How many keys are below the given one, seen from the left,
    method ScanUp(key: Key) returns (i: nat)
      requires Valid() && Sorted(arrEntry[..nEntry])
      ensures i == FirstGE(arrEntry[..nEntry], key)
    {
      i := 0;
      while i < nEntry && arrEntry[i] < key
        invariant 0 <= i <= nEntry
        invariant i > 0 ==> arrEntry[i - 1] < key
      {
        i := i + 1;
      }
      FirstGEIs(arrEntry[..nEntry], key, i);
    }

    // and from the right, where the key is not in the node.
    method ScanDown(key: Key) returns (i: nat)
      requires Valid() && Sorted(arrEntry[..nEntry]) && key !in arrEntry[..nEntry]
      ensures i == FirstGE(arrEntry[..nEntry], key)
    {
      var j := nEntry - 1;
      while j >= 0 && key < arrEntry[j]
        invariant -1 <= j < nEntry
        invariant j + 1 < nEntry ==> key < arrEntry[j + 1]
      {
        j := j - 1;
      }
      i := j + 1;
      assert j >= 0 ==> arrEntry[j] == arrEntry[..nEntry][j];
      FirstGEIs(arrEntry[..nEntry], key, i);
    }

    method InsertAtLeaf(key: Key)
      requires Valid() && flag == LEAF && nEntry < arrEntry.Length && Sorted(arrEntry[..nEntry]) && key !in arrEntry[..nEntry]
      modifies this`nEntry, arrEntry
      ensures Valid()
      ensures var v := old(View()); View() == BPage(true, InsertAt(v.keys, FirstGE(v.keys, key), key), [])
    {
      hide FirstGE, InsertAt;
      ghost var ks := arrEntry[..nEntry];
      var i := ShiftAbove(key);
      arrEntry[i] := key;
      nEntry := nEntry + 1;
      IsInserted(arrEntry[..nEntry], ks, i, key);
    }

    // The keys above the given one move right, and leave room for it at the result.
    method ShiftAbove(key: Key) returns (at: nat)
      requires Valid() && nEntry < arrEntry.Length && Sorted(arrEntry[..nEntry]) && key !in arrEntry[..nEntry]
      modifies arrEntry
      ensures at <= nEntry && at == FirstGE(old(arrEntry[..nEntry]), key)
      ensures forall x :: 0 <= x < at ==> arrEntry[x] == old(arrEntry[x])
      ensures forall x :: at < x <= nEntry ==> arrEntry[x] == old(arrEntry[x - 1])
    {
      ghost var ks := arrEntry[..nEntry];
      var i := nEntry - 1;
      while i >= 0 && key < arrEntry[i]
        modifies arrEntry
        invariant -1 <= i < nEntry
        invariant forall x :: 0 <= x <= i ==> arrEntry[x] == old(arrEntry[x])
        invariant forall x :: i + 1 < x <= nEntry ==> arrEntry[x] == old(arrEntry[x - 1])
        invariant i + 1 < nEntry ==> key < ks[i + 1]
      {
        arrEntry[i + 1] := arrEntry[i];
        i := i - 1;
      }
      at := i + 1;
      assert i >= 0 ==> arrEntry[i] == ks[i];
      FirstGEIs(ks, key, at);
    }

    // ----- rearranging children -----

    static method WriteThree(file: NodeFile, a: BTreeNode, b: BTreeNode, c: BTreeNode)
      requires a.Valid() && b.Valid() && c.Valid()
      modifies file
      ensures file.State() == PutPage(PutPage(PutPage(old(file.State()), a.pos, a.View()), b.pos, b.View()), c.pos, c.View())
    {
      hide PutPage;
      a.WriteNode(file);
      b.WriteNode(file);
      c.WriteNode(file);
    }

    // A full child is cut in two below this node.
    method SplitInto(idx: nat, child: BTreeNode, newNode: BTreeNode)
      requires Valid() && flag == INTERNAL && idx <= nEntry < 2 * T - 1
      requires child.Valid() && child.T == T && child.nEntry == 2 * T - 1 && Distinct(child)
      requires newNode.Valid() && newNode.T == T && newNode.nEntry == 0 && Distinct(newNode) && child.Distinct(newNode)
      requires newNode.flag == child.flag != DELETED
      modifies this`nEntry, arrEntry, arrChild, child`nEntry, newNode`nEntry, newNode.arrEntry, newNode.arrChild
      ensures Valid() && child.Valid() && newNode.Valid()
      ensures var v := old(child.View());
              && View() == WithKey(old(View()), idx, v.keys[T - 1], newNode.pos)
              && child.View() == LowerPart(v, T - 1) && newNode.View() == UpperPart(v, T - 1)
    {
      hide WithKey, LowerPart, UpperPart;
      var mid := child.GiveUpper(newNode);
      PutKey(idx, mid, newNode.pos);
    }

    method SplitChild(file: NodeFile, idx: nat, child: BTreeNode, ghost f: Tree)
      requires Holds(f) && idx < |f.kids| == |f.keys| + 1 && nEntry < 2 * T - 1
      requires child.Holds(f.kids[idx]) && child.T == T && child.nEntry == 2 * T - 1 && Distinct(child)
      requires Row(f.kids[idx].keys, f.kids[idx].kids)
      modifies this`nEntry, arrEntry, arrChild, child`nEntry, file
      ensures var (f1, s1) := BTrees.SplitChild(f, idx, T, old(file.State()));
              Holds(f1) && child.Holds(f1.kids[idx]) && file.State() == s1
    {
      hide PageOf, Part, WithKey, LowerPart, UpperPart, Take, PutPage, KidIds, BTrees.SplitChild, View;
      ViewOK();
      child.ViewOK();
      PageShape(f);
      PageShape(f.kids[idx]);
      SplitChildIs(f, idx, T, file.State());
      var newNode := new BTreeNode(child.flag == LEAF, T);
      newNode.pos := file.TakePos();
      ghost var f1 := Part(f, idx, T - 1, newNode.pos);
      PartPages(f, idx, T - 1, newNode.pos);
      SplitInto(idx, child, newNode);
      assert View() == PageOf(f1) && child.View() == PageOf(f1.kids[idx]) && newNode.View() == PageOf(f1.kids[idx + 1]);
      WriteThree(file, child, this, newNode);
    }

    // This node holds f, whose children idx and idx+1 can be read.
    ghost predicate Above(file: NodeFile, idx: nat, f: Tree)
      reads this, arrEntry, arrChild, file
    {
      && Holds(f) && |f.kids| == |f.keys| + 1 && idx < |f.keys|
      && Readable(f.kids[idx], T, file.pages) && Readable(f.kids[idx + 1], T, file.pages) && Alike(f, idx)
    }

    // Child j, read from its page.
    method ReadChild(file: NodeFile, j: nat, ghost f: Tree) returns (child: BTreeNode)
      requires Holds(f) && j < |f.kids| == |f.keys| + 1 && Readable(f.kids[j], T, file.pages)
      ensures fresh(child) && fresh(child.arrEntry) && fresh(child.arrChild)
      ensures child.Holds(f.kids[j]) && child.T == T && child.nEntry == |f.kids[j].keys|
      ensures child.flag == if f.kids[j].kids == [] then LEAF else INTERNAL
    {
      assert arrChild[..nEntry + 1] == KidIds(f.kids);
      child := ReadNode(file, T, arrChild[j]);
    }

    // This node between two of its children.
    ghost predicate Family(a: BTreeNode, b: BTreeNode)
      reads this, a, b
    {
      && Valid() && a.Valid() && b.Valid() && a.T == T && b.T == T && flag == INTERNAL && a.flag == b.flag != DELETED
      && Distinct(a) && Distinct(b) && a.Distinct(b)
    }

    // Children idx and idx+1, read from their pages.
    method ReadTwo(file: NodeFile, idx: nat, ghost f: Tree) returns (a: BTreeNode, b: BTreeNode)
      requires Above(file, idx, f)
      ensures fresh(a) && fresh(a.arrEntry) && fresh(a.arrChild) && fresh(b) && fresh(b.arrEntry) && fresh(b.arrChild)
      ensures Family(a, b) && a.Holds(f.kids[idx]) && b.Holds(f.kids[idx + 1])
      ensures a.nEntry == |f.kids[idx].keys| && b.nEntry == |f.kids[idx + 1].keys|
    {
      hide Readable, BFits, PageOf;
      PageShape(f);
      a := ReadChild(file, idx, f);
      b := ReadChild(file, idx + 1, f);
    }

    method ShiftFromNext(idx: nat, child: BTreeNode, next: BTreeNode)
      requires Family(child, next) && idx < nEntry && child.nEntry < 2 * T - 1 && next.nEntry >= 1
      modifies arrEntry, child`nEntry, child.arrEntry, child.arrChild, next`nEntry, next.arrEntry, next.arrChild
      ensures Family(child, next)
      ensures var (f, a, b) := (old(View()), old(child.View()), old(next.View()));
              && View() == WithKeyAt(f, idx, b.keys[0])
              && child.View() == WithLast(a, f.keys[idx], b) && next.View() == WithoutFirst(b)
    {
      hide WithKeyAt, WithoutFirst, View;
      ViewOK();
      child.ViewOK();
      next.ViewOK();
      child.Append(KeyAt(idx), next.ChildAt(0));
      SetKeyAt(idx, next.KeyAt(0));
      next.DropFirst();
    }

    method BorrowFromNextNode(file: NodeFile, idx: nat, ghost f: Tree)
      requires Above(file, idx, f) && |f.kids[idx].keys| < 2 * T - 1 && |f.kids[idx + 1].keys| >= 1
      modifies arrEntry, file
      ensures var (f1, s1) := BorrowFromNext(f, idx, old(file.State())); Holds(f1) && file.State() == s1
    {
      hide PageOf, Part, Join, Readable, BFits, KidIds, PutPage, WithKeyAt, WithLast, WithFirst, WithoutFirst, WithoutLast, View;
      ViewOK();
      PageShape(f);
      PageShape(f.kids[idx]);
      var child, nextChild := ReadTwo(file, idx, f);
      BorrowNextPages(f, idx);
      ghost var f1 := BorrowFromNext(f, idx, file.State()).0;
      ShiftFromNext(idx, child, nextChild);
      assert View() == PageOf(f1) && child.View() == PageOf(f1.kids[idx]) && nextChild.View() == PageOf(f1.kids[idx + 1]);
      WriteThree(file, this, child, nextChild);
    }

    method ShiftFromPrev(idx: nat, child: BTreeNode, prev: BTreeNode)
      requires Family(prev, child) && 0 < idx <= nEntry && child.nEntry < 2 * T - 1 && prev.nEntry >= 1
      modifies arrEntry, child`nEntry, child.arrEntry, child.arrChild, prev`nEntry
      ensures Family(prev, child)
      ensures var (f, a, b) := (old(View()), old(prev.View()), old(child.View()));
              && View() == WithKeyAt(f, idx - 1, a.keys[|a.keys| - 1])
              && prev.View() == WithoutLast(a) && child.View() == WithFirst(b, f.keys[idx - 1], a)
    {
      hide WithKeyAt, WithoutLast, View;
      ViewOK();
      child.ViewOK();
      prev.ViewOK();
      child.Prepend(KeyAt(idx - 1), prev.ChildAt(prev.nEntry));
      SetKeyAt(idx - 1, prev.KeyAt(prev.nEntry - 1));
      prev.DropLast();
    }

    method BorrowFromPrevNode(file: NodeFile, idx: nat, ghost f: Tree)
      requires idx > 0 && Above(file, idx - 1, f) && |f.kids[idx].keys| < 2 * T - 1 && |f.kids[idx - 1].keys| >= 1
      modifies arrEntry, file
      ensures var (f1, s1) := BorrowFromPrev(f, idx, old(file.State())); Holds(f1) && file.State() == s1
    {
      hide PageOf, Part, Join, Readable, BFits, KidIds, PutPage, WithKeyAt, WithLast, WithFirst, WithoutFirst, WithoutLast, View;
      ViewOK();
      PageShape(f);
      PageShape(f.kids[idx]);
      PageShape(f.kids[idx - 1]);
      var prevChild, child := ReadTwo(file, idx - 1, f);
      BorrowPrevPages(f, idx);
      ghost var f1 := BorrowFromPrev(f, idx, file.State()).0;
      ShiftFromPrev(idx, child, prevChild);
      assert View() == PageOf(f1) && child.View() == PageOf(f1.kids[idx]) && prevChild.View() == PageOf(f1.kids[idx - 1]);
      WriteThree(file, this, child, prevChild);
    }

    method MergeInto(idx: nat, child: BTreeNode, next: BTreeNode)
      requires Family(child, next) && idx < nEntry && child.nEntry == T - 1 && next.nEntry <= T - 1
      modifies this`nEntry, arrEntry, arrChild, child`nEntry, child.arrEntry, child.arrChild
      ensures Family(child, next)
      ensures var (f, a, b) := (old(View()), old(child.View()), next.View());
              View() == WithoutKey(f, idx) && child.View() == Fused(a, f.keys[idx], b)
    {
      hide WithoutKey, Fused, View;
      ViewOK();
      child.ViewOK();
      next.ViewOK();
      child.TakeIn(KeyAt(idx), next);
      DropKey(idx);
    }

    method MergeNodes(file: NodeFile, idx: nat, ghost f: Tree)
      requires Above(file, idx, f) && |f.kids[idx].keys| == T - 1 && |f.kids[idx + 1].keys| <= T - 1
      modifies this`nEntry, arrEntry, arrChild, file
      ensures var (f1, s1) := BTrees.MergeNodes(f, idx, old(file.State())); Holds(f1) && file.State() == s1
    {
      hide PageOf, Join, Readable, BFits, KidIds, PutPage, WithoutKey, Fused, View;
      ViewOK();
      PageShape(f);
      PageShape(f.kids[idx]);
      var child, nextChild := ReadTwo(file, idx, f);
      JoinPages(f, idx);
      MergeInto(idx, child, nextChild);
      file.deletedNodesPos := file.deletedNodesPos + [nextChild.pos];
      nextChild.flag := DELETED;
      nextChild.ViewOK();
      WriteThree(file, child, nextChild, this);
    }

    method FillNode(file: NodeFile, idx: nat, ghost f: Tree)
      requires Holds(f) && Opened(f, T, file.pages) && idx < |f.kids| && |f.kids[idx].keys| < T && |f.keys| >= 1
      modifies this`nEntry, arrEntry, arrChild, file
      ensures var (f1, s1) := BTrees.FillNode(f, idx, T, old(file.State())); Holds(f1) && file.State() == s1
    {
      hide PageOf, Readable, View, BTrees.BorrowFromPrev, BTrees.BorrowFromNext, BTrees.MergeNodes, Alike;
      ViewOK();
      PageShape(f);
      var prevChild: BTreeNode?, nextChild: BTreeNode? := null, null;
      if idx != 0 {
        prevChild := ReadChild(file, idx - 1, f);
      }
      if idx != nEntry {
        nextChild := ReadChild(file, idx + 1, f);
      }
      if idx != 0 && prevChild.nEntry >= T {
        BorrowFromPrevNode(file, idx, f);
      } else if idx != nEntry && nextChild.nEntry >= T {
        BorrowFromNextNode(file, idx, f);
      } else if idx != nEntry {
        MergeNodes(file, idx, f);
      } else {
        MergeNodes(file, idx - 1, f);
      }
    }

    // ----- insertion -----

    method InsertHere(file: NodeFile, key: Key, ghost t: Tree)
      requires Holds(t) && t.kids == [] && |t.keys| < 2 * T - 1 && Sorted(t.keys) && key !in t.keys
      modifies this`nEntry, arrEntry, arrChild, file
      ensures var t1 := Node(t.id, InsertAt(t.keys, FirstGE(t.keys, key), key), t.kids);
              Holds(t1) && file.State() == Write(old(file.State()), t1)
    {
      hide FirstGE, InsertAt;
      InsertAtLeaf(key);
      WriteNode(file);
    }

    // The child the key routes to is split if it is full, and the half to enter is chosen.
    method PrepareChild(file: NodeFile, key: Key, ghost t: Tree) returns (i: nat)
      requires Holds(t) && Opened(t, T, file.pages) && |t.keys| < 2 * T - 1 && Sorted(t.keys) && key !in t.keys
      modifies this`nEntry, arrEntry, arrChild, file
      ensures var s, j := old(file.State()), FirstGE(t.keys, key);
              var (t1, s1) := if |t.kids[j].keys| == 2 * T - 1 then BTrees.SplitChild(t, j, T, s) else (t, s);
              && Holds(t1) && file.State() == s1
              && i == (if |t1.keys| > |t.keys| && t1.keys[j] < key then j + 1 else j)
    {
      hide PageOf, View, BTrees.SplitChild, FirstGE, Readable;
      ViewOK();
      PageShape(t);
      i := ScanDown(key);
      var childNode := ReadChild(file, i, t);
      if childNode.nEntry == 2 * T - 1 {
        ghost var t1 := BTrees.SplitChild(t, i, T, file.State()).0;
        SplitChild(file, i, childNode, t);
        PageShape(t1);
        ViewOK();
        if KeyAt(i) < key {
          i := i + 1;
        }
      }
    }

    // A key met on the way stays; only its value would be overwritten.
    method InsertNonFull(file: NodeFile, key: Key, ghost t: Tree, ghost h: nat, ghost lo: Key, ghost hi: Key)
      requires Holds(t) && InsertEnters(t, key, T, h, lo, hi, file.State())
      modifies this`nEntry, arrEntry, arrChild, file
      ensures var (t1, s1) := BTrees.InsertNonFull(t, key, T, h, old(file.State())); Holds(t1) && file.State() == s1
      decreases h
    {
      hide Good, Content, PageOf, View, BTrees.SplitChild, FirstGE, OnFile, Write, Readable, Opened, InsertAt, Row;
      ViewOK();
      PageShape(t);
      NodeShape(t, T, h, lo, hi);
      var at := ScanUp(key);
      if at < nEntry && KeyAt(at) == key {
        return;
      }
      Missing(t.keys, key);
      if flag == LEAF {
        InsertHere(file, key, t);
        return;
      }
      ghost var s, j := file.State(), FirstGE(t.keys, key);
      InsertDescends(t, key, T, h, lo, hi, s);
      Openable(t, T, h, lo, hi, s);
      ghost var t1 := if |t.kids[j].keys| == 2 * T - 1 then BTrees.SplitChild(t, j, T, s).0 else t;
      var i := PrepareChild(file, key, t);
      ghost var c, s1 := t1.kids[i], file.State();
      var childNode := ReadChild(file, i, t1);
      childNode.InsertNonFull(file, key, c, h - 1, Lo(t1.keys, i, lo), Ceiling(t1, i, key, hi));
      SamePage(t1, i, BTrees.InsertNonFull(c, key, T, h - 1, s1).0);
    }

    // ----- removal -----

    method RemoveFromLeaf(file: NodeFile, idx: nat, ghost t: Tree)
      requires Holds(t) && t.kids == [] && idx < |t.keys|
      modifies this`nEntry, arrEntry, arrChild, file
      ensures var t1 := Node(t.id, RemoveAt(t.keys, idx), t.kids); Holds(t1) && file.State() == Write(old(file.State()), t1)
    {
      hide RemoveAt;
      DropKey(idx);
      WriteNode(file);
    }

    // The leaf with the last key below child idx,
    method GetPredNode(file: NodeFile, idx: nat, ghost t: Tree, ghost h: nat, ghost lo: Key, ghost hi: Key) returns (n: BTreeNode)
      requires Holds(t) && Good(t, T, h, lo, hi) && h > 0 && OnFile(t, file.State()) && idx < |t.kids|
      ensures fresh(n) && fresh(n.arrEntry) && fresh(n.arrChild)
      ensures n.Valid() && n.flag == LEAF && n.nEntry > 0 && n.KeyAt(n.nEntry - 1) == LastKey(t.kids[idx])
    {
      hide Good, PageOf, OnFile, Readable, View;
      ViewOK();
      PageShape(t);
      EndDescends(t, idx, T, h, lo, hi, file.State());
      n := ReadChild(file, idx, t);
      ghost var d: nat := h - 1;
      ghost var c, l, u := t.kids[idx], Lo(t.keys, idx, lo), Hi(t.keys, idx, hi);
      while n.flag != LEAF
        invariant fresh(n) && fresh(n.arrEntry) && fresh(n.arrChild)
        invariant n.Holds(c) && n.T == T && n.nEntry == |c.keys| >= 1 && n.flag == if c.kids == [] then LEAF else INTERNAL
        invariant Good(c, T, d, l, u) && OnFile(c, file.State()) && LastKey(c) == LastKey(t.kids[idx])
        decreases d
      {
        NodeShape(c, T, d, l, u);
        n.ViewOK();
        PageShape(c);
        EndDescends(c, n.nEntry, T, d, l, u, file.State());
        l, u := Lo(c.keys, n.nEntry, l), Hi(c.keys, n.nEntry, u);
        ghost var c1 := c.kids[n.nEntry];
        n := n.ReadChild(file, n.nEntry, c);
        c, d := c1, d - 1;
      }
      PageShape(c);
      n.ViewOK();
    }

    // and the one with the first key below child idx+1.
    method GetSuccNode(file: NodeFile, idx: nat, ghost t: Tree, ghost h: nat, ghost lo: Key, ghost hi: Key) returns (n: BTreeNode)
      requires Holds(t) && Good(t, T, h, lo, hi) && h > 0 && OnFile(t, file.State()) && idx + 1 < |t.kids|
      ensures fresh(n) && fresh(n.arrEntry) && fresh(n.arrChild)
      ensures n.Valid() && n.flag == LEAF && n.nEntry > 0 && n.KeyAt(0) == FirstKey(t.kids[idx + 1])
    {
      hide Good, PageOf, OnFile, Readable, View;
      ViewOK();
      PageShape(t);
      EndDescends(t, idx + 1, T, h, lo, hi, file.State());
      n := ReadChild(file, idx + 1, t);
      ghost var d: nat := h - 1;
      ghost var c, l, u := t.kids[idx + 1], Lo(t.keys, idx + 1, lo), Hi(t.keys, idx + 1, hi);
      while n.flag != LEAF
        invariant fresh(n) && fresh(n.arrEntry) && fresh(n.arrChild)
        invariant n.Holds(c) && n.T == T && n.nEntry == |c.keys| >= 1 && n.flag == if c.kids == [] then LEAF else INTERNAL
        invariant Good(c, T, d, l, u) && OnFile(c, file.State()) && FirstKey(c) == FirstKey(t.kids[idx + 1])
        decreases d
      {
        NodeShape(c, T, d, l, u);
        n.ViewOK();
        PageShape(c);
        EndDescends(c, 0, T, d, l, u, file.State());
        u := Hi(c.keys, 0, u);
        ghost var c1 := c.kids[0];
        n := n.ReadChild(file, 0, c);
        c, d := c1, d - 1;
      }
      PageShape(c);
      n.ViewOK();
    }

    // The child the key routes to is filled if it is thin, and found again.
    method FillChild(file: NodeFile, idx: nat, ghost t: Tree) returns (j: nat)
      requires Holds(t) && Opened(t, T, file.pages) && |t.keys| >= 1 && idx < |t.kids|
      modifies this`nEntry, arrEntry, arrChild, file
      ensures var s := old(file.State());
              var (f, s1) := if |t.kids[idx].keys| < T then BTrees.FillNode(t, idx, T, s) else (t, s);
              && Holds(f) && file.State() == s1
              && j == (if idx == |t.keys| && idx > |f.keys| then idx - 1 else idx)
    {
      hide PageOf, View, BTrees.FillNode, Readable;
      ViewOK();
      PageShape(t);
      var check := idx == nEntry;
      var childNode := ReadChild(file, idx, t);
      if childNode.nEntry < T {
        PageShape(BTrees.FillNode(t, idx, T, file.State()).0);
        FillNode(file, idx, t);
        ViewOK();
      }
      j := if check && idx > nEntry then idx - 1 else idx;
    }

    // This node is the root or has at least T keys.
    method Remove(file: NodeFile, key: Key, ghost t: Tree, ghost h: nat, ghost lo: Key, ghost hi: Key, ghost root: bool)
      returns (result: bool)
      requires Holds(t) && Good(t, T, h, lo, hi) && lo < key < hi && Enterable(t, T, h, root) && OnFile(t, file.State())
      modifies this`nEntry, arrEntry, arrChild, file
      ensures var r := BTrees.Remove(t, key, T, h, old(file.State())); Holds(r.t) && file.State() == r.file && result == r.ok
      decreases h, 2
    {
      hide Good, PageOf, View, BTrees.FillNode, BTrees.RemoveFromNonLeaf, FirstGE, OnFile, Readable, Opened, RemoveAt, Write,
        Content, Row, BTrees.Remove;
      ghost var s := file.State();
      ViewOK();
      PageShape(t);
      NodeShape(t, T, h, lo, hi);
      var idx := ScanUp(key);
      if idx < nEntry && KeyAt(idx) == key {
        RemoveHere(t, key, T, h, s);
        if flag == LEAF {
          RemoveFromLeaf(file, idx, t);
          result := true;
        } else {
          result := RemoveFromNonLeaf(file, idx, t, h, lo, hi);
        }
        return;
      } else if flag == LEAF {
        RemoveHere(t, key, T, h, s);
        return false;
      }
      RemoveDescends(t, key, T, h, lo, hi, s);
      Openable(t, T, h, lo, hi, s);
      ghost var f := if |t.kids[idx].keys| < T then BTrees.FillNode(t, idx, T, s).0 else t;
      var j := FillChild(file, idx, t);
      ghost var s1 := file.State();
      var childNode := ReadChild(file, j, f);
      result := childNode.Remove(file, key, f.kids[j], h - 1, Lo(f.keys, j, lo), Hi(f.keys, j, hi), false);
      RemoveBelow(t, key, T, h, s, f, s1, j);
      SamePage(f, j, BTrees.Remove(f.kids[j], key, T, h - 1, s1).t);
    }

    // Key idx gives way to its predecessor or successor, or goes down into the merged children.
    method RemoveFromNonLeaf(file: NodeFile, idx: nat, ghost t: Tree, ghost h: nat, ghost lo: Key, ghost hi: Key)
      returns (result: bool)
      requires Holds(t) && Good(t, T, h, lo, hi) && Inner(t, h) && idx < |t.keys| && OnFile(t, file.State())
      modifies this`nEntry, arrEntry, arrChild, file
      ensures var r := BTrees.RemoveFromNonLeaf(t, idx, T, h, old(file.State()));
              Holds(r.t) && file.State() == r.file && result == r.ok
      decreases h, 1
    {
      hide Good, PageOf, View, BTrees.MergeNodes, BTrees.Remove, OnFile, Readable, Replaced, LastKey, FirstKey, RemoveEnters;
      ghost var s := file.State();
      Openable(t, T, h, lo, hi, s);
      ReplaceDescends(t, idx, T, h, lo, hi, s);
      var childNodePred := ReadChild(file, idx, t);
      var childNodeSucc := ReadChild(file, idx + 1, t);
      if childNodePred.nEntry >= T {
        var predNode := GetPredNode(file, idx, t, h, lo, hi);
        result := ReplaceKey(file, idx, childNodePred, idx, predNode.KeyAt(predNode.nEntry - 1), t, h, lo, hi);
      } else if childNodeSucc.nEntry >= T {
        var succNode := GetSuccNode(file, idx, t, h, lo, hi);
        result := ReplaceKey(file, idx, childNodeSucc, idx + 1, succNode.KeyAt(0), t, h, lo, hi);
      } else {
        result := MergeAndRemove(file, idx, t, h, lo, hi);
      }
    }

    // The key from the end of child x takes place idx, and is removed below that child.
    method ReplaceKey(file: NodeFile, idx: nat, child: BTreeNode, x: nat, key: Key, ghost t: Tree, ghost h: nat, ghost lo: Key, ghost hi: Key)
      returns (result: bool)
      requires Holds(t) && Inner(t, h) && idx < |t.keys| && x < |t.kids| && Distinct(child) && child.T == T
      requires child.Holds(t.kids[x]) && RemoveEnters(t.kids[x], key, T, h - 1, Lo(t.keys, x, lo), Hi(t.keys, x, hi), file.State())
      requires BTrees.Remove(t.kids[x], key, T, h - 1, file.State()).ok
      modifies arrEntry, child`nEntry, child.arrEntry, child.arrChild, file
      ensures var q := Replaced(Node(t.id, t.keys[idx := key], t.kids), x, BTrees.Remove(t.kids[x], key, T, h - 1, old(file.State())));
              Holds(q.t) && file.State() == q.file && result == q.ok
      decreases h, 0
    {
      hide Good, PageOf, View, BTrees.Remove, OnFile, Readable, WithKeyAt;
      ViewOK();
      PageShape(t);
      ghost var s, f := file.State(), Node(t.id, t.keys[idx := key], t.kids);
      SetKeyAt(idx, key);
      KeyAtPage(t, idx, key);
      result := child.Remove(file, key, t.kids[x], h - 1, Lo(t.keys, x, lo), Hi(t.keys, x, hi), false);
      WriteReplaced(file, child, f, x, BTrees.Remove(t.kids[x], key, T, h - 1, s));
    }

    method MergeAndRemove(file: NodeFile, idx: nat, ghost t: Tree, ghost h: nat, ghost lo: Key, ghost hi: Key)
      returns (result: bool)
      requires Holds(t) && Good(t, T, h, lo, hi) && Inner(t, h) && idx < |t.keys| && OnFile(t, file.State())
      requires |t.kids[idx].keys| < T && |t.kids[idx + 1].keys| < T
      modifies this`nEntry, arrEntry, arrChild, file
      ensures var (f, s1) := BTrees.MergeNodes(t, idx, old(file.State()));
              T - 1 < |f.kids[idx].keys| &&
              var q := Replaced(f, idx, BTrees.Remove(f.kids[idx], f.kids[idx].keys[T - 1], T, h - 1, s1));
              Holds(q.t) && file.State() == q.file && result == q.ok
      decreases h, 0
    {
      hide Good, PageOf, View, BTrees.MergeNodes, BTrees.Remove, OnFile, Readable;
      ghost var s := file.State();
      Openable(t, T, h, lo, hi, s);
      ReplaceDescends(t, idx, T, h, lo, hi, s);
      ghost var (f, s1) := BTrees.MergeNodes(t, idx, s);
      MergeNodes(file, idx, t);
      var child := ReadChild(file, idx, f);
      PageShape(f.kids[idx]);
      var key := child.KeyAt(T - 1);
      result := child.Remove(file, key, f.kids[idx], h - 1, Lo(f.keys, idx, lo), Hi(f.keys, idx, hi), false);
      WriteReplaced(file, child, f, idx, BTrees.Remove(f.kids[idx], key, T, h - 1, s1));
    }

    // After a removal below child i: that child and this node are written.
    method WriteReplaced(file: NodeFile, child: BTreeNode, ghost f: Tree, ghost i: nat, ghost r: Removed)
      requires i < |f.kids| && Holds(f) && child.Holds(r.t) && r.t.id == f.kids[i].id && file.State() == r.file && r.ok
      modifies file
      ensures var q := Replaced(f, i, r); Holds(q.t) && file.State() == q.file
    {
      hide PageOf, View, PutPage;
      SamePage(f, i, r.t);
      child.WriteNode(file);
      WriteNode(file);
    }

    // ----- search -----

    method Search(file: NodeFile, key: Key, ghost t: Tree, ghost h: nat, ghost lo: Key, ghost hi: Key) returns (r: bool)
      requires Holds(t) && Good(t, T, h, lo, hi) && OnFile(t, file.State())
      ensures r == BTrees.Search(t, key, h)
      decreases h
    {
      hide Good, PageOf, View, FirstGE, OnFile, Readable;
      ViewOK();
      PageShape(t);
      NodeShape(t, T, h, lo, hi);
      var i := ScanUp(key);
      if i < nEntry && KeyAt(i) == key {
        return true;
      }
      if flag == LEAF {
        return false;
      }
      EndDescends(t, i, T, h, lo, hi, file.State());
      var childNode := ReadChild(file, i, t);
      r := childNode.Search(file, key, t.kids[i], h - 1, Lo(t.keys, i, lo), Hi(t.keys, i, hi));
    }
  }
}
