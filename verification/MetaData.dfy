/** The metadata shared by all nodes of a tree, and the file it stands for: node pages, value
    slots, the cursor and the two free stacks (fileUtils.cpp). */
module Files {
  import opened Pages
  import opened Accounts
  import opened Address
  import opened FreeStacks

  class MetaData {
    const layout: Layout
    const maxDegree: nat
    const delNodePages: DelNodeList
    const delValues: DelNodeList
    var filePages: nat
    var pages: map<Ref, Page>
    var values: map<Ref, Value>
    var emptyValueNode: Ref

    ghost predicate Valid()
      reads this, delNodePages, delValues
    {
      && layout.OK() && maxDegree >= 2
      && delNodePages != delValues && delNodePages.Valid() && delValues.Valid()
      && SlotOK(layout, emptyValueNode)
    }

    ghost function Geo(): Geometry requires layout.OK() {
      Geometry(maxDegree, layout.Slots(), layout.Span())
    }

    // The abstract disk.
    ghost function State(): (s: Disk)
      requires layout.OK()
      reads this, delNodePages, delValues
      ensures s.g == Geo() && s.pages == pages && s.values == values && s.cursor == emptyValueNode
    {
      Disk(Geo(), filePages, pages, values, emptyValueNode, delNodePages.dList, delValues.dList)
    }

    constructor (l: Layout, degree: nat)
      requires l.OK() && degree >= 2
      ensures Valid() && layout == l && maxDegree == degree
      ensures fresh(delNodePages) && fresh(delValues)
      ensures State() == Disk(Geometry(degree, l.Slots(), l.Span()), 0, map[], map[], 0, [], [])
    {
      hide SlotOK, Layout.OK, Pow2, Address.Layout.Slots, Address.Layout.Span;
      ZeroSlot(l);
      layout, maxDegree := l, degree;
      delNodePages := new DelNodeList.Create();
      delValues := new DelNodeList.Create();
      filePages, pages, values, emptyValueNode := 0, map[], map[], 0;
    }

    // An existing file and its free stacks, with the cursor from the header page.
    constructor Open(l: Layout, degree: nat, filePages: nat, pages: map<Ref, Page>, values: map<Ref, Value>, cursor: Ref,
                     nodeWords: seq<nat>, valueWords: seq<nat>)
      requires l.OK() && degree >= 2 && SlotOK(l, cursor) && Written(nodeWords) && Written(valueWords)
      ensures Valid() && layout == l && maxDegree == degree
      ensures fresh(delNodePages) && fresh(delValues)
      ensures State() == Disk(Geometry(degree, l.Slots(), l.Span()), filePages, pages, values, cursor,
                              nodeWords[1..nodeWords[0] + 1], valueWords[1..valueWords[0] + 1])
    {
      hide SlotOK, Layout.OK, Pow2, Address.Layout.Slots, Address.Layout.Span;
      layout, maxDegree := l, degree;
      delNodePages := new DelNodeList.Open(nodeWords);
      delValues := new DelNodeList.Open(valueWords);
      this.filePages, this.pages, this.values, emptyValueNode := filePages, pages, values, cursor;
    }

    // The new page starts at the end of the file.
    method GetNextFreeOffset() returns (id: Ref)
      requires Valid()
      modifies `filePages
      ensures Valid() && id == old(filePages) * layout.Span() && filePages == old(filePages) + 1
    {
      var eof := layout.header + filePages * layout.pageSize;
      filePages := filePages + 1;
      PageAndSlot(old(filePages), 0, layout.pageSize, layout.valueSize);
      id := ((eof - layout.header) / layout.pageSize) * layout.Span();
    }

    method CalculateNextEmtyValueNode() returns (id: Ref)
      requires Valid() && delValues.dList == []
      modifies `filePages, `emptyValueNode
      ensures Valid() && (State(), id) == TakeSlot(old(State()))
    {
      var at := RealOffset(layout, emptyValueNode);
      var nextPos := ((at - layout.header) % layout.pageSize) / layout.valueSize + 1;
      Decode(layout, emptyValueNode);
      PackedParts(layout, emptyValueNode);
      if emptyValueNode == 0 || nextPos == layout.Slots() {
        var c := GetNextFreeOffset();
        emptyValueNode := c;
        EndOfFile(old(filePages), layout.Span());
      } else {
        NextSlot(emptyValueNode, layout.Span());
        emptyValueNode := PageNodeID(layout, at) + nextPos;
      }
      id := emptyValueNode;
    }

    method AppendNodePageToFile(page: Page) returns (id: Ref)
      requires Valid()
      modifies this, delNodePages
      ensures Valid() && (State(), id) == AppendNode(old(State()), page)
    {
      var ok;
      ok, id := delNodePages.Pop();
      if !ok {
        id := GetNextFreeOffset();
      }
      pages := pages[id := page];
    }

    method FlushNodePageToFile(page: Page, offset: Ref)
      requires Valid()
      modifies `pages
      ensures Valid() && State() == Flush(old(State()), offset, page)
    {
      pages := pages[offset := page];
    }

    method InsertNewValueToFile(value: Value) returns (valueID: Ref)
      requires Valid()
      modifies this, delValues
      ensures Valid() && (State(), valueID) == NewValue(old(State()), value)
    {
      var ok;
      ok, valueID := delValues.Pop();
      if !ok {
        valueID := CalculateNextEmtyValueNode();
      }
      values := values[valueID := value];
    }

    method UpdateValueToFile(value: Value, offset: Ref)
      requires Valid()
      modifies `values
      ensures Valid() && State() == WriteValue(old(State()), offset, value)
    {
      values := values[offset := value];
    }

    // A freed node page: its content was cleared by the caller.
    method PushNodePage(offset: Ref)
      requires Valid()
      modifies delNodePages
      ensures Valid() && State() == old(State()).(delNodes := old(State()).delNodes + [offset])
    {
      delNodePages.Push(offset);
    }

    method PushValue(offset: Ref)
      requires Valid()
      modifies delValues
      ensures Valid() && State() == old(State()).(delValues := old(State()).delValues + [offset])
    {
      delValues.Push(offset);
    }
  }
}
