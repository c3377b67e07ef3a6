# The key-value stores of GodBee, modelled in Dafny

Two disk-backed ordered stores are modelled and their main promises proved.

**The paged B+ tree** (`pkg/storage/bplustree`) is a map from C-string keys to values. Nodes
live on fixed-size pages named by packed offsets, values in slots packed several to a page, and
freed pages and slots are recycled through two persistent stacks. A set splits bottom-up; a
remove tops up a thin leaf before its key goes and repairs internal nodes on the way back.

**The single-pass B-tree** (`pkg/storage/btree`), at node and key level, splits full children on
the way down for an insertion and fills thin ones on the way down for a removal.

## How the model is built

* `Pages.dfy` is the disk as a value: node pages and value slots by packed offset, the cursor of
  the last issued slot, and the free stacks. `Trees.dfy` is the ghost tree that the pages stand
  for, with the search-tree invariant by height.
* The B+ tree's operations are specified as functions on the tree and the disk, in the order in
  which the program writes (`Insertion.dfy`, `Removal.dfy`, `Store.dfy`). Three layers are proved
  about them: shape and content (`Insertion*.dfy`, `Removal*.dfy`, `Order.dfy`), ownership of
  pages and slots (`Accounts.dfy`, `Allocators.dfy`, `Ownership.dfy`, `*Disk.dfy`, `*Stored.dfy`,
  `Thrift.dfy`, `Counting.dfy`), and whole runs (`StoreSteps.dfy`, `StoreRemoval.dfy`, `Runs.dfy`).
  `Reopening.dfy` and `Continuing.dfy` are what a store does that is opened again from its files,
  at once and over further runs.
* The program's objects are classes with its fields and array loops, proved to do exactly what
  the specification says: `DelNodeList`, `MetaData`, `BPlusTreeNode` (`Node.dfy`) and `BPlusTree`.
  `Rows.dfy` and `Sequences.dfy` hold the facts about array contents that link the two.
* `Search.dfy`, `Address.dfy`, `MaxDegree.dfy`, `Codec.dfy`, `PageIO.dfy` and `KeyCodes.dfy` are
  the binary searches, the address arithmetic, the degree computation in 16-bit words, the byte
  layout of node pages, their reading and writing through I/O buffers, and the order of C
  strings. `ByteFiles.dfy` puts them together: the writes of a run, performed on bytes.
  `RunLogs.dfy`, with `CleanPages.dfy` and `KeyedTrees.dfy`, shows that every run has such writes,
  and gets values from the bytes alone.
* The B-tree follows the same plan: `BTreeShape.dfy` (tree, file, operations), `BTreeJoin.dfy`,
  `BTreeOrder.dfy`, `BTreeInsertion.dfy`, `BTreeRemoval.dfy` (shape and content), `BTreeFile.dfy`,
  `BTreeStored.dfy` (ownership and pages), `BTreeRuns.dfy` (whole runs), `BTreePages.dfy`,
  `BTreeNode.dfy` (class with arrays) and `BTree.dfy` (class with the root). `BTreeDisk.dfy` is
  its file as bytes: nodes packed, written in chunks and read back. Every rearrangement
  of children is a join of two neighbours, a cut of one child, or a join followed by a cut, and
  is proved about as such.

Keys are numbers in the tree modules; `KeyCodes` gives each C string that fits a key buffer its
own number, in the order of `strcmp`. The key limit of a store is then 256 to the key size.

## Where the code falls short of what it is for

* B-tree: setting a present key is meant to overwrite its value
  (`pkg/storage/btree/BTreeNode.cpp:76-80,109-112`). When the node that holds the key is full, the
  key is its middle one, and the node is split on the way, the search goes on to the left of the
  key and adds it a second time. `BTreeInsertion.InsertRootOutcome` and `BTreeRuns.DistinctIffSmooth`
  show that this happens exactly then, `BTreeRuns.TwiceRun` is an input that leads there.
* B+ tree: the header page is written only when the root changes, so a store opened again may
  continue from an old value cursor (`pkg/storage/bplustree/fileUtils.cpp:149-155`), and setting
  new keys then replaces the value of another one. `Continuing.SafeIff` says exactly when no further
  run can go wrong: if the header's cursor is unset, the current one, or the last slot of its page.
  Otherwise `LaggingShares` goes wrong once the freed slots are used up. The very first set goes
  wrong exactly if there are none (`Reopening.ReopenedOverwrites`). `Reopening.StaleRun` and
  `Continuing.LaggingRun` are inputs for the two cases.
* `calculateMaxDegree` does not end for every page size: with 8-byte keys, not for 65512
  (`MaxDegree.EndsAt65504`); `EndsIff` says exactly when. Where 16-bit sums wrap it may return a
  degree whose nodes spill into the next pages: 97 for pages of 65000 bytes and keys of 1000
  (`SpillsAt65000`); `RightIff` says exactly when it does not. On pages that are not whole segments
  it may refuse a degree that fits (`WholeSegments`).
* Nodes larger than one I/O buffer: if exactly the last byte of a node comes after a full buffer,
  its size is neither written nor read whole; and if the children take more than two buffers, or
  a key more than one, the program reads past its buffer. `PageIO.WriteAndRead` says that a node
  comes back exactly otherwise, `PageIO.ReadRest` and `GetNodePageFromFile` what is read instead.
  There are sizes for which the computed degree is such a one (`PageIO.AwkwardSizes`).
* B-tree: a node is written in whole chunks of 512 bytes. On pages that these do not fill, the
  position computed for a new node is that of the last node (`BTreeFiles.NextIffFilled`), and on
  pages that they do not keep to, they reach into the next page (`BTreeDisk.ChunksApartIff`).
* A degree from the configuration is taken as it is
  (`pkg/storage/bplustree/BPlusTree.cpp:3-14`). Only if a node of that degree fits on a page do
  nodes keep to their pages (`ByteFiles.FitsIffApart`); `ByteFiles.RunBytes` has this as its condition.
* A value size that does not divide the page size makes the last slot of a page run over its end
  (`Address.SlotsFitIffDivides`); stores are modelled with value sizes that divide.

## Model

| member | source | states |
|---|---|---|
| Runs.RunRefinesMap | pkg/storage/bplustree/BPlusTree.cpp:35-76 | Over every run of set, get, exist and remove from a new store, the store stores what a plain map would and answers every operation as the map does; the full invariant holds at the end of every run. |
| Runs.RunExists | pkg/storage/bplustree/BPlusTree.cpp:35-76 | No operation on an allowed key is ever refused, so every sequence of operations has a run. |
| Runs.RunOwnership | pkg/storage/bplustree/fileUtils.cpp:515-543 | After every run the allocated node pages are exactly the reachable nodes and the freed pages, each once; the issued slots exactly the live and the freed ones, each once; no value page is a node page; and there are as many entries as keys in the map. |
| Runs.RunGrows | pkg/storage/bplustree/fileUtils.cpp:515-543 | Between any two states of a run the allocated pages and the issued slots are only added to: none is lost. |
| Runs.RunKeepsUse | pkg/storage/bplustree/fileUtils.cpp:201-225 | A page that holds a node in one state of a run holds no value in any other, earlier or later. |
| Runs.RunHeader | pkg/storage/bplustree/fileUtils.cpp:149-155 | The cursor of the header page is at every moment of a run a slot that was issued, or unset; and the issued slots are exactly the slots of the value pages, on the cursor's page up to the cursor. |
| Runs.RunSpace | pkg/storage/bplustree/fileUtils.cpp:211-225 | Over whole runs the slots ever issued equal the most keys ever held at once, and the node pages ever appended equal the most nodes ever reachable at once. |
| Runs.RunEmptied | pkg/storage/bplustree/BPlusTreeNode.cpp:356-378 | When all keys are gone one empty leaf is left, on the header's root page, and every other page and every slot is on a free stack. |
| Reopening.RunReopened | pkg/storage/bplustree/BPlusTree.cpp:23 | At the end of every run, get and exist started from the pages, values and root of the header alone answer as the plain map does, at every depth from the tree's height on. |
| Reopening.DiskFindIsFind | pkg/storage/bplustree/BPlusTreeNode.cpp:672-685 | Following pages from a stored tree's root page reaches the same slot as the descent in the tree, however much deeper one would go. |
| Reopening.ReopenedOverwrites | pkg/storage/bplustree/fileUtils.cpp:149-155 | A store opened again with the header's cursor: the first set of an absent key changes what get returns for some other key exactly if no freed slot is left, and that cursor is neither the last slot issued nor the last slot of its page nor unset. |
| Continuing.SafeIff | pkg/storage/bplustree/fileUtils.cpp:149-155 | A store opened again with the header's cursor stores what the plain map would after every further run exactly if that cursor is unset, or the last slot issued, or the last slot of its page, whatever slots are freed (as long as there is one more new key than freed slots). |
| Continuing.RunSafeIff | pkg/storage/bplustree/fileUtils.cpp:149-155 | The same at the end of every run from a new store. |
| Continuing.ReopenedRefines | pkg/storage/bplustree/BPlusTree.cpp:16-76 | If so, every run from there answers as the plain map of the store that was closed, and ends in the full invariant. |
| Continuing.LaggingShares | pkg/storage/bplustree/fileUtils.cpp:530-543 | If not, then setting one new key more than there are freed slots gives the last of them the slot of another key, which from then on reads the new value. |
| Continuing.LaggingRun | pkg/storage/bplustree/fileUtils.cpp:149-155 | Sets of 1 to 5 and a remove of 5, with degree 2 and 8 slots to a page, end in a store with a freed slot and a lagging cursor; opened again, it loses the value of 6 when 7 is set, though the first set went well. |
| Reopening.RunOverwrites | pkg/storage/bplustree/fileUtils.cpp:149-155 | The same about the first set at the end of every run from a new store. |
| Reopening.ReopenedSet | pkg/storage/bplustree/fileUtils.cpp:530-543 | The other key that changes with that first set is the one whose slot the old cursor comes to next; it reads the new value. |
| Reopening.StaleRun | pkg/storage/bplustree/fileUtils.cpp:149-155 | Five sets on a new store of degree 2 with 8 slots to a page end in such a state. |
| BPlusTrees.BPlusTree.constructor | pkg/storage/bplustree/BPlusTree.cpp:3-24 | A new store is the empty map over one leaf page, with the header's root naming it. |
| BPlusTrees.BPlusTree.Open | pkg/storage/bplustree/BPlusTree.cpp:16-24 | A store opened again from the files of another one reads as that one, with the header's cursor; it keeps the whole invariant if that cursor is not lagging. |
| BPlusTrees.BPlusTree.Set | pkg/storage/bplustree/BPlusTree.cpp:35-49 | The map after a set is the old one with the key bound to the value; the peak counts of keys and nodes grow only to the new sizes; the header page takes over the new root and the current cursor exactly if the root changed. It is the step that the runs are made of. |
| BPlusTrees.BPlusTree.Get | pkg/storage/bplustree/BPlusTree.cpp:51-54 | Get returns the last value set and not since removed, or nothing, and visits one node of each level. |
| BPlusTrees.BPlusTree.Exist | pkg/storage/bplustree/BPlusTree.cpp:56-59 | Exist says whether the map has the key, and visits one node of each level. |
| BPlusTrees.BPlusTree.Remove | pkg/storage/bplustree/BPlusTree.cpp:61-76 | Remove returns prior membership and takes exactly that key out of the map, and needs no new page or slot; the header page takes over the new root and the current cursor exactly if the root changed. It is the step that the runs are made of. |
| BPlusTrees.BPlusTree.UpdateRoot | pkg/storage/bplustree/fileUtils.cpp:149-155 | With a new root the header page names it and the value cursor of that moment; without one the header stays as it was. The store is then exactly the one that the operation leads to, and its invariant holds. |
| BPlusTrees.BPlusTree.RootOnDisk | pkg/storage/bplustree/BPlusTree.cpp:23 | The node read back from the header's root page holds the same node of the tree as the root in memory. |
| StoreSteps.SetInv | pkg/storage/bplustree/BPlusTree.cpp:35-49 | A set keeps the whole invariant: search tree, pages on disk, header root, and single ownership of pages and slots. |
| StoreSteps.SetGet | pkg/storage/bplustree/BPlusTree.cpp:35-54 | After set(k, v), get(k) is v and every other key reads as before, even when freed pages and slots are reused. |
| StoreSteps.SetTree | pkg/storage/bplustree/BPlusTreeNode.cpp:118-134 | A set adds at most one level, and an internal root keeps at least one key. |
| StoreRemoval.RemoveInv | pkg/storage/bplustree/BPlusTree.cpp:61-76 | A remove keeps the whole invariant. |
| StoreRemoval.RemoveGet | pkg/storage/bplustree/BPlusTree.cpp:51-76 | After remove(k), get(k) finds nothing, every other key reads as before, and the result is whether k was there. |
| StoreRemoval.RemoveTree | pkg/storage/bplustree/BPlusTreeNode.cpp:356-378 | A remove takes away at most one level, and an internal root keeps at least one key. |
| StoreRemoval.SetMeans | pkg/storage/bplustree/BPlusTree.cpp:35-49 | If the store means the map m, after a set it means m with the new binding. |
| StoreRemoval.RemoveMeans | pkg/storage/bplustree/BPlusTree.cpp:61-76 | If the store means the map m, after a remove it means m without the key, and the result is membership in m. |
| Store.DistinctSlots | pkg/storage/bplustree/fileUtils.cpp:530-543 | Different live entries hold different value slots, so writing one key's value changes no other's. |
| Counting.Census | pkg/storage/bplustree/fileUtils.cpp:515-543 | Allocated pages are reachable nodes plus freed pages; issued slots are keys plus freed slots. |
| Counting.KeysAreMapSize | pkg/storage/bplustree/BPlusTreeNode.cpp:672-685 | The tree has exactly one entry for each key of the map it means. |
| Counting.SetSpace | pkg/storage/bplustree/fileUtils.cpp:515-543 | A set appends a page only when no freed one is left, and issues a slot only when none is freed: the totals become the maximum of old total and new use. |
| Counting.RemoveSpace | pkg/storage/bplustree/BPlusTreeNode.cpp:616-661 | A remove appends no page and issues no slot. |
| Counting.HeightBound | pkg/storage/bplustree/BPlusTreeNode.cpp:137-168 | With h levels, h at least 2, and degree t the store holds at least 2*t^(h-2)*(t-1) keys. |
| Order.DescentLength | pkg/storage/bplustree/BPlusTreeNode.cpp:332-354 | The nodes on the way to any key are one of each level. Get, Exist, Set and Remove return the nodes they visit as a ghost result, which is that way. |
| Order.DescentWay | pkg/storage/bplustree/BPlusTreeNode.cpp:332-354 | That way starts at the root, goes from each node to one of its children, and ends at the leaf in whose interval the key is; this leaf has the key's entry if the tree has. |
| Counting.EmptyStore | pkg/storage/bplustree/BPlusTreeNode.cpp:363-376 | A store without keys is one empty leaf; all else is on the free stacks. |
| Nodes.BPlusTreeNode.constructor | pkg/storage/bplustree/BPlusTreeNode.cpp:7-22 | A new node is empty and takes a freed page, or else one at the end of the file. |
| Nodes.BPlusTreeNode.NewRoot | pkg/storage/bplustree/BPlusTreeNode.cpp:24-31 | A new root has one key, over the pages of the two halves, on a newly taken page. |
| Nodes.BPlusTreeNode.FromPage | pkg/storage/bplustree/BPlusTreeNode.cpp:58-82 | A node built from a page holds exactly the flag, keys and references of that page. |
| Nodes.BPlusTreeNode.InsertLeft | pkg/storage/bplustree/BPlusTreeNode.cpp:190-215 | An absent key goes into the leaf's arrays at its place in order, beside the slot its value got; all other entries move over by one; the leaf is written. |
| Nodes.BPlusTreeNode.InsertRight | pkg/storage/bplustree/BPlusTreeNode.cpp:217-239 | A separator goes into an internal node at its place in order with the new child to its right; the node is written. |
| Nodes.BPlusTreeNode.CopyPartOfNode | pkg/storage/bplustree/BPlusTreeNode.cpp:291-310 | The upper part of both arrays, with the reference that follows, moves to a new node; the lower part stays. |
| Nodes.BPlusTreeNode.InsertAndSplitLeaf | pkg/storage/bplustree/BPlusTreeNode.cpp:242-263 | A full leaf is cut at the degree, the entry joins the half it belongs to, wherever it lands, and the first key of the right half is promoted; both halves are on disk. |
| Nodes.BPlusTreeNode.InsertAndSplitInternal | pkg/storage/bplustree/BPlusTreeNode.cpp:266-289 | A full internal node is cut around its middle key, which is promoted; the new separator joins one half; both are on disk. |
| Nodes.BPlusTreeNode.LeafInsert | pkg/storage/bplustree/BPlusTreeNode.cpp:171-188 | A leaf insert is the leaf step of the specified tree insertion: overwrite, add or split. |
| Nodes.BPlusTreeNode.InternalInsert | pkg/storage/bplustree/BPlusTreeNode.cpp:137-168 | The recursive insert leaves in memory and on disk exactly what the specified insertion on the tree gives, and promotes exactly its one separator on a split. |
| Nodes.BPlusTreeNode.Insert | pkg/storage/bplustree/BPlusTreeNode.cpp:118-134 | The insert at the root is the specified one, with a new root over the halves after a split. |
| Nodes.BPlusTreeNode.UpdateValueDuplicatedKey | pkg/storage/bplustree/BPlusTreeNode.cpp:736-740 | Setting a present key overwrites the bytes of its slot and nothing else. |
| Nodes.BPlusTreeNode.Get | pkg/storage/bplustree/BPlusTreeNode.cpp:672-685 | A descent through the pages returns the value of the slot that the tree holds for the key. |
| Nodes.BPlusTreeNode.Exist | pkg/storage/bplustree/BPlusTreeNode.cpp:687-695 | A descent through the pages says whether the tree holds the key. |
| Nodes.BPlusTreeNode.RemoveLeft | pkg/storage/bplustree/BPlusTreeNode.cpp:621-639 | The key at an index leaves the arrays with the reference to its left; at a leaf that slot goes to the free stack. |
| Nodes.BPlusTreeNode.MarkDelete | pkg/storage/bplustree/BPlusTreeNode.cpp:655-670 | A removed node's page is overwritten as removed and pushed on the free stack. |
| Nodes.BPlusTreeNode.SwapClockWiseItn | pkg/storage/bplustree/BPlusTreeNode.cpp:444-461 | The left sibling's last key and child pass through the father; the three nodes hold exactly the shifted rows. |
| Nodes.BPlusTreeNode.SwapCounterClockWiseItn | pkg/storage/bplustree/BPlusTreeNode.cpp:462-480 | The right sibling's first key and child pass through the father; the three nodes hold exactly the shifted rows. |
| Nodes.BPlusTreeNode.SwapClockWiseLeaf | pkg/storage/bplustree/BPlusTreeNode.cpp:482-501 | The left leaf's last entry becomes the first one here, and its key the separator. |
| Nodes.BPlusTreeNode.SwapCounterClockWiseLeaf | pkg/storage/bplustree/BPlusTreeNode.cpp:502-523 | The right leaf's first entry becomes the last one here, and its next key the separator. |
| Nodes.BPlusTreeNode.ShiftBy | pkg/storage/bplustree/BPlusTreeNode.cpp:527-534 | The ascending in-place shift loses nothing when the offset is at least the node's size, which occupancy gives in every left merge. |
| Nodes.BPlusTreeNode.LeftMergeItn | pkg/storage/bplustree/BPlusTreeNode.cpp:525-549 | The left sibling's row, the separator and this row are concatenated here; the father loses that separator; the sibling's page is freed. |
| Nodes.BPlusTreeNode.RightMergeItn | pkg/storage/bplustree/BPlusTreeNode.cpp:551-569 | This row, the separator and the right sibling's row are concatenated here; the father loses that separator; the sibling's page is freed. |
| Nodes.BPlusTreeNode.LeftMergeLeaf | pkg/storage/bplustree/BPlusTreeNode.cpp:571-599 | The left leaf's entries and this leaf's are concatenated here; the father loses the separator; the sibling's page is freed. |
| Nodes.BPlusTreeNode.RightMergeLeaf | pkg/storage/bplustree/BPlusTreeNode.cpp:601-615 | This leaf's entries and the right leaf's are concatenated here; the father loses the separator; the sibling's page is freed. |
| Nodes.BPlusTreeNode.Redistribute | pkg/storage/bplustree/BPlusTreeNode.cpp:380-442 | A thin node, leaf or internal, is repaired as specified: the right sibling is asked first, then the left one, else a merge with the left one or, for the first child, the right one. |
| Nodes.BPlusTreeNode.LeafRemove | pkg/storage/bplustree/BPlusTreeNode.cpp:312-330 | Below a father a thin leaf is topped up before its key goes; the father, the leaf and the disk end as specified. |
| Nodes.BPlusTreeNode.LeafRemoveRoot | pkg/storage/bplustree/BPlusTreeNode.cpp:312-330 | Without a father the key just goes, its slot is freed and the leaf is written; an absent key changes nothing. |
| Nodes.BPlusTreeNode.InternalRemove | pkg/storage/bplustree/BPlusTreeNode.cpp:332-354 | The recursive removal leaves the father's node and the disk exactly as the specified removal on the tree gives them, and returns whether the key was there. |
| Nodes.BPlusTreeNode.InternalRemoveRoot | pkg/storage/bplustree/BPlusTreeNode.cpp:332-354 | The same at the root, where an empty internal root keeps its one child. |
| Nodes.BPlusTreeNode.Remove | pkg/storage/bplustree/BPlusTreeNode.cpp:356-378 | The removal at the root is the specified one: an empty internal root gives way to its only child and its page is freed. |
| Insertion.InsertWF | pkg/storage/bplustree/BPlusTreeNode.cpp:137-188 | Insertion keeps strict order, separators, 2t-1 as the largest and t-1 as the smallest size, and uniform depth; a split gives two well-formed halves around one separator. |
| InsertionContent.InsertContent | pkg/storage/bplustree/BPlusTreeNode.cpp:137-188 | The ordered content after an insertion is the old one with one entry more in its place, or unchanged if the key was there. |
| InsertionDisk.InsertDisk | pkg/storage/bplustree/BPlusTreeNode.cpp:137-215 | Insertion keeps one owner for every page and slot; a new key gets a slot nobody owns. |
| InsertionStored.InsertStored | pkg/storage/bplustree/BPlusTreeNode.cpp:137-289 | After an insertion the disk stores the new tree, and no page outside it has changed. |
| RemovalTree.RepairWF | pkg/storage/bplustree/BPlusTreeNode.cpp:380-442 | Borrowing or merging brings a thin child back to size, keeps its siblings at t-1 at least, order and depth, and costs the father at most one key. |
| RemovalTree.RemoveInWF | pkg/storage/bplustree/BPlusTreeNode.cpp:312-354 | Removal keeps the whole search-tree invariant; the only node that can end up short is the father itself, by one key. |
| RemovalContent.RepairContent | pkg/storage/bplustree/BPlusTreeNode.cpp:444-615 | Each of the four swaps and four merges keeps the father's ordered content, entry by entry with its slot. |
| RemovalContent.RemoveInContent | pkg/storage/bplustree/BPlusTreeNode.cpp:312-354 | The ordered content after a removal is the old one without exactly that entry, if it was there. |
| RemovalDisk.RemoveInBooks | pkg/storage/bplustree/BPlusTreeNode.cpp:616-661 | Removal keeps one owner for every page and slot; merged pages and the removed key's slot, and no others, go to the free stacks. |
| RemovalStored.RemoveInStored | pkg/storage/bplustree/BPlusTreeNode.cpp:312-354 | After a removal the disk stores the new tree, and no page outside it has changed. |
| Order.ContentInOrder | pkg/storage/bplustree/BPlusTreeNode.cpp:137-168 | The content of a search tree, left to right, is strictly increasing. |
| Order.FindIsMember | pkg/storage/bplustree/BPlusTreeNode.cpp:672-695 | Routing by separators reaches a slot exactly if the key is in the tree with that slot. |
| Search.IndexNodeLargerOrEqual | pkg/storage/bplustree/utils.cpp:9-35 | On sorted keys the loop, with its last middle index, returns the first index whose key is not below the given one. |
| Search.IndexNodeLarger | pkg/storage/bplustree/utils.cpp:36-61 | On sorted keys the loop, with its last middle index, returns the first index whose key is above the given one. |
| Search.IndexNodeEqual | pkg/storage/bplustree/utils.cpp:63-67 | A key's index is found exactly if it is in the array. |
| Search.IsExisting | pkg/storage/bplustree/utils.cpp:68-72 | True exactly if the key is in the array. |
| Search.IndicesCount | pkg/storage/bplustree/utils.cpp:9-61 | The two indices are the number of keys below the key, and of keys not above it. |
| Search.Routing | pkg/storage/bplustree/utils.cpp:36-61 | The second index is the only child whose separator interval contains the key. |
| Files.MetaData.constructor | pkg/storage/bplustree/fileUtils.h:57-69 | A new file has no pages, no slots, cursor 0 and empty free stacks. |
| Files.MetaData.Open | pkg/storage/bplustree/fileUtils.h:57-69 | An existing file has its pages and slots, the cursor of its header, and the stacks read back from their files. |
| Files.MetaData.GetNextFreeOffset | pkg/storage/bplustree/fileUtils.cpp:201-208 | The new page starts at the end of the file, named by its packed offset. |
| Files.MetaData.CalculateNextEmtyValueNode | pkg/storage/bplustree/fileUtils.cpp:211-225 | The next slot after the cursor on its page, or slot 0 of a new page, found through the byte address. |
| Files.MetaData.AppendNodePageToFile | pkg/storage/bplustree/fileUtils.cpp:515-528 | A freed page is reused before the file grows; the page is written there. |
| Files.MetaData.InsertNewValueToFile | pkg/storage/bplustree/fileUtils.cpp:530-543 | A freed slot is reused before a new one is issued; the value is written there. |
| Allocators.AppendNodeBooks | pkg/storage/bplustree/fileUtils.cpp:515-528 | An appended node's page belonged to nobody before and to the new node afterwards; a reused page comes from the free stack. |
| Allocators.FreeNodeBooks | pkg/storage/bplustree/BPlusTreeNode.cpp:655-661 | A freed page passes from its node to the free stack. |
| Allocators.NewValueBooks | pkg/storage/bplustree/fileUtils.cpp:530-543 | A new value's slot was free, or never issued; all other slots keep their values and owners, and the cursor stays a slot after which none is issued on its page. |
| Allocators.NewValueIssued | pkg/storage/bplustree/fileUtils.cpp:530-543 | If the issued slots are exactly the slots of the value pages up to the cursor, they still are after a new value. |
| Allocators.StaleCursor | pkg/storage/bplustree/fileUtils.cpp:149-155 | With an older cursor and no freed slot the next new value gets a slot in use exactly if that cursor is behind, set, and not at the last slot of its page. |
| FreeStacks.DelNodeList.Create | pkg/storage/bplustree/DelNodeList.cpp:8-16 | A new free stack is empty, in memory and in its file. |
| FreeStacks.DelNodeList.Open | pkg/storage/bplustree/DelNodeList.cpp:17-24 | Opening reads back exactly the entries that the file's count word covers. |
| FreeStacks.DelNodeList.Push | pkg/storage/bplustree/DelNodeList.cpp:27-32 | Push puts one value on top and keeps the file the image of the list. |
| FreeStacks.DelNodeList.Pop | pkg/storage/bplustree/DelNodeList.cpp:33-41 | Pop takes off the last value pushed, says whether there was one, and keeps the file the image of the list. |
| FreeStacks.ReopenAfterRun | pkg/storage/bplustree/DelNodeList.cpp:5-74 | After any run of pushes and pops, reopening the file rebuilds exactly the list. |
| FreeStacks.PopUndoesPush | pkg/storage/bplustree/DelNodeList.cpp:27-41 | A pop after a push restores the list as it was after any run. |
| Address.CountBits | pkg/storage/bplustree/fileUtils.cpp:62-71 | The number of bits is the least whose power of two exceeds the number. |
| Address.CalculateBitSizeValueIndex | pkg/storage/bplustree/fileUtils.cpp:74-78 | The fewest bits in which every slot index of a page fits; none are needed exactly for pages of at most one value; and with value sizes that divide the page size, what is modelled is exactly the layouts that need some. |
| Address.FewestBits | pkg/storage/bplustree/fileUtils.cpp:74-78 | There is only one such number of bits. |
| Address.InAddressOrder | pkg/storage/bplustree/fileUtils.cpp:169-175 | The first page follows the header, each page the one before, and each slot the one before on its page. |
| Address.Decode | pkg/storage/bplustree/fileUtils.cpp:169-181 | The page part and the slot index are recovered from a byte address, so the two conversions are inverse. |
| Address.SlotsApart | pkg/storage/bplustree/fileUtils.cpp:169-175 | Different slots occupy disjoint bytes. |
| Address.PagesApart | pkg/storage/bplustree/fileUtils.cpp:169-175 | Different pages occupy disjoint bytes. |
| Address.PageAndSlotApart | pkg/storage/bplustree/fileUtils.cpp:169-175 | A node page and a slot on another page occupy disjoint bytes. |
| Address.DiskOwnBytes | pkg/storage/bplustree/fileUtils.cpp:169-225 | On every disk that keeps the invariant all node pages and all issued slots occupy pairwise disjoint bytes. |
| Address.SlotsFitIffDivides | pkg/storage/bplustree/fileUtils.cpp:216 | All slots that the rounded-up count admits lie within the page exactly if the value size divides the page size. |
| MaxDegree.CalculateMaxDegree | pkg/storage/bplustree/fileUtils.cpp:26-60 | Where the loop ends it ends at the first degree whose 16-bit need reaches the page size, with that degree or the one before. |
| MaxDegree.WholeSegments | pkg/storage/bplustree/fileUtils.cpp:26-60 | On other pages a degree whose node fits is refused exactly if the node ends in the last broken segment. |
| MaxDegree.EndsIff | pkg/storage/bplustree/fileUtils.cpp:26-60 | The loop ends exactly for page sizes up to the greatest 16-bit need, which is given by the key size in closed form. |
| MaxDegree.Periodic | pkg/storage/bplustree/fileUtils.cpp:26-60 | The need repeats after 32768 degrees, so a loop that has not ended by then never does. |
| MaxDegree.RightIff | pkg/storage/bplustree/fileUtils.cpp:26-60 | The result is the largest degree whose node, in whole segments, fits on the page, exactly if the first degree to reach the page size does so without leaving the 16 bits, or its word is above the page size. |
| MaxDegree.RightIffNoWrap | pkg/storage/bplustree/fileUtils.cpp:26-60 | If a node of degree 2 fits 16 bits, that is exactly if the first degree to reach the page size fits them too. |
| MaxDegree.RightIsLargest | pkg/storage/bplustree/fileUtils.cpp:26-60 | A right result never spills into the next page, and on pages of whole segments exactly the degrees from 2 up to it fit. |
| MaxDegree.EndsAt65504 | pkg/storage/bplustree/fileUtils.cpp:26-60 | With 8-byte keys a page of 65504 bytes gets its right degree 2047, and for 65512 bytes the loop never ends. |
| MaxDegree.SpillsAt65000 | pkg/storage/bplustree/fileUtils.cpp:26-60 | With 1000-byte keys a page of 65000 bytes gets degree 97, whose nodes take 194555 bytes. |
| MaxDegree.FilledPage | pkg/storage/bplustree/fileUtils.cpp:26-60 | On a page that a node of some degree fills to its last segment, below 65536 bytes, that degree is returned and is the right one. |
| PageIO.WriteNodePageToFile | pkg/storage/bplustree/fileUtils.cpp:402-504 | Through a buffer of 4096 bytes exactly the node's bytes are replaced by its children, keys, flag and size, but for the last byte if it alone comes after a full buffer: that one is taken from behind the size in memory. The program goes over its buffer exactly if keys longer than the buffer leave more over than fits in it. |
| PageIO.GetNodePageFromFile | pkg/storage/bplustree/fileUtils.cpp:228-382 | What is read buffer by buffer has, as its bytes, exactly the bytes of the page, unless the size is cut in two; then everything but the size does. The program reads past its buffer exactly if the children take more than two buffers or a key more than one; by then the children from the 513th on are those at the beginning of the last buffer that has children. |
| PageIO.ReadKeys | pkg/storage/bplustree/fileUtils.cpp:304-349 | A key that is cut off by the end of one buffer is put together with its rest in the next. |
| PageIO.ReadRest | pkg/storage/bplustree/fileUtils.cpp:266-303 | The loop for the last buffer with children takes all the missing ones from its beginning on, and reads past it exactly if they are more than fit in one buffer. |
| PageIO.OneBuffer | pkg/storage/bplustree/fileUtils.cpp:228-504 | Every node of at most 4096 bytes is written and read whole. |
| PageIO.FirstSizes | pkg/storage/bplustree/fileUtils.h:22 | The first sizes that are not: degree 513, or keys of 4097 bytes, for reading, keys of 5451 bytes for writing a node of degree 2, and nodes of 4097 bytes for the size. |
| PageIO.AwkwardSizes | pkg/storage/bplustree/fileUtils.cpp:26-60 | For 10-byte keys on pages of 4104 bytes the computed degree, which is the right one, is one whose size is cut in two; for 8-byte keys on pages of 20000 bytes it is one whose children take three buffers. |
| Codec.FieldsInImage | pkg/storage/bplustree/fileUtils.cpp:402-504 | On the page come the children in eight bytes each, the keys, the flag in one byte and the size in two. |
| Codec.ByteOf | pkg/storage/bplustree/fileUtils.cpp:402-504 | Numbers are written least byte first. |
| Codec.ImageDetermines | pkg/storage/bplustree/fileUtils.cpp:402-504 | Pages with the same bytes are the same page. |
| Codec.ToAndFrom | pkg/storage/bplustree/BPlusTreeNode.cpp:708-720 | Whatever the fresh key buffers held, the node taken from a node's page is that node: flag, size, keys as C strings, and children. |
| PageIO.WriteAndRead | pkg/storage/bplustree/fileUtils.cpp:228-504 | A node of any size written to a file and read back is the same node, whatever lies around it, if its children take at most two buffers, its keys at most one, and its size is not cut in two. If the size is, the one read begins with a byte that was not part of the node; if the others do not hold, a buffer is overrun. |
| ByteFiles.LogRepresents | pkg/storage/bplustree/fileUtils.cpp:506-551 | Any sequence of page and value writes that leads to a disk keeping the invariant leaves bytes from which every page and value of that disk can be read at its address. |
| ByteFiles.RunBytes | pkg/storage/bplustree/fileUtils.cpp:506-551 | If a node fits on its page and its size is not cut in two, then after every run that has been written out the bytes hold each page and each value of the store at its address, whatever they were before. |
| ByteFiles.FitsIffApart | pkg/storage/bplustree/fileUtils.cpp:169-175 | The nodes of any two pages occupy disjoint bytes exactly if a node fits on its page. |
| ByteFiles.MadeStands | pkg/storage/bplustree/BPlusTreeNode.cpp:708-720 | What a node is turned into for writing stands for its page: flag, key codes and references. |
| ByteFiles.FlagOnDisk | pkg/storage/bplustree/BPlusTreeNode.h:76-78 | The flag's byte is 0 for a leaf, 1 for an internal node and 3 for a removed one. |
| ByteFiles.ValueAsString | pkg/storage/bplustree/fileUtils.cpp:384-400 | What stands in a slot for a value is, as a C string, that value, character by character. |
| ByteFiles.UpdateValueToFile | pkg/storage/bplustree/fileUtils.cpp:545-551 | The buffer that strcpy has filled with a string goes into the slot, and nothing else changes; as a C string it is the value. |
| ByteFiles.GetValueFromFile | pkg/storage/bplustree/fileUtils.cpp:384-400 | The loop reads exactly the bytes of the slot, through buffers. |
| ByteFiles.ShippedSizes | pkg/storage/bplustree/fileUtils.cpp:26-78 | For pages of 4096 bytes, keys of 35 and values of 1024 the computed degree is 48, a node fills its page, two bits tell the four slots, and every node is written and read whole. |
| ByteFiles.FlushNodePage | pkg/storage/bplustree/fileUtils.cpp:506-513 | Flushing a node performs exactly that write on the bytes, or goes over its buffer exactly if the keys do. |
| ByteFiles.GetNodePage | pkg/storage/bplustree/fileUtils.cpp:228-382 | Reading at a page's address gives back the page that the bytes hold there, but for a size that is cut in two, or reads past the buffer exactly if children or keys are too large. |
| RunLogs.ValueOKIff | pkg/storage/bplustree/BPlusTree.cpp:39-40 | The values that can be written are exactly those that can stand in a slot. |
| RunLogs.RunHasLogs | pkg/storage/bplustree/fileUtils.cpp:506-551 | Every run of keys that are strings which fit and values that are shorter than a slot has page and value writes to perform, as long as its references fit 64 bits and a node's size 16. |
| RunLogs.GetOnBytes | pkg/storage/bplustree/BPlusTreeNode.cpp:672-685 | The descent that reads one node after another from the bytes of a file returns the bytes of the value in the slot that the tree holds for the key, or nothing. |
| RunLogs.GetAfterRun | pkg/storage/bplustree/BPlusTreeNode.cpp:672-685 | After the writes of any run, performed on any bytes, a get from the header's root over the bytes alone returns the value that the plain map has, as a C string, or nothing. |
| CleanPages.StepClean | pkg/storage/bplustree/BPlusTreeNode.cpp:655-670 | Pages on the free stack stay marked as removed, through every set and remove. |
| KeyedTrees.StepKeyed | pkg/storage/bplustree/BPlusTreeNode.cpp:137-188 | All keys in the tree, separators too, stay codes of strings that fit the key buffer. |
| KeyCodes.CodeOrder | pkg/storage/bplustree/utils.cpp:19 | The codes of C strings are ordered as strcmp orders the strings, and equal only for equal strings. |
| KeyCodes.StrcmpAfter | pkg/storage/bplustree/utils.cpp:19 | What two strings begin with in common does not matter; then the first bytes decide, or the end of one string. |
| Codec.FitsIffHeld | pkg/storage/bplustree/BPlusTree.cpp:37-38 | The keys that fit are exactly the strings that a key buffer can hold with their terminator. |
| KeyCodes.KeysBelowLimit | pkg/storage/bplustree/BPlusTree.cpp:37-38 | Keys that fit a key buffer have codes below 256^keySize, distinct and in strcmp order. |
| BTreeStores.BTree.Insert | pkg/storage/btree/BTree.cpp:24-63 | The insertion is the specified one: an absent key is added to the ordered content, and a present one leaves it as it is, unless it is split out of its node; then, and only then, it is in the store twice. In every case each position keeps one owner, pages of others are untouched, and the root in memory is on the file. |
| BTreeStores.BTree.FirstInsert | pkg/storage/btree/BTree.cpp:26-35 | The first key makes a leaf root that holds just this key and is on the file. |
| BTreeStores.BTree.GrowAndInsert | pkg/storage/btree/BTree.cpp:36-58 | A full root gets a new root over it, is split, and the insertion enters one half, for every key. |
| BTreeStores.BTree.KeysIncrease | pkg/storage/btree/BTree.cpp:24-150 | Between operations the keys of the store, left to right, are strictly increasing, so no key is there twice. |
| BTreeRuns.RunRefinesSet | pkg/storage/btree/BTree.cpp:24-150 | Every run of insert, search and remove in which no insertion splits its key out holds and answers what a set of keys would, through emptied stores too; every position handed out since the store was last empty is a node of the tree or freed, and just once: none is leaked. |
| BTreeRuns.DistinctIffSmooth | pkg/storage/btree/BTree.cpp:24-63 | The keys stay distinct throughout a run exactly if no insertion of it splits its key out. |
| BTreeRuns.OnlyNewIsSmooth | pkg/storage/btree/BTree.cpp:24-63 | A run that only inserts keys that are not there is such a run. |
| BTreeRuns.RunSpace | pkg/storage/btree/BTreeNode.cpp:170-181 | The positions handed out since the store was last empty are exactly as many as the most nodes it has had since. |
| BTreeRuns.Census | pkg/storage/btree/BTreeNode.cpp:419-461 | They are the nodes of the tree and the freed positions. |
| BTreeFiles.ChunksHold | pkg/storage/btree/DataFileIO.cpp:94-100 | The bytes written for a node are the fewest chunks of 512 bytes that hold it. |
| BTreeFiles.NextIffFilled | pkg/storage/btree/BTreeNode.cpp:170-182 | The position computed from the file length behind the last node is the next one exactly if the chunks written for that node fill its page and do not reach over two pages, or, in a split, that node is the father, whose page is filled up first; with fewer chunks it is the node's own. |
| BTreeDisk.DataFile.WriteNode | pkg/storage/btree/DataFileIO.cpp:46-103 | A node packed into the buffer of 4096 bytes and written in chunks of 512 is on its page, and no node on any other page changes if its chunks keep to one page; it goes past the buffer exactly if the node has more than 4096 bytes. |
| BTreeDisk.DataFile.ReadNode | pkg/storage/btree/DataFileIO.cpp:104-149 | The node on a page is read back field by field, if it keeps to its page; the program goes past the buffer exactly if page or node has more than 4096 bytes. |
| BTreeDisk.Pack | pkg/storage/btree/DataFileIO.cpp:60-91 | The loops put children, value positions, keys, flag, size and position one after the other into the buffer. |
| BTreeDisk.Unpack | pkg/storage/btree/DataFileIO.cpp:117-144 | The fields taken from a buffer are those whose bytes are there. |
| BTreeDisk.BlockDetermines | pkg/storage/btree/DataFileIO.cpp:60-91 | Nodes with the same bytes are the same node. |
| BTreeDisk.FieldsInBlock | pkg/storage/btree/DataFileIO.cpp:60-91 | Where each field is, and in how many bytes. |
| BTreeDisk.DataFile.WriteChunks | pkg/storage/btree/DataFileIO.cpp:94-102 | The loop writes exactly the beginning of the buffer, up to the fewest whole chunks that hold the node. |
| BTreeDisk.DataFile.NextForRoot | pkg/storage/btree/BTree.cpp:42-46 | The position computed after the last node was written is the next one exactly if the chunks fill its page and not two. |
| BTreeDisk.DataFile.NextForHalf | pkg/storage/btree/BTreeNode.cpp:178-182 | The same in a split, where the father's page is filled up before; if the father is the last node it is always the next one for chunks of less than two pages. |
| BTreeDisk.ChunksApartIff | pkg/storage/btree/DataFileIO.cpp:94-100 | The chunks of any two positions are apart exactly if they keep to one page. |
| BTreeDisk.ShippedBlocks | pkg/storage/btree/DataFileIO.cpp:60-100 | With degree 39 and keys of 37 bytes a node has 4096 bytes, which are eight chunks. |
| BTreeStores.BTree.Search | pkg/storage/btree/BTree.cpp:109-117 | Search reaches an entry exactly if the key is in the store. |
| BTreeStores.BTree.Remove | pkg/storage/btree/BTree.cpp:119-150 | Remove deletes exactly the given key from the ordered content, returns whether it was there, and keeps the account of positions. |
| BTreeStores.BTree.ShrinkRoot | pkg/storage/btree/BTree.cpp:127-147 | An empty internal root gives way to its only child and its position is freed; an empty leaf root takes the store with it. |
| BTreeInsertion.InsertOutcome | pkg/storage/btree/BTreeNode.cpp:62-129 | One downward pass from a node that is not full keeps order, occupancy and depth and adds an absent key or leaves the content of a present one, if the key is not split out; if it is, it was there and is added again. |
| BTreeInsertion.InsertRootOutcome | pkg/storage/btree/BTree.cpp:36-61 | The same from the root, with at most one level more: the content stays strictly increasing exactly if the key is not split out. |
| BTreeInsertion.EntersAny | pkg/storage/btree/BTreeNode.cpp:86-129 | Whatever the key, the child that an insertion enters is a B-tree that is not full. |
| BTreeInsertion.AbsentStays | pkg/storage/btree/BTreeNode.cpp:104-126 | An absent key is never split out of a node, so the condition of the insertion holds for every absent key. |
| BTreeInsertion.RootDoubles | pkg/storage/btree/BTreeNode.cpp:116-126 | A present key that is the middle key of a full node when that node is split on the way is inserted a second time. |
| BTreeInsertion.SetTwice | pkg/storage/btree/BTree.cpp:36-53 | The smallest such case: setting 2 again in the full leaf 1, 2, 3 gives 1, 2, 2, 3. |
| BTreeRuns.TwiceRun | pkg/storage/btree/BTree.cpp:24-63 | A new store of degree 2 reaches it by inserting 1, 2, 3 and 2. |
| BTreeInsertion.SplitGood | pkg/storage/btree/BTreeNode.cpp:131-193 | Splitting a full child moves its middle key up, leaves two halves of T-1 keys, and keeps the ordered content. |
| BTreeRemoval.RemoveGood | pkg/storage/btree/BTreeNode.cpp:195-236 | Removal from the root, or from a node with at least T keys, deletes exactly the key, keeps order, occupancy and depth, costs the node at most one key, and only enters children with at least T keys. |
| BTreeRemoval.RemoveNonLeafGood | pkg/storage/btree/BTreeNode.cpp:249-298 | A key of an internal node goes, whether its predecessor or its successor replaces it or it goes down into the merged children. |
| BTreeRemoval.FillGood | pkg/storage/btree/BTreeNode.cpp:395-417 | Filling keeps the ordered content and leaves the key routed to a child with at least T keys, also when the last child merges to the left. |
| BTreeRemoval.RemoveRootGood | pkg/storage/btree/BTree.cpp:119-150 | The same from the root, with at most one level less. |
| BTreeOrder.SearchFinds | pkg/storage/btree/BTreeNode.cpp:496-513 | The search path finds exactly the keys of the tree. |
| BTreeOrder.TreeIncreasing | pkg/storage/btree/BTreeNode.cpp:62-129 | The content of a B-tree, left to right, is strictly increasing. |
| BTreeStored.InsertSettled | pkg/storage/btree/BTreeNode.cpp:62-193 | After an insertion the file stores the new tree, every position still has one owner, and nobody else's page has changed. |
| BTreeStored.RemoveSettled | pkg/storage/btree/BTreeNode.cpp:195-298 | The same after a removal; merged positions are in the freed queue. |
| BTreeStored.RemoveRootMoved | pkg/storage/btree/BTree.cpp:127-147 | The same for the root that is given up. |
| BTreeNodes.BTreeNode.ReadNode | pkg/storage/btree/DataFileIO.cpp:104-120 | A node read from a position holds exactly the page there. |
| BTreeNodes.BTreeNode.SplitChild | pkg/storage/btree/BTreeNode.cpp:131-193 | The array loops of the split give, in memory and on file, exactly the father and the two halves of the specified split. |
| BTreeNodes.BTreeNode.BorrowFromNextNode | pkg/storage/btree/BTreeNode.cpp:320-355 | The array loops give exactly the specified shift from the next child, and the three pages are written. |
| BTreeNodes.BTreeNode.BorrowFromPrevNode | pkg/storage/btree/BTreeNode.cpp:357-393 | The array loops give exactly the specified shift from the previous child, and the three pages are written. |
| BTreeNodes.BTreeNode.MergeNodes | pkg/storage/btree/BTreeNode.cpp:419-461 | The array loops give exactly the merged child and the shortened father; the next child's position is freed. |
| BTreeNodes.BTreeNode.FillNode | pkg/storage/btree/BTreeNode.cpp:395-417 | The thin child borrows from the previous child, else from the next one, else merges, as specified. |
| BTreeNodes.BTreeNode.InsertNonFull | pkg/storage/btree/BTreeNode.cpp:62-129 | The recursive insertion over pages leaves in memory and on file exactly the specified tree. |
| BTreeNodes.BTreeNode.Remove | pkg/storage/btree/BTreeNode.cpp:195-236 | The recursive removal over pages leaves in memory and on file exactly the specified tree, and returns whether the key was there. |
| BTreeNodes.BTreeNode.RemoveFromNonLeaf | pkg/storage/btree/BTreeNode.cpp:249-298 | The replacement or merge over pages leaves in memory and on file exactly the specified tree. |
| BTreeNodes.BTreeNode.GetPredNode | pkg/storage/btree/BTreeNode.cpp:300-308 | The loop down the last children ends at the leaf whose last key is the last key below the child. |
| BTreeNodes.BTreeNode.GetSuccNode | pkg/storage/btree/BTreeNode.cpp:310-318 | The loop down the first children ends at the leaf whose first key is the first key below the child. |
| BTreeNodes.BTreeNode.Search | pkg/storage/btree/BTreeNode.cpp:496-513 | The descent through pages gives the answer of the search in the tree. |

## Left out

- The chain of leaves: the reference after a leaf's last value is not part of a page in the model. The program sets it after writing the page and corrects a sibling's copy without writing it, and none of the four operations reads it. Traversal and printing are out with it.
- Shifts and masks of packed offsets are multiplication, division and remainder by a power of two; 64-bit offsets do not wrap.
- One method, `Redistribute`, stands for `redistributeFromLeaf` and `redistributeFromInternal`, which differ only in the swaps and merges they call.
- A null father: the calls at the root are the separate methods `InternalRemoveRoot` and `LeafRemoveRoot`.
- Falling back to default sizes when the configured ones give no degree or no slot index; a store is modelled with a degree of at least 2 and at least two values to a page, which is what remains after that.
- Open: the degree and the number of bits of a slot index are arguments, as for a new store.
- constructor: the degree and the layout of addresses are arguments of both constructors; `MaxDegree` and `Address` say what the program computes them to be.
- CalculateMaxDegree: takes the child pointer size as 8, the only size it is called with, and the product of key count and key size as exact, which in a 32-bit `int` it is for keys of at most 32767 bytes.
- WriteNodePageToFile: what is overwritten behind the end of the buffer, when it says that the keys go over it, is not modelled.
- GetNodePageFromFile: nor is what is read behind the end of the buffer; reading stops there.
- GetAfterRun: keys longer than a buffer, children in more than two and sizes cut in two are left out of it, as `GetNodePage` says why.
- RunBytes: a value is written as its characters, a terminator and padding to the value size, and is shorter than that size; the file is taken at its final length, since growing it writes only bytes of new pages.
- stdio buffering across handles, the handle pools, locks and condition variables: operations are atomic on one logical disk.
- Memory management (`sdup`, `delete`, destructors), configuration parsing, the console, cgo wrappers, the gRPC service, clients and benchmarks.
- WriteNode: of the B-tree, stops where the program goes on behind its buffer, and so does its ReadNode. The runs of the B-tree are proved over pages by position, not over these bytes.
- NextForRoot: for nodes of at most 4096 bytes, which the program's buffer holds; NextForHalf likewise.
- B-tree values: positions of values are not kept cleanly there (a reused first slot is appended instead of overwritten, and a slot still in use is freed when its key moves up), so the model has keys only.
- FirstInsert: the first root takes the next fresh position, as the program takes the stored cursor, which after an emptied store is the one computed last.
- B-tree positions: a new node's position is the oldest freed one or a fresh number. The program computes the latter from the file length; that is the fresh number exactly as `BTreeFiles.NextIffFilled` says. With fewer chunks it computes the position of the last node itself, unless the last node is the father being split. The cursors after an emptied file was truncated are not modelled.
- fillNode's reads of siblings before the first and after the last child, which the program makes and never uses, are not made.
- Clearing the unused upper half of a split B-tree node's arrays, which no page view includes.
