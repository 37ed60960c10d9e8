# A page-based B+Tree index, modelled in Dafny

This project models the storage engine of a small disk-resident B+Tree
index written in Java. String keys map to a row id and an array of string
values. Nodes live in fixed 4096-byte pages. Pages sit in a file behind a
16384-byte metadata header and are cached by an LRU buffer pool.

The model follows the program layer by layer.

- **`Types`** (`types.dfy`): strings as byte sequences. Their
  lexicographic order stands for `String.compareTo`. The module also holds
  the error codes that stand for the exceptions Java throws, and `Outcome` /
  `Result` wrappers that carry them.
- **`Pages`** (`page.dfy`): the `Page` class over a byte array. Big-endian
  `writeInt`/`readInt` and length-prefixed `writeString`/`readString` with
  truncation are proved against pure image functions, with read-after-write
  lemmas. Pins, the dirty flag, clearing and `getRemainingSpace` are also
  here.
- **`Disk`** (`disk.dfy`): the `DiskManager` class over the file as a byte
  sequence. It has page offsets, whole-page reads and writes, and the
  metadata header.
- **`BufferPool`** (`buffer_pool.dfy`): the `BufferPoolManager` class. It
  has the page table, the LRU order, pin counts, the access counter,
  write-back of dirty pages and eviction of the least recently used
  unpinned page.
- **Node helpers** (`node_base.dfy`): the node binary search and the
  array-shifting loops shared by both kinds of node.
- **Leaf nodes**:
  - `leaf.dfy`: leaves as values, with their spec functions.
  - `leaf_codec.dfy`: the page layout and the round trip.
  - `leaf_node.dfy`: the `LeafNode` class over arrays, each method proved
    equal to its spec function.
- **Internal nodes**: `internal.dfy`, `internal_codec.dfy` and
  `internal_node.dfy`, split the same way as the leaves.
- **The tree engine**:
  - `tree_spec.dfy`: the decoded page store, the guarded descent, parent
    pointers, statistics, validation, `calculateMaxKeys` and the metadata
    layout.
  - `tree_ops.dfy`: insert, get and delete as functions on the tree state.
  - `tree_laws.dfy`: what those operations promise.
  - `allocation.dfy`: page allocation. Insert and delete keep every page id,
    the root and every pointer a page holds below `nextPageId`, and insert
    advances it by at most one page per level it climbs.
  - `tree.dfy`: the `BPlusTree` class. It keeps the root id, the next page
    id, the split and merge counters and the metadata image as fields, and
    each method is proved equal to its function in `tree_ops.dfy`.

The tree engine works on a store of pages as the node codecs read them
back (`map<int, Node>`). Every write goes through `TreeSpec.Stored`. It cuts
each key, row id and value to the 60 bytes its 64-byte slot holds, and it
turns an empty value array into null. `LeafCodec.LeafRoundTrip` and
`InternalCodec.InternalRoundTrip` prove that a serialize followed by a
deserialize gives exactly that. A page that was never written reads as the
all-zero image, which decodes as an empty internal node. This stands in
for the fetch, deserialize, serialize and unpin sequence of the Java code
for every node whose serialization fits its page. An insert whose leaf does
not fit fails with `PageSpaceExhausted` before that page is written (see
"Left out").

## Model

| member | source | states |
|---|---|---|
| Types.LessIrreflexive | BPlusTreeNode.java:56-66 | no key compares below itself |
| Types.LessTransitive | BPlusTreeNode.java:56-66 | the key order used by the searches is transitive |
| Types.LessTotal | BPlusTreeNode.java:56-66 | two distinct keys are always ordered one way or the other |
| Types.LessAsymmetric | BPlusTreeNode.java:56-66 | a key below another is never also above it |
| Pages.DecodeEncodeInt | Page.java:85-98 | reading back four big-endian bytes gives the Java `int` that was written |
| Pages.WriteIntAt | Page.java:85-91 | the four bytes at the offset are the big-endian encoding and every other byte is unchanged |
| Pages.WriteStringAt | Page.java:40-67 | a string write changes only the bytes of its slot |
| Pages.ReadWriteInt | Page.java:85-98 | reading an int at the offset where it was written gives it back |
| Pages.ReadIntLocal | Page.java:93-98 | an int read depends only on the four bytes of its slot |
| Pages.ReadStringLocal | Page.java:69-83 | a string read depends only on the bytes of its slot |
| Pages.PutStringAt | Page.java:55-65 | storing a length prefix and a payload changes no byte before the offset or after the payload |
| Pages.SlotStringFits | Page.java:40-67 | for a slot of 4 to 4096 bytes the wrapped checks accept exactly the slots inside the page, and the stored length is the unwrapped `Math.min` |
| Pages.WideSlotsAccepted | Page.java:41-48 | `writeString(10, "a", Integer.MAX_VALUE)` and `writeString(0, "a", Integer.MIN_VALUE)` pass every check and store one byte, although the first slot reaches past the page |
| Pages.ReadWriteString | Page.java:40-83 | a non-empty string that fits in the slot reads back unchanged |
| Pages.ReadWriteLongString | Page.java:40-83 | a string longer than the slot allows reads back cut to `maxLength - 4` bytes |
| Pages.ReadWriteEmptyString | Page.java:40-83 | the empty string reads back as the empty string |
| Pages.WrittenStringReads | Page.java:40-83 | after a write, the slot holds the stored length followed by the stored bytes |
| Pages.StoredString | Page.java:47-48 | what is stored is a prefix of the string of at most `maxLength - 4` bytes, and the whole string when it fits |
| Pages.ReadWriteStored | Page.java:40-83 | any string reads back as its stored prefix |
| Pages.ZeroPageReads | Page.java:69-98 | a zero-filled page reads 0 as every int and the empty string from every slot |
| Pages.RemainingSpace | Page.java:110-112 | the space left is never negative, and when it is positive it reaches exactly the end of the page |
| Pages.Page.constructor | Page.java:17-22 | a new page is all zeros, clean and unpinned |
| Pages.Page.Wrap | Page.java:24-29 | a page wrapping existing bytes is clean and unpinned |
| Pages.Page.Pin | Page.java:36 | the pin count goes up by one, wrapping from the largest `int` to the smallest |
| Pages.Page.Unpin | Page.java:37 | the pin count goes down by one, wrapping from the smallest `int` to the largest |
| Pages.Page.WriteInt | Page.java:85-91 | succeeds exactly when four bytes fit at the offset, then writes them and marks the page dirty; otherwise fails with nothing changed |
| Pages.Page.ReadInt | Page.java:93-98 | returns the big-endian int at the offset |
| Pages.Page.WriteString | Page.java:40-67 | succeeds exactly when every check passes with Java's sums taken in 32-bit `int` (`StringFits`), then holds the stored length and prefix and is dirty; a failure after the prefix is written leaves only the length prefix changed, an earlier failure nothing, and the dirty flag as it was |
| Pages.Page.ReadString | Page.java:69-83 | returns the string stored in the slot, with `maxLength - 4` taken in 32-bit `int` |
| Pages.Page.Clear | Page.java:100-107 | the page becomes all zeros and dirty |
| Disk.PageOffset | DiskManager.java:44 | page offsets lie past the metadata header and different pages never overlap |
| Disk.WritePageImage | DiskManager.java:70-91 | writing a page puts its bytes at its offset and changes no other byte |
| Disk.WriteMetadataImage | DiskManager.java:93-98 | writing metadata replaces the header and keeps the rest of the file |
| Disk.ReadAfterWritePage | DiskManager.java:38-91 | reading a page after writing it gives the written bytes |
| Disk.WritePageFrame | DiskManager.java:38-91 | writing one page does not change what another page reads |
| Disk.WritePageKeepsHeader | DiskManager.java:70-124 | writing a page does not change the metadata |
| Disk.ReadAfterWriteMetadata | DiskManager.java:93-124 | reading the metadata after writing it gives what was written |
| Disk.WriteMetadataKeepsPages | DiskManager.java:38-98 | writing the metadata does not change any page |
| Disk.DiskManager.constructor | DiskManager.java:15-17 | a new manager has no file open |
| Disk.DiskManager.OpenFile | DiskManager.java:19-30 | opens an existing file as is, or a new file holding a zero header |
| Disk.DiskManager.ReadPage | DiskManager.java:38-68 | returns a clean unpinned page holding the page's bytes, or zeros when no file is open or the page lies past the end |
| Disk.DiskManager.WritePage | DiskManager.java:70-91 | writes the page image when a file is open and the id is valid, and otherwise changes nothing |
| Disk.DiskManager.WriteMetadata | DiskManager.java:93-98 | replaces the header of an open file |
| Disk.DiskManager.ReadMetadata | DiskManager.java:100-124 | returns the header of an open file, or zeros |
| BufferPool.DiskRead | BufferPoolManager.java:49 | a page read from disk is always a full page, all zeros when never written |
| BufferPool.TrackTouch | BufferPoolManager.java:40-45 | moving a resident page to the back of the LRU order keeps the order and the page table in step |
| BufferPool.TrackAdmit | BufferPoolManager.java:59-61 | admitting a page adds it to both the table and the LRU order |
| BufferPool.TrackEvict | BufferPoolManager.java:112-113 | removing a victim removes it from both the table and the LRU order |
| BufferPool.BufferPoolManager.constructor | BufferPoolManager.java:20-31 | a new pool is empty with a zero access counter |
| BufferPool.BufferPoolManager.FirstUnpinned | BufferPoolManager.java:104-118 | finds the least recently used unpinned page, or reports that every page is pinned |
| BufferPool.BufferPoolManager.FirstUnpinnedFrom | BufferPoolManager.java:106-116 | the eviction scan finds the first unpinned page at or after a position in LRU order |
| BufferPool.BufferPoolManager.FetchPage | BufferPoolManager.java:33-67 | a negative id fails and changes nothing; otherwise the access counter goes up by one, wrapping as a Java `int`. A hit pins the cached page once more (the pin count wrapping likewise), keeps its dirty flag and moves it to the most recently used end. A miss fails with no evictable page exactly when the pool is full and every page is pinned, and then changes nothing. Otherwise it evicts the least recently used unpinned page when full (writing it back if dirty) and enters the disk page, pinned once and clean, at the most recently used end; no other page changes |
| BufferPool.BufferPoolManager.FetchResident | BufferPoolManager.java:38-45 | a hit counts one access and returns the cached page pinned once more, both counters wrapping as Java `int`s, and moves it to the most recently used end |
| BufferPool.BufferPoolManager.ReadFromDisk | BufferPoolManager.java:48-52 | the page read holds the disk bytes, clean and unpinned |
| BufferPool.BufferPoolManager.Admit | BufferPoolManager.java:59-61 | the page enters the table and the most recently used end of the LRU order |
| BufferPool.BufferPoolManager.FetchMissing | BufferPoolManager.java:38-66 | the access counter goes up by one, wrapping as a Java `int`; the miss fails exactly when the pool is full and every page is pinned, changing nothing else; otherwise the table, LRU order and disk are those after making room, plus the disk page pinned once at the most recently used end |
| BufferPool.BufferPoolManager.ReadIn | BufferPoolManager.java:47-66 | the read and install of a miss: fails exactly when the pool is full and every page is pinned, and otherwise leaves the table, LRU order and disk as after making room, plus the new page |
| BufferPool.BufferPoolManager.Install | BufferPoolManager.java:54-62 | room exists exactly when a frame is free or an unpinned page can be evicted; then the page is pinned once and entered after the eviction, with the table, LRU order and disk given in full; otherwise nothing changes |
| BufferPool.BufferPoolManager.MakeRoom | BufferPoolManager.java:54-57 | succeeds exactly when a frame is free or an unpinned page exists; a free frame changes nothing, a full pool loses exactly its least recently used unpinned page (written back if dirty), and a failure changes nothing |
| BufferPool.BufferPoolManager.UnpinPage | BufferPoolManager.java:69-77 | a resident page loses one pin, the count wrapping as a Java `int`, and becomes dirty if asked; nothing else changes |
| BufferPool.BufferPoolManager.FlushPage | BufferPoolManager.java:79-90 | writes the page back exactly when it is resident and dirty, then marks it clean |
| BufferPool.BufferPoolManager.WriteBack | BufferPoolManager.java:81-84 | the disk holds the page's bytes and the page is clean |
| BufferPool.BufferPoolManager.FlushAllPages | BufferPoolManager.java:92-102 | afterwards no page is dirty, each page that was dirty is on disk, and nothing else on disk changed |
| BufferPool.BufferPoolManager.EvictPage | BufferPoolManager.java:104-118 | evicts exactly when an unpinned page exists: the least recently used one, written back first if dirty |
| BufferPool.BufferPoolManager.RemoveVictim | BufferPoolManager.java:109-113 | drops the victim from the table and the LRU order, writing it back if dirty |
| BufferPool.BufferPoolManager.GetPageAccessCount | BufferPoolManager.java:120-122 | returns the access counter |
| BufferPool.BufferPoolManager.ResetPageAccessCount | BufferPoolManager.java:124-126 | the access counter becomes zero |
| NodeBase.CountLessSplits | BPlusTreeNode.java:56-66 | on sorted keys, the keys below the count-of-smaller position are smaller and the rest are not |
| NodeBase.PresentAtCountLess | BPlusTreeNode.java:56-66 | a key present in sorted keys sits at the position counting the smaller keys |
| NodeBase.SortedDistinct | BPlusTreeNode.java:56-66 | sorted keys hold no duplicates |
| NodeBase.BinarySearch | BPlusTreeNode.java:56-66 | the result is between 0 and the key count, and on sorted keys it is the number of keys below the search key |
| NodeBase.NullKeys | BPlusTreeNode.java:15-21 | a new node's key slots are all null |
| NodeBase.ShiftIn | LeafNode.java:160-172 | inserting at a position moves the later entries up one slot and keeps the rest |
| NodeBase.ShiftOut | LeafNode.java:188-202 | removing at a position moves the later entries down one slot and nulls the last |
| NodeBase.ShiftSlotsRight | LeafNode.java:160-166 | the in-place shift loop makes room exactly as `ShiftIn` describes |
| NodeBase.ShiftSlotsLeft | LeafNode.java:188-200 | the in-place shift loop closes the gap exactly as `ShiftOut` describes |
| NodeBase.MoveSlots | LeafNode.java:218-234 | the split's copy loop moves the upper slots into the new node and nulls them in the old one |
| Leaves.Fresh | LeafNode.java:13-19 | a new leaf is empty and ordered with `maxKeys` slots |
| Leaves.SearchPos | LeafNode.java:246-263 | the leaf's binary search returns a position within the keys |
| Leaves.SearchWindowCounts | LeafNode.java:246-263 | on sorted keys the search loop ends at the number of keys below the search key |
| Leaves.SearchPosIsCountLess | LeafNode.java:246-263 | on an ordered leaf the search position is the count of smaller keys |
| Leaves.Insert | LeafNode.java:135-176 | fails with `LeafFull` exactly when the leaf is full; otherwise keeps the parent and next pointers |
| Leaves.Search | LeafNode.java:177-183 | returns at most one value array |
| Leaves.Remove | LeafNode.java:185-206 | reports removal exactly when one entry went; an absent key leaves the leaf unchanged |
| Leaves.Split | LeafNode.java:208-243 | fails with fewer than two keys; otherwise the left half keeps `keyCount / 2` entries |
| Leaves.SearchFinds | LeafNode.java:177-183 | search returns the stored value of a present key and nothing for an absent one |
| Leaves.InsertExisting | LeafNode.java:141-149 | inserting an existing key replaces its row id and values in place |
| Leaves.InsertNew | LeafNode.java:151-172 | inserting a new key puts it at its sorted position and keeps the leaf ordered |
| Leaves.SearchAfterInsert | LeafNode.java:135-183 | after an insert, searching the key returns the inserted value array |
| Leaves.InsertedAtRank | LeafNode.java:151-172 | an insert into an ordered leaf with room puts the entry at the key's rank, with its values, and keeps the leaf ordered |
| Leaves.SearchIsLookup | LeafNode.java:177-183 | on an ordered leaf, search agrees with a linear lookup over the entries |
| Leaves.SearchOtherAfterInsert | LeafNode.java:135-183 | an insert does not change what any other key finds |
| Leaves.RemoveEntries | LeafNode.java:185-206 | a removal deletes exactly the key's entry and keeps the leaf ordered |
| Leaves.SearchAfterRemove | LeafNode.java:177-206 | after a removal the key is not found |
| Leaves.SearchOtherAfterRemove | LeafNode.java:177-206 | a removal does not change what any other key finds |
| Leaves.SplitEntries | LeafNode.java:208-243 | both halves are ordered, together they hold the original entries in order, every left key is below every right key, and the new leaf has no parent and no next leaf |
| Leaves.OrderedIsRanked | LeafNode.java:135-176 | a strictly ordered leaf is also in the weaker order the page store keeps (non-decreasing keys, only the first possibly empty) |
| Leaves.InsertRanked | LeafNode.java:135-176 | inserting into a leaf with room keeps that weaker order |
| Leaves.RemoveRanked | LeafNode.java:185-206 | removing a key keeps that weaker order |
| Leaves.SplitRanked | LeafNode.java:208-243 | both halves of a split keep that weaker order and the right half starts with a non-empty key |
| LeafCodec.ValueWrites | LeafNode.java:63-79 | the value slots are written one after another, 64 bytes apart |
| LeafCodec.EntryWrites | LeafNode.java:55-79 | an entry is its key slot, row-id slot, value count and value slots, 132 bytes plus 64 per value |
| LeafCodec.EncodeEntries | LeafNode.java:46-82 | the entries follow the header, each one starting where the previous one ended |
| LeafCodec.EncodeStops | LeafNode.java:46-89 | once an entry does not fit, serialization stops and later entries add nothing |
| LeafCodec.EncodeLeaf | LeafNode.java:22-90 | the serialized image is one full page |
| LeafCodec.ValueWritesOk | LeafNode.java:63-73 | an entry's values are all written exactly when the last value slot ends within the page |
| LeafCodec.EntryWritesOk | LeafNode.java:46-79 | an entry is written exactly when 200 bytes remain before it and its 132 bytes plus 64 per value end within the page |
| LeafCodec.EncodeEntriesOk | LeafNode.java:44-82 | the first entries are all written exactly when each of them has that room |
| LeafCodec.EncodeOk | LeafNode.java:22-90 | `serialize` completes exactly when every entry has its room (`Fits`) |
| LeafCodec.FewValuesFit | LeafNode.java:44-82 | a leaf whose entries have at most `v` values each fits when 16 bytes of header, that many entries of 132 + 64·`v` bytes and 68 bytes more fit in the page |
| LeafCodec.LoneEntryFits | LeafNode.java:44-82 | a leaf of one entry fits exactly when the entry has at most 61 values |
| LeafCodec.TenFiveValueEntriesOverflow | LeafNode.java:46-52 | ten entries of five values each, which the default 10-key node admits, do not fit: the tenth finds fewer than 200 bytes |
| LeafCodec.EntryEndExact | LeafNode.java:44-82 | entries of `v` values each end 132 + 64·`v` bytes apart after the header |
| LeafCodec.DecodeEntries | LeafNode.java:105-122 | deserialization reads each entry's key, row id and values, keeping the header fields |
| LeafCodec.DecodeLeafInto | LeafNode.java:93-123 | deserialization takes the key count, parent and next leaf from the header |
| LeafCodec.DecodeLeafWf | LeafNode.java:93-123 | decoding a page whose key count is in range gives a well-formed leaf |
| LeafCodec.HeaderReads | LeafNode.java:22-41 | the serialized header reads back as leaf type, key count, parent and next leaf |
| LeafCodec.LeafRoundTrip | LeafNode.java:22-123 | deserializing a serialized leaf gives the leaf back, with strings cut to their slots |
| LeafCodec.DecodeStored | LeafNode.java:93-123 | any page holding the leaf's header and entries decodes to that leaf |
| LeafCodec.AllStored | LeafNode.java:46-82 | a serialized leaf holds every entry at its offset |
| LeafCodec.FailedEncodeKeepsHeader | LeafNode.java:22-90 | even when the entries overflow the page, the image keeps the leaf type tag and its header |
| LeafCodec.KeptIsStored | LeafNode.java:22-123 | what a leaf reads back as is a page image with the same header, each key cut to its slot |
| LeafCodec.StoredIsKept | LeafNode.java:22-123 | a page image reads back as itself |
| LeafCodec.KeptRanked | LeafNode.java:22-123 | cutting keys to their slots keeps the leaf's weak order |
| LeafCodec.RemoveStored | LeafNode.java:185-206 | removing a key from a page image gives a page image |
| LeafCodec.InsertKeysKept | LeafNode.java:135-176 | inserting a key that fits its slot keeps every key within its slot |
| LeafCodec.SplitKeysKept | LeafNode.java:208-243 | splitting keeps every key within its slot |
| LeafCodec.KeptKeys | LeafNode.java:22-123 | when every key fits its slot, the keys read back unchanged |
| LeafCodec.KeptLeafOrdered | LeafNode.java:22-123 | when every key fits its slot, an ordered leaf reads back ordered |
| LeafCodec.SearchKept | LeafNode.java:177-183 | when every key fits, search on the leaf read back finds what it found before, with the values as they read back |
| LeafCodec.StoredFound | LeafNode.java:177-183 | on a page image the values found already read back as themselves |
| LeafCodec.LongKeyAbsent | LeafNode.java:177-183 | a key longer than 60 bytes is never found on a leaf read back from a page |
| LeafCodec.EntriesKept | LeafNode.java:22-123 | the entries read back are each entry with key, row id and values cut and an empty value array as null |
| LeafCodec.LookupKept | LeafNode.java:22-123 | when every key fits, looking a key up among entries read back gives the value arrays read back |
| LeafCodec.InsertReadBack | LeafNode.java:135-183 | after inserting into a page image and reading it back, a key of at most 60 bytes finds its value array as read back and every other key what it found before; a longer key finds nothing |
| LeafCodec.ShortKeyFound | LeafNode.java:135-183 | with a key of at most 60 bytes, searching the inserted key on the page read back returns its values as read back |
| LeafCodec.ShortKeyOthers | LeafNode.java:135-183 | with a key of at most 60 bytes, every other key finds on the page read back what it found before the insert |
| LeafCodec.LongKeyAdded | LeafNode.java:135-176 | a key longer than 60 bytes is never present in a page image, so an insert always adds it as a new entry whose key reads back cut |
| LeafCodec.LongKeyJoinsCut | LeafNode.java:135-176 | a long key added to a one-entry page image holding its own cut key gives two entries with the same key |
| LeafCodec.LookupPairKept | LeafNode.java:22-123 | for two leaves whose keys fit, lookup over their entries read back gives the values read back |
| LeafCodec.StoredLookup | LeafNode.java:22-123 | on a page image every value array looked up already reads back as itself |
| LeafNodes.LeafNode.constructor | LeafNode.java:13-19 | a new leaf node is the empty leaf |
| LeafNodes.LeafNode.BinarySearch | LeafNode.java:246-263 | returns the search position, which on an ordered leaf is the count of smaller keys |
| LeafNodes.LeafNode.Search | LeafNode.java:177-183 | returns what the entries list for the key |
| LeafNodes.LeafNode.InsertKeyValue | LeafNode.java:135-176 | the arrays change exactly as `Leaves.Insert` says, or the call fails on a full leaf |
| LeafNodes.LeafNode.InsertAt | LeafNode.java:160-172 | shifts the later entries up and stores the new entry at the position |
| LeafNodes.LeafNode.RemoveKey | LeafNode.java:185-206 | the arrays change exactly as `Leaves.Remove` says |
| LeafNodes.LeafNode.RemoveAt | LeafNode.java:188-202 | shifts the later entries down and nulls the freed slot |
| LeafNodes.LeafNode.Split | LeafNode.java:208-243 | the node keeps the lower half and the fresh node returned holds the upper half, as `Leaves.Split` says |
| LeafNodes.LeafNode.SetNextLeafPageId | LeafNode.java:269 | sets the next-leaf link |
| LeafNodes.LeafNode.SetPageId | LeafNode.java:270 | sets the page id |
| LeafNodes.LeafNode.SetParentPageId | BPlusTreeNode.java:52-54 | sets the parent pointer |
| LeafNodes.LeafNode.Serialize | LeafNode.java:22-90 | the page holds the encoded image, and the call fails exactly when the entries do not fit |
| LeafNodes.LeafNode.Deserialize | LeafNode.java:93-123 | the node's fields become the decoded page |
| LeafNodes.LeafNode.ReadEntry | LeafNode.java:105-121 | reads one entry and returns the offset of the next |
| LeafNodes.ReadValues | LeafNode.java:115-121 | reads `count` consecutive value slots |
| LeafNodes.WriteEntries | LeafNode.java:46-89 | the entry loop writes the encoded image, failing at the first entry that does not fit |
| LeafNodes.WriteEntry | LeafNode.java:55-79 | writes one entry's slots as the layout says |
| Internals.Fresh | InternalNode.java:12-20 | a new internal node has no keys, no parent, and every child slot -1 |
| Internals.RoutePos | InternalNode.java:98-124 | the routing scan stops within the keys |
| Internals.FirstLive | InternalNode.java:98-124 | the fallback is -1 or one of the node's live children |
| Internals.RoutePosSplits | InternalNode.java:98-124 | on sorted keys the route goes right past every key not above the search key |
| Internals.FindChildRange | InternalNode.java:98-124 | the chosen child is one of the node's children, or -1 |
| Internals.FindChildRoutes | InternalNode.java:98-124 | the chosen child is the first live child at or after the route position, so equal keys go right |
| Internals.InsertPos | InternalNode.java:131-135 | the insertion position is within the keys |
| Internals.InsertAt | InternalNode.java:126-152 | adds one key, keeping the parent |
| Internals.InsertKeyChild | InternalNode.java:126-152 | fails with `InternalFull` exactly when the node is full |
| Internals.InsertKeyChildForSplit | InternalNode.java:155-181 | the split insert uses the extra key slot and fails only when even that is taken |
| Internals.InsertPosSplits | InternalNode.java:131-135 | the insertion position separates the smaller keys from the rest |
| Internals.InsertPosIsCountLess | InternalNode.java:131-135 | on sorted keys the insertion position counts the smaller keys |
| Internals.InsertAtKeys | InternalNode.java:126-152 | the new key list is the old one with the key inserted at its position |
| Internals.InsertAtChildren | InternalNode.java:126-152 | the child list gets the left and right children around the new key |
| Internals.InsertAtOrdered | InternalNode.java:126-152 | inserting a key that is not present keeps the node ordered |
| Internals.InsertKeyChildOrdered | InternalNode.java:126-152 | a non-full ordered node accepts a new key and stays ordered |
| Internals.InsertKeyChildForSplitOrdered | InternalNode.java:155-181 | a full ordered node accepts the split key in its extra slot and stays ordered |
| Internals.ForSplitAsWrittenFailsWhenFull | InternalNode.java:155-181 | with `maxKeys` key slots, the split insert succeeds only below `maxKeys` and runs out of bounds on a full node |
| Internals.ForSplitAsWrittenTenKeys | InternalNode.java:155-181 | a full ten-key node makes the split insert run out of bounds |
| Internals.KeptHalf | InternalNode.java:183-220 | the node keeps the keys below the middle and their children |
| Internals.MovedHalf | InternalNode.java:183-220 | the new node gets the keys above the middle and their children |
| Internals.Split | InternalNode.java:183-220 | fails below three keys; otherwise gives two well-formed halves and the middle key |
| Internals.KeptHalfParts | InternalNode.java:183-220 | the kept half is ordered, keeps the parent and its keys lie below the middle key |
| Internals.MovedHalfParts | InternalNode.java:183-220 | the moved half is ordered and its keys lie above the middle key |
| Internals.SplitParts | InternalNode.java:183-220 | left keys, the middle key and right keys make up the original keys, and the children concatenate to the original children |
| Internals.GetMiddleKey | InternalNode.java:222-228 | fails on an empty node; otherwise returns one of its keys |
| InternalCodec.KeyWrites | InternalNode.java:39-47 | one 64-byte key slot per key position |
| InternalCodec.ChildWrites | InternalNode.java:49-57 | one int per child position |
| InternalCodec.InternalWrites | InternalNode.java:22-58 | the header, then every key slot, then every child slot |
| InternalCodec.EncodeInternal | InternalNode.java:22-58 | the serialized image is one full page |
| InternalCodec.EncodeOkIffFits | InternalNode.java:22-58 | serialization succeeds exactly when the layout ends within the page |
| InternalCodec.DecodeInternalInto | InternalNode.java:61-86 | decoding keeps the node's array sizes |
| InternalCodec.DecodeWf | InternalNode.java:61-86 | decoding gives a well-formed node |
| InternalCodec.HeaderReadsBack | InternalNode.java:22-37 | the header reads back as internal type, key count and parent |
| InternalCodec.KeysReadBack | InternalNode.java:39-79 | every key slot reads back as its stored key |
| InternalCodec.ChildrenReadBack | InternalNode.java:49-85 | every child slot reads back as the child id |
| InternalCodec.InternalRoundTrip | InternalNode.java:22-86 | a node that fits serializes and decodes back to itself, with keys cut to their slots |
| InternalCodec.DecodeAll | InternalNode.java:61-86 | any page holding the node's header, keys and children decodes to it |
| InternalCodec.KeptOrdered | InternalNode.java:22-86 | an ordered node of short keys is unchanged by cutting keys to their slots |
| InternalCodec.OrderedRoundTrip | InternalNode.java:22-86 | an ordered node of short keys decodes back to exactly itself |
| InternalCodec.SmallNodesFit | InternalNode.java:22-58 | every internal node of the sizes `calculateMaxKeys` can choose fits in a page |
| InternalCodec.KeptNonEmpty | InternalNode.java:22-86 | a node with non-empty keys reads back well formed with non-empty keys, the same key count, parent and children, and each key cut to its slot |
| InternalCodec.KeptInternalStable | InternalNode.java:22-86 | reading back a node that was already read back changes nothing |
| InternalNodes.InternalNode.constructor | InternalNode.java:12-20 | a new internal node is the empty node with `maxKeys + 1` key slots and `maxKeys + 2` child slots |
| InternalNodes.InternalNode.FindChild | InternalNode.java:98-124 | returns the child the routing function chooses |
| InternalNodes.InternalNode.InsertKeyChild | InternalNode.java:126-152 | the arrays change exactly as `Internals.InsertKeyChild` says |
| InternalNodes.InternalNode.InsertKeyChildForSplit | InternalNode.java:155-181 | the arrays change exactly as the corrected split insert says |
| InternalNodes.InternalNode.InsertAt | InternalNode.java:126-152 | the node becomes `Internals.InsertAt` of its old state |
| InternalNodes.InternalNode.InsertPosition | InternalNode.java:131-135 | the scan returns the insertion position |
| InternalNodes.InternalNode.ShiftInAt | InternalNode.java:137-149 | shifts keys and children up and stores the key and the two children |
| InternalNodes.InternalNode.Split | InternalNode.java:183-220 | keeps the lower half, returns a fresh node with the upper half and records the middle key |
| InternalNodes.InternalNode.MoveUpperHalf | InternalNode.java:194-215 | the node keeps the kept half and the other node receives the moved half |
| InternalNodes.InternalNode.GetMiddleKey | InternalNode.java:222-228 | returns what `Internals.GetMiddleKey` says |
| InternalNodes.InternalNode.SetPageId | InternalNode.java:236 | sets the page id |
| InternalNodes.InternalNode.SetParentPageId | BPlusTreeNode.java:52-54 | sets the parent pointer |
| InternalNodes.InternalNode.Serialize | InternalNode.java:22-58 | the page holds the encoded image, failing exactly when the layout overruns the page |
| InternalNodes.InternalNode.Deserialize | InternalNode.java:61-86 | the node's fields become the decoded page |
| InternalNodes.InternalNode.ReadKeys | InternalNode.java:70-79 | every key slot is read from the page |
| InternalNodes.InternalNode.ReadChildren | InternalNode.java:81-85 | every child slot is read from the page |
| InternalNodes.MoveKeys | InternalNode.java:194-201 | the split's key loop moves the keys above the middle and nulls them in the old node |
| TreeSpec.ZeroPage | BPlusTreeImpl.java:182-184 | a never-written page is an empty internal node |
| TreeSpec.ZeroPageDecodes | InternalNode.java:61-86 | the empty internal node is what the zero image decodes to |
| TreeSpec.Load | BPlusTreeImpl.java:126-133 | every page loaded from a well-formed store is a well-formed node |
| TreeSpec.Stored | LeafNode.java:22-123 | a written node is stored as it reads back: a page image of the same kind and parent, and a leaf already a page image is stored unchanged |
| TreeSpec.Descend | BPlusTreeImpl.java:303-347 | a descent that reaches a leaf ends at an unvisited page holding that leaf |
| TreeSpec.DescendFollowsRoute | BPlusTreeImpl.java:303-347 | a descent that reaches a leaf followed a cycle-free route of `findChild` choices within the depth limit |
| TreeSpec.RouteCons | BPlusTreeImpl.java:327-340 | an internal node's chosen child extends a route |
| TreeSpec.RouteIsDescended | BPlusTreeImpl.java:303-347 | every cycle-free route within the depth limit is what the descent follows |
| TreeSpec.DescendAfterLeafWrite | BPlusTreeImpl.java:136-141 | rewriting a leaf changes no descent except that a descent ending there sees the new leaf |
| TreeSpec.WithParentWf | BPlusTreeImpl.java:577-591 | changing a node's parent pointer keeps it well formed |
| TreeSpec.SetParent | BPlusTreeImpl.java:577-591 | the page keeps its kind, gets the new parent, keeps its entries (leaf) or key count and children (internal node), and no other page changes |
| TreeSpec.StoredWithParent | BPlusTreeImpl.java:577-591 | a stored leaf given a new parent reads back changed only in its parent pointer; an internal node keeps its key count and children |
| TreeSpec.SetParentTwice | BPlusTreeImpl.java:593-615 | setting the same parent twice is the same as setting it once |
| TreeSpec.Reparent | BPlusTreeImpl.java:593-615 | re-parenting children keeps the store well formed |
| TreeSpec.ReparentStops | BPlusTreeImpl.java:593-615 | once re-parenting fails, later children are not touched |
| TreeSpec.ReparentSets | BPlusTreeImpl.java:593-615 | re-parenting fails exactly on an invalid child id; otherwise every listed child, and no other page, gets the new parent |
| TreeSpec.TreeStatsConsistent | BPlusTreeImpl.java:423-468 | the statistics count `maxKeys` slots per node, used slots never exceed them, and a non-empty tree has positive height |
| TreeSpec.AddConsistent | BPlusTreeImpl.java:450-459 | adding a child's statistics keeps the totals consistent |
| TreeSpec.ChildStatsConsistent | BPlusTreeImpl.java:450-459 | the loop over the children keeps the totals consistent |
| TreeSpec.ValidateSound | BPlusTreeImpl.java:478-529 | validation fails only on depth or a self-reference, and each warning names a node whose parent pointer really is wrong; its detection half is `ValidateDetects` |
| TreeSpec.ValidateKidsSound | BPlusTreeImpl.java:510-516 | the loop over the children keeps every warning justified; its detection half is `ValidateKidsDetects` |
| TreeSpec.ValidateWarnsSelf | BPlusTreeImpl.java:478-529 | a leaf or internal page the check reaches, within depth and off the path, whose parent pointer is wrong is always warned about, even when the walk below it fails |
| TreeSpec.ValidateKidsDetects | BPlusTreeImpl.java:510-516 | the loop over the children keeps earlier warnings; when it passes, every child passed with its warnings kept, and every child off the path whose parent pointer is not the node is warned about |
| TreeSpec.ValidateDetects | BPlusTreeImpl.java:478-529 | the detection half of validation: a checked page with a wrong parent pointer is warned about, and a passing internal node has every listed child checked and every child that does not point back at it warned about |
| TreeSpec.Inc32 | BPlusTreeImpl.java:558-560 | `nextPageId++` stays a Java `int` and adds one below the maximum |
| TreeSpec.JavaDivMonotone | BPlusTreeImpl.java:546-549 | Java's truncating division and the cast are monotone |
| TreeSpec.CalculateMaxKeys | BPlusTreeImpl.java:531-556 | the node capacity is always between 3 and 20, for every `int` page size, `pageSize - 16` wrapping as Java computes it |
| TreeSpec.MaxKeysOfDefaultPage | BPlusTreeImpl.java:531-556 | a 4096-byte page gives 10 keys per node |
| TreeSpec.MaxKeysMonotone | BPlusTreeImpl.java:531-556 | between `Integer.MIN_VALUE + 16` and `Integer.MAX_VALUE`, where `pageSize - 16` does not wrap, a larger page never gives fewer keys |
| TreeSpec.MaxKeysWrap | BPlusTreeImpl.java:536-552 | below that range the order breaks: `Integer.MIN_VALUE` wraps to a large space and gets 20 keys, where a page size of 0 gets 3 |
| TreeSpec.MetadataBytes | BPlusTreeImpl.java:562-575 | the saved metadata fills the whole header |
| TreeSpec.MetaInt | BPlusTreeImpl.java:50-56 | a metadata field is a Java `int` |
| TreeSpec.MetadataRoundTrip | BPlusTreeImpl.java:50-56 | reading saved metadata gives the magic number, root, next page id and counters back |
| TreeSpec.SplitLeafInsert | BPlusTreeImpl.java:142-181 | both leaves of a split insert are well formed and full-sized, the left keeps the parent, and the right is not empty |
| TreeSpec.InsertKeepsOrder | LeafNode.java:135-176 | inserting into an ordered leaf with room keeps it ordered |
| TreeSpec.InsertKeysFrom | LeafNode.java:135-176 | every key after an insert is the new key or an old one |
| TreeSpec.InsertKeepsFirst | LeafNode.java:135-176 | inserting a key not below the first key keeps the first key |
| TreeSpec.InsertLeftBelow | BPlusTreeImpl.java:155-160 | inserting a key below the right leaf's first key into the left leaf keeps the left leaf below the right |
| TreeSpec.InsertRightAbove | BPlusTreeImpl.java:161-165 | inserting a key not below the right leaf's first key into the right leaf keeps the left leaf below it |
| TreeSpec.SplitLeafInsertParts | BPlusTreeImpl.java:142-181 | after a split insert both leaves are ordered, the left lies below the right, the links run left to right to the old next leaf, and the key is found on the side `compareTo` chose |
| TreeSpec.LookupInsertLeft | BPlusTreeImpl.java:155-160 | an insert into the left leaf adds the key and changes no other key's lookup |
| TreeSpec.LookupInsertRight | BPlusTreeImpl.java:161-165 | an insert into the right leaf adds the key and changes no other key's lookup |
| TreeSpec.SplitLeafInsertLookup | BPlusTreeImpl.java:142-181 | the two leaves together map the new key to its value and every other key as the old leaf did |
| TreeSpec.SplitLeafInsertRanked | BPlusTreeImpl.java:142-181 | both leaves of a split insert keep the weak order and the separator that climbs is non-empty |
| TreeSpec.SplitLeafInsertKeysKept | BPlusTreeImpl.java:142-181 | with a key that fits its slot, both leaves of a split insert keep every key within its slot |
| TreeOps.CreateOp | BPlusTreeImpl.java:37-74 | a file without the magic number opens as an empty tree with page ids from 0 and no warnings |
| TreeOps.ReopenRestores | BPlusTreeImpl.java:37-87 | reopening after saving the metadata restores the root, next page id and counters |
| TreeOps.Put | BPlusTreeImpl.java:136-140 | writing a page stores it as it reads back after serialization; a leaf that is already a page image reads back exactly as written; no other page changes |
| TreeOps.InsertAtNonEmpty | InternalNode.java:126-152 | inserting a non-empty key into an internal node keeps every key non-empty |
| TreeOps.SplitNonEmpty | InternalNode.java:183-220 | both halves of an internal split have non-empty keys |
| TreeOps.InsertUp | BPlusTreeImpl.java:211-290 | inserting a non-empty separator into the parent keeps the tree state well formed, every page as it reads back |
| TreeOps.NewRoot | BPlusTreeImpl.java:212-240 | growing a new root over a non-empty separator keeps the tree state well formed, the root stored as it reads back |
| TreeOps.AddToParent | BPlusTreeImpl.java:243-254 | adding a non-empty separator to a parent with room keeps the tree state well formed, the parent stored as it reads back |
| TreeOps.SplitInto | BPlusTreeImpl.java:258-269 | with the corrected `insertKeyChildForSplit` (see Findings), the split insert into a full parent gives two well-formed halves with non-empty keys, the kept one with the old parent, and a non-empty middle key to climb |
| TreeOps.SplitParent | BPlusTreeImpl.java:255-288 | splitting a full parent, on the corrected split insert, keeps the tree state well formed |
| TreeOps.SplitClimb | BPlusTreeImpl.java:265-287 | placing both halves and climbing keeps the tree state well formed |
| TreeOps.SplitWrites | BPlusTreeImpl.java:271-281 | re-parenting and writing both halves keeps the store well formed, each half stored as it reads back |
| TreeOps.LeafInsert | BPlusTreeImpl.java:131-181 | inserting into a leaf keeps the tree state well formed, each written leaf stored as it reads back, also on the paths where a leaf that does not fit its page stops it |
| TreeOps.InsertFrom | BPlusTreeImpl.java:109-209 | the recursive insert keeps the tree state well formed |
| TreeOps.InsertOp | BPlusTreeImpl.java:90-107 | insert keeps the tree state well formed, every written page as it reads back, also when the first leaf does not fit its page |
| TreeOps.SearchFrom | BPlusTreeImpl.java:303-347 | a successful search returns at most one value array |
| TreeOps.GetOp | BPlusTreeImpl.java:292-301 | a successful get returns at most one value array |
| TreeOps.DeleteFrom | BPlusTreeImpl.java:356-403 | the recursive delete keeps the tree state well formed |
| TreeOps.DeleteOp | BPlusTreeImpl.java:350-354 | delete keeps the tree state well formed |
| TreeOps.SetParentLeaves | BPlusTreeImpl.java:577-591 | updating a parent pointer keeps every leaf's keys, entries and link |
| TreeOps.PutInternalLeaves | BPlusTreeImpl.java:229-231 | writing an internal page keeps every other leaf |
| TreeOps.ReparentLeaves | BPlusTreeImpl.java:593-615 | re-parenting children keeps every leaf's entries and link |
| TreeOps.NewRootLeaves | BPlusTreeImpl.java:212-240 | growing a new root keeps every leaf's entries and link |
| TreeOps.AddToParentLeaves | BPlusTreeImpl.java:243-254 | adding to a parent keeps every leaf's entries and link |
| TreeOps.InsertUpLeaves | BPlusTreeImpl.java:211-290 | the whole climb keeps every leaf's entries and link, and creates no leaf at a page below the next page id |
| TreeOps.SplitParentLeaves | BPlusTreeImpl.java:255-288 | splitting a parent keeps every leaf's entries and link |
| TreeOps.SplitClimbLeaves | BPlusTreeImpl.java:265-287 | placing both halves and climbing keeps every leaf's entries and link |
| TreeOps.SplitWritesLeaves | BPlusTreeImpl.java:271-281 | writing the halves keeps every leaf's entries and link |
| TreeOps.LeafSplitClimb | BPlusTreeImpl.java:142-181 | a leaf split whose two halves both serialize writes both halves as they read back, and the climb leaves them and all older leaves in place |
| TreeOps.ClimbAfterWrites | BPlusTreeImpl.java:265-287 | after the two halves are written, the rest of the climb keeps every leaf's entries and link and creates no leaf below the next page id |
| TreeLaws.GetAfterLeafWrite | BPlusTreeImpl.java:292-347 | after rewriting a leaf, get finds the new leaf for keys routed there and the old answer for all others |
| TreeLaws.DeleteLaws | BPlusTreeImpl.java:350-403 | delete succeeds exactly when get does; on failure nothing changes; only pages change; an absent key changes nothing; leaves stay ordered; the key is then gone and every other key is unaffected |
| TreeLaws.FirstInsert | BPlusTreeImpl.java:90-102 | the first insert succeeds exactly when the entry has at most 61 values; then it makes a one-entry leaf root at the next page id and saves the metadata; the entry is the key, row id and values as they read back, and get then finds the values under the cut key and nothing under any other key |
| TreeLaws.GetAtRootLeaf | BPlusTreeImpl.java:292-301 | on a tree whose root page is a leaf, get returns that leaf's search result |
| TreeLaws.GetAfterInsert | BPlusTreeImpl.java:136-141 | inserting into a leaf with room succeeds exactly when the leaf with the entry fits its page, and otherwise fails with `PageSpaceExhausted` changing nothing; on success a key of at most 60 bytes is then found with its values as they read back and every other key is unaffected; a longer key is not found |
| TreeLaws.InsertOrdered | BPlusTreeImpl.java:90-290 | inserting a key of at most 60 bytes keeps every leaf ordered |
| TreeLaws.LeafInsertOrdered | BPlusTreeImpl.java:131-181 | inserting a key of at most 60 bytes into a leaf, with or without a split, keeps every leaf ordered |
| TreeLaws.SplitInsertOrdered | BPlusTreeImpl.java:142-181 | the full-leaf path, with a key of at most 60 bytes, keeps every leaf ordered |
| TreeLaws.SameLeafEntries | BPlusTreeImpl.java:577-591 | two leaves differing only in their parent pointer hold the same entries and link |
| TreeLaws.LeafSplitEntries | BPlusTreeImpl.java:142-181 | when both halves fit their pages, a split insert links the old leaf, the new leaf and the old successor in order and keeps every other leaf; with a key of at most 60 bytes the old leaf lies below the new one and together they hold the old entries plus the new key with its values as they read back |
| TreeLaws.SplitKeepsOthers | BPlusTreeImpl.java:142-181 | after the split writes and the climb, both halves and all other leaves are still in place |
| TreeLaws.NewRootRoutes | BPlusTreeImpl.java:212-240 | the new root holds the separator cut to its slot, routes keys below it left and the rest right, and both children point to it |
| TreeLaws.RootRoutes | BPlusTreeImpl.java:214-225 | the fresh root after `insertKeyChild`, as it reads back, sends keys below the cut separator to the left child and all others to the right |
| TreeLaws.StatLaws | BPlusTreeImpl.java:406-421 | the statistics report the counters, `maxKeys` slots per node and used slots within them, and zeros for an empty tree |
| TreeLaws.FirstLeaf | BPlusTreeImpl.java:90-102 | the first insert takes the next page id as its root. With at most 61 values it writes one leaf page image there, changes no other page and saves the metadata; otherwise it fails with `PageSpaceExhausted`, writes no page and saves nothing, with the root and next page ids already moved on |
| TreeLaws.InsertWithRoom | BPlusTreeImpl.java:136-141 | an insert reaching a leaf with room writes that leaf, with the entry, as it reads back and changes nothing else when that leaf fits its page; otherwise it fails with `PageSpaceExhausted` and changes nothing |
| TreeLaws.LeafSplitOverflow | BPlusTreeImpl.java:142-170 | a split insert whose first half does not fit its page fails with `PageSpaceExhausted` having taken the next page id and written nothing; when only the second half does not fit, the first half is written and the new page is not; the split is not counted |
| TreeLaws.LongKeysCollide | BPlusTreeImpl.java:90-141 | two keys longer than 60 bytes that share their first 60 bytes, inserted into an empty tree with at most 29 values each, both succeed and give one leaf with two entries under the same cut key |
| TreeLaws.SecondEntryFits | LeafNode.java:44-82 | a long key added beside a lone entry, each with at most 29 values, gives a leaf that fits its page |
| TreeLaws.SplitReadBack | BPlusTreeImpl.java:142-181 | with a key of at most 60 bytes, the two halves of a split, taken as their pages would read back, are in order and together map the key to its values as read back and every other key as before. It says nothing about writing them: whether both halves fit their pages is `LeafSplitEntries` and `LeafSplitOverflow` |
| TreeLaws.SplitLookupKept | BPlusTreeImpl.java:142-181 | with a key of at most 60 bytes, lookup over the two halves read back maps the key to its values as read back and every other key as before |
| TreeLaws.BelowKept | BPlusTreeImpl.java:142-181 | two leaves whose keys fit their slots stay one below the other when read back |
| Allocation.LoadBelow | BPlusTreeImpl.java:577-591 | a page read back below the bound holds only pointers below it, even when the page was never written |
| Allocation.StoredBelow | LeafNode.java:22-125 | serializing and reading a node back keeps its pointers below the bound |
| Allocation.PutBelow | BPlusTreeImpl.java:109-200 | writing a node with pointers below the bound, at a page below it, keeps the store below the bound |
| Allocation.SetParentBelow | BPlusTreeImpl.java:577-591 | `updateNodeParent` with a parent below the bound keeps the store below it |
| Allocation.ReparentBelow | BPlusTreeImpl.java:593-615 | `updateChildrenParent` over ids below the bound keeps the store below it |
| Allocation.InsertAtBelow | BPlusTreeImpl.java:243-254 | inserting a separator between children below the bound keeps every child below it |
| Allocation.SplitIntoBelow | BPlusTreeImpl.java:255-270 | both halves of a split parent hold only children and parents below the bound |
| Allocation.SplitLeafLinks | BPlusTreeImpl.java:142-160 | a split leaf keeps its parent and points at the new page; the new leaf takes the old successor and no parent yet |
| Allocation.NewRootAllocated | BPlusTreeImpl.java:212-240 | a new root takes the next page id, the counter goes up by one, and every page and pointer stays below it |
| Allocation.AddToParentAllocated | BPlusTreeImpl.java:243-254 | a parent with room takes the key in place, the counter is unchanged and every pointer stays below it |
| Allocation.SplitWritesBelow | BPlusTreeImpl.java:271-281 | writing both halves of a split parent and re-parenting the moved children keeps the store below the bound |
| Allocation.InsertUpAllocated | BPlusTreeImpl.java:211-290 | a climb of at most `fuel` levels keeps every page and pointer below the counter and advances it by at most `fuel` |
| Allocation.SplitParentAllocated | BPlusTreeImpl.java:255-288 | splitting a full parent keeps every page and pointer below the counter, advancing it by one to `fuel` |
| Allocation.SplitClimbAllocated | BPlusTreeImpl.java:262-288 | after the halves are written, the upper half takes the next page id and the climb keeps every page and pointer below the counter |
| Allocation.ClimbResult | BPlusTreeImpl.java:262-288 | what the climb after a parent split leaves is what the climb from the upper half leaves |
| Allocation.LeafInsertAllocated | BPlusTreeImpl.java:131-181 | the leaf step of insert keeps every page and pointer below the counter, advancing it by at most one plus the climb's fuel |
| Allocation.LeafSplitAllocated | BPlusTreeImpl.java:142-181 | splitting a full leaf allocates the next page id and keeps every page and pointer below the counter |
| Allocation.InsertOpAllocated | BPlusTreeImpl.java:90-107 | insert, whether it completes or throws part way, keeps every page, the root and every pointer below `nextPageId`, and the counter only grows, by at most one page per level climbed |
| Allocation.DeleteOpAllocated | BPlusTreeImpl.java:350-354 | delete keeps every page and pointer below the counter and changes neither the counter nor the root |
| Tree.BPlusTree.constructor | BPlusTreeImpl.java:28-34 | a new tree is empty, with page ids from 0 and zero counters |
| Tree.BPlusTree.Create | BPlusTreeImpl.java:37-74 | the new state and the validation result are `CreateOp`'s |
| Tree.BPlusTree.Close | BPlusTreeImpl.java:77-87 | the metadata is saved |
| Tree.BPlusTree.SaveMetadata | BPlusTreeImpl.java:562-575 | the metadata image holds the current root, next page id and counters |
| Tree.BPlusTree.AllocateNewPage | BPlusTreeImpl.java:558-560 | returns the next page id and advances it with Java `int` wrap-around |
| Tree.BPlusTree.Insert | BPlusTreeImpl.java:90-107 | the new state and outcome are `InsertOp`'s, every page written as it reads back and a first leaf that does not serialize failing before it is written |
| Tree.BPlusTree.InsertHelper | BPlusTreeImpl.java:109-209 | the recursive insert is `InsertFrom` |
| Tree.BPlusTree.InsertIntoLeaf | BPlusTreeImpl.java:131-181 | the leaf insert is `LeafInsert`, the leaf written as it reads back, or not written when it does not serialize |
| Tree.BPlusTree.SplitLeafAndClimb | BPlusTreeImpl.java:142-181 | the full-leaf branch is `LeafInsert`, each half written as it reads back once it is known to serialize |
| Tree.BPlusTree.SplitLeaf | BPlusTreeImpl.java:147-165 | the split halves, linked through the new page id, with the entry inserted on the side `compareTo` picks, are `SplitLeafInsert`'s, whose order and lookup laws `SplitLeafInsertParts` and `SplitLeafInsertLookup` state |
| Tree.BPlusTree.InsertToParent | BPlusTreeImpl.java:211-290 | the parent insert is `InsertUp` |
| Tree.BPlusTree.InsertNewRoot | BPlusTreeImpl.java:212-240 | growing a root over a non-empty separator is `NewRoot` |
| Tree.BPlusTree.InsertIntoParent | BPlusTreeImpl.java:243-254 | adding a non-empty separator to a parent with room is `AddToParent` |
| Tree.BPlusTree.SplitParentAndClimb | BPlusTreeImpl.java:255-288 | splitting a full parent is `SplitParent`, on the corrected split insert |
| Tree.BPlusTree.SplitAndClimb | BPlusTreeImpl.java:265-287 | placing the halves and climbing is `SplitClimb` |
| Tree.BPlusTree.WriteHalves | BPlusTreeImpl.java:271-281 | re-parenting and writing both halves, as they read back, is `SplitWrites` |
| Tree.BPlusTree.UpdateNodeParent | BPlusTreeImpl.java:577-591 | the page is rewritten with the new parent as `SetParent` says, every other page unchanged |
| Tree.BPlusTree.UpdateChildrenParent | BPlusTreeImpl.java:593-615 | the loop re-parents the children as `Reparent` says |
| Tree.BPlusTree.Get | BPlusTreeImpl.java:292-301 | the result is `GetOp`'s |
| Tree.BPlusTree.SearchHelper | BPlusTreeImpl.java:303-347 | the recursive search is `SearchFrom` |
| Tree.BPlusTree.Delete | BPlusTreeImpl.java:350-354 | the new state and outcome are `DeleteOp`'s |
| Tree.BPlusTree.DeleteHelper | BPlusTreeImpl.java:356-403 | the recursive delete is `DeleteFrom` |
| Tree.BPlusTree.GetStat | BPlusTreeImpl.java:406-421 | the statistics are `StatOp`'s |
| Tree.BPlusTree.CalculateTreeStats | BPlusTreeImpl.java:423-468 | the recursive walk with its child loop computes `TreeStats` |
| Tree.BPlusTree.ValidateTreeStructure | BPlusTreeImpl.java:471-476 | validation from the root is `Validate`, and an empty tree passes |
| Tree.BPlusTree.ValidateNode | BPlusTreeImpl.java:478-529 | the recursive check with its two loops is `Validate` |

## Left out

- File I/O is modelled as a byte sequence. Opening, seeking, file length, `exists` and `closeFile` are not modelled, and neither are I/O exceptions.
- The tree engine reads and writes decoded nodes in a page map. It does not go through `BufferPoolManager`, so it does not model the pins it takes and never releases when an exception is thrown between `fetchPage` and `unpinPage`. It also does not model the access counter that `get` resets and `getStat` reports, so `StatOp` leaves that field out. The counter itself is modelled in `BufferPoolManager`.
- TreeOps.InsertOp, TreeOps.LeafInsert, TreeOps.InsertFrom, TreeLaws.FirstLeaf, TreeLaws.InsertWithRoom, TreeLaws.GetAfterInsert, TreeLaws.LeafSplitOverflow, Tree.BPlusTree.Insert, Tree.BPlusTree.InsertHelper, Tree.BPlusTree.InsertIntoLeaf, Tree.BPlusTree.SplitLeafAndClimb: when `LeafNode.serialize` runs out of space, the insert fails with `PageSpaceExhausted`. Serialization needs 200 bytes left before each entry, and each entry of 132 bytes plus 64 per value must end within the page (`LeafCodec.EncodeOk`). So a single entry with 62 values overflows, and so do ten entries of five values each. The page being written is kept as it was. Java has by then cleared that page in the buffer pool, written the header and the entries that fit, and left it pinned. After a failed first insert the root page id therefore names a page the model never wrote.
- TreeOps.DeleteFrom, TreeSpec.SetParent, Tree.BPlusTree.DeleteHelper, Tree.BPlusTree.UpdateNodeParent: these rewrite a leaf after a removal or with a new parent, and do not check that it serializes. Neither step adds to the space the leaf needs. A leaf that `serialize` wrote in full still fits afterwards; that is argued here, not proved. A leaf page that no completed `serialize` wrote, such as a foreign file, can hold more than fits. For such a page Java throws where the model writes the leaf.
- Internal nodes are written without a space check, because `InternalCodec.SmallNodesFit` proves that every internal node of the sizes `calculateMaxKeys` allows fits in a page.
- TreeSpec.MaxKeysMonotone: stated only for page sizes from `Integer.MIN_VALUE + 16` up. Below that, `pageSize - 16` wraps to a large space, and the order breaks (`MaxKeysWrap`).
- The buffer pool's disk is a map from page id to page bytes rather than a `DiskManager`.
- `LinkedHashMap`'s access order is modelled as an explicit LRU sequence.
- Console output and logging are left out. The warnings that `validateNode` prints are kept as a list in `Check`.
- `getStat`'s floating-point fill rate is left out. The model keeps the integer totals and proves that the used slots never exceed the slots.
- Statistics sums are unbounded integers, so the model does not capture an `int` overflow of node or slot counts.
- `printNode`, `BPlusTreeTest.java`, `Statistics.java` and the `BPlusTree` interface are not part of this model.
- TreeOps.InsertUp: the climb through parents is bounded by a fuel of 32 levels and fails with `DepthExceeded` beyond that. Java's `insertToParent` has no depth limit, so the model does not capture a climb through more than 32 ancestors. Such a climb can only happen in a tree more than 32 levels high, or in a store whose parent pointers form a cycle, where Java would recurse without end.
- TreeOps.SplitParent, TreeOps.SplitInto, Tree.BPlusTree.SplitParentAndClimb, InternalNodes.InternalNode.constructor, Internals.Fresh: the fresh internal node has `maxKeys + 1` key slots where Java's `BPlusTreeNode` constructor allocates `maxKeys` (BPlusTreeNode.java:19), the slot the corrected split needs. A full parent is split with the corrected `insertKeyChildForSplit` of the Findings row, whose key array has `maxKeys + 1` slots. As written, the call at BPlusTreeImpl.java:260 throws `ArrayIndexOutOfBoundsException` on every full parent (`Internals.ForSplitAsWrittenFailsWhenFull`). By then the halves below are written, `splitCount` has gone up and `nextPageId` has advanced, and the new right node is listed under no parent. The model completes the split instead and keeps the tree well formed.
- Pages.Page.ReadInt, Pages.Page.ReadString: the offset check is taken on unbounded integers. For an offset within 4 of `Integer.MAX_VALUE`, Java's `offset + 4` wraps negative, the check passes and `getInt` throws; the model returns 0 and "" there. `readString`'s `offset + 4 + length` is also taken unbounded, so a stored length near `Integer.MAX_VALUE` that a slot with `maxLength` near `Integer.MIN_VALUE` accepts makes Java throw, while the model returns "". Neither arises for the slots the nodes use, which lie inside the page.
- Allocation.InsertOpAllocated: the lemma needs `nextPageId` to stay below `Integer.MAX_VALUE` for the whole climb, so it says nothing once the counter wraps.
- TreeOps.InsertUp: a parent page that holds a leaf or an unknown tag fails with `UnknownNodeType`. Java would deserialize it as an internal node anyway.
- Tree.BPlusTree.UpdateNodeParent: it chooses between leaf and internal by the stored page, while Java uses the in-memory node's `isLeaf` flag. The two agree whenever the page holds the node that was just written to it, which is the case at every call in `insertToParent`.
- The visited-page set is passed down by value. Java adds to a shared set and removes in `finally`, which amounts to the same thing on every path.
- TreeLaws.LeafSplitEntries: stated only when both halves fit their pages (`LeafSplitOverflow` states the other case) and every stored page id lies below the next page id and that counter cannot wrap during the climb. `Allocation.InsertOpAllocated` and `Allocation.DeleteOpAllocated` show that insert and delete keep the first condition. The order of the two halves and what they map each key to are stated only for a key of at most 60 bytes; `LongKeysCollide` shows what a longer key does.
- TreeLaws.InsertOrdered: stated only for keys of at most 60 bytes. A longer key is stored cut to 60 bytes but compared uncut, so it can leave two entries under one stored key (`LongKeysCollide`); that is how the Java code behaves, and the model does not claim an order it does not keep.
- TreeLaws.LeafInsertOrdered: stated only for keys of at most 60 bytes, for the same reason as `InsertOrdered`.
- TreeLaws.GetAfterInsert: what other keys find after inserting a key longer than 60 bytes is not stated.
- Null keys, row ids and values inside a value array cannot be expressed: Java writes them as the empty string, and the model has no null string. A null value array is `None`.
- TreeOps.InsertUp: the climb is modelled only for non-empty separators. The engine is proved to promote only non-empty ones (`SplitLeafInsertRanked`, `SplitInto`), so Java's null internal keys never arise.
- TreeLaws.GetAfterInsert: covers a target leaf with room. For a split insert, get afterwards is not proved, because the tree has no search-tree ordering invariant across leaves to route by. `LeafSplitEntries` states what the split stores instead.
- The page size is the fixed 4096 bytes of `Page.PAGE_SIZE`. `calculateMaxKeys` takes any page size, as in Java.
- Strings are byte sequences. UTF-8 encoding is not modelled, and neither is a truncation that splits a multi-byte character.
- Merging and redistribution are left out, because the Java delete only removes from the leaf. The merge counter is kept and saved but never changes.
- `isUnderflow` on leaves and internal nodes is a predicate with nothing to prove about it; no operation calls it.

## Findings

| source | as written | input that shows it | evidently intended | confidence | as-written member | corrected member |
|---|---|---|---|---|---|---|
| InternalNode.java:155-181 | `insertKeyChildForSplit` shifts keys into `keys[keyCount]`, but the key array from `BPlusTreeNode.java:19` has only `maxKeys` slots, so on a full node, which is when `BPlusTreeImpl.java:255-288` calls it, the write runs out of bounds | a full internal node of ten keys with `maxKeys` 10 (a 4096-byte page) | one temporary extra key slot, as the child array's `maxKeys + 2` slots already provide, so the over-full node can then be split | not executed | Internals.ForSplitAsWrittenTenKeys | Internals.InsertKeyChildForSplitOrdered |
