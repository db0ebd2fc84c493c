# dandb storage stack

A Dafny model of the storage stack of a small database engine, from bytes up to
named tables, with proofs that each layer behaves like the simpler thing it
stands for.

* **Bytes** (`Bytes.dfy`, `Finite.dfy`): little-endian fields, and counting.
* **Page allocator** (`DiskManager.dfy`): a file of 4096-byte pages, a header
  page, and a free list threaded through the bytes of the freed pages.
  `DiskInv` says that in-memory header, on-disk header, page bytes and list agree.
* **Buffer pool** (`LRUReplacer.dfy`, `PoolModel.dfy`, `BufferPool.dfy`): frames
  with pins and dirty flags. Clients see `Pages()` (frame bytes if a page is
  resident, disk bytes otherwise), `PinCounts()` and `Pending()` (changed frames
  no unpin has reported). Every method says what it does to these three.
* **Slotted pages** (`SlottedPage.dfy`, `PageRuns.dfy`): the bytes of a page as
  a sequence of optional payloads, and runs of inserts.
* **Rows** (`Schema.dfy`, `Layout.dfy`, `Codec.dfy`, `Canonical.dfy`):
  schema-driven encoding, and which of the accepted buffers it writes.
* **Formats** (`SerializationMap.dfy`): rows and tables.meta byte for byte as
  serializationMap.txt has them, apart from the functions of the engine.
* **Tables** (`Chains.dfy`, `PageAccess.dfy`, `PagedTable.dfy`,
  `TableModel.dfy`): a chain of slotted pages read as a table; runs of
  operations on it are runs on a map from RIDs to rows.
* **Scans** (`TableIterator.dfy`, `ScanModel.dfy`): a resumable scan, and runs
  of it interleaved with table operations.
* **Catalog** (`CatalogFormat.dfy`, `CatalogFile.dfy`, `Database.dfy`,
  `TableManager.dfy`, `TwoTables.dfy`): named tables, the file `tables.meta`,
  isolation of tables, and two tables byte for byte where it ends.
* **Restart** (`Restart.dfy`, `Clients.dfy`): saving, dropping all memory and
  opening again, and short runs of clients.

I/O may fail at every file operation. `PageFile` and `MetaFile` count failures
in the ghost field `faults`; "no failure" in a contract is `faults` unchanged.
An operation that only promises something for at most one new failure of the
page file excludes exactly the case that a rollback write failed too; for the
allocator that case is shown to break the invariant.

Classes stand for the objects the code updates in place. The values their
methods are specified with (`Slots`, `Contents`, `Logical`, `TableOf`, `Named`,
`Serialized`) carry the properties; what the bytes are is also said in plain
numbers. A constructor that throws is a method that
returns a failure. Long methods are split at points where the original has a
natural phase (for example the two halves of `newPage`, or the phases of
`PagedTable::insertRow`). The order of the steps is the original's, except that
a scan decodes a row after it unpins the page and `save` builds its bytes before
it opens the file; neither can be observed.

## Facts about the code

* A string with an embedded NUL is accepted by encode and cut by decode
  (`Codec.ExactRoundTrip` gives the exact condition).
* serializationMap.txt gives BOOLEAN the bytes 0 and 1 only; decode accepts any
  non-zero byte as true. `CanonicalDecode` covers these buffers, and
  `CanonicalBytes.BytesBack` says which buffers encode gives back.
* An empty payload becomes a tombstone at once. Encoded rows are never empty.
* Bytes 4 and 5 of a page alone say that it is free: clients of the pool must
  not store 0xFFFF there (`PoolModel.EditedBytesMustNotLookFree`). Table pages
  never do.
* The pool is not told about `freePage`
  (`PoolModel.FreedPageMustNotBeResident`), and `readPage` does not reject free
  pages: a successful fetch of one always breaks the pool
  (`Buffer.BufferPoolManager.FetchPage`).
* Only unpin reports a change: an unpin keeps the pool in order exactly when no
  unreported change loses its last pin (`Buffer.BufferPoolManager.UnpinPage`).
* A row too big for any page leaves a new page allocated and empty, and a failed
  re-fetch of the old last page leaves the new page with the row, unlinked; table
  contents are unchanged (`PagedTables.PagedTable.InsertRow`). A createTable whose
  save failed leaves its page.
* If `save` fails after a table grew, the catalog takes the last page id back
  but the page stays linked. This needs a last page without room
  (`TableManagers.TableManager.InsertRow`).
* `readRow`, `updateRow` and `deleteRow` do not check that the page of the RID
  belongs to the named table: the owner of the page loses or changes the row
  (`TableManagers.TableManager.DeleteRow` and `UpdateRow`). A read is answered as
  the named table would exactly if the page is its own, or the slot holds
  something its schema cannot read, or there is no such slot
  (`PageAccess.ForeignRidReadsForeignBytes`). `TwoTables.dfy` has the inputs.
* Load accepts a file whose next id is 0xFFFFFFFF. The next createTable then wraps
  it, and load rejects what save wrote
  (`CatalogFormat.LastIdOfHandEditedFile`). No run from the empty catalog gets
  there (`CatalogFormat.RunsStayLoadable`): page ids run out first.

## Model

| member | source | states |
|---|---|---|
| Bytes.FromLEToLE | include/dandb/core/Helper.h:13-68 | reading back an n-byte little-endian field gives the number written, for every width |
| Bytes.ToLEFromLE | include/dandb/core/Helper.h:13-68 | every byte string is the encoding of the number it is read as |
| Bytes.ToLEByte | include/dandb/core/Helper.h:15-17 | byte k of a field is the value shifted right by 8k bits and masked |
| Bytes.WriteUint | include/dandb/core/Helper.h:13-59 | the write loop leaves exactly the little-endian field at the offset and no other byte changed |
| Bytes.WriteUint16 | include/dandb/core/Helper.h:13-19 | readUint16 at the offset then gives the value |
| Bytes.WriteUint32 | include/dandb/core/Helper.h:32-38 | readUint32 at the offset then gives the value |
| Bytes.ReadUint | include/dandb/core/Helper.h:21-68 | the accumulating read loop gives the little-endian value of the field |
| SlottedPages.TablePagesAreNotFree | src/record/SlottedPage.cpp:10-14 | a table page never carries the kind that marks free pages, so the allocator can hold it |
| SlottedPages.LivePayloadsDisjoint | src/record/SlottedPage.cpp:72-94 | live payloads occupy disjoint ranges inside [freeEnd, 4096), above the slot directory |
| SlottedPages.SameSlots | src/record/SlottedPage.cpp:56-58 | bytes outside kind, counters, directory and payloads (id, next link) do not change the rows |
| SlottedPages.RoomOnEmptyPage | src/record/SlottedPage.cpp:173-182 | a payload that has room on some page has room on an empty one |
| SlottedPages.RoomInBytes | src/record/SlottedPage.cpp:173-182 | room for a payload in plain numbers: 24 + 4(slots + 1) + payload at most the free end; an empty page takes up to 4068 bytes |
| SlottedPages.InsertAppends | src/record/SlottedPage.cpp:72-94 | the bytes insertRow writes keep the page well formed and append one slot (a tombstone if the payload is empty) |
| SlottedPages.UpdateReplaces | src/record/SlottedPage.cpp:136-167 | overwriting a payload in place replaces that slot and no other, although payloads share one area |
| SlottedPages.DeleteTombstones | src/record/SlottedPage.cpp:117-134 | zeroing the size field turns that slot, and no other, into a tombstone |
| SlottedPages.SlottedPage.Initialize | src/record/SlottedPage.cpp:30-46 | the bytes of an empty table page, one by one: id, kind 1, no next page, 0 slots, free from 24 to 4096, zeros elsewhere |
| SlottedPages.SlottedPage.SetNextPageId | src/record/SlottedPage.cpp:56-58 | bytes 8 to 11 are the new link and no other byte changes |
| SlottedPages.SlottedPage.InsertRow | src/record/SlottedPage.cpp:72-94 | succeeds exactly if 24 + 4(slots + 1) + payload is at most the free end, which then drops by the payload; the payload lies there, one directory entry points to it, three counters change, and no other byte; failure changes no byte |
| SlottedPages.SlottedPage.ReadRow | src/record/SlottedPage.cpp:96-115 | the payload of the slot, NotFound for a tombstone, InvalidArgument past the last slot |
| SlottedPages.SlottedPage.DeleteRow | src/record/SlottedPage.cpp:117-134 | zeroes the two size bytes of the slot, which becomes a tombstone; exact status otherwise, with no byte changed |
| SlottedPages.SlottedPage.UpdateRow | src/record/SlottedPage.cpp:136-167 | replaces a payload of equal size where it lies and no other byte; the Corruption branch is never taken on a well-formed page |
| PageRuns.PageOfInserts | src/record/SlottedPage.cpp:30-94 | after any run of inserts into a new page every byte of the page is known (header, directory, zeros, payloads stacked from the end), its slots are the payloads, and one more is taken exactly if 24 + 4(n + 1) + all payloads fit 4096 |
| Disk.FreeListFromBytes | src/storage/DiskManager.cpp:80-231 | the free list is what walking the page bytes from the header gives |
| Disk.Conservation | src/storage/DiskManager.cpp:80-231 | 1 + allocated + free = page count <= 0xFFFFFFFF in every state that satisfies the invariant |
| Disk.PopFree | src/storage/DiskManager.cpp:89-132 | taking the list head keeps list, header and kind marks consistent and adds one zero page that was not in use |
| Disk.GrowFile | src/storage/DiskManager.cpp:138-161 | appending a page keeps the invariant and adds one zero page |
| Disk.PushFree | src/storage/DiskManager.cpp:197-213 | freeing a page puts it on the list and removes exactly it from the page store |
| Disk.StorePage | src/storage/DiskManager.cpp:274-302 | storing bytes that do not look free changes that page only |
| Disk.StoreFreeKindBreaks | src/storage/DiskManager.cpp:193-195 | bytes of the free kind in an allocated page break the allocator, whatever list is claimed |
| Disk.FailedAllocateRollbackBreaks | src/storage/DiskManager.cpp:124-127 | a rollback write that fails in allocatePage leaves a header no list agrees with |
| Disk.SameStateKeeps | src/storage/DiskManager.cpp:89-161 | file pages past the page count carry no meaning |
| Disk.DiskManager.Open | src/storage/DiskManager.cpp:34-78 | succeeds exactly if no I/O failed and an existing file begins with the magic bytes; the fields are then those of its header, and the allocator is valid exactly when the file is; a new file is one header page with page count 1, no free page and count 0 |
| Disk.DiskManager.ReadHeader | src/storage/DiskManager.cpp:329-357 | succeeds exactly on matching magic bytes and no I/O failure, a file too short to have a header being one; Corruption exactly on other magic bytes |
| Disk.DiskManager.WriteHeader | src/storage/DiskManager.cpp:359-387 | the header page then holds the magic bytes, 4096 and the three counters at 4, 8, 12 and 16, zero elsewhere |
| Disk.DiskManager.AllocatePage | src/storage/DiskManager.cpp:80-169 | without I/O failure it succeeds exactly if the free count is above 0 or the page count below 0xFFFFFFFF; gives out a page of 4096 zeros that was not in use: the head of the free list, whose bytes 8 to 11 name the next head, or the next page of the file; writes that page and the header only; any failure whose rollback succeeded changes nothing, and a failed rollback always breaks the allocator |
| Disk.DiskManager.AllocateFromFreeList | src/storage/DiskManager.cpp:89-132 | the free-list branch with its two rollback paths |
| Disk.DiskManager.AllocateAtEnd | src/storage/DiskManager.cpp:136-163 | the append branch with its rollback paths |
| Disk.DiskManager.FreePage | src/storage/DiskManager.cpp:171-231 | succeeds exactly on an allocated page and no I/O failure; the page then has the bytes of a free page (id, 0xFFFF, old head, zeros) and is the new head, and only it and the header were written; same failure atomicity; exact status codes |
| Disk.DiskManager.LinkFreed | src/storage/DiskManager.cpp:197-229 | writes the freed page, then the header, or undoes both |
| Disk.DiskManager.ReadPage | src/storage/DiskManager.cpp:233-272 | the bytes of any page below the page count, free or not; exact status codes |
| Disk.DiskManager.WritePage | src/storage/DiskManager.cpp:274-302 | stores into allocated pages only, and keeps the allocator valid exactly when bytes 4 and 5 are not 0xFFFF |
| LRU.ListIsByAge | src/buffer/LRUReplacer.cpp:21-68 | after any history the list holds exactly the evictable slots, without repetition, oldest entry first |
| LRU.VictimIsOldest | src/buffer/LRUReplacer.cpp:55-68 | the victim entered the evictable set before every other member |
| LRU.RepeatedUnpinKeepsAge | src/buffer/LRUReplacer.cpp:44-49 | unpinning an evictable slot again does not make it younger |
| LRU.RestoredVictimIsNewest | src/buffer/BufferPoolManager.cpp:176-192 | a victim that is put back is younger than every other slot, and the others keep their ages |
| LRU.LRUReplacer.Pin | src/buffer/LRUReplacer.cpp:21-36 | the list loses the slot, one event longer history |
| LRU.LRUReplacer.Unpin | src/buffer/LRUReplacer.cpp:38-53 | the list gains the slot at the young end unless present |
| LRU.LRUReplacer.GetVictim | src/buffer/LRUReplacer.cpp:55-68 | returns and removes the front of the list |
| PoolModel.EmptyPool | src/buffer/BufferPoolManager.cpp:11-18 | an empty pool shows exactly the disk |
| PoolModel.TakeFreeSlot | src/buffer/BufferPoolManager.cpp:167-174 | clients cannot see a free slot being taken |
| PoolModel.ReturnFreeSlot | src/buffer/BufferPoolManager.cpp:203-207 | nor one being put back |
| PoolModel.EvictOldest | src/buffer/BufferPoolManager.cpp:195-197 | forgetting a clean frame is invisible to clients |
| PoolModel.WriteBack | src/buffer/BufferPoolManager.cpp:137-143 | so is writing a dirty frame back |
| PoolModel.RotateVictim | src/buffer/BufferPoolManager.cpp:184-192 | a failed write-back moves the victim to the young end and changes nothing else |
| PoolModel.FillHole | src/buffer/BufferPoolManager.cpp:47-98 | giving the slot in transit to a page changes that page of the store only: a load, a new page or the undoing of an eviction |
| PoolModel.ChangeFrame | src/buffer/BufferPoolManager.cpp:79-147 | replacing the frame of a resident page changes that page, its pins and its report status only |
| PoolModel.AddPin | src/buffer/BufferPoolManager.cpp:79-87 | a second pin changes the pin count only |
| PoolModel.DropPin | src/buffer/BufferPoolManager.cpp:104-127 | an unpin changes the pin count and the reported changes only |
| PoolModel.EditFrame | src/buffer/BufferPoolManager.cpp:79-98 | a client edit of a pinned frame is a write to that page of the store |
| PoolModel.CleanPoolIsDisk | src/buffer/BufferPoolManager.cpp:149-161 | with nothing dirty and nothing unreported the disk alone is the page store |
| PoolModel.HasFrameIffUnpinned | src/buffer/BufferPoolManager.cpp:163-199 | a frame can be had exactly when fewer pages are pinned than there are frames |
| Buffer.BufferPoolManager.PendingArePinnedPages | src/buffer/BufferPoolManager.cpp:104-127 | pages with unreported changes are pinned |
| PoolModel.StrangerBreaksPool | src/storage/DiskManager.cpp:233-250 | a resident page that is not allocated breaks the pool |
| PoolModel.FreedPageMustNotBeResident | src/storage/DiskManager.cpp:171-231 | the pool survives a freePage exactly when that page is not resident |
| PoolModel.EditedBytesMustNotLookFree | src/storage/DiskManager.cpp:296-298 | an edited frame keeps the pool in order exactly when its bytes do not look free |
| PoolModel.LastUnpinMustReport | src/buffer/BufferPoolManager.cpp:116-123 | the last unpin keeps the pool in order exactly when it reports what the disk does not have |
| PoolModel.CleanEvictionLosesUnreportedBytes | src/buffer/BufferPoolManager.cpp:183-197 | evicting a frame not marked dirty changes the page store exactly when the disk has other bytes |
| Buffer.Frame.Unpin | src/buffer/Page.cpp:39-49 | refuses at pin count 0, else counts down |
| Buffer.BufferPoolManager.constructor | src/buffer/BufferPoolManager.cpp:11-18 | a new pool shows the disk, with nothing pinned and all slots free in order |
| Buffer.BufferPoolManager.GetAvailableSlot | src/buffer/BufferPoolManager.cpp:163-199 | takes the last free slot or the oldest evictable one; the whole state of the pool and the pages of the disk afterwards are given: only a dirty victim is written; clients see nothing; a failed eviction re-enters its victim as youngest; Internal exactly when every frame is pinned |
| Buffer.BufferPoolManager.EvictVictim | src/buffer/BufferPoolManager.cpp:181-197 | a dirty victim and no other page is written, no other frame changes, and the victim leaves the page map; a failed write changes nothing but the age of the victim |
| Buffer.BufferPoolManager.RestoreAvailableSlot | src/buffer/BufferPoolManager.cpp:201-213 | undoes getAvailableSlot for clients, the victim being youngest; the whole state of the pool is given |
| Buffer.BufferPoolManager.NewPage | src/buffer/BufferPoolManager.cpp:26-56 | succeeds exactly with a frame, a page id and no I/O failure; adds exactly one all-zero page that was not there, pinned once; the whole state of the pool and the pages of the disk afterwards are given; failures leave the page store, pins and unreported changes as they were, with exact status |
| Buffer.BufferPoolManager.FetchPage | src/buffer/BufferPoolManager.cpp:58-102 | returns a frame holding the page as the store has it, one pin more; the whole state of the pool and the pages of the disk afterwards are given on every path: at most a dirty victim is written, nothing if the page was resident; succeeds exactly when said, with exact status; a free page is not rejected and breaks the pool |
| Buffer.BufferPoolManager.PinLoaded | src/buffer/BufferPoolManager.cpp:62-71 | the branch of a resident page: one pin more, off the replacer list, nothing else |
| Buffer.BufferPoolManager.FetchAbsent | src/buffer/BufferPoolManager.cpp:73-100 | the branch of a page that is not resident |
| Buffer.BufferPoolManager.Load | src/buffer/BufferPoolManager.cpp:82-100 | the loading branch and its rollback |
| Buffer.BufferPoolManager.UnpinPage | src/buffer/BufferPoolManager.cpp:104-127 | drops one pin and reports a change, with exact status codes; the whole state of the pool afterwards is given and the disk is not touched; keeps the pool in order exactly when no unreported change loses its last pin |
| Buffer.BufferPoolManager.SavePageToDisk | src/buffer/BufferPoolManager.cpp:129-147 | the disk gets the bytes of this page if its frame was dirty, and no other page; this frame and no other is clean afterwards; clients see nothing |
| Buffer.BufferPoolManager.SaveAllPagesToDisk | src/buffer/BufferPoolManager.cpp:149-161 | writes the dirty frames in slot order up to the first failure, and exactly those are clean; on success, if every change was reported, the disk alone holds the whole page store |
| Buffer.BufferPoolManager.SaveFrame | src/buffer/BufferPoolManager.cpp:151-157 | one turn of that loop |
| Clients.SaveOneOfTwo | tests/buffer/bufferPoolManagerTests.cpp:303-341 | two dirty pages and the first saved: the disk has its bytes, and still zeros for the second |
| Buffer.BufferPoolManager.Edited | src/buffer/Page.cpp:23-25 | editing the bytes of a pinned frame is a write to that page of the store, and to nothing else |
| Schemas.Create | src/record/Schema.cpp:14-67 | accepts exactly the valid column lists, InvalidArgument otherwise |
| Schemas.ValidMeans | src/record/Schema.cpp:14-67 | valid in plain terms: 1 to 255 columns, names of 1 to 65535 bytes and distinct, at most one primary key and that not nullable, a capacity exactly for strings |
| Layout.ValueRanges | src/record/Layout.cpp:66-81 | value ranges are aligned, behind the null bitmap, pairwise disjoint and inside the buffer |
| Layout.LayoutIsDocumented | serializationMap.txt:140-169 | starts, ends and size the engine computes are the only ones that satisfy the documented rules: header and bitmap padded to 8, every value at the next multiple of its own size, strings anywhere, the whole padded to 8 |
| Layout.LayoutExample | src/record/Layout.cpp:43-81 | BYTE, INT32, BYTE lie at 8, 12 and 16 of 24 bytes |
| Layout.EncodedSize | src/record/Layout.cpp:66-81 | the size loop ends at the offset encode and decode end at |
| Codec.ValueRoundTrip | src/record/Codec.cpp:69-89 | each value kind is read back from its field, strings cut at the first NUL |
| Codec.RowRoundTrip | src/record/Codec.cpp:12-203 | decode(encode(row)) succeeds and is the row with its strings cut at the first NUL, for every valid schema and every row encode accepts |
| Codec.ExactRoundTrip | src/record/Codec.cpp:184-194 | the row comes back unchanged exactly when no string holds a NUL |
| Codec.EmbeddedNulIsLost | src/record/Codec.cpp:187-191 | a row encode accepts and decode shortens |
| Codec.CanonicalDecode | src/record/Codec.cpp:99-203 | any buffer decode accepts decodes to a row that encode accepts and that survives the round trip unchanged |
| CanonicalBytes.FieldBack | src/record/Codec.cpp:160-194 | reading a field and writing the value gives the bytes back exactly if a boolean is 0 or 1 and a string is zero behind its first NUL |
| CanonicalBytes.BytesBack | src/record/Codec.cpp:99-203 | decoding and encoding again gives the very bytes exactly if padding is zero, boolean bytes are 0 or 1 and strings are zero behind their first NUL |
| Codec.Encode | src/record/Codec.cpp:12-97 | accepts exactly the rows that fit the schema, and returns their encoding |
| Codec.WriteRow | src/record/Codec.cpp:39-95 | the loops over the zeroed buffer build the encoding |
| Codec.WriteBitmap | src/record/Codec.cpp:46-51 | the OR loop builds the null bitmap |
| Codec.WriteValue | src/record/Codec.cpp:64-91 | writes one field and nothing else |
| Codec.Decode | src/record/Codec.cpp:99-203 | accepts exactly the decodable buffers, and returns the row they hold |
| Codec.DecodeFields | src/record/Codec.cpp:132-201 | the field loop |
| SerializationMap.EncodedIsDocumented | serializationMap.txt:140-169 | what encode writes is a documented row, bit by bit: column count, null flags from the lowest bit, fields, zeros in every gap |
| SerializationMap.OnlyEncodedIsDocumented | serializationMap.txt:140-169 | and it is the only byte string that is one |
| SerializationMap.ValueBytesAre | serializationMap.txt:20-32 | the field of each value in plain numbers: two's complement, little endian, strings followed by zeros, nulls all zero |
| SerializationMap.OnlyValueBytes | serializationMap.txt:20-32 | and no other bytes of that size are a field of the value |
| SerializationMap.ReadIs | src/record/Codec.cpp:150-194 | what decode reads from any field, canonical or not, in plain numbers |
| SerializationMap.FieldDecodesAs | src/record/Codec.cpp:132-201 | one field of a buffer: its null flag decides between null and the value read, and null needs a nullable column and zeros |
| SerializationMap.DecodableMeans | src/record/Codec.cpp:99-201 | a buffer of the right size is accepted exactly if its first byte is the column count, the unused bits are clear and the null fields are nullable and zero |
| Chains.ChainFromBytes | src/record/PagedTable.cpp:86-98 | the page chain is determined by the first page and the bytes |
| Chains.ChainFromLinks | src/record/PagedTable.cpp:86-98 | it is determined by the first page and the links alone, whatever else the pages hold |
| Chains.SameChain | src/record/PagedTable.cpp:24-104 | pages off the chain do not matter to the table |
| Chains.AppendToLast | src/record/PagedTable.cpp:42-52 | a payload appended to the last page is an insert of the row read back |
| Chains.LinkNewPage | src/record/PagedTable.cpp:59-102 | a filled page linked behind the last one is an insert on a new page, and the chain stays a chain |
| Chains.ReplaceSlot | src/record/PagedTable.cpp:140-200 | one slot rewritten with bytes the schema can read is one row replaced or deleted |
| Chains.UndecodablePayloadBreaks | src/record/PagedTable.cpp:168-200 | bytes the schema cannot read, put on a page of the chain, leave no sound chain from that first page |
| Chains.CellOfSlot | src/record/PagedTable.cpp:106-138 | what the page holds at a slot is what the table holds at the RID |
| PageAccess.Fetch | src/buffer/BufferPoolManager.cpp:58-102 | fetchPage as table code uses it: succeeds exactly on a page of the store that is resident, or with a frame and no I/O failure; one pin, given back exactly by one unpin; at most one other page is written back |
| PageAccess.FetchNew | src/buffer/BufferPoolManager.cpp:26-56 | newPage as table code uses it, with its exact success condition and statuses |
| PageAccess.ForeignRidReadsForeignBytes | src/record/PagedTable.cpp:106-138 | with any RID on a table page, the answer of readRow is the table's own exactly if the page is on its chain, or the slot holds something the schema cannot read, or the page has no such slot |
| PageAccess.OwnAnswers | src/record/PagedTable.cpp:106-200 | on the table's own pages the answers to read, delete and update are the table's; an update needs a payload of the size of its rows |
| PageAccess.CellFromSlot | src/record/PagedTable.cpp:106-138 | slot contents and table cells agree, including status codes |
| PagedTables.PagedTable.InsertRow | src/record/PagedTable.cpp:24-104 | success inserts exactly this row at a RID, on the last page if it has room there and on one new linked page otherwise; succeeds exactly if the row encodes and the last page has room and could be fetched, or the row fits a page and one could be added; every failure keeps the chain and all rows, with exact status; exactly these pages are added or left behind; pins balanced; with a free frame and no I/O failure a row that encodes leaves a page behind exactly if it is too big for any page and a page could be allocated |
| PagedTables.PagedTable.InsertIntoLast | src/record/PagedTable.cpp:32-57 | the attempt on the last page: it is full exactly if it could be fetched and has no room, and a failed fetch changes nothing |
| PagedTables.PagedTable.Grow | src/record/PagedTable.cpp:59-102 | growth of the chain and its failure paths, with the pages each leaves: an empty page if the row is too big, the unlinked page with the row if the re-fetch failed, nothing otherwise |
| PagedTables.PagedTable.AddPage | src/record/PagedTable.cpp:59-84 | a new page holding the payload; exactly if the payload is too big for any page, a frame and a page id were there and no I/O failed, the new page stays allocated and empty; no other failure adds a page |
| PagedTables.PagedTable.ReadRow | src/record/PagedTable.cpp:106-138 | for a RID on any table page: the bytes of the page read with the schema of this table; on its own pages the row of the table, NotFound if deleted, InvalidArgument if never handed out; IOError or Internal exactly if the page was not resident and could not be loaded |
| PagedTables.PagedTable.DeleteRow | src/record/PagedTable.cpp:140-166 | for a RID on any table page: makes exactly that slot of that page a tombstone, with the status of the page; a delete of the table if the page is its own, unseen by it otherwise |
| PagedTables.PagedTable.UpdateRow | src/record/PagedTable.cpp:168-200 | for a RID on any table page: overwrites exactly that slot if it holds a payload of equal size; on the table's own pages every encodable row is accepted for a live RID |
| PagedTables.PagedTable.ChangeSeen | src/record/PagedTable.cpp:140-200 | a slot changed on any page is a step of the table if the page is its own, and nothing to it otherwise |
| PagedTables.PagedTable.RoomInRows | src/record/PagedTable.cpp:24-57 | on a chain only this code wrote the last page has room exactly while it has had fewer than 4072 / (row size + 4) rows, live or deleted; insert, update and delete keep such a chain so |
| Chains.PackedRoom | src/record/PagedTable.cpp:32-57 | the same of one page |
| Chains.StaysPacked | src/record/PagedTable.cpp:140-200 | changes of slots, and changes elsewhere, keep it so |
| PageRuns.InsertIsPackedStep | src/record/PagedTable.cpp:24-104 | every insert into such a chain opens a page exactly when the last one has had that many rows |
| PageRuns.NthInsert | src/record/PagedTable.cpp:24-104 | so, whatever is updated or deleted in between, row n of a table (from 0) goes to slot n mod k of page n div k |
| TableModel.StepOnMap | src/record/PagedTable.cpp:24-200 | each operation changes the table at one RID only, and inserts at an unused one |
| TableModel.RunIsMap | src/record/PagedTable.cpp:24-200 | after any run the table is the map that the run builds: a read gives the last write |
| TableModel.CellsAge | src/record/PagedTable.cpp:24-200 | over any run a RID once used is never unused again, and a deleted one stays deleted |
| TableModel.InsertsAreFresh | src/record/PagedTable.cpp:24-104 | two inserts of a run never return the same RID |
| TableModel.StepGrows | src/record/PagedTable.cpp:24-200 | pages keep their place, slots theirs, tombstones stay |
| TableIterators.TableIterator.LoadNext | src/record/TableIterator.cpp:61-128 | finds the first live row at or after the cursor, skipping none; an error loses no row; terminates by pages left, then slots left; pins balanced |
| TableIterators.TableIterator.HasNext | src/record/TableIterator.cpp:22-40 | loads at most one row ahead and keeps it |
| TableIterators.TableIterator.Next | src/record/TableIterator.cpp:42-59 | hands over the row loaded ahead, or loads one; any other failure is IOError or Internal by whether I/O failed |
| TableIterators.Peek | src/record/TableIterator.cpp:65-100 | one look at one slot, with the pin given back; every failure of the read other than NotFound is passed on |
| TableIterators.LoadIsScanStep | src/record/TableIterator.cpp:61-128 | every load of the iterator is a step of the scan runs below |
| TableIterators.PlacedAfterChange | src/record/TableIterator.cpp:61-75 | after any table operation the iterator still names a position of the table |
| ScanModel.ScanInvariant | src/record/TableIterator.cpp:22-128 | what holds in every state of every run of loads interleaved with table operations |
| ScanModel.OutputsAdvance | src/record/TableIterator.cpp:22-128 | returned RIDs strictly advance in chain-then-slot order, so none repeats |
| ScanModel.LiveRowsReturnedOnce | src/record/TableIterator.cpp:22-128 | a row live at the start and at exhaustion is returned exactly once, whatever changed in between |
| ScanModel.LoadedRowsWereLive | src/record/TableIterator.cpp:102-122 | every returned row was in the table under its RID at some moment of the run |
| ScanModel.QuietScanReturnsTable | src/record/TableIterator.cpp:22-128 | with no change in between, exactly the live rows in order |
| CatalogFormat.ColumnBack | src/catalog/TableManager.cpp:380-418 | a written column entry is read back |
| CatalogFormat.TableBack | src/catalog/TableManager.cpp:420-480 | a written table entry is read back, ending at the offset where the writer ended |
| CatalogFormat.SavedFileParses | src/catalog/TableManager.cpp:200-345 | for any tables with valid metadata, what save writes is read back as it was exactly when ids are distinct and below the next one, names distinct, and the next id not 0; otherwise load reports corruption |
| CatalogFormat.CatalogRoundTrip | src/catalog/TableManager.cpp:200-345 | load gives back every catalog with good ids and distinct names |
| CatalogFormat.CreatedInOrder | src/catalog/TableManager.cpp:82-91 | ids handed out in order stay so, and the next one does not wrap, while every table has a first page of its own |
| CatalogFormat.RunsStayLoadable | src/catalog/TableManager.cpp:53-134 | over every run from the empty catalog (tables created, saves failed, chains grown, files reopened) ids are good, the next id never wraps, and load reads back what was saved |
| CatalogFormat.LastIdOfHandEditedFile | src/catalog/TableManager.cpp:82-83 | a file load accepts whose next id is 0xFFFFFFFF: after one more createTable the next id is 0 and load rejects what save wrote |
| CatalogFormat.TableCountFits | src/catalog/TableManager.cpp:315 | the table count fits its 32-bit field |
| CatalogFormat.ParsedIsOk | src/catalog/TableManager.cpp:257-292 | whatever load accepts satisfies the catalog invariant |
| CatalogFile.SerializedSize | src/catalog/TableManager.cpp:482-513 | the precomputed size is the length of what is written |
| CatalogFile.BuildFile | src/catalog/TableManager.cpp:298-336 | the offset loop over a zeroed buffer builds exactly the format; the file begins 0x44 0x54 0x42 0x4C, next id, table count, zeros |
| CatalogFile.WriteTable | src/catalog/TableManager.cpp:318-336 | one table entry, ending at its size |
| CatalogFile.WriteColumn | src/catalog/TableManager.cpp:327-334 | one column entry in plain bytes: type code 1 to 6, bit 0 nullable, bit 1 primary key, capacity, name, zeros to the next multiple of 4 |
| CatalogFile.InitialFile | src/catalog/TableManager.cpp:364-371 | 16 bytes: 0x44 0x54 0x42 0x4C, 1, 0 and zeros, the serialization of no tables with next id 1 |
| CatalogFile.ReadColumn | src/catalog/TableManager.cpp:380-418 | the column of that entry; Corruption exactly on another type code or other flags |
| CatalogFile.ReadTable | src/catalog/TableManager.cpp:420-480 | the table of that entry; Corruption on page ids 0 and 0xFFFFFFFF and on an invalid schema |
| CatalogFile.ParseEntries | src/catalog/TableManager.cpp:257-288 | the load loop accepts exactly the entry lists with distinct ids and names below the next id, and the name index is the inverse of the list |
| CatalogFile.ParseFile | src/catalog/TableManager.cpp:235-294 | the body of load: on success the magic bytes, next id and count are those of the header, ids and names are distinct and ids below the next one |
| SerializationMap.SavedIsDocumented | serializationMap.txt:107-138 | what save writes is a documented tables.meta: header, entries one behind the other, every gap zero, nothing behind the last |
| SerializationMap.DocumentedIsLoaded | serializationMap.txt:107-138 | load reads every documented file of a sound catalog as that catalog |
| Databases.SameDatabase | src/storage/DiskManager.cpp:80-169 | pages added elsewhere change no table |
| Databases.AddTable | src/catalog/TableManager.cpp:53-104 | createTable adds one empty table and changes no other |
| Databases.ChangeTable | src/catalog/TableManager.cpp:106-134 | an operation on one table's pages changes no other table, since chains share no page |
| Databases.SlotChangeInNamed | src/catalog/TableManager.cpp:154-182 | a slot changed through any table is seen by the owner of the page only, which stays a table exactly if its schema can read the new bytes |
| Databases.OwnerOf | src/catalog/TableManager.cpp:154-182 | a page is on the chain of at most one table |
| Databases.DeleteIsSeen | src/catalog/TableManager.cpp:169-182 | a delete always changes the table it happens in |
| Databases.ChainUnique | src/catalog/TableManager.cpp:124-129 | a table's last page id is forced by its first page id and the bytes |
| Databases.TablesFit | src/catalog/TableManager.cpp:315 | there are no more tables than page ids |
| Databases.RunOfOneTable | src/catalog/TableManager.cpp:106-182 | however operations on many tables interleave, each table sees a run of its own operations only |
| Databases.DatabaseIsMaps | src/catalog/TableManager.cpp:106-182 | so a read of any table gives the last write to that RID of that table |
| TableManagers.TableManager.Open | src/catalog/TableManager.cpp:40-51 | succeeds exactly on an acceptable file and no I/O failure; the catalog then satisfies its invariant, and the whole is valid exactly if the page chains are; a missing file becomes the empty catalog |
| TableManagers.TableManager.Save | src/catalog/TableManager.cpp:298-345 | on success tables.meta holds the catalog |
| TableManagers.TableManager.SavedIsLoadable | src/catalog/TableManager.cpp:200-345 | with ids in order, which every run from the empty catalog keeps, load accepts a saved catalog and reads it back |
| TableManagers.TableManager.SavedIsLoadableIff | src/catalog/TableManager.cpp:200-345 | of any catalog load accepted: what was saved later is read back exactly when the table ids are good |
| TableManagers.TableManager.StateIsOk | src/catalog/TableManager.cpp:53-104 | with ids in order the state of the table manager satisfies the catalog invariant |
| TableManagers.TableManager.CreateTable | src/catalog/TableManager.cpp:53-104 | exact status for every case: InvalidArgument for an empty name or one above 65535 bytes, AlreadyExists for a taken one, then IOError, Internal or Ok; success adds one empty table on a page that was not in use, saved; any failure leaves the catalog and every table as they were, and leaves one empty page behind exactly if the save failed; ids in order stay in order and the next one does not wrap; pins balanced |
| Clients.CreateTwice | tests/catalog/tableManagerTests.cpp:359-381 | a second createTable of a name answers AlreadyExists and changes nothing; an empty name is InvalidArgument |
| TableManagers.TableManager.Register | src/catalog/TableManager.cpp:82-102 | the catalog entry, saved or taken back |
| TableManagers.TableManager.InsertRow | src/catalog/TableManager.cpp:106-134 | inserts into the named table only, with exact status in plain cases; succeeds exactly if the table exists, the row encodes, the last page has room and could be fetched or the row fits a page and one could be added, and no save failed; with room on the last page tables.meta is not touched; after growth whose save failed the catalog fits the page bytes under no chain at all and one page was added, and in every other case with a sound pool it does fit |
| TableManagers.TableManager.Grown | src/catalog/TableManager.cpp:122-130 | the last page id, saved or taken back; nothing is written if it did not change |
| TableManagers.EndOfGrown | src/catalog/TableManager.cpp:122-124 | the last page id changes exactly if the chain grew |
| TableManagers.GrewByOne | src/catalog/TableManager.cpp:122-124 | a chain that grew did so by one page that was not in the store |
| TableManagers.LostGrowth | src/catalog/TableManager.cpp:126-128 | taking the last page id back while the page stays linked makes the catalog wrong for every choice of chains |
| TableManagers.TableManager.ReadRow | src/catalog/TableManager.cpp:136-152 | for a RID on any table page: the page decides, and if the named table owns it the answer is that of its row; nothing changes; NotFound for an unknown table |
| TableManagers.TableManager.UpdateRow | src/catalog/TableManager.cpp:154-167 | for a RID on any table page: the owner of the page, whichever table was named, is updated at that RID to what its schema reads in the new bytes; if it cannot read them its table is broken under every choice of chains; accepted by the status of the page; NotFound for an unknown table, then InvalidArgument for a row that does not encode |
| TableManagers.TableManager.DeleteRow | src/catalog/TableManager.cpp:169-182 | for a RID on any table page: a table changes exactly if it owns the page and the status is Ok, and then it loses the row at that RID, whichever table was named; NotFound for an unknown table |
| TableManagers.TableManager.OwnerAnswers | src/catalog/TableManager.cpp:136-182 | the answers are those of the owner's cell; an update through another table is accepted exactly if the cell is live and rows of the two tables have one size |
| TableManagers.TableManager.UsedIsOwned | src/catalog/TableManager.cpp:136-182 | a RID under which a table ever held a row is on a page of its own |
| TableManagers.TableManager.RoomInRows | src/catalog/TableManager.cpp:106-134 | with files only this code wrote the last page of a table has room exactly while it has had fewer than 4072 / (row size + 4) rows; every operation keeps them so |
| TableManagers.TableManager.ScanTable | src/catalog/TableManager.cpp:184-198 | an iterator before the first row of the named table |
| TableManagers.EmptyCatalog | src/catalog/TableManager.cpp:347-378 | the initial file is read back as no tables and next id 1 |
| TableManagers.IdsAfterCreate | src/catalog/TableManager.cpp:82-91 | of any catalog load accepted: a new id keeps ids good exactly unless the next one wraps |
| TwoTables.ForeignRowIsRead | src/record/PagedTable.cpp:106-138 | two tables byte for byte: one hands out the row of the other |
| TwoTables.ForeignNullIsRefused | src/record/PagedTable.cpp:106-138 | the other way round the null is not readable, and the answer is that for a RID never handed out |
| TwoTables.ForeignRowIsDeleted | src/record/PagedTable.cpp:140-166 | one table deletes the row of the other, and then calls it deleted though it never had it |
| TwoTables.ForeignRowIsOverwritten | src/record/PagedTable.cpp:168-200 | one table overwrites the row of the other with a null, which leaves that one no chain |
| Restarts.ReopenPool | src/buffer/BufferPoolManager.cpp:149-161 | after saving everything, reopening with a pool of any size gives the same page store, page count and free list |
| Restarts.ReopenDatabase | tests/catalog/tableManagerTests.cpp:434-491 | after saving everything, every table, row, id and index entry is there again |
| Restarts.CreateAndInsert | tests/catalog/tableManagerTests.cpp:434-460 | a table created and a row inserted are there, exactly if a frame and a page id were there and no I/O failed |
| Restarts.WriteAndReadBack | tests/catalog/tableManagerTests.cpp:434-491 | from no files at all: create, insert, save, reopen with a pool of another size, and the row is read back |

## Left out

- Buffer.BufferPoolManager.FetchPage: a fetched free page is shown to break the pool; nothing is promised about operations that follow.
- PagedTables.PagedTable.ReadRow: not for RIDs whose page is free (fetching it breaks the pool, see FetchPage) or is in the store but no table page (the code may then read outside the page array).
- PagedTables.PagedTable.DeleteRow: as ReadRow.
- PagedTables.PagedTable.UpdateRow: as ReadRow.
- TableManagers.TableManager.ReadRow: as PagedTables.PagedTable.ReadRow.
- TableManagers.TableManager.DeleteRow: as PagedTables.PagedTable.ReadRow.
- TableManagers.TableManager.UpdateRow: as PagedTables.PagedTable.ReadRow.
- PagedTables.PagedTable.InsertRow: which other pages are written back on the way is stated for each fetchPage and newPage, not for the whole call.
- TableIterators.TableIterator.LoadNext: as PagedTables.PagedTable.InsertRow.
- CatalogFile.ParseFile: requires that parsing never reads past the end of the file; load has no bounds checks and reads outside its buffer there, which has no defined result.
- CatalogFile.ParseEntries: as ParseFile.
- CatalogFile.ReadTable: as ParseFile.
- CatalogFile.ReadColumn: as ParseFile.
- TableManagers.TableManager.Open: as ParseFile.
- TableManagers.TableManager.InsertRow: after a growth whose save failed, later operations on that table are not modelled; the state is shown to fit no chain.
- Buffer.Frame.Pin: the pin count is unbounded, the 32-bit wrap-around after 2^32 pins of one page is not modelled.
- After a rollback write that failed itself the page store is only shown to be broken; nothing is promised about operations that follow.
- Freeing pages through the pool: no code above the allocator calls freePage, so the pool model has no such step.
- File streams, paths, directory creation, closing, error-message text: an abstract file of pages with a failure oracle that keeps the status codes; a failed write leaves its page unchanged (no torn pages).
- A save of tables.meta counts as failed or complete; bytes that are buffered and lost when the stream is closed, and load's unchecked read, are not modelled.
- Crashes in the middle of an operation: the code keeps no log, so durability is stated after a successful save of all pages.
- std::list, std::unordered_map and std::unordered_set internals: a sequence with a key set, a map and a set.
- Doubles: eight opaque bytes, without their IEEE 754 meaning. Strings: byte sequences, without UTF-8.
- The destructor's flush, move constructors, throwing constructors as such, threads (there are none).
- Index pages, B+ trees, catalog.meta, database.meta and indexes.meta: described in serializationMap.txt, no code exists.
- Value, Row, RID, Result and Status accessors, main and Version: they would only add easy members.
