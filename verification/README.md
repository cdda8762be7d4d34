# Page file, buffer pool and record layout of a small storage engine

This project models the core of a teaching database storage engine written in C. It has three layers, and each layer is one Dafny module. The modules are immutable values with state-passing functions.

- **StorageMgr** (`storage_mgr.dfy`) models the page file. It is a zero-indexed sequence of `PAGE_SIZE`-byte pages with a page count and a current position. The module covers:
  - bounds-checked reads and writes;
  - the relative reads (first, previous, current, next, last);
  - append-only growth that zero-fills new pages.
- **BufferMgr** (`buffer_mgr.dfy`) models the buffer pool: a fixed row of frames in a circular queue (`head`, `tail`, `numEntries`) with read and write counters.
  - Each frame has a page number (`NO_PAGE` = -1 when empty), a dirty flag, a fix count and its bytes.
  - The covered operations are pin, unpin, markDirty, forcePage, forceFlushPool, shutdown and the snapshot getters.
  - Pinning follows the FIFO and LRU paths of the code.
  - Every operation that does I/O takes the page file and returns the new one.
- **BufferMgrLemmas** (`buffer_mgr_lemmas.dfy`) proves what each pin path does and that every operation keeps the pool invariant. The invariant says:
  - fix counts are never negative;
  - no page number sits in two frames;
  - while the queue is not full, the occupied frames are exactly the first `numEntries` ones, with `head == 0` and `tail == numEntries`;
  - once the queue is full, `head == tail`.

  The module also proves that a pinned frame is never evicted, and that FIFO eviction succeeds exactly when some frame is unpinned. Further lemmas state what forced writes, flushes and shutdown do to the frames, the counters and the file.
- **RecordMgr** (`record_mgr.dfy`) models how records are laid out in the slots of a page. It covers:
  - record size and attribute offsets;
  - the first-free-slot search over the `'X'`/`'O'` slot markers;
  - the byte effects of storing, erasing and fetching a record in a slot;
  - the encoding of attribute values (a 32-bit little-endian two's-complement int, a one-byte bool, four opaque float bytes, and a `strncpy`'d string).

The page file and the buffer pool are modelled as the code is written. The record layer is modelled twice:
- as written, with slots of `getRecordSize` bytes (the `...AsWritten` members);
- corrected, with slots one byte wider, which every other record member uses (see "## Findings").

The as-written behaviour includes the following:
- A pool hit still performs a physical read but does not count it.
- Eviction writes the victim back whether or not it is dirty, and does not count that write.
- When every frame stays pinned, a failed pin leaves the page handle pointing at the page it read.
- Forcing page `NO_PAGE` matches an empty frame. The write is refused by the seek, yet the call returns OK and counts a write.

A seek is taken to succeed unless its offset is negative. So `writeBlock` on a negative page number returns `RC_SEEK_FAIL`, and one past the end returns `RC_PAGE_NOT_FOUND`. `PAGE_SIZE` is 4096; no proof depends on the value.

## Model

| member | source | states |
|---|---|---|
| StorageMgr.CreatePageFile | storage_mgr.c:29-60 | succeeds exactly when the file can be opened; the new file has one all-zero page, page count 1 and position 0; otherwise `RC_FILE_NOT_FOUND` |
| StorageMgr.ReadBlock | storage_mgr.c:140-177 | fails with `RC_READ_NON_EXISTING_PAGE` exactly when the page number is negative or not below the page count, leaving the file alone; otherwise returns the stored page, moves the position to it and changes no page |
| StorageMgr.ReadFirstBlock | storage_mgr.c:195-222 | returns what reading page 0 returns, but leaves the current position where it was |
| StorageMgr.ReadPreviousBlock | storage_mgr.c:231-244 | the same as reading page `position - 1`: the looser range test in front of the read changes no outcome |
| StorageMgr.ReadCurrentBlock | storage_mgr.c:252-266 | the same as reading the page at the current position |
| StorageMgr.ReadNextBlock | storage_mgr.c:275-288 | the same as reading page `position + 1`, including failing past the last page |
| StorageMgr.ReadLastBlock | storage_mgr.c:296-324 | returns what reading page `count - 1` returns, leaving the position where it was |
| StorageMgr.GetBlockPos | storage_mgr.c:185-187 | on a valid file, the current position always names an existing page |
| StorageMgr.WriteBlock | storage_mgr.c:337-363 | never grows the file or moves the position; a page number past the end gives `RC_PAGE_NOT_FOUND` and a negative one `RC_SEEK_FAIL`, both with the file unchanged; otherwise only that page changes, to the buffer |
| StorageMgr.WriteCurrentBlock | storage_mgr.c:371-379 | is a successful write of the page at the current position |
| StorageMgr.AppendEmptyBlock | storage_mgr.c:387-418 | adds exactly one page, all zero, at the end; earlier pages and the position are unchanged |
| StorageMgr.EnsureCapacity | storage_mgr.c:430-477 | no-op when the file already has enough pages; otherwise the page count becomes exactly the requested one; never shrinks; old pages kept and new ones zero |
| StorageMgr.WriteThenRead | storage_mgr.c:337-363 | a page written successfully reads back as written, and the read moves the position to it |
| StorageMgr.WriteLeavesOtherPages | storage_mgr.c:345-356 | writing one page leaves what every other page number reads unchanged |
| StorageMgr.EnsureCapacityIdempotent | storage_mgr.c:439-441 | growing twice to the same size is growing once |
| StorageMgr.AppendBlocksPages | storage_mgr.c:392-406 | `n` appends add `n` zero pages after the old ones and keep the position |
| StorageMgr.EnsureCapacityIsRepeatedAppend | storage_mgr.c:443-466 | growing in one step equals appending the missing pages one at a time |
| BufferMgr.InitBufferPool | buffer_mgr.c:33-66 | every frame is empty, clean and unpinned; `head`, `tail`, `numEntries` and both counters are 0 |
| BufferMgr.Enqueue | buffer_mgr.c:107-118 | the frame lands at `tail` with its fix count raised by one, no other frame changes, one more entry, and `tail` advances one place round the queue, wrapping to 0 after the last frame |
| BufferMgr.Dequeue | buffer_mgr.c:74-104 | a frame is freed only when the head is unpinned, and it is the head; counters and page count unchanged |
| BufferMgr.EvictLoop | buffer_mgr.c:193-205 | the loop keeps the queue shape, the frame count, the page count and both counters |
| BufferMgr.ScanFrom | buffer_mgr.c:163-191 | finds the first frame holding the page or empty; every frame before it holds another page |
| BufferMgr.LookUp | buffer_mgr.c:139-158 | the file is grown, never shrunk; a successful read means a non-negative page number and a whole page |
| BufferMgr.HitOrFill | buffer_mgr.c:163-190 | the hit and empty-frame paths succeed and hand out the requested page number |
| BufferMgr.FifoPin | buffer_mgr.c:127-231 | OK or `RC_FILE_NOT_FOUND`; OK hands out the requested page; a negative page number changes nothing; the file only grows; no write is counted and at most one read is counted |
| BufferMgr.LruPin | buffer_mgr.c:240-302 | on its defined paths, succeeds exactly for a non-negative page number and hands out that page; a negative page number changes nothing; the file only grows; no write is counted and at most one read is counted |
| BufferMgr.PinPage | buffer_mgr.c:456-488 | the result is OK or `RC_FILE_NOT_FOUND`; OK hands out the requested page; a negative page number fails and changes nothing |
| BufferMgr.UnpinPage | buffer_mgr.c:393-409 | always OK; only fix counts change, each by at most one and only on a pinned frame holding the page; a count never drops below 0 |
| BufferMgr.MarkDirty | buffer_mgr.c:367-385 | always OK; an uncached page changes nothing; otherwise exactly the first frame holding it becomes dirty |
| BufferMgr.ForcePage | buffer_mgr.c:417-447 | OK exactly when some frame carries the page number; otherwise `RC_FILE_NOT_FOUND` with pool and file unchanged |
| BufferMgr.FlushFrom | buffer_mgr.c:344-356 | always OK; the page count, frame count and whole-page frames are kept |
| BufferMgr.ForceFlushPool | buffer_mgr.c:338-359 | always OK and never changes the page count |
| BufferMgr.ShutdownBufferPool | buffer_mgr.c:309-331 | flushes first; fails with `RC_PAGE_NOT_FOUND`, keeping the flushed pool, or releases the pool with OK |
| BufferMgr.GetFrameContents | buffer_mgr.c:495-517 | one entry per frame: `NO_PAGE` exactly for empty frames, otherwise the frame's page |
| BufferMgr.GetDirtyFlags | buffer_mgr.c:524-544 | one flag per frame, each equal to that frame's dirty flag |
| BufferMgr.GetNumReadIO | buffer_mgr.c:572-575 | the read counter (a natural number); BufferMgrLemmas.PinCountsIo says when it moves |
| BufferMgr.GetNumWriteIO | buffer_mgr.c:582-585 | the write counter (a natural number); BufferMgrLemmas.ForcePageCached and ForceFlushPoolEffect say when it moves |
| BufferMgr.GetFixCounts | buffer_mgr.c:551-565 | one count per frame: a non-negative fix count is reported as is, and the count -1 is reported as 0 |
| BufferMgrLemmas.InitEstablishesInv | buffer_mgr.c:41-57 | a new pool satisfies the pool invariant, its counters read 0 and every frame reports `NO_PAGE` |
| BufferMgrLemmas.QueueEmptyUnderInv | buffer_mgr.c:69-71 | under the invariant the queue is empty exactly when no frame holds a page |
| BufferMgrLemmas.DequeueFull | buffer_mgr.c:82-101 | on a full queue, one dequeue frees the head exactly when it is unpinned, writing it back; otherwise it rotates `head` and `tail` together |
| BufferMgrLemmas.EvictLoopFull | buffer_mgr.c:193-205 | the loop frees the first unpinned frame met going round the queue from `head` (`k` steps on, every frame before it pinned), writes its bytes back, and leaves `tail` on it; or it fails having seen only pinned frames, in queue order, with frames and file untouched; an unpinned head is freed at once |
| BufferMgrLemmas.EvictSucceedsIffUnpinned | buffer_mgr.c:193-205 | on a full queue, eviction succeeds exactly when some frame is unpinned |
| BufferMgrLemmas.ScanUnderInv | buffer_mgr.c:163-191 | under the invariant the scan finds the frame of a cached page, else the first empty frame at `numEntries`, else none |
| BufferMgrLemmas.LruDefinedUnderInv | buffer_mgr.c:240-302 | LRU pinning stays on its defined paths exactly when the page is cached, a frame is empty, or the page number is negative |
| BufferMgrLemmas.PinHit | buffer_mgr.c:163-174 | pinning a cached page raises only that frame's fix count, returns its bytes, and leaves the read counter and all other frames alone |
| BufferMgrLemmas.PinFill | buffer_mgr.c:177-188 | an uncached page pinned while a frame is empty goes clean with fix count 1 into frame `numEntries` (the tail); `numEntries` and the read counter each rise by 1 |
| BufferMgrLemmas.PinEvict | buffer_mgr.c:193-216 | when full, with an unpinned frame, the victim is the first unpinned frame going round the queue from `head` (every frame before it pinned); it is written back uncounted, the new page takes its frame, `head == tail` after, and one read is counted |
| BufferMgrLemmas.PinAllPinned | buffer_mgr.c:193-203 | when every frame is pinned the pin fails: no frame changes, only `head` and `tail` rotate (ending equal), and the file is still grown and positioned on the page |
| BufferMgrLemmas.PinPreservesInv | buffer_mgr.c:456-488 | every pin keeps the pool invariant |
| BufferMgrLemmas.PinCountsIo | buffer_mgr.c:163-218 | a pin counts one read exactly when it succeeds on a page no frame held, and never counts a write |
| BufferMgrLemmas.PinnedNeverEvicted | buffer_mgr.c:82-94 | a frame with a positive fix count keeps its page and bytes across any pin |
| BufferMgrLemmas.PinGrowsFile | buffer_mgr.c:139-158 | pinning page `p >= 0` leaves the file with `max(count, p + 1)` pages, the new ones zero |
| BufferMgrLemmas.PinThenUnpin | buffer_mgr.c:398-408 | pinning a cached page and unpinning it restores the pool |
| BufferMgrLemmas.PinTwice | buffer_mgr.c:163-188 | pinning an uncached page twice leaves one frame with fix count 2 and one counted read |
| BufferMgrLemmas.UnpinPreservesInv | buffer_mgr.c:398-408 | unpinning keeps the invariant, so reported fix counts are never negative |
| BufferMgrLemmas.MarkDirtyEffect | buffer_mgr.c:372-383 | only dirty flags change, exactly that of the occupied frame holding the page; the invariant is kept |
| BufferMgrLemmas.ForcePageCached | buffer_mgr.c:423-444 | forcing a cached page writes its frame to the file, marks it clean, counts one write and keeps the invariant |
| BufferMgrLemmas.ForcePageAbsent | buffer_mgr.c:446 | forcing a page number no frame carries returns `RC_FILE_NOT_FOUND` and changes nothing |
| BufferMgrLemmas.ForceEmptyFrame | buffer_mgr.c:426-443 | forcing `NO_PAGE` while a frame is empty returns OK and counts a write without changing the file |
| BufferMgrLemmas.FlushFromFrames | buffer_mgr.c:344-356 | the loop clears the dirty flags from its start on, changes nothing else in the frames, and counts one write per dirty frame |
| BufferMgrLemmas.FlushFromFile | buffer_mgr.c:347-354 | every dirty frame's bytes land on its page; pages no dirty frame holds are unchanged |
| BufferMgrLemmas.ForceFlushPoolEffect | buffer_mgr.c:338-359 | every dirty frame, pinned or not, is written back and cleaned; the write counter rises by the number of dirty frames; the invariant is kept |
| BufferMgrLemmas.ShutdownEffect | buffer_mgr.c:309-331 | fails exactly when some frame is pinned, and even then all dirty flags are cleared; otherwise the pool is released |
| RecordMgr.GetRecordSize | record_mgr.c:611-639 | the loop computes the sum of the attribute sizes: 4 for int and float, 1 for bool, the declared length for strings |
| RecordMgr.GetAttributeOffset | record_mgr.c:746-779 | the loop computes 1 plus the sizes of the attributes before the requested one |
| RecordMgr.OffsetStep | record_mgr.c:753-776 | each attribute starts where the previous one ends |
| RecordMgr.OffsetPastLast | record_mgr.c:749-778 | the offset after the last attribute is the record size plus 1 |
| RecordMgr.FieldsOrdered | record_mgr.c:749-778 | attributes never overlap, and offsets strictly increase past attributes of positive size |
| RecordMgr.FieldWithinRecord | record_mgr.c:749-778 | every attribute lies within bytes `[1, recordSize + 1)` of the buffer |
| RecordMgr.FindSlotFrom | record_mgr.c:90-99 | the first slot from the start index whose marker is not `'X'`, or -1 when all are `'X'` |
| RecordMgr.FindSlot | record_mgr.c:83-103 | returns the least slot below `PAGE_SIZE / recordSize` whose marker byte is not `'X'`, or -1 when there is none |
| RecordMgr.SlotStart | record_mgr.c:86-93 | a slot below the slot count lies wholly on the page |
| RecordMgr.SlotsDisjoint | record_mgr.c:386 | distinct slots share no byte |
| RecordMgr.StoreSlot | record_mgr.c:383-392 | the slot marker becomes `'X'`, the next `width - 1` bytes are record bytes `[1, width)`, and bytes outside the slot are unchanged |
| RecordMgr.EraseSlot | record_mgr.c:339-344 | exactly one byte changes: the slot's marker becomes `'O'` |
| RecordMgr.FetchSlot | record_mgr.c:432-443 | the record takes the id; record bytes `[1, width)` become the slot's bytes after the marker; all other record bytes are kept |
| RecordMgr.DeleteRecord | record_mgr.c:320-357 | corrected layout, slots of `recordSize + 1` bytes: only the slot's marker byte changes, to `'O'`, and the table's first free page becomes the record's page |
| RecordMgr.StoreThenFetch | record_mgr.c:383-443 | a stored record reads back byte for byte after the marker |
| RecordMgr.StoreLeavesOtherSlots | record_mgr.c:383-392 | storing into one slot leaves what every other slot reads unchanged |
| RecordMgr.StoreThenFindSlot | record_mgr.c:93 | a slot just stored into is never offered as free |
| RecordMgr.EraseThenFindSlot | record_mgr.c:337-344 | after a delete the search finds a free slot no later than the deleted one |
| RecordMgr.FoundSlotOnPage | record_mgr.c:86-96 | a slot the search returns lies wholly on the page |
| RecordMgr.DecodeEncodeInt | record_mgr.c:819-824 | the four stored bytes of an int read back as that int |
| RecordMgr.EncodeDecodeInt | record_mgr.c:884-888 | storing the int that four bytes read as gives back those bytes |
| RecordMgr.CStr | record_mgr.c:811-814 | the C string is the longest NUL-free prefix, ending at the end or at a NUL |
| RecordMgr.StrNCpy | record_mgr.c:880 | `n` bytes whose C string is the source's C string cut at `n` bytes; every byte past the end of the source string is NUL |
| RecordMgr.SetAttr | record_mgr.c:863-911 | the attribute's bytes become the value's encoding; every byte outside the attribute is unchanged |
| RecordMgr.GetAttr | record_mgr.c:789-853 | the value read has the attribute's type |
| RecordMgr.SetThenGet | record_mgr.c:871-901 | setting an attribute and reading it back gives the value; a string is cut at the declared length and at its first NUL |
| RecordMgr.GetThenSetInt | record_mgr.c:819-888 | storing the int just read from an attribute leaves the record unchanged |
| RecordMgr.SetAttrKeepsOthers | record_mgr.c:871-874 | setting one attribute leaves every other attribute reading as before |
| RecordMgr.CreateRecordAsWritten | record_mgr.c:703-718 | the buffer has `recordSize` bytes, starts `'O'` then NUL, and the id is (-1, -1) |
| RecordMgr.UpdateRecordAsWritten | record_mgr.c:383-392 | as written, slots of `recordSize` bytes at stride `recordSize`: the marker becomes `'X'`, only record bytes `[1, recordSize)` follow it, and every byte outside the slot is unchanged |
| RecordMgr.DeleteRecordAsWritten | record_mgr.c:337-344 | as written: only the byte at `slot * recordSize` changes, to `'O'`, and the first free page becomes the record's page |
| RecordMgr.GetRecordAsWritten | record_mgr.c:432-443 | as written: record bytes `[1, recordSize)` come from the slot at stride `recordSize`; the marker byte and byte `recordSize` of the buffer are left alone |
| RecordMgr.LastAttributeOverrunsAsWritten | record_mgr.c:711 | in the allocated buffer the last attribute ends one byte past the end |
| RecordMgr.LastByteLostAsWritten | record_mgr.c:392 | with slots of `recordSize` bytes, a one-INT record holding 16777216 is stored and fetched and reads back as 0 |
| RecordMgr.CreateRecord | record_mgr.c:703-718 | a buffer of `recordSize + 1` bytes starting `'O'`, NUL; id (-1, -1); every attribute fits in it |
| RecordMgr.NewRecordFirstStringEmpty | record_mgr.c:717-718 | a new record's first attribute, when a string, reads as the empty string |
| RecordMgr.UpdateRecord | record_mgr.c:365-406 | corrected layout, slots of `recordSize + 1` bytes: the slot's marker becomes `'X'`, the slot's other bytes become the record's attribute bytes, and every byte outside the slot is unchanged |
| RecordMgr.GetRecord | record_mgr.c:415-452 | corrected layout, slots of `recordSize + 1` bytes: the fetched record takes the requested id and keeps its buffer length and marker byte; every attribute byte comes from the slot |
| RecordMgr.DeleteThenFindSlot | record_mgr.c:83-103 | corrected layout: with the free-slot search at the same stride as the delete, a deleted slot is offered again unless an earlier slot is already free |
| RecordMgr.RecordRoundTrip | record_mgr.c:383-443 | storing a record in its slot and fetching it gives every byte after the marker, so every attribute reads as before |
| RecordMgr.SetStoreFetchGet | record_mgr.c:871-901 | a value set on a record, stored and fetched reads back as stored |

## Left out

- File I/O is not modelled:
  - opening, closing and destroying a file, and the process-wide file handle, are replaced by one in-memory page file;
  - short reads and writes are out;
  - a seek fails only at a negative offset.
- `openPageFile` copies the handle's cached totals instead of reading them from disk; the model keeps one up-to-date page file.
- `malloc`, `free` and leaks are out.
- Writes through a pinned page handle are not modelled. In the source the handle's data aliases the frame's buffer, so a caller's edits change the frame. Here frame contents change only when a page is loaded, so the flush and force lemmas cover modified bytes only when a frame is edited directly.
- BufferMgr.InitBufferPool: requires at least one frame. With zero frames the source never assigns its counters (they are set inside the per-frame loop), and every later `% max_entries` would divide by zero.
- BufferMgr.PinPage: under LRU, requires that no eviction is needed (`LruDefined`). When the pool is full, the LRU path runs off the end of a non-void function, which is undefined behaviour. The `num_hit` field is never read and is not modelled.
- BufferMgr.Dequeue: on an empty queue the source returns `QUEUE_EMPTY`, defined as 0, which as a `bool` is `false`. The model's "no frame freed" is exactly that. Under the pool invariant the eviction loop never reaches an empty queue.
- Page and slot numbers are unbounded integers. The `pageNum * PAGE_SIZE` byte offsets of the C code could overflow an `int` for huge page numbers; that is not modelled.
- The record operations act on the page's bytes. Pinning, dirty marking and unpinning around them are the buffer pool's operations and are not composed here. So the `RC_WRITE_FAILED` returned when that pin fails is not modelled.
- `insertRecord` is represented only by the slot search. It compares against an uninitialised return code and can run off its end.
- Not modelled at all:
  - scans, which depend on an expression evaluator that is not part of this model;
  - table and schema lifecycle;
  - `getNumTuples`;
  - `printf` diagnostics.
- RecordMgr.GetAttr: a float is four opaque bytes; no floating-point arithmetic is modelled.
- RecordMgr.SetAttr: requires a value of the attribute's type and an attribute number within the schema. The source reads the value's union member chosen by the schema, and indexes the schema without a check. Because the data type is a closed enumeration here, the `RC_GET_ATTR_ERROR`/`RC_SET_ATTR_ERROR` branches cannot arise.
- RecordMgr.FindSlot: requires a positive record size (the source divides by it).
- RecordMgr.CreateRecordAsWritten: requires at least two bytes of record, since the source writes the first two.
- Platform `sizeof` values are fixed at 4 (int, float) and 1 (bool); ints are little-endian.
- C `int` limits are not modelled:
  - a string attribute's length is a natural number here, so a negative `typeLength` cannot arise;
  - the record size and the attribute offsets are unbounded, so an `int` overflow of their sums is out;
  - the read and write counters of the pool are unbounded, so their overflow is out as well.

## Findings

| source | as written | input that shows it | evidently intended | confidence | as-written member | corrected member |
|---|---|---|---|---|---|---|
| record_mgr.c:711 | `createRecord` allocates `getRecordSize` bytes, but attributes start at offset 1, so the last attribute ends one byte past the buffer | any non-empty schema, e.g. one INT: bytes `[1, 5)` in a 4-byte buffer | a buffer of `getRecordSize + 1` bytes (marker plus attributes) | high, not executed | RecordMgr.LastAttributeOverrunsAsWritten | RecordMgr.CreateRecord |
| record_mgr.c:392 | `updateRecord` and `getRecord` copy `getRecordSize - 1` bytes after the marker, dropping the last byte of the last attribute. The fix needs a wider stride in `deleteRecord` (line 341) and `find_slot` (line 93) too, since all four place slot `i` at `i * getRecordSize` | schema of one INT holding 16777216 (bytes 0, 0, 0, 1): stored and fetched, it reads back as 0 | slots of `getRecordSize + 1` bytes in all four functions, copying every attribute byte | high, not executed | RecordMgr.LastByteLostAsWritten | RecordMgr.RecordRoundTrip |
