# SimpleDB heap file: page addressing and the cross-page scan

This project models the heap-file storage layer of SimpleDB (`HeapFile.java`).
A table is stored as one byte file cut into pages of `pageSize` bytes. Page `n`
occupies bytes `[n * pageSize, (n + 1) * pageSize)`.

- Module `HeapFile` (`heap_file.dfy`) holds the pure page arithmetic:
  - `NumPages` divides the file length by the page size.
  - `ReadPage` reads one page image into a zero-filled buffer and tags it with a page id copied from the request.
  - Lemmas show that valid page numbers are dense, and that laying the pages end to end rebuilds the file.
- Module `HeapFileScan` (`heap_file_iterator.dfy`) holds `HeapFileIterator`, a class with the same mutable state as the Java inner class:
  - `pgCursor` and `tupleItr` are `None` when the Java fields are `null`.
  - `tupleItr` holds the tuples the current page's iterator has not returned yet.
  - `Open`, `HasNext` (with its `while` loop), `Next`, `Rewind` and `Close` are methods proved against the ghost function `Remaining()`, which is what the scan still has to return.
  - The buffer pool's pages are a fixed `seq<seq<T>>`. `PageTuples(pages, i)` is what the page iterator of page `i` yields.
  - A ghost log `fetched` records every page id requested from the buffer pool since `Open`. The object invariant states that pages are requested one at a time, in ascending order, starting at 0.
  - `HasNext`'s loop is specified by the pure function `SkipExhausted`, the position where the loop stops. The lemmas about `SkipExhausted` state what `hasNext` promises.
  - `ScanAll` is the caller's protocol: open, then `next()` while `hasNext()`. It proves that a full scan returns the tuples of pages `0 .. ScanBound(numPages) - 1`, in page order.

The intended heap-file contract would have `readPage` reject a page number at or past `numPages`, `rewind` re-read the page count, and a scan visit exactly pages `0 .. numPages - 1`. The code differs from that in three places, and the model follows the code:
- **`readPage` has no range check.** The code reads into a page-sized zero buffer, so a page past the end of the file comes back as zeros rather than as an out-of-range error (`ReadPage`, last ensures).
- **`rewind()` keeps the old page count.** `numPages` is taken once, in the iterator's constructor (`HeapFile.java:136,143`), so `rewind()` does not re-read the file length. `numPages` is a `const` of the class.
- **Page 0 is always fetched.** `open()` fetches page 0 even when `numPages == 0`, and `hasNext()` then answers from page 0's iterator: the loop guard `pgCursor < numPages - 1` is false at once.
  - So the scan covers pages `0 .. max(1, numPages) - 1`. That is `ScanBound(numPages)` in the model.
  - For an empty file, page 0 holds no tuple, so the scan still returns nothing, as the intended contract says.

## Model

| member | source | states |
|---|---|---|
| `HeapFile.NumPages` | src/java/simpledb/storage/HeapFile.java:103-107 | the page count is the floor of file length over page size: `n * pageSize <= fileLength < (n + 1) * pageSize` |
| `HeapFile.PageInFileIff` | src/java/simpledb/storage/HeapFile.java:103-107 | page numbers are dense: `pgNo < NumPages` exactly when the whole page `pgNo` (bytes `pgNo * pageSize` to `pgNo * pageSize + pageSize`) lies inside the file |
| `HeapFile.WholePages` | src/java/simpledb/storage/HeapFile.java:103-107 | for a file whose length is a multiple of the page size, `NumPages * pageSize` is the whole file length |
| `HeapFile.ReadBytes` | src/java/simpledb/storage/HeapFile.java:81-87 | reading `count` bytes at `offset` into a zero-filled buffer gives `count` bytes; byte `i` is the file's byte `offset + i` when that exists, and 0 past the end of the file |
| `HeapFile.ReadPage` | src/java/simpledb/storage/HeapFile.java:76-92 | the page's id has the request's table id and page number; its data is `pageSize` bytes; byte `i` is the file's byte `pgNo * pageSize + i` when the file has it and 0 otherwise, so a partial last page is its remaining bytes followed by zeros; for `pgNo < NumPages` the data is exactly the file slice from `pgNo * pageSize`, which lies within the file; a page starting at or after the end of the file is all zeros |
| `HeapFile.ReassemblePrefix` | src/java/simpledb/storage/HeapFile.java:76-88 | concatenating the pages `0 .. n - 1` that `ReadPage` returns gives back the first `n * pageSize` bytes of the file, for any `n <= NumPages` |
| `HeapFile.WholeFile` | src/java/simpledb/storage/HeapFile.java:76-107 | a file whose length is a multiple of the page size is exactly the concatenation of its `NumPages` pages, each read with `ReadPage` |
| `HeapFileScan.SpanEmptyIff` | src/java/simpledb/storage/HeapFile.java:158-168 | a run of pages yields no tuple exactly when every page in it is empty |
| `HeapFileScan.SpanSplit` | src/java/simpledb/storage/HeapFile.java:152-180 | the tuples of pages `lo .. hi - 1` are those of `lo .. mid - 1` followed by those of `mid .. hi - 1` |
| `HeapFileScan.SpanPosition` | src/java/simpledb/storage/HeapFile.java:152-180 | in scan order, tuple `j` of page `p` comes right after all tuples of the pages before `p` |
| `HeapFileScan.SpanFrom` | src/java/simpledb/storage/HeapFile.java:152-180 | every tuple a scan of pages `lo .. hi - 1` yields is a tuple of one of those pages |
| `HeapFileScan.SkipPreservesRest` | src/java/simpledb/storage/HeapFile.java:158-168 | skipping exhausted pages, as `hasNext`'s loop does, leaves what the scan still returns unchanged |
| `HeapFileScan.SkipBounds` | src/java/simpledb/storage/HeapFile.java:158-168 | where `hasNext`'s loop stops: the page number never decreases and stays in `0 .. max(0, numPages - 1)`; a position whose page still has a tuple, or one that does not move, stays exactly as it was; the loop moves only past exhausted pages, and a page it moves to starts with a fresh iterator; it stops with an exhausted iterator only on page `max(0, numPages - 1)` |
| `HeapFileScan.SkipAnswer` | src/java/simpledb/storage/HeapFile.java:158-168 | after skipping, the current page has a tuple exactly when the scan has one left, i.e. when the start page's iterator or some later page up to `numPages - 1` has one (both directions) |
| `HeapFileScan.SkipIdempotent` | src/java/simpledb/storage/HeapFile.java:158-168 | skipping a second time changes nothing, so calling `hasNext` twice in a row gives the same answer and the same state |
| `HeapFileScan.RequestsInOrder` | src/java/simpledb/storage/HeapFile.java:146-166 | the scan's page requests up to page `n - 1` are `(tableid, 0), …, (tableid, n - 1)`: ascending, one page at a time, each once |
| `HeapFileScan.HeapFileIterator.constructor` | src/java/simpledb/storage/HeapFile.java:126-144 | a new iterator is unopened (`pgCursor` and `tupleItr` are absent, nothing remains to scan); it keeps the table id, and its page count is `NumPages` of the file length at construction |
| `HeapFileScan.HeapFileIterator.GetTupleItr` | src/java/simpledb/storage/HeapFile.java:146-149 | requests page id `(tableid, pgNo)` from the buffer pool, recording it in the fetch log, and returns a fresh iterator over all of that page's tuples |
| `HeapFileScan.HeapFileIterator.Open` | src/java/simpledb/storage/HeapFile.java:152-155 | the cursor is at page 0, the tuple iterator holds all of page 0, only page 0 has been requested, and what remains is the full scan |
| `HeapFileScan.HeapFileIterator.HasNext` | src/java/simpledb/storage/HeapFile.java:158-172 | before `open` and after `close` it returns false and changes nothing; while scanning, the new position is `SkipExhausted` of the old one (see the `Skip…` lemmas), and the result is whether the current page's iterator then has a tuple; the page cursor never moves back; what remains to scan is unchanged, and the result is true exactly when something remains |
| `HeapFileScan.HeapFileIterator.Next` | src/java/simpledb/storage/HeapFile.java:175-180 | with tuples remaining, returns the first of them and removes exactly that one; the tuple is the head of the current page's remaining tuples; with none remaining (including before `open` and after `close`) it returns `NoSuchElement`, and an unopened iterator stays unopened; while scanning, the cursor ends where `hasNext`'s loop stops (`SkipExhausted` of the old position), never behind where it was, with the returned tuple taken off that page's iterator |
| `HeapFileScan.HeapFileIterator.TakeFirst` | src/java/simpledb/storage/HeapFile.java:176-177 | `tupleItr.next()` on a non-empty page iterator: returns its first tuple, leaves the rest of it, keeps the cursor, and removes exactly the first tuple from what remains to scan |
| `HeapFileScan.HeapFileIterator.Close` | src/java/simpledb/storage/HeapFile.java:189-192 | cursor and tuple iterator are discarded; nothing remains to scan |
| `HeapFileScan.HeapFileIterator.Rewind` | src/java/simpledb/storage/HeapFile.java:183-186 | same state as a fresh `Open`: cursor at page 0, iterator at page 0's first tuple, the full scan remaining; the page count snapshot is the one taken at construction |
| `HeapFileScan.ScanAll` | src/java/simpledb/storage/HeapFile.java:152-180 | opening and then calling `next` while `hasNext` holds returns exactly the tuples of pages `0 .. max(1, numPages) - 1`, concatenated in page order, and leaves nothing to scan |

## Left out

- `getId()` (`HeapFile.java:60-63`) hashes the absolute file name through Java's `File.hashCode()`, a foreign call. The table id is a constructor parameter of the iterator instead.
- `getFile()` and `getTupleDesc()` only return the file and the schema given to the constructor. The schema (`TupleDesc`) is not part of this model.
- `writePage`, `insertTuple` and `deleteTuple` (`HeapFile.java:95-123`) do nothing or return `null` in the code. There is no behaviour to model, so allocation, free-slot search and deletion are not modelled.
- Real file I/O in `readPage`: opening the stream, `skip`, a `read` that returns fewer bytes than are available, and turning `IOException` into `IllegalArgumentException`. Only the offset and slice arithmetic is modelled, with a read that fills the buffer up to the end of the file.
- `BufferPool.getPageSize()` is a process-wide setting. Here it is the parameter `pageSize`, assumed positive.
- `BufferPool.getPage`: its locking, the `READ_ONLY` permission, the transaction id `tid`, and the `TransactionAbortedException` and `DbException` it may throw. The buffer pool is a fixed sequence of page contents, so a page that changes during a scan is not modelled.
- The `HeapPage` byte format and tuple deserialization are not part of this model. Page contents are abstract sequences of tuples. A page number past the end of that sequence reads as an empty page, as a zero-filled page image is.
- 32-bit integers: the `(int)` cast of `f.length()` and the product `pgNo * pageSize` can overflow in the code. The model uses unbounded integers and assumes both values fit in an `int`.
- Page numbers are natural numbers. A negative page number in a `PageId`, and what `skip` does with a negative count, are not modelled.
