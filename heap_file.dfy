/**
 * Page addressing of a SimpleDB heap file: the table's backing file is a byte
 * sequence cut into fixed-size pages, page `n` occupying the bytes
 * `[n * pageSize, (n + 1) * pageSize)`.
 */
module HeapFile {

  /** Identifies one page of one table: `(tableid, pgNo)`. */
  datatype PageId = PageId(tableId: int, pageNumber: nat)

  /** A page as read from disk: its id and its raw `pageSize` bytes. */
  datatype HeapPage = HeapPage(pid: PageId, data: seq<bv8>)

  /** `pageSize` zero bytes, the image of an empty page. */
  function EmptyPageData(pageSize: nat): (r: seq<bv8>)
    ensures |r| == pageSize
    ensures forall i :: 0 <= i < pageSize ==> r[i] == 0
  {
    seq(pageSize, _ => 0 as bv8)
  }

  /** Number of whole pages in a file of `fileLength` bytes. */
  function NumPages(fileLength: nat, pageSize: nat): (n: nat)
    requires pageSize > 0
    ensures n * pageSize <= fileLength < (n + 1) * pageSize
  {
    fileLength / pageSize
  }

  lemma MulMonotone(a: nat, b: nat, c: nat)
    requires a <= b
    ensures a * c <= b * c
  {
  }

  /** Valid page numbers are dense: exactly those whose page lies wholly inside the file. */
  lemma {:induction false} PageInFileIff(fileLength: nat, pageSize: nat, pgNo: nat)
    requires pageSize > 0
    ensures pgNo < NumPages(fileLength, pageSize) <==> pgNo * pageSize + pageSize <= fileLength
  {
    var n := NumPages(fileLength, pageSize);
    assert (pgNo + 1) * pageSize == pgNo * pageSize + pageSize;
    if pgNo < n {
      MulMonotone(pgNo + 1, n, pageSize);
    }
    if pgNo * pageSize + pageSize <= fileLength {
      if n <= pgNo {
        MulMonotone(n + 1, pgNo + 1, pageSize);
        assert false;
      }
    }
  }

  /**
   * Reads `count` bytes starting at `offset` into a zero-filled buffer: bytes
   * at or beyond the end of the file leave the buffer's zeros in place.
   */
  function ReadBytes(file: seq<bv8>, offset: nat, count: nat): (r: seq<bv8>)
    ensures |r| == count
    ensures forall i :: 0 <= i < count ==> r[i] == if offset + i < |file| then file[offset + i] else 0
  {
    if |file| <= offset then EmptyPageData(count)
    else if offset + count <= |file| then file[offset..offset + count]
    else file[offset..] + EmptyPageData(offset + count - |file|)
  }

  /**
   * Reads page `pid` of `file`: the `pageSize` bytes from `pid.pageNumber * pageSize`,
   * tagged with a page id built from `pid`'s table id and page number.
   */
  function ReadPage(file: seq<bv8>, pageSize: nat, pid: PageId): (p: HeapPage)
    requires pageSize > 0
    ensures p.pid.tableId == pid.tableId && p.pid.pageNumber == pid.pageNumber
    ensures |p.data| == pageSize
    ensures pid.pageNumber < NumPages(|file|, pageSize) ==>
              pid.pageNumber * pageSize + pageSize <= |file| &&
              p.data == file[pid.pageNumber * pageSize..pid.pageNumber * pageSize + pageSize]
    ensures |file| <= pid.pageNumber * pageSize ==> p.data == EmptyPageData(pageSize)
    // in particular a partial last page keeps the file's remaining bytes, then zeros
    ensures forall i :: 0 <= i < pageSize ==>
              p.data[i] == if pid.pageNumber * pageSize + i < |file| then file[pid.pageNumber * pageSize + i] else 0
  {
    var offset := pid.pageNumber * pageSize;
    PageInFileIff(|file|, pageSize, pid.pageNumber);
    HeapPage(PageId(pid.tableId, pid.pageNumber), ReadBytes(file, offset, pageSize))
  }

  /** The data of pages `0 .. n - 1`, read one by one and laid end to end. */
  function Reassemble(file: seq<bv8>, pageSize: nat, tableId: int, n: nat): (r: seq<bv8>)
    requires pageSize > 0
  {
    if n == 0 then []
    else Reassemble(file, pageSize, tableId, n - 1) + ReadPage(file, pageSize, PageId(tableId, n - 1)).data
  }

  /** Page `m` of the file, when it exists, is the slice right after the first `m` pages. */
  lemma PageSlice(file: seq<bv8>, pageSize: nat, tableId: int, m: nat)
    requires pageSize > 0
    requires m < NumPages(|file|, pageSize)
    ensures (m + 1) * pageSize == m * pageSize + pageSize <= |file|
    ensures ReadPage(file, pageSize, PageId(tableId, m)).data == file[m * pageSize..m * pageSize + pageSize]
  {
    assert (m + 1) * pageSize == m * pageSize + pageSize;
  }

  /** Concatenating the first `n` pages gives back the first `n * pageSize` bytes of the file. */
  lemma {:induction false} ReassemblePrefix(file: seq<bv8>, pageSize: nat, tableId: int, n: nat)
    requires pageSize > 0
    requires n <= NumPages(|file|, pageSize)
    ensures n * pageSize <= |file|
    ensures Reassemble(file, pageSize, tableId, n) == file[..n * pageSize]
  {
    if n > 0 {
      var m := n - 1;
      ReassemblePrefix(file, pageSize, tableId, m);
      PageSlice(file, pageSize, tableId, m);
      SliceJoin(file, m * pageSize, n * pageSize);
    }
  }

  lemma SliceJoin(s: seq<bv8>, i: nat, j: nat)
    requires i <= j <= |s|
    ensures s[..i] + s[i..j] == s[..j]
  {
  }

  lemma WholePages(fileLength: nat, pageSize: nat)
    requires pageSize > 0
    requires fileLength % pageSize == 0
    ensures NumPages(fileLength, pageSize) * pageSize == fileLength
  {
    assert fileLength == (fileLength / pageSize) * pageSize + fileLength % pageSize;
  }

  /** A file whose length is a whole number of pages is exactly its pages, in page order. */
  lemma WholeFile(file: seq<bv8>, pageSize: nat, tableId: int)
    requires pageSize > 0
    requires |file| % pageSize == 0
    ensures Reassemble(file, pageSize, tableId, NumPages(|file|, pageSize)) == file
  {
    WholePages(|file|, pageSize);
    ReassemblePrefix(file, pageSize, tableId, NumPages(|file|, pageSize));
    assert file[..|file|] == file;
  }
}
