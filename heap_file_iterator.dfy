/**
 * The cross-page scan cursor of a SimpleDB heap file. The buffer pool's view of
 * the table is a fixed sequence `pages` whose element `i` is the tuples that the
 * page iterator of page `i` yields, in slot order.
 */
module HeapFileScan {
  import opened HeapFile

  datatype Option<T> = None | Some(value: T)

  /** Outcome of `next()`: the tuple, or the `NoSuchElementException` it throws. */
  datatype NextResult<T> = Tuple(tuple: T) | NoSuchElement

  /**
   * Tuples of page `pgNo` as seen through the buffer pool. A page number at or
   * beyond the end of `pages` reads as an all-zero page image, which holds no tuple.
   */
  function PageTuples<T>(pages: seq<seq<T>>, pgNo: nat): (r: seq<T>)
  {
    if pgNo < |pages| then pages[pgNo] else []
  }

  /** The tuples of pages `lo .. hi - 1`, page after page. */
  function Span<T>(pages: seq<seq<T>>, lo: nat, hi: nat): (r: seq<T>)
    decreases hi - lo
  {
    if hi <= lo then [] else PageTuples(pages, lo) + Span(pages, lo + 1, hi)
  }

  /** Pages `lo .. hi - 1` hold no tuple. */
  ghost predicate AllEmpty<T>(pages: seq<seq<T>>, lo: nat, hi: nat)
  {
    forall i :: lo <= i < hi ==> PageTuples(pages, i) == []
  }

  /** A span yields nothing exactly when every page in it is empty. */
  lemma {:induction false} SpanEmptyIff<T>(pages: seq<seq<T>>, lo: nat, hi: nat)
    ensures Span(pages, lo, hi) == [] <==> AllEmpty(pages, lo, hi)
    decreases hi - lo
  {
    if lo < hi {
      SpanEmptyIff(pages, lo + 1, hi);
    }
  }

  /** A span splits at any page in between into the two spans on either side. */
  lemma {:induction false} SpanSplit<T>(pages: seq<seq<T>>, lo: nat, mid: nat, hi: nat)
    requires lo <= mid <= hi
    ensures Span(pages, lo, hi) == Span(pages, lo, mid) + Span(pages, mid, hi)
    decreases mid - lo
  {
    if lo < mid {
      SpanSplit(pages, lo + 1, mid, hi);
      assert Span(pages, lo, hi) == PageTuples(pages, lo) + (Span(pages, lo + 1, mid) + Span(pages, mid, hi));
    }
  }

  /**
   * Scan order: page `p`'s tuples appear in a span, in their slot order, right
   * after the tuples of every page before `p`.
   */
  lemma SpanPosition<T>(pages: seq<seq<T>>, lo: nat, p: nat, hi: nat, j: nat)
    requires lo <= p < hi
    requires j < |PageTuples(pages, p)|
    ensures |Span(pages, lo, p)| + j < |Span(pages, lo, hi)|
    ensures Span(pages, lo, hi)[|Span(pages, lo, p)| + j] == PageTuples(pages, p)[j]
  {
    SpanSplit(pages, lo, p, hi);
  }

  /** Every tuple a span yields comes from one of its pages. */
  lemma {:induction false} SpanFrom<T>(pages: seq<seq<T>>, lo: nat, hi: nat, k: nat)
    requires k < |Span(pages, lo, hi)|
    ensures exists p, j :: lo <= p < hi && 0 <= j < |PageTuples(pages, p)| && Span(pages, lo, hi)[k] == PageTuples(pages, p)[j]
    decreases hi - lo
  {
    var first := PageTuples(pages, lo);
    if k < |first| {
      assert Span(pages, lo, hi)[k] == first[k];
    } else {
      SpanFrom(pages, lo + 1, hi, k - |first|);
    }
  }

  /**
   * One past the last page a scan over `numPages` pages reaches: page 0 is
   * fetched even when `numPages == 0`.
   */
  function ScanBound(numPages: nat): (b: nat)
    ensures b >= 1 && b >= numPages
  {
    if numPages == 0 then 1 else numPages
  }

  /** Where a scan stands: the current page and the tuples its iterator has not yet returned. */
  datatype Position<T> = Position(page: nat, rest: seq<T>)

  /** What a scan at `pos` still returns before it stops after page `ScanBound(numPages) - 1`. */
  function Rest<T>(pages: seq<seq<T>>, numPages: nat, pos: Position<T>): (r: seq<T>)
  {
    pos.rest + Span(pages, pos.page + 1, ScanBound(numPages))
  }

  /**
   * The position `hasNext()`'s loop stops at: it moves to the next page while the
   * current page's iterator is exhausted, but never beyond page `numPages - 1`.
   */
  function SkipExhausted<T>(pages: seq<seq<T>>, numPages: nat, pos: Position<T>): (q: Position<T>)
    decreases numPages - pos.page
  {
    if pos.page < numPages - 1 && pos.rest == [] then
      SkipExhausted(pages, numPages, Position(pos.page + 1, PageTuples(pages, pos.page + 1)))
    else
      pos
  }

  /** Skipping exhausted pages does not change what the scan still returns. */
  lemma {:induction false} SkipPreservesRest<T>(pages: seq<seq<T>>, numPages: nat, pos: Position<T>)
    requires pos.page < ScanBound(numPages)
    ensures Rest(pages, numPages, SkipExhausted(pages, numPages, pos)) == Rest(pages, numPages, pos)
    decreases numPages - pos.page
  {
    if pos.page < numPages - 1 && pos.rest == [] {
      SkipPreservesRest(pages, numPages, Position(pos.page + 1, PageTuples(pages, pos.page + 1)));
    }
  }

  /**
   * Where skipping stops: never before the start page nor past the last page; a
   * start position with a tuple left stays put; pages are left behind only
   * when they are exhausted; and on a page reached by skipping, its iterator is fresh.
   */
  lemma {:induction false} SkipBounds<T>(pages: seq<seq<T>>, numPages: nat, pos: Position<T>)
    requires pos.page < ScanBound(numPages)
    ensures pos.page <= SkipExhausted(pages, numPages, pos).page < ScanBound(numPages)
    ensures pos.rest != [] ==> SkipExhausted(pages, numPages, pos) == pos
    ensures SkipExhausted(pages, numPages, pos).page == pos.page ==> SkipExhausted(pages, numPages, pos) == pos
    ensures pos.page < SkipExhausted(pages, numPages, pos).page ==>
              var q := SkipExhausted(pages, numPages, pos);
              pos.rest == [] && AllEmpty(pages, pos.page + 1, q.page) && q.rest == PageTuples(pages, q.page)
    ensures SkipExhausted(pages, numPages, pos).rest == [] ==>
              SkipExhausted(pages, numPages, pos).page == ScanBound(numPages) - 1
    decreases numPages - pos.page
  {
    if pos.page < numPages - 1 && pos.rest == [] {
      var next := Position(pos.page + 1, PageTuples(pages, pos.page + 1));
      SkipBounds(pages, numPages, next);
      var q := SkipExhausted(pages, numPages, next);
      if next.page < q.page {
        assert PageTuples(pages, next.page) == [];
        assert AllEmpty(pages, pos.page + 1, q.page);
      } else {
        assert q == next;
        assert AllEmpty(pages, pos.page + 1, q.page);
      }
    }
  }

  /**
   * `hasNext()`'s answer: after skipping, the current page has a tuple left exactly
   * when the start page's iterator or some later page up to `numPages - 1` does.
   */
  lemma SkipAnswer<T>(pages: seq<seq<T>>, numPages: nat, pos: Position<T>)
    requires pos.page < ScanBound(numPages)
    ensures SkipExhausted(pages, numPages, pos).rest != [] <==> Rest(pages, numPages, pos) != []
    ensures SkipExhausted(pages, numPages, pos).rest != [] <==>
              pos.rest != [] || !AllEmpty(pages, pos.page + 1, ScanBound(numPages))
  {
    var q := SkipExhausted(pages, numPages, pos);
    SkipPreservesRest(pages, numPages, pos);
    SkipBounds(pages, numPages, pos);
    SpanEmptyIff(pages, pos.page + 1, ScanBound(numPages));
    SpanEmptyIff(pages, q.page + 1, ScanBound(numPages));
  }

  /** Skipping twice is skipping once, so a second `hasNext()` changes nothing. */
  lemma SkipIdempotent<T>(pages: seq<seq<T>>, numPages: nat, pos: Position<T>)
    requires pos.page < ScanBound(numPages)
    ensures SkipExhausted(pages, numPages, SkipExhausted(pages, numPages, pos)) == SkipExhausted(pages, numPages, pos)
  {
    SkipBounds(pages, numPages, pos);
  }

  /** `s` is what is left of `page` after some of its leading tuples were consumed. */
  ghost predicate IsSuffix<T>(s: seq<T>, page: seq<T>)
  {
    |s| <= |page| && s == page[|page| - |s|..]
  }

  lemma SuffixOfItself<T>(page: seq<T>)
    ensures IsSuffix(page, page)
  {
    assert page[0..] == page;
  }

  /** Taking the first of a page's remaining tuples leaves a suffix of that page. */
  lemma PopFirst<T>(s: seq<T>, after: seq<T>, page: seq<T>)
    requires IsSuffix(s, page) && s != []
    ensures IsSuffix(s[1..], page) && IsSuffix([s[0]] + s[1..], page)
    ensures (s + after)[0] == s[0] && (s + after)[1..] == s[1..] + after
  {
    var k := |page| - |s|;
    assert page[k + 1..] == page[k..][1..];
    assert [s[0]] + s[1..] == s;
  }

  lemma MoveFirst<T>(done: seq<T>, rest: seq<T>)
    requires rest != []
    ensures (done + [rest[0]]) + rest[1..] == done + rest
  {
    assert rest == [rest[0]] + rest[1..];
  }

  /** The page ids a scan requests to reach page `n - 1`: pages `0 .. n - 1` of table `tableid`, in order. */
  function Requests(tableid: int, n: nat): (r: seq<PageId>)
  {
    if n == 0 then [] else Requests(tableid, n - 1) + [PageId(tableid, n - 1)]
  }

  /** Each page is requested once, in ascending order, one page at a time. */
  lemma {:induction false} RequestsInOrder(tableid: int, n: nat, k: nat)
    requires k < n
    ensures |Requests(tableid, n)| == n
    ensures Requests(tableid, n)[k] == PageId(tableid, k)
  {
    if k < n - 1 {
      RequestsInOrder(tableid, n - 1, k);
    } else {
      RequestsLength(tableid, n - 1);
    }
  }

  lemma {:induction false} RequestsLength(tableid: int, n: nat)
    ensures |Requests(tableid, n)| == n
  {
    if n > 0 {
      RequestsLength(tableid, n - 1);
    }
  }

  class HeapFileIterator<T> {
    /** Table id captured at construction; every page request carries it. */
    const tableid: int
    /** Page count snapshotted at construction (not re-read by `Open` or `Rewind`). */
    const numPages: nat
    /** The buffer pool's view of the table's pages. */
    const pages: seq<seq<T>>

    /** Current page number; `None` before `Open` and after `Close`. */
    var pgCursor: Option<nat>
    /** Tuples the current page's iterator has not yet returned; `None` when not scanning. */
    var tupleItr: Option<seq<T>>
    /** Page ids requested from the buffer pool since the last `Open`, in request order. */
    ghost var fetched: seq<PageId>

    ghost predicate Valid()
      reads this
    {
      (pgCursor.None? <==> tupleItr.None?) &&
      (pgCursor.None? ==> fetched == []) &&
      (pgCursor.Some? ==>
        pgCursor.value < ScanBound(numPages) &&
        IsSuffix(tupleItr.value, PageTuples(pages, pgCursor.value)) &&
        fetched == Requests(tableid, pgCursor.value + 1))
    }

    /** The scan's position; meaningful while scanning. */
    ghost function Pos(): Position<T>
      reads this
      requires pgCursor.Some? && tupleItr.Some?
    {
      Position(pgCursor.value, tupleItr.value)
    }

    /** Everything the scan still has to return, in order. */
    ghost function Remaining(): seq<T>
      reads this
      requires Valid()
    {
      if pgCursor.None? then [] else Rest(pages, numPages, Pos())
    }

    /** What a whole scan returns: pages `0 .. ScanBound(numPages) - 1`, in page order. */
    ghost function FullScan(): seq<T>
    {
      Span(pages, 0, ScanBound(numPages))
    }

    /** A new, unopened iterator over a file of `fileLength` bytes. */
    constructor (tableid: int, fileLength: nat, pageSize: nat, pages: seq<seq<T>>)
      requires pageSize > 0
      ensures Valid()
      ensures this.tableid == tableid && this.pages == pages
      ensures numPages == NumPages(fileLength, pageSize)
      ensures pgCursor == None && tupleItr == None && Remaining() == []
    {
      this.tableid := tableid;
      this.numPages := NumPages(fileLength, pageSize);
      this.pages := pages;
      pgCursor := None;
      tupleItr := None;
      fetched := [];
    }

    /** Asks the buffer pool for page `pgNo` and starts a fresh iterator over its tuples. */
    method GetTupleItr(pgNo: nat) returns (itr: seq<T>)
      modifies this`fetched
      ensures itr == PageTuples(pages, pgNo)
      ensures fetched == old(fetched) + [PageId(tableid, pgNo)]
    {
      fetched := fetched + [PageId(tableid, pgNo)];
      itr := PageTuples(pages, pgNo);
    }

    method Open()
      modifies this
      ensures Valid()
      ensures pgCursor == Some(0) && tupleItr == Some(PageTuples(pages, 0))
      ensures fetched == [PageId(tableid, 0)]
      ensures Remaining() == FullScan()
    {
      pgCursor := Some(0);
      fetched := [];
      var itr := GetTupleItr(0);
      tupleItr := Some(itr);
      SuffixOfItself(itr);
    }

    /**
     * Whether the scan has a tuple left. Skips exhausted pages, fetching them one
     * after the other, but never past page `numPages - 1`.
     */
    method HasNext() returns (b: bool)
      requires Valid()
      modifies this
      ensures Valid()
      ensures old(pgCursor).None? ==> !b && pgCursor == None && tupleItr == None && fetched == old(fetched)
      ensures old(pgCursor).Some? ==>
                pgCursor.Some? && tupleItr.Some? &&
                Pos() == SkipExhausted(pages, numPages, old(Pos())) &&
                b == (tupleItr.value != [])
      ensures old(pgCursor).Some? ==> old(pgCursor.value) <= pgCursor.value
      ensures Remaining() == old(Remaining())
      ensures b <==> Remaining() != []
    {
      if pgCursor.None? {
        return false;
      }
      ghost var start := Pos();
      ghost var target := SkipExhausted(pages, numPages, start);
      SkipAnswer(pages, numPages, start);
      SkipPreservesRest(pages, numPages, start);
      SkipBounds(pages, numPages, start);
      while pgCursor.value < numPages - 1
        invariant Valid() && pgCursor.Some?
        invariant SkipExhausted(pages, numPages, Pos()) == target
        decreases numPages - pgCursor.value
      {
        if tupleItr.value != [] {
          return true;
        }
        var next := pgCursor.value + 1;
        pgCursor := Some(next);
        var itr := GetTupleItr(next);
        tupleItr := Some(itr);
        SuffixOfItself(itr);
      }
      b := tupleItr.value != [];
    }

    /** Returns the next tuple, or `NoSuchElement` when the scan has none left. */
    method Next() returns (r: NextResult<T>)
      requires Valid()
      modifies this
      ensures Valid()
      ensures old(Remaining()) == [] ==> r == NoSuchElement && Remaining() == []
      ensures old(Remaining()) != [] ==> r == Tuple(old(Remaining())[0]) && Remaining() == old(Remaining())[1..]
      ensures old(pgCursor).None? ==> pgCursor == None && tupleItr == None && fetched == old(fetched)
      // while scanning, the cursor stays where `HasNext`'s loop stops, and a tuple is taken from there
      ensures old(pgCursor).Some? ==>
                var q := SkipExhausted(pages, numPages, old(Pos()));
                pgCursor.Some? && tupleItr.Some? && old(pgCursor.value) <= pgCursor.value &&
                (r.NoSuchElement? ==> Pos() == q) &&
                (r.Tuple? ==> q.rest != [] && r.tuple == q.rest[0] && Pos() == Position(q.page, q.rest[1..]))
      // the tuple is taken from the current page, just before what is left of it
      ensures r.Tuple? ==> pgCursor.Some? && IsSuffix([r.tuple] + tupleItr.value, PageTuples(pages, pgCursor.value))
    {
      ghost var scanning := pgCursor.Some?;
      ghost var q := if scanning then SkipExhausted(pages, numPages, Pos()) else Position(0, []);
      var more := HasNext();
      assert scanning ==> Pos() == q;
      if more {
        var t := TakeFirst();
        r := Tuple(t);
        assert scanning ==> Pos() == Position(q.page, q.rest[1..]);
      } else {
        r := NoSuchElement;
      }
    }

    /** `tupleItr.next()`: takes the first tuple the current page's iterator has left. */
    method TakeFirst() returns (t: T)
      requires Valid() && tupleItr.Some? && tupleItr.value != []
      modifies this`tupleItr
      ensures Valid()
      ensures t == old(tupleItr.value)[0] && tupleItr == Some(old(tupleItr.value)[1..])
      ensures Remaining() == old(Remaining())[1..] && t == old(Remaining())[0]
      ensures IsSuffix([t] + tupleItr.value, PageTuples(pages, pgCursor.value))
    {
      var itr := tupleItr.value;
      PopFirst(itr, Span(pages, pgCursor.value + 1, ScanBound(numPages)), PageTuples(pages, pgCursor.value));
      t := itr[0];
      tupleItr := Some(itr[1..]);
    }

    method Close()
      modifies this
      ensures Valid()
      ensures pgCursor == None && tupleItr == None && Remaining() == []
    {
      pgCursor := None;
      tupleItr := None;
      fetched := [];
    }

    /** Restarts the scan at page 0; the page count snapshot stays that of construction. */
    method Rewind()
      modifies this
      ensures Valid()
      ensures pgCursor == Some(0) && tupleItr == Some(PageTuples(pages, 0))
      ensures fetched == [PageId(tableid, 0)]
      ensures Remaining() == FullScan()
    {
      Close();
      Open();
    }
  }

  /** The scan protocol: open, then call `Next` while `HasNext` holds. */
  method ScanAll<T>(it: HeapFileIterator<T>) returns (out: seq<T>)
    modifies it
    ensures it.Valid()
    ensures out == it.FullScan()
    ensures it.Remaining() == []
  {
    it.Open();
    out := [];
    var more := it.HasNext();
    while more
      invariant it.Valid()
      invariant out + it.Remaining() == it.FullScan()
      invariant more <==> it.Remaining() != []
      decreases |it.Remaining()|
    {
      ghost var rem := it.Remaining();
      var r := it.Next();
      MoveFirst(out, rem);
      out := out + [r.tuple];
      more := it.HasNext();
    }
  }
}
