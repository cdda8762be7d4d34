/** The page file: a zero-indexed, append-only sequence of PAGE_SIZE-byte
    pages, together with the handle fields the storage manager keeps about it
    (the page count and the position of the last page read).  The file on
    disk and the process-wide handle of the storage manager are modelled as
    one immutable value; every operation returns the new value. */
module StorageMgr {
  import opened Types

  /** Bytes per page, fixed at 4096 here; no proof depends on the value. */
  const PAGE_SIZE: nat := 4096

  /** A freshly allocated page: PAGE_SIZE zero bytes, as `calloc` returns them. */
  function ZeroPage(): (z: seq<byte>)
    ensures |z| == PAGE_SIZE
  {
    seq(PAGE_SIZE, _ => 0)
  }

  predicate IsZero(page: seq<byte>)
  {
    forall i :: 0 <= i < |page| ==> page[i] == 0
  }

  datatype PageFile = PageFile(totalNumPages: int, curPagePos: int, pages: seq<seq<byte>>)
  {
    /** The page count agrees with the pages, every page is whole, and the
        current position names an existing page. */
    predicate Valid()
    {
      && totalNumPages == |pages|
      && 0 <= curPagePos < totalNumPages
      && forall i :: 0 <= i < |pages| ==> |pages[i]| == PAGE_SIZE
    }
  }

  /** What a read hands back: the page read (or why not) and the updated file. */
  datatype ReadOutcome = ReadOutcome(result: Result<seq<byte>>, file: PageFile)

  /** What a write or a growth hands back: the return code and the updated file. */
  datatype WriteOutcome = WriteOutcome(rc: RC, file: PageFile)

  /** Creating a page file writes one zero page.  `canOpen` is whether the
      operating system let the file be opened for writing. */
  function CreatePageFile(canOpen: bool): (r: Result<PageFile>)
    ensures r.Success? <==> canOpen
    ensures r.Failure? ==> r.rc == FileNotFound
    ensures r.Success? ==>
              && r.value.Valid()
              && r.value.totalNumPages == 1
              && r.value.curPagePos == 0
              && IsZero(r.value.pages[0])
  {
    if canOpen then Success(PageFile(1, 0, [ZeroPage()])) else Failure(FileNotFound)
  }

  /** Reads page `pageNum`; on success the current position moves to it. */
  function ReadBlock(f: PageFile, pageNum: int): (r: ReadOutcome)
    requires f.Valid()
    ensures r.file.Valid()
    ensures r.result.Failure? <==> (pageNum < 0 || f.totalNumPages <= pageNum)
    ensures r.result.Failure? ==> r.result.rc == ReadNonExistingPage && r.file == f
    ensures r.result.Success? ==>
              && r.result.value == f.pages[pageNum]
              && r.file.pages == f.pages
              && r.file.totalNumPages == f.totalNumPages
              && GetBlockPos(r.file) == pageNum
  {
    if pageNum + 1 > f.totalNumPages || pageNum < 0 then
      ReadOutcome(Failure(ReadNonExistingPage), f)
    else
      ReadOutcome(Success(f.pages[pageNum]), f.(curPagePos := pageNum))
  }

  /** The current position: on a valid file it always names an existing page. */
  function GetBlockPos(f: PageFile): (pos: int)
    ensures f.Valid() ==> 0 <= pos < f.totalNumPages
  {
    f.curPagePos
  }

  /** Reads the first page; the current position is left where it was. */
  function ReadFirstBlock(f: PageFile): (r: ReadOutcome)
    requires f.Valid()
    ensures r.file == f
    ensures r.result == ReadBlock(f, 0).result
  {
    ReadOutcome(Success(f.pages[0]), f)
  }

  /** Reads the page before the current one.  The range test here lets
      `curPagePos - 1 == totalNumPages` through; `ReadBlock` rejects it. */
  function ReadPreviousBlock(f: PageFile): (r: ReadOutcome)
    requires f.Valid()
    ensures r == ReadBlock(f, GetBlockPos(f) - 1)
  {
    var pageNum := f.curPagePos - 1;
    if pageNum > f.totalNumPages || pageNum < 0 then
      ReadOutcome(Failure(ReadNonExistingPage), f)
    else
      ReadBlock(f, pageNum)
  }

  /** Reads the current page. */
  function ReadCurrentBlock(f: PageFile): (r: ReadOutcome)
    requires f.Valid()
    ensures r == ReadBlock(f, GetBlockPos(f))
  {
    var pageNum := f.curPagePos;
    if pageNum > f.totalNumPages || pageNum < 0 then
      ReadOutcome(Failure(ReadNonExistingPage), f)
    else
      ReadBlock(f, pageNum)
  }

  /** Reads the page after the current one. */
  function ReadNextBlock(f: PageFile): (r: ReadOutcome)
    requires f.Valid()
    ensures r == ReadBlock(f, GetBlockPos(f) + 1)
  {
    var pageNum := f.curPagePos + 1;
    if pageNum > f.totalNumPages || pageNum < 0 then
      ReadOutcome(Failure(ReadNonExistingPage), f)
    else
      ReadBlock(f, pageNum)
  }

  /** Reads the last page (a seek to PAGE_SIZE bytes before the end of the
      file); the current position is left where it was. */
  function ReadLastBlock(f: PageFile): (r: ReadOutcome)
    requires f.Valid()
    ensures r.file == f
    ensures r.result == ReadBlock(f, f.totalNumPages - 1).result
  {
    ReadOutcome(Success(f.pages[|f.pages| - 1]), f)
  }

  /** Writes `memPage` over page `pageNum`.  A page number past the end is
      refused without growing the file; a negative one passes the range test
      but its byte offset is negative, so the seek fails.  The buffer is only
      read when the write happens, so only then must it be a whole page. */
  function WriteBlock(f: PageFile, pageNum: int, memPage: seq<byte>): (r: WriteOutcome)
    requires f.Valid()
    requires 0 <= pageNum < f.totalNumPages ==> |memPage| == PAGE_SIZE
    ensures r.file.Valid()
    ensures r.file.totalNumPages == f.totalNumPages
    ensures r.file.curPagePos == f.curPagePos
    ensures f.totalNumPages <= pageNum ==> r.rc == PageNotFound && r.file == f
    ensures pageNum < 0 ==> r.rc == SeekFail && r.file == f
    ensures 0 <= pageNum < f.totalNumPages ==>
              && r.rc == Ok
              && r.file.pages[pageNum] == memPage
              && forall i :: 0 <= i < |f.pages| && i != pageNum ==> r.file.pages[i] == f.pages[i]
  {
    if pageNum + 1 > f.totalNumPages then
      WriteOutcome(PageNotFound, f)
    else if pageNum < 0 then
      WriteOutcome(SeekFail, f)
    else
      WriteOutcome(Ok, f.(pages := f.pages[pageNum := memPage]))
  }

  /** Writes `memPage` over the current page. */
  function WriteCurrentBlock(f: PageFile, memPage: seq<byte>): (r: WriteOutcome)
    requires f.Valid()
    requires |memPage| == PAGE_SIZE
    ensures r == WriteBlock(f, GetBlockPos(f), memPage)
    ensures r.rc == Ok
  {
    WriteBlock(f, f.curPagePos, memPage)
  }

  /** Appends one zero page at the end of the file. */
  function AppendEmptyBlock(f: PageFile): (r: WriteOutcome)
    requires f.Valid()
    ensures r.rc == Ok
    ensures r.file.Valid()
    ensures r.file.totalNumPages == f.totalNumPages + 1
    ensures r.file.curPagePos == f.curPagePos
    ensures r.file.pages[..|f.pages|] == f.pages
    ensures IsZero(r.file.pages[|f.pages|])
  {
    var pages := f.pages + [ZeroPage()];
    assert pages[..|f.pages|] == f.pages;
    WriteOutcome(Ok, f.(totalNumPages := f.totalNumPages + 1, pages := pages))
  }

  /** Grows the file to `numberOfPages` pages in one step, zero-filling the
      new ones; a file that is already large enough is left alone. */
  function EnsureCapacity(f: PageFile, numberOfPages: int): (r: WriteOutcome)
    requires f.Valid()
    ensures r.rc == Ok
    ensures r.file.Valid()
    ensures r.file.curPagePos == f.curPagePos
    ensures numberOfPages <= f.totalNumPages ==> r.file == f
    ensures f.totalNumPages < numberOfPages ==> r.file.totalNumPages == numberOfPages
    ensures f.totalNumPages <= r.file.totalNumPages
    ensures r.file.pages[..|f.pages|] == f.pages
    ensures forall i :: |f.pages| <= i < |r.file.pages| ==> IsZero(r.file.pages[i])
  {
    if numberOfPages <= f.totalNumPages then
      WriteOutcome(Ok, f)
    else
      var pagesNeeded := numberOfPages - f.totalNumPages;
      var pages := f.pages + seq(pagesNeeded, _ => ZeroPage());
      assert pages[..|f.pages|] == f.pages;
      WriteOutcome(Ok, f.(totalNumPages := f.totalNumPages + pagesNeeded, pages := pages))
  }

  // ---------------------------------------------------------------------
  // Properties relating several calls
  // ---------------------------------------------------------------------

  /** A page written successfully reads back as written, and reading it
      moves the current position to it. */
  lemma WriteThenRead(f: PageFile, pageNum: int, memPage: seq<byte>)
    requires f.Valid()
    requires 0 <= pageNum < f.totalNumPages
    requires |memPage| == PAGE_SIZE
    ensures var w := WriteBlock(f, pageNum, memPage);
            && w.rc == Ok
            && ReadBlock(w.file, pageNum).result == Success(memPage)
            && GetBlockPos(ReadBlock(w.file, pageNum).file) == pageNum
  {
  }

  /** Writing one page does not disturb what any other page reads back. */
  lemma WriteLeavesOtherPages(f: PageFile, pageNum: int, memPage: seq<byte>, other: int)
    requires f.Valid()
    requires 0 <= pageNum < f.totalNumPages ==> |memPage| == PAGE_SIZE
    requires other != pageNum
    ensures ReadBlock(WriteBlock(f, pageNum, memPage).file, other).result == ReadBlock(f, other).result
  {
  }

  /** `EnsureCapacity` is idempotent. */
  lemma EnsureCapacityIdempotent(f: PageFile, numberOfPages: int)
    requires f.Valid()
    ensures var once := EnsureCapacity(f, numberOfPages).file;
            EnsureCapacity(once, numberOfPages).file == once
  {
  }

  /** `numberOfPages` successive calls of `AppendEmptyBlock`. */
  function AppendBlocks(f: PageFile, count: nat): (r: PageFile)
    requires f.Valid()
    ensures r.Valid()
    decreases count
  {
    if count == 0 then f else AppendBlocks(AppendEmptyBlock(f).file, count - 1)
  }

  lemma {:induction false} AppendBlocksPages(f: PageFile, count: nat)
    requires f.Valid()
    ensures AppendBlocks(f, count).pages == f.pages + seq(count, _ => ZeroPage())
    ensures AppendBlocks(f, count).totalNumPages == f.totalNumPages + count
    ensures AppendBlocks(f, count).curPagePos == f.curPagePos
    decreases count
  {
    if count > 0 {
      var g := AppendEmptyBlock(f).file;
      assert g.pages == f.pages + [ZeroPage()] by {
        assert g.pages[..|f.pages|] == f.pages;
        assert |g.pages[|f.pages|]| == PAGE_SIZE;
        assert g.pages[|f.pages|] == ZeroPage();
        assert g.pages == g.pages[..|f.pages|] + [g.pages[|f.pages|]];
      }
      AppendBlocksPages(g, count - 1);
      assert f.pages + [ZeroPage()] + seq(count - 1, _ => ZeroPage())
          == f.pages + seq(count, _ => ZeroPage());
    }
  }

  /** Growing in one step is the same as appending the missing pages one at
      a time. */
  lemma EnsureCapacityIsRepeatedAppend(f: PageFile, numberOfPages: int)
    requires f.Valid()
    requires f.totalNumPages < numberOfPages
    ensures EnsureCapacity(f, numberOfPages).file == AppendBlocks(f, numberOfPages - f.totalNumPages)
  {
    AppendBlocksPages(f, numberOfPages - f.totalNumPages);
  }
}
