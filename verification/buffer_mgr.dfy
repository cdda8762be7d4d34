/** The buffer pool: a fixed row of frames caching pages of one page file.
    The frames sit in a circular queue (`head`, `tail`, `numEntries`); a page
    is pinned by a fix count, marked dirty by its users, and written back on
    eviction, on a forced write and on a flush.  The pool counts the pages it
    read into a frame and the pages it wrote back.

    The pool and the page file are separate immutable values; an operation
    that performs I/O takes the file and returns the new one. */
module BufferMgr {
  import opened Types
  import opened StorageMgr

  /** The page number an empty frame carries, and the one the frame
      snapshot reports for it. */
  const NO_PAGE: int := -1

  /** The replacement strategy chosen at creation.  `Other` stands for every
      strategy the pool accepts but does not implement. */
  datatype Strategy = Fifo | Lru | Other

  datatype Frame = Frame(pageNum: int, dirty: bool, fixCount: int, contents: seq<byte>)

  /** A frame as the pool is created: no page, clean, unpinned, no buffer. */
  const EMPTY_FRAME: Frame := Frame(NO_PAGE, false, 0, [])

  predicate Occupied(fr: Frame)
  {
    fr.pageNum != NO_PAGE
  }

  /** The caller's view of a pinned page: its number and its bytes. */
  datatype PageHandle = PageHandle(pageNum: int, data: seq<byte>)

  datatype Pool = Pool(
    strategy: Strategy,
    frames: seq<Frame>,
    head: nat,
    tail: nat,
    numEntries: nat,
    numRead: nat,
    numWritten: nat)

  // ---------------------------------------------------------------------
  // The pool invariant
  // ---------------------------------------------------------------------

  /** Every page a frame might write back is a whole page. */
  predicate Writable(frames: seq<Frame>, f: PageFile)
  {
    forall i :: 0 <= i < |frames| && 0 <= frames[i].pageNum < f.totalNumPages ==>
      |frames[i].contents| == PAGE_SIZE
  }

  /** A frame's own well-formedness: its fix count is never negative, an
      occupied frame holds a whole page of the file, and an empty frame is
      clean and unpinned. */
  predicate FrameOk(fr: Frame, f: PageFile)
  {
    && fr.fixCount >= 0
    && (Occupied(fr) ==> 0 <= fr.pageNum < f.totalNumPages && |fr.contents| == PAGE_SIZE)
    && (!Occupied(fr) ==> fr.fixCount == 0 && !fr.dirty)
  }

  /** No page number is cached in two frames. */
  predicate Distinct(frames: seq<Frame>)
  {
    forall i, j :: 0 <= i < |frames| && 0 <= j < |frames| && i != j && Occupied(frames[i]) ==>
      frames[i].pageNum != frames[j].pageNum
  }

  /** The invariant of a pool over file `f`.  While the queue is not full the
      occupied frames are exactly the first `numEntries` ones, `head` is 0 and
      `tail` is `numEntries`; once full, `head == tail`. */
  predicate Inv(p: Pool, f: PageFile)
  {
    && f.Valid()
    && 0 < |p.frames|
    && p.numEntries <= |p.frames|
    && (p.numEntries < |p.frames| ==> p.head == 0 && p.tail == p.numEntries)
    && (p.numEntries == |p.frames| ==> p.head == p.tail < |p.frames|)
    && (forall i :: 0 <= i < |p.frames| ==> (Occupied(p.frames[i]) <==> i < p.numEntries))
    && (forall i :: 0 <= i < |p.frames| ==> FrameOk(p.frames[i], f))
    && Distinct(p.frames)
  }

  /** Some frame holds page `pageNum`. */
  predicate Cached(p: Pool, pageNum: int)
  {
    exists i :: 0 <= i < |p.frames| && Occupied(p.frames[i]) && p.frames[i].pageNum == pageNum
  }

  // ---------------------------------------------------------------------
  // Creation and the queue
  // ---------------------------------------------------------------------

  /** A pool of `numPages` empty frames with both counters at zero. */
  function InitBufferPool(numPages: int, strategy: Strategy): (p: Pool)
    requires numPages >= 1
    ensures |p.frames| == numPages
    ensures forall i :: 0 <= i < |p.frames| ==>
              !Occupied(p.frames[i]) && !p.frames[i].dirty && p.frames[i].fixCount == 0
    ensures p.head == 0 && p.tail == 0 && p.numEntries == 0
    ensures p.numRead == 0 && p.numWritten == 0
  {
    Pool(strategy, seq(numPages, _ => EMPTY_FRAME), 0, 0, 0, 0, 0)
  }

  predicate QueueEmpty(p: Pool)
  {
    p.numEntries == 0
  }

  /** Stores `fr` at `tail` with its fix count raised by one. */
  function Enqueue(p: Pool, fr: Frame): (q: Pool)
    requires p.tail < |p.frames|
    ensures |q.frames| == |p.frames|
    ensures q.frames[p.tail] == fr.(fixCount := fr.fixCount + 1)
    ensures forall i :: 0 <= i < |p.frames| && i != p.tail ==> q.frames[i] == p.frames[i]
    ensures q.numEntries == p.numEntries + 1
    ensures q.tail == (p.tail + 1) % |p.frames| && q.tail < |q.frames|
    ensures q == p.(frames := q.frames, numEntries := q.numEntries, tail := q.tail)
  {
    p.(frames := p.frames[p.tail := fr.(fixCount := fr.fixCount + 1)],
       numEntries := p.numEntries + 1,
       tail := (p.tail + 1) % |p.frames|)
  }

  /** The result of trying to free a frame: whether a frame was freed, which
      one, and the pool and file afterwards. */
  datatype Eviction = Eviction(evicted: bool, victim: nat, pool: Pool, file: PageFile)

  /** What the dequeue step and the eviction loop need of a pool. */
  predicate Shape(p: Pool, f: PageFile)
  {
    && f.Valid()
    && 0 < |p.frames|
    && p.head < |p.frames|
    && p.tail < |p.frames|
    && Writable(p.frames, f)
  }

  /** One dequeue attempt.  An unpinned head frame is written back whether or
      not it is dirty (the write is not counted), marked clean and removed;
      a pinned head is skipped by moving both `head` and `tail` on. */
  function Dequeue(p: Pool, f: PageFile): (e: Eviction)
    requires Shape(p, f)
    ensures Shape(e.pool, e.file)
    ensures |e.pool.frames| == |p.frames|
    ensures e.file.totalNumPages == f.totalNumPages
    ensures e.pool.numRead == p.numRead && e.pool.numWritten == p.numWritten
    ensures e.pool.strategy == p.strategy
    ensures e.evicted ==> p.frames[p.head].fixCount == 0 && e.victim == p.head
  {
    if QueueEmpty(p) then
      Eviction(false, p.head, p, f)
    else
      var fr := p.frames[p.head];
      if Occupied(fr) && fr.fixCount == 0 then
        var w := WriteBlock(f, fr.pageNum, fr.contents);
        Eviction(true, p.head,
                 p.(frames := p.frames[p.head := fr.(dirty := false)],
                    head := (p.head + 1) % |p.frames|,
                    numEntries := p.numEntries - 1),
                 w.file)
      else
        Eviction(false, p.head,
                 p.(tail := (p.tail + 1) % |p.frames|, head := (p.head + 1) % |p.frames|),
                 f)
  }

  /** The FIFO eviction loop: dequeue until a frame is freed, giving up once
      more than `|frames|` attempts have failed (so `|frames| + 2` frames are
      tried in all). */
  function EvictLoop(p: Pool, f: PageFile, attempts: nat): (e: Eviction)
    requires Shape(p, f)
    requires attempts <= |p.frames| + 1
    ensures Shape(e.pool, e.file)
    ensures |e.pool.frames| == |p.frames|
    ensures e.file.totalNumPages == f.totalNumPages
    ensures e.pool.numRead == p.numRead && e.pool.numWritten == p.numWritten
    ensures e.pool.strategy == p.strategy
    decreases |p.frames| + 1 - attempts
  {
    var d := Dequeue(p, f);
    if d.evicted || attempts > |p.frames| then d
    else EvictLoop(d.pool, d.file, attempts + 1)
  }

  // ---------------------------------------------------------------------
  // Pinning
  // ---------------------------------------------------------------------

  /** First index at or after `i` whose frame holds `pageNum` or is empty,
      or `|frames|` when there is none: the frame scan of a pin. */
  function ScanFrom(frames: seq<Frame>, pageNum: int, i: nat): (r: nat)
    requires i <= |frames|
    ensures i <= r <= |frames|
    ensures r < |frames| ==> frames[r].pageNum == pageNum || !Occupied(frames[r])
    ensures forall j :: i <= j < r ==> frames[j].pageNum != pageNum && Occupied(frames[j])
    decreases |frames| - i
  {
    if i == |frames| then i
    else if frames[i].pageNum == pageNum then i
    else if frames[i].pageNum == NO_PAGE then i
    else ScanFrom(frames, pageNum, i + 1)
  }

  datatype PinResult = PinResult(rc: RC, page: PageHandle, pool: Pool, file: PageFile)

  /** The steps every strategy takes before looking at the frames: grow the
      file to `pageNum + 1` pages and read the page (a physical read even
      when the page turns out to be cached). */
  datatype Lookup = Lookup(read: Result<seq<byte>>, file: PageFile, slot: nat)

  function LookUp(p: Pool, f: PageFile, pageNum: int): (l: Lookup)
    requires Inv(p, f)
    ensures l.file.Valid()
    ensures f.totalNumPages <= l.file.totalNumPages
    ensures l.read.Success? ==> pageNum >= 0 && |l.read.value| == PAGE_SIZE
    ensures l.slot <= |p.frames|
  {
    var grown := EnsureCapacity(f, pageNum + 1).file;
    var rd := ReadBlock(grown, pageNum);
    Lookup(rd.result, rd.file, ScanFrom(p.frames, pageNum, 0))
  }

  /** A hit raises the frame's fix count and hands out its contents; an empty
      frame means the page is enqueued at `tail` and counted as read. */
  function HitOrFill(p: Pool, f: PageFile, pageNum: int, data: seq<byte>, i: nat): (r: PinResult)
    requires i < |p.frames| && p.tail < |p.frames|
    ensures r.rc == Ok && r.file == f
    ensures r.page.pageNum == pageNum
  {
    if p.frames[i].pageNum == pageNum then
      PinResult(Ok, PageHandle(pageNum, p.frames[i].contents),
                p.(frames := p.frames[i := p.frames[i].(fixCount := p.frames[i].fixCount + 1)]),
                f)
    else
      var q := Enqueue(p, Frame(pageNum, false, 0, data));
      PinResult(Ok, PageHandle(pageNum, data), q.(numRead := q.numRead + 1), f)
  }

  lemma InvShape(p: Pool, f: PageFile, g: PageFile)
    requires Inv(p, f)
    requires g.Valid() && f.totalNumPages <= g.totalNumPages
    ensures Shape(p, g)
  {
    forall i | 0 <= i < |p.frames| && 0 <= p.frames[i].pageNum < g.totalNumPages
      ensures |p.frames[i].contents| == PAGE_SIZE
    {
      assert FrameOk(p.frames[i], f);
    }
  }

  /** Pinning under FIFO.  When no frame holds the page and none is empty,
      the eviction loop frees a frame and the page takes its place; if every
      frame stays pinned the pin fails (the handle has already been set). */
  function FifoPin(p: Pool, f: PageFile, h: PageHandle, pageNum: int): (r: PinResult)
    requires Inv(p, f)
    ensures r.rc == Ok || r.rc == FileNotFound
    ensures r.rc == Ok ==> r.page.pageNum == pageNum && pageNum >= 0
    ensures pageNum < 0 ==> r == PinResult(FileNotFound, h, p, f)
    ensures r.file.Valid() && f.totalNumPages <= r.file.totalNumPages
    ensures |r.pool.frames| == |p.frames| && r.pool.strategy == p.strategy
    ensures r.pool.numWritten == p.numWritten
    ensures p.numRead <= r.pool.numRead <= p.numRead + 1
  {
    var l := LookUp(p, f, pageNum);
    if l.read.Failure? then
      PinResult(FileNotFound, h, p, l.file)
    else if l.slot < |p.frames| then
      HitOrFill(p, l.file, pageNum, l.read.value, l.slot)
    else
      InvShape(p, f, l.file);
      var e := EvictLoop(p, l.file, 0);
      var handle := PageHandle(pageNum, l.read.value);
      if !e.evicted then
        PinResult(FileNotFound, handle, e.pool, e.file)
      else
        var q := Enqueue(e.pool, Frame(pageNum, false, 0, l.read.value));
        PinResult(Ok, handle, q.(numRead := q.numRead + 1), e.file)
  }

  /** LRU pinning is only defined when no eviction is needed: the source has
      no eviction branch for it. */
  predicate LruDefined(p: Pool, pageNum: int)
  {
    pageNum < 0 || ScanFrom(p.frames, pageNum, 0) < |p.frames|
  }

  /** Pinning under LRU: the hit and empty-frame paths of FIFO. */
  function LruPin(p: Pool, f: PageFile, h: PageHandle, pageNum: int): (r: PinResult)
    requires Inv(p, f)
    requires LruDefined(p, pageNum)
    ensures r.rc == Ok <==> pageNum >= 0
    ensures r.rc == Ok ==> r.page.pageNum == pageNum
    ensures pageNum < 0 ==> r == PinResult(FileNotFound, h, p, f)
    ensures r.file.Valid() && f.totalNumPages <= r.file.totalNumPages
    ensures |r.pool.frames| == |p.frames| && r.pool.strategy == p.strategy
    ensures r.pool.numWritten == p.numWritten
    ensures p.numRead <= r.pool.numRead <= p.numRead + 1
  {
    var l := LookUp(p, f, pageNum);
    if l.read.Failure? then
      PinResult(FileNotFound, h, p, l.file)
    else
      HitOrFill(p, l.file, pageNum, l.read.value, l.slot)
  }

  /** Pins `pageNum`, dispatching on the pool's strategy; a strategy the pool
      does not implement fails without touching anything. */
  function PinPage(p: Pool, f: PageFile, h: PageHandle, pageNum: int): (r: PinResult)
    requires Inv(p, f)
    requires p.strategy == Lru ==> LruDefined(p, pageNum)
    ensures r.rc == Ok || r.rc == FileNotFound
    ensures r.rc == Ok ==> r.page.pageNum == pageNum && pageNum >= 0
    ensures pageNum < 0 ==> r.rc == FileNotFound && r.pool == p && r.file == f && r.page == h
  {
    match p.strategy
    case Fifo => FifoPin(p, f, h, pageNum)
    case Lru => LruPin(p, f, h, pageNum)
    case Other => PinResult(FileNotFound, h, p, f)
  }

  // ---------------------------------------------------------------------
  // Unpin, dirty marking and forced writes
  // ---------------------------------------------------------------------

  datatype PoolOutcome = PoolOutcome(rc: RC, pool: Pool)

  datatype IoOutcome = IoOutcome(rc: RC, pool: Pool, file: PageFile)

  function UnpinFrame(fr: Frame, pageNum: int): Frame
  {
    if fr.fixCount > 0 && fr.pageNum == pageNum then fr.(fixCount := fr.fixCount - 1) else fr
  }

  /** Lowers the fix count of every pinned frame holding `pageNum`; a page
      that is absent or unpinned is not an error. */
  function UnpinPage(p: Pool, pageNum: int): (r: PoolOutcome)
    ensures r.rc == Ok
    ensures r.pool == p.(frames := r.pool.frames)
    ensures |r.pool.frames| == |p.frames|
    ensures forall i :: 0 <= i < |p.frames| ==>
              && r.pool.frames[i] == p.frames[i].(fixCount := r.pool.frames[i].fixCount)
              && (p.frames[i].fixCount >= 0 ==> r.pool.frames[i].fixCount >= 0)
              && (r.pool.frames[i].fixCount != p.frames[i].fixCount <==>
                    p.frames[i].pageNum == pageNum && p.frames[i].fixCount > 0)
              && p.frames[i].fixCount - 1 <= r.pool.frames[i].fixCount <= p.frames[i].fixCount
  {
    PoolOutcome(Ok, p.(frames := seq(|p.frames|, i requires 0 <= i < |p.frames| => UnpinFrame(p.frames[i], pageNum))))
  }

  /** First index at or after `i` whose frame's page number is `pageNum`,
      or `|frames|`. */
  function IndexFrom(frames: seq<Frame>, pageNum: int, i: nat): (r: nat)
    requires i <= |frames|
    ensures i <= r <= |frames|
    ensures r < |frames| ==> frames[r].pageNum == pageNum
    ensures forall j :: i <= j < r ==> frames[j].pageNum != pageNum
    decreases |frames| - i
  {
    if i == |frames| then i
    else if frames[i].pageNum == pageNum then i
    else IndexFrom(frames, pageNum, i + 1)
  }

  /** Marks the frame holding `pageNum` dirty; anything else is a no-op. */
  function MarkDirty(p: Pool, pageNum: int): (r: PoolOutcome)
    ensures r.rc == Ok
    ensures !Cached(p, pageNum) ==> r.pool == p
    ensures Cached(p, pageNum) ==>
              var i := IndexFrom(p.frames, pageNum, 0);
              && i < |p.frames|
              && r.pool == p.(frames := p.frames[i := p.frames[i].(dirty := true)])
  {
    var i := IndexFrom(p.frames, pageNum, 0);
    if pageNum != NO_PAGE && i < |p.frames| then
      PoolOutcome(Ok, p.(frames := p.frames[i := p.frames[i].(dirty := true)]))
    else
      PoolOutcome(Ok, p)
  }

  /** Writes the first frame whose page number is `pageNum` to the file,
      marks it clean and counts the write.  The page number is compared with
      every frame, empty ones included. */
  function ForcePage(p: Pool, f: PageFile, pageNum: int): (r: IoOutcome)
    requires f.Valid() && Writable(p.frames, f)
    ensures r.file.Valid() && r.file.totalNumPages == f.totalNumPages
    ensures r.rc == Ok <==> IndexFrom(p.frames, pageNum, 0) < |p.frames|
    ensures r.rc != Ok ==> r.rc == FileNotFound && r.pool == p && r.file == f
  {
    var i := IndexFrom(p.frames, pageNum, 0);
    if i < |p.frames| then
      var fr := p.frames[i];
      var w := WriteBlock(f, fr.pageNum, fr.contents);
      IoOutcome(Ok, p.(frames := p.frames[i := fr.(dirty := false)], numWritten := p.numWritten + 1), w.file)
    else
      IoOutcome(FileNotFound, p, f)
  }

  /** The number of dirty frames at or after index `i`. */
  function CountDirty(frames: seq<Frame>, i: nat): nat
    requires i <= |frames|
    decreases |frames| - i
  {
    if i == |frames| then 0
    else (if frames[i].dirty then 1 else 0) + CountDirty(frames, i + 1)
  }

  /** The flush loop from index `i` on: every dirty frame, pinned or not, is
      marked clean, written back and counted. */
  function FlushFrom(p: Pool, f: PageFile, i: nat): (r: IoOutcome)
    requires f.Valid() && Writable(p.frames, f)
    requires i <= |p.frames|
    ensures r.rc == Ok
    ensures r.file.Valid() && r.file.totalNumPages == f.totalNumPages
    ensures |r.pool.frames| == |p.frames|
    ensures Writable(r.pool.frames, r.file)
    decreases |p.frames| - i
  {
    if i == |p.frames| then
      IoOutcome(Ok, p, f)
    else if p.frames[i].dirty then
      var fr := p.frames[i];
      var w := WriteBlock(f, fr.pageNum, fr.contents);
      FlushFrom(p.(frames := p.frames[i := fr.(dirty := false)], numWritten := p.numWritten + 1), w.file, i + 1)
    else
      FlushFrom(p, f, i + 1)
  }

  function ForceFlushPool(p: Pool, f: PageFile): (r: IoOutcome)
    requires f.Valid() && Writable(p.frames, f)
    ensures r.rc == Ok
    ensures r.file.Valid() && r.file.totalNumPages == f.totalNumPages
  {
    FlushFrom(p, f, 0)
  }

  predicate AnyPinned(frames: seq<Frame>)
  {
    exists i :: 0 <= i < |frames| && frames[i].fixCount > 0
  }

  /** `pool` is `None` once the pool has been released. */
  datatype ShutdownOutcome = ShutdownOutcome(rc: RC, pool: Option<Pool>, file: PageFile)

  /** Flushes the pool, then refuses to release it while any frame is pinned. */
  function ShutdownBufferPool(p: Pool, f: PageFile): (r: ShutdownOutcome)
    requires f.Valid() && Writable(p.frames, f)
    ensures r.file == ForceFlushPool(p, f).file
    ensures r.rc == Ok <==> r.pool.None?
    ensures r.rc != Ok ==> r.rc == PageNotFound && r.pool == Some(ForceFlushPool(p, f).pool)
  {
    var fl := ForceFlushPool(p, f);
    if AnyPinned(fl.pool.frames) then
      ShutdownOutcome(PageNotFound, Some(fl.pool), fl.file)
    else
      ShutdownOutcome(Ok, None, fl.file)
  }

  // ---------------------------------------------------------------------
  // Snapshots
  // ---------------------------------------------------------------------

  /** The page number of each frame, `NO_PAGE` for an empty one. */
  function GetFrameContents(p: Pool): (r: seq<int>)
    ensures |r| == |p.frames|
    ensures forall i :: 0 <= i < |r| ==> (r[i] == NO_PAGE <==> !Occupied(p.frames[i]))
    ensures forall i :: 0 <= i < |r| && Occupied(p.frames[i]) ==> r[i] == p.frames[i].pageNum
  {
    seq(|p.frames|, i requires 0 <= i < |p.frames| =>
      if Occupied(p.frames[i]) then p.frames[i].pageNum else NO_PAGE)
  }

  function GetDirtyFlags(p: Pool): (r: seq<bool>)
    ensures |r| == |p.frames|
    ensures forall i :: 0 <= i < |r| ==> r[i] == p.frames[i].dirty
  {
    seq(|p.frames|, i requires 0 <= i < |p.frames| => p.frames[i].dirty)
  }

  /** The fix count of each frame, with -1 reported as 0. */
  function GetFixCounts(p: Pool): (r: seq<int>)
    ensures |r| == |p.frames|
    ensures forall i :: 0 <= i < |r| && p.frames[i].fixCount >= 0 ==> r[i] == p.frames[i].fixCount
    ensures forall i :: 0 <= i < |r| && p.frames[i].fixCount >= -1 ==> r[i] >= 0
    ensures forall i :: 0 <= i < |r| && p.frames[i].fixCount == -1 ==> r[i] == 0
  {
    seq(|p.frames|, i requires 0 <= i < |p.frames| =>
      if p.frames[i].fixCount != -1 then p.frames[i].fixCount else 0)
  }

  /** The number of pages read into the pool since it was created. */
  function GetNumReadIO(p: Pool): nat
  {
    p.numRead
  }

  /** The number of pages the pool has counted as written back. */
  function GetNumWriteIO(p: Pool): nat
  {
    p.numWritten
  }
}
