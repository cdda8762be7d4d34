/** Properties of the buffer pool: what each pin path does, that every
    operation keeps the pool invariant, that a pinned frame is never chosen
    as a victim, and what forced writes, flushes and shutdown do to the
    frames, the counters and the file. */
module BufferMgrLemmas {
  import opened Types
  import opened StorageMgr
  import opened BufferMgr

  // ---------------------------------------------------------------------
  // Positions in the circular queue
  // ---------------------------------------------------------------------

  lemma ModSmall(x: int, m: int)
    requires 0 <= x < m
    ensures x % m == x
  {
  }

  /** One step round the queue wraps from the last frame to the first. */
  lemma NextPos(h: int, m: int)
    requires 0 <= h < m
    ensures (h + 1) % m == if h + 1 < m then h + 1 else 0
  {
    if h + 1 < m {
      ModSmall(h + 1, m);
    } else {
      assert h + 1 == 0 + m;
    }
  }

  /** The position `k` steps round the queue from `h`, one step at a time,
      the way the dequeue loop moves `head`. */
  function Advance(h: nat, k: nat, m: nat): (r: nat)
    requires h < m
    ensures r < m
    decreases k
  {
    if k == 0 then h else Advance((h + 1) % m, k - 1, m)
  }

  /** Fewer than a full turn from `h` reaches every position exactly as
      addition with a single wrap does. */
  lemma {:induction false} AdvanceClosed(h: nat, k: nat, m: nat)
    requires h < m && k <= m
    ensures Advance(h, k, m) == if h + k < m then h + k else h + k - m
    decreases k
  {
    if k > 0 {
      NextPos(h, m);
      AdvanceClosed((h + 1) % m, k - 1, m);
    }
  }

  /** Every position lies less than a full turn from any start. */
  lemma AdvanceReaches(h: nat, i: nat, m: nat) returns (k: nat)
    requires h < m && i < m
    ensures k < m && Advance(h, k, m) == i
  {
    k := if h <= i then i - h else i + m - h;
    AdvanceClosed(h, k, m);
  }

  // ---------------------------------------------------------------------
  // Creation
  // ---------------------------------------------------------------------

  /** A new pool satisfies the invariant over any valid file. */
  lemma InitEstablishesInv(numPages: int, strategy: Strategy, f: PageFile)
    requires numPages >= 1 && f.Valid()
    ensures Inv(InitBufferPool(numPages, strategy), f)
    ensures GetNumReadIO(InitBufferPool(numPages, strategy)) == 0
    ensures GetNumWriteIO(InitBufferPool(numPages, strategy)) == 0
    ensures forall i :: 0 <= i < numPages ==> GetFrameContents(InitBufferPool(numPages, strategy))[i] == NO_PAGE
  {
  }

  // ---------------------------------------------------------------------
  // The eviction loop on a full queue
  // ---------------------------------------------------------------------

  /** A full queue: every frame occupied and `head == tail`. */
  predicate Full(p: Pool, f: PageFile)
  {
    && Shape(p, f)
    && p.numEntries == |p.frames|
    && p.head == p.tail
    && forall i :: 0 <= i < |p.frames| ==> Occupied(p.frames[i]) && p.frames[i].fixCount >= 0
  }

  /** A full pool after frame `v` has been dequeued: the frame is clean and
      out of the queue, `head` has moved past it and `tail` points at it. */
  function Freed(p: Pool, v: nat): Pool
    requires v < |p.frames|
  {
    p.(frames := p.frames[v := p.frames[v].(dirty := false)],
       head := (v + 1) % |p.frames|,
       tail := v,
       numEntries := |p.frames| - 1)
  }

  /** Under the invariant the queue is empty exactly when no frame holds a
      page. */
  lemma QueueEmptyUnderInv(p: Pool, f: PageFile)
    requires Inv(p, f)
    ensures QueueEmpty(p) <==> forall i :: 0 <= i < |p.frames| ==> !Occupied(p.frames[i])
  {
    if !QueueEmpty(p) {
      assert Occupied(p.frames[0]);
    }
  }

  /** One dequeue on a full queue frees the head exactly when it is
      unpinned; otherwise it only rotates the queue. */
  lemma DequeueFull(p: Pool, f: PageFile)
    requires Full(p, f)
    ensures var d := Dequeue(p, f);
            && d.victim == p.head
            && (d.evicted <==> p.frames[p.head].fixCount == 0)
            && (d.evicted ==>
                  && d.pool == Freed(p, p.head)
                  && d.file == WriteBlock(f, p.frames[p.head].pageNum, p.frames[p.head].contents).file)
            && (!d.evicted ==>
                  && d.file == f
                  && d.pool == p.(head := (p.head + 1) % |p.frames|, tail := (p.head + 1) % |p.frames|)
                  && Full(d.pool, f))
  {
  }

  /** On a full queue the loop either frees an unpinned frame, writing it
      back, or fails having found the `|frames| + 2 - attempts` frames it
      tried, in queue order, all pinned, leaving the frames and the file
      alone.  The frame freed is the first unpinned one met going round the
      queue from `head`: it lies `k` steps from `head` and every frame fewer
      steps away is pinned. */
  lemma {:induction false} EvictLoopFull(p: Pool, f: PageFile, attempts: nat) returns (k: nat)
    requires Full(p, f)
    requires attempts <= |p.frames| + 1
    ensures var e := EvictLoop(p, f, attempts);
            e.evicted ==>
              && e.victim < |p.frames|
              && p.frames[e.victim].fixCount == 0
              && e.pool == Freed(p, e.victim)
              && e.file == WriteBlock(f, p.frames[e.victim].pageNum, p.frames[e.victim].contents).file
    ensures var e := EvictLoop(p, f, attempts);
            e.evicted ==>
              && k < |p.frames| + 2 - attempts
              && e.victim == Advance(p.head, k, |p.frames|)
              && forall j :: 0 <= j < k ==> p.frames[Advance(p.head, j, |p.frames|)].fixCount > 0
    ensures var e := EvictLoop(p, f, attempts);
            !e.evicted ==>
              && e.file == f
              && Full(e.pool, f)
              && e.pool == p.(head := e.pool.head, tail := e.pool.tail)
    ensures var e := EvictLoop(p, f, attempts);
            !e.evicted ==>
              forall j :: 0 <= j < |p.frames| + 2 - attempts ==>
                p.frames[Advance(p.head, j, |p.frames|)].fixCount > 0
    ensures p.frames[p.head].fixCount == 0 ==>
              EvictLoop(p, f, attempts).evicted && EvictLoop(p, f, attempts).victim == p.head
    decreases |p.frames| + 1 - attempts
  {
    var m := |p.frames|;
    DequeueFull(p, f);
    var d := Dequeue(p, f);
    var e := EvictLoop(p, f, attempts);
    k := 0;
    if d.evicted {
      assert e == d;
    } else if attempts > m {
      assert e == d;
      assert Advance(p.head, 0, m) == p.head;
    } else {
      assert e == EvictLoop(d.pool, d.file, attempts + 1);
      var k1 := EvictLoopFull(d.pool, f, attempts + 1);
      k := k1 + 1;
      if e.evicted {
        assert Freed(d.pool, e.victim) == Freed(p, e.victim);
        assert Advance(p.head, k, m) == Advance(d.pool.head, k1, m);
      }
      forall j | 0 <= j < m + 2 - attempts && (!e.evicted || j < k)
        ensures p.frames[Advance(p.head, j, m)].fixCount > 0
      {
        if j > 0 {
          assert Advance(p.head, j, m) == Advance(d.pool.head, j - 1, m);
        }
      }
    }
  }

  /** On a full queue, eviction succeeds exactly when some frame is unpinned. */
  lemma EvictSucceedsIffUnpinned(p: Pool, f: PageFile)
    requires Full(p, f)
    ensures EvictLoop(p, f, 0).evicted <==> exists i :: 0 <= i < |p.frames| && p.frames[i].fixCount == 0
  {
    var m := |p.frames|;
    var k := EvictLoopFull(p, f, 0);
    var e := EvictLoop(p, f, 0);
    if !e.evicted {
      forall i | 0 <= i < m
        ensures p.frames[i].fixCount > 0
      {
        var k := AdvanceReaches(p.head, i, m);
      }
    }
  }

  // ---------------------------------------------------------------------
  // Pinning
  // ---------------------------------------------------------------------

  /** The invariant survives any growth of the file and any move of its
      current position. */
  lemma InvGrow(p: Pool, f: PageFile, g: PageFile)
    requires Inv(p, f)
    requires g.Valid() && f.totalNumPages <= g.totalNumPages
    ensures Inv(p, g)
  {
    forall i | 0 <= i < |p.frames|
      ensures FrameOk(p.frames[i], g)
    {
      assert FrameOk(p.frames[i], f);
    }
  }

  /** What the frame scan finds in a pool that satisfies the invariant: the
      frame of a cached page, else the first empty frame (at `numEntries`),
      else nothing. */
  lemma ScanUnderInv(p: Pool, f: PageFile, pageNum: int)
    requires Inv(p, f) && pageNum >= 0
    ensures var s := ScanFrom(p.frames, pageNum, 0);
            && (Cached(p, pageNum) ==> s < |p.frames| && p.frames[s].pageNum == pageNum && Occupied(p.frames[s]))
            && (!Cached(p, pageNum) && p.numEntries < |p.frames| ==> s == p.numEntries)
            && (!Cached(p, pageNum) && p.numEntries == |p.frames| ==> s == |p.frames|)
  {
    var s := ScanFrom(p.frames, pageNum, 0);
    if Cached(p, pageNum) {
      var i :| 0 <= i < |p.frames| && Occupied(p.frames[i]) && p.frames[i].pageNum == pageNum;
      assert i < p.numEntries;
      assert forall j :: 0 <= j < i ==> p.frames[j].pageNum != pageNum && Occupied(p.frames[j]);
    } else {
      assert forall j :: 0 <= j < |p.frames| ==> !(Occupied(p.frames[j]) && p.frames[j].pageNum == pageNum);
      if p.numEntries < |p.frames| {
        assert !Occupied(p.frames[p.numEntries]);
      }
    }
  }

  /** Under the invariant, LRU pinning is defined exactly when the page is
      cached, a frame is empty, or the page number is negative. */
  lemma LruDefinedUnderInv(p: Pool, f: PageFile, pageNum: int)
    requires Inv(p, f)
    ensures LruDefined(p, pageNum) <==> (pageNum < 0 || Cached(p, pageNum) || p.numEntries < |p.frames|)
  {
    if pageNum >= 0 {
      ScanUnderInv(p, f, pageNum);
    }
  }

  /** The file after the read of a pin: grown to `pageNum + 1` pages and
      positioned on `pageNum`. */
  function PinnedFile(f: PageFile, pageNum: int): (g: PageFile)
    requires f.Valid() && pageNum >= 0
    ensures g.Valid()
    ensures g.totalNumPages == if pageNum < f.totalNumPages then f.totalNumPages else pageNum + 1
  {
    EnsureCapacity(f, pageNum + 1).file.(curPagePos := pageNum)
  }

  /** Pinning a cached page raises that frame's fix count and nothing else:
      no other frame changes, no counter moves, the file only re-reads the
      page; the invariant is kept. */
  lemma PinHit(p: Pool, f: PageFile, h: PageHandle, pageNum: int, i: nat)
    requires Inv(p, f) && p.strategy != Other
    requires i < |p.frames| && Occupied(p.frames[i]) && p.frames[i].pageNum == pageNum
    ensures p.strategy == Lru ==> LruDefined(p, pageNum)
    ensures var r := PinPage(p, f, h, pageNum);
            && r.rc == Ok
            && r.page == PageHandle(pageNum, p.frames[i].contents)
            && r.pool == p.(frames := p.frames[i := p.frames[i].(fixCount := p.frames[i].fixCount + 1)])
            && r.file == f.(curPagePos := pageNum)
            && GetNumReadIO(r.pool) == GetNumReadIO(p)
            && Inv(r.pool, r.file)
  {
    assert FrameOk(p.frames[i], f);
    ScanUnderInv(p, f, pageNum);
    var r := PinPage(p, f, h, pageNum);
    InvGrow(p, f, r.file);
    assert forall j :: 0 <= j < |p.frames| ==> FrameOk(p.frames[j], r.file) && FrameOk(r.pool.frames[j], r.file);
  }

  /** Pinning an uncached page while a frame is empty stores it, clean and
      pinned once, in the first empty frame (the tail), and counts one read;
      the invariant is kept. */
  lemma PinFill(p: Pool, f: PageFile, h: PageHandle, pageNum: int)
    requires Inv(p, f) && p.strategy != Other
    requires pageNum >= 0 && !Cached(p, pageNum) && p.numEntries < |p.frames|
    ensures p.strategy == Lru ==> LruDefined(p, pageNum)
    ensures var r := PinPage(p, f, h, pageNum);
            var g := PinnedFile(f, pageNum);
            && r.rc == Ok
            && r.page == PageHandle(pageNum, g.pages[pageNum])
            && p.tail == p.numEntries
            && r.pool == p.(frames := p.frames[p.numEntries := Frame(pageNum, false, 1, g.pages[pageNum])],
                            numEntries := p.numEntries + 1,
                            tail := (p.numEntries + 1) % |p.frames|,
                            numRead := p.numRead + 1)
            && r.file == g
            && Inv(r.pool, r.file)
  {
    ScanUnderInv(p, f, pageNum);
    var r := PinPage(p, f, h, pageNum);
    InvGrow(p, f, r.file);
    NextPos(p.numEntries, |p.frames|);
    assert forall j :: 0 <= j < |p.frames| ==> FrameOk(p.frames[j], r.file) && FrameOk(r.pool.frames[j], r.file);
  }

  /** Under the invariant, a full pool is a full queue over any file at
      least as long. */
  lemma InvFull(p: Pool, f: PageFile, g: PageFile)
    requires Inv(p, f) && p.numEntries == |p.frames|
    requires g.Valid() && f.totalNumPages <= g.totalNumPages
    ensures Full(p, g)
  {
    InvShape(p, f, g);
    assert forall j :: 0 <= j < |p.frames| ==> FrameOk(p.frames[j], f);
  }

  /** Putting an uncached page into frame `v` of a full pool, pinned once,
      keeps the invariant. */
  lemma ReplaceKeepsInv(p: Pool, f: PageFile, g: PageFile, v: nat, pageNum: int, data: seq<byte>, numRead: nat)
    requires Inv(p, f) && p.numEntries == |p.frames|
    requires g.Valid() && f.totalNumPages <= g.totalNumPages
    requires 0 <= pageNum < g.totalNumPages && |data| == PAGE_SIZE && !Cached(p, pageNum)
    requires v < |p.frames|
    ensures Inv(p.(frames := p.frames[v := Frame(pageNum, false, 1, data)],
                   head := (v + 1) % |p.frames|,
                   tail := (v + 1) % |p.frames|,
                   numRead := numRead), g)
  {
    InvGrow(p, f, g);
    var frames := p.frames[v := Frame(pageNum, false, 1, data)];
    assert forall j :: 0 <= j < |p.frames| ==> FrameOk(p.frames[j], g);
    assert forall j :: 0 <= j < |p.frames| ==> FrameOk(frames[j], g) && Occupied(frames[j]);
  }

  /** Pinning an uncached page into a full pool with an unpinned frame evicts
      the first unpinned frame `v` going round the queue from `head` (`k`
      steps from it, every frame before it pinned): its page is
      written back to the file whether dirty or not, uncounted, and the new
      page takes its place, counted as one read; the invariant is kept. */
  lemma PinEvict(p: Pool, f: PageFile, h: PageHandle, pageNum: int) returns (v: nat, k: nat)
    requires Inv(p, f) && p.strategy == Fifo
    requires pageNum >= 0 && !Cached(p, pageNum) && p.numEntries == |p.frames|
    requires exists i :: 0 <= i < |p.frames| && p.frames[i].fixCount == 0
    ensures v < |p.frames| && p.frames[v].fixCount == 0
    ensures p.frames[p.head].fixCount == 0 ==> v == p.head
    ensures v == Advance(p.head, k, |p.frames|)
    ensures forall j :: 0 <= j < k ==> p.frames[Advance(p.head, j, |p.frames|)].fixCount > 0
    ensures var r := PinPage(p, f, h, pageNum);
            var g := PinnedFile(f, pageNum);
            && r.rc == Ok
            && r.page == PageHandle(pageNum, g.pages[pageNum])
            && r.pool == p.(frames := p.frames[v := Frame(pageNum, false, 1, g.pages[pageNum])],
                            head := (v + 1) % |p.frames|,
                            tail := (v + 1) % |p.frames|,
                            numRead := p.numRead + 1)
            && r.file == WriteBlock(g, p.frames[v].pageNum, p.frames[v].contents).file
    ensures Inv(PinPage(p, f, h, pageNum).pool, PinPage(p, f, h, pageNum).file)
  {
    ScanUnderInv(p, f, pageNum);
    var g := PinnedFile(f, pageNum);
    InvFull(p, f, g);
    k := EvictLoopFull(p, g, 0);
    EvictSucceedsIffUnpinned(p, g);
    var e := EvictLoop(p, g, 0);
    v := e.victim;
    var nf := Frame(pageNum, false, 1, g.pages[pageNum]);
    assert p.frames[v := p.frames[v].(dirty := false)][v := nf] == p.frames[v := nf];
    var r := PinPage(p, f, h, pageNum);
    assert r == FifoPin(p, f, h, pageNum);
    ReplaceKeepsInv(p, f, r.file, v, pageNum, g.pages[pageNum], p.numRead + 1);
  }

  /** Pinning an uncached page into a full pool whose frames are all pinned
      fails: no frame changes, the queue is only rotated, and the file has
      still been grown and positioned on the page. */
  lemma PinAllPinned(p: Pool, f: PageFile, h: PageHandle, pageNum: int)
    requires Inv(p, f) && p.strategy == Fifo
    requires pageNum >= 0 && !Cached(p, pageNum) && p.numEntries == |p.frames|
    requires forall i :: 0 <= i < |p.frames| ==> p.frames[i].fixCount > 0
    ensures var r := PinPage(p, f, h, pageNum);
            && r.rc == FileNotFound
            && r.pool == p.(head := r.pool.head, tail := r.pool.tail)
            && r.pool.head == r.pool.tail
            && r.file == PinnedFile(f, pageNum)
            && Inv(r.pool, r.file)
  {
    ScanUnderInv(p, f, pageNum);
    var g := PinnedFile(f, pageNum);
    InvGrow(p, f, g);
    InvShape(p, g, g);
    var k := EvictLoopFull(p, g, 0);
    EvictSucceedsIffUnpinned(p, g);
  }

  /** Every pin keeps the pool invariant. */
  lemma PinPreservesInv(p: Pool, f: PageFile, h: PageHandle, pageNum: int)
    requires Inv(p, f)
    requires p.strategy == Lru ==> LruDefined(p, pageNum)
    ensures Inv(PinPage(p, f, h, pageNum).pool, PinPage(p, f, h, pageNum).file)
  {
    if pageNum < 0 || p.strategy == Other {
      return;
    }
    if Cached(p, pageNum) {
      var i :| 0 <= i < |p.frames| && Occupied(p.frames[i]) && p.frames[i].pageNum == pageNum;
      PinHit(p, f, h, pageNum, i);
    } else if p.numEntries < |p.frames| {
      PinFill(p, f, h, pageNum);
    } else {
      LruDefinedUnderInv(p, f, pageNum);
      if exists i :: 0 <= i < |p.frames| && p.frames[i].fixCount == 0 {
        var v, k := PinEvict(p, f, h, pageNum);
      } else {
        PinAllPinned(p, f, h, pageNum);
      }
    }
  }

  /** A pin counts one read exactly when it succeeds on a page no frame
      held; it never counts a write, not even the write-back of a victim. */
  lemma PinCountsIo(p: Pool, f: PageFile, h: PageHandle, pageNum: int)
    requires Inv(p, f)
    requires p.strategy == Lru ==> LruDefined(p, pageNum)
    ensures var r := PinPage(p, f, h, pageNum);
            && GetNumReadIO(r.pool) == GetNumReadIO(p) + (if r.rc == Ok && !Cached(p, pageNum) then 1 else 0)
            && GetNumWriteIO(r.pool) == GetNumWriteIO(p)
  {
    if pageNum < 0 || p.strategy == Other {
      return;
    }
    if Cached(p, pageNum) {
      var i :| 0 <= i < |p.frames| && Occupied(p.frames[i]) && p.frames[i].pageNum == pageNum;
      PinHit(p, f, h, pageNum, i);
    } else if p.numEntries < |p.frames| {
      PinFill(p, f, h, pageNum);
    } else {
      LruDefinedUnderInv(p, f, pageNum);
      if exists i :: 0 <= i < |p.frames| && p.frames[i].fixCount == 0 {
        var v, k := PinEvict(p, f, h, pageNum);
      } else {
        PinAllPinned(p, f, h, pageNum);
      }
    }
  }

  lemma PinnedNeverEvicted(p: Pool, f: PageFile, h: PageHandle, pageNum: int)
    requires Inv(p, f)
    requires p.strategy == Lru ==> LruDefined(p, pageNum)
    ensures |PinPage(p, f, h, pageNum).pool.frames| == |p.frames|
    ensures forall i :: 0 <= i < |p.frames| && p.frames[i].fixCount > 0 ==>
              var fr := PinPage(p, f, h, pageNum).pool.frames[i];
              && fr.pageNum == p.frames[i].pageNum
              && fr.contents == p.frames[i].contents
              && fr.fixCount >= p.frames[i].fixCount
  {
    if pageNum < 0 || p.strategy == Other {
      return;
    }
    if Cached(p, pageNum) {
      var i :| 0 <= i < |p.frames| && Occupied(p.frames[i]) && p.frames[i].pageNum == pageNum;
      PinHit(p, f, h, pageNum, i);
    } else if p.numEntries < |p.frames| {
      PinFill(p, f, h, pageNum);
    } else {
      LruDefinedUnderInv(p, f, pageNum);
      if exists i :: 0 <= i < |p.frames| && p.frames[i].fixCount == 0 {
        var v, k := PinEvict(p, f, h, pageNum);
      } else {
        PinAllPinned(p, f, h, pageNum);
      }
    }
  }

  /** Pinning page `pageNum >= 0` leaves the file with at least
      `pageNum + 1` pages, grown to exactly that many when it was shorter,
      the new pages all zero. */
  lemma PinGrowsFile(p: Pool, f: PageFile, h: PageHandle, pageNum: int)
    requires Inv(p, f) && p.strategy != Other
    requires p.strategy == Lru ==> LruDefined(p, pageNum)
    requires pageNum >= 0
    ensures var r := PinPage(p, f, h, pageNum);
            && r.file.totalNumPages == (if pageNum < f.totalNumPages then f.totalNumPages else pageNum + 1)
            && forall k :: f.totalNumPages <= k < r.file.totalNumPages ==> IsZero(r.file.pages[k])
  {
    var r := PinPage(p, f, h, pageNum);
    var g := PinnedFile(f, pageNum);
    if Cached(p, pageNum) {
      var i :| 0 <= i < |p.frames| && Occupied(p.frames[i]) && p.frames[i].pageNum == pageNum;
      PinHit(p, f, h, pageNum, i);
    } else if p.numEntries < |p.frames| {
      PinFill(p, f, h, pageNum);
    } else {
      LruDefinedUnderInv(p, f, pageNum);
      if exists i :: 0 <= i < |p.frames| && p.frames[i].fixCount == 0 {
        var v, k := PinEvict(p, f, h, pageNum);
        assert FrameOk(p.frames[v], f);
      } else {
        PinAllPinned(p, f, h, pageNum);
      }
    }
  }

  /** Pinning a cached page and unpinning it again restores the pool. */
  lemma PinThenUnpin(p: Pool, f: PageFile, h: PageHandle, pageNum: int, i: nat)
    requires Inv(p, f) && p.strategy != Other
    requires i < |p.frames| && Occupied(p.frames[i]) && p.frames[i].pageNum == pageNum
    ensures p.strategy == Lru ==> LruDefined(p, pageNum)
    ensures UnpinPage(PinPage(p, f, h, pageNum).pool, pageNum).pool == p
  {
    PinHit(p, f, h, pageNum, i);
    var q := UnpinPage(PinPage(p, f, h, pageNum).pool, pageNum).pool;
    forall j | 0 <= j < |p.frames|
      ensures q.frames[j] == p.frames[j]
    {
      assert FrameOk(p.frames[j], f);
    }
  }

  /** Pinning an uncached page twice into a pool with an empty frame leaves
      it in one frame with fix count 2, read from the file once. */
  lemma PinTwice(p: Pool, f: PageFile, h: PageHandle, pageNum: int)
    requires Inv(p, f) && p.strategy != Other
    requires pageNum >= 0 && !Cached(p, pageNum) && p.numEntries < |p.frames|
    ensures p.strategy == Lru ==> LruDefined(p, pageNum)
    ensures var r1 := PinPage(p, f, h, pageNum);
            && Inv(r1.pool, r1.file)
            && (r1.pool.strategy == Lru ==> LruDefined(r1.pool, pageNum))
            && var r2 := PinPage(r1.pool, r1.file, r1.page, pageNum);
               && r2.rc == Ok
               && r2.pool.frames[p.numEntries].pageNum == pageNum
               && r2.pool.frames[p.numEntries].fixCount == 2
               && GetNumReadIO(r2.pool) == GetNumReadIO(p) + 1
  {
    PinFill(p, f, h, pageNum);
    PinPreservesInv(p, f, h, pageNum);
    var r1 := PinPage(p, f, h, pageNum);
    PinHit(r1.pool, r1.file, r1.page, pageNum, p.numEntries);
  }

  // ---------------------------------------------------------------------
  // Unpin and dirty marking
  // ---------------------------------------------------------------------

  /** Unpinning keeps the invariant, so fix counts never go negative. */
  lemma UnpinPreservesInv(p: Pool, f: PageFile, pageNum: int)
    requires Inv(p, f)
    ensures Inv(UnpinPage(p, pageNum).pool, f)
    ensures forall i :: 0 <= i < |p.frames| ==> GetFixCounts(UnpinPage(p, pageNum).pool)[i] >= 0
  {
    var q := UnpinPage(p, pageNum).pool;
    assert forall i :: 0 <= i < |p.frames| ==> FrameOk(p.frames[i], f) && FrameOk(q.frames[i], f);
  }

  /** Marking a cached page dirty sets the flag of exactly its frame; the
      invariant is kept.  An absent page or `NO_PAGE` changes nothing. */
  lemma MarkDirtyEffect(p: Pool, f: PageFile, pageNum: int)
    requires Inv(p, f)
    ensures Inv(MarkDirty(p, pageNum).pool, f)
    ensures var q := MarkDirty(p, pageNum).pool;
            && |q.frames| == |p.frames|
            && forall i :: 0 <= i < |p.frames| ==>
                 && q.frames[i] == p.frames[i].(dirty := q.frames[i].dirty)
                 && q.frames[i].dirty == (p.frames[i].dirty || (Occupied(p.frames[i]) && p.frames[i].pageNum == pageNum))
  {
    var q := MarkDirty(p, pageNum).pool;
    if Cached(p, pageNum) {
      var i := IndexFrom(p.frames, pageNum, 0);
      assert Occupied(p.frames[i]);
      assert forall j :: 0 <= j < |p.frames| ==> FrameOk(p.frames[j], f) && FrameOk(q.frames[j], f);
    }
  }

  // ---------------------------------------------------------------------
  // Forced writes, flush and shutdown
  // ---------------------------------------------------------------------

  /** Forcing a cached page writes its frame to the file, marks it clean and
      counts one write; nothing else changes. */
  lemma ForcePageCached(p: Pool, f: PageFile, pageNum: int, i: nat)
    requires Inv(p, f)
    requires i < |p.frames| && Occupied(p.frames[i]) && p.frames[i].pageNum == pageNum
    ensures var r := ForcePage(p, f, pageNum);
            && r.rc == Ok
            && r.pool == p.(frames := p.frames[i := p.frames[i].(dirty := false)], numWritten := p.numWritten + 1)
            && r.file == WriteBlock(f, pageNum, p.frames[i].contents).file
            && r.file.pages[pageNum] == p.frames[i].contents
            && Inv(r.pool, r.file)
  {
    var j := IndexFrom(p.frames, pageNum, 0);
    assert j == i;
    assert FrameOk(p.frames[i], f);
    var r := ForcePage(p, f, pageNum);
    assert forall k :: 0 <= k < |p.frames| ==> FrameOk(p.frames[k], f) && FrameOk(r.pool.frames[k], r.file);
  }

  /** Forcing a page number no frame carries fails and changes nothing. */
  lemma ForcePageAbsent(p: Pool, f: PageFile, pageNum: int)
    requires Inv(p, f)
    requires forall i :: 0 <= i < |p.frames| ==> p.frames[i].pageNum != pageNum
    ensures ForcePage(p, f, pageNum) == IoOutcome(FileNotFound, p, f)
  {
  }

  /** Forcing `NO_PAGE` while a frame is empty matches that frame: the write
      is refused by the seek, yet the call succeeds and counts a write. */
  lemma ForceEmptyFrame(p: Pool, f: PageFile)
    requires Inv(p, f)
    requires p.numEntries < |p.frames|
    ensures var r := ForcePage(p, f, NO_PAGE);
            && r.rc == Ok
            && r.file == f
            && r.pool.frames == p.frames
            && GetNumWriteIO(r.pool) == GetNumWriteIO(p) + 1
  {
    var j := IndexFrom(p.frames, NO_PAGE, 0);
    assert !Occupied(p.frames[p.numEntries]);
    assert j <= p.numEntries;
    assert FrameOk(p.frames[j], f);
  }

  lemma {:induction false} CountDirtyAgree(a: seq<Frame>, b: seq<Frame>, i: nat)
    requires i <= |a| == |b|
    requires forall j :: i <= j < |a| ==> a[j].dirty == b[j].dirty
    ensures CountDirty(a, i) == CountDirty(b, i)
    decreases |a| - i
  {
    if i < |a| {
      CountDirtyAgree(a, b, i + 1);
    }
  }

  /** The flush loop from `i` on clears the dirty flag of every frame from
      `i` on, changes nothing else in the frames, and counts one write per
      dirty frame. */
  lemma {:induction false} FlushFromFrames(p: Pool, f: PageFile, i: nat)
    requires f.Valid() && Writable(p.frames, f) && i <= |p.frames|
    ensures var r := FlushFrom(p, f, i);
            && r.pool == p.(frames := r.pool.frames, numWritten := p.numWritten + CountDirty(p.frames, i))
            && (forall j :: 0 <= j < i ==> r.pool.frames[j] == p.frames[j])
            && (forall j :: i <= j < |p.frames| ==> r.pool.frames[j] == p.frames[j].(dirty := false))
            && r.file.curPagePos == f.curPagePos
    decreases |p.frames| - i
  {
    if i < |p.frames| {
      if p.frames[i].dirty {
        var fr := p.frames[i];
        var w := WriteBlock(f, fr.pageNum, fr.contents);
        var q := p.(frames := p.frames[i := fr.(dirty := false)], numWritten := p.numWritten + 1);
        FlushFromFrames(q, w.file, i + 1);
        CountDirtyAgree(q.frames, p.frames, i + 1);
      } else {
        FlushFromFrames(p, f, i + 1);
      }
    }
  }

  /** Dirty frames carry distinct page numbers. */
  predicate DirtyDistinct(frames: seq<Frame>)
  {
    forall i, j :: 0 <= i < |frames| && 0 <= j < |frames| && i != j && frames[i].dirty && frames[j].dirty ==>
      frames[i].pageNum != frames[j].pageNum
  }

  /** Some dirty frame at or after `i` holds page `k`. */
  predicate DirtyHolds(frames: seq<Frame>, i: nat, k: int)
  {
    exists j :: i <= j < |frames| && frames[j].dirty && frames[j].pageNum == k
  }

  /** After the flush loop from `i`, the file holds the bytes of every dirty
      frame from `i` on at that frame's page, and every other page is as it
      was. */
  lemma {:induction false} FlushFromFile(p: Pool, f: PageFile, i: nat)
    requires f.Valid() && Writable(p.frames, f) && i <= |p.frames|
    requires DirtyDistinct(p.frames)
    ensures var r := FlushFrom(p, f, i);
            && (forall j :: i <= j < |p.frames| && p.frames[j].dirty && 0 <= p.frames[j].pageNum < f.totalNumPages ==>
                  r.file.pages[p.frames[j].pageNum] == p.frames[j].contents)
            && (forall k :: 0 <= k < |f.pages| && !DirtyHolds(p.frames, i, k) ==> r.file.pages[k] == f.pages[k])
    decreases |p.frames| - i
  {
    if i < |p.frames| {
      if p.frames[i].dirty {
        var fr := p.frames[i];
        var w := WriteBlock(f, fr.pageNum, fr.contents);
        var q := p.(frames := p.frames[i := fr.(dirty := false)], numWritten := p.numWritten + 1);
        assert DirtyDistinct(q.frames);
        FlushFromFile(q, w.file, i + 1);
        var r := FlushFrom(p, f, i);
        assert r == FlushFrom(q, w.file, i + 1);
        forall j | i <= j < |p.frames| && p.frames[j].dirty && 0 <= p.frames[j].pageNum < f.totalNumPages
          ensures r.file.pages[p.frames[j].pageNum] == p.frames[j].contents
        {
          if j == i {
            assert !DirtyHolds(q.frames, i + 1, fr.pageNum);
          } else {
            assert q.frames[j] == p.frames[j];
          }
        }
        forall k | 0 <= k < |f.pages| && !DirtyHolds(p.frames, i, k)
          ensures r.file.pages[k] == f.pages[k]
        {
          forall j | i + 1 <= j < |q.frames|
            ensures !(q.frames[j].dirty && q.frames[j].pageNum == k)
          {
            assert q.frames[j] == p.frames[j];
          }
        }
      } else {
        FlushFromFile(p, f, i + 1);
        var r := FlushFrom(p, f, i);
        forall k | 0 <= k < |f.pages| && !DirtyHolds(p.frames, i, k)
          ensures r.file.pages[k] == f.pages[k]
        {
          assert forall j :: i + 1 <= j < |p.frames| ==> !(p.frames[j].dirty && p.frames[j].pageNum == k);
        }
      }
    }
  }

  /** Flushing writes back every dirty frame, pinned or not: afterwards no
      frame is dirty, the write counter has risen by the number of dirty
      frames, each dirty frame's bytes are on its page, every page no dirty
      frame held is unchanged, and the invariant holds. */
  lemma ForceFlushPoolEffect(p: Pool, f: PageFile)
    requires Inv(p, f)
    ensures var r := ForceFlushPool(p, f);
            && r.rc == Ok
            && r.pool == p.(frames := r.pool.frames, numWritten := p.numWritten + CountDirty(p.frames, 0))
            && (forall j :: 0 <= j < |p.frames| ==> r.pool.frames[j] == p.frames[j].(dirty := false))
            && (forall j :: 0 <= j < |p.frames| ==> !GetDirtyFlags(r.pool)[j])
            && (forall j :: 0 <= j < |p.frames| && p.frames[j].dirty ==>
                  r.file.pages[p.frames[j].pageNum] == p.frames[j].contents)
            && (forall k :: 0 <= k < |f.pages| && !DirtyHolds(p.frames, 0, k) ==> r.file.pages[k] == f.pages[k])
            && Inv(r.pool, r.file)
  {
    InvShape(p, f, f);
    FlushFromFrames(p, f, 0);
    assert forall j :: 0 <= j < |p.frames| ==> FrameOk(p.frames[j], f);
    assert DirtyDistinct(p.frames);
    FlushFromFile(p, f, 0);
    var r := ForceFlushPool(p, f);
    assert forall j :: 0 <= j < |p.frames| ==> FrameOk(r.pool.frames[j], r.file);
  }

  /** Shutdown flushes first, so every dirty flag is cleared even when it
      fails; it fails exactly when some frame is still pinned, keeping the
      pool, and otherwise releases it. */
  lemma ShutdownEffect(p: Pool, f: PageFile)
    requires Inv(p, f)
    ensures var r := ShutdownBufferPool(p, f);
            && (r.rc == PageNotFound <==> AnyPinned(p.frames))
            && (r.rc == Ok <==> !AnyPinned(p.frames))
            && (r.rc == Ok ==> r.pool.None?)
            && (r.rc == PageNotFound ==>
                  && r.pool.Some?
                  && Inv(r.pool.value, r.file)
                  && forall j :: 0 <= j < |p.frames| ==> !GetDirtyFlags(r.pool.value)[j])
  {
    ForceFlushPoolEffect(p, f);
    var fl := ForceFlushPool(p, f);
    assert forall j :: 0 <= j < |p.frames| ==> fl.pool.frames[j].fixCount == p.frames[j].fixCount;
    if AnyPinned(p.frames) {
      var i :| 0 <= i < |p.frames| && p.frames[i].fixCount > 0;
      assert fl.pool.frames[i].fixCount > 0;
    }
  }
}
