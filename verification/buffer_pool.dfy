/** The buffer pool manager (src/buffer/buffer_pool_manager.cpp): a fixed array of frames,
    a page table from resident page ids to frames, a FIFO free list of frames that hold no
    page, and a clock replacer that tracks the resident frames nobody has pinned.

    Every operation is a pure transition from one pool state to the next; a returned
    frame index stands for the `Page *` the source returns, and `None` for `nullptr`. */
module BufferPool {
  import opened Wrappers
  import opened DiskManager
  import CR = ClockReplacer

  type FrameId = nat

  /** One slot of the frame array: the `Page` object the pool owns. */
  datatype Frame = Frame(pageId: PageId, pinCount: nat, isDirty: bool, data: Data)

  datatype Pool = Pool(
    frames: seq<Frame>,
    pageTable: map<PageId, FrameId>,
    freeList: seq<FrameId>,
    replacer: CR.Clock,
    disk: Disk)

  /** The frame a freshly constructed `Page` is. */
  function EmptyFrame(): Frame {
    Frame(InvalidPageId, 0, false, ZeroPage())
  }

  // ---------------------------------------------------------------------------
  // Well-formedness and the pool invariant

  /** The shape every pool state has: the replacer is sized like the frame array and
      the page table and free list hold frame indices. Every operation keeps it. */
  ghost predicate WellFormed(p: Pool) {
    && CR.Valid(p.replacer) && CR.Capacity(p.replacer) == |p.frames|
    && (forall pid :: pid in p.pageTable ==> p.pageTable[pid] < |p.frames|)
    && (forall i :: 0 <= i < |p.freeList| ==> p.freeList[i] < |p.frames|)
  }

  /** Frame `f` holds a resident page: the page table maps the frame's page id to it. */
  ghost predicate IsResident(p: Pool, f: FrameId) {
    f < |p.frames| && p.frames[f].pageId in p.pageTable && p.pageTable[p.frames[f].pageId] == f
  }

  /** The page table agrees with the frames it points to (and so is injective). */
  ghost predicate TableConsistent(p: Pool)
    requires WellFormed(p)
  {
    forall pid :: pid in p.pageTable ==> p.frames[p.pageTable[pid]].pageId == pid
  }

  ghost predicate FreeListDistinct(p: Pool) {
    forall i, j :: 0 <= i < j < |p.freeList| ==> p.freeList[i] != p.freeList[j]
  }

  /** Every frame is either on the free list or resident, never both. */
  ghost predicate Partitioned(p: Pool) {
    forall f: FrameId :: f < |p.frames| ==> (f in p.freeList <==> !IsResident(p, f))
  }

  /** A free frame is unpinned, clean and not an eviction candidate. */
  ghost predicate FreeFramesIdle(p: Pool)
    requires WellFormed(p)
  {
    forall f: FrameId :: f < |p.frames| && f in p.freeList ==>
      p.frames[f].pinCount == 0 && !p.frames[f].isDirty && !p.replacer.inflag[f]
  }

  /** A resident frame is tracked by the replacer exactly when nobody pins it. */
  ghost predicate TrackedIffUnpinned(p: Pool)
    requires WellFormed(p)
  {
    forall f: FrameId :: IsResident(p, f) ==> (p.replacer.inflag[f] <==> p.frames[f].pinCount == 0)
  }

  /** The invariant of the pool: every frame is in exactly one of the states
      free, resident and pinned (untracked), resident and unpinned (tracked). */
  ghost predicate Valid(p: Pool) {
    && WellFormed(p)
    && TableConsistent(p)
    && FreeListDistinct(p)
    && Partitioned(p)
    && FreeFramesIdle(p)
    && TrackedIffUnpinned(p)
  }

  // ---------------------------------------------------------------------------
  // Construction

  /** The constructor: `n` empty frames, all of them on the free list in ascending
      order, an empty page table and an empty replacer. */
  function Init(n: nat, disk: Disk): (p: Pool)
    ensures Valid(p) && |p.frames| == n && p.disk == disk
    ensures |p.freeList| == n && forall i :: 0 <= i < n ==> p.freeList[i] == i
    ensures p.pageTable == map[]
    ensures CR.TrackedCount(p.replacer) == 0
  {
    var p := Pool(seq(n, _ => EmptyFrame()), map[], seq(n, i => i), CR.Init(n), disk);
    assert forall f: FrameId :: f < n ==> f == p.freeList[f] && f in p.freeList;
    p
  }

  // ---------------------------------------------------------------------------
  // Operations

  /** Bind frame `f` to the page `frame.pageId` and pin it: the last step of both
      `FetchPage` and `NewPage` once a frame has been found. */
  function Install(p: Pool, f: FrameId, frame: Frame): (p': Pool)
    requires WellFormed(p) && f < |p.frames|
    ensures WellFormed(p')
  {
    p.(frames := p.frames[f := frame],
       replacer := CR.Pin(p.replacer, f),
       pageTable := p.pageTable[frame.pageId := f])
  }

  /** `FlushPageImpl`: write a resident dirty page back to disk and mark it clean.
      Fails on a page that is not resident; a clean page needs no write. */
  function FlushPage(p: Pool, pid: PageId): (r: (bool, Pool))
    requires WellFormed(p)
    ensures WellFormed(r.1)
    ensures r.0 <==> pid in p.pageTable
  {
    if pid !in p.pageTable then
      (false, p)
    else
      var f := p.pageTable[pid];
      if !p.frames[f].isDirty then
        (true, p)
      else
        (true, p.(disk := WritePage(p.disk, pid, p.frames[f].data),
                  frames := p.frames[f := p.frames[f].(isDirty := false)]))
  }

  /** Reclaim a frame from the replacer when the free list is empty: ask the clock for a
      victim, write the victim's page back if it is dirty, and drop it from the page table.
      `None` when the replacer has no victim, or when the write-back finds the victim's page
      missing from the page table (a branch the pool invariant rules out). */
  function TakeVictim(p: Pool): (r: (Option<FrameId>, Pool))
    requires WellFormed(p)
    ensures WellFormed(r.1) && |r.1.frames| == |p.frames|
    ensures r.0.Some? ==> r.0.value < |p.frames|
  {
    var (victim, replacer) := CR.Victim(p.replacer);
    var p1 := p.(replacer := replacer);
    if victim.None? then
      (None, p1)
    else
      var f := victim.value;
      var evict := p1.frames[f].pageId;
      if p1.frames[f].isDirty then
        var (ok, p2) := FlushPage(p1, evict);
        if !ok then (None, p2)
        else (Some(f), p2.(pageTable := p2.pageTable - {evict}))
      else
        (Some(f), p1.(pageTable := p1.pageTable - {evict}))
  }

  /** `FetchPageImpl`: return the frame holding `pid`, pinned once more, loading the page
      from disk into a free or reclaimed frame when it is not resident. */
  function FetchPage(p: Pool, pid: PageId): (r: (Option<FrameId>, Pool))
    requires WellFormed(p)
    ensures WellFormed(r.1) && |r.1.frames| == |p.frames|
    ensures r.0.Some? ==> r.0.value < |p.frames|
  {
    if pid in p.pageTable then
      var f := p.pageTable[pid];
      (Some(f), p.(replacer := CR.Pin(p.replacer, f),
                   frames := p.frames[f := p.frames[f].(pinCount := p.frames[f].pinCount + 1)]))
    else if |p.freeList| > 0 then
      var f := p.freeList[0];
      var p1 := p.(freeList := p.freeList[1..]);
      var frame := p1.frames[f].(pinCount := p1.frames[f].pinCount + 1, pageId := pid,
                                 isDirty := false, data := ReadPage(p1.disk, pid));
      (Some(f), Install(p1, f, frame))
    else
      var (victim, p1) := TakeVictim(p);
      if victim.None? then
        (None, p1)
      else
        var f := victim.value;
        var frame := p1.frames[f].(pinCount := p1.frames[f].pinCount + 1, pageId := pid,
                                   isDirty := false, data := ReadPage(p1.disk, pid));
        (Some(f), Install(p1, f, frame))
  }

  /** `UnpinPageImpl`: release one pin. Unpinning a page that is not resident succeeds and
      does nothing; unpinning a page nobody pins fails and does nothing. The dirty flag is
      or-ed in, and the frame becomes an eviction candidate when its last pin goes. */
  function UnpinPage(p: Pool, pid: PageId, isDirty: bool): (r: (bool, Pool))
    requires WellFormed(p)
    ensures WellFormed(r.1) && |r.1.frames| == |p.frames|
  {
    if pid !in p.pageTable then
      (true, p)
    else
      var f := p.pageTable[pid];
      if p.frames[f].pinCount <= 0 then
        (false, p)
      else
        var frame := p.frames[f].(pinCount := p.frames[f].pinCount - 1,
                                  isDirty := p.frames[f].isDirty || isDirty);
        var replacer := if frame.pinCount == 0 then CR.Unpin(p.replacer, f) else p.replacer;
        (true, p.(frames := p.frames[f := frame], replacer := replacer))
  }

  /** `NewPageImpl`: allocate a fresh page id and bind it to a zeroed, pinned frame taken
      from the free list or reclaimed from the replacer. No page id is allocated when no
      frame can be found. */
  function NewPage(p: Pool): (r: (Option<(PageId, FrameId)>, Pool))
    requires WellFormed(p)
    ensures WellFormed(r.1) && |r.1.frames| == |p.frames|
    ensures r.0.Some? ==> r.0.value.1 < |p.frames|
  {
    if |p.freeList| > 0 then
      var f := p.freeList[0];
      var (pid, disk) := AllocatePage(p.disk);
      var p1 := p.(freeList := p.freeList[1..], disk := disk);
      (Some((pid, f)), Install(p1, f, Frame(pid, 1, false, ZeroPage())))
    else
      var (victim, p1) := TakeVictim(p);
      if victim.None? then
        (None, p1)
      else
        var f := victim.value;
        var (pid, disk) := AllocatePage(p1.disk);
        (Some((pid, f)), Install(p1.(disk := disk), f, Frame(pid, 1, false, ZeroPage())))
  }

  /** `DeletePageImpl` is an unimplemented stub in the source: it always fails and
      changes nothing. */
  function DeletePage(p: Pool, pid: PageId): (r: (bool, Pool))
    ensures !r.0 && r.1 == p
  {
    (false, p)
  }

  /** The loop of `FlushAllPagesImpl` from frame `i` on: flush the page of every dirty frame. */
  function FlushFrom(p: Pool, i: nat): (p': Pool)
    requires WellFormed(p) && i <= |p.frames|
    ensures WellFormed(p') && |p'.frames| == |p.frames|
    decreases |p.frames| - i
  {
    if i == |p.frames| then p
    else
      var p1 := if p.frames[i].isDirty then FlushPage(p, p.frames[i].pageId).1 else p;
      FlushFrom(p1, i + 1)
  }

  /** `FlushAllPagesImpl`. */
  function FlushAllPages(p: Pool): (p': Pool)
    requires WellFormed(p)
    ensures WellFormed(p') && |p'.frames| == |p.frames|
  {
    FlushFrom(p, 0)
  }
}
