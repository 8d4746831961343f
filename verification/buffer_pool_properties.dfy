/** What the buffer pool operations guarantee, stated over the model of the pool. */
module BufferPoolProperties {
  import opened Wrappers
  import opened DiskManager
  import CR = ClockReplacer
  import opened BufferPool

  /** Every frame of the pool is pinned by somebody. */
  ghost predicate AllPinned(p: Pool) {
    forall f :: 0 <= f < |p.frames| ==> p.frames[f].pinCount > 0
  }

  /** With a valid pool, the replacer tracks nothing exactly when no resident frame is
      unpinned; with an empty free list, exactly when every frame is pinned. */
  lemma NothingTrackedIffAllPinned(p: Pool)
    requires Valid(p) && |p.freeList| == 0
    ensures CR.NoneTracked(p.replacer) <==> AllPinned(p)
  {
    assert forall f: FrameId :: f < |p.frames| ==> IsResident(p, f);
  }

  /** Reclaiming a frame when the free list is empty: the victim is the frame the clock
      policy selects, it is resident and unpinned, its page is written back first when it
      is dirty, and only its page id leaves the page table. The write-back cannot fail. */
  lemma TakeVictimReclaims(p: Pool)
    requires Valid(p)
    ensures var (v, p1) := TakeVictim(p);
      && (v.None? <==> CR.NoneTracked(p.replacer))
      && (v.None? ==> p1 == p)
      && (v.Some? ==>
            var f := v.value;
            var prior := p.frames[f];
            && f < |p.frames| && IsResident(p, f) && prior.pinCount == 0
            && CR.ClockSweep(p.replacer, v, p1.replacer)
            && p1.pageTable == p.pageTable - {prior.pageId}
            && p1.freeList == p.freeList
            && p1.disk == (if prior.isDirty then WritePage(p.disk, prior.pageId, prior.data) else p.disk)
            && p1.frames == p.frames[f := prior.(isDirty := false)])
  {
    var (v, rep) := CR.Victim(p.replacer);
    if v.Some? {
      var f := v.value;
      assert p.replacer.inflag[f];
      assert f !in p.freeList;
      assert IsResident(p, f);
      var prior := p.frames[f];
      if !prior.isDirty {
        assert p.frames[f := prior.(isDirty := false)] == p.frames;
      }
    }
  }

  /** Frames other than `f` are the same in both states. */
  ghost predicate OtherFramesUnchanged(p: Pool, p': Pool, f: FrameId) {
    |p'.frames| == |p.frames| && forall g :: 0 <= g < |p.frames| && g != f ==> p'.frames[g] == p.frames[g]
  }

  // ---------------------------------------------------------------------------
  // FetchPage

  /** Fetching a resident page pins its frame once more and untracks it; no disk I/O,
      and the page table and free list stay as they are. */
  lemma FetchResident(p: Pool, pid: PageId)
    requires Valid(p) && pid in p.pageTable
    ensures var (r, p') := FetchPage(p, pid);
      var f := p.pageTable[pid];
      && r == Some(f)
      && p'.frames[f].pinCount == p.frames[f].pinCount + 1
      && p'.frames[f].pageId == pid
      && p'.frames[f].isDirty == p.frames[f].isDirty
      && p'.frames[f].data == p.frames[f].data
      && OtherFramesUnchanged(p, p', f)
      && !p'.replacer.inflag[f]
      && (forall g :: 0 <= g < |p.frames| && g != f ==> p'.replacer.inflag[g] == p.replacer.inflag[g])
      && p'.replacer.reflag == p.replacer.reflag && p'.replacer.hand == p.replacer.hand
      && p'.pageTable == p.pageTable && p'.freeList == p.freeList && p'.disk == p.disk
  {
  }

  /** Fetching a page that is not resident while a frame is free: the front of the free
      list is taken and bound to the page with one pin, clean, holding the disk image. */
  lemma FetchFromFreeList(p: Pool, pid: PageId)
    requires Valid(p) && pid !in p.pageTable && |p.freeList| > 0
    ensures var (r, p') := FetchPage(p, pid);
      var f := p.freeList[0];
      && r == Some(f)
      && p'.frames[f] == Frame(pid, 1, false, ReadPage(p.disk, pid))
      && OtherFramesUnchanged(p, p', f)
      && p'.freeList == p.freeList[1..]
      && p'.pageTable == p.pageTable[pid := f]
      && p'.replacer == p.replacer
      && p'.disk == p.disk
  {
    var f := p.freeList[0];
    assert f in p.freeList;
    var p' := FetchPage(p, pid).1;
    assert p'.replacer.inflag == p.replacer.inflag;
  }

  /** Fetching a page that is not resident with an empty free list and an unpinned frame:
      the frame the clock selects is reclaimed, its dirty page written back before the frame
      is reused, its page id replaced by `pid` in the page table. */
  lemma FetchEvicts(p: Pool, pid: PageId)
    requires Valid(p) && pid !in p.pageTable && |p.freeList| == 0 && !AllPinned(p)
    ensures var (r, p') := FetchPage(p, pid);
      && r.Some? && r.value < |p.frames|
      && var f := r.value;
         var prior := p.frames[f];
         && IsResident(p, f) && prior.pinCount == 0
         && CR.ClockSweep(p.replacer, r, p'.replacer)
         && p'.disk == (if prior.isDirty then WritePage(p.disk, prior.pageId, prior.data) else p.disk)
         && p'.frames[f] == Frame(pid, 1, false, ReadPage(p.disk, pid))
         && OtherFramesUnchanged(p, p', f)
         && p'.pageTable == (p.pageTable - {prior.pageId})[pid := f]
         && p'.freeList == p.freeList
  {
    NothingTrackedIffAllPinned(p);
    TakeVictimReclaims(p);
    var (v, p1) := TakeVictim(p);
    var f := v.value;
    var p' := FetchPage(p, pid).1;
    assert p'.replacer.inflag == p1.replacer.inflag;
  }

  /** Fetching a page that is not resident fails exactly when the free list is empty and
      every frame is pinned, and then nothing changes. */
  lemma FetchExhausted(p: Pool, pid: PageId)
    requires Valid(p) && pid !in p.pageTable
    ensures var (r, p') := FetchPage(p, pid);
      && (r.None? <==> |p.freeList| == 0 && AllPinned(p))
      && (r.None? ==> p' == p)
  {
    if |p.freeList| == 0 {
      NothingTrackedIffAllPinned(p);
      TakeVictimReclaims(p);
    }
  }

  /** Binding page `pid` to the front free frame, pinned and clean, keeps the invariant. */
  lemma ClaimFreeFrameKeepsValid(p: Pool, p': Pool, pid: PageId)
    requires Valid(p) && |p.freeList| > 0 && pid !in p.pageTable
    requires var f := p.freeList[0];
      && WellFormed(p') && OtherFramesUnchanged(p, p', f)
      && p'.frames[f].pageId == pid && p'.frames[f].pinCount > 0
      && p'.freeList == p.freeList[1..]
      && p'.pageTable == p.pageTable[pid := f]
      && p'.replacer.inflag == p.replacer.inflag
    ensures Valid(p')
  {
    var f := p.freeList[0];
    assert f in p.freeList;
    assert IsResident(p', f);
    forall g: FrameId | g < |p.frames| && g != f
      ensures IsResident(p', g) <==> IsResident(p, g)
      ensures g in p'.freeList <==> g in p.freeList
    {
      if IsResident(p, g) {
        assert p.frames[g].pageId != pid;
      }
      if g in p.freeList {
        var i :| 0 <= i < |p.freeList| && p.freeList[i] == g;
        assert p'.freeList[i - 1] == g;
      }
    }
    assert f !in p'.freeList;
  }

  /** Rebinding a reclaimed (resident, unpinned) frame to page `pid`, pinned, with the old
      page id replaced by `pid` in the page table, keeps the invariant. */
  lemma RebindVictimKeepsValid(p: Pool, p': Pool, f: FrameId, pid: PageId)
    requires Valid(p) && IsResident(p, f) && p.frames[f].pinCount == 0 && pid !in p.pageTable
    requires && WellFormed(p') && OtherFramesUnchanged(p, p', f)
      && p'.frames[f].pageId == pid && p'.frames[f].pinCount > 0
      && p'.freeList == p.freeList
      && p'.pageTable == (p.pageTable - {p.frames[f].pageId})[pid := f]
      && p'.replacer.inflag == p.replacer.inflag[f := false]
    ensures Valid(p')
  {
    var prior := p.frames[f];
    assert IsResident(p', f);
    forall g: FrameId | g < |p.frames| && g != f
      ensures IsResident(p', g) <==> IsResident(p, g)
    {
      if IsResident(p, g) {
        assert p.frames[g].pageId != pid;
        assert p.frames[g].pageId != prior.pageId;
      }
    }
  }

  lemma FetchResidentKeepsValid(p: Pool, pid: PageId)
    requires Valid(p) && pid in p.pageTable
    ensures Valid(FetchPage(p, pid).1)
  {
    var p' := FetchPage(p, pid).1;
    FetchResident(p, pid);
    assert forall g: FrameId :: IsResident(p', g) <==> IsResident(p, g);
  }

  lemma FetchFromFreeListKeepsValid(p: Pool, pid: PageId)
    requires Valid(p) && pid !in p.pageTable && |p.freeList| > 0
    ensures Valid(FetchPage(p, pid).1)
  {
    FetchFromFreeList(p, pid);
    ClaimFreeFrameKeepsValid(p, FetchPage(p, pid).1, pid);
  }

  lemma FetchEvictsKeepsValid(p: Pool, pid: PageId)
    requires Valid(p) && pid !in p.pageTable && |p.freeList| == 0 && !AllPinned(p)
    ensures Valid(FetchPage(p, pid).1)
  {
    var (r, p') := FetchPage(p, pid);
    FetchEvicts(p, pid);
    RebindVictimKeepsValid(p, p', r.value, pid);
  }

  /** Fetching keeps the pool invariant. */
  lemma FetchPreservesValid(p: Pool, pid: PageId)
    requires Valid(p)
    ensures Valid(FetchPage(p, pid).1)
  {
    if pid in p.pageTable {
      FetchResidentKeepsValid(p, pid);
    } else if |p.freeList| > 0 {
      FetchFromFreeListKeepsValid(p, pid);
    } else if AllPinned(p) {
      FetchExhausted(p, pid);
    } else {
      FetchEvictsKeepsValid(p, pid);
    }
  }

  // ---------------------------------------------------------------------------
  // UnpinPage

  /** Unpinning fails exactly on a resident page nobody pins (a double unpin) and then
      changes nothing; unpinning a page that is not resident succeeds and changes nothing.
      Otherwise one pin is released, the dirty flag is or-ed in, and the replacer tracks
      the frame exactly when its last pin went. */
  lemma UnpinOutcome(p: Pool, pid: PageId, isDirty: bool)
    requires Valid(p)
    ensures var (ok, p') := UnpinPage(p, pid, isDirty);
      && (ok <==> pid !in p.pageTable || p.frames[p.pageTable[pid]].pinCount > 0)
      && (!ok || pid !in p.pageTable ==> p' == p)
      && (ok && pid in p.pageTable ==>
            var f := p.pageTable[pid];
            && p'.frames[f].pinCount == p.frames[f].pinCount - 1
            && p'.frames[f].isDirty == (p.frames[f].isDirty || isDirty)
            && p'.frames[f].pageId == pid && p'.frames[f].data == p.frames[f].data
            && OtherFramesUnchanged(p, p', f)
            && (p'.replacer.inflag[f] <==> p'.frames[f].pinCount == 0)
            && (p'.frames[f].pinCount == 0 ==> p'.replacer.reflag[f])
            && (p'.frames[f].pinCount > 0 ==> p'.replacer == p.replacer)
            && (forall g :: 0 <= g < |p.frames| && g != f ==>
                  p'.replacer.inflag[g] == p.replacer.inflag[g]
                  && p'.replacer.reflag[g] == p.replacer.reflag[g])
            && p'.replacer.hand == p.replacer.hand
            && p'.pageTable == p.pageTable && p'.freeList == p.freeList && p'.disk == p.disk)
  {
  }

  /** Once dirty, a frame stays dirty across any unpin, whatever flag the caller passes. */
  lemma DirtyIsSticky(p: Pool, pid: PageId, isDirty: bool)
    requires Valid(p)
    ensures var p' := UnpinPage(p, pid, isDirty).1;
      forall f :: 0 <= f < |p.frames| && p.frames[f].isDirty ==> p'.frames[f].isDirty
  {
  }

  lemma UnpinPreservesValid(p: Pool, pid: PageId, isDirty: bool)
    requires Valid(p)
    ensures Valid(UnpinPage(p, pid, isDirty).1)
  {
    var (ok, p') := UnpinPage(p, pid, isDirty);
    UnpinOutcome(p, pid, isDirty);
    if ok && pid in p.pageTable {
      assert forall g: FrameId :: IsResident(p', g) <==> IsResident(p, g);
    }
  }

  // ---------------------------------------------------------------------------
  // FlushPage

  /** Flushing fails on a page that is not resident, succeeds without I/O on a clean page,
      and on a dirty page writes the frame's bytes under `pid` and marks the frame clean. */
  lemma FlushOutcome(p: Pool, pid: PageId)
    requires Valid(p)
    ensures var (ok, p') := FlushPage(p, pid);
      && (pid !in p.pageTable ==> !ok && p' == p)
      && (pid in p.pageTable && !p.frames[p.pageTable[pid]].isDirty ==> ok && p' == p)
      && (pid in p.pageTable && p.frames[p.pageTable[pid]].isDirty ==>
            var f := p.pageTable[pid];
            && ok
            && p'.disk == WritePage(p.disk, pid, p.frames[f].data)
            && p'.frames[f] == p.frames[f].(isDirty := false)
            && OtherFramesUnchanged(p, p', f)
            && p'.pageTable == p.pageTable && p'.freeList == p.freeList
            && p'.replacer == p.replacer)
  {
  }

  /** A second flush right after a first one changes nothing: two flushes in a row
      write at most once. */
  lemma FlushTwice(p: Pool, pid: PageId)
    requires Valid(p)
    ensures var r1 := FlushPage(p, pid);
      && FlushPage(r1.1, pid) == r1
      && |FlushPage(r1.1, pid).1.disk.writes| <= |p.disk.writes| + 1
  {
  }

  lemma FlushPreservesValid(p: Pool, pid: PageId)
    requires Valid(p)
    ensures Valid(FlushPage(p, pid).1)
  {
    var p' := FlushPage(p, pid).1;
    assert forall g: FrameId :: IsResident(p', g) <==> IsResident(p, g);
  }

  // ---------------------------------------------------------------------------
  // NewPage

  /** A new page taken from the free list: the next page id is allocated and bound to the
      front free frame, zeroed, pinned once, clean and untracked. */
  lemma NewPageFromFreeList(p: Pool)
    requires Valid(p) && |p.freeList| > 0
    ensures var (r, p') := NewPage(p);
      var f := p.freeList[0];
      && r == Some((p.disk.nextPageId, f))
      && p'.disk == AllocatePage(p.disk).1
      && p'.frames[f] == Frame(p.disk.nextPageId, 1, false, ZeroPage())
      && OtherFramesUnchanged(p, p', f)
      && p'.freeList == p.freeList[1..]
      && p'.pageTable == p.pageTable[p.disk.nextPageId := f]
      && p'.replacer == p.replacer
  {
    var f := p.freeList[0];
    assert f in p.freeList;
    var p' := NewPage(p).1;
    assert p'.replacer.inflag == p.replacer.inflag;
  }

  /** A new page with an empty free list and an unpinned frame: the frame the clock selects
      is reclaimed (its dirty page written back first), and only then is the next page id
      allocated and bound to it. */
  lemma NewPageEvicts(p: Pool)
    requires Valid(p) && |p.freeList| == 0 && !AllPinned(p)
    ensures var (r, p') := NewPage(p);
      && r.Some? && r.value.1 < |p.frames|
      && var (pid, f) := r.value;
         var prior := p.frames[f];
         && pid == p.disk.nextPageId
         && IsResident(p, f) && prior.pinCount == 0
         && CR.ClockSweep(p.replacer, Some(f), p'.replacer)
         && p'.disk == AllocatePage(if prior.isDirty then WritePage(p.disk, prior.pageId, prior.data)
                                    else p.disk).1
         && p'.frames[f] == Frame(pid, 1, false, ZeroPage())
         && OtherFramesUnchanged(p, p', f)
         && p'.pageTable == (p.pageTable - {prior.pageId})[pid := f]
         && p'.freeList == p.freeList
  {
    NothingTrackedIffAllPinned(p);
    TakeVictimReclaims(p);
    var (v, p1) := TakeVictim(p);
    var p' := NewPage(p).1;
    assert p'.replacer.inflag == p1.replacer.inflag;
  }

  /** `NewPage` fails exactly when the free list is empty and every frame is pinned; then
      nothing changes, and in particular no page id is allocated. */
  lemma NewPageExhausted(p: Pool)
    requires Valid(p)
    ensures var (r, p') := NewPage(p);
      && (r.None? <==> |p.freeList| == 0 && AllPinned(p))
      && (r.None? ==> p' == p)
  {
    if |p.freeList| == 0 {
      NothingTrackedIffAllPinned(p);
      TakeVictimReclaims(p);
    }
  }

  lemma NewPageFromFreeListKeepsValid(p: Pool)
    requires Valid(p) && p.disk.nextPageId !in p.pageTable && |p.freeList| > 0
    ensures Valid(NewPage(p).1)
  {
    NewPageFromFreeList(p);
    ClaimFreeFrameKeepsValid(p, NewPage(p).1, p.disk.nextPageId);
  }

  lemma NewPageEvictsKeepsValid(p: Pool)
    requires Valid(p) && p.disk.nextPageId !in p.pageTable && |p.freeList| == 0 && !AllPinned(p)
    ensures Valid(NewPage(p).1)
  {
    var (r, p') := NewPage(p);
    NewPageEvicts(p);
    RebindVictimKeepsValid(p, p', r.value.1, p.disk.nextPageId);
  }

  /** `NewPage` keeps the invariant, provided the id it allocates is not already resident
      (callers only fetch ids that `NewPage` handed out before). */
  lemma NewPagePreservesValid(p: Pool)
    requires Valid(p) && p.disk.nextPageId !in p.pageTable
    ensures Valid(NewPage(p).1)
  {
    if |p.freeList| > 0 {
      NewPageFromFreeListKeepsValid(p);
    } else if AllPinned(p) {
      NewPageExhausted(p);
    } else {
      NewPageEvictsKeepsValid(p);
    }
  }

  /** The precondition of `NewPagePreservesValid` cannot be dropped: fetching page 0 before
      any page was allocated makes the next `NewPage` bind id 0 again, to a second frame,
      so the first frame is neither resident nor free. */
  lemma NewPageOverwritesFetchedId()
    ensures var p1 := FetchPage(Init(2, Disk(map[], [], 0)), 0).1;
      && Valid(p1) && p1.disk.nextPageId in p1.pageTable
      && !Valid(NewPage(p1).1)
  {
    var p0 := Init(2, Disk(map[], [], 0));
    FetchFromFreeList(p0, 0);
    FetchPreservesValid(p0, 0);
    var p1 := FetchPage(p0, 0).1;
    NewPageFromFreeList(p1);
    var p2 := NewPage(p1).1;
    assert !IsResident(p2, 0) && 0 !in p2.freeList;
  }

  // ---------------------------------------------------------------------------
  // FlushAllPages

  /** The state of `FlushFrom` after frames `[0, i)` of `p0` have been visited. */
  ghost predicate FlushedUpTo(p0: Pool, p: Pool, i: nat) {
    && Valid(p0) && Valid(p) && i <= |p0.frames| && |p.frames| == |p0.frames|
    && p.pageTable == p0.pageTable && p.freeList == p0.freeList && p.replacer == p0.replacer
    && p.disk.nextPageId == p0.disk.nextPageId
    && (forall f :: 0 <= f < |p0.frames| ==>
          p.frames[f] == (if f < i then p0.frames[f].(isDirty := false) else p0.frames[f]))
    && (forall f :: 0 <= f < i && p0.frames[f].isDirty ==>
          ReadPage(p.disk, p0.frames[f].pageId) == p0.frames[f].data)
    && (forall q :: q !in p0.pageTable || !p0.frames[p0.pageTable[q]].isDirty ==>
          ReadPage(p.disk, q) == ReadPage(p0.disk, q))
  }

  lemma FlushStepKeeps(p0: Pool, p: Pool, i: nat)
    requires FlushedUpTo(p0, p, i) && i < |p0.frames|
    ensures FlushedUpTo(p0, if p.frames[i].isDirty then FlushPage(p, p.frames[i].pageId).1 else p, i + 1)
  {
    var p1 := if p.frames[i].isDirty then FlushPage(p, p.frames[i].pageId).1 else p;
    if p.frames[i].isDirty {
      FlushPreservesValid(p, p.frames[i].pageId);
      assert i !in p0.freeList;
      assert IsResident(p0, i);
      var q := p0.frames[i].pageId;
      forall f | 0 <= f < i && p0.frames[f].isDirty
        ensures p0.frames[f].pageId != q
      {
        assert f !in p0.freeList;
        assert IsResident(p0, f);
      }
    }
  }

  lemma {:induction false} FlushFromCleans(p0: Pool, p: Pool, i: nat)
    requires FlushedUpTo(p0, p, i)
    ensures FlushedUpTo(p0, FlushFrom(p, i), |p0.frames|)
    decreases |p0.frames| - i
  {
    if i == |p0.frames| {
      assert FlushFrom(p, i) == p;
    } else {
      var p1 := if p.frames[i].isDirty then FlushPage(p, p.frames[i].pageId).1 else p;
      FlushStepKeeps(p0, p, i);
      FlushFromCleans(p0, p1, i + 1);
      assert FlushFrom(p, i) == FlushFrom(p1, i + 1);
    }
  }

  /** After `FlushAllPages` every frame is clean and otherwise unchanged, the page of every
      frame that was dirty is on disk with the frame's bytes, every other page's disk image
      is untouched, and the invariant still holds. */
  lemma FlushAllPagesCleans(p: Pool)
    requires Valid(p)
    ensures var p' := FlushAllPages(p);
      && Valid(p')
      && p'.pageTable == p.pageTable && p'.freeList == p.freeList && p'.replacer == p.replacer
      && p'.disk.nextPageId == p.disk.nextPageId
      && (forall f :: 0 <= f < |p.frames| ==> p'.frames[f] == p.frames[f].(isDirty := false))
      && (forall f :: 0 <= f < |p.frames| && p.frames[f].isDirty ==>
            ReadPage(p'.disk, p.frames[f].pageId) == p.frames[f].data)
      && (forall q :: q !in p.pageTable || !p.frames[p.pageTable[q]].isDirty ==>
            ReadPage(p'.disk, q) == ReadPage(p.disk, q))
  {
    FlushFromCleans(p, p, 0);
  }
}
