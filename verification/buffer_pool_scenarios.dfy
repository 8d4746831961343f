/** End-to-end behaviours of the buffer pool, each derived from the per-operation lemmas. */
module BufferPoolScenarios {
  import opened Wrappers
  import opened DiskManager
  import CR = ClockReplacer
  import opened BufferPool
  import opened BufferPoolProperties

  /** A page created by `NewPage`, unpinned clean and fetched again comes back in the same
      frame with the same (zeroed) bytes, pinned once, still clean, with no disk I/O. */
  lemma NewUnpinFetchRoundTrip(p: Pool)
    requires Valid(p) && p.disk.nextPageId !in p.pageTable && !(|p.freeList| == 0 && AllPinned(p))
    ensures var (r1, p1) := NewPage(p);
      && r1.Some?
      && var (pid, f) := r1.value;
         var (ok, p2) := UnpinPage(p1, pid, false);
         var (r3, p3) := FetchPage(p2, pid);
         && ok && r3 == Some(f)
         && p3.frames[f].data == p1.frames[f].data == ZeroPage()
         && p3.frames[f].pinCount == 1 && !p3.frames[f].isDirty
         && p3.disk == p1.disk
  {
    NewPageExhausted(p);
    NewPagePreservesValid(p);
    var (r1, p1) := NewPage(p);
    var (pid, f) := r1.value;
    if |p.freeList| > 0 {
      NewPageFromFreeList(p);
    } else {
      NewPageEvicts(p);
    }
    assert IsResident(p1, f);
    UnpinOutcome(p1, pid, false);
    UnpinPreservesValid(p1, pid, false);
    var p2 := UnpinPage(p1, pid, false).1;
    FetchResident(p2, pid);
  }

  /** Pool of three frames: pages a, b, c fill it; a and b are unpinned; fetching d must
      reclaim a frame. Both unpinned frames still hold their second chance, so the single
      sweep ages both and falls back to the first of them, a's frame 0; c's frame, still
      pinned, is never chosen. */
  lemma ClockPicksFirstAgedFrame(disk: Disk, a: PageId, b: PageId, c: PageId, d: PageId)
    requires a != b && a != c && a != d && b != c && b != d && c != d
    ensures
      var p0 := Init(3, disk);
      var (ra, p1) := FetchPage(p0, a);
      var (rb, p2) := FetchPage(p1, b);
      var (rc, p3) := FetchPage(p2, c);
      var p4 := UnpinPage(p3, a, false).1;
      var p5 := UnpinPage(p4, b, false).1;
      var (rd, p6) := FetchPage(p5, d);
      && ra == Some(0) && rb == Some(1) && rc == Some(2) && rd == Some(0)
      && p6.pageTable == map[b := 1, c := 2, d := 0]
      && p6.disk == disk
  {
    ThreeFetchedTwoUnpinned(disk, a, b, c);
    var p5 := UnpinPage(UnpinPage(FetchPage(FetchPage(FetchPage(Init(3, disk), a).1, b).1, c).1, a, false).1, b, false).1;
    EvictsFrameZero(p5, a, b, c, d, disk);
  }

  /** From that state, fetching d evicts a's frame 0: every tracked frame has its second
      chance, so the sweep falls back to the first tracked frame from the hand. */
  lemma EvictsFrameZero(p5: Pool, a: PageId, b: PageId, c: PageId, d: PageId, disk: Disk)
    requires a != d && b != d && c != d
    requires Valid(p5) && |p5.frames| == 3 && |p5.freeList| == 0
    requires p5.pageTable == map[a := 0, b := 1, c := 2]
    requires p5.frames[0].pinCount == 0 && !p5.frames[0].isDirty
    requires p5.replacer.hand == 0
    requires p5.replacer.inflag[0] && p5.replacer.reflag[0] && p5.replacer.inflag[1]
    requires p5.replacer.reflag[1] && !p5.replacer.inflag[2]
    requires p5.disk == disk
    ensures var (rd, p6) := FetchPage(p5, d);
      && rd == Some(0) && p6.pageTable == map[b := 1, c := 2, d := 0] && p6.disk == disk
  {
    var rep := p5.replacer;
    assert !CR.AnyReady(rep);
    assert !AllPinned(p5);
    FetchEvicts(p5, d);
    var (rd, p6) := FetchPage(p5, d);
    var f := rd.value;
    assert CR.NearestTracked(rep, f);
    assert CR.Offset(rep, 0) == 0;
    assert f == 0;
    assert p5.frames[0].pageId == a;
  }

  /** The state the scenario above reaches before fetching d: a and b resident and unpinned
      with their reference bits set, c pinned, no free frame, the hand still at 0. */
  lemma ThreeFetchedTwoUnpinned(disk: Disk, a: PageId, b: PageId, c: PageId)
    requires a != b && a != c && b != c
    ensures
      var p0 := Init(3, disk);
      var (ra, p1) := FetchPage(p0, a);
      var (rb, p2) := FetchPage(p1, b);
      var (rc, p3) := FetchPage(p2, c);
      var p5 := UnpinPage(UnpinPage(p3, a, false).1, b, false).1;
      var rep := p5.replacer;
      && ra == Some(0) && rb == Some(1) && rc == Some(2)
      && Valid(p5) && |p5.frames| == 3 && |p5.freeList| == 0
      && p5.pageTable == map[a := 0, b := 1, c := 2]
      && p5.frames[0].pinCount == 0 && !p5.frames[0].isDirty
      && rep.hand == 0
      && rep.inflag[0] && rep.reflag[0] && rep.inflag[1] && rep.reflag[1] && !rep.inflag[2]
      && p5.disk == disk
  {
    var p0 := Init(3, disk);
    FetchFromFreeList(p0, a);
    FetchPreservesValid(p0, a);
    var p1 := FetchPage(p0, a).1;
    FetchFromFreeList(p1, b);
    FetchPreservesValid(p1, b);
    var p2 := FetchPage(p1, b).1;
    FetchFromFreeList(p2, c);
    FetchPreservesValid(p2, c);
    var p3 := FetchPage(p2, c).1;
    assert p3.pageTable == map[a := 0, b := 1, c := 2];
    assert p3.replacer == p0.replacer;
    UnpinOutcome(p3, a, false);
    UnpinPreservesValid(p3, a, false);
    var p4 := UnpinPage(p3, a, false).1;
    UnpinOutcome(p4, b, false);
    UnpinPreservesValid(p4, b, false);
  }

  /** Pool of one frame: once page a is pinned, fetching another page fails and changes
      nothing. */
  lemma ExhaustedPoolRefusesFetch(disk: Disk, a: PageId, b: PageId)
    requires a != b
    ensures
      var p1 := FetchPage(Init(1, disk), a).1;
      FetchPage(p1, b) == (None, p1)
  {
    var p0 := Init(1, disk);
    FetchFromFreeList(p0, a);
    FetchPreservesValid(p0, a);
    var p1 := FetchPage(p0, a).1;
    FetchExhausted(p1, b);
  }
}
