/** Counting the frames: in a valid pool, the resident pages and the free frames together
    account for every frame exactly once. */
module BufferPoolCounting {
  import opened DiskManager
  import opened BufferPool

  /** The frames on a free list, as a set. */
  function Elems(s: seq<FrameId>): set<FrameId> {
    set x | x in s
  }

  lemma {:induction false} DistinctSeqCard(s: seq<FrameId>)
    requires forall i, j :: 0 <= i < j < |s| ==> s[i] != s[j]
    ensures |Elems(s)| == |s|
  {
    if |s| > 0 {
      var init := s[..|s| - 1];
      var last := s[|s| - 1];
      DistinctSeqCard(init);
      assert s == init + [last];
      assert last !in init by {
        forall i | 0 <= i < |init| ensures init[i] != last {
          assert s[i] != s[|s| - 1];
        }
      }
      assert Elems(s) == Elems(init) + {last};
    }
  }

  /** The resident page ids whose frame index is below `k`. */
  ghost function KeysBelow(p: Pool, k: nat): set<PageId> {
    set pid | pid in p.pageTable && p.pageTable[pid] < k
  }

  /** The free frames whose index is below `k`. */
  ghost function FreeBelow(p: Pool, k: nat): set<FrameId> {
    set f | f in p.freeList && f < k
  }

  /** Frames below `k` are counted once each, either by their page-table entry or by
      their free-list entry. */
  lemma {:induction false} CountBelow(p: Pool, k: nat)
    requires Valid(p) && k <= |p.frames|
    ensures |KeysBelow(p, k)| + |FreeBelow(p, k)| == k
  {
    if k == 0 {
      assert KeysBelow(p, 0) == {};
      assert FreeBelow(p, 0) == {};
    } else {
      var f := k - 1;
      CountBelow(p, f);
      if f in p.freeList {
        assert !IsResident(p, f);
        forall pid | pid in KeysBelow(p, k) ensures pid in KeysBelow(p, f) {
          assert p.frames[p.pageTable[pid]].pageId == pid;
        }
        assert KeysBelow(p, k) == KeysBelow(p, f);
        assert FreeBelow(p, k) == FreeBelow(p, f) + {f};
      } else {
        assert IsResident(p, f);
        var pid := p.frames[f].pageId;
        forall q | q in KeysBelow(p, k) ensures q in KeysBelow(p, f) + {pid} {
          if p.pageTable[q] == f {
            assert p.frames[f].pageId == q;
          }
        }
        assert KeysBelow(p, k) == KeysBelow(p, f) + {pid};
        assert pid !in KeysBelow(p, f);
        assert FreeBelow(p, k) == FreeBelow(p, f);
      }
    }
  }

  /** Page-table entries plus free-list entries equal the number of frames. */
  lemma FramesAccountedFor(p: Pool)
    requires Valid(p)
    ensures |p.pageTable| + |p.freeList| == |p.frames|
  {
    var n := |p.frames|;
    CountBelow(p, n);
    DistinctSeqCard(p.freeList);
    assert forall pid :: pid in p.pageTable ==> pid in KeysBelow(p, n);
    assert KeysBelow(p, n) == p.pageTable.Keys;
    assert FreeBelow(p, n) == Elems(p.freeList);
  }
}
