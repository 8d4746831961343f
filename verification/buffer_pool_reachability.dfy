/** The pool invariant holds in every state reachable from the constructor by any sequence
    of calls, provided callers only fetch page ids that have already been allocated. */
module BufferPoolReachability {
  import opened DiskManager
  import opened BufferPool
  import opened BufferPoolProperties

  /** One call of the pool's public interface. */
  datatype Call =
    | Fetch(pid: PageId)
    | Unpin(pid: PageId, isDirty: bool)
    | Flush(pid: PageId)
    | New
    | Delete(pid: PageId)
    | FlushAll

  function Step(p: Pool, c: Call): (p': Pool)
    requires WellFormed(p)
    ensures WellFormed(p')
  {
    match c
    case Fetch(pid) => FetchPage(p, pid).1
    case Unpin(pid, isDirty) => UnpinPage(p, pid, isDirty).1
    case Flush(pid) => FlushPage(p, pid).1
    case New => NewPage(p).1
    case Delete(pid) => DeletePage(p, pid).1
    case FlushAll => FlushAllPages(p)
  }

  function Run(p: Pool, cs: seq<Call>): (p': Pool)
    requires WellFormed(p)
    ensures WellFormed(p')
    decreases |cs|
  {
    if |cs| == 0 then p else Run(Step(p, cs[0]), cs[1..])
  }

  /** Every page id resident in the pool has been handed out by the disk's allocator. */
  ghost predicate OnlyAllocatedResident(p: Pool) {
    forall pid :: pid in p.pageTable ==> pid < p.disk.nextPageId
  }

  /** Every `Fetch` in `cs` names a page id already allocated when it is made. */
  ghost predicate FetchesAllocated(p: Pool, cs: seq<Call>)
    requires WellFormed(p)
    decreases |cs|
  {
    |cs| > 0 ==>
      && (cs[0].Fetch? ==> cs[0].pid < p.disk.nextPageId)
      && FetchesAllocated(Step(p, cs[0]), cs[1..])
  }

  /** One call keeps the invariant and keeps resident ids allocated. */
  lemma StepPreservesValid(p: Pool, c: Call)
    requires Valid(p) && OnlyAllocatedResident(p)
    requires c.Fetch? ==> c.pid < p.disk.nextPageId
    ensures Valid(Step(p, c)) && OnlyAllocatedResident(Step(p, c))
  {
    match c
    case Fetch(pid) =>
      FetchPreservesValid(p, pid);
      var p' := FetchPage(p, pid).1;
      if pid in p.pageTable {
        FetchResident(p, pid);
      } else if |p.freeList| > 0 {
        FetchFromFreeList(p, pid);
      } else if AllPinned(p) {
        FetchExhausted(p, pid);
      } else {
        FetchEvicts(p, pid);
        assert p'.disk.nextPageId == p.disk.nextPageId;
      }
    case Unpin(pid, isDirty) =>
      UnpinPreservesValid(p, pid, isDirty);
      UnpinOutcome(p, pid, isDirty);
    case Flush(pid) =>
      FlushPreservesValid(p, pid);
      FlushOutcome(p, pid);
    case New =>
      NewPagePreservesValid(p);
      if |p.freeList| > 0 {
        NewPageFromFreeList(p);
      } else if AllPinned(p) {
        NewPageExhausted(p);
      } else {
        NewPageEvicts(p);
      }
    case Delete(pid) =>
    case FlushAll =>
      FlushAllPagesCleans(p);
  }

  lemma {:induction false} RunPreservesValid(p: Pool, cs: seq<Call>)
    requires Valid(p) && OnlyAllocatedResident(p) && FetchesAllocated(p, cs)
    ensures Valid(Run(p, cs)) && OnlyAllocatedResident(Run(p, cs))
    decreases |cs|
  {
    if |cs| > 0 {
      StepPreservesValid(p, cs[0]);
      RunPreservesValid(Step(p, cs[0]), cs[1..]);
    }
  }

  /** Every reachable state of a pool of `n` frames satisfies the invariant: each frame is
      free, resident and pinned, or resident, unpinned and tracked. */
  lemma ReachableStatesValid(n: nat, disk: Disk, cs: seq<Call>)
    requires FetchesAllocated(Init(n, disk), cs)
    ensures Valid(Run(Init(n, disk), cs))
  {
    RunPreservesValid(Init(n, disk), cs);
  }
}
