/** The disk collaborator of the buffer pool, reduced to what the pool can observe:
    the persisted image of every page, the sequence of writes issued, and the
    counter from which fresh page ids are handed out. */
module DiskManager {

  type PageId = int

  /** The page id of a frame that holds no page. */
  const InvalidPageId: PageId := -1

  /** Bytes in one page. */
  const PageSize: nat := 4096

  /** The contents of one page. */
  type Data = seq<bv8>

  /** The image a page has when it was never written, and the image `ResetMemory` produces. */
  function ZeroPage(): (d: Data)
    ensures |d| == PageSize && forall i :: 0 <= i < PageSize ==> d[i] == 0
  {
    seq(PageSize, _ => 0)
  }

  datatype Disk = Disk(pages: map<PageId, Data>, writes: seq<(PageId, Data)>, nextPageId: PageId)

  /** `ReadPage`: the persisted image of a page (zeroes if it was never written). */
  function ReadPage(d: Disk, pid: PageId): Data {
    if pid in d.pages then d.pages[pid] else ZeroPage()
  }

  /** `WritePage`: persist one page image and record the write. */
  function WritePage(d: Disk, pid: PageId, data: Data): (d': Disk)
    ensures ReadPage(d', pid) == data
    ensures forall q :: q != pid ==> ReadPage(d', q) == ReadPage(d, q)
    ensures d'.writes == d.writes + [(pid, data)]
    ensures d'.nextPageId == d.nextPageId
  {
    Disk(d.pages[pid := data], d.writes + [(pid, data)], d.nextPageId)
  }

  /** `AllocatePage`: hand out the next page id. */
  function AllocatePage(d: Disk): (r: (PageId, Disk))
    ensures r.0 == d.nextPageId && r.1.nextPageId == d.nextPageId + 1
    ensures r.1.pages == d.pages && r.1.writes == d.writes
  {
    (d.nextPageId, d.(nextPageId := d.nextPageId + 1))
  }
}
