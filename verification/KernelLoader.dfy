/** The bootloader's ELF loader: file frames are mapped directly and a page is copied to a
    private frame before its first write. */
module KernelLoader {
  import opened Common
  import opened LoaderMemory
  import LittleEndian
  import opened Relocations
  import opened FrameAccounts

  datatype HeaderKind = Load | GnuRelro | Other

  datatype Header = Header(kind: HeaderKind, offset: nat, virtAddr: nat, fileSize: nat, memSize: nat,
                           executable: bool, writable: bool)

  /** Error returns and panics of the original. */
  datatype Fault =
    | MapToFailed | BssMapFailed | OutOfFrames | NotMapped | BadAddress | NotInLoadSegment | UnsupportedRelocation

  datatype Outcome = Done | Failed(fault: Fault)

  const ZERO_PAGE: seq<Byte> := seq(4096, _ => 0)

  ghost predicate ViewKept(before: View, after: View) {
    forall a: nat | a in before :: a in after && after[a] == before[a]
  }

  /** Every address of `before` outside [lo, hi) still shows the same byte. */
  ghost predicate KeptExcept(before: View, after: View, lo: nat, hi: nat) {
    forall a: nat | a in before && !(lo <= a < hi) :: a in after && after[a] == before[a]
  }

  ghost predicate NoneIn(v: View, lo: nat, hi: nat) { forall a: nat | lo <= a < hi :: a !in v }

  ghost predicate Zeros(v: View, lo: nat, hi: nat) { forall a: nat | lo <= a < hi :: a in v && v[a] == 0 }

  /** More zeros behind [start, end). */
  lemma ZerosMore(before: View, after: View, start: nat, end: nat, more: nat)
    requires Zeros(before, start, end) && ViewKept(before, after) && Zeros(after, end, more)
    ensures Zeros(after, start, more)
  {
  }

  lemma ViewSelf(v: View, a: nat)
    ensures ViewKept(v, v) && Zeros(v, a, a)
  {
  }

  lemma ViewTrans(a: View, b: View, c: View)
    requires ViewKept(a, b) && ViewKept(b, c)
    ensures ViewKept(a, c)
  {
  }

  lemma KeptTrans(a: View, b: View, c: View, start: nat)
    requires KeptExcept(a, b, start, PageUp(start)) && ViewKept(b, c)
    ensures KeptExcept(a, c, start, PageUp(start))
  {
  }

  /** The pages behind the one in which the data end. */
  lemma PagesBehind(start: nat, end: nat)
    requires start < end
    ensures PageUp(start) / 4096 <= (end - 1) / 4096 + 1 && 4096 * (PageUp(start) / 4096) == PageUp(start)
    ensures end <= 4096 * ((end - 1) / 4096 + 1)
  {
  }

  lemma KeptSelf(image: View, start: nat)
    ensures KeptExcept(image, image, start, PageUp(start)) && (start % 4096 == 0 ==> Zeros(image, start, PageUp(start)))
  {
  }

  lemma ZerosLess(image: View, start: nat, end: nat, more: nat)
    requires Zeros(image, start, more) && end <= more
    ensures Zeros(image, start, end)
  {
  }

  /** The rest of the page behind the file data. */
  lemma ZerosInPage(image: View, start: nat)
    requires start % 4096 != 0
    ensures var after := Overlay(image, start, ZERO_PAGE[start % 4096..]);
            KeptExcept(image, after, start, PageUp(start)) && Zeros(after, start, PageUp(start))
  {
  }

  /** Of the range of `len` bytes at `addr`, exactly `done` lie before `page`. */
  ghost predicate AtPage(addr: nat, len: nat, page: nat, done: nat) {
    && addr / 4096 <= page <= (addr + len - 1) / 4096 + 1 && done <= len
    && addr + done == Max(addr, Min(4096 * page, addr + len))
    && (done == len <==> page == (addr + len - 1) / 4096 + 1)
  }

  lemma FirstPage(addr: nat, len: nat)
    requires len > 0
    ensures AtPage(addr, len, addr / 4096, 0) && addr / 4096 <= (addr + len - 1) / 4096
  {
  }

  /** Where a page meets the range. */
  lemma PageSpan(addr: nat, len: nat, page: nat, done: nat)
    requires AtPage(addr, len, page, done) && page <= (addr + len - 1) / 4096
    ensures var start, end := Max(addr, 4096 * page), Min(addr + len - 1, 4096 * page + 4095);
            && start == addr + done && 4096 * page <= start <= end <= 4096 * page + 4095 && end < addr + len
            && AtPage(addr, len, page + 1, end + 1 - addr)
  {
  }

  lemma LastPage(addr: nat, len: nat, page: nat, done: nat)
    requires AtPage(addr, len, page, done)
    ensures page <= (addr + len - 1) / 4096 + 1 && addr / 4096 <= page && done <= len
    ensures page > (addr + len - 1) / 4096 ==> done == len
  {
  }

  /** After `done` bytes of `buf`, writing the next `n` gives the overlay of `done + n`. */
  lemma OverlayMore(image: View, before: View, after: View, addr: nat, buf: seq<Byte>, done: nat, n: nat)
    requires done + n <= |buf|
    requires before == Overlay(image, addr, buf[..done]) && after == Overlay(before, addr + done, buf[done..][..n])
    ensures after == Overlay(image, addr, buf[..done + n])
  {
    OverlayJoin(image, addr, buf[..done], buf[done..][..n]);
    assert buf[..done] + buf[done..][..n] == buf[..done + n];
  }

  /** `v` shows `size` bytes of the file, from `offset` on, at `va`. */
  ghost predicate ShowsFile(v: View, file: seq<seq<Byte>>, offset: nat, va: nat, size: nat)
    requires offset + size <= 4096 * |file| && forall i | 0 <= i < |file| :: |file[i]| == 4096
  {
    forall a: nat | va <= a < va + size :: a in v && v[a] == file[(offset + a - va) / 4096][(offset + a - va) % 4096]
  }

  /** Consecutive file frames at consecutive pages show the file, when offset and address agree
      within a page. */
  lemma FileFramesShow(pt: Table, mem: Memory, kernelFrame: nat, file: seq<seq<Byte>>, offset: nat, va: nat, size: nat)
    requires Backed(pt, mem) && va % 4096 == offset % 4096
    requires offset + size <= 4096 * |file| && forall i | 0 <= i < |file| :: |file[i]| == 4096
    requires forall f | kernelFrame <= f < kernelFrame + |file| :: f in mem && mem[f] == file[f - kernelFrame]
    requires forall p | va / 4096 <= p <= (va + size - 1) / 4096 ::
               p in pt && pt[p].frame == kernelFrame + offset / 4096 + p - va / 4096
    ensures ShowsFile(ViewOf(pt, mem), file, offset, va, size)
  {
    forall a: nat | va <= a < va + size
      ensures a in ViewOf(pt, mem) && ViewOf(pt, mem)[a] == file[(offset + a - va) / 4096][(offset + a - va) % 4096]
    {
      assert a / 4096 <= (va + size - 1) / 4096;
      var i := offset / 4096 + a / 4096 - va / 4096;
      assert (offset + a - va) / 4096 == i && (offset + a - va) % 4096 == a % 4096;
    }
  }

  /** As many file frames as pages, when offset and address agree within a page. */
  lemma FrameSpan(kernelFrame: nat, offset: nat, size: nat, va: nat)
    requires 0 < kernelFrame
    ensures var start, end := (4096 * kernelFrame + offset) / 4096, (4096 * kernelFrame + offset + size - 1) / 4096;
            && start == kernelFrame + offset / 4096 && start <= end + 1
            && end == kernelFrame + (offset + size - 1) / 4096
            && (va % 4096 == offset % 4096 ==>
                  && va / 4096 + (end - start) == (va + size - 1) / 4096
                  && ((va + size) % 4096 != 0 ==> (va + size) / 4096 == (va + size - 1) / 4096))
  {
  }

  lemma MoreEntriesKeep(pt: Table, pt': Table, mem: Memory)
    requires Backed(pt, mem) && Backed(pt', mem) && forall p | p in pt :: p in pt' && pt'[p] == pt[p]
    ensures ViewKept(ViewOf(pt, mem), ViewOf(pt', mem))
  {
  }

  /** What mapping the file frames of a segment gives. */
  lemma SegmentMapped(pt: Table, pt': Table, mem: Memory, kernelFrame: nat, file: seq<seq<Byte>>,
                      offset: nat, va: nat, size: nat, flags: Flags)
    requires Backed(pt, mem) && Backed(pt', mem) && va % 4096 == offset % 4096
    requires offset + size <= 4096 * |file| && forall i | 0 <= i < |file| :: |file[i]| == 4096
    requires forall f | kernelFrame <= f < kernelFrame + |file| :: f in mem && mem[f] == file[f - kernelFrame]
    requires NoPages(pt, va / 4096, (va + size - 1) / 4096)
    requires FramesAt(pt', va / 4096, (va + size - 1) / 4096, kernelFrame + offset / 4096, flags)
    ensures ShowsFile(ViewOf(pt', mem), file, offset, va, size)
    ensures HaveRights(pt', va / 4096, (va + size - 1) / 4096, flags)
    ensures NoneIn(ViewOf(pt, mem), va + size, PageUp(va + size))
  {
    FileFramesShow(pt', mem, kernelFrame, file, offset, va, size);
    forall a: nat | va + size <= a < PageUp(va + size) ensures a !in ViewOf(pt, mem) {
      assert a / 4096 == (va + size - 1) / 4096;
    }
  }

  /** Zeroing behind the file data keeps the data and what was mapped before. */
  lemma BssKeeps(first: View, image: View, after: View, file: seq<seq<Byte>>, offset: nat, va: nat, size: nat)
    requires offset + size <= 4096 * |file| && forall i | 0 <= i < |file| :: |file[i]| == 4096
    requires ViewKept(first, image) && KeptExcept(image, after, va + size, PageUp(va + size))
    requires NoneIn(first, va + size, PageUp(va + size))
    requires ShowsFile(image, file, offset, va, size)
    ensures ViewKept(first, after) && ShowsFile(after, file, offset, va, size)
  {
  }

  /** None of the pages from `first` to `last` is mapped. */
  predicate NoPages(pt: Table, first: int, last: int) { forall p | first <= p <= last :: p !in pt }

  /** The pages from `first` to `last` map consecutive frames from `frame` on. */
  predicate FramesAt(pt: Table, first: int, last: int, frame: nat, flags: Flags) {
    forall p | first <= p <= last :: p in pt && pt[p] == Entry(frame + p - first, flags)
  }

  /** Pages that were not mapped in `pt` and are in `pt'` lie between `first` and `last`. */
  predicate OnlyNew(pt: Table, pt': Table, first: int, last: int) {
    forall p | p in pt' :: p in pt || first <= p <= last
  }

  /** The page in which the data end, if they end inside a page. */
  function Tail(start: nat): set<nat> { if start % 4096 == 0 then {} else {(start - 1) / 4096} }

  /** Room to zero [start, end): the page in which the data end is mapped, the pages behind it are
      not, and there are frames for all of them and for a private copy of that page. */
  ghost predicate BssFits(pt: Table, frames: int, start: nat, end: nat) {
    && Tail(start) <= pt.Keys
    && NoPages(pt, PageUp(start) / 4096, (end - 1) / 4096)
    && frames >= |Uncopied(pt) * Tail(start)| + ((end - 1) / 4096 + 1 - PageUp(start) / 4096)
  }

  /** How zeroing [start, end) changes the table, and what it costs. */
  ghost predicate BssDone(pt: Table, frames: int, pt': Table, frames': int, start: nat, end: nat) {
    var pages := PageRange(PageUp(start) / 4096, (end - 1) / 4096);
    && pt'.Keys == pt.Keys + pages && Uncopied(pt') == Uncopied(pt) - Tail(start) + pages
    && frames' == frames - |Uncopied(pt) * Tail(start)| - ((end - 1) / 4096 + 1 - PageUp(start) / 4096)
  }

  lemma TailCost(u: set<nat>, start: nat)
    ensures |u * Tail(start)| == if start % 4096 != 0 && (start - 1) / 4096 in u then 1 else 0
  {
    assert u * Tail(start) == if start % 4096 != 0 && (start - 1) / 4096 in u then {(start - 1) / 4096} else {};
  }

  lemma BssSteps(pt: Table, frames: int, mid: Table, left: int, pt': Table, frames': int, start: nat, end: nat)
    requires start < end && Copied(pt, frames, mid, left, Tail(start))
    requires Grown(mid, pt', PageRange(PageUp(start) / 4096, (end - 1) / 4096))
    requires frames' == left - ((end - 1) / 4096 + 1 - PageUp(start) / 4096)
    ensures BssDone(pt, frames, pt', frames', start, end)
  {
  }

  lemma SamePages(pt: Table, pt': Table, first: int, last: int)
    requires pt.Keys == pt'.Keys
    ensures NoPages(pt, first, last) <==> NoPages(pt', first, last)
  {
  }

  /** The pages of a segment at `va`. */
  function PagesAt(va: nat, h: Header): set<nat> { PageRange(va / 4096, (va + Max(h.fileSize, h.memSize) - 1) / 4096) }

  /** The page of it that is made private while it is loaded. */
  function TailAt(va: nat, h: Header): set<nat> { if h.fileSize < h.memSize then Tail(va + h.fileSize) else {} }

  /** The frames its loading takes: a private copy of that page, and the pages of zeros behind it. */
  function FramesAtLoad(va: nat, h: Header): nat {
    if h.fileSize < h.memSize
    then |Tail(va + h.fileSize)| + BehindCount(va + h.fileSize, va + h.memSize)
    else 0
  }

  /** The pages from the first page start at or after `start` up to the last one before `end`. */
  function BehindCount(start: nat, end: nat): nat
    requires start < end
  {
    PagesBehind(start, end);
    (end - 1) / 4096 + 1 - PageUp(start) / 4096
  }

  /** Room for a segment: none of its pages is mapped, and there are frames for its zeroed part. */
  ghost predicate SegmentFits(pt: Table, frames: int, va: nat, h: Header) {
    PagesAt(va, h) !! pt.Keys && frames >= FramesAtLoad(va, h)
  }

  /** How loading a segment changes the table, and what it costs. */
  ghost predicate SegmentDone(pt: Table, frames: int, pt': Table, frames': int, va: nat, h: Header) {
    && pt'.Keys == pt.Keys + PagesAt(va, h) && Uncopied(pt') == Uncopied(pt) + (PagesAt(va, h) - TailAt(va, h))
    && frames' == frames - FramesAtLoad(va, h)
  }

  lemma FileFramesGrow(pt: Table, pt': Table, first: nat, last: int, frame: nat, flags: Flags)
    requires forall p | p in pt :: p in pt' && pt'[p] == pt[p]
    requires NoPages(pt, first, last) && OnlyNew(pt, pt', first, last) && FramesAt(pt', first, last, frame, flags)
             && !flags.copied
    ensures Grown(pt, pt', PageRange(first, last))
  {
  }

  lemma GrownKeys(pt: Table, pt': Table, first: nat, page: nat)
    requires Grown(pt, pt', PageRange(first, page - 1)) && first <= page
    ensures OnlyNew(pt, pt', first, page - 1) && (page in pt' <==> page in pt)
  {
  }

  lemma TailIsPage(va: nat, h: Header)
    ensures TailAt(va, h) <= PagesAt(va, h)
  {
    if h.fileSize < h.memSize {
      SegmentRange(va, h);
    }
  }

  lemma SegmentKeys(pt: Table, pt': Table, va: nat, h: Header)
    requires OnlyNew(pt, pt', va / 4096, (va + h.fileSize - 1) / 4096)
    ensures pt'.Keys <= pt.Keys + PagesAt(va, h)
  {
  }

  lemma BssKeys(pt: Table, mid: Table, pt': Table, va: nat, h: Header)
    requires h.fileSize < h.memSize && mid.Keys <= pt.Keys + PagesAt(va, h)
    requires OnlyNew(mid, pt', PageUp(va + h.fileSize) / 4096, (va + h.memSize - 1) / 4096)
    ensures pt'.Keys <= pt.Keys + PagesAt(va, h)
  {
    SegmentRange(va, h);
  }

  lemma NothingNew(pt: Table, pt': Table, first: int, last: int)
    requires pt'.Keys == pt.Keys
    ensures OnlyNew(pt, pt', first, last)
  {
  }

  lemma OnlyNewAfter(pt: Table, mid: Table, pt': Table, first: int, last: int)
    requires mid.Keys == pt.Keys && OnlyNew(mid, pt', first, last)
    ensures OnlyNew(pt, pt', first, last)
  {
  }

  /** A segment without a zeroed part. */
  lemma FileOnly(pt: Table, frames: int, pt': Table, va: nat, h: Header)
    requires h.memSize <= h.fileSize && Grown(pt, pt', PageRange(va / 4096, (va + h.fileSize - 1) / 4096))
    ensures SegmentDone(pt, frames, pt', frames, va, h)
  {
    assert Max(h.fileSize, h.memSize) == h.fileSize;
  }

  lemma FileRange(pt: Table, va: nat, h: Header)
    ensures PagesAt(va, h) !! pt.Keys ==> NoPages(pt, va / 4096, (va + h.fileSize - 1) / 4096)
    ensures h.memSize <= h.fileSize && NoPages(pt, va / 4096, (va + h.fileSize - 1) / 4096) ==>
              PagesAt(va, h) !! pt.Keys
  {
  }

  /** The pages of the file data and those behind them are all pages of the segment. */
  lemma SegmentRange(va: nat, h: Header)
    requires h.fileSize < h.memSize
    ensures var start := va + h.fileSize;
            && PagesAt(va, h) ==
                 PageRange(va / 4096, (start - 1) / 4096) + PageRange(PageUp(start) / 4096, (va + h.memSize - 1) / 4096)
            && PageRange(va / 4096, (start - 1) / 4096) !! PageRange(PageUp(start) / 4096, (va + h.memSize - 1) / 4096)
            && Tail(start) <= PageRange(va / 4096, (start - 1) / 4096)
  {
    var start := va + h.fileSize;
    PagesBehind(start, va + h.memSize);
    assert Max(h.fileSize, h.memSize) == h.memSize;
    assert PageUp(start) / 4096 == (start - 1) / 4096 + 1;
  }

  /** With its file data mapped, a segment has room exactly if its zeroed part has. */
  lemma BssFitsAfter(pt: Table, frames: int, mid: Table, va: nat, h: Header)
    requires h.fileSize < h.memSize && Grown(pt, mid, PageRange(va / 4096, (va + h.fileSize - 1) / 4096))
    ensures BssFits(mid, frames, va + h.fileSize, va + h.memSize) <==> SegmentFits(pt, frames, va, h)
  {
    hide Uncopied, Grown, Tail, PagesAt, NoPages, PageUp, PageRange, FramesAtLoad;
    SegmentRange(va, h);
    LoadCost(va, h);
    TailIsNew(pt, mid, PageRange(va / 4096, (va + h.fileSize - 1) / 4096), Tail(va + h.fileSize));
    BehindKeys(pt, mid, va, h);
  }

  lemma TailIsNew(pt: Table, mid: Table, files: set<nat>, tail: set<nat>)
    requires Grown(pt, mid, files) && tail <= files
    ensures tail <= mid.Keys && Uncopied(mid) * tail == tail
  {
    hide Uncopied;
  }

  lemma LoadCost(va: nat, h: Header)
    requires h.fileSize < h.memSize
    ensures TailAt(va, h) == Tail(va + h.fileSize)
    ensures FramesAtLoad(va, h) ==
              |Tail(va + h.fileSize)| + ((va + h.memSize - 1) / 4096 + 1 - PageUp(va + h.fileSize) / 4096)
  {
  }

  lemma PagesAdded(pt: Table, mid: Table, pt': Table, files: set<nat>, behind: set<nat>, tail: set<nat>)
    requires Grown(pt, mid, files) && tail <= files && files !! behind
    requires pt'.Keys == mid.Keys + behind && Uncopied(pt') == Uncopied(mid) - tail + behind
    ensures pt'.Keys == pt.Keys + (files + behind) && Uncopied(pt') == Uncopied(pt) + (files + behind - tail)
  {
    hide Uncopied;
    UncopiedMapped(pt);
  }

  lemma BehindKeys(pt: Table, mid: Table, va: nat, h: Header)
    requires h.fileSize < h.memSize && Grown(pt, mid, PageRange(va / 4096, (va + h.fileSize - 1) / 4096))
    ensures NoPages(mid, PageUp(va + h.fileSize) / 4096, (va + h.memSize - 1) / 4096) <==> PagesAt(va, h) !! pt.Keys
  {
    hide Uncopied;
    SegmentRange(va, h);
    var behind := PageRange(PageUp(va + h.fileSize) / 4096, (va + h.memSize - 1) / 4096);
    assert NoPages(mid, PageUp(va + h.fileSize) / 4096, (va + h.memSize - 1) / 4096) <==> behind !! mid.Keys;
  }

  /** A segment with a zeroed part. */
  lemma WithBss(pt: Table, frames: int, mid: Table, pt': Table, frames': int, va: nat, h: Header)
    requires h.fileSize < h.memSize && Grown(pt, mid, PageRange(va / 4096, (va + h.fileSize - 1) / 4096))
    requires BssDone(mid, frames, pt', frames', va + h.fileSize, va + h.memSize) && PagesAt(va, h) !! pt.Keys
    ensures SegmentDone(pt, frames, pt', frames', va, h)
  {
    hide Uncopied, Grown, Tail, PageUp, PagesAt, PageRange, TailAt, FramesAtLoad;
    SegmentRange(va, h);
    LoadCost(va, h);
    var files, behind :=
        PageRange(va / 4096, (va + h.fileSize - 1) / 4096),
        PageRange(PageUp(va + h.fileSize) / 4096, (va + h.memSize - 1) / 4096);
    TailIsNew(pt, mid, files, Tail(va + h.fileSize));
    PagesAdded(pt, mid, pt', files, behind, Tail(va + h.fileSize));
  }

  lemma UncopiedMapped(pt: Table)
    ensures Uncopied(pt) <= pt.Keys
  {
  }

  lemma NoBss(v: View, pt: Table, va: nat, h: Header, flags: Flags)
    requires h.memSize <= h.fileSize && HaveRights(pt, va / 4096, (va + h.fileSize - 1) / 4096, flags)
    ensures Zeros(v, va + h.fileSize, va + h.memSize) && HaveRights(pt, va / 4096, (va + h.memSize - 1) / 4096, flags)
  {
  }

  predicate SameRights(a: Flags, b: Flags) { a.writable == b.writable && a.noExecute == b.noExecute }

  /** Mapped pages stay mapped with the same rights. */
  ghost predicate RightsKept(before: Table, after: Table) {
    forall p | p in before :: p in after && SameRights(after[p].flags, before[p].flags)
  }

  ghost predicate HaveRights(pt: Table, first: int, last: int, flags: Flags) {
    forall p: nat | first <= p <= last :: p in pt && SameRights(pt[p].flags, flags)
  }

  lemma ClearTwice(flags: Flags, copied: bool)
    ensures Clear(Clear(flags, copied), copied) == Clear(flags, copied)
  {
  }

  lemma ClearedNothing(pt: Table, first: int, copied: bool)
    ensures ClearedIn(pt, pt, first, first - 1, copied)
  {
  }

  lemma ClearedMore(pt: Table, mid: Table, pt': Table, first: int, page: int, copied: bool)
    requires ClearedIn(pt, mid, first, page - 1, copied) && ClearedIn(mid, pt', page, page, copied) && first <= page
    ensures ClearedIn(pt, pt', first, page, copied)
  {
    hide Clear;
  }

  lemma RightsSelf(pt: Table, first: int, flags: Flags)
    ensures RightsKept(pt, pt) && HaveRights(pt, first, first - 1, flags)
  {
  }

  lemma RightsTrans(pt: Table, mid: Table, pt': Table)
    requires RightsKept(pt, mid) && RightsKept(mid, pt')
    ensures RightsKept(pt, pt')
  {
  }

  lemma RightsJoin(mid: Table, pt: Table, first: int, last: int, from: int, end: int, flags: Flags)
    requires HaveRights(mid, first, last, flags) && RightsKept(mid, pt) && HaveRights(pt, from, end, flags)
             && from <= last + 1
    ensures HaveRights(pt, first, end, flags) && HaveRights(pt, first, last, flags)
  {
  }

  /** Flags without COPIED, or without WRITABLE. */
  function Clear(flags: Flags, copied: bool): Flags {
    if copied then flags.(copied := false) else flags.(writable := false)
  }

  /** One flag cleared on the pages from `first` to `last`; nothing else changed. */
  ghost predicate ClearedIn(before: Table, after: Table, first: int, last: int, copied: bool) {
    && after.Keys == before.Keys
    && forall p | p in after ::
         after[p] ==
           Entry(before[p].frame, if first <= p <= last then Clear(before[p].flags, copied) else before[p].flags)
  }

  /** The copy that failed for want of a frame is one too many for the whole range. */
  lemma CannotCopy(pt: Table, frames: int, mid: Table, left: int, first: nat, page: nat, last: int)
    requires Copied(pt, frames, mid, left, PageRange(first, page - 1)) && first <= page <= last
    requires page !in mid || (page in Uncopied(mid) && left == 0)
    ensures page !in pt || |Uncopied(pt) * PageRange(first, last)| > frames
  {
    if page in pt {
      var u, a := Uncopied(pt), PageRange(first, page - 1);
      assert (u - a) * {page} == {page};
      TooFew(u, a, {page}, PageRange(first, last), frames, left);
    }
  }

  lemma CannotPatch(pt: Table, frames: int, mid: Table, left: int, a: set<nat>, b: set<nat>, all: set<nat>)
    requires Copied(pt, frames, mid, left, a) && a + b <= all
    ensures |Uncopied(mid) * b| > left ==> |Uncopied(pt) * all| > frames
  {
    if |Uncopied(mid) * b| > left {
      TooFew(Uncopied(pt), a, b, all, frames, left);
    }
  }

  lemma CopiedAffordable(pt: Table, frames: int, pt': Table, frames': nat, pages: set<nat>)
    requires Copied(pt, frames, pt', frames', pages)
    ensures |Uncopied(pt) * pages| <= frames
  {
  }

  class Inner {
    const kernelFrame: nat        // the ELF file starts at this frame
    const file: seq<seq<Byte>>    // and fills these frames
    const virtOffset: int
    var pageTable: Table
    var memory: Memory
    var pool: seq<nat>            // what the frame allocator will hand out, in order

    predicate IsFile(f: int) { kernelFrame <= f < kernelFrame + |file| }

    /** Holds between all operations. In particular no frame of the ELF file is ever modified. */
    ghost predicate Valid()
      reads this
    {
      && 0 < kernelFrame
      && (forall f | IsFile(f) :: f in memory && memory[f] == file[f - kernelFrame])
      && (forall f | f in memory :: |memory[f]| == 4096)
      && (forall p | p in pageTable :: pageTable[p].frame in memory)
      && (forall i | 0 <= i < |pool| :: pool[i] in memory && !IsFile(pool[i]) && Unmapped(pageTable, pool[i]))
      && (forall i, j | 0 <= i < j < |pool| :: pool[i] != pool[j])
      && (forall p | p in pageTable && pageTable[p].flags.copied ::
          !IsFile(pageTable[p].frame) && Exclusive(pageTable, p))
    }

    /** The virtual image. */
    ghost function Image(): View
      requires Valid()
      reads this
    {
      ViewOf(pageTable, memory)
    }

    /** An empty kernel page table, the file in memory, and an allocator whose frames are
        distinct and not those of the file. */
    constructor (kernelFrame: nat, file: seq<seq<Byte>>, virtOffset: int, memory: Memory, pool: seq<nat>)
      requires 0 < kernelFrame && forall f | f in memory :: |memory[f]| == 4096
      requires forall f | kernelFrame <= f < kernelFrame + |file| :: f in memory && memory[f] == file[f - kernelFrame]
      requires forall i | 0 <= i < |pool| :: pool[i] in memory && !(kernelFrame <= pool[i] < kernelFrame + |file|)
      requires forall i, j | 0 <= i < j < |pool| :: pool[i] != pool[j]
      ensures Valid() && this.file == file && this.kernelFrame == kernelFrame && this.virtOffset == virtOffset
      ensures Image() == imap[]
    {
      this.kernelFrame, this.file, this.virtOffset := kernelFrame, file, virtOffset;
      this.pageTable, this.memory, this.pool := map[], memory, pool;
    }

    /** Gives the frame behind `page`, copied to a private frame unless it was already. */
    method MakeMut(page: nat) returns (r: Result<nat, Fault>)
      requires Valid()
      modifies this`pageTable, this`memory, this`pool
      ensures Valid() && Image() == old(Image())
      ensures pageTable.Keys == old(pageTable.Keys) && RightsKept(old(pageTable), pageTable)
      ensures r.Ok? ==> page in pageTable && pageTable[page].frame == r.value && pageTable[page].flags.copied
      ensures r.Ok? ==> Copied(old(pageTable), |old(pool)|, pageTable, |pool|, {page})
      ensures r.Err? <==> page !in old(pageTable) || (!old(pageTable)[page].flags.copied && old(pool) == [])
      ensures r.Err? ==> pageTable == old(pageTable) && pool == old(pool)
    {
      hide Copied;
      if page !in pageTable {
        return Err(NotMapped);
      }
      var entry := pageTable[page];
      if entry.flags.copied {
        CopiedBefore(pageTable, |pool|, page);
        return Ok(entry.frame);
      }
      if pool == [] {
        return Err(OutOfFrames);
      }
      var newFrame := pool[0];
      CopiedOne(pageTable, |pool|, page, newFrame);
      CopyPageView(pageTable, memory, page, newFrame, entry.flags.(copied := true));
      pool := pool[1..];
      memory := memory[newFrame := memory[entry.frame]];
      pageTable := pageTable[page := Entry(newFrame, entry.flags.(copied := true))];
      r := Ok(newFrame);
    }

    /** Writes into the frame of a copied page. */
    method WriteCopied(page: nat, off: nat, bytes: seq<Byte>)
      requires Valid() && page in pageTable && pageTable[page].flags.copied && off + |bytes| <= 4096
      modifies this`memory
      ensures Valid()
      ensures Image() == Overlay(old(Image()), 4096 * page + off, bytes)
    {
      var f := pageTable[page].frame;
      WriteFrameView(pageTable, memory, page, off, bytes);
      memory := memory[f := Splice(memory[f], off, bytes)];
    }

    /** Makes `page` private and writes `bytes` into it. */
    method WritePage(page: nat, off: nat, bytes: seq<Byte>) returns (r: Outcome)
      requires Valid() && off + |bytes| <= 4096
      modifies this`pageTable, this`memory, this`pool
      ensures Valid()
      ensures pageTable.Keys == old(pageTable.Keys) && RightsKept(old(pageTable), pageTable)
      ensures r.Done? ==> page in pageTable && Image() == Overlay(old(Image()), 4096 * page + off, bytes)
      ensures r.Done? ==> Copied(old(pageTable), |old(pool)|, pageTable, |pool|, {page})
      ensures r.Failed? ==> Image() == old(Image()) && pageTable == old(pageTable) && pool == old(pool)
      ensures r.Failed? <==> page !in old(pageTable) || (page in Uncopied(old(pageTable)) && old(pool) == [])
    {
      hide Copied;
      var frame := MakeMut(page);
      if frame.Err? {
        return Failed(frame.error);
      }
      WriteCopied(page, off, bytes);
      r := Done;
    }

    lemma MappedUpTo(pt: Table, addr: nat, len: nat, page: nat)
      requires forall p | addr / 4096 <= p < page :: p in pt
      ensures addr / 4096 <= page <= (addr + len - 1) / 4096 && page !in pt ==> !AllMapped(pt, addr, len)
      ensures (addr + len - 1) / 4096 < page ==> AllMapped(pt, addr, len)
    {
    }

    /** Writes `buf` to the kernel address space, page by page. */
    method CopyTo(addr: nat, buf: seq<Byte>) returns (r: Outcome)
      requires Valid() && buf != []
      modifies this`pageTable, this`memory, this`pool
      ensures Valid() && pageTable.Keys == old(pageTable.Keys) && RightsKept(old(pageTable), pageTable)
      ensures r.Done? ==> AllMapped(old(pageTable), addr, |buf|) && Image() == Overlay(old(Image()), addr, buf)
      ensures r.Failed? ==> exists k | 0 <= k < |buf| :: Image() == Overlay(old(Image()), addr, buf[..k])
      ensures r.Done?
         <==> AllMapped(old(pageTable), addr, |buf|) && |Uncopied(old(pageTable)) * Span(addr, |buf|)| <= |old(pool)|
      ensures r.Done? ==> Copied(old(pageTable), |old(pool)|, pageTable, |pool|, Span(addr, |buf|))
    {
      hide Image, Overlay, ViewOf, Valid, Uncopied, Copied, PageRange, RightsKept, Max, Min, AtPage, AllMapped;
      var endInclusive := addr + |buf| - 1;
      var page, done := addr / 4096, 0;
      ghost var image, keys := Image(), pageTable.Keys;
      ghost var first, all := page, Span(addr, |buf|);
      RightsSelf(pageTable, 0, Flags(false, false, false));
      OverlayEmpty(image, addr);
      FirstPage(addr, |buf|);
      CopiedNone(pageTable, |pool|);
      EmptyRange(first);
      while page <= endInclusive / 4096
        invariant Valid() && pageTable.Keys == keys && RightsKept(old(pageTable), pageTable)
        invariant first <= page <= endInclusive / 4096 + 1 && 0 <= done <= |buf| && AtPage(addr, |buf|, page, done)
        invariant Image() == Overlay(image, addr, buf[..done])
        invariant forall p | first <= p < page :: p in keys
        invariant Copied(old(pageTable), |old(pool)|, pageTable, |pool|, PageRange(first, page - 1))
      {
        PageSpan(addr, |buf|, page, done);
        var startCopy := Max(addr, 4096 * page);
        var endCopy := Min(endInclusive, 4096 * page + 4095);
        var copyLen := endCopy - startCopy + 1;
        var chunk := buf[startCopy - addr..][..copyLen];
        ghost var before, mid, left := Image(), pageTable, |pool|;
        RangeMore(first, page - 1);
        r := WritePage(page, startCopy - 4096 * page, chunk);
        if r.Failed? {
          CannotCopy(old(pageTable), |old(pool)|, pageTable, |pool|, first, page, (addr + |buf| - 1) / 4096);
          MappedUpTo(old(pageTable), addr, |buf|, page);
          return;
        }
        RightsTrans(old(pageTable), mid, pageTable);
        CopiedMore(old(pageTable), |old(pool)|, mid, left, pageTable, |pool|, PageRange(first, page - 1), {page});
        OverlayMore(image, before, Image(), addr, buf, done, copyLen);
        page, done := page + 1, done + copyLen;
      }
      LastPage(addr, |buf|, page, done);
      MappedUpTo(old(pageTable), addr, |buf|, page);
      assert buf[..done] == buf;
      CopiedAffordable(old(pageTable), |old(pool)|, pageTable, |pool|, all);
      r := Done;
    }

    /** The bytes of `page` from offset `from` up to `to`. */
    method ReadPage(page: nat, from: nat, to: nat) returns (src: seq<Byte>)
      requires Valid() && page in pageTable && from <= to <= 4096
      ensures |src| == to - from && Reads(Image(), 4096 * page + from, src)
    {
      ReadFrameView(pageTable, memory, page);
      src := memory[pageTable[page].frame][from..to];
    }

    /** Reads the kernel address space into `buf`, page by page. */
    method CopyFrom(addr: nat, buf: array<Byte>) returns (r: Outcome)
      requires Valid() && buf.Length > 0
      modifies buf
      ensures r.Done? <==> AllMapped(pageTable, addr, buf.Length)
      ensures r.Done? ==> Reads(Image(), addr, buf[..])
    {
      hide Image, ViewOf, Valid, Reads, Max, Min, AtPage;
      var endInclusive := addr + buf.Length - 1;
      var page, done := addr / 4096, 0;
      ghost var image := Image();
      ReadsNothing(image, addr);
      FirstPage(addr, buf.Length);
      while page <= endInclusive / 4096
        invariant addr / 4096 <= page <= endInclusive / 4096 + 1 && 0 <= done <= buf.Length
                  && AtPage(addr, buf.Length, page, done)
        invariant Valid() && Image() == image
        invariant forall p | addr / 4096 <= p < page :: p in pageTable
        invariant Reads(image, addr, buf[..done])
      {
        if page !in pageTable {
          return Failed(NotMapped);
        }
        PageSpan(addr, buf.Length, page, done);
        var startCopy := Max(addr, 4096 * page);
        var endCopy := Min(endInclusive, 4096 * page + 4095);
        var src := ReadPage(page, startCopy - 4096 * page, endCopy - 4096 * page + 1);
        ReadsJoin(image, addr, buf[..done], src);
        ghost var front := buf[..done];
        forall i | 0 <= i < |src| {
          buf[startCopy - addr + i] := src[i];
        }
        assert buf[..done + |src|] == front + src;
        page, done := page + 1, done + |src|;
      }
      LastPage(addr, buf.Length, page, done);
      assert buf[..done] == buf[..];
      r := Done;
    }

    // -------------------------------------------------------------------------------------
    // Load segments
    // -------------------------------------------------------------------------------------

    /** The virtual address of an address of the file, where it is representable. */
    function Place(x: nat): Option<nat> {
      if 0 <= virtOffset + x < 0x1_0000_0000_0000_0000 then Some(virtOffset + x) else None
    }

    /** Maps a file frame at a page that is not mapped. */
    method MapFileFrame(page: nat, frame: nat, flags: Flags)
      requires Valid() && !flags.copied && IsFile(frame) && page !in pageTable
      modifies this`pageTable
      ensures Valid() && pageTable == old(pageTable)[page := Entry(frame, flags)]
    {
      hide Image, ViewOf;
      pageTable := pageTable[page := Entry(frame, flags)];
    }

    /** Maps file frames at consecutive pages; fails exactly at a page that is mapped already. */
    method MapFileFrames(startFrame: nat, endFrame: nat, startPage: nat, flags: Flags) returns (r: Outcome)
      requires Valid() && !flags.copied && startFrame <= endFrame + 1
      requires forall f | startFrame <= f <= endFrame :: IsFile(f)
      modifies this`pageTable
      ensures Valid() && RightsKept(old(pageTable), pageTable)
      ensures forall p | p in old(pageTable) :: p in pageTable && pageTable[p] == old(pageTable)[p]
      ensures r.Done? <==> NoPages(old(pageTable), startPage, startPage + endFrame - startFrame)
      ensures r.Done? ==> FramesAt(pageTable, startPage, startPage + endFrame - startFrame, startFrame, flags)
      ensures OnlyNew(old(pageTable), pageTable, startPage, startPage + endFrame - startFrame)
    {
      hide Image, ViewOf, Valid;
      var frame := startFrame;
      while frame <= endFrame
        invariant startFrame <= frame <= endFrame + 1
        invariant Valid() && forall p | p in old(pageTable) :: p in pageTable && pageTable[p] == old(pageTable)[p]
        invariant NoPages(old(pageTable), startPage, startPage + frame - startFrame - 1)
        invariant OnlyNew(old(pageTable), pageTable, startPage, startPage + frame - startFrame - 1)
        invariant FramesAt(pageTable, startPage, startPage + frame - startFrame - 1, startFrame, flags)
      {
        var page := startPage + (frame - startFrame);
        if page in pageTable {
          return Failed(MapToFailed);
        }
        MapFileFrame(page, frame, flags);
        frame := frame + 1;
      }
      r := Done;
    }

    /** Takes the next frame from the allocator and clears it. */
    method AllocateZeroFrame() returns (frame: Option<nat>)
      requires Valid()
      modifies this`memory, this`pool
      ensures Valid() && Image() == old(Image())
      ensures frame.None? <==> old(pool) == []
      ensures frame.Some? ==> |pool| == |old(pool)| - 1
      ensures frame.Some? ==> && frame.value in memory && memory[frame.value] == ZERO_PAGE && frame.value !in pool
                              && !IsFile(frame.value) && Unmapped(pageTable, frame.value)
    {
      if pool == [] {
        return None;
      }
      frame := Some(pool[0]);
      ScratchView(pageTable, memory, pool[0], ZERO_PAGE);
      memory := memory[pool[0] := ZERO_PAGE];
      pool := pool[1..];
    }

    /** Maps one new zeroed frame at `page`. */
    method MapZeroFrame(page: nat, flags: Flags) returns (r: Outcome)
      requires Valid() && !flags.copied
      modifies this`pageTable, this`memory, this`pool
      ensures Valid()
      ensures r.Done? ==> ViewKept(old(Image()), Image()) && Zeros(Image(), 4096 * page, 4096 * page + 4096)
      ensures RightsKept(old(pageTable), pageTable) && (r.Done? ==> HaveRights(pageTable, page, page, flags))
      ensures r.Failed? ==> Image() == old(Image()) && pageTable == old(pageTable)
      ensures r.Done? <==> page !in old(pageTable) && old(pool) != []
      ensures r.Done? ==> Grown(old(pageTable), pageTable, {page}) && |pool| == |old(pool)| - 1
    {
      hide Grown;
      var frame := AllocateZeroFrame();
      if frame.None? {
        return Failed(OutOfFrames);
      }
      if page in pageTable {
        return Failed(BssMapFailed);
      }
      ghost var pt := pageTable;
      GrownOne(pt, page, Entry(frame.value, flags));
      pageTable := pageTable[page := Entry(frame.value, flags)];
      MoreEntriesKeep(pt, pageTable, memory);
      ReadFrameView(pageTable, memory, page);
      r := Done;
    }

    /** Zeroes the rest of the page in which the file data ends, on a private copy. */
    method ZeroTail(start: nat) returns (r: Outcome)
      requires Valid()
      modifies this`pageTable, this`memory, this`pool
      ensures Valid() && KeptExcept(old(Image()), Image(), start, PageUp(start))
      ensures r.Done? ==> Zeros(Image(), start, PageUp(start))
      ensures pageTable.Keys == old(pageTable.Keys) && RightsKept(old(pageTable), pageTable)
      ensures r.Done? ==> Copied(old(pageTable), |old(pool)|, pageTable, |pool|, Tail(start))
      ensures r.Done? <==> Tail(start) <= old(pageTable).Keys && |Uncopied(old(pageTable)) * Tail(start)| <= |old(pool)|
    {
      hide Image, ViewOf, Valid, Overlay, Zeros, KeptExcept, RightsKept, Uncopied, Copied;
      TailCost(Uncopied(pageTable), start);
      CopiedNone(pageTable, |pool|);
      KeptSelf(Image(), start);
      RightsSelf(pageTable, 0, Flags(false, false, false));
      if start % 4096 == 0 {
        return Done;
      }
      ZerosInPage(Image(), start);
      r := WritePage((start - 1) / 4096, start % 4096, ZERO_PAGE[start % 4096..]);
    }

    /** Maps zeroed frames at the pages from `first` to `last`. */
    method MapZeroPages(first: nat, last: int, flags: Flags) returns (r: Outcome)
      requires Valid() && !flags.copied && first <= last + 1
      modifies this`pageTable, this`memory, this`pool
      ensures Valid() && ViewKept(old(Image()), Image()) && RightsKept(old(pageTable), pageTable)
      ensures r.Done? ==> Zeros(Image(), 4096 * first, 4096 * (last + 1)) && HaveRights(pageTable, first, last, flags)
      ensures r.Done? <==> NoPages(old(pageTable), first, last) && |old(pool)| >= last + 1 - first
      ensures r.Done? ==>
                Grown(old(pageTable), pageTable, PageRange(first, last)) && |pool| == |old(pool)| - (last + 1 - first)
      ensures OnlyNew(old(pageTable), pageTable, first, last)
    {
      hide Image, ViewOf, Valid, Zeros, ViewKept, RightsKept, HaveRights, Uncopied, Grown;
      var page := first;
      GrownNone(pageTable);
      EmptyRange(first);
      ViewSelf(Image(), 4096 * first);
      RightsSelf(pageTable, first, flags);
      while page <= last
        invariant first <= page <= last + 1 && Valid() && ViewKept(old(Image()), Image())
                  && RightsKept(old(pageTable), pageTable)
        invariant Zeros(Image(), 4096 * first, 4096 * page) && HaveRights(pageTable, first, page - 1, flags)
        invariant Grown(old(pageTable), pageTable, PageRange(first, page - 1)) && |pool| == |old(pool)| - (page - first)
        invariant NoPages(old(pageTable), first, page - 1)
      {
        ghost var before, mid := Image(), pageTable;
        GrownKeys(old(pageTable), pageTable, first, page);
        RangeMore(first, page - 1);
        r := MapZeroFrame(page, flags);
        RightsTrans(old(pageTable), mid, pageTable);
        if r.Failed? {
          return;
        }
        GrownMore(old(pageTable), mid, pageTable, PageRange(first, page - 1), {page});
        ViewTrans(old(Image()), before, Image());
        ZerosMore(before, Image(), 4096 * first, 4096 * page, 4096 * page + 4096);
        RightsJoin(mid, pageTable, first, page - 1, page, page, flags);
        page := page + 1;
      }
      GrownKeys(old(pageTable), pageTable, first, page);
      r := Done;
    }

    /** Zeroes the rest of the page in which the file data ends, and maps zeroed frames for the
        pages behind it. */
    method HandleBssSection(h: Header, va: nat, flags: Flags) returns (r: Outcome)
      requires Valid() && !flags.copied && h.fileSize < h.memSize
      modifies this`pageTable, this`memory, this`pool
      ensures Valid()
      ensures KeptExcept(old(Image()), Image(), va + h.fileSize, PageUp(va + h.fileSize))
      ensures r.Done? ==> Zeros(Image(), va + h.fileSize, va + h.memSize)
      ensures RightsKept(old(pageTable), pageTable)
      ensures r.Done? ==> HaveRights(pageTable, PageUp(va + h.fileSize) / 4096, (va + h.memSize - 1) / 4096, flags)
      ensures r.Done? <==> BssFits(old(pageTable), |old(pool)|, va + h.fileSize, va + h.memSize)
      ensures r.Done? ==> BssDone(old(pageTable), |old(pool)|, pageTable, |pool|, va + h.fileSize, va + h.memSize)
      ensures OnlyNew(old(pageTable), pageTable, PageUp(va + h.fileSize) / 4096, (va + h.memSize - 1) / 4096)
    {
      hide Image, ViewOf, Valid, Zeros, KeptExcept, ViewKept, RightsKept, HaveRights, Uncopied, Grown, BssDone, NoPages,
           Tail, OnlyNew, PageRange;
      var zeroStart, zeroEnd := va + h.fileSize, va + h.memSize;
      r := ZeroTail(zeroStart);
      NothingNew(old(pageTable), pageTable, PageUp(zeroStart) / 4096, (zeroEnd - 1) / 4096);
      if r.Failed? {
        return;
      }
      ghost var image, mid, left := Image(), pageTable, |pool|;
      SamePages(old(pageTable), mid, PageUp(zeroStart) / 4096, (zeroEnd - 1) / 4096);
      PagesBehind(zeroStart, zeroEnd);
      r := MapZeroPages(PageUp(zeroStart) / 4096, (zeroEnd - 1) / 4096, flags);
      RightsTrans(old(pageTable), mid, pageTable);
      KeptTrans(old(Image()), image, Image(), zeroStart);
      OnlyNewAfter(old(pageTable), mid, pageTable, PageUp(zeroStart) / 4096, (zeroEnd - 1) / 4096);
      if r.Done? {
        BssSteps(old(pageTable), |old(pool)|, mid, left, pageTable, |pool|, zeroStart, zeroEnd);
        ZerosMore(image, Image(), zeroStart, PageUp(zeroStart), 4096 * ((zeroEnd - 1) / 4096 + 1));
        ZerosLess(Image(), zeroStart, zeroEnd, 4096 * ((zeroEnd - 1) / 4096 + 1));
      }
    }

    /** The image of a segment: the bytes of the file, then zeros. */
    ghost predicate Loaded(v: View, h: Header)
      requires Place(h.virtAddr).Some? && InFile(h)
    {
      var va := Place(h.virtAddr).value;
      && ShowsFile(v, file, h.offset, va, h.fileSize)
      && Zeros(v, va + h.fileSize, va + h.memSize)
    }

    /** Every page of the segment is mapped with the rights its header asks for. */
    ghost predicate Protected(pt: Table, h: Header)
      requires Place(h.virtAddr).Some?
    {
      var va := Place(h.virtAddr).value;
      HaveRights(pt, va / 4096, (va + h.memSize - 1) / 4096, Flags(h.writable, !h.executable, false))
    }

    /** What the header sanity check of the ELF library ensures. */
    predicate InFile(h: Header) {
      h.offset + h.fileSize <= 4096 * |file| && forall i | 0 <= i < |file| :: |file[i]| == 4096
    }

    /** The ELF rule that file offset and address agree within a page. */
    predicate Congruent(h: Header) {
      Place(h.virtAddr).Some? && Place(h.virtAddr).value % 4096 == h.offset % 4096
    }

    lemma FileInMemory()
      requires Valid()
      ensures Backed(pageTable, memory) && 0 < kernelFrame
      ensures forall f | kernelFrame <= f < kernelFrame + |file| :: f in memory && memory[f] == file[f - kernelFrame]
    {
    }

    lemma FileFrames(h: Header)
      requires 0 < kernelFrame && InFile(h)
      ensures forall f | (4096 * kernelFrame + h.offset) / 4096 <= f
                           <= (4096 * kernelFrame + h.offset + h.fileSize - 1) / 4096 ::
                IsFile(f)
    {
    }

    /** The part of a segment that the file holds. */
    method MapSegmentFrames(h: Header, va: nat, flags: Flags) returns (r: Outcome)
      requires Valid() && InFile(h) && !flags.copied
      modifies this`pageTable
      ensures Valid() && ViewKept(old(Image()), Image()) && RightsKept(old(pageTable), pageTable)
      ensures r.Done? && va % 4096 == h.offset % 4096 ==>
                HaveRights(pageTable, va / 4096, (va + h.fileSize - 1) / 4096, flags)
      ensures r.Done? && va % 4096 == h.offset % 4096 ==>
                && ShowsFile(Image(), file, h.offset, va, h.fileSize)
                && NoneIn(old(Image()), va + h.fileSize, PageUp(va + h.fileSize))
      ensures va % 4096 == h.offset % 4096 ==>
                (r.Done? <==> NoPages(old(pageTable), va / 4096, (va + h.fileSize - 1) / 4096))
      ensures va % 4096 == h.offset % 4096 ==>
                OnlyNew(old(pageTable), pageTable, va / 4096, (va + h.fileSize - 1) / 4096)
      ensures va % 4096 == h.offset % 4096 && r.Done? ==>
                Grown(old(pageTable), pageTable, PageRange(va / 4096, (va + h.fileSize - 1) / 4096))
    {
      hide Uncopied, Grown, PageRange, ViewOf, ShowsFile, ViewKept, HaveRights, RightsKept, NoneIn, OnlyNew, NoPages,
           FramesAt, Valid, Backed, IsFile, PageUp;
      FileInMemory();
      FileFrames(h);
      var physStart := 4096 * kernelFrame + h.offset;
      var startFrame, endFrame := physStart / 4096, (physStart + h.fileSize - 1) / 4096;
      FrameSpan(kernelFrame, h.offset, h.fileSize, va);
      r := MapFileFrames(startFrame, endFrame, va / 4096, flags);
      FileInMemory();
      MoreEntriesKeep(old(pageTable), pageTable, memory);
      if r.Done? && va % 4096 == h.offset % 4096 {
        SegmentMapped(old(pageTable), pageTable, memory, kernelFrame, file, h.offset, va, h.fileSize, flags);
        FileFramesGrow(old(pageTable), pageTable, va / 4096, (va + h.fileSize - 1) / 4096, startFrame, flags);
      }
    }

    method HandleLoadSegment(h: Header) returns (r: Outcome)
      requires Valid() && InFile(h)
      modifies this`pageTable, this`memory, this`pool
      ensures Valid()
      ensures r.Done? ==> Place(h.virtAddr).Some?
      ensures Congruent(h) ==> ViewKept(old(Image()), Image())
      ensures Congruent(h) && r.Done? ==> Loaded(Image(), h)
      ensures RightsKept(old(pageTable), pageTable)
      ensures Congruent(h) && r.Done? ==> Protected(pageTable, h)
      ensures Congruent(h) ==> (r.Done? <==> SegmentFits(old(pageTable), |old(pool)|, Place(h.virtAddr).value, h))
      ensures Congruent(h) && r.Done? ==>
                SegmentDone(old(pageTable), |old(pool)|, pageTable, |pool|, Place(h.virtAddr).value, h)
      ensures Congruent(h) ==> pageTable.Keys <= old(pageTable).Keys + PagesAt(Place(h.virtAddr).value, h)
    {
      hide Image, ViewOf, Valid, ShowsFile, ViewKept, NoneIn, RightsKept, HaveRights, Zeros, KeptExcept, BssFits,
           BssDone, SegmentDone, OnlyNew, NoPages, Uncopied, Grown, PagesAt;
      var place := Place(h.virtAddr);
      if place.None? {
        RightsSelf(pageTable, 0, Flags(false, false, false));
        return Failed(BadAddress);
      }
      var va := place.value;
      var flags := Flags(h.writable, !h.executable, false);
      FileRange(pageTable, va, h);
      r := MapSegmentFrames(h, va, flags);
      if Congruent(h) {
        SegmentKeys(old(pageTable), pageTable, va, h);
      }
      if r.Failed? {
        return;
      }
      if h.memSize > h.fileSize {
        ghost var image, mid := Image(), pageTable;
        if Congruent(h) {
          BssFitsAfter(old(pageTable), |pool|, pageTable, va, h);
        }
        r := HandleBssSection(h, va, flags);
        RightsTrans(old(pageTable), mid, pageTable);
        if Congruent(h) {
          BssKeys(old(pageTable), mid, pageTable, va, h);
        }
        if Congruent(h) && r.Done? {
          WithBss(old(pageTable), |old(pool)|, mid, pageTable, |pool|, va, h);
          RightsJoin(mid, pageTable, va / 4096, (va + h.fileSize - 1) / 4096, PageUp(va + h.fileSize) / 4096,
                     (va + h.memSize - 1) / 4096, flags);
        }
        if Congruent(h) {
          BssKeeps(old(Image()), image, Image(), file, h.offset, va, h.fileSize);
        }
      } else if Congruent(h) {
        NoBss(Image(), pageTable, va, h, flags);
        FileOnly(old(pageTable), |pool|, pageTable, va, h);
      }
    }

    // -------------------------------------------------------------------------------------
    // Relocations
    // -------------------------------------------------------------------------------------

    method CheckIsInLoad(headers: seq<Header>, virtOffset: nat) returns (found: bool)
      ensures found <==> InLoad(headers, virtOffset)
    {
      for i := 0 to |headers|
        invariant forall j | 0 <= j < i ::
                    !(headers[j].kind == Load
                      && headers[j].virtAddr <= virtOffset < headers[j].virtAddr + headers[j].memSize)
      {
        var h := headers[i];
        if h.kind == Load {
          if h.virtAddr <= virtOffset {
            var offsetInSegment := virtOffset - h.virtAddr;
            if offsetInSegment < h.memSize {
              return true;
            }
          }
        }
      }
      found := false;
    }

    /** All 24 bytes of entry `idx` of the table can be read. */
    ghost predicate EntryMapped(pt: Table, table: nat, idx: nat) {
      Place(table + 24 * idx).Some? && AllMapped(pt, virtOffset + table + 24 * idx, 24)
    }

    predicate InLoad(headers: seq<Header>, x: nat) {
      exists h | h in headers :: h.kind == Load && h.virtAddr <= x < h.virtAddr + h.memSize
    }

    /** What the loader asks of a relocation. */
    ghost predicate Applicable(pt: Table, rela: Rela, headers: seq<Header>) {
      && rela.info == 8 && Representable(virtOffset, rela) && InLoad(headers, rela.offset)
      && AllMapped(pt, virtOffset + rela.offset, 8)
    }

    /** The pages a relocation writes to. */
    function TouchedBy(rela: Rela): set<nat> {
      if virtOffset + rela.offset < 0 then {} else Span(virtOffset + rela.offset, 8)
    }

    /** The pages that the first `n` entries of the table write to. */
    ghost function Touched(image: View, table: nat, n: nat): set<nat> {
      if n == 0 then {}
      else
        var entry := RelaAt(Relocated(image, virtOffset, virtOffset + table, n - 1), virtOffset + table + 24 * (n - 1));
        Touched(image, table, n - 1) + TouchedBy(entry)
    }

    lemma {:induction false} TouchedGrows(image: View, table: nat, n: nat, m: nat)
      requires n <= m
      ensures Touched(image, table, n) <= Touched(image, table, m)
      decreases m
    {
      hide TouchedBy, RelaAt, Relocated;
      if n < m {
        TouchedGrows(image, table, n, m - 1);
      }
    }

    /** Every entry, read when its turn comes, can be applied. */
    ghost predicate AllApplicable(pt: Table, image: View, table: nat, count: nat, headers: seq<Header>) {
      forall idx | 0 <= idx < count ::
        EntryMapped(pt, table, idx)
        && Applicable(pt,
                      RelaAt(Relocated(image, virtOffset, virtOffset + table, idx), virtOffset + table + 24 * idx),
                      headers)
    }

    /** Only which pages are mapped matters for these. */
    lemma SameKeys(pt: Table, pt': Table, table: nat, idx: nat, rela: Rela, headers: seq<Header>)
      requires pt.Keys == pt'.Keys
      ensures EntryMapped(pt, table, idx) == EntryMapped(pt', table, idx)
              && Applicable(pt, rela, headers) == Applicable(pt', rela, headers)
    {
    }

    /** The bytes of entry `idx` of the table are those of `e`. */
    ghost predicate IsEntry(image: View, table: nat, idx: nat, e: Rela) {
      HoldsEntry(image, virtOffset + table + 24 * idx, e)
    }

    method ReadRelocation(table: nat, idx: nat) returns (r: Result<Rela, Fault>)
      requires Valid()
      ensures r.Ok? <==> EntryMapped(pageTable, table, idx)
      ensures r.Ok? ==> r.value == RelaAt(Image(), virtOffset + table + 24 * idx)
      ensures r.Ok? ==> forall e | IsEntry(Image(), table, idx, e) :: r.value == e
    {
      hide Image, ViewOf, Valid, Reads, BytesAt, ParseRela, HoldsEntry;
      var place := Place(table + 24 * idx);
      if place.None? {
        return Err(BadAddress);
      }
      var buf := new Byte[24](_ => 0);
      var outcome := CopyFrom(place.value, buf);
      if outcome.Failed? {
        return Err(outcome.fault);
      }
      ReadsAre(Image(), place.value, buf[..]);
      r := Ok(ParseRela(buf[..]));
      forall e | IsEntry(Image(), table, idx, e) ensures r.value == e {
        EntryRead(Image(), virtOffset + table + 24 * idx, e);
      }
    }

    /** Whatever table of relative relocations image `u` holds, if they do not write to it: in `w` each
        address has what the last relocation that writes it stores there, and else what `u` has. */
    ghost predicate TableStored(u: View, w: View, table: nat, count: nat) {
      forall rs | HoldsTable(u, virtOffset, virtOffset + table, rs) && |rs| == count ::
        AllStored(u, w, virtOffset, rs, count)
    }

    lemma StoresTable(pt: Table, u: View, table: nat, count: nat, headers: seq<Header>)
      requires AllApplicable(pt, u, table, count, headers)
      ensures TableStored(u, Relocated(u, virtOffset, virtOffset + table, count), table, count)
    {
      hide Relocated, RelaAt, AllStored, HoldsTable, EntryMapped;
      forall rs | HoldsTable(u, virtOffset, virtOffset + table, rs) && |rs| == count
        ensures AllStored(u, Relocated(u, virtOffset, virtOffset + table, count), virtOffset, rs, count)
      {
        forall i | 0 <= i < count ensures Representable(virtOffset, rs[i]) {
          EntryUnchanged(u, virtOffset, virtOffset + table, rs, i);
        }
        TableApplied(u, virtOffset, virtOffset + table, rs, count);
      }
    }

    method ApplyRelocation(rela: Rela, headers: seq<Header>) returns (r: Outcome)
      requires Valid()
      modifies this`pageTable, this`memory, this`pool
      ensures Valid() && pageTable.Keys == old(pageTable.Keys) && RightsKept(old(pageTable), pageTable)
      ensures r.Done? ==> Image() == Patched(old(Image()), virtOffset, rela)
      ensures r.Done?
         <==> Applicable(old(pageTable), rela, headers) && |Uncopied(old(pageTable)) * TouchedBy(rela)| <= |old(pool)|
      ensures r.Done? ==> Copied(old(pageTable), |old(pool)|, pageTable, |pool|, TouchedBy(rela))
    {
      hide Image, ViewOf, Valid, Overlay, Uncopied, Copied, PageRange, AllMapped, RightsKept;
      RightsSelf(pageTable, 0, Flags(false, false, false));
      if rela.info / 0x1_0000_0000 != 0 || rela.info % 0x1_0000_0000 != R_AMD64_RELATIVE {
        return Failed(UnsupportedRelocation);
      }
      var ok := CheckIsInLoad(headers, rela.offset);
      if !ok {
        return Failed(NotInLoadSegment);
      }
      var addr, value := Place(rela.offset), Place(rela.addend);
      if addr.None? || value.None? {
        return Failed(BadAddress);
      }
      r := CopyTo(addr.value, LittleEndian.Encode(value.value, 8));
    }

    /** Applies the entries of the table in order, reading each from the image as it is by then. */
    method ApplyRelocations(table: nat, count: nat, headers: seq<Header>) returns (r: Outcome)
      requires Valid()
      modifies this`pageTable, this`memory, this`pool
      ensures Valid() && pageTable.Keys == old(pageTable.Keys) && RightsKept(old(pageTable), pageTable)
      ensures r.Done? ==> Image() == Relocated(old(Image()), virtOffset, virtOffset + table, count)
      ensures r.Done? ==> TableStored(old(Image()), Image(), table, count)
      ensures r.Done? <==> && AllApplicable(old(pageTable), old(Image()), table, count, headers)
                           && |Uncopied(old(pageTable)) * Touched(old(Image()), table, count)| <= |old(pool)|
    {
      hide Image, ViewOf, Valid, Patched, RelaAt, EntryMapped, Applicable, Uncopied, Copied, TouchedBy, RightsKept,
           TableStored;
      ghost var image := Image();
      CopiedNone(pageTable, |pool|);
      RightsSelf(pageTable, 0, Flags(false, false, false));
      for idx := 0 to count
        invariant Valid() && pageTable.Keys == old(pageTable.Keys) && RightsKept(old(pageTable), pageTable)
        invariant Image() == Relocated(image, virtOffset, virtOffset + table, idx)
        invariant Copied(old(pageTable), |old(pool)|, pageTable, |pool|, Touched(image, table, idx))
        invariant AllApplicable(old(pageTable), image, table, idx, headers)
      {
        var rela := ReadRelocation(table, idx);
        SameKeys(old(pageTable), pageTable, table, idx, RelaAt(Image(), virtOffset + table + 24 * idx), headers);
        if rela.Err? {
          return Failed(rela.error);
        }
        ghost var mid, left := pageTable, |pool|;
        r := ApplyRelocation(rela.value, headers);
        RightsTrans(old(pageTable), mid, pageTable);
        if r.Failed? {
          TouchedGrows(image, table, idx + 1, count);
          CannotPatch(old(pageTable), |old(pool)|, mid, left, Touched(image, table, idx), TouchedBy(rela.value),
                      Touched(image, table, count));
          return;
        }
        CopiedMore(old(pageTable), |old(pool)|, mid, left, pageTable, |pool|, Touched(image, table, idx),
                   TouchedBy(rela.value));
      }
      CopiedAffordable(old(pageTable), |old(pool)|, pageTable, |pool|, Touched(image, table, count));
      StoresTable(old(pageTable), image, table, count, headers);
      r := Done;
    }

    // -------------------------------------------------------------------------------------
    // Flags
    // -------------------------------------------------------------------------------------

    predicate InPages(h: Header, p: nat) {
      Place(h.virtAddr).Some? && Place(h.virtAddr).value / 4096 <= p <= (Place(h.virtAddr).value + h.memSize - 1) / 4096
    }

    ghost predicate PagesMapped(pt: Table, h: Header) { Place(h.virtAddr).Some? && forall p | InPages(h, p) :: p in pt }

    /** Clears COPIED, or WRITABLE for the region a GNU_RELRO header names, on all pages of `h`. It
        fails exactly where such a page is not mapped. */
    method ClearFlag(h: Header, copied: bool) returns (r: Outcome)
      requires Valid()
      modifies this`pageTable
      ensures Valid() && Image() == old(Image()) && pageTable.Keys == old(pageTable.Keys)
      ensures r.Done? <==> PagesMapped(old(pageTable), h)
      ensures r.Done? ==> ClearedPages(old(pageTable), pageTable, h, copied)
    {
      hide Image, ViewOf, Valid, ClearedIn, ClearedPages, PagesMapped;
      var place := Place(h.virtAddr);
      if place.None? {
        NotPlaced(pageTable, h);
        return Failed(BadAddress);
      }
      var page, last := place.value / 4096, (place.value + h.memSize - 1) / 4096;
      ghost var first := page;
      ClearedNothing(pageTable, first, copied);
      while page <= last
        invariant first <= page && (page <= last + 1 || page == first)
        invariant Valid() && Image() == old(Image()) && pageTable.Keys == old(pageTable.Keys)
        invariant ClearedIn(old(pageTable), pageTable, first, page - 1, copied)
        invariant forall p | first <= p < page :: p in old(pageTable)
      {
        if page !in pageTable {
          PageMissing(old(pageTable), h, page);
          return Failed(NotMapped);
        }
        ghost var mid := pageTable;
        ClearPageFlag(page, copied);
        ClearedMore(old(pageTable), mid, pageTable, first, page, copied);
        page := page + 1;
      }
      PagesCleared(old(pageTable), pageTable, h, page, copied);
      r := Done;
    }

    lemma NotPlaced(pt: Table, h: Header)
      requires Place(h.virtAddr).None?
      ensures !PagesMapped(pt, h)
    {
    }

    lemma PageMissing(pt: Table, h: Header, page: nat)
      requires InPages(h, page) && page !in pt
      ensures !PagesMapped(pt, h)
    {
    }

    /** One flag cleared on exactly the pages of `h`. */
    ghost predicate ClearedPages(before: Table, after: Table, h: Header, copied: bool) {
      && after.Keys == before.Keys
      && forall p | p in after ::
           after[p] == Entry(before[p].frame, if InPages(h, p) then Clear(before[p].flags, copied) else before[p].flags)
    }

    lemma PagesCleared(before: Table, after: Table, h: Header, page: nat, copied: bool)
      requires Place(h.virtAddr).Some?
      requires var va := Place(h.virtAddr).value;
               && va / 4096 <= page && (va + h.memSize - 1) / 4096 < page
               && (page <= (va + h.memSize - 1) / 4096 + 1 || page == va / 4096)
               && ClearedIn(before, after, va / 4096, page - 1, copied)
               && forall p | va / 4096 <= p < page :: p in before
      ensures ClearedPages(before, after, h, copied) && PagesMapped(before, h)
    {
      hide Clear;
    }

    method ClearPageFlag(page: nat, copied: bool)
      requires Valid() && page in pageTable
      modifies this`pageTable
      ensures Valid() && Image() == old(Image())
      ensures pageTable.Keys == old(pageTable.Keys) && ClearedIn(old(pageTable), pageTable, page, page, copied)
    {
      var flags := Clear(pageTable[page].flags, copied);
      FlagsView(pageTable, memory, page, flags);
      pageTable := pageTable[page := Entry(pageTable[page].frame, flags)];
    }

    /** Some header of the given kind names page `p`. */
    ghost predicate Named(headers: seq<Header>, kind: HeaderKind, p: nat) {
      exists j | 0 <= j < |headers| :: headers[j].kind == kind && InPages(headers[j], p)
    }

    lemma NamedMore(headers: seq<Header>, i: nat, kind: HeaderKind, p: nat)
      requires i < |headers|
      ensures Named(headers[..i + 1], kind, p)
         <==> Named(headers[..i], kind, p) || (headers[i].kind == kind && InPages(headers[i], p))
    {
      hide InPages;
      var front, more := headers[..i], headers[..i + 1];
      if j :| 0 <= j < |front| && front[j].kind == kind && InPages(front[j], p) {
        assert more[j] == front[j];
      }
      if j :| 0 <= j < |more| && more[j].kind == kind && InPages(more[j], p) {
        assert j < i ==> front[j] == more[j];
      }
      assert more[i] == headers[i];
    }

    /** One flag cleared on exactly the pages that headers of one kind name. */
    ghost predicate ClearedFor(before: Table, after: Table, headers: seq<Header>, kind: HeaderKind, copied: bool) {
      && after.Keys == before.Keys
      && forall p | p in after ::
           after[p] ==
             Entry(before[p].frame, if Named(headers, kind, p) then Clear(before[p].flags, copied) else before[p].flags)
    }

    /** Clears a flag for all headers of one kind: COPIED, the loader's own mark, for all load
        segments, or WRITABLE for all GNU_RELRO regions. */
    method ClearFlags(headers: seq<Header>, kind: HeaderKind, copied: bool) returns (r: Outcome)
      requires Valid()
      modifies this`pageTable
      ensures Valid() && Image() == old(Image()) && pageTable.Keys == old(pageTable.Keys)
      ensures r.Done? <==> forall h | h in headers && h.kind == kind :: PagesMapped(old(pageTable), h)
      ensures r.Done? ==> ClearedFor(old(pageTable), pageTable, headers, kind, copied)
    {
      hide Image, ViewOf, Valid, InPages, Clear, Named, PagesMapped;
      forall p | p in pageTable ensures !Named(headers[..0], kind, p) {
        NamedNothing(kind, p);
        assert headers[..0] == [];
      }
      for i := 0 to |headers|
        invariant Valid() && Image() == old(Image())
                  && ClearedFor(old(pageTable), pageTable, headers[..i], kind, copied)
        invariant forall h | h in headers[..i] && h.kind == kind :: PagesMapped(old(pageTable), h)
      {
        ghost var mid := pageTable;
        if headers[i].kind == kind {
          r := ClearFlag(headers[i], copied);
          SameMapped(old(pageTable), mid, headers[i]);
          if r.Failed? {
            return;
          }
        }
        forall p | p in pageTable
          ensures pageTable[p] == Entry(old(pageTable)[p].frame,
                    if Named(headers[..i + 1], kind, p) then Clear(old(pageTable)[p].flags, copied)
                    else old(pageTable)[p].flags)
        {
          NamedMore(headers, i, kind, p);
          ClearTwice(old(pageTable)[p].flags, copied);
        }
      }
      assert headers[..|headers|] == headers;
      r := Done;
    }

    lemma NamedNothing(kind: HeaderKind, p: nat)
      ensures !Named([], kind, p)
    {
    }

    lemma SameMapped(pt: Table, pt': Table, h: Header)
      requires pt.Keys == pt'.Keys
      ensures PagesMapped(pt, h) <==> PagesMapped(pt', h)
    {
    }

    // -------------------------------------------------------------------------------------
    // The whole load
    // -------------------------------------------------------------------------------------

    ghost predicate AllLoaded(v: View, headers: seq<Header>) {
      forall h | h in headers && h.kind == Load :: Place(h.virtAddr).Some? && InFile(h) && Loaded(v, h)
    }

    lemma LoadedKept(before: View, after: View, headers: seq<Header>)
      requires AllLoaded(before, headers) && ViewKept(before, after)
      ensures AllLoaded(after, headers)
    {
    }

    ghost predicate AllProtected(pt: Table, headers: seq<Header>) {
      forall h | h in headers && h.kind == Load :: Place(h.virtAddr).Some? && Protected(pt, h)
    }

    lemma ProtectedKept(before: Table, after: Table, headers: seq<Header>)
      requires AllProtected(before, headers) && RightsKept(before, after)
      ensures AllProtected(after, headers)
    {
    }

    /** Every page of a load segment ends with the rights its header asks for, less WRITABLE in
        GNU_RELRO regions, and without the loader's mark. */
    ghost predicate FinalRights(pt: Table, headers: seq<Header>) {
      forall h, p: nat | h in headers && h.kind == Load && InPages(h, p) ::
        p in pt && pt[p].flags == Flags(h.writable && !Named(headers, GnuRelro, p), !h.executable, false)
    }

    lemma FinallyRight(pt: Table, relro: Table, last: Table, headers: seq<Header>)
      requires AllProtected(pt, headers) && ClearedFor(pt, relro, headers, GnuRelro, false)
               && ClearedFor(relro, last, headers, Load, true)
      ensures FinalRights(last, headers)
    {
      hide Named;
      forall h, p: nat | h in headers && h.kind == Load && InPages(h, p)
        ensures p in last && last[p].flags == Flags(h.writable && !Named(headers, GnuRelro, p), !h.executable, false)
      {
        assert Protected(pt, h);
        IsNamed(headers, h, p);
      }
    }

    lemma IsNamed(headers: seq<Header>, h: Header, p: nat)
      requires h in headers && InPages(h, p)
      ensures Named(headers, h.kind, p)
    {
      var j :| 0 <= j < |headers| && headers[j] == h;
    }

    /** The pages of loaded segments are mapped, so clearing their marks cannot fail. */
    lemma LoadPagesMapped(pt: Table, pt': Table, headers: seq<Header>)
      requires AllProtected(pt, headers) && pt'.Keys == pt.Keys
      ensures forall h | h in headers && h.kind == Load :: PagesMapped(pt', h)
    {
      forall h | h in headers && h.kind == Load ensures PagesMapped(pt', h) {
        assert Protected(pt, h);
      }
    }

    // ---- which pages all load segments have, and what loading them costs ----

    /** The pages of the load segments. */
    ghost function AllPages(headers: seq<Header>): set<nat> {
      if headers == [] then {} else AllPages(headers[..|headers| - 1]) + PagesOf(headers[|headers| - 1])
    }

    ghost function PagesOf(h: Header): set<nat> {
      if h.kind == Load && Place(h.virtAddr).Some? then PagesAt(Place(h.virtAddr).value, h) else {}
    }

    /** The pages of them that loading makes private. */
    ghost function AllTails(headers: seq<Header>): set<nat> {
      if headers == [] then {} else AllTails(headers[..|headers| - 1]) + TailsOf(headers[|headers| - 1])
    }

    ghost function TailsOf(h: Header): set<nat> {
      if h.kind == Load && Place(h.virtAddr).Some? then TailAt(Place(h.virtAddr).value, h) else {}
    }

    ghost function AllFrames(headers: seq<Header>): nat {
      if headers == [] then 0 else AllFrames(headers[..|headers| - 1]) + FramesFor(headers[|headers| - 1])
    }

    ghost function FramesFor(h: Header): nat {
      if h.kind == Load && Place(h.virtAddr).Some? then FramesAtLoad(Place(h.virtAddr).value, h) else 0
    }

    /** No load segment has a page that is mapped, or that a load segment before it has. */
    ghost predicate PagesApart(keys: set<nat>, headers: seq<Header>) {
      headers == [] ||
      var front := headers[..|headers| - 1];
      PagesApart(keys, front) && PagesOf(headers[|headers| - 1]) !! keys + AllPages(front)
    }

    /** The table and the number of frames left once the load segments are loaded. */
    ghost predicate AllDone(pt: Table, frames: int, pt': Table, frames': int, headers: seq<Header>) {
      && PagesApart(pt.Keys, headers) && frames' == frames - AllFrames(headers)
      && pt'.Keys == pt.Keys + AllPages(headers)
      && Uncopied(pt') == Uncopied(pt) + (AllPages(headers) - AllTails(headers))
    }

    lemma NoneDone(pt: Table, frames: int)
      ensures AllDone(pt, frames, pt, frames, [])
    {
    }

    lemma {:induction false} TailsArePages(headers: seq<Header>)
      ensures AllTails(headers) <= AllPages(headers)
    {
      hide PagesAt, TailAt;
      if headers != [] {
        var h := headers[|headers| - 1];
        TailsArePages(headers[..|headers| - 1]);
        if h.kind == Load && Place(h.virtAddr).Some? {
          TailIsPage(Place(h.virtAddr).value, h);
        }
      }
    }

    /** One header more. */
    lemma OneMoreDone(pt: Table, frames: int, mid: Table, left: int, pt': Table, frames': int, headers: seq<Header>,
                      i: nat)
      requires i < |headers| && AllDone(pt, frames, mid, left, headers[..i])
      requires PagesOf(headers[i]) !! mid.Keys && frames' == left - FramesFor(headers[i])
      requires pt'.Keys == mid.Keys + PagesOf(headers[i])
               && Uncopied(pt') == Uncopied(mid) + (PagesOf(headers[i]) - TailsOf(headers[i]))
      ensures AllDone(pt, frames, pt', frames', headers[..i + 1])
    {
      hide PagesOf, TailsOf, FramesFor, Uncopied;
      var more := headers[..i + 1];
      assert more[..|more| - 1] == headers[..i] && more[|more| - 1] == headers[i];
      TailsArePages(headers[..i]);
      TailOfPage(headers[i]);
    }

    lemma TailOfPage(h: Header)
      ensures TailsOf(h) <= PagesOf(h)
    {
      if h.kind == Load && Place(h.virtAddr).Some? {
        TailIsPage(Place(h.virtAddr).value, h);
      }
    }

    /** What does not fit the first headers does not fit them all. */
    lemma {:induction false} FrontFits(keys: set<nat>, headers: seq<Header>, i: nat)
      requires i <= |headers|
      ensures PagesApart(keys, headers) ==> PagesApart(keys, headers[..i])
      ensures AllFrames(headers[..i]) <= AllFrames(headers) && AllPages(headers[..i]) <= AllPages(headers)
      decreases |headers|
    {
      hide PagesOf, FramesFor;
      if i < |headers| {
        FrontFits(keys, headers[..|headers| - 1], i);
        assert headers[..|headers| - 1][..i] == headers[..i];
      } else {
        assert headers[..i] == headers;
      }
    }

    /** The header that failed does not fit behind those before it. */
    lemma CannotLoad(pt: Table, frames: int, mid: Table, left: int, headers: seq<Header>, i: nat)
      requires i < |headers| && AllDone(pt, frames, mid, left, headers[..i])
      requires !(PagesOf(headers[i]) !! mid.Keys) || left < FramesFor(headers[i])
      ensures !(PagesApart(pt.Keys, headers) && AllFrames(headers) <= frames)
    {
      hide PagesOf, FramesFor, Uncopied;
      var more := headers[..i + 1];
      assert more[..|more| - 1] == headers[..i] && more[|more| - 1] == headers[i];
      FrontFits(pt.Keys, headers, i + 1);
    }

    /** Loads every segment, relocates, protects and cleans up. `loaded` and `plain` are the image and
        the page table before the relocations, which there are if the segments have room: then
        every segment is loaded, whatever happens next. The final image is `loaded` relocated, and no page is
        mapped but those of load segments. It succeeds exactly where the pages of the segments are
        apart and unmapped, every relocation can be applied, all GNU_RELRO pages are mapped, and
        there are frames for the zeroed parts and for one copy of each page that is relocated. */
    method LoadSegments(headers: seq<Header>, table: nat, count: nat)
      returns (r: Outcome, ghost loaded: View, ghost plain: Table)
      requires Valid()
      requires forall h | h in headers && h.kind == Load :: InFile(h) && Congruent(h)
      modifies this`pageTable, this`memory, this`pool
      ensures Valid()
      ensures PagesApart(old(pageTable).Keys, headers) && AllFrames(headers) <= |old(pool)| ==>
                && ViewKept(old(Image()), loaded) && AllLoaded(loaded, headers)
                && plain.Keys == old(pageTable).Keys + AllPages(headers)
                && Uncopied(plain) == Uncopied(old(pageTable)) + (AllPages(headers) - AllTails(headers))
                && forall a: nat :: a in loaded <==> a / 4096 in plain
      ensures r.Done? ==> Image() == Relocated(loaded, virtOffset, virtOffset + table, count)
      ensures r.Done? ==> TableStored(loaded, Image(), table, count)
      ensures r.Done? ==> FinalRights(pageTable, headers) && pageTable.Keys == plain.Keys
      ensures r.Done? <==> && PagesApart(old(pageTable).Keys, headers)
                           && AllApplicable(plain, loaded, table, count, headers)
                           && (forall h | h in headers && h.kind == GnuRelro :: PagesMapped(plain, h))
                           && AllFrames(headers) + |Uncopied(plain) * Touched(loaded, table, count)| <= |old(pool)|
      ensures pageTable.Keys <= old(pageTable).Keys + AllPages(headers)
    {
      hide Image, ViewOf, Valid, Loaded, InFile, Relocated, AllProtected, Protected, ClearedFor, FinalRights,
           RightsKept, PagesMapped, AllApplicable, Touched, PagesApart, AllPages, AllTails, AllFrames, Uncopied,
           AllLoaded, TableStored;
      r := LoadAll(headers);
      loaded, plain := Image(), pageTable;
      if r.Failed? {
        return;
      }
      ImageDomain();
      r := ApplyRelocations(table, count, headers);
      if r.Failed? {
        return;
      }
      ProtectedKept(plain, pageTable, headers);
      ghost var relocated := pageTable;
      SameRelro(plain, relocated, headers);
      r := ClearFlags(headers, GnuRelro, false);
      if r.Failed? {
        return;
      }
      ghost var relro := pageTable;
      LoadPagesMapped(relocated, relro, headers);
      r := ClearFlags(headers, Load, true);
      assert r.Done?;
      FinallyRight(relocated, relro, pageTable, headers);
    }

    lemma ImageDomain()
      requires Valid()
      ensures forall a: nat :: a in Image() <==> a / 4096 in pageTable
    {
    }

    lemma SameRelro(pt: Table, pt': Table, headers: seq<Header>)
      requires pt.Keys == pt'.Keys
      ensures forall h | h in headers :: PagesMapped(pt, h) <==> PagesMapped(pt', h)
    {
    }

    /** Loads the load segments one after the other. It succeeds exactly where their pages are apart
        and unmapped, and there are frames for their zeroed parts. */
    method LoadAll(headers: seq<Header>) returns (r: Outcome)
      requires Valid()
      requires forall h | h in headers && h.kind == Load :: InFile(h) && Congruent(h)
      modifies this`pageTable, this`memory, this`pool
      ensures Valid() && ViewKept(old(Image()), Image())
      ensures r.Done? ==> AllLoaded(Image(), headers) && AllProtected(pageTable, headers)
      ensures r.Done? ==> AllDone(old(pageTable), |old(pool)|, pageTable, |pool|, headers)
      ensures r.Done? <==> PagesApart(old(pageTable).Keys, headers) && AllFrames(headers) <= |old(pool)|
      ensures pageTable.Keys <= old(pageTable).Keys + AllPages(headers)
    {
      hide Image, ViewOf, Valid, Loaded, InFile, Protected, RightsKept, Uncopied, AllDone, PagesApart, AllPages,
           AllFrames, PagesAt, FramesAtLoad, ViewKept;
      NoneDone(pageTable, |pool|);
      ViewSelf(Image(), 0);
      for i := 0 to |headers|
        invariant Valid() && ViewKept(old(Image()), Image())
        invariant AllLoaded(Image(), headers[..i]) && AllProtected(pageTable, headers[..i])
        invariant AllDone(old(pageTable), |old(pool)|, pageTable, |pool|, headers[..i])
      {
        ghost var before, mid, left := Image(), pageTable, |pool|;
        if headers[i].kind == Load {
          assert headers[i] in headers;
          r := HandleLoadSegment(headers[i]);
          ViewTrans(old(Image()), before, Image());
          KeysWithin(old(pageTable), |old(pool)|, mid, left, headers, i);
          if r.Failed? {
            CannotLoad(old(pageTable), |old(pool)|, mid, left, headers, i);
            return;
          }
          LoadedKept(before, Image(), headers[..i]);
          ProtectedKept(mid, pageTable, headers[..i]);
        }
        OneMoreDone(old(pageTable), |old(pool)|, mid, left, pageTable, |pool|, headers, i);
      }
      assert headers[..|headers|] == headers;
      DoneMeans(old(pageTable), |old(pool)|, pageTable, |pool|, headers);
      r := Done;
    }

    lemma DoneMeans(pt: Table, frames: int, pt': Table, frames': nat, headers: seq<Header>)
      requires AllDone(pt, frames, pt', frames', headers)
      ensures PagesApart(pt.Keys, headers) && AllFrames(headers) <= frames && pt'.Keys == pt.Keys + AllPages(headers)
    {
    }

    lemma KeysWithin(pt: Table, frames: int, mid: Table, left: int, headers: seq<Header>, i: nat)
      requires i < |headers| && AllDone(pt, frames, mid, left, headers[..i])
      ensures mid.Keys + PagesOf(headers[i]) <= pt.Keys + AllPages(headers)
    {
      hide PagesOf, Uncopied;
      var more := headers[..i + 1];
      assert more[..|more| - 1] == headers[..i] && more[|more| - 1] == headers[i];
      FrontFits(pt.Keys, headers, i + 1);
    }
  }
}
