/** Address layout and memory writes of the user-side exploit sequence
    (libsu.c `memchunkhax2`, lines 124-233), restricted to its sequential
    data manipulations.

    A two-page allocation is requested directly after the process heap.
    While the kernel is still mapping it, the allocator header in the first
    page is redirected at the kernel object, so the second page ends up
    mapping the slab-heap page that holds the object.  The tail of that page
    from the object onward is copied out, later copied back, and the word
    just before the object (its dispatch-table pointer) is overwritten.
 */
module MemChunk {

  import opened Memory
  import Translation

  /** `data->result` while the allocation has not completed (`-1`). */
  const Pending: Word := 0xFFFF_FFFF

  /** Byte offset of the forward link in the allocator's chunk header, which
      starts with a 32-bit size followed by the forward and backward links. */
  const NextLinkOffset: int := 4

  /** Bytes in the raced allocation request: two pages. */
  const RequestSize: int := 2 * PageSize

  /** The record shared with the racing threads (`AllocateData`). */
  datatype AllocateData = AllocateData(addr: Addr, size: Addr, result: Word)

  /** Setup of the shared record (lines 137-139): two pages requested
      `heapSize` bytes past the heap's start, the result still pending. */
  function NewAllocateData(heap: Addr, heapSize: Addr): (d: AllocateData)
    ensures Wrap(d.addr - heap) == heapSize
    ensures d.size == RequestSize && d.result == Pending
  {
    RangeOffset(heap, heapSize);
    AllocateData(At(heap, heapSize), RequestSize, Pending)
  }

  /** Unless heap and request together exceed the address space, no byte of
      the request belongs to the heap. */
  lemma {:induction false} RequestAfterHeap(heap: Addr, heapSize: Addr, a: Addr)
    requires heapSize + RequestSize <= Modulus
    ensures InRange(a, NewAllocateData(heap, heapSize).addr, RequestSize) ==> !InRange(a, heap, heapSize)
  {
    var d := NewAllocateData(heap, heapSize);
    WrapNear(heap + heapSize);
    WrapNear(a - d.addr);
    WrapNear(a - heap);
  }

  /** Address of the throwaway page requested right after the two-page
      request (line 157). */
  function IsolatedPage(d: AllocateData): (page: Addr)
    ensures Wrap(page - d.addr) == d.size
  {
    RangeOffset(d.addr, d.size);
    At(d.addr, d.size)
  }

  /** Address of the page requested right after the throwaway page
      (line 158). */
  function IsolatingPage(isolatedPage: Addr): (page: Addr)
    ensures Wrap(page - isolatedPage) == PageSize
  {
    RangeOffset(isolatedPage, PageSize);
    At(isolatedPage, PageSize)
  }

  /** The throwaway page starts two pages past the request, and the
      isolating page three pages past it. */
  lemma {:induction false} IsolationPages(heap: Addr, heapSize: Addr)
    ensures var d := NewAllocateData(heap, heapSize);
            && IsolatedPage(d) == At(d.addr, 2 * PageSize)
            && IsolatingPage(IsolatedPage(d)) == At(d.addr, 3 * PageSize)
  {
    var d := NewAllocateData(heap, heapSize);
    var iso := IsolatedPage(d);
    WrapNear(d.addr + 2 * PageSize);
    WrapNear(iso + PageSize);
    WrapNear(d.addr + 3 * PageSize);
  }

  /** The request, the throwaway page and the isolating page are three
      back-to-back ranges: together they cover the four pages from the
      request's start, and no byte belongs to two of them. */
  lemma {:induction false} IsolationLayout(heap: Addr, heapSize: Addr, a: Addr)
    ensures var d := NewAllocateData(heap, heapSize);
            var iso := IsolatedPage(d);
            var isoing := IsolatingPage(iso);
            && (InRange(a, d.addr, 4 * PageSize) <==>
                  InRange(a, d.addr, d.size) || InRange(a, iso, PageSize) || InRange(a, isoing, PageSize))
            && !(InRange(a, d.addr, d.size) && InRange(a, iso, PageSize))
            && !(InRange(a, d.addr, d.size) && InRange(a, isoing, PageSize))
            && !(InRange(a, iso, PageSize) && InRange(a, isoing, PageSize))
  {
    var d := NewAllocateData(heap, heapSize);
    IsolationPages(heap, heapSize);
    FourPages(d.addr, a);
  }

  /** The four pages from `start`, split as two pages, one page and one
      page. */
  lemma {:induction false} FourPages(start: Addr, a: Addr)
    ensures var off := Wrap(a - start);
            && (Wrap(a - At(start, 2 * PageSize)) < PageSize <==> 2 * PageSize <= off < 3 * PageSize)
            && (Wrap(a - At(start, 3 * PageSize)) < PageSize <==> 3 * PageSize <= off < 4 * PageSize)
  {
    ShiftOffset(a, start, 2 * PageSize);
    ShiftOffset(a, start, 3 * PageSize);
  }

  /** The isolation step (lines 157-160): allocate the throwaway page,
      allocate the isolating page, free the throwaway page, each call made
      only if the previous one returned 0.  The step succeeds exactly when
      all three calls do, and otherwise reports the first failure. */
  function IsolationResult(allocIsolated: Word, allocIsolating: Word, freeIsolated: Word): (res: Word)
    ensures res == 0 <==> allocIsolated == 0 && allocIsolating == 0 && freeIsolated == 0
    ensures allocIsolated != 0 ==> res == allocIsolated
    ensures allocIsolated == 0 && allocIsolating != 0 ==> res == allocIsolating
    ensures allocIsolated == 0 && allocIsolating == 0 ==> res == freeIsolated
  {
    var res := allocIsolated;
    var res := if res == 0 then allocIsolating else res;
    if res == 0 then freeIsolated else res
  }

  /** Where the allocator header's `next` link is overwritten (line 184). */
  function NextLink(d: AllocateData): (link: Addr)
    ensures Wrap(link - d.addr) == NextLinkOffset
  {
    RangeOffset(d.addr, NextLinkOffset);
    At(d.addr, NextLinkOffset)
  }

  /** The range copied out and back (lines 187-188, 198): from the object's
      offset within the second page up to the end of that page. */
  datatype Window = Window(start: Addr, len: nat)

  function BackupWindow(addr: Addr, kObj: Addr): (w: Window)
    ensures 0 < w.len <= PageSize
    ensures w.len + PageOffset(kObj) == PageSize
    ensures At(w.start, w.len) == At(addr, RequestSize)
  {
    var off := PageOffset(kObj);
    WrapNear(addr + PageSize + off);
    WrapNear(At(addr, PageSize + off) + (PageSize - off));
    WrapNear(addr + RequestSize);
    Window(At(addr, PageSize + off), PageSize - off)
  }

  /** Address of the object's dispatch-table pointer: the word just before
      the object (line 202). */
  function VtableSlot(addr: Addr, kObj: Addr): (slot: Addr)
    ensures Wrap(slot - addr) == PageSize + PageOffset(kObj) - 4
  {
    RangeOffset(addr, PageSize + PageOffset(kObj) - 4);
    At(addr, PageSize + PageOffset(kObj) - 4)
  }

  /** The dispatch slot ends exactly where the window begins. */
  lemma SlotAdjoinsWindow(addr: Addr, kObj: Addr)
    ensures At(VtableSlot(addr, kObj), 4) == BackupWindow(addr, kObj).start
  {
    WrapNear(addr + PageSize + PageOffset(kObj) - 4);
    WrapNear(VtableSlot(addr, kObj) + 4);
  }

  /** Every byte of the window lies in the second page of the request. */
  lemma {:induction false} WindowInSecondPage(addr: Addr, kObj: Addr, a: Addr)
    requires InRange(a, BackupWindow(addr, kObj).start, BackupWindow(addr, kObj).len)
    ensures InRange(a, At(addr, PageSize), PageSize)
  {
    var po := PageOffset(kObj);
    ShiftOffset(a, addr, PageSize + po);
    ShiftOffset(a, addr, PageSize);
  }

  /** Every byte of the dispatch slot lies in the request and outside the
      window. */
  lemma {:induction false} SlotOutsideWindow(addr: Addr, kObj: Addr, a: Addr)
    requires InRange(a, VtableSlot(addr, kObj), 4)
    ensures InRange(a, addr, RequestSize)
    ensures !InRange(a, BackupWindow(addr, kObj).start, BackupWindow(addr, kObj).len)
  {
    var po := PageOffset(kObj);
    ShiftOffset(a, addr, PageSize + po);
    ShiftOffset(a, addr, PageSize + po - 4);
  }

  /** The header link lies in the first page, away from the window and the
      slot. */
  lemma {:induction false} LinkInFirstPage(addr: Addr, kObj: Addr, a: Addr)
    requires InRange(a, At(addr, NextLinkOffset), 4)
    ensures InRange(a, addr, PageSize)
    ensures !InRange(a, BackupWindow(addr, kObj).start, BackupWindow(addr, kObj).len)
    ensures !InRange(a, VtableSlot(addr, kObj), 4)
  {
    var po := PageOffset(kObj);
    ShiftOffset(a, addr, NextLinkOffset);
    ShiftOffset(a, addr, PageSize + po);
    ShiftOffset(a, addr, PageSize + po - 4);
  }

  /** Byte `k` of the slot is in the second page, the page that maps the
      object, exactly when `PageOffset(kObj) + k >= 4`.  For an object at
      least four bytes into its page the whole slot is there; for offset 0
      it is the last word of the first page; for offsets 1 to 3 the write
      straddles the boundary between the two pages. */
  lemma {:induction false} SlotInObjectPage(addr: Addr, kObj: Addr, k: int)
    requires 0 <= k < 4
    ensures InRange(At(VtableSlot(addr, kObj), k), At(addr, PageSize), PageSize) <==> PageOffset(kObj) + k >= 4
  {
    var j := PageSize + PageOffset(kObj) - 4;
    AtAt(addr, j, k);
    RangeOffset(addr, j + k);
    ShiftOffset(At(addr, j + k), addr, PageSize);
  }

  /** Line 184: store the translated object address into the header's
      `next` link, redirecting the in-progress mapping. */
  function RedirectHeader(m: Mem, d: AllocateData, kObj: Addr): (m': Mem)
    requires Mapped(m, NextLink(d), 4)
    ensures m'.Keys == m.Keys
    ensures Mapped(m', NextLink(d), 4) && Load32(m', NextLink(d)) == kObj as Word
    ensures forall a :: a in m && !InRange(a, NextLink(d), 4) ==> m'[a] == m[a]
  {
    Store32(m, NextLink(d), kObj as Word)
  }

  /** The window's bytes are mapped in `m`. */
  ghost predicate WindowMapped(m: Mem, addr: Addr, kObj: Addr) {
    var w := BackupWindow(addr, kObj);
    Mapped(m, w.start, w.len)
  }

  /** Line 188: copy the window into the backup buffer. */
  function TakeBackup(m: Mem, addr: Addr, kObj: Addr): (backup: seq<Byte>)
    requires WindowMapped(m, addr, kObj)
    ensures |backup| + PageOffset(kObj) == PageSize
    ensures forall k :: 0 <= k < |backup| ==> backup[k] == m[At(BackupWindow(addr, kObj).start, k)]
  {
    var w := BackupWindow(addr, kObj);
    ReadBytes(m, w.start, w.len)
  }

  /** Line 198: copy the backup buffer back over the window. */
  function RestoreBackup(m: Mem, addr: Addr, kObj: Addr, backup: seq<Byte>): (m': Mem)
    requires WindowMapped(m, addr, kObj)
    requires |backup| == BackupWindow(addr, kObj).len
    ensures m'.Keys == m.Keys
    ensures WindowMapped(m', addr, kObj)
    ensures TakeBackup(m', addr, kObj) == backup
    ensures forall a :: a in m && !InRange(a, BackupWindow(addr, kObj).start, |backup|) ==> m'[a] == m[a]
  {
    var w := BackupWindow(addr, kObj);
    ReadAfterWrite(m, w.start, backup);
    WriteBytes(m, w.start, backup)
  }

  /** Line 202: overwrite the object's dispatch-table pointer. */
  function PlantVtable(m: Mem, addr: Addr, kObj: Addr, vtable: Addr): (m': Mem)
    requires Mapped(m, VtableSlot(addr, kObj), 4)
    ensures m'.Keys == m.Keys
    ensures Mapped(m', VtableSlot(addr, kObj), 4) && Load32(m', VtableSlot(addr, kObj)) == vtable as Word
    ensures forall a :: a in m && !InRange(a, VtableSlot(addr, kObj), 4) ==> m'[a] == m[a]
  {
    Store32(m, VtableSlot(addr, kObj), vtable as Word)
  }

  /** Lines 198-202 applied to the memory `m1` found once the mapping has
      completed, with the backup taken earlier from `m0`. */
  function RestoreAndPlant(m0: Mem, m1: Mem, addr: Addr, kObj: Addr, vtable: Addr): (m': Mem)
    requires WindowMapped(m0, addr, kObj) && WindowMapped(m1, addr, kObj)
    requires Mapped(m1, VtableSlot(addr, kObj), 4)
    ensures m'.Keys == m1.Keys
    ensures forall a :: a in m1 && InRange(a, BackupWindow(addr, kObj).start, BackupWindow(addr, kObj).len) ==> a in m0 && m'[a] == m0[a]
    ensures Mapped(m', VtableSlot(addr, kObj), 4) && Load32(m', VtableSlot(addr, kObj)) == vtable as Word
  {
    var m' := PlantVtable(RestoreBackup(m1, addr, kObj, TakeBackup(m0, addr, kObj)), addr, kObj, vtable);
    RestoreAndPlantExact(m0, m1, addr, kObj, vtable);
    m'
  }

  /** The byte-exact outcome of restore and plant: every byte of the window
      is back to its value when the backup was taken, the dispatch slot
      holds the fake table's address, and every other byte is whatever the
      completed mapping left there. */
  lemma {:induction false} RestoreAndPlantExact(m0: Mem, m1: Mem, addr: Addr, kObj: Addr, vtable: Addr)
    requires WindowMapped(m0, addr, kObj) && WindowMapped(m1, addr, kObj)
    requires Mapped(m1, VtableSlot(addr, kObj), 4)
    ensures var m' := PlantVtable(RestoreBackup(m1, addr, kObj, TakeBackup(m0, addr, kObj)), addr, kObj, vtable);
            var w := BackupWindow(addr, kObj);
            var slot := VtableSlot(addr, kObj);
            && (forall a :: a in m1 && InRange(a, w.start, w.len) ==> a in m0 && m'[a] == m0[a])
            && Mapped(m', slot, 4) && Load32(m', slot) == vtable as Word
            && (forall a :: a in m1 && !InRange(a, w.start, w.len) && !InRange(a, slot, 4) ==> m'[a] == m1[a])
  {
    var w := BackupWindow(addr, kObj);
    var slot := VtableSlot(addr, kObj);
    var backup := TakeBackup(m0, addr, kObj);
    var restored := RestoreBackup(m1, addr, kObj, backup);
    var m' := PlantVtable(restored, addr, kObj, vtable);
    RestoreWindow(m0, m1, w.start, w.len);
    assert restored == WriteBytes(m1, w.start, ReadBytes(m0, w.start, w.len));
    forall a | a in m1 && InRange(a, w.start, w.len)
      ensures a in m0 && m'[a] == m0[a]
    {
      if InRange(a, slot, 4) {
        SlotOutsideWindow(addr, kObj, a);
      }
      assert m'[a] == restored[a];
    }
  }

  /** When nothing touched the window between backup and restore, the
      restore is a no-op and the dispatch slot is the only change. */
  lemma {:induction false} RestoreUnchangedWindow(m: Mem, addr: Addr, kObj: Addr, vtable: Addr)
    requires WindowMapped(m, addr, kObj)
    requires Mapped(m, VtableSlot(addr, kObj), 4)
    ensures RestoreAndPlant(m, m, addr, kObj, vtable) == PlantVtable(m, addr, kObj, vtable)
  {
    var w := BackupWindow(addr, kObj);
    WriteBackIdentity(m, w.start, w.len);
  }

  /** The page offset of the translated object, which sizes the window and
      places the slot, is the page offset of the object's own kernel
      virtual address. */
  lemma TranslatedOffset(addr: Addr, kObjVirtual: Addr)
    ensures BackupWindow(addr, Translation.ToPhysical(kObjVirtual)) == BackupWindow(addr, kObjVirtual)
    ensures VtableSlot(addr, Translation.ToPhysical(kObjVirtual)) == VtableSlot(addr, kObjVirtual)
  {
  }
}
