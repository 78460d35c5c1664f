# memchunkhax II: verified model of the exploit's data manipulations

This project models the sequential data handling inside `libsu.c`. That file
holds a kernel privilege escalation for an ARM11 handheld console. It races a
slow two-page memory mapping against user code, redirects the kernel
allocator's free-list link at a kernel object, and hijacks the object's
dispatch table. Kernel code then patches the service access check and clears
the process identifier. The thread race, the system calls and the inline
assembly cannot be modelled. What is modelled is the sequential address
computations and memory writes listed below:

- **`Signature`** (`signature.dfy`) covers the kernel-code patch in
  `kernel_entry`. Kernel code is a sequence of 32-bit instruction words. The
  first `0x10000` start positions are scanned for the four-word access-check
  signature `0x0AFFFFEA, 0xE35A0000, 0x0A00000D, 0xE3A0E000`. At each match,
  words 0 and 2 become the NOP `0xE320F000`. `KernelCodePatch` is the loop as
  written: it tests the words as they stand, including words it has already
  rewritten. It is proved equal to `PatchAll`, which patches every match of
  the original array. Three facts make that possible. Two matches never share
  a word. The NOP is none of the signature words. At each step the test on
  the partly patched words gives the same answer as on the original words.
  Patching twice changes nothing.
- **`Privilege`** (`privilege.dfy`) covers `patchPID` and `unpatchPID`, as
  functions on a `PidState`. That state holds byte memory, the address of the
  current `KProcess`, the revision flag and `pidBackup`. The identifier field
  is at `0xBC` on the newer revision and at `0xB4` otherwise. Patching then
  unpatching restores memory byte for byte.
- **`Payload`** (`payload.dfy`) covers `kernel_entry` as a whole. It runs the
  scan, then `patchPID`, then sets `kernelHacked` to 0.
- **`Translation`** (`translation.dfy`) covers the slab-heap address
  translation. The result is `v - 0xFFF70000 + 0x1FFA0000 - 0x40000000`
  modulo 2^32. It keeps the page offset, and it maps slab-heap offset `d` to
  `0xDFFA0000 + d`. It is a bijection on 32-bit addresses.
- **`MemChunk`** (`memchunk.dfy`) covers the address plan of `memchunkhax2`
  and its memory writes:
  - the two-page request placed after the heap;
  - the throwaway and isolating pages above it;
  - the header `next` link;
  - the backup window `[addr + PAGE + off, addr + 2*PAGE)`, where
    `off = kObjAddr & 0xFFF`;
  - the dispatch-table slot at `addr + PAGE + off - 4`.

  The window ends exactly at the end of the request. The slot ends where the
  window begins. The header link lies in the first page, away from both.
  Byte `k` of the 4-byte slot lies in the page that maps the object exactly
  when `off + k >= 4`. So the whole slot is in that page when `off >= 4`.
  When `off` is 0 it is the last word of the first page. When `off` is 1 to
  3 the write straddles the boundary between the two pages. Restoring a backup
  taken earlier and then planting the table pointer has an exact result.
  Every window byte is back to its earlier value, and the slot holds the
  table address. Every other byte is whatever the completed mapping left
  there.
- **`Memory`** (`memory.dfy`) is the shared memory model. Addresses are
  integers in `[0, 2^32)`, and every `u32` sum is reduced with `Wrap`.
  Memory is a finite map from addresses to bytes. `memcpy` becomes
  `ReadBytes`/`WriteBytes`, and `*(u32*)` becomes a little-endian
  `Load32`/`Store32`. `a & 0xFFF` on a `u32` is written `a % 0x1000`. The two
  agree on unsigned values.

Fixed kernel addresses are parameters of the model. These are the `KProcess`
pointer at `0xFFFF9004` and the code base `0xdff80000`. The scanned code
region and the `KProcess` object are kept apart: the first is a word
sequence, the second is byte memory.

The isolation step (lines 157-159) allocates the page just above the
request, then a second "isolating" page above that, and then frees only the
first. The isolating page stays allocated until cleanup (line 216). The
model follows these three calls (`IsolationPages`, `IsolationLayout`,
`IsolationResult`).

## Model

| member | source | states |
|---|---|---|
| Signature.PatchPrefix | source/libsu.c:72-81 | Reference definition of the scan over its first `n` start positions: a word is NOP exactly when it is at offset 0 or 2 of a match in the original array that starts before `n`. Every other word is kept. |
| Signature.PatchAll | source/libsu.c:72-81 | Covers every original match `i < 0x10000`. Words `i` and `i+2` become `0xE320F000`, and words `i+1` and `i+3` keep their value. A word that changed is a NOP at offset 0 or 2 of an original match. Words from index `0x10002` on never change. |
| Signature.KernelCodePatch | source/libsu.c:71-82 | The in-place loop tests the partly rewritten words, yet its result equals patching every match of the original region. It needs a region of at least `0x10003` words, because the last test reads index `0x10002`. |
| Signature.StepSeesOriginal | source/libsu.c:74-80 | At step `i`, the signature test on the partly patched array gives the same answer as on the original array. |
| Signature.StepExtends | source/libsu.c:79-80 | One loop step, patching or not, turns the result for the first `i` positions into the result for `i+1`. |
| Signature.NoOverlap | source/libsu.c:74-77 | No match can start within three words of another match, in either direction. |
| Signature.NopBreaksSignature | source/libsu.c:74-80 | The NOP word differs from all four signature words. |
| Signature.NoMatchAfterPatch | source/libsu.c:74-80 | No scanned position of the patched array holds the signature. |
| Signature.PatchIdempotent | source/libsu.c:72-81 | Running the patch on its own output changes nothing. |
| Privilege.PatchPid | source/libsu.c:42-53 | `pidBackup` receives the field's previous value, and the field reads 0. No other byte, no mapping, and neither the revision flag nor the `KProcess` address changes. |
| Privilege.UnpatchPid | source/libsu.c:55-65 | The field reads `pidBackup`. No other byte changes, and `pidBackup` is kept. |
| Privilege.FieldOffset | source/libsu.c:46-49 | The field offset is `0xBC` exactly when the revision flag is non-zero, and `0xB4` otherwise. Both are word-aligned. |
| Privilege.FieldAddr | source/libsu.c:46-49 | The field lies exactly that offset past the `KProcess` address, modulo 2^32. |
| Privilege.SameField | source/libsu.c:46-62 | Both routines address the field at `KProcess + 0xBC` when the revision flag is non-zero and at `KProcess + 0xB4` otherwise. Patching leaves that address unchanged. |
| Privilege.PatchUnpatchRestores | source/libsu.c:50-64 | `unpatchPID` after `patchPID` gives back the original memory exactly. The only difference in the state is `pidBackup`, which holds the old identifier. |
| Privilege.PatchUnpatchIdentifier | source/libsu.c:51-64 | After patch and unpatch, the identifier field reads its original value. |
| Privilege.PatchTwiceLosesBackup | source/libsu.c:51-52 | A second `patchPID` saves the zeroed field, so `pidBackup` becomes 0. |
| Payload.KernelEntry | source/libsu.c:67-90 | The payload patches every original signature match and zeroes the identifier field. It saves the old identifier in `pidBackup` and sets `kernelHacked` to 0. |
| Translation.ToPhysical | source/libsu.c:172 | The translated address is `0xDFFA0000` plus the object's offset from `0xFFF70000`, modulo 2^32. It has the same page offset (`& 0xFFF`) as the virtual address. |
| Translation.ToVirtual | source/libsu.c:17-19 | The reverse translation also keeps the page offset. |
| Translation.WindowOffset | source/libsu.c:17-19 | The slab-heap address at offset `d` translates to `0xDFFA0000 + d`. |
| Translation.TranslationRoundTrip | source/libsu.c:172 | Each translation direction undoes the other, for every 32-bit address. |
| Translation.TranslationInjective | source/libsu.c:172 | Distinct kernel addresses translate to distinct addresses. |
| Memory.Wrap | source/libsu.c:172 | The result is a 32-bit value congruent to its argument modulo 2^32. |
| Memory.PageOffset | source/libsu.c:187 | `a & 0xFFF` is below the page size, and subtracting it from `a` gives a page-aligned address. |
| Memory.ReadBytes | source/libsu.c:188 | The copied-out buffer has the window's length. Byte `k` is the memory byte `k` past the window start. |
| Memory.WriteBytes | source/libsu.c:198 | The copy-in puts byte `k` of the data at `k` past the start. Every byte outside the range and the set of mapped addresses are unchanged. |
| Memory.ReadAfterWrite | source/libsu.c:198 | Reading back a range just written gives exactly the data written. |
| Memory.WriteBackIdentity | source/libsu.c:188-198 | Copying a range out and straight back in leaves memory exactly as it was. |
| Memory.RestoreWindow | source/libsu.c:188-198 | Writing a range copied from an earlier memory into a later one restores the range byte for byte and keeps the later memory elsewhere. |
| Memory.WriteTwice | source/libsu.c:52-64 | A second write of the same length to the same range hides the first. |
| Memory.LeBytes | source/libsu.c:202 | The four little-endian bytes of a word decode back to the word. |
| Memory.LeBytesFromLe | source/libsu.c:202 | Decoding four bytes and encoding them again gives the same bytes. |
| Memory.Load32 | source/libsu.c:51 | The loaded word's four little-endian bytes are exactly the four memory bytes at the address. |
| Memory.Store32 | source/libsu.c:202 | After a 32-bit store, the word at the address reads back the stored value, and only those four bytes change. |
| Memory.StoreLoaded | source/libsu.c:51-64 | Storing the word already at an address leaves memory unchanged. |
| Memory.StoreTwice | source/libsu.c:52-64 | A second store to the same word hides the first. |
| MemChunk.NewAllocateData | source/libsu.c:137-139 | The request starts `heapSize` bytes past the heap start, modulo 2^32. It covers two pages and its result is the pending value `-1`. |
| MemChunk.RequestAfterHeap | source/libsu.c:137-138 | If heap plus request fit in the address space, no byte of the request belongs to the heap. |
| MemChunk.IsolatedPage | source/libsu.c:157 | The throwaway page is requested exactly `data->size` bytes past the request's start, modulo 2^32. |
| MemChunk.IsolatingPage | source/libsu.c:158 | The isolating page is requested exactly one page past the throwaway page, modulo 2^32. |
| MemChunk.IsolationPages | source/libsu.c:137-158 | For a fresh request, the throwaway page starts two pages past the request, and the isolating page starts three pages past it. |
| MemChunk.IsolationLayout | source/libsu.c:157-158 | The request and the two pages tile the four pages from the request's start, and no byte belongs to two of them. |
| MemChunk.IsolationResult | source/libsu.c:157-160 | The isolation step returns 0 exactly when all three memory calls do. Otherwise it returns the first nonzero result: the first allocation's, else the second allocation's, else the free's. |
| MemChunk.NextLink | source/libsu.c:184 | The header's `next` link is 4 bytes past the request's start, after the 32-bit size field. |
| MemChunk.BackupWindow | source/libsu.c:187-188 | The backup length is `PAGE_SIZE - (kObjAddr & 0xFFF)`, between 1 and a page. The window ends exactly at `addr + 2*PAGE_SIZE`, the end of the two-page request. |
| MemChunk.VtableSlot | source/libsu.c:202 | The dispatch slot is `PAGE_SIZE + (kObjAddr & 0xFFF) - 4` bytes past the request's start, modulo 2^32. |
| MemChunk.SlotAdjoinsWindow | source/libsu.c:188-202 | The 4-byte dispatch slot ends exactly where the backup window starts. |
| MemChunk.WindowInSecondPage | source/libsu.c:187-188 | Every byte of the window lies in the second page of the request. |
| MemChunk.SlotOutsideWindow | source/libsu.c:198-202 | Every byte of the dispatch slot lies inside the request and outside the backup window. |
| MemChunk.LinkInFirstPage | source/libsu.c:184-202 | The redirected header link lies in the request's first page, disjoint from the window and the slot. |
| MemChunk.SlotInObjectPage | source/libsu.c:202 | Byte `k` of the 4-byte slot lies in the second page of the request, the page that maps the object, exactly when `(kObjAddr & 0xFFF) + k >= 4`. |
| MemChunk.RedirectHeader | source/libsu.c:184 | The header's `next` link reads the translated object address afterwards, and only those four bytes change. |
| MemChunk.TakeBackup | source/libsu.c:188 | The backup holds `PAGE_SIZE - off` bytes. Each byte equals the memory at the matching window position. |
| MemChunk.RestoreBackup | source/libsu.c:198 | After the copy-in, the window reads back exactly the backup. Bytes outside the window are unchanged. |
| MemChunk.PlantVtable | source/libsu.c:202 | The slot reads the fake table's address afterwards, and only its four bytes change. |
| MemChunk.RestoreAndPlant | source/libsu.c:198-202 | Restore followed by plant keeps the set of mapped addresses. Every window byte equals its value when the backup was taken, and the slot reads the table address. |
| MemChunk.RestoreAndPlantExact | source/libsu.c:198-202 | After restore and plant, every window byte equals its value when the backup was taken, and the slot holds the table address. Every other byte equals the memory found when the mapping completed. |
| MemChunk.RestoreUnchangedWindow | source/libsu.c:188-202 | If the window did not change between backup and restore, the restore is a no-op, and the result is the slot write alone. |
| MemChunk.TranslatedOffset | source/libsu.c:172-187 | The window and the slot computed from the translated object address equal those computed from the object's kernel virtual address. |

## Left out

- The race itself is not modelled. That covers `delay_thread`, `allocate_thread`, the `waitUserlandAccessible` oracle, and the polling of `data->result` (lines 22, 93-108, 183-193). Their behaviour depends on thread interleaving under the host scheduler. The model relates the memory at backup time to the memory at restore time, and that later memory is arbitrary.
- The "race condition failed" and "failed memory mapping" checks are not modelled (lines 189 and 194). They read `data->result`, which only the racing thread writes.
- System and platform calls are not modelled: memory control, address arbitration, thread creation, APT and service sessions, `linearAlloc`, `malloc` and `free` (lines 141-160, 168, 176-181, 205-231). They are foreign code. Their return codes enter the model only as parameters, for example the three results in `IsolationResult`.
- IsolationPages, IsolationLayout, BackupWindow, VtableSlot: assume that each memory-control call places its pages at the requested address. The source passes `&isolatedPage`, `&isolatingPage` and `&data->addr` as out-parameters and reads the address back afterwards (lines 107, 157-159). The model does not see those written-back addresses, so `IsolationPages` and `IsolationLayout` take the requested address of each page as its actual address. `BackupWindow` and `VtableSlot` take the request's address as a parameter, and that parameter stands for the written-back `data->addr`.
- Building the fake dispatch table is not modelled (lines 141-145). Its address is a parameter of `PlantVtable`.
- The inline assembly is not modelled: `svcCreateEventKAddr` and the cache-invalidation instructions (lines 85-87, 111-122). These are machine-level effects. The captured object address is a parameter.
- The trigger that makes the kernel call through the hijacked table is not modelled, and neither is the wait on `kernelHacked` (lines 205-227). The kernel event is opaque. Only the 4-byte slot write and the flag value set by the payload are modelled.
- The fixed kernel addresses `0xFFFF9004` and `0xdff80000` are not modelled. The `KProcess` address and the code region are parameters. The code region is assumed disjoint from the `KProcess` object.
- The model makes no claim that cleanup frees everything. The early error returns leave resources allocated (lines 136-189), so the code does not promise this.
- Setting `data->result` to 0 during cleanup is not modelled (line 209). It only lets the delay thread exit.
- Debug printing and `suInit` are not modelled (lines 7-13, 236-248). `suInit` only reads the revision flag and calls `memchunkhax2`.
- Every memory access in the model requires the touched bytes to be mapped (`Mapped`). On the device, an access to unmapped memory faults, and the code never handles that case.
- The scan writes kernel memory in place through a `u32*`. The model runs the same loop on a sequence value that it updates at each step. The loop reads and writes the same indices in the same order, so already-rewritten words are seen exactly as on the device.
