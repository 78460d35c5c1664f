/** Privilege-identifier patch and restore (libsu.c `patchPID` and
    `unpatchPID`, lines 42-65).

    The current process's kernel object (`KProcess`) holds a 32-bit process
    identifier that the kernel's service access checks look at.  `patchPID`
    saves it in the process-wide `pidBackup` and zeroes it; `unpatchPID`
    writes the saved value back.  The field sits at a byte offset that
    depends on the hardware revision.
 */
module Privilege {

  import opened Memory

  /** Offset of the identifier inside `KProcess` on each hardware revision. */
  const NewRevisionOffset: Addr := 0xBC
  const OldRevisionOffset: Addr := 0xB4

  /** The state both routines touch.  `kprocess` is the address of the
      current `KProcess`, which the source reads from a fixed kernel
      pointer; `isNew3DS` is the `u8` revision flag, non-zero on the newer
      revision. */
  datatype PidState = PidState(mem: Mem, kprocess: Addr, isNew3DS: Byte, pidBackup: Word)

  /** Byte offset of the identifier field for the revision flag. */
  function FieldOffset(isNew3DS: Byte): (off: Addr)
    ensures off == NewRevisionOffset <==> isNew3DS != 0
    ensures off == NewRevisionOffset || off == OldRevisionOffset
    ensures off % 4 == 0
  {
    if isNew3DS != 0 then NewRevisionOffset else OldRevisionOffset
  }

  /** Address of the identifier field of the current process. */
  function FieldAddr(s: PidState): (field: Addr)
    ensures Wrap(field - s.kprocess) == FieldOffset(s.isNew3DS)
  {
    RangeOffset(s.kprocess, FieldOffset(s.isNew3DS));
    At(s.kprocess, FieldOffset(s.isNew3DS))
  }

  /** The four bytes of the identifier field are mapped memory. */
  ghost predicate FieldMapped(s: PidState) {
    Mapped(s.mem, FieldAddr(s), 4)
  }

  /** `patchPID`: save the identifier, then set it to 0. */
  function PatchPid(s: PidState): (s': PidState)
    requires FieldMapped(s)
    ensures s'.kprocess == s.kprocess && s'.isNew3DS == s.isNew3DS
    ensures FieldMapped(s')
    ensures s'.pidBackup == Load32(s.mem, FieldAddr(s))
    ensures Load32(s'.mem, FieldAddr(s')) == 0
    ensures s'.mem.Keys == s.mem.Keys
    ensures forall a :: a in s.mem && !InRange(a, FieldAddr(s), 4) ==> s'.mem[a] == s.mem[a]
  {
    var field := FieldAddr(s);
    s.(pidBackup := Load32(s.mem, field), mem := Store32(s.mem, field, 0))
  }

  /** `unpatchPID`: write the saved identifier back. */
  function UnpatchPid(s: PidState): (s': PidState)
    requires FieldMapped(s)
    ensures s'.kprocess == s.kprocess && s'.isNew3DS == s.isNew3DS && s'.pidBackup == s.pidBackup
    ensures FieldMapped(s')
    ensures Load32(s'.mem, FieldAddr(s')) == s.pidBackup
    ensures s'.mem.Keys == s.mem.Keys
    ensures forall a :: a in s.mem && !InRange(a, FieldAddr(s), 4) ==> s'.mem[a] == s.mem[a]
  {
    s.(mem := Store32(s.mem, FieldAddr(s), s.pidBackup))
  }

  /** Both routines use offset 0xBC on the newer revision and 0xB4
      otherwise, and both address the same field. */
  lemma SameField(s: PidState)
    requires FieldMapped(s)
    ensures FieldAddr(PatchPid(s)) == FieldAddr(s) == FieldAddr(UnpatchPid(s))
    ensures FieldAddr(s) == At(s.kprocess, if s.isNew3DS != 0 then 0xBC else 0xB4)
  {
  }

  /** Patching and then unpatching restores memory byte for byte; the only
      trace left is the saved identifier in `pidBackup`. */
  lemma {:induction false} PatchUnpatchRestores(s: PidState)
    requires FieldMapped(s)
    ensures UnpatchPid(PatchPid(s)) == s.(pidBackup := Load32(s.mem, FieldAddr(s)))
  {
    var field := FieldAddr(s);
    StoreTwice(s.mem, field, 0, Load32(s.mem, field));
    StoreLoaded(s.mem, field);
  }

  /** Unpatching after a patch leaves the identifier exactly as it was
      before the patch. */
  lemma PatchUnpatchIdentifier(s: PidState)
    requires FieldMapped(s)
    ensures Load32(UnpatchPid(PatchPid(s)).mem, FieldAddr(s)) == Load32(s.mem, FieldAddr(s))
  {
  }

  /** A second `patchPID` overwrites the backup with the already-zeroed
      field, so the original identifier can no longer be restored. */
  lemma PatchTwiceLosesBackup(s: PidState)
    requires FieldMapped(s)
    ensures PatchPid(PatchPid(s)).pidBackup == 0
  {
  }
}
