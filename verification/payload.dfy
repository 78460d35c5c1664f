/** The kernel-side payload as a whole (libsu.c `kernel_entry`, lines
    67-90): patch the access-control code, zero the privilege identifier,
    and raise the `kernelHacked` flag the user side waits on.  The cache
    invalidation between the code patch and `patchPID` has no effect on the
    values modelled here.
 */
module Payload {

  import opened Memory
  import Signature
  import Privilege

  /** The process-wide state the payload reads and writes: the scanned
      kernel code region, the privilege state, and the `kernelHacked` flag. */
  datatype KernelState = KernelState(code: seq<Signature.Word>, pid: Privilege.PidState, kernelHacked: Word)

  /** `kernel_entry`: the signature scan, then `patchPID`, then
      `kernelHacked = 0`. */
  method KernelEntry(k: KernelState) returns (k': KernelState)
    requires |k.code| >= Signature.RegionWords
    requires Privilege.FieldMapped(k.pid)
    ensures k'.code == Signature.PatchAll(k.code)
    ensures k'.pid == Privilege.PatchPid(k.pid)
    ensures Load32(k'.pid.mem, Privilege.FieldAddr(k.pid)) == 0
    ensures k'.pid.pidBackup == Load32(k.pid.mem, Privilege.FieldAddr(k.pid))
    ensures k'.kernelHacked == 0
  {
    var code := Signature.KernelCodePatch(k.code);
    var pid := Privilege.PatchPid(k.pid);
    k' := KernelState(code, pid, 0);
  }
}
