/** Kernel-object address translation (libsu.c lines 17-19 and 172).

    The kernel virtual address of a freshly created synchronization object
    lies in the slab heap, whose virtual window starts at `SlabHeapVirtual`
    and is backed by physical memory starting at `SlabHeapPhysical`.  The
    exploit needs the object's address as the allocator sees physical
    memory, which is the physical address minus `KernelShift`.  The whole
    expression is `u32` arithmetic and wraps round at 2^32.
 */
module Translation {

  import opened Memory

  const SlabHeapVirtual: Addr := 0xFFF7_0000
  const SlabHeapPhysical: Addr := 0x1FFA_0000
  const KernelShift: Addr := 0x4000_0000

  /** Where the first byte of the slab heap ends up: `SlabHeapPhysical -
      KernelShift` taken modulo 2^32. */
  const TranslatedBase: Addr := 0xDFFA_0000

  /** Move the address from the slab heap's virtual window to its physical
      backing, then subtract the kernel's shift, all in 32-bit unsigned
      arithmetic. */
  function ToPhysical(v: Addr): (p: Addr)
    ensures p == At(TranslatedBase, Wrap(v - SlabHeapVirtual))
    ensures PageOffset(p) == PageOffset(v)
  {
    WrapNear(v - SlabHeapVirtual + SlabHeapPhysical - KernelShift);
    WrapNear(v - SlabHeapVirtual);
    WrapNear(TranslatedBase + Wrap(v - SlabHeapVirtual));
    Wrap(v - SlabHeapVirtual + SlabHeapPhysical - KernelShift)
  }

  /** The inverse translation, from an allocator-view address back to the
      slab-heap virtual address. */
  function ToVirtual(p: Addr): (v: Addr)
    ensures PageOffset(v) == PageOffset(p)
  {
    WrapNear(p + KernelShift - SlabHeapPhysical + SlabHeapVirtual);
    Wrap(p + KernelShift - SlabHeapPhysical + SlabHeapVirtual)
  }

  /** The object `d` bytes into the slab heap is `d` bytes past
      `TranslatedBase` after translation. */
  lemma WindowOffset(d: int)
    requires 0 <= d < Modulus
    ensures ToPhysical(At(SlabHeapVirtual, d)) == At(TranslatedBase, d)
  {
    RangeOffset(SlabHeapVirtual, d);
  }

  /** The translation is a bijection on 32-bit addresses: each direction
      undoes the other, so distinct objects never collide. */
  lemma {:induction false} TranslationRoundTrip(v: Addr, p: Addr)
    ensures ToVirtual(ToPhysical(v)) == v
    ensures ToPhysical(ToVirtual(p)) == p
  {
    WrapNear(v - SlabHeapVirtual + SlabHeapPhysical - KernelShift);
    WrapNear(ToPhysical(v) + KernelShift - SlabHeapPhysical + SlabHeapVirtual);
    WrapNear(p + KernelShift - SlabHeapPhysical + SlabHeapVirtual);
    WrapNear(ToVirtual(p) - SlabHeapVirtual + SlabHeapPhysical - KernelShift);
  }

  lemma TranslationInjective(v1: Addr, v2: Addr)
    ensures ToPhysical(v1) == ToPhysical(v2) ==> v1 == v2
  {
    TranslationRoundTrip(v1, 0);
    TranslationRoundTrip(v2, 0);
  }
}
