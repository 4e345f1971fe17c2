/**
 * Addresses in the debuggee: a `GlobalAddress` is an address as the object
 * file states it, a `RelocatedAddress` one in the running process, which
 * maps the file at an offset. Both are `usize`; the conversions wrap
 * around modulo 2^64 as release builds do.
 */
module Addresses {
  const USIZE_LIMIT: int := 0x1_0000_0000_0000_0000

  type Usize = x: int | 0 <= x < USIZE_LIMIT

  datatype RelocatedAddress = RelocatedAddress(value: Usize)

  datatype GlobalAddress = GlobalAddress(value: Usize)

  /** `RelocatedAddress::into_global`: subtract the mapping offset. */
  function IntoGlobal(a: RelocatedAddress, offset: Usize): (g: GlobalAddress)
    ensures offset <= a.value ==> g.value == a.value - offset
    ensures a.value < offset ==> g.value == USIZE_LIMIT + a.value - offset
  {
    GlobalAddress((a.value - offset) % USIZE_LIMIT)
  }

  /** `GlobalAddress::relocate`: add the mapping offset. */
  function Relocate(g: GlobalAddress, offset: Usize): (r: RelocatedAddress)
    ensures g.value + offset < USIZE_LIMIT ==> r.value == g.value + offset
    ensures USIZE_LIMIT <= g.value + offset ==> r.value == g.value + offset - USIZE_LIMIT
  {
    RelocatedAddress((g.value + offset) % USIZE_LIMIT)
  }

  /** Relocating and converting back gives the address in the file. */
  lemma IntoGlobalAfterRelocate(g: GlobalAddress, offset: Usize)
    ensures IntoGlobal(Relocate(g, offset), offset) == g
  {
  }

  /** Converting to the file's address and relocating again gives the address in the process. */
  lemma RelocateAfterIntoGlobal(a: RelocatedAddress, offset: Usize)
    ensures Relocate(IntoGlobal(a, offset), offset) == a
  {
  }

  /** Different file addresses land on different process addresses. */
  lemma RelocateInjective(g1: GlobalAddress, g2: GlobalAddress, offset: Usize)
    requires Relocate(g1, offset) == Relocate(g2, offset)
    ensures g1 == g2
  {
    IntoGlobalAfterRelocate(g1, offset);
    IntoGlobalAfterRelocate(g2, offset);
  }
}
