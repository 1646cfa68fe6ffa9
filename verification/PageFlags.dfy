/** The twelve flag bits of a page-directory or page-table entry
    (kernel/include/mem/memory.h). */
module PageFlags {
  type Flags = bv12

  const PRESENT: Flags := 0x001

  // Read/write, supervisor, write-through and cache-disabled: the bits that a
  // page-table entry must share with its directory entry.
  const CONSISTENT: Flags := 0x01e

  // PTE_RW_KERNEL_NOCACHE and PDE_RW_KERNEL_NOCACHE
  const RW_KERNEL_NOCACHE: Flags := 0x01a

  predicate IsPresent(f: Flags) {
    f & PRESENT != 0
  }

  function Shared(f: Flags): Flags {
    f & CONSISTENT
  }

  function SetPresent(f: Flags): (g: Flags)
    ensures IsPresent(g) && Shared(g) == Shared(f)
  {
    f | PRESENT
  }

  function ClearPresent(f: Flags): (g: Flags)
    ensures !IsPresent(g) && Shared(g) == Shared(f)
  {
    f & !PRESENT
  }

  /** A directory entry made for a page-table entry drops every bit that is not shared. */
  function DirectoryFlags(f: Flags): (g: Flags)
    ensures IsPresent(g) && Shared(g) == Shared(f)
  {
    Shared(f) | PRESENT
  }
}
