/** Address arithmetic shared by every memory layer (kernel/include/mem/memory.h). */
module Memory {
  const PAGE_SIZE: nat := 4096

  // One past the largest 32-bit address.
  const ADDRESS_SPACE: nat := 0x1_0000_0000

  // pfa_alloc's error value; page 0 is never allocatable.
  const BAD_PAGE: nat := 0

  const LOW_MEMORY_END: nat := 0x100000

  // First address of directory slot 1023, the window on the page tables.
  const TABLE_WINDOW: nat := 0xffc00000

  type Address = a: nat | a < ADDRESS_SPACE

  predicate Aligned(addr: nat) {
    addr % PAGE_SIZE == 0
  }

  function PageOf(addr: nat): nat {
    addr / PAGE_SIZE
  }

  /** The 32-bit sum of two 32-bit values. */
  function Sum32(a: nat, b: nat): nat {
    if a + b < ADDRESS_SPACE then a + b else a + b - ADDRESS_SPACE
  }

  /** Rounds up to a page boundary with the 32-bit sum of the source: the last
      page of the address space, unless already aligned, wraps to zero. */
  function PageAlign(addr: Address): (r: Address)
    ensures Aligned(r)
    ensures addr <= ADDRESS_SPACE - PAGE_SIZE <==> addr <= r
    ensures addr <= r ==> r < addr + PAGE_SIZE
    ensures r < addr ==> r == 0
  {
    if addr % PAGE_SIZE != 0 then
      var next := (addr + PAGE_SIZE) % ADDRESS_SPACE;
      next - next % PAGE_SIZE
    else
      addr
  }
}
