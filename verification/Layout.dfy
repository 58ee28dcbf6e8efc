/** Constants and result codes of `kernel/include/kernel/kernel.h`, `arch/i386/mem.h` and `arch/i386/paging.h`. */
module Layout {

  datatype KResult = K_SUCCESS | K_OOM | K_INVALOP

  const PAGE_SIZE: nat := 4096

  /** Words in a page, and entries in a page table or page directory. */
  const ENTRIES: nat := 1024

  const KVIRT_RESERVED: nat := 0x17c000
  const KVIRT_MAX: nat := 0x3FFF_FFFF

  /** Pages below this one are identity-mapped and never handed out: KVIRT_RESERVED / PAGE_SIZE. */
  const RESERVED_PAGES: nat := 380

  /** Pages that the address space allocator manages: KVIRT_MAX / PAGE_SIZE. */
  const KERNEL_PAGES: nat := 0x3FFFF

  const EARLY_HEAP_MAXSIZE: nat := 0x50000

  const PRESENT: nat := 1
  const RW: nat := 2
}
