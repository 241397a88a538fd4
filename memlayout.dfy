/**
 * Address-space layout, page-table-entry bits and error codes shared by the
 * kernel and the user-level fork protocol. The values are those of the JOS
 * headers inc/mmu.h, inc/memlayout.h and inc/error.h, which are not part of
 * this model; PTE_COW is defined in lib/fork.c itself.
 */
module MemLayout {

  /** An unsigned 32-bit machine word (uint32_t, uintptr_t, physaddr_t). */
  type u32 = x: int | 0 <= x < 0x1_0000_0000

  /** An unsigned 64-bit machine word (uint64_t). */
  type u64 = x: int | 0 <= x < 0x1_0000_0000_0000_0000

  /** An unsigned byte (uint8_t, unsigned char). */
  type u8 = x: int | 0 <= x < 0x100

  /** INT_MAX and INT_MIN of the 32-bit C `int`. */
  const INT_MAX: int := 0x7FFF_FFFF
  const INT_MIN: int := -0x8000_0000

  const PGSHIFT: nat := 12
  const PGSIZE: nat := 4096
  const NPTENTRIES: nat := 1024
  const PTSIZE: nat := PGSIZE * NPTENTRIES

  const KERNBASE: u32 := 0xF000_0000
  const ULIM: u32 := 0xEF80_0000
  const UTOP: u32 := 0xEEC0_0000
  const UXSTACKTOP: u32 := UTOP
  const USTACKTOP: u32 := UTOP - 2 * PGSIZE
  const UTEMP: u32 := PTSIZE
  const PFTEMP: u32 := UTEMP + PTSIZE - PGSIZE

  // Page-table-entry permission bits.
  const PTE_P: bv32 := 0x001
  const PTE_W: bv32 := 0x002
  const PTE_U: bv32 := 0x004
  const PTE_G: bv32 := 0x100
  const PTE_AVAIL: bv32 := 0xE00
  const PTE_SYSCALL: bv32 := PTE_AVAIL | PTE_P | PTE_W | PTE_U
  /** Convention bit of the user library: map identically into a child. */
  const PTE_SHARE: bv32 := 0x400
  /** Convention bit of lib/fork.c: the page is copy-on-write. */
  const PTE_COW: bv32 := 0x800

  /** Page-fault error-code bit: the faulting access was a write. */
  const FEC_WR: bv32 := 0x2

  // Error codes (the kernel returns their negations).
  const E_BAD_ENV: int := 2
  const E_INVAL: int := 3
  const E_NO_MEM: int := 4
  const E_NO_FREE_ENV: int := 5

  /** Number of environment slots. */
  const NENV: nat := 1024

  /** PGNUM: the virtual or physical page number of an address. */
  function PageNumber(a: u32): (pn: nat)
    ensures pn * PGSIZE <= a < (pn + 1) * PGSIZE
  {
    a / PGSIZE
  }

  /** PDX expressed on a page number: the page-directory slot covering it. */
  function DirIndex(pn: nat): nat
  {
    pn / NPTENTRIES
  }

  /** ROUNDDOWN(a, PGSIZE) on a 32-bit unsigned value. */
  function RoundDown(a: u32): (r: u32)
    ensures r <= a < r + PGSIZE && r % PGSIZE == 0
  {
    a - a % PGSIZE
  }

  /** Rounding down stays on the same page. */
  lemma SamePage(a: u32)
    ensures PageNumber(RoundDown(a)) == PageNumber(a)
  {
  }

  /** ROUNDUP(a, PGSIZE): the sum a + PGSIZE - 1 is done in uint32_t and may wrap. */
  function RoundUp(a: u32): (r: u32)
    ensures r % PGSIZE == 0
    ensures a + PGSIZE - 1 < 0x1_0000_0000 ==> a <= r < a + PGSIZE
    ensures a + PGSIZE - 1 >= 0x1_0000_0000 ==> r == 0
  {
    RoundDown((a + PGSIZE - 1) % 0x1_0000_0000)
  }

  /** True iff bit mask `m` is set in `p`. */
  predicate Has(p: bv32, m: bv32)
  {
    p & m == m
  }
}
