/**
 * The address translations of kern/pmap.h: kernel virtual address to
 * physical address and back, and between a frame's index in `pages` and its
 * physical address. Each may panic; a panic is `Panicked`. The kernel maps
 * all of physical memory at KERNBASE, so `npages` frames fit only when
 * npages * PGSIZE <= 2^32 - KERNBASE (256MB).
 */
module PhysAddr {
  import opened MemLayout
  import opened Wrappers

  /** The largest frame count whose memory fits above KERNBASE in a 32-bit address space. */
  const MaxPages: nat := (0x1_0000_0000 - KERNBASE) / PGSIZE

  /** `npages` describes a machine whose physical memory fits in the KERNBASE window. */
  predicate FitsAboveKernbase(npages: nat)
  {
    npages <= MaxPages
  }

  /** _paddr (PADDR): panics below KERNBASE, otherwise subtracts KERNBASE. */
  function Paddr(kva: u32): (r: Exit<u32>)
    ensures r.Panicked? <==> kva < KERNBASE
    ensures r.Returned? ==> r.value + KERNBASE == kva
  {
    if kva < KERNBASE then Panicked else Returned(kva - KERNBASE)
  }

  /** _kaddr (KADDR): panics when the page number is not below `npages`; the addition is in 32 bits. */
  function Kaddr(npages: nat, pa: u32): (r: Exit<u32>)
    ensures r.Panicked? <==> PageNumber(pa) >= npages
    ensures r.Returned? && FitsAboveKernbase(npages) ==> r.value == pa + KERNBASE && r.value >= KERNBASE
  {
    if PageNumber(pa) >= npages then Panicked else Returned((pa + KERNBASE) % 0x1_0000_0000)
  }

  /** page2pa: the frame index shifted left by PGSHIFT, in 32 bits. */
  function Page2Pa(i: nat): (pa: u32)
    ensures pa % PGSIZE == 0
    ensures i < MaxPages ==> pa == i * PGSIZE && PageNumber(pa) == i
  {
    (i * PGSIZE) % 0x1_0000_0000
  }

  /** pa2page: panics when the page number is not below `npages`, otherwise the frame holding `pa`. */
  function Pa2Page(npages: nat, pa: u32): (r: Exit<nat>)
    ensures r.Panicked? <==> PageNumber(pa) >= npages
    ensures r.Returned? ==> r.value < npages && r.value * PGSIZE <= pa < (r.value + 1) * PGSIZE
  {
    if PageNumber(pa) >= npages then Panicked else Returned(PageNumber(pa))
  }

  /** page2kva: KADDR of page2pa. */
  function Page2Kva(npages: nat, i: nat): (r: Exit<u32>)
    ensures FitsAboveKernbase(npages) && i < MaxPages ==> (r.Returned? <==> i < npages)
  {
    Kaddr(npages, Page2Pa(i))
  }

  /** PADDR undoes KADDR for every valid physical address. */
  lemma PaddrOfKaddr(npages: nat, pa: u32)
    requires FitsAboveKernbase(npages) && PageNumber(pa) < npages
    ensures Kaddr(npages, pa).Returned? && Paddr(Kaddr(npages, pa).value) == Returned(pa)
  {
  }

  /** KADDR undoes PADDR for every kernel address whose frame exists. */
  lemma KaddrOfPaddr(npages: nat, kva: u32)
    requires FitsAboveKernbase(npages) && kva >= KERNBASE && PageNumber(kva - KERNBASE) < npages
    ensures Paddr(kva).Returned? && Kaddr(npages, Paddr(kva).value) == Returned(kva)
  {
  }

  /** pa2page undoes page2pa for every frame index below `npages`. */
  lemma Pa2PageOfPage2Pa(npages: nat, i: nat)
    requires FitsAboveKernbase(npages) && i < npages
    ensures Pa2Page(npages, Page2Pa(i)) == Returned(i)
  {
  }

  /** page2pa undoes pa2page up to the offset within the page. */
  lemma Page2PaOfPa2Page(npages: nat, pa: u32)
    requires FitsAboveKernbase(npages) && PageNumber(pa) < npages
    ensures Pa2Page(npages, pa).Returned? && Page2Pa(Pa2Page(npages, pa).value) == RoundDown(pa)
  {
  }

  /** The kernel address of a frame translates back to the frame's physical address. */
  lemma PaddrOfPage2Kva(npages: nat, i: nat)
    requires FitsAboveKernbase(npages) && i < npages
    ensures Page2Kva(npages, i).Returned? && Paddr(Page2Kva(npages, i).value) == Returned(Page2Pa(i))
  {
    PaddrOfKaddr(npages, Page2Pa(i));
  }

  /**
   * Without the 256MB bound the 32-bit addition in KADDR wraps: on a machine
   * with MaxPages + 1 frames the last frame's kernel address is 0, which
   * PADDR rejects.
   */
  lemma KaddrWrapsBeyondBound()
    ensures var pa: u32 := MaxPages * PGSIZE;
            Kaddr(MaxPages + 1, pa) == Returned(0) && Paddr(0).Panicked?
  {
  }
}
