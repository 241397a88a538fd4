/**
 * The page-mapping system calls of kern/syscall.c and the dispatcher that
 * routes to them. Each handler is a chain of early-return argument checks
 * (address, permission bits, environment) followed by a change to the target
 * environment's page table through page_alloc / page_insert / page_remove.
 * The checks are given as pure functions so that their order and verdicts can
 * be stated on their own; the handlers are methods on the kernel state.
 */
module Syscall {
  import opened MemLayout
  import opened Wrappers
  import opened KernState

  /** A user virtual address a page syscall accepts: below UTOP and page-aligned. */
  predicate VaOk(va: u32)
  {
    va < UTOP && va % PGSIZE == 0
  }

  /**
   * The permission test as coded: at least one of PTE_U and PTE_P, and no bit
   * outside PTE_SYSCALL.
   */
  predicate PermOk(perm: bv32)
  {
    ((perm & PTE_U) | (perm & PTE_P)) != 0 && (perm | PTE_SYSCALL) == PTE_SYSCALL
  }

  /** What the permission test accepts, in terms of single bits. */
  lemma PermOkMeaning(perm: bv32)
    ensures PermOk(perm) <==> (Has(perm, PTE_U) || Has(perm, PTE_P)) && perm & !PTE_SYSCALL == 0
  {
  }

  /**
   * The permission test as documented: both PTE_U and PTE_P, PTE_W and the
   * PTE_AVAIL bits optional, nothing else.
   */
  predicate PermOkDocumented(perm: bv32)
  {
    Has(perm, PTE_U | PTE_P) && (perm | PTE_SYSCALL) == PTE_SYSCALL
  }

  /** Every permission the documented test accepts installs a present, user-accessible entry. */
  lemma PermOkDocumentedIsUserPage(perm: bv32)
    requires PermOkDocumented(perm)
    ensures PermOk(perm)
    ensures UserReadable(perm | PTE_P)
  {
  }

  /** As coded, PTE_P alone passes, and the page it installs is not accessible to user code. */
  lemma PermOkAdmitsKernelOnlyPage()
    ensures PermOk(PTE_P) && !PermOkDocumented(PTE_P)
    ensures !UserReadable(PTE_P | PTE_P)
  {
  }

  /**
   * The verdict of sys_page_alloc's checks, in their order: the address, then
   * the permission bits, then the environment (`target` is what envid2env
   * resolved, if anything). 0 means the handler goes on to allocate.
   */
  function AllocCheck(va: u32, perm: bv32, target: Option<EnvId>): (r: int)
    ensures r == 0 || r == -E_INVAL || r == -E_BAD_ENV
    ensures r == -E_INVAL <==> !VaOk(va) || !PermOk(perm)
    ensures r == -E_BAD_ENV <==> VaOk(va) && PermOk(perm) && target.None?
  {
    if va >= UTOP || va % PGSIZE != 0 then -E_INVAL
    else if !PermOk(perm) then -E_INVAL
    else if target.None? then -E_BAD_ENV
    else 0
  }

  /** sys_page_unmap checks the address before the environment. */
  function UnmapCheck(va: u32, target: Option<EnvId>): (r: int)
    ensures r == 0 || r == -E_INVAL || r == -E_BAD_ENV
    ensures r == -E_INVAL <==> !VaOk(va)
    ensures r == -E_BAD_ENV <==> VaOk(va) && target.None?
  {
    if va >= UTOP || va % PGSIZE != 0 then -E_INVAL
    else if target.None? then -E_BAD_ENV
    else 0
  }

  /**
   * The verdict of sys_page_map's checks as coded, in their order: source
   * address, destination address, permission bits, source environment,
   * destination environment, then whether the source page is mapped
   * (`srcEntry`). There is no test of PTE_W against the source entry.
   */
  function MapCheck(srcva: u32, dstva: u32, perm: bv32, src: Option<EnvId>, dst: Option<EnvId>, srcEntry: Option<Pte>): (r: int)
    ensures r == 0 || r == -E_INVAL || r == -E_BAD_ENV
    ensures r == -E_BAD_ENV <==> VaOk(srcva) && VaOk(dstva) && PermOk(perm) && (src.None? || dst.None?)
    ensures r == 0 <==> VaOk(srcva) && VaOk(dstva) && PermOk(perm) && src.Some? && dst.Some? && srcEntry.Some?
  {
    if srcva >= UTOP || srcva % PGSIZE != 0 then -E_INVAL
    else if dstva >= UTOP || dstva % PGSIZE != 0 then -E_INVAL
    else if !PermOk(perm) then -1 * E_INVAL
    else if src.None? then -E_BAD_ENV
    else if dst.None? then -E_BAD_ENV
    else if srcEntry.None? then -E_INVAL
    else 0
  }

  /**
   * sys_page_map's checks as its documentation states them: the documented
   * permission test, and -E_INVAL for a PTE_W request against a source page
   * whose entry lacks PTE_W.
   */
  function MapCheckDocumented(srcva: u32, dstva: u32, perm: bv32, src: Option<EnvId>, dst: Option<EnvId>, srcEntry: Option<Pte>): (r: int)
    ensures r == 0 || r == -E_INVAL || r == -E_BAD_ENV
    ensures r == 0 ==> MapCheck(srcva, dstva, perm, src, dst, srcEntry) == 0
    ensures r == 0 ==> UserReadable(perm | PTE_P)
    ensures r == 0 && Has(perm, PTE_W) ==> Has(srcEntry.value.perm, PTE_W)
  {
    if srcva >= UTOP || srcva % PGSIZE != 0 then -E_INVAL
    else if dstva >= UTOP || dstva % PGSIZE != 0 then -E_INVAL
    else if !PermOkDocumented(perm) then -E_INVAL
    else if src.None? then -E_BAD_ENV
    else if dst.None? then -E_BAD_ENV
    else if srcEntry.None? then -E_INVAL
    else if Has(perm, PTE_W) && !Has(srcEntry.value.perm, PTE_W) then -E_INVAL
    else 0
  }

  /** As coded, a read-only source page can be mapped writable elsewhere. */
  lemma MapCheckGrantsWriteToReadOnly(src: EnvId, dst: EnvId, f: Frame)
    ensures MapCheck(0, 0, PTE_P | PTE_U | PTE_W, Some(src), Some(dst), Some(Pte(f, PTE_P | PTE_U))) == 0
    ensures MapCheckDocumented(0, 0, PTE_P | PTE_U | PTE_W, Some(src), Some(dst), Some(Pte(f, PTE_P | PTE_U))) == -E_INVAL
  {
  }

  /** The check-stage verdict of sys_page_alloc in the state of `k`. */
  ghost function AllocVerdict(k: Kernel, envid: int, va: u32, perm: bv32): int
    reads k
  {
    AllocCheck(va, perm, k.ResolveEnv(envid, true))
  }

  /** The check-stage verdict of sys_page_unmap in the state of `k`. */
  ghost function UnmapVerdict(k: Kernel, envid: int, va: u32): int
    reads k
  {
    UnmapCheck(va, k.ResolveEnv(envid, true))
  }

  /** The entry at `va` in the environment `e` resolves to, if both exist. */
  function SourceEntry(k: Kernel, e: Option<EnvId>, va: u32): Option<Pte>
    reads k
  {
    if e.Some? then k.Lookup(e.value, PageNumber(va)) else None
  }

  /** The check-stage verdict of sys_page_map in the state of `k`. */
  ghost function MapVerdict(k: Kernel, srcenvid: int, srcva: u32, dstenvid: int, dstva: u32, perm: bv32): int
    reads k
  {
    var src := k.ResolveEnv(srcenvid, true);
    MapCheck(srcva, dstva, perm, src, k.ResolveEnv(dstenvid, true), SourceEntry(k, src, srcva))
  }

  /** page_alloc followed by page_insert runs out of frames: none is free, or the only one is needed for a table. */
  ghost predicate AllocRunsOut(k: Kernel, e: EnvId, pn: nat)
    reads k
  {
    k.free == {} || ((e, DirIndex(pn)) !in k.tables && |k.free| == 1)
  }

  /**
   * The mutating half of sys_page_alloc, once the checks have passed: take a
   * zero-filled frame, insert it at page `pn` of `e`, and give it back with
   * page_free when page_insert fails.
   */
  method AllocAndInsert(k: Kernel, e: EnvId, pn: nat, perm: bv32) returns (r: int)
    requires k.Valid() && e in k.envs
    modifies k
    ensures k.Valid()
    ensures r == 0 || r == -E_NO_MEM
    ensures r == -E_NO_MEM <==> old(AllocRunsOut(k, e, pn))
    ensures r == -E_NO_MEM ==>
              && k.pt == old(k.pt) && k.refs == old(k.refs) && k.free == old(k.free)
              && k.tables == old(k.tables) && k.ptFrames == old(k.ptFrames)
              && (forall g :: 0 <= g < |k.mem| && g !in k.free ==> k.mem[g] == old(k.mem)[g])
    ensures r == 0 ==>
              && (e, pn) in k.pt
              && k.pt[(e, pn)].frame in old(k.free)
              && k.pt == old(k.pt)[(e, pn) := Pte(k.pt[(e, pn)].frame, perm | PTE_P)]
              && k.mem == old(k.mem)[k.pt[(e, pn)].frame := ZeroPage()]
              && HoldersIn(k.pt, k.pt[(e, pn)].frame) == {(e, pn)}
              && k.free - old(k.free) == Released(old(k.refs), old(k.pt), (e, pn), Some(k.pt[(e, pn)].frame))
    ensures k.envs == old(k.envs) && k.curenv == old(k.curenv) && k.nextId == old(k.nextId)
  {
    var newp := k.PageAlloc(true);
    if newp.None? {
      return -E_NO_MEM;
    }
    var f := newp.value;
    ghost var pt0 := k.pt;
    ghost var free0 := old(k.free);
    LastFrame(free0, f);
    r := k.PageInsert(e, f, pn, perm);
    if r != 0 {
      k.PageFree(f);
      assert k.free == free0;
      return r;
    }
    HoldersOfFreshFrame(pt0, (e, pn), Pte(f, perm | PTE_P));
  }

  /** Taking frame `f` empties the free list exactly when `f` was its only frame. */
  lemma LastFrame(free: set<Frame>, f: Frame)
    requires f in free
    ensures free - {f} == {} <==> |free| == 1
    ensures (free - {f}) + {f} == free
  {
    if |free| == 1 {
      assert |free - {f}| == 0;
    }
    if free - {f} == {} {
      assert free == {f};
    }
  }

  /**
   * sys_page_alloc: map a fresh zero-filled frame at `va` in the environment
   * `envid` names, replacing any previous mapping there. Every failure leaves
   * page tables, reference counts and the free list as they were; when
   * page_insert fails the frame just taken goes back to the free list.
   */
  method SysPageAlloc(k: Kernel, envid: int, va: u32, perm: bv32) returns (r: int)
    requires k.Valid()
    modifies k
    ensures k.Valid()
    ensures r == 0 || r == -E_INVAL || r == -E_BAD_ENV || r == -E_NO_MEM
    ensures old(AllocVerdict(k, envid, va, perm)) != 0 ==> r == old(AllocVerdict(k, envid, va, perm)) && unchanged(k)
    ensures old(AllocVerdict(k, envid, va, perm)) == 0 ==> r == 0 || r == -E_NO_MEM
    ensures r == -E_NO_MEM <==>
              old(AllocVerdict(k, envid, va, perm)) == 0
              && old(AllocRunsOut(k, k.ResolveEnv(envid, true).value, PageNumber(va)))
    ensures r == -E_NO_MEM ==>
              && k.pt == old(k.pt) && k.refs == old(k.refs) && k.free == old(k.free)
              && k.tables == old(k.tables) && k.ptFrames == old(k.ptFrames)
              && (forall g :: 0 <= g < |k.mem| && g !in k.free ==> k.mem[g] == old(k.mem)[g])
    ensures r == 0 ==>
              var s := (old(k.ResolveEnv(envid, true)).value, PageNumber(va));
              && s in k.pt
              && k.pt[s].frame in old(k.free)
              && k.pt == old(k.pt)[s := Pte(k.pt[s].frame, perm | PTE_P)]
              && k.mem == old(k.mem)[k.pt[s].frame := ZeroPage()]
              && HoldersIn(k.pt, k.pt[s].frame) == {s}
              && k.free - old(k.free) == Released(old(k.refs), old(k.pt), s, Some(k.pt[s].frame))
    ensures k.envs == old(k.envs) && k.curenv == old(k.curenv) && k.nextId == old(k.nextId)
  {
    if va >= UTOP || va % PGSIZE != 0 {
      return -E_INVAL;
    }
    if !(((perm & PTE_U) | (perm & PTE_P)) != 0 && (perm | PTE_SYSCALL) == PTE_SYSCALL) {
      return -E_INVAL;
    }
    var target := k.ResolveEnv(envid, true);
    if target.None? {
      return -E_BAD_ENV;
    }
    r := AllocAndInsert(k, target.value, PageNumber(va), perm);
  }

  /**
   * sys_page_map: make `dstva` in the destination environment refer to the
   * frame mapped at `srcva` in the source environment, with `perm | PTE_P`,
   * replacing any previous mapping at `dstva`. Every rejection returns before
   * page_insert and changes nothing.
   */
  method SysPageMap(k: Kernel, srcenvid: int, srcva: u32, dstenvid: int, dstva: u32, perm: bv32) returns (r: int)
    requires k.Valid()
    modifies k
    ensures k.Valid()
    ensures r == 0 || r == -E_INVAL || r == -E_BAD_ENV || r == -E_NO_MEM
    ensures r != 0 ==> unchanged(k)
    ensures old(MapVerdict(k, srcenvid, srcva, dstenvid, dstva, perm)) != 0 ==>
              r == old(MapVerdict(k, srcenvid, srcva, dstenvid, dstva, perm))
    ensures old(MapVerdict(k, srcenvid, srcva, dstenvid, dstva, perm)) == 0 ==> r == 0 || r == -E_NO_MEM
    ensures r == -E_NO_MEM <==>
              old(MapVerdict(k, srcenvid, srcva, dstenvid, dstva, perm)) == 0
              && (old(k.ResolveEnv(dstenvid, true)).value, DirIndex(PageNumber(dstva))) !in old(k.tables)
              && old(k.free) == {}
    ensures r == 0 ==>
              var s := (old(k.ResolveEnv(srcenvid, true)).value, PageNumber(srcva));
              var d := (old(k.ResolveEnv(dstenvid, true)).value, PageNumber(dstva));
              && s in old(k.pt)
              && k.pt == old(k.pt)[d := Pte(old(k.pt)[s].frame, perm | PTE_P)]
              && s in k.pt && k.pt[s].frame == k.pt[d].frame
              && k.free - old(k.free) == Released(old(k.refs), old(k.pt), d, Some(old(k.pt)[s].frame))
    ensures k.mem == old(k.mem) && k.envs == old(k.envs) && k.curenv == old(k.curenv) && k.nextId == old(k.nextId)
  {
    if srcva >= UTOP || srcva % PGSIZE != 0 {
      return -E_INVAL;
    }
    if dstva >= UTOP || dstva % PGSIZE != 0 {
      return -E_INVAL;
    }
    if !(((perm & PTE_U) | (perm & PTE_P)) != 0 && (perm | PTE_SYSCALL) == PTE_SYSCALL) {
      return -1 * E_INVAL;
    }
    var esrc := k.ResolveEnv(srcenvid, true);
    if esrc.None? {
      return -E_BAD_ENV;
    }
    var edest := k.ResolveEnv(dstenvid, true);
    if edest.None? {
      return -E_BAD_ENV;
    }
    var srcpp := k.Lookup(esrc.value, PageNumber(srcva));
    if srcpp.None? {
      return -E_INVAL;
    }
    k.MappedFrameOk((esrc.value, PageNumber(srcva)));
    r := k.PageInsert(edest.value, srcpp.value.frame, PageNumber(dstva), perm);
    if r != 0 {
      return r;
    }
    return 0;
  }

  /**
   * sys_page_unmap: afterwards nothing is mapped at `va` in the environment
   * `envid` names; unmapping an unmapped page succeeds and changes nothing.
   */
  method SysPageUnmap(k: Kernel, envid: int, va: u32) returns (r: int)
    requires k.Valid()
    modifies k
    ensures k.Valid()
    ensures r == old(UnmapVerdict(k, envid, va))
    ensures r != 0 ==> unchanged(k)
    ensures r == 0 ==>
              var s := (old(k.ResolveEnv(envid, true)).value, PageNumber(va));
              && k.pt == old(k.pt) - {s}
              && (s !in old(k.pt) ==> unchanged(k))
              && (s in old(k.pt) ==> k.free == old(k.free) + Released(old(k.refs), old(k.pt), s, None))
    ensures k.mem == old(k.mem) && k.tables == old(k.tables) && k.envs == old(k.envs)
    ensures k.curenv == old(k.curenv) && k.nextId == old(k.nextId)
  {
    if va >= UTOP || va % PGSIZE != 0 {
      return -E_INVAL;
    }
    var target := k.ResolveEnv(envid, true);
    if target.None? {
      return -E_BAD_ENV;
    }
    k.PageRemove(target.value, PageNumber(va));
    return 0;
  }

  // System call numbers, in the order of the JOS enum in inc/syscall.h.
  const SYS_cputs: u32 := 0
  const SYS_cgetc: u32 := 1
  const SYS_getenvid: u32 := 2
  const SYS_env_destroy: u32 := 3
  const SYS_page_alloc: u32 := 4
  const SYS_page_map: u32 := 5
  const SYS_page_unmap: u32 := 6

  /** The (envid_t) / (int) cast of a 32-bit argument register: two's complement. */
  function AsInt32(a: u32): (r: int)
    ensures -0x8000_0000 <= r < 0x8000_0000
    ensures r % 0x1_0000_0000 == a
  {
    if a < 0x8000_0000 then a else a - 0x1_0000_0000
  }

  /**
   * syscall: route a system call number and its argument registers to the
   * handler. `consoleChar` is what cons_getc would return. An unknown number
   * yields -E_INVAL and changes nothing.
   */
  method Dispatch(k: Kernel, syscallno: u32, a1: u32, a2: u32, a3: u32, a4: u32, a5: u32, consoleChar: int) returns (r: int)
    requires k.Valid()
    modifies k
    ensures k.Valid()
    ensures syscallno > SYS_page_unmap ==> r == -E_INVAL && unchanged(k)
    ensures syscallno == SYS_cputs ==> r == 0 && unchanged(k)
    ensures syscallno == SYS_cgetc ==> r == consoleChar && unchanged(k)
    ensures syscallno == SYS_getenvid ==> r == old(k.curenv) && unchanged(k)
    ensures syscallno == SYS_env_destroy ==>
              && (r == 0 || r == -E_BAD_ENV)
              && (r == -E_BAD_ENV <==> old(k.ResolveEnv(AsInt32(a1), true)).None?)
              && unchanged(k)
    ensures syscallno == SYS_page_alloc && old(AllocVerdict(k, AsInt32(a1), a2, a3 as bv32)) != 0 ==>
              r == old(AllocVerdict(k, AsInt32(a1), a2, a3 as bv32)) && unchanged(k)
    ensures syscallno == SYS_page_alloc && old(AllocVerdict(k, AsInt32(a1), a2, a3 as bv32)) == 0 ==>
              && (r == 0 || r == -E_NO_MEM)
              && (r == -E_NO_MEM <==> old(AllocRunsOut(k, k.ResolveEnv(AsInt32(a1), true).value, PageNumber(a2))))
    ensures syscallno == SYS_page_alloc && r == -E_NO_MEM ==>
              && k.pt == old(k.pt) && k.refs == old(k.refs) && k.free == old(k.free)
              && k.tables == old(k.tables) && k.ptFrames == old(k.ptFrames)
              && (forall g :: 0 <= g < |k.mem| && g !in k.free ==> k.mem[g] == old(k.mem)[g])
    ensures syscallno == SYS_page_alloc && r == 0 ==>
              var s := (old(k.ResolveEnv(AsInt32(a1), true)).value, PageNumber(a2));
              && s in k.pt
              && k.pt[s].frame in old(k.free)
              && k.pt == old(k.pt)[s := Pte(k.pt[s].frame, a3 as bv32 | PTE_P)]
              && k.mem == old(k.mem)[k.pt[s].frame := ZeroPage()]
              && HoldersIn(k.pt, k.pt[s].frame) == {s}
    ensures syscallno == SYS_page_map && old(MapVerdict(k, AsInt32(a1), a2, AsInt32(a3), a4, a5 as bv32)) != 0 ==>
              r == old(MapVerdict(k, AsInt32(a1), a2, AsInt32(a3), a4, a5 as bv32)) && unchanged(k)
    ensures syscallno == SYS_page_map && old(MapVerdict(k, AsInt32(a1), a2, AsInt32(a3), a4, a5 as bv32)) == 0 ==>
              && (r == 0 || r == -E_NO_MEM)
              && (r == -E_NO_MEM <==>
                    (old(k.ResolveEnv(AsInt32(a3), true)).value, DirIndex(PageNumber(a4))) !in old(k.tables)
                    && old(k.free) == {})
    ensures syscallno == SYS_page_map && r == -E_NO_MEM ==> unchanged(k)
    ensures syscallno == SYS_page_map && r == 0 ==>
              var s := (old(k.ResolveEnv(AsInt32(a1), true)).value, PageNumber(a2));
              var d := (old(k.ResolveEnv(AsInt32(a3), true)).value, PageNumber(a4));
              && s in old(k.pt)
              && k.pt == old(k.pt)[d := Pte(old(k.pt)[s].frame, a5 as bv32 | PTE_P)]
              && k.mem == old(k.mem)
    ensures syscallno == SYS_page_unmap ==> r == old(UnmapVerdict(k, AsInt32(a1), a2))
    ensures syscallno == SYS_page_unmap && r != 0 ==> unchanged(k)
    ensures syscallno == SYS_page_unmap && r == 0 ==>
              k.pt == old(k.pt) - {(old(k.ResolveEnv(AsInt32(a1), true)).value, PageNumber(a2))} && k.mem == old(k.mem)
  {
    if syscallno == SYS_cputs {
      r := 0;
    } else if syscallno == SYS_cgetc {
      r := consoleChar;
    } else if syscallno == SYS_getenvid {
      r := k.curenv;
    } else if syscallno == SYS_env_destroy {
      var e := k.ResolveEnv(AsInt32(a1), true);
      r := if e.None? then -E_BAD_ENV else 0;
    } else if syscallno == SYS_page_alloc {
      r := SysPageAlloc(k, AsInt32(a1), a2, a3 as bv32);
    } else if syscallno == SYS_page_map {
      r := SysPageMap(k, AsInt32(a1), a2, AsInt32(a3), a4, a5 as bv32);
    } else if syscallno == SYS_page_unmap {
      r := SysPageUnmap(k, AsInt32(a1), a2);
    } else {
      r := -E_INVAL;
    }
  }
}
