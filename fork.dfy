/**
 * User-level copy-on-write fork of lib/fork.c, over the kernel state and the
 * page syscalls. Reads of the uvpd / uvpt windows become lookups in the
 * caller's own page table; sys_getenvid is the current environment.
 */
module Fork {
  import opened MemLayout
  import opened Wrappers
  import opened KernState
  import opened Syscall

  /** The branch of fork's copy loop a page takes, decided by its entry's permission bits. */
  datatype ForkAction = Share | Dup | ReadOnly | Skip

  /** The single-bit tests of the copy loop, as mask tests. */
  lemma SingleBitTests(p: bv32)
    ensures p & PTE_SHARE != 0 <==> Has(p, PTE_SHARE)
    ensures p & PTE_W != 0 <==> Has(p, PTE_W)
    ensures p & PTE_COW != 0 <==> Has(p, PTE_COW)
  {
  }

  /** The copy loop's conjunctions of bit tests are the readable and writable tests. */
  lemma AccessBitTests(p: bv32)
    ensures (p & PTE_P != 0 && p & PTE_U != 0) <==> UserReadable(p)
    ensures (p & PTE_P != 0 && p & PTE_U != 0 && p & PTE_W != 0) <==> UserWritable(p)
  {
  }

  /** The copy loop's branch for a page with permission bits `perms` (0 when unmapped). */
  function ActionFor(perms: bv32): (a: ForkAction)
    ensures a == Share <==> Has(perms, PTE_SHARE)
    ensures a == Dup <==> !Has(perms, PTE_SHARE) && UserWritable(perms)
    ensures a == ReadOnly <==> !Has(perms, PTE_SHARE) && UserReadable(perms) && !Has(perms, PTE_W)
    ensures a == Skip <==> !Has(perms, PTE_SHARE) && !UserReadable(perms)
  {
    SingleBitTests(perms);
    AccessBitTests(perms);
    if perms & PTE_SHARE != 0 then Share
    else if perms & PTE_P != 0 && perms & PTE_U != 0 && perms & PTE_W != 0 then Dup
    else if perms & PTE_P != 0 && perms & PTE_U != 0 then ReadOnly
    else Skip
  }

  /** The permission fork asks for when it maps a page into the child. */
  function ChildPerm(a: ForkAction): bv32
  {
    match a
    case Share => PTE_SYSCALL | PTE_SHARE
    case Dup => PTE_P | PTE_U | PTE_COW
    case ReadOnly => PTE_P | PTE_U
    case Skip => 0
  }

  /**
   * What the child's entry grants in each branch: a duplicated page is
   * copy-on-write and not writable; a read-only page is plain P|U; a shared
   * page is writable and, because PTE_SYSCALL contains every PTE_AVAIL bit,
   * also carries the COW bit.
   */
  lemma ChildPermFacts()
    ensures var p := ChildPerm(Dup) | PTE_P; UserReadable(p) && !Has(p, PTE_W) && Has(p, PTE_COW)
    ensures var p := ChildPerm(ReadOnly) | PTE_P; UserReadable(p) && !Has(p, PTE_W) && !Has(p, PTE_COW)
    ensures var p := ChildPerm(Share) | PTE_P; UserWritable(p) && Has(p, PTE_COW) && Has(p, PTE_SHARE)
    ensures PermOk(ChildPerm(Dup)) && PermOk(ChildPerm(ReadOnly)) && PermOk(ChildPerm(Share))
  {
  }

  /**
   * As coded, a page that is already copy-on-write (COW set, W clear) takes
   * the read-only branch, and the child's entry loses the COW bit.
   */
  lemma CowPageLosesCow()
    ensures ActionFor(PTE_P | PTE_U | PTE_COW) == ReadOnly
    ensures !Has(ChildPerm(ActionFor(PTE_P | PTE_U | PTE_COW)) | PTE_P, PTE_COW)
  {
  }

  /**
   * The branch choice duppage's comment describes: a page that is writable
   * or copy-on-write is duplicated copy-on-write.
   */
  function ActionForDocumented(perms: bv32): (a: ForkAction)
    ensures a == Share <==> Has(perms, PTE_SHARE)
    ensures a == Dup <==> !Has(perms, PTE_SHARE) && UserReadable(perms) && (Has(perms, PTE_W) || Has(perms, PTE_COW))
  {
    SingleBitTests(perms);
    AccessBitTests(perms);
    if perms & PTE_SHARE != 0 then Share
    else if perms & PTE_P != 0 && perms & PTE_U != 0 && (perms & PTE_W != 0 || perms & PTE_COW != 0) then Dup
    else if perms & PTE_P != 0 && perms & PTE_U != 0 then ReadOnly
    else Skip
  }

  /** With the documented choice, a copy-on-write page stays copy-on-write in the child. */
  lemma CowPageStaysCowDocumented(perms: bv32)
    requires UserReadable(perms) && Has(perms, PTE_COW) && !Has(perms, PTE_SHARE)
    ensures ActionForDocumented(perms) == Dup
    ensures Has(ChildPerm(ActionForDocumented(perms)) | PTE_P, PTE_COW)
  {
  }

  /** The permission duppage gives both mappings. */
  const DupPerm: bv32 := PTE_P | PTE_U | PTE_COW

  /** The virtual address `(void *)(pn * PGSIZE)` of page `pn`, computed in 32 bits. */
  function PageVa(pn: u32): (va: u32)
    ensures va % PGSIZE == 0
    ensures pn * PGSIZE < 0x1_0000_0000 ==> va == pn * PGSIZE && PageNumber(va) == pn
  {
    PageVaAligned(pn);
    (pn * PGSIZE) % 0x1_0000_0000
  }

  /** Page numbers times the page size stay page aligned when wrapped to 32 bits. */
  lemma PageVaAligned(pn: u32)
    ensures (pn * PGSIZE) % 0x1_0000_0000 % PGSIZE == 0
    ensures pn * PGSIZE < 0x1_0000_0000 ==> PageNumber(pn * PGSIZE) == pn
  {
    assert PGSIZE == 4096;
    var x := pn * 4096;
    var q, r := x / 0x1_0000_0000, x % 0x1_0000_0000;
    assert x == 0x1_0000_0000 * q + r && 0 <= r < 0x1_0000_0000;
    var t, u := r / 4096, r % 4096;
    assert r == 4096 * t + u && 0 <= u < 4096;
    assert u == 4096 * (pn - 0x10_0000 * q - t);
    var d, m := x / 4096, x % 4096;
    assert x == 4096 * d + m && 0 <= m < 4096;
    assert m == 4096 * (pn - d);
  }

  /**
   * duppage: map page `pn` copy-on-write into `envid` first, then remap it
   * copy-on-write in the caller, panicking if either mapping fails. When it
   * returns, both entries name the caller's original frame and neither is
   * writable.
   */
  method Duppage(k: Kernel, envid: int, pn: u32) returns (x: Exit<int>)
    requires k.Valid()
    modifies k
    ensures k.Valid()
    ensures x.Returned? <==>
              old(MapVerdict(k, k.curenv, PageVa(pn), envid, PageVa(pn), DupPerm)) == 0
              && !((old(k.ResolveEnv(envid, true)).value, DirIndex(PageNumber(PageVa(pn)))) !in old(k.tables)
                   && old(k.free) == {})
    ensures x.Returned? ==>
              var me := old(k.curenv);
              var ch := old(k.ResolveEnv(envid, true)).value;
              var vpn := PageNumber(PageVa(pn));
              var v := Pte(old(k.pt)[(me, vpn)].frame, DupPerm | PTE_P);
              && x.value == 0
              && k.pt == old(k.pt)[(ch, vpn) := v][(me, vpn) := v]
              && !UserWritable(k.pt[(me, vpn)].perm) && !UserWritable(k.pt[(ch, vpn)].perm)
    ensures x.Panicked? ==> unchanged(k)
    ensures k.mem == old(k.mem) && k.envs == old(k.envs) && k.curenv == old(k.curenv) && k.nextId == old(k.nextId)
    ensures x.Returned? && (old(k.ResolveEnv(envid, true)).value, PageNumber(PageVa(pn))) !in old(k.pt) ==>
              k.free <= old(k.free)
  {
    var va := PageVa(pn);
    k.SelfResolves();
    ghost var free0, refs0, pt0 := k.free, k.refs, k.pt;
    ghost var ch := k.ResolveEnv(envid, true);
    var err := SysPageMap(k, k.curenv, va, envid, va, DupPerm);
    if err < 0 {
      return Panicked;
    }
    assert (ch.value, PageNumber(va)) !in pt0 ==> k.free <= free0 by {
      if (ch.value, PageNumber(va)) !in pt0 {
        assert Released(refs0, pt0, (ch.value, PageNumber(va)), Some(pt0[(k.curenv, PageNumber(va))].frame)) == {};
        assert k.free <= free0 by {
          forall g | g in k.free ensures g in free0 {
            assert g !in k.free - free0;
          }
        }
      }
    }
    ghost var free1, refs1, pt1 := k.free, k.refs, k.pt;
    ghost var me := (k.curenv, PageNumber(va));
    k.MappedFrameOk(me);
    k.SelfResolves();
    err := SysPageMap(k, k.curenv, va, k.curenv, va, DupPerm);
    if err < 0 {
      return Panicked;
    }
    assert Released(refs1, pt1, me, Some(pt1[me].frame)) == {};
    assert k.free <= free1 by {
      forall g | g in k.free ensures g in free1 {
        assert g !in k.free - free1;
      }
    }
    return Returned(0);
  }

  /** The page number of PFTEMP, where pgfault builds its copy. */
  const TempPn: nat := PFTEMP / PGSIZE

  /** The permission of the private copy pgfault installs. */
  const CopyPerm: bv32 := PTE_P | PTE_U | PTE_W

  /**
   * A write fault at `va` that pgfault repairs: a readable user page below
   * UTOP other than PFTEMP's, and enough free frames for the copy (and for a
   * page table at PFTEMP if there is none yet).
   */
  ghost predicate Repairable(k: Kernel, va: u32)
    reads k
  {
    var s := (k.curenv, PageNumber(va));
    && va < UTOP && PageNumber(va) != TempPn
    && s in k.pt && UserReadable(k.pt[s].perm)
    && !AllocRunsOut(k, k.curenv, TempPn)
  }

  /**
   * pgfault's sys_page_alloc of a writable page at PFTEMP, whose result it
   * ignores: when enough frames are free, the temporary page is a zeroed
   * frame that no entry held before.
   */
  method AllocTemp(k: Kernel)
    requires k.Valid()
    modifies k
    ensures k.Valid()
    ensures k.envs == old(k.envs) && k.curenv == old(k.curenv) && k.nextId == old(k.nextId)
    ensures var t := (old(k.curenv), TempPn);
            old(!AllocRunsOut(k, k.curenv, TempPn)) ==>
              && t in k.pt && k.pt[t].frame in old(k.free)
              && (forall s' :: s' in old(k.pt) ==> old(k.pt)[s'].frame != k.pt[t].frame)
              && k.pt == old(k.pt)[t := Pte(k.pt[t].frame, CopyPerm)]
              && k.mem == old(k.mem)[k.pt[t].frame := ZeroPage()]
  {
    k.SelfResolves();
    ghost var st0 := k.State();
    var r := SysPageAlloc(k, k.curenv, PFTEMP, CopyPerm);
    ghost var t := (k.curenv, TempPn);
    if t in k.pt && k.pt[t].frame in st0.free {
      FreeIsUnmapped(st0, k.pt[t].frame);
    }
  }

  /**
   * pgfault's first two steps: the allocation at PFTEMP, then memmove of
   * page `pn` onto it; `ok` is false when the memmove faults.
   */
  method CopyToTemp(k: Kernel, pn: nat) returns (ok: bool)
    requires k.Valid()
    modifies k
    ensures k.Valid()
    ensures k.envs == old(k.envs) && k.curenv == old(k.curenv) && k.nextId == old(k.nextId)
    ensures var t, s := (old(k.curenv), TempPn), (old(k.curenv), pn);
            old(!AllocRunsOut(k, k.curenv, TempPn)) && pn != TempPn && s in old(k.pt) && UserReadable(old(k.pt)[s].perm) ==>
              && ok && t in k.pt && k.pt[t].frame in old(k.free)
              && (forall s' :: s' in old(k.pt) ==> old(k.pt)[s'].frame != k.pt[t].frame)
              && k.pt == old(k.pt)[t := Pte(k.pt[t].frame, CopyPerm)]
              && k.mem == old(k.mem)[k.pt[t].frame := old(k.mem)[old(k.pt)[s].frame]]
  {
    AllocTemp(k);
    ok := k.UserCopyPage(k.curenv, TempPn, pn);
  }

  /** pgfault's last two steps: map PFTEMP's frame at page `pn`, then unmap PFTEMP, results ignored. */
  method MoveTemp(k: Kernel, addr: u32)
    requires k.Valid()
    modifies k
    ensures k.Valid()
    ensures k.mem == old(k.mem) && k.envs == old(k.envs) && k.curenv == old(k.curenv) && k.nextId == old(k.nextId)
    ensures var t, s := (old(k.curenv), TempPn), (old(k.curenv), PageNumber(addr));
            addr < UTOP && addr % PGSIZE == 0 && PageNumber(addr) != TempPn && t in old(k.pt) && s in old(k.pt) ==>
              k.pt == old(k.pt)[s := Pte(old(k.pt)[t].frame, CopyPerm)] - {t}
  {
    k.SelfResolves();
    ghost var t, s := (k.curenv, TempPn), (k.curenv, PageNumber(addr));
    ghost var good := addr < UTOP && addr % PGSIZE == 0 && PageNumber(addr) != TempPn && t in k.pt && s in k.pt;
    if good {
      k.MappedFrameOk(s);
    }
    var r := SysPageMap(k, k.curenv, PFTEMP, k.curenv, addr, CopyPerm);
    k.SelfResolves();
    r := SysPageUnmap(k, k.curenv, PFTEMP);
  }

  /** Installing the copy at PFTEMP, mapping it at `s` and unmapping PFTEMP amounts to one new entry at `s`. */
  lemma TempMoved(pt0: map<Slot, Pte>, pt1: map<Slot, Pte>, pt2: map<Slot, Pte>, t: Slot, s: Slot, g: Frame)
    requires s != t
    requires pt1 == pt0[t := Pte(g, CopyPerm)]
    requires pt2 == pt1[s := Pte(pt1[t].frame, CopyPerm)] - {t}
    ensures pt2 == (pt0 - {t})[s := Pte(g, CopyPerm)]
  {
  }

  /**
   * pgfault: the user-level page-fault handler. It panics on a fault that is
   * not a write; any write fault is served by copying, whether or not the page
   * is marked copy-on-write. The copy is built at PFTEMP, moved to the
   * faulting page and PFTEMP is unmapped again; the syscalls' results are not
   * checked. A fault of the handler's own memmove (PFTEMP not writable, the
   * faulting page not readable) is a nested fault and does not return.
   */
  method Pgfault(k: Kernel, va: u32, err: bv32) returns (x: Exit<()>)
    requires k.Valid()
    modifies k
    ensures k.Valid()
    ensures err & FEC_WR == 0 ==> x.Panicked? && unchanged(k)
    ensures err & FEC_WR != 0 && old(Repairable(k, va)) ==> x.Returned? && (old(k.curenv), PageNumber(va)) in k.pt
    ensures err & FEC_WR != 0 && old(Repairable(k, va)) ==>
              var s := (old(k.curenv), PageNumber(va));
              var g := k.pt[s].frame;
              && g in old(k.free)
              && (forall s' :: s' in old(k.pt) ==> old(k.pt)[s'].frame != g)
              && k.pt == (old(k.pt) - {(old(k.curenv), TempPn)})[s := Pte(g, CopyPerm)]
              && k.mem == old(k.mem)[g := old(k.mem)[old(k.pt)[s].frame]]
    ensures k.envs == old(k.envs) && k.curenv == old(k.curenv) && k.nextId == old(k.nextId)
  {
    ghost var repairable := Repairable(k, va);
    x := Panicked;
    if err & FEC_WR != 0 {
      var addr := RoundDown(va);
      SamePage(va);
      ghost var pt0 := k.pt;
      var ok := CopyToTemp(k, PageNumber(addr));
      if ok {
        ghost var pt1 := k.pt;
        MoveTemp(k, addr);
        if repairable {
          TempMoved(pt0, pt1, k.pt, (k.curenv, TempPn), (k.curenv, PageNumber(addr)), pt1[(k.curenv, TempPn)].frame);
        }
        x := Returned(());
      }
    }
  }

  /**
   * After pgfault has given page `va` of `c` a private copy in frame `g`,
   * which no entry held before, and the write has been retried there, every
   * entry of another environment and the bytes of its frame are as before.
   */
  lemma RepairIsolates(pt0: map<Slot, Pte>, mem0: seq<Page>, pt1: map<Slot, Pte>, mem1: seq<Page>,
                       c: EnvId, va: u32, b: bv8)
    requires (c, PageNumber(va)) in pt0 && (c, PageNumber(va)) in pt1
    requires forall s' :: s' in pt0 ==> pt0[s'].frame < |mem0|
    requires var g := pt1[(c, PageNumber(va))].frame;
             && g < |mem0|
             && (forall s' :: s' in pt0 ==> pt0[s'].frame != g)
             && pt1 == (pt0 - {(c, TempPn)})[(c, PageNumber(va)) := Pte(g, CopyPerm)]
             && mem1 == mem0[g := mem0[pt0[(c, PageNumber(va))].frame]]
    ensures forall s' :: s' in pt0 && s'.0 != c ==>
              s' in pt1 && pt1[s'] == pt0[s'] && Store(pt1, mem1, c, va, b)[pt1[s'].frame] == mem0[pt1[s'].frame]
  {
    var g := pt1[(c, PageNumber(va))].frame;
    forall s' | s' in pt0 && s'.0 != c
      ensures s' in pt1 && pt1[s'] == pt0[s'] && Store(pt1, mem1, c, va, b)[pt1[s'].frame] == mem0[pt1[s'].frame]
    {
      assert pt0[s'].frame != g;
    }
  }

  /**
   * The kernel's upcall of pgfault for a faulting one-byte write at `va`,
   * and the retried write once pgfault returns; a second fault is a panic.
   */
  method FaultAndRetry(k: Kernel, va: u32, b: bv8) returns (x: Exit<()>)
    requires k.Valid()
    modifies k
    ensures k.Valid()
    ensures x.Returned? ==> Load(k.pt, k.mem, old(k.curenv), va) == Some(b)
    ensures old(Repairable(k, va)) ==>
              && x.Returned?
              && forall s :: s in old(k.pt) && s.0 != old(k.curenv) ==>
                   s in k.pt && k.pt[s] == old(k.pt)[s] && k.mem[k.pt[s].frame] == old(k.mem)[k.pt[s].frame]
    ensures k.envs == old(k.envs) && k.curenv == old(k.curenv) && k.nextId == old(k.nextId)
  {
    var s := (k.curenv, PageNumber(va));
    ghost var st0 := k.State();
    ghost var repairable := Repairable(k, va);
    x := Pgfault(k, va, FEC_WR);
    if x.Returned? {
      ghost var mem1 := k.mem;
      var ok := k.UserStore(k.curenv, va, b);
      if ok {
        k.MappedFrameOk(s);
        StoreVisibleThroughAlias(k.pt, mem1, k.curenv, va, k.curenv, va, b);
        if repairable {
          RepairIsolates(st0.pt, st0.mem, k.pt, mem1, k.curenv, va, b);
        }
      } else {
        x := Panicked;
      }
    }
  }

  /**
   * A one-byte write by user code of the current environment at `va`. When
   * the page is not writable the kernel upcalls pgfault with a write error
   * code and the write is retried. A write to a copy-on-write page that
   * pgfault repairs leaves every page of every other environment, and the
   * bytes behind it, as they were.
   */
  method UserWrite(k: Kernel, va: u32, b: bv8) returns (x: Exit<()>)
    requires k.Valid()
    modifies k
    ensures k.Valid()
    ensures x.Returned? ==> Load(k.pt, k.mem, old(k.curenv), va) == Some(b)
    ensures old(Repairable(k, va) && !UserWritable(k.pt[(k.curenv, PageNumber(va))].perm)) ==>
              && x.Returned?
              && forall s :: s in old(k.pt) && s.0 != old(k.curenv) ==>
                   s in k.pt && k.pt[s] == old(k.pt)[s] && k.mem[k.pt[s].frame] == old(k.mem)[k.pt[s].frame]
    ensures k.envs == old(k.envs) && k.curenv == old(k.curenv) && k.nextId == old(k.nextId)
  {
    var s := (k.curenv, PageNumber(va));
    var ok := k.UserStore(k.curenv, va, b);
    if ok {
      k.MappedFrameOk(s);
      StoreVisibleThroughAlias(k.pt, old(k.mem), k.curenv, va, k.curenv, va, b);
      x := Returned(());
    } else {
      x := FaultAndRetry(k, va, b);
    }
  }

  /** The permission bits fork reads for page `pn` of `e` through uvpt: 0 when nothing is mapped there. */
  function PermsAt(pt: map<Slot, Pte>, e: EnvId, pn: nat): (p: bv32)
    ensures (e, pn) !in pt ==> ActionFor(p) == Skip
  {
    if (e, pn) in pt then pt[(e, pn)].perm else 0
  }

  /**
   * Page `pn` of `par` has been given to `ch` as the copy loop's branch for
   * its original entry (in `pt0`) prescribes: a duplicated page is mapped
   * copy-on-write on both sides; a shared or read-only page is mapped into
   * the child (unless the mapping ran out of memory) and the parent keeps its
   * entry; a skipped page is not mapped into the child.
   */
  ghost predicate PageCopied(pt0: map<Slot, Pte>, pt: map<Slot, Pte>, par: EnvId, ch: EnvId, pn: nat)
  {
    var a := ActionFor(PermsAt(pt0, par, pn));
    && (a == Dup ==>
          && (par, pn) in pt0 && (par, pn) in pt && (ch, pn) in pt
          && pt[(par, pn)] == Pte(pt0[(par, pn)].frame, ChildPerm(Dup) | PTE_P)
          && pt[(ch, pn)] == pt[(par, pn)])
    && (a != Dup ==> ((par, pn) in pt <==> (par, pn) in pt0) && ((par, pn) in pt0 ==> pt[(par, pn)] == pt0[(par, pn)]))
    && (a == Skip ==> (ch, pn) !in pt)
    && ((a == Share || a == ReadOnly) && (ch, pn) in pt ==>
          (par, pn) in pt0 && pt[(ch, pn)] == Pte(pt0[(par, pn)].frame, ChildPerm(a) | PTE_P))
  }

  /** Slot `s` holds the same entry, or none, in both tables. */
  predicate SameSlot(pt: map<Slot, Pte>, pt': map<Slot, Pte>, s: Slot)
  {
    (s in pt <==> s in pt') && (s in pt ==> pt[s] == pt'[s])
  }

  /** A table obtained by overwriting slots `a` and possibly `b` agrees with the old one everywhere else. */
  lemma UpdatesTouchOnly(pt: map<Slot, Pte>, pt': map<Slot, Pte>, a: Slot, b: Slot)
    requires || pt' == pt
             || (a in pt' && pt' == pt[a := pt'[a]])
             || (a in pt' && b in pt' && pt' == pt[a := pt'[a]][b := pt'[b]])
    ensures forall s :: s != a && s != b ==> SameSlot(pt, pt', s)
  {
  }

  /** Whether page `pn` has been copied depends only on its two slots. */
  lemma PageCopiedFrame(pt0: map<Slot, Pte>, pt0': map<Slot, Pte>, pt: map<Slot, Pte>, pt': map<Slot, Pte>,
                        par: EnvId, ch: EnvId, pn: nat)
    requires PageCopied(pt0, pt, par, ch, pn)
    requires SameSlot(pt0, pt0', (par, pn)) && SameSlot(pt, pt', (par, pn)) && SameSlot(pt, pt', (ch, pn))
    ensures PageCopied(pt0', pt', par, ch, pn)
  {
    assert PermsAt(pt0, par, pn) == PermsAt(pt0', par, pn);
  }

  /**
   * COW isolation after fork: every page the loop duplicated names the same
   * frame on both sides, and neither side may write it.
   */
  lemma DuplicatedNotWritable(pt0: map<Slot, Pte>, pt: map<Slot, Pte>, par: EnvId, ch: EnvId, pn: nat)
    requires PageCopied(pt0, pt, par, ch, pn) && ActionFor(PermsAt(pt0, par, pn)) == Dup
    ensures (par, pn) in pt && (ch, pn) in pt && pt[(par, pn)].frame == pt[(ch, pn)].frame == pt0[(par, pn)].frame
    ensures !UserWritable(pt[(par, pn)].perm) && !UserWritable(pt[(ch, pn)].perm)
    ensures Has(pt[(par, pn)].perm, PTE_COW) && Has(pt[(ch, pn)].perm, PTE_COW)
  {
    ChildPermFacts();
  }

  /** Number of pages below USTACKTOP: the copy loop's range. */
  const StackPages: nat := USTACKTOP / PGSIZE

  /** The child's environment is one the caller may map into: live, its own child, empty above `from`. */
  ghost predicate ChildReady(k: Kernel, ch: EnvId, from: nat)
    reads k
  {
    && ch in k.envs && k.envs[ch].parent == k.curenv && ch != k.curenv && ch > 0
    && (forall pn :: from <= pn ==> (ch, pn) !in k.pt)
  }

  /**
   * The shared and read-only branches of the copy loop: sys_page_map(0, addr,
   * child, addr, perm) for a page the parent has mapped. The call either maps
   * the parent's frame into the child with `perm` or, when the child's page
   * table cannot be allocated, changes nothing; its result is not examined.
   */
  method MapIntoChild(k: Kernel, ch: EnvId, pn: nat, perm: bv32)
    requires k.Valid() && pn < StackPages && ChildReady(k, ch, pn) && (k.curenv, pn) in k.pt
    requires perm == PTE_SYSCALL | PTE_SHARE || perm == PTE_P | PTE_U
    modifies k
    ensures k.Valid()
    ensures k.mem == old(k.mem) && k.envs == old(k.envs) && k.curenv == old(k.curenv) && k.nextId == old(k.nextId)
    ensures k.free <= old(k.free)
    ensures || (k.pt == old(k.pt) && k.free == {})
            || k.pt == old(k.pt)[(ch, pn) := Pte(old(k.pt)[(k.curenv, pn)].frame, perm | PTE_P)]
  {
    var addr: u32 := pn * PGSIZE;
    assert PageNumber(addr) == pn;
    k.SelfResolves();
    k.MappedFrameOk((k.curenv, pn));
    ghost var free0, refs0, pt0 := k.free, k.refs, k.pt;
    var r := SysPageMap(k, 0, addr, ch, addr, perm);
    if r == 0 {
      assert Released(refs0, pt0, (ch, pn), Some(pt0[(k.curenv, pn)].frame)) == {};
      assert k.free <= free0 by {
        forall g | g in k.free ensures g in free0 {
          assert g !in k.free - free0;
        }
      }
    }
  }

  /** The copy-on-write branch of the copy loop: duppage(child, pn) for a page the parent has mapped. */
  method DupIntoChild(k: Kernel, ch: EnvId, pn: nat) returns (x: Exit<()>)
    requires k.Valid() && pn < StackPages && ChildReady(k, ch, pn) && (k.curenv, pn) in k.pt
    modifies k
    ensures k.Valid()
    ensures k.mem == old(k.mem) && k.envs == old(k.envs) && k.curenv == old(k.curenv) && k.nextId == old(k.nextId)
    ensures x.Returned? ==>
              var v := Pte(old(k.pt)[(k.curenv, pn)].frame, DupPerm | PTE_P);
              && k.pt == old(k.pt)[(ch, pn) := v][(k.curenv, pn) := v]
              && k.free <= old(k.free)
  {
    assert PageVa(pn) == pn * PGSIZE && PageNumber(PageVa(pn)) == pn;
    k.SelfResolves();
    var d := Duppage(k, ch, pn);
    x := if d.Returned? then Returned(()) else Panicked;
  }

  /**
   * One iteration of fork's copy loop, for page `pn` below USTACKTOP: when
   * the directory slot is present, read the entry and take the branch its
   * bits select (ActionFor is that if-chain). Only the slots of page `pn`
   * change.
   */
  method ForkPage(k: Kernel, ch: EnvId, pn: nat) returns (x: Exit<()>)
    requires k.Valid() && pn < StackPages && ChildReady(k, ch, pn)
    modifies k
    ensures k.Valid()
    ensures k.mem == old(k.mem) && k.envs == old(k.envs) && k.curenv == old(k.curenv) && k.nextId == old(k.nextId)
    ensures x.Panicked? ==> ActionFor(PermsAt(old(k.pt), k.curenv, pn)) == Dup
    ensures x.Returned? ==>
              var a := ActionFor(PermsAt(old(k.pt), k.curenv, pn));
              && PageCopied(old(k.pt), k.pt, k.curenv, ch, pn)
              && k.free <= old(k.free)
              && (a != Dup ==> k.pt == old(k.pt) || ((ch, pn) in k.pt && k.pt == old(k.pt)[(ch, pn) := k.pt[(ch, pn)]]))
              && (a == Dup ==> k.pt == old(k.pt)[(ch, pn) := k.pt[(ch, pn)]][(k.curenv, pn) := k.pt[(k.curenv, pn)]])
              && (a != Skip && (ch, pn) !in k.pt ==> k.free == {})
  {
    var par := k.curenv;
    var addr: u32 := pn * PGSIZE;
    assert PageNumber(addr) == pn;
    k.SelfResolves();
    if (par, pn) in k.pt {
      k.MappedFrameOk((par, pn));
    }
    x := Returned(());
    if (par, DirIndex(pn)) in k.tables {
      var perms := PermsAt(k.pt, par, pn);
      match ActionFor(perms)
      case Share =>
        MapIntoChild(k, ch, pn, PTE_SYSCALL | PTE_SHARE);
      case Dup =>
        x := DupIntoChild(k, ch, pn);
      case ReadOnly =>
        MapIntoChild(k, ch, pn, PTE_P | PTE_U);
      case Skip =>
    }
  }

  /**
   * The copy loop's invariant after `done` pages, against the parent's
   * original table `pt0`: those pages are copied, nothing else outside the
   * child has changed, and the child has nothing mapped from `done` on.
   */
  ghost predicate CopiedUpTo(pt0: map<Slot, Pte>, pt: map<Slot, Pte>, par: EnvId, ch: EnvId, done: nat)
  {
    && (forall pn: nat :: pn < done ==> PageCopied(pt0, pt, par, ch, pn))
    && (forall s: Slot :: s.0 != ch && !(s.0 == par && s.1 < done) ==> SameSlot(pt0, pt, s))
    && (forall pn: nat :: done <= pn ==> (ch, pn) !in pt)
  }

  /** A page of the first `done` that the child should have but lacks shows that no frame was left. */
  ghost predicate MissingOnlyWhenFull(pt0: map<Slot, Pte>, pt: map<Slot, Pte>, free: set<Frame>, par: EnvId, ch: EnvId, done: nat)
  {
    forall pn: nat :: pn < done && ActionFor(PermsAt(pt0, par, pn)) != Skip && (ch, pn) !in pt ==> free == {}
  }

  /** One iteration of the copy loop extends its invariant by one page. */
  lemma CopyStep(pt0: map<Slot, Pte>, ptb: map<Slot, Pte>, pt: map<Slot, Pte>, freeb: set<Frame>, free: set<Frame>,
                 par: EnvId, ch: EnvId, pn: nat)
    requires par != ch
    requires CopiedUpTo(pt0, ptb, par, ch, pn) && MissingOnlyWhenFull(pt0, ptb, freeb, par, ch, pn)
    requires PageCopied(ptb, pt, par, ch, pn) && free <= freeb
    requires || pt == ptb
             || ((ch, pn) in pt && pt == ptb[(ch, pn) := pt[(ch, pn)]])
             || ((ch, pn) in pt && (par, pn) in pt && pt == ptb[(ch, pn) := pt[(ch, pn)]][(par, pn) := pt[(par, pn)]])
    requires ActionFor(PermsAt(ptb, par, pn)) != Skip && (ch, pn) !in pt ==> free == {}
    ensures CopiedUpTo(pt0, pt, par, ch, pn + 1) && MissingOnlyWhenFull(pt0, pt, free, par, ch, pn + 1)
  {
    UpdatesTouchOnly(ptb, pt, (ch, pn), (par, pn));
    forall q: nat | q < pn ensures PageCopied(pt0, pt, par, ch, q) {
      PageCopiedFrame(pt0, pt0, ptb, pt, par, ch, q);
    }
    assert SameSlot(pt0, ptb, (par, pn));
    PageCopiedFrame(ptb, pt0, pt, pt, par, ch, pn);
    forall s: Slot | s.0 != ch && !(s.0 == par && s.1 < pn + 1) ensures SameSlot(pt0, pt, s) {
      assert SameSlot(pt0, ptb, s) && SameSlot(ptb, pt, s);
    }
    forall q: nat | pn + 1 <= q ensures (ch, q) !in pt {
      assert SameSlot(ptb, pt, (ch, q));
    }
    assert PermsAt(ptb, par, pn) == PermsAt(pt0, par, pn);
    forall q: nat | q < pn + 1 && ActionFor(PermsAt(pt0, par, q)) != Skip && (ch, q) !in pt ensures free == {} {
      if q < pn {
        assert SameSlot(ptb, pt, (ch, q));
      }
    }
  }

  /** One iteration of the copy loop together with the proof that it extends the loop's invariant. */
  method CopyPageStep(k: Kernel, ch: EnvId, pn: nat, ghost pt0: map<Slot, Pte>, ghost free0: set<Frame>)
    returns (x: Exit<()>)
    requires k.Valid() && pn < StackPages
    requires ch in k.envs && k.envs[ch].parent == k.curenv && ch != k.curenv && ch > 0
    requires k.free <= free0
    requires CopiedUpTo(pt0, k.pt, k.curenv, ch, pn) && MissingOnlyWhenFull(pt0, k.pt, k.free, k.curenv, ch, pn)
    modifies k
    ensures k.Valid()
    ensures k.mem == old(k.mem) && k.envs == old(k.envs) && k.curenv == old(k.curenv) && k.nextId == old(k.nextId)
    ensures x.Returned? ==>
              && k.free <= free0
              && CopiedUpTo(pt0, k.pt, k.curenv, ch, pn + 1)
              && MissingOnlyWhenFull(pt0, k.pt, k.free, k.curenv, ch, pn + 1)
    ensures x.Panicked? ==> ActionFor(PermsAt(pt0, k.curenv, pn)) == Dup
  {
    ghost var ptb, freeb := k.pt, k.free;
    assert SameSlot(pt0, ptb, (k.curenv, pn));
    assert PermsAt(ptb, k.curenv, pn) == PermsAt(pt0, k.curenv, pn);
    x := ForkPage(k, ch, pn);
    if x.Returned? {
      CopyStep(pt0, ptb, k.pt, freeb, k.free, k.curenv, ch, pn);
    }
  }

  /**
   * The copy loop of fork, for every page below USTACKTOP. A panic inside
   * duppage ends the program; otherwise every page has been handled as
   * PageCopied says, nothing outside those pages has changed, and a page the
   * child misses although it should have one shows that memory ran out.
   */
  method CopyAddressSpace(k: Kernel, ch: EnvId) returns (x: Exit<()>)
    requires k.Valid() && ChildReady(k, ch, 0)
    modifies k
    ensures k.Valid()
    ensures k.mem == old(k.mem) && k.envs == old(k.envs) && k.curenv == old(k.curenv) && k.nextId == old(k.nextId)
    ensures x.Returned? ==> k.free <= old(k.free)
    ensures x.Returned? ==> CopiedUpTo(old(k.pt), k.pt, k.curenv, ch, StackPages)
    ensures x.Returned? ==> MissingOnlyWhenFull(old(k.pt), k.pt, k.free, k.curenv, ch, StackPages)
    ensures x.Panicked? ==> exists pn: nat :: pn < StackPages && ActionFor(PermsAt(old(k.pt), k.curenv, pn)) == Dup
  {
    ghost var pt0, free0 := k.pt, k.free;
    var par := k.curenv;
    var addr: u32 := 0;
    ghost var done: nat := 0;
    while addr < USTACKTOP
      invariant k.Valid() && addr == done * PGSIZE && done <= StackPages
      invariant k.mem == old(k.mem) && k.envs == old(k.envs) && k.curenv == par && k.nextId == old(k.nextId)
      invariant ch in k.envs && k.envs[ch].parent == par && ch != par && ch > 0
      invariant k.free <= free0
      invariant CopiedUpTo(pt0, k.pt, par, ch, done) && MissingOnlyWhenFull(pt0, k.pt, k.free, par, ch, done)
    {
      var pn := addr / PGSIZE;
      assert pn == done;
      var step := CopyPageStep(k, ch, pn, pt0, free0);
      if step.Panicked? {
        return Panicked;
      }
      addr := addr + PGSIZE;
      done := done + 1;
    }
    x := Returned(());
  }

  /** The page number of UXSTACKTOP - PGSIZE, the child's exception stack. */
  const ExStackPn: nat := (UXSTACKTOP - PGSIZE) / PGSIZE

  /**
   * fork's loop from UXSTACKTOP to ULIM. Every address there is at or above
   * UTOP, so sys_page_map rejects each call with -E_INVAL and the loop
   * changes nothing.
   */
  method MapAboveUtop(k: Kernel, ch: EnvId)
    requires k.Valid()
    modifies k
    ensures k.Valid() && unchanged(k)
  {
    var addr: u32 := UXSTACKTOP;
    while addr < ULIM
      invariant k.Valid() && unchanged(k)
      invariant UTOP <= addr <= ULIM && addr % PGSIZE == 0
    {
      var r := SysPageMap(k, k.curenv, addr, ch, addr, PTE_P | PTE_U);
      addr := addr + PGSIZE;
    }
  }

  /**
   * sys_page_alloc(child, UXSTACKTOP - PGSIZE, PTE_P | PTE_U | PTE_W), whose
   * result fork does not examine: either a fresh zeroed frame becomes the
   * child's exception stack, held by nobody else, or at most one frame was
   * free and nothing is mapped.
   */
  method GiveExceptionStack(k: Kernel, ch: EnvId)
    requires k.Valid() && ChildReady(k, ch, StackPages) && StackPages <= ExStackPn
    modifies k
    ensures k.Valid()
    ensures k.envs == old(k.envs) && k.curenv == old(k.curenv) && k.nextId == old(k.nextId)
    ensures k.free <= old(k.free)
    ensures (ch, ExStackPn) !in k.pt ==> k.pt == old(k.pt) && k.free == old(k.free) && |k.free| <= 1
    ensures (ch, ExStackPn) in k.pt ==>
              var g := k.pt[(ch, ExStackPn)].frame;
              && g in old(k.free)
              && k.pt == old(k.pt)[(ch, ExStackPn) := Pte(g, CopyPerm)]
              && k.mem[g] == ZeroPage()
              && HoldersIn(k.pt, g) == {(ch, ExStackPn)}
  {
    var va: u32 := UXSTACKTOP - PGSIZE;
    assert PageNumber(va) == ExStackPn;
    k.SelfResolves();
    ghost var free0, refs0, pt0 := k.free, k.refs, k.pt;
    var r := SysPageAlloc(k, ch, va, PTE_P | PTE_U | PTE_W);
    if r == 0 {
      assert Released(refs0, pt0, (ch, ExStackPn), Some(k.pt[(ch, ExStackPn)].frame)) == {};
      assert k.free <= free0 by {
        forall g | g in k.free ensures g in free0 {
          assert g !in k.free - free0;
        }
      }
    }
  }

  /** Mapping the exception stack keeps everything the copy loop established below USTACKTOP. */
  lemma ExStackKeepsCopy(pt0: map<Slot, Pte>, pt1: map<Slot, Pte>, pt2: map<Slot, Pte>, par: EnvId, ch: EnvId)
    requires par != ch && CopiedUpTo(pt0, pt1, par, ch, StackPages) && StackPages <= ExStackPn
    requires pt2 == pt1 || ((ch, ExStackPn) in pt2 && pt2 == pt1[(ch, ExStackPn) := pt2[(ch, ExStackPn)]])
    ensures forall pn: nat :: pn < StackPages ==> PageCopied(pt0, pt2, par, ch, pn)
    ensures forall s: Slot :: s.0 != ch && !(s.0 == par && s.1 < StackPages) ==> SameSlot(pt0, pt2, s)
    ensures forall pn: nat :: StackPages <= pn && pn != ExStackPn ==> (ch, pn) !in pt2
  {
    UpdatesTouchOnly(pt1, pt2, (ch, ExStackPn), (ch, ExStackPn));
    forall pn: nat | pn < StackPages ensures PageCopied(pt0, pt2, par, ch, pn) {
      PageCopiedFrame(pt0, pt0, pt1, pt2, par, ch, pn);
    }
    forall s: Slot | s.0 != ch && !(s.0 == par && s.1 < StackPages) ensures SameSlot(pt0, pt2, s) {
      assert SameSlot(pt0, pt1, s) && SameSlot(pt1, pt2, s);
    }
    forall pn: nat | StackPages <= pn && pn != ExStackPn ensures (ch, pn) !in pt2 {
      assert SameSlot(pt1, pt2, (ch, pn));
    }
  }

  /**
   * The parent's side of fork once sys_exofork has returned the child `ch`:
   * copy the address space, give the child a fresh exception-stack page, run
   * the loop above UTOP and mark the child runnable.
   */
  method ForkParent(k: Kernel, ch: EnvId) returns (x: Exit<EnvId>)
    requires k.Valid() && ChildReady(k, ch, 0)
    modifies k
    ensures k.Valid()
    ensures k.curenv == old(k.curenv) && k.nextId == old(k.nextId)
    ensures x.Panicked? ==> exists pn: nat :: pn < StackPages && ActionFor(PermsAt(old(k.pt), k.curenv, pn)) == Dup
    ensures x.Returned? ==>
              && x.value == ch
              && k.envs == old(k.envs)[ch := EnvInfo(k.curenv, Runnable)]
              && k.free <= old(k.free)
              && (forall pn: nat :: pn < StackPages ==> PageCopied(old(k.pt), k.pt, k.curenv, ch, pn))
              && MissingOnlyWhenFull(old(k.pt), k.pt, k.free, k.curenv, ch, StackPages)
              && (forall s: Slot :: s.0 != ch && !(s.0 == k.curenv && s.1 < StackPages) ==> SameSlot(old(k.pt), k.pt, s))
              && (forall pn: nat :: StackPages <= pn && pn != ExStackPn ==> (ch, pn) !in k.pt)
    ensures x.Returned? && (ch, ExStackPn) in k.pt ==>
              var g := k.pt[(ch, ExStackPn)].frame;
              && g in old(k.free)
              && k.pt[(ch, ExStackPn)].perm == CopyPerm
              && k.mem[g] == ZeroPage()
              && HoldersIn(k.pt, g) == {(ch, ExStackPn)}
    ensures x.Returned? && (ch, ExStackPn) !in k.pt ==> |k.free| <= 1
  {
    ghost var pt0 := k.pt;
    var copied := CopyAddressSpace(k, ch);
    x := Panicked;
    if copied.Returned? {
      ghost var pt1 := k.pt;
      GiveExceptionStack(k, ch);
      ExStackKeepsCopy(pt0, pt1, k.pt, k.curenv, ch);
      MapAboveUtop(k, ch);
      var st := k.SetStatus(ch, Runnable);
      if st < 0 {
        x := Panicked;
      } else {
        x := Returned(ch);
      }
    }
  }

  /**
   * fork: sys_exofork, panicking on a negative result, returning 0 in the
   * child, and otherwise the parent's side above.
   */
  method Fork(k: Kernel) returns (x: Exit<EnvId>)
    requires k.Valid()
    modifies k
    ensures k.Valid()
    ensures |old(k.envs)| >= NENV ==> x.Panicked?
    ensures x.Returned? ==>
              && x.value > 0 && x.value !in old(k.envs)
              && k.envs == old(k.envs)[x.value := EnvInfo(k.curenv, Runnable)]
              && k.free <= old(k.free)
              && (forall pn: nat :: pn < StackPages ==> PageCopied(old(k.pt), k.pt, k.curenv, x.value, pn))
              && MissingOnlyWhenFull(old(k.pt), k.pt, k.free, k.curenv, x.value, StackPages)
              && (forall s: Slot :: s.0 != x.value && !(s.0 == k.curenv && s.1 < StackPages) ==> SameSlot(old(k.pt), k.pt, s))
              && (forall pn: nat :: StackPages <= pn && pn != ExStackPn ==> (x.value, pn) !in k.pt)
    ensures x.Returned? && (x.value, ExStackPn) in k.pt ==>
              var g := k.pt[(x.value, ExStackPn)].frame;
              && g in old(k.free)
              && k.pt[(x.value, ExStackPn)].perm == CopyPerm
              && k.mem[g] == ZeroPage()
              && HoldersIn(k.pt, g) == {(x.value, ExStackPn)}
    ensures x.Returned? && (x.value, ExStackPn) !in k.pt ==> |k.free| <= 1
  {
    var envid := k.Exofork();
    if envid < 0 {
      x := Panicked;
    } else if envid == 0 {
      x := Returned(0);
    } else {
      x := ForkParent(k, envid);
    }
  }

  /** sfork is not implemented: it always panics. */
  method Sfork() returns (x: Exit<int>)
    ensures x.Panicked?
  {
    x := Panicked;
  }
}
