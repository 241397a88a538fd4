/**
 * The kernel state that the page-mapping system calls act on: physical frames
 * with reference counts and contents, the page tables of the live
 * environments, and the current environment. kern/pmap.c and kern/env.c are
 * not part of this model: page_alloc, page_free, page_insert, page_remove,
 * page_lookup and envid2env are given here as methods and functions whose
 * contracts are those their callers in kern/syscall.c and kern/nvme.c rely
 * on, with the simplest bodies that meet them.
 */
module KernState {
  import opened MemLayout
  import opened Wrappers

  /** An environment identifier (envid_t); the live ones are positive. */
  type EnvId = int
  /** A physical frame, named by its index in the `pages` array. */
  type Frame = nat
  /** A page-table slot: an environment and a virtual page number. */
  type Slot = (EnvId, nat)

  /** The contents of one frame. */
  type Page = s: seq<bv8> | |s| == PGSIZE witness ZeroPage()

  function ZeroPage(): (p: seq<bv8>)
    ensures |p| == PGSIZE && forall i :: 0 <= i < |p| ==> p[i] == 0
  {
    seq(PGSIZE, i => 0 as bv8)
  }

  /** A leaf page-table entry: the frame it refers to and its low permission bits. */
  datatype Pte = Pte(frame: Frame, perm: bv32)

  datatype EnvStatus = Runnable | NotRunnable

  datatype EnvInfo = EnvInfo(parent: EnvId, status: EnvStatus)

  /** The slots whose entry refers to frame `f`: what pp_ref counts. */
  ghost function HoldersIn(pt: map<Slot, Pte>, f: Frame): set<Slot>
  {
    set s | s in pt && pt[s].frame == f
  }

  /** Every frame below |refs| outside `excl` is referenced exactly refs[f] times. */
  ghost predicate Counted(pt: map<Slot, Pte>, refs: seq<nat>, excl: set<Frame>)
  {
    forall f {:trigger HoldersIn(pt, f)} :: 0 <= f < |refs| && f !in excl ==> refs[f] == |HoldersIn(pt, f)|
  }

  function Dec(n: nat): nat
  {
    if n == 0 then 0 else n - 1
  }

  /** pp_ref after slot `s` is made to hold `v`: the new frame gains a reference, the old one loses it. */
  function RefsAfterSet(refs: seq<nat>, pt: map<Slot, Pte>, s: Slot, v: Pte): seq<nat>
    requires v.frame < |refs| && (s in pt ==> pt[s].frame < |refs|)
  {
    if s in pt && pt[s].frame == v.frame then refs
    else if s in pt then refs[pt[s].frame := Dec(refs[pt[s].frame])][v.frame := refs[v.frame] + 1]
    else refs[v.frame := refs[v.frame] + 1]
  }

  /** pp_ref after slot `s` is cleared. */
  function RefsAfterClear(refs: seq<nat>, pt: map<Slot, Pte>, s: Slot): seq<nat>
    requires s in pt ==> pt[s].frame < |refs|
  {
    if s in pt then refs[pt[s].frame := Dec(refs[pt[s].frame])] else refs
  }

  /** The frame that loses its last reference when slot `s` stops referring to it, if any. */
  function Released(refs: seq<nat>, pt: map<Slot, Pte>, s: Slot, keep: Option<Frame>): set<Frame>
    requires s in pt ==> pt[s].frame < |refs|
  {
    if s in pt && Some(pt[s].frame) != keep && refs[pt[s].frame] == 1 then {pt[s].frame} else {}
  }

  /** Giving an unmapped frame a reference does not change what clearing `s` releases. */
  lemma ReleasedIgnoresOther(refs: seq<nat>, pt: map<Slot, Pte>, s: Slot, keep: Option<Frame>, t: Frame)
    requires t < |refs| && (s in pt ==> pt[s].frame < |refs| && pt[s].frame != t)
    ensures Released(refs[t := 1], pt, s, keep) == Released(refs, pt, s, keep)
  {
  }

  lemma CountedPositive(pt: map<Slot, Pte>, refs: seq<nat>, excl: set<Frame>, s: Slot)
    requires Counted(pt, refs, excl) && s in pt && pt[s].frame < |refs| && pt[s].frame !in excl
    ensures refs[pt[s].frame] > 0
  {
    assert s in HoldersIn(pt, pt[s].frame);
  }

  /** How the number of references to `g` changes when slot `s` is made to hold `v`. */
  lemma HoldersAfterSet(pt: map<Slot, Pte>, s: Slot, v: Pte, g: Frame)
    ensures var was := s in pt && pt[s].frame == g;
            var now := v.frame == g;
            |HoldersIn(pt[s := v], g)| == |HoldersIn(pt, g)| + (if now && !was then 1 else 0) - (if was && !now then 1 else 0)
  {
    var H, H' := HoldersIn(pt, g), HoldersIn(pt[s := v], g);
    forall x
      ensures x in H' <==> if x == s then v.frame == g else x in H
    {
    }
    if s in pt && pt[s].frame == g {
      assert s in H;
      if v.frame == g {
        assert H' == H;
      } else {
        assert H' == H - {s};
      }
    } else {
      assert s !in H;
      if v.frame == g {
        assert H' == H + {s};
      } else {
        assert H' == H;
      }
    }
  }

  /** A frame nobody referred to is, after one slot is set to it, referred to by that slot alone. */
  lemma HoldersOfFreshFrame(pt: map<Slot, Pte>, s: Slot, v: Pte)
    requires HoldersIn(pt, v.frame) == {}
    ensures HoldersIn(pt[s := v], v.frame) == {s}
  {
    forall s' | s' in pt && s' != s ensures pt[s'].frame != v.frame {
      assert s' !in HoldersIn(pt, v.frame);
    }
  }

  lemma CountedAfterSet(pt: map<Slot, Pte>, refs: seq<nat>, excl: set<Frame>, s: Slot, v: Pte)
    requires Counted(pt, refs, excl)
    requires v.frame < |refs| && v.frame !in excl
    requires s in pt ==> pt[s].frame < |refs| && pt[s].frame !in excl
    ensures Counted(pt[s := v], RefsAfterSet(refs, pt, s, v), excl)
  {
    var refs' := RefsAfterSet(refs, pt, s, v);
    forall g | 0 <= g < |refs'| && g !in excl ensures refs'[g] == |HoldersIn(pt[s := v], g)| {
      HoldersAfterSet(pt, s, v, g);
    }
  }

  lemma CountedAfterClear(pt: map<Slot, Pte>, refs: seq<nat>, excl: set<Frame>, s: Slot)
    requires Counted(pt, refs, excl)
    requires s in pt ==> pt[s].frame < |refs| && pt[s].frame !in excl
    ensures Counted(pt - {s}, RefsAfterClear(refs, pt, s), excl)
  {
    var pt', refs' := pt - {s}, RefsAfterClear(refs, pt, s);
    forall g | 0 <= g < |refs'| && g !in excl ensures refs'[g] == |HoldersIn(pt', g)| {
      assert HoldersIn(pt', g) == HoldersIn(pt, g) - {s};
      if s in pt && pt[s].frame == g {
        assert s in HoldersIn(pt, g);
      } else {
        assert s !in HoldersIn(pt, g);
      }
    }
  }

  /** The entry lets user code read the page: present and user-accessible. */
  predicate UserReadable(perm: bv32)
  {
    Has(perm, PTE_P | PTE_U)
  }

  /** The entry lets user code write the page. */
  predicate UserWritable(perm: bv32)
  {
    Has(perm, PTE_P | PTE_U | PTE_W)
  }

  /** A one-byte user load at `va` in `e`: nothing when the access would fault. */
  function Load(pt: map<Slot, Pte>, mem: seq<Page>, e: EnvId, va: u32): (r: Option<bv8>)
    ensures r.Some? <==> (e, PageNumber(va)) in pt && UserReadable(pt[(e, PageNumber(va))].perm)
                         && pt[(e, PageNumber(va))].frame < |mem|
    ensures r.Some? ==> r.value == mem[pt[(e, PageNumber(va))].frame][va % PGSIZE]
  {
    var s := (e, PageNumber(va));
    if s in pt && UserReadable(pt[s].perm) && pt[s].frame < |mem| then Some(mem[pt[s].frame][va % PGSIZE])
    else None
  }

  /** The frame contents after a one-byte user store at `va` in `e`; unchanged when the store would fault. */
  function Store(pt: map<Slot, Pte>, mem: seq<Page>, e: EnvId, va: u32, b: bv8): (r: seq<Page>)
    ensures |r| == |mem|
  {
    var s := (e, PageNumber(va));
    if s in pt && UserWritable(pt[s].perm) && pt[s].frame < |mem| then
      mem[pt[s].frame := mem[pt[s].frame][va % PGSIZE := b]]
    else mem
  }

  /** A store is seen by a load through any page, of any environment, that maps the same frame. */
  lemma StoreVisibleThroughAlias(pt: map<Slot, Pte>, mem: seq<Page>, e: EnvId, va: u32, e2: EnvId, va2: u32, b: bv8)
    requires (e, PageNumber(va)) in pt && UserWritable(pt[(e, PageNumber(va))].perm)
    requires pt[(e, PageNumber(va))].frame < |mem|
    requires (e2, PageNumber(va2)) in pt && UserReadable(pt[(e2, PageNumber(va2))].perm)
    requires pt[(e2, PageNumber(va2))].frame == pt[(e, PageNumber(va))].frame && va2 % PGSIZE == va % PGSIZE
    ensures Load(pt, Store(pt, mem, e, va, b), e2, va2) == Some(b)
  {
  }

  /** A store leaves every load through a page that maps a different frame as it was. */
  lemma StoreInvisibleElsewhere(pt: map<Slot, Pte>, mem: seq<Page>, e: EnvId, va: u32, e2: EnvId, va2: u32, b: bv8)
    requires (e2, PageNumber(va2)) in pt && (e, PageNumber(va)) in pt
    requires pt[(e2, PageNumber(va2))].frame != pt[(e, PageNumber(va))].frame
    ensures Load(pt, Store(pt, mem, e, va, b), e2, va2) == Load(pt, mem, e2, va2)
  {
  }

  /**
   * The frame contents after user code copies the whole page `src` of `e` onto
   * its page `dst` (memmove of PGSIZE bytes); unchanged when either access would fault.
   */
  function CopyPage(pt: map<Slot, Pte>, mem: seq<Page>, e: EnvId, dst: nat, src: nat): (r: seq<Page>)
    ensures |r| == |mem|
    ensures (e, dst) in pt && UserWritable(pt[(e, dst)].perm) && pt[(e, dst)].frame < |mem|
            && (e, src) in pt && UserReadable(pt[(e, src)].perm) && pt[(e, src)].frame < |mem|
            ==> r == mem[pt[(e, dst)].frame := mem[pt[(e, src)].frame]]
  {
    if (e, dst) in pt && UserWritable(pt[(e, dst)].perm) && pt[(e, dst)].frame < |mem|
       && (e, src) in pt && UserReadable(pt[(e, src)].perm) && pt[(e, src)].frame < |mem|
    then mem[pt[(e, dst)].frame := mem[pt[(e, src)].frame]]
    else mem
  }

  /** A snapshot of the kernel's page-management state. */
  datatype KState = KState(
    npages: nat, refs: seq<nat>, mem: seq<Page>, free: set<Frame>, ptFrames: set<Frame>,
    envs: map<EnvId, EnvInfo>, pt: map<Slot, Pte>, tables: set<(EnvId, nat)>,
    curenv: EnvId, nextId: EnvId)

  /** Free frames are unreferenced; page-table frames are never on the free list. */
  ghost predicate FramesOk(st: KState)
  {
    && |st.refs| == st.npages && |st.mem| == st.npages
    && (forall f :: f in st.free ==> f < st.npages && st.refs[f] == 0)
    && (forall f :: f in st.ptFrames ==> f < st.npages)
    && st.free !! st.ptFrames
  }

  /** The running environment is live; identifiers are positive and below nextId. */
  ghost predicate EnvsOk(st: KState)
  {
    && st.curenv in st.envs
    && 0 < st.nextId
    && (forall e :: e in st.envs ==> 0 < e < st.nextId)
    && (forall t :: t in st.tables ==> t.0 in st.envs)
  }

  /** Every entry belongs to a live environment, sits in an existing table and names a user frame. */
  ghost predicate EntriesOk(st: KState)
  {
    forall s :: s in st.pt ==>
      && s.0 in st.envs
      && (s.0, DirIndex(s.1)) in st.tables
      && st.pt[s].frame < st.npages
      && st.pt[s].frame !in st.ptFrames
  }

  /** The kernel invariant: pp_ref of every user frame is the number of entries that refer to it. */
  ghost predicate Inv(st: KState)
  {
    FramesOk(st) && EnvsOk(st) && EntriesOk(st) && Counted(st.pt, st.refs, st.ptFrames)
  }

  lemma FreeIsUnmapped(st: KState, f: Frame)
    requires Inv(st) && f in st.free
    ensures HoldersIn(st.pt, f) == {}
    ensures forall s :: s in st.pt ==> st.pt[s].frame != f
  {
    assert |HoldersIn(st.pt, f)| == 0;
    forall s | s in st.pt ensures st.pt[s].frame != f {
      assert s !in HoldersIn(st.pt, f);
    }
  }

  /** Setting one entry with page_insert's bookkeeping keeps the invariant. */
  lemma InvAfterSet(st: KState, s: Slot, v: Pte)
    requires Inv(st)
    requires s.0 in st.envs && (s.0, DirIndex(s.1)) in st.tables
    requires v.frame < st.npages && v.frame !in st.free && v.frame !in st.ptFrames
    ensures Inv(st.(free := st.free + Released(st.refs, st.pt, s, Some(v.frame)),
                    refs := RefsAfterSet(st.refs, st.pt, s, v),
                    pt := st.pt[s := v]))
  {
    if s in st.pt && st.pt[s].frame in st.free {
      FreeIsUnmapped(st, st.pt[s].frame);
    }
    CountedAfterSet(st.pt, st.refs, st.ptFrames, s, v);
    if s in st.pt && st.pt[s].frame != v.frame {
      CountedPositive(st.pt, st.refs, st.ptFrames, s);
    }
    var st' := st.(free := st.free + Released(st.refs, st.pt, s, Some(v.frame)),
                   refs := RefsAfterSet(st.refs, st.pt, s, v),
                   pt := st.pt[s := v]);
    assert FramesOk(st');
    assert EntriesOk(st') by {
      forall s' | s' in st'.pt ensures s'.0 in st'.envs && (s'.0, DirIndex(s'.1)) in st'.tables
        && st'.pt[s'].frame < st'.npages && st'.pt[s'].frame !in st'.ptFrames {
        if s' != s {
          assert s' in st.pt;
        }
      }
    }
  }

  /** Clearing one entry with page_remove's bookkeeping keeps the invariant. */
  lemma InvAfterClear(st: KState, s: Slot)
    requires Inv(st)
    ensures s in st.pt ==> st.pt[s].frame < |st.refs|
    ensures Inv(st.(free := st.free + Released(st.refs, st.pt, s, None),
                    refs := RefsAfterClear(st.refs, st.pt, s),
                    pt := st.pt - {s}))
  {
    if s in st.pt && st.pt[s].frame in st.free {
      FreeIsUnmapped(st, st.pt[s].frame);
    }
    CountedAfterClear(st.pt, st.refs, st.ptFrames, s);
    if s in st.pt {
      CountedPositive(st.pt, st.refs, st.ptFrames, s);
    }
  }

  class Kernel {
    /** Number of physical frames (npages). */
    const npages: nat
    /** pp_ref of every frame. */
    var refs: seq<nat>
    /** The bytes of every frame. */
    var mem: seq<Page>
    /** The frames on page_free_list. */
    var free: set<Frame>
    /** Frames in use as second-level page tables (owned by the kernel). */
    var ptFrames: set<Frame>
    /** The live environments. */
    var envs: map<EnvId, EnvInfo>
    /** All leaf entries of all user page tables, by (environment, page number). */
    var pt: map<Slot, Pte>
    /** The (environment, directory slot) pairs whose second-level table exists. */
    var tables: set<(EnvId, nat)>
    /** The running environment. */
    var curenv: EnvId
    /** Every identifier handed out so far is below this one. */
    var nextId: EnvId

    /** The fields of this kernel as one value. */
    ghost function State(): KState
      reads this
    {
      KState(npages, refs, mem, free, ptFrames, envs, pt, tables, curenv, nextId)
    }

    ghost predicate Valid()
      reads this
    {
      Inv(State())
    }

    /** A frame on the free list is mapped nowhere. */
    lemma FreeNotMapped(f: Frame)
      requires Valid() && f in free
      ensures HoldersIn(pt, f) == {}
      ensures forall s :: s in pt ==> pt[s].frame != f
    {
      FreeIsUnmapped(State(), f);
    }

    /** The frame an entry names is a user frame: in range, not free, not a page table. */
    lemma MappedFrameOk(s: Slot)
      requires Valid() && s in pt
      ensures pt[s].frame < npages && pt[s].frame !in free && pt[s].frame !in ptFrames
      ensures s.0 in envs && (s.0, DirIndex(s.1)) in tables
    {
      if pt[s].frame in free {
        FreeNotMapped(pt[s].frame);
      }
    }

    /** The caller names itself both by envid 0 and by its own identifier. */
    lemma SelfResolves()
      requires Valid()
      ensures curenv in envs && curenv > 0
      ensures ResolveEnv(curenv, true) == Some(curenv) && ResolveEnv(0, true) == Some(curenv)
    {
    }

    /** page_lookup: the entry at page `pn` of `e`, or nothing when it is unmapped. */
    function Lookup(e: EnvId, pn: nat): (r: Option<Pte>)
      reads this
      ensures r.Some? <==> (e, pn) in pt
      ensures r.Some? ==> r.value == pt[(e, pn)]
    {
      if (e, pn) in pt then Some(pt[(e, pn)]) else None
    }

    /**
     * envid2env: envid 0 names the caller; any other identifier must denote a
     * live environment, and with `checkperm` it must be the caller or a child
     * of the caller.
     */
    function ResolveEnv(envid: int, checkperm: bool): (r: Option<EnvId>)
      reads this
      ensures envid == 0 ==> r == Some(curenv)
      ensures envid != 0 && r.Some? ==> r.value == envid && envid in envs
      ensures envid != 0 && envid !in envs ==> r.None?
      ensures r.Some? && checkperm ==> r.value == curenv || (r.value in envs && envs[r.value].parent == curenv)
    {
      if envid == 0 then Some(curenv)
      else if envid !in envs then None
      else if checkperm && envid != curenv && envs[envid].parent != curenv then None
      else Some(envid)
    }

    /** page_alloc: take a frame off the free list, zero-filled when `zero` is set. */
    method PageAlloc(zero: bool) returns (r: Option<Frame>)
      requires Valid()
      modifies this
      ensures Valid()
      ensures r.None? <==> old(free) == {}
      ensures r.None? ==> unchanged(this)
      ensures r.Some? ==> && r.value in old(free)
                          && free == old(free) - {r.value}
                          && refs[r.value] == 0
                          && HoldersIn(pt, r.value) == {}
                          && (zero ==> mem == old(mem)[r.value := ZeroPage()])
                          && (!zero ==> mem == old(mem))
      ensures refs == old(refs) && pt == old(pt) && ptFrames == old(ptFrames)
      ensures envs == old(envs) && tables == old(tables) && curenv == old(curenv) && nextId == old(nextId)
    {
      if free == {} {
        return None;
      }
      var f :| f in free;
      FreeNotMapped(f);
      free := free - {f};
      if zero {
        mem := mem[f := ZeroPage()];
      }
      r := Some(f);
    }

    /** page_free: return an unreferenced, unmapped frame to the free list. */
    method PageFree(f: Frame)
      requires Valid()
      requires f < npages && f !in free && f !in ptFrames && refs[f] == 0
      modifies this`free
      ensures Valid()
      ensures free == old(free) + {f}
    {
      free := free + {f};
    }

    /** A one-byte store by user code of `e`; `ok` is false when the access faults. */
    method UserStore(e: EnvId, va: u32, b: bv8) returns (ok: bool)
      requires Valid()
      modifies this`mem
      ensures Valid()
      ensures ok <==> (e, PageNumber(va)) in pt && UserWritable(pt[(e, PageNumber(va))].perm)
      ensures mem == Store(pt, old(mem), e, va, b)
    {
      var s := (e, PageNumber(va));
      ok := s in pt && UserWritable(pt[s].perm);
      if ok {
        MappedFrameOk(s);
      }
      mem := Store(pt, mem, e, va, b);
    }

    /** memmove of one whole page by user code of `e`; `ok` is false when an access faults. */
    method UserCopyPage(e: EnvId, dst: nat, src: nat) returns (ok: bool)
      requires Valid()
      modifies this`mem
      ensures Valid()
      ensures ok <==> && (e, dst) in pt && UserWritable(pt[(e, dst)].perm)
                      && (e, src) in pt && UserReadable(pt[(e, src)].perm)
      ensures mem == CopyPage(pt, old(mem), e, dst, src)
    {
      ok := (e, dst) in pt && UserWritable(pt[(e, dst)].perm) && (e, src) in pt && UserReadable(pt[(e, src)].perm);
      if ok {
        MappedFrameOk((e, dst));
        MappedFrameOk((e, src));
      }
      mem := CopyPage(pt, mem, e, dst, src);
    }

    /**
     * sys_exofork, kernel side: a new environment, child of the caller, with
     * an empty address space and not runnable; -E_NO_FREE_ENV when all NENV
     * slots are taken.
     */
    method Exofork() returns (r: EnvId)
      requires Valid()
      modifies this`envs, this`nextId
      ensures Valid()
      ensures r == -E_NO_FREE_ENV <==> |old(envs)| >= NENV
      ensures r == -E_NO_FREE_ENV ==> envs == old(envs) && nextId == old(nextId)
      ensures r != -E_NO_FREE_ENV ==>
                && r > 0 && r !in old(envs) && r != curenv
                && envs == old(envs)[r := EnvInfo(curenv, NotRunnable)]
                && (forall s :: s in pt ==> s.0 != r)
                && (forall t :: t in tables ==> t.0 != r)
    {
      if |envs| >= NENV {
        return -E_NO_FREE_ENV;
      }
      r := nextId;
      envs := envs[r := EnvInfo(curenv, NotRunnable)];
      nextId := nextId + 1;
    }

    /** sys_env_set_status, kernel side: the caller or one of its children gets `status`. */
    method SetStatus(envid: int, status: EnvStatus) returns (r: int)
      requires Valid()
      modifies this`envs
      ensures Valid()
      ensures r == 0 || r == -E_BAD_ENV
      ensures r == -E_BAD_ENV <==> old(ResolveEnv(envid, true)).None?
      ensures r == -E_BAD_ENV ==> envs == old(envs)
      ensures r == 0 ==> var t := old(ResolveEnv(envid, true)).value;
                         envs == old(envs)[t := EnvInfo(old(envs)[t].parent, status)]
    {
      var t := ResolveEnv(envid, true);
      if t.None? {
        return -E_BAD_ENV;
      }
      envs := envs[t.value := EnvInfo(envs[t.value].parent, status)];
      r := 0;
    }

    /**
     * Make slot `s` hold `v`, moving one reference from the frame it held (freed
     * when that was its last reference) to `v.frame`.
     */
    method SetEntry(s: Slot, v: Pte)
      requires Valid()
      requires s.0 in envs && (s.0, DirIndex(s.1)) in tables
      requires v.frame < npages && v.frame !in free && v.frame !in ptFrames
      modifies this`pt, this`refs, this`free
      ensures Valid()
      ensures pt == old(pt)[s := v]
      ensures refs == RefsAfterSet(old(refs), old(pt), s, v)
      ensures free == old(free) + Released(old(refs), old(pt), s, Some(v.frame))
    {
      InvAfterSet(State(), s, v);
      free := free + Released(refs, pt, s, Some(v.frame));
      refs := RefsAfterSet(refs, pt, s, v);
      pt := pt[s := v];
    }

    /** Clear slot `s`, dropping its frame's reference (freed when it was the last). */
    method ClearEntry(s: Slot)
      requires Valid()
      modifies this`pt, this`refs, this`free
      ensures Valid()
      ensures pt == old(pt) - {s}
      ensures refs == RefsAfterClear(old(refs), old(pt), s)
      ensures free == old(free) + Released(old(refs), old(pt), s, None)
    {
      InvAfterClear(State(), s);
      free := free + Released(refs, pt, s, None);
      refs := RefsAfterClear(refs, pt, s);
      pt := pt - {s};
    }

    /** pgdir_walk with create set: give `e` a second-level table for directory slot `d`. */
    method AllocTable(e: EnvId, d: nat) returns (t: Frame)
      requires Valid() && e in envs && free != {}
      modifies this`free, this`ptFrames, this`refs, this`tables
      ensures Valid()
      ensures tables == old(tables) + {(e, d)}
      ensures t in old(free) && free == old(free) - {t} && ptFrames == old(ptFrames) + {t}
      ensures refs == old(refs)[t := 1]
      ensures forall s :: s in pt ==> pt[s].frame != t
    {
      t :| t in free;
      FreeNotMapped(t);
      free := free - {t};
      ptFrames := ptFrames + {t};
      refs := refs[t := 1];
      tables := tables + {(e, d)};
    }

    /**
     * pgdir_walk with create set, as page_insert uses it for page `pn` of `e`:
     * fails, changing nothing, only when the table is missing and no frame is
     * free; otherwise the table exists afterwards, any frame it took came off
     * the free list, and the frame mapped at that page keeps its count.
     */
    method WalkCreate(e: EnvId, pn: nat) returns (ok: bool)
      requires Valid() && e in envs
      modifies this`free, this`ptFrames, this`refs, this`tables
      ensures Valid()
      ensures !ok <==> (e, DirIndex(pn)) !in old(tables) && old(free) == {}
      ensures !ok ==> unchanged(this)
      ensures ok ==> (e, DirIndex(pn)) in tables && old(tables) <= tables
      ensures free <= old(free) && old(free) - free <= ptFrames && old(ptFrames) <= ptFrames
      ensures ptFrames - old(ptFrames) <= old(free)
      ensures (e, pn) in pt ==> pt[(e, pn)].frame < |refs| && refs[pt[(e, pn)].frame] == old(refs)[pt[(e, pn)].frame]
    {
      if (e, DirIndex(pn)) in tables {
        return true;
      }
      if free == {} {
        return false;
      }
      var t := AllocTable(e, DirIndex(pn));
      ok := true;
    }

    /**
     * page_insert: map frame `f` at page `pn` of `e` with `perm | PTE_P`,
     * replacing (and dereferencing) any previous entry there. Fails with
     * -E_NO_MEM, changing nothing, when the second-level table is missing and
     * no frame is free to hold it.
     */
    method PageInsert(e: EnvId, f: Frame, pn: nat, perm: bv32) returns (r: int)
      requires Valid()
      requires e in envs && f < npages && f !in free && f !in ptFrames
      modifies this
      ensures Valid()
      ensures r == 0 || r == -E_NO_MEM
      ensures r == -E_NO_MEM <==> (e, DirIndex(pn)) !in old(tables) && old(free) == {}
      ensures r != 0 ==> unchanged(this)
      ensures r == 0 ==> && pt == old(pt)[(e, pn) := Pte(f, perm | PTE_P)]
                         && (e, DirIndex(pn)) in tables && old(tables) <= tables
                         && free - old(free) == Released(old(refs), old(pt), (e, pn), Some(f))
                         && old(free) - free <= ptFrames
      ensures mem == old(mem) && envs == old(envs) && curenv == old(curenv) && nextId == old(nextId)
    {
      var ok := WalkCreate(e, pn);
      if !ok {
        return -E_NO_MEM;
      }
      SetEntry((e, pn), Pte(f, perm | PTE_P));
      r := 0;
    }

    /**
     * page_remove: clear the entry at page `pn` of `e`, if any, dereferencing
     * its frame; a no-op when nothing is mapped there.
     */
    method PageRemove(e: EnvId, pn: nat)
      requires Valid()
      modifies this
      ensures Valid()
      ensures pt == old(pt) - {(e, pn)}
      ensures (e, pn) !in old(pt) ==> unchanged(this)
      ensures (e, pn) in old(pt) ==> free == old(free) + Released(old(refs), old(pt), (e, pn), None)
      ensures mem == old(mem) && envs == old(envs) && tables == old(tables) && ptFrames == old(ptFrames)
      ensures curenv == old(curenv) && nextId == old(nextId)
    {
      if (e, pn) !in pt {
        return;
      }
      ClearEntry((e, pn));
    }
  }
}
